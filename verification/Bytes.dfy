/** Bytes, powers of two and little-endian words: the arithmetic every other module builds on. */
module Bytes {

  type byte = x: int | 0 <= x < 256

  /** A scalar width the codec can load and store (1, 2, 4 or 8 bytes). */
  type Width = w: int | w == 1 || w == 2 || w == 4 || w == 8 witness 1

  /** Bits of the value type: 64, or 32 in the build without 64-bit values. */
  type WordSize = w: int | w == 32 || w == 64 witness 64

  datatype Option<+T> = None | Some(value: T)

  function Pow2(n: nat): (p: nat)
    ensures p >= 1
  {
    if n == 0 then 1 else 2 * Pow2(n - 1)
  }

  lemma {:induction false} Pow2Add(a: nat, b: nat)
    ensures Pow2(a + b) == Pow2(a) * Pow2(b)
  {
    if a > 0 {
      Pow2Add(a - 1, b);
      assert a - 1 + b == a + b - 1;
      MulAssoc(2, Pow2(a - 1), Pow2(b));
    }
  }

  lemma MulAssoc(a: int, b: int, c: int)
    ensures a * b * c == a * (b * c)
  {
  }

  lemma MulLess(a: nat, b: nat, m: nat)
    requires a <= b
    ensures a * m <= b * m
  {
  }

  /** The number of values a w-byte word can hold. */
  function Span(w: nat): (p: nat)
    ensures p >= 1
  {
    if w == 0 then 1 else 256 * Span(w - 1)
  }

  lemma {:induction false} SpanIsPow2(w: nat)
    ensures Span(w) == Pow2(8 * w)
  {
    if w > 0 {
      SpanIsPow2(w - 1);
      Pow2Add(8, 8 * (w - 1));
      assert Pow2(8) == 256 by {
        assert Pow2(2) == 4;
        assert Pow2(4) == 16;
        assert Pow2(6) == 64;
      }
    }
  }

  /** The low w bytes of v, least significant first. */
  function LowBytes(v: nat, w: nat): (bs: seq<byte>)
    ensures |bs| == w
  {
    if w == 0 then [] else [v % 256] + LowBytes(v / 256, w - 1)
  }

  /** Byte i of a word is its i-th digit in base 256. */
  lemma {:induction false} LowBytesAt(v: nat, w: nat, i: nat)
    requires i < w
    ensures LowBytes(v, w)[i] == v / Span(i) % 256
  {
    if i > 0 {
      LowBytesAt(v / 256, w - 1, i - 1);
      DivDiv(v, 256, Span(i - 1));
    }
  }

  lemma DivDiv(v: nat, a: nat, b: nat)
    requires a > 0 && b > 0
    ensures a * b > 0 && v / a / b == v / (a * b)
  {
    var u := v / a;
    DivTwice(v, a, b, u, v % a, u / b, u % b);
  }

  lemma DivTwice(v: nat, a: nat, b: nat, u: nat, s: nat, q: nat, r: nat)
    requires v == a * u + s && s < a && u == b * q + r && r < b
    ensures a * b > 0 && v / (a * b) == q
  {
    MulLess(1, a, b);
    MulAssoc(a, b, q);
    MulAdd(a, b * q, r);
    MulLess(r + 1, b, a);
    QuotientIs(v, a * b, q, a * r + s);
  }

  lemma MulAdd(a: int, x: int, y: int)
    ensures a * (x + y) == a * x + a * y
  {
  }

  lemma QuotientIs(v: nat, m: nat, q: nat, r: nat)
    requires m > 0 && v == m * q + r && r < m
    ensures v / m == q
  {
    var p := v / m;
    if p < q { MulLess(p + 1, q, m); } else if p > q { MulLess(q + 1, p, m); }
  }

  /** The unsigned word a little-endian byte string denotes. */
  function Word(bs: seq<byte>): nat
  {
    if bs == [] then 0 else bs[0] + 256 * Word(bs[1..])
  }

  lemma {:induction false} WordBound(bs: seq<byte>)
    ensures Word(bs) < Span(|bs|)
  {
    if bs != [] {
      WordBound(bs[1..]);
    }
  }

  lemma {:induction false} WordOfLowBytes(v: nat, w: nat)
    requires v < Span(w)
    ensures Word(LowBytes(v, w)) == v
  {
    if w > 0 {
      WordOfLowBytes(v / 256, w - 1);
      assert LowBytes(v, w)[1..] == LowBytes(v / 256, w - 1);
    }
  }

  lemma {:induction false} LowBytesOfWord(bs: seq<byte>)
    ensures LowBytes(Word(bs), |bs|) == bs
  {
    if bs != [] {
      LowBytesOfWord(bs[1..]);
      assert Word(bs) % 256 == bs[0] && Word(bs) / 256 == Word(bs[1..]);
    }
  }

  function Zeros(n: nat): (bs: seq<byte>)
    ensures |bs| == n && forall i :: 0 <= i < n ==> bs[i] == 0
  {
    seq(n, _ => 0)
  }

  function Min(a: nat, b: nat): nat { if a < b then a else b }
  function Max(a: nat, b: nat): nat { if a < b then b else a }
}

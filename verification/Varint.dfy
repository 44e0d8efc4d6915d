/** Unsigned LEB128 (DWARF 5, section 7.6) bounded to W bits, and ZigZag. */
module Varint {
  import opened Bytes

  /** The accumulator that survives calls: the bits read so far and the shift of the next chunk. */
  datatype Acc = Acc(value: nat, shift: nat)

  const ZERO := Acc(0, 0)

  datatype VarintStep = More(acc: Acc) | Done(value: nat) | Overflow

  /** One byte into the accumulator, with the tests in the decoder's order. */
  function Step(W: nat, acc: Acc, b: byte): VarintStep
  {
    if acc.shift >= W then Overflow
    else
      var room := W - acc.shift;
      if room < 7 && (b % 128) / Pow2(room) != 0 then Overflow
      else
        var acc' := Acc(acc.value + (b % 128) * Pow2(acc.shift), acc.shift + 7);
        if b < 128 then Done(acc'.value)
        else if acc'.shift >= W then Overflow
        else More(acc')
  }

  datatype VarintResult = Read(value: nat, len: nat) | Short | Bad

  /** The accumulator run over a whole byte string. */
  function Accumulate(W: nat, acc: Acc, bs: seq<byte>): VarintResult
    decreases |bs|
  {
    if bs == [] then Short
    else
      match Step(W, acc, bs[0])
      case Overflow => Bad
      case Done(v) => Read(v, 1)
      case More(acc') =>
        match Accumulate(W, acc', bs[1..])
        case Read(v, n) => Read(v, n + 1)
        case Short => Short
        case Bad => Bad
  }

  /** Base-128 value of a group string, least significant group first, flags ignored. */
  function Groups(bs: seq<byte>): nat
  {
    if bs == [] then 0 else bs[0] % 128 + 128 * Groups(bs[1..])
  }

  /** How many bytes a W-bit value may take. */
  function MaxLen(W: nat): nat { (W + 6) / 7 }

  /** Length of the run of continuation bytes at the front of bs. */
  function Run(bs: seq<byte>): (k: nat)
    ensures k <= |bs|
    ensures forall i :: 0 <= i < k ==> bs[i] >= 128
    ensures k < |bs| ==> bs[k] < 128
  {
    if bs != [] && bs[0] >= 128 then 1 + Run(bs[1..]) else 0
  }

  /**
   * What a bounded LEB128 reader must answer, in closed form. The verdict falls on byte MaxLen(W)
   * at the latest: that byte must end the varint and keep its value below 2^W.
   */
  function ReadVarint(W: nat, bs: seq<byte>): VarintResult
  {
    var m := MaxLen(W);
    var k := Run(bs);
    if k < |bs| && k < m && Groups(bs[..k + 1]) < Pow2(W) then Read(Groups(bs[..k + 1]), k + 1)
    else if k == |bs| && k < m then Short
    else Bad
  }

  lemma Pow2Seven()
    ensures Pow2(7) == 128
  {
    assert Pow2(3) == 8;
    assert Pow2(5) == 32;
  }

  lemma {:induction false} GroupsAppend(p: seq<byte>, b: byte)
    ensures Groups(p + [b]) == Groups(p) + (b % 128) * Pow2(7 * |p|)
  {
    if p == [] {
      assert p + [b] == [b];
    } else {
      assert (p + [b])[1..] == p[1..] + [b];
      GroupsAppend(p[1..], b);
      Pow2Add(7, 7 * |p[1..]|);
      Pow2Seven();
      var x, q := b % 128, Pow2(7 * |p[1..]|);
      assert 128 * (x * q) == x * (128 * q);
    }
  }

  lemma {:induction false} GroupsBound(p: seq<byte>)
    ensures Groups(p) < Pow2(7 * |p|)
  {
    if p != [] {
      GroupsBound(p[1..]);
      Pow2Add(7, 7 * |p[1..]|);
      Pow2Seven();
    }
  }

  /** The chunk test is exactly "the value so far no longer fits in W bits". */
  lemma {:induction false} ChunkTest(W: nat, p: seq<byte>, b: byte)
    requires 7 * |p| < W
    ensures var room := W - 7 * |p|;
      (room < 7 && (b % 128) / Pow2(room) != 0) <==> Groups(p + [b]) >= Pow2(W)
  {
    var s, room, x := 7 * |p|, W - 7 * |p|, b % 128;
    GroupsAppend(p, b);
    GroupsBound(p);
    Pow2Add(room, s);
    assert room + s == W;
    TopChunk(x, Groups(p), Pow2(s), Pow2(room));
    if room >= 7 {
      Pow2Monotone(7, room);
      Pow2Seven();
    } else {
      DivSmall(x, Pow2(room));
    }
  }

  lemma TopChunk(x: nat, low: nat, p: nat, r: nat)
    requires low < p
    ensures x >= r <==> low + x * p >= r * p
  {
    if x >= r {
      MulLess(r, x, p);
    } else {
      MulLess(x + 1, r, p);
      assert (x + 1) * p == x * p + p;
    }
  }

  lemma DivSmall(x: nat, m: nat)
    requires m > 0
    ensures x / m == 0 <==> x < m
  {
    if x < m {
      assert x / m == 0;
    } else {
      assert x == m * (x / m) + x % m;
    }
  }

  /** A last byte that fits ends the varint with the groups read so far. */
  lemma {:induction false} LastByte(W: nat, p: seq<byte>, b: byte, rest: seq<byte>)
    requires (forall i :: 0 <= i < |p| ==> p[i] >= 128) && 7 * |p| < W && b < 128
    ensures ReadVarint(W, p + [b] + rest) == if Groups(p + [b]) < Pow2(W) then Read(Groups(p + [b]), |p| + 1) else Bad
  {
    hide Groups, Pow2;
    var bs := [b] + rest;
    RunSkips(p, bs);
    assert p + [b] + rest == p + bs && Run(bs) == 0;
    assert (p + bs)[..|p| + 1] == p + [b];
    assert |p| < MaxLen(W);
  }

  /** A continuation byte in the last place demands a byte past the limit. */
  lemma {:induction false} OneTooMany(W: nat, p: seq<byte>, rest: seq<byte>)
    requires (forall i :: 0 <= i < |p| ==> p[i] >= 128) && 7 * |p| >= W
    ensures ReadVarint(W, p + rest) == Bad
  {
    hide Groups, Pow2;
    RunSkips(p, rest);
    assert MaxLen(W) <= |p|;
  }

  /** One step of the accumulator, told by the groups it stands for. */
  lemma {:induction false} StepGroups(W: nat, p: seq<byte>, b: byte)
    requires 7 * |p| < W
    ensures Step(W, Acc(Groups(p), 7 * |p|), b)
      == if Groups(p + [b]) >= Pow2(W) then Overflow
         else if b < 128 then Done(Groups(p + [b]))
         else if 7 * |p + [b]| >= W then Overflow
         else More(Acc(Groups(p + [b]), 7 * |p + [b]|))
  {
    GroupsAppend(p, b);
    ChunkTest(W, p, b);
    hide Groups, Pow2;
    assert |p + [b]| == |p| + 1;
  }

  /** Having read the continuation bytes p, the accumulator answers for bs what the closed form answers for p + bs. */
  lemma {:induction false} AccumulateFrom(W: nat, p: seq<byte>, bs: seq<byte>)
    requires forall i :: 0 <= i < |p| ==> p[i] >= 128
    requires 7 * |p| < W
    ensures var r := ReadVarint(W, p + bs);
      Accumulate(W, Acc(Groups(p), 7 * |p|), bs)
        == if r.Read? && r.len > |p| then Read(r.value, r.len - |p|) else r
    ensures ReadVarint(W, p + bs).Read? ==> ReadVarint(W, p + bs).len > |p|
    decreases |bs|
  {
    if bs == [] {
      NothingYet(W, p);
    } else {
      hide Groups, Pow2, ReadVarint, Step;
      var b, rest := bs[0], bs[1..];
      var q := p + [b];
      assert p + bs == q + rest;
      StepGroups(W, p, b);
      if b < 128 {
        LastByte(W, p, b, rest);
      } else if Groups(q) >= Pow2(W) {
        LargePrefix(W, q, rest);
      } else if 7 * |q| >= W {
        OneTooMany(W, q, rest);
      } else {
        AccumulateFrom(W, q, rest);
      }
    }
  }

  lemma {:induction false} NothingYet(W: nat, p: seq<byte>)
    requires (forall i :: 0 <= i < |p| ==> p[i] >= 128) && 7 * |p| < W
    ensures ReadVarint(W, p + []) == Short
  {
    hide Groups, Pow2;
    RunSkips(p, []);
    assert |p| < MaxLen(W);
  }

  lemma {:induction false} RunSkips(p: seq<byte>, bs: seq<byte>)
    requires forall i :: 0 <= i < |p| ==> p[i] >= 128
    ensures Run(p + bs) == |p| + Run(bs)
  {
    if p == [] {
      assert p + bs == bs;
    } else {
      assert (p + bs)[1..] == p[1..] + bs;
      RunSkips(p[1..], bs);
    }
  }

  /** A prefix of continuation bytes whose groups already exceed W bits dooms every completion. */
  lemma {:induction false} LargePrefix(W: nat, p: seq<byte>, bs: seq<byte>)
    requires forall i :: 0 <= i < |p| ==> p[i] >= 128
    requires p != [] && Groups(p) >= Pow2(W) && 7 * (|p| - 1) < W
    ensures ReadVarint(W, p + bs) == Bad
  {
    RunSkips(p, bs);
    if 7 * |p| < W {
      GroupsBound(p);
      Pow2Monotone(7 * |p|, W);
      assert false;
    }
    assert MaxLen(W) <= |p|;
  }

  /** The accumulator decides exactly as the closed form does, from a fresh start, on every input. */
  lemma {:induction false} AccumulatorIsExact(W: nat, bs: seq<byte>)
    requires W > 0
    ensures Accumulate(W, ZERO, bs) == ReadVarint(W, bs)
  {
    AccumulateFrom(W, [], bs);
    assert [] + bs == bs;
  }

  /** Behind the continuation bytes p, byte b sets a bit at or past W or demands a byte past the limit. */
  ghost predicate Offends(W: nat, p: seq<byte>, b: byte)
  {
    Groups(p + [b]) >= Pow2(W) || (b >= 128 && |p| + 1 >= MaxLen(W))
  }

  /** The verdict falls on the byte that settles it: the n-th is the first refused iff it is the first that offends. */
  lemma {:induction false} RefusedOnOffendingByte(W: nat, bs: seq<byte>, n: nat)
    requires W > 0 && 1 <= n <= |bs|
    ensures Accumulate(W, ZERO, bs[..n - 1]) == Short && Accumulate(W, ZERO, bs[..n]) == Bad
      <==> n <= MaxLen(W) && (forall i :: 0 <= i < n - 1 ==> bs[i] >= 128) && Offends(W, bs[..n - 1], bs[n - 1])
  {
    var p, b := bs[..n - 1], bs[n - 1];
    AccumulatorIsExact(W, p);
    AccumulatorIsExact(W, bs[..n]);
    assert bs[..n] == p + [b];
    ShortMeaning(W, p);
    if ReadVarint(W, p) == Short {
      assert p + [b] + [] == p + [b];
      if b < 128 {
        LastByte(W, p, b, []);
      } else {
        ShortMeaning(W, p + [b]);
        ContinuedMeaning(W, p + [b]);
        assert |p| + 1 < MaxLen(W) ==> 7 * |p + [b]| < W;
        if |p| + 1 < MaxLen(W) {
          GroupsBound(p + [b]);
          Pow2Monotone(7 * |p + [b]|, W);
        }
      }
    }
  }

  lemma {:induction false} ShortMeaning(W: nat, p: seq<byte>)
    ensures ReadVarint(W, p) == Short <==> |p| < MaxLen(W) && forall i :: 0 <= i < |p| ==> p[i] >= 128
    ensures |p| < MaxLen(W) ==> 7 * |p| < W
  {
    hide Groups, Pow2;
    if forall i :: 0 <= i < |p| ==> p[i] >= 128 {
      RunSkips(p, []);
      assert p + [] == p;
    }
  }

  /** Continuation bytes only: cut off or too long, never a value. */
  lemma {:induction false} ContinuedMeaning(W: nat, p: seq<byte>)
    requires forall i :: 0 <= i < |p| ==> p[i] >= 128
    ensures ReadVarint(W, p) == if |p| < MaxLen(W) then Short else Bad
  {
    hide Groups, Pow2;
    RunSkips(p, []);
    assert p + [] == p;
  }

  /** The encoder: minimal LEB128. */
  function Encode(v: nat): (bs: seq<byte>)
    ensures |bs| >= 1
  {
    if v < 128 then [v] else [128 + v % 128] + Encode(v / 128)
  }

  lemma {:induction false} EncodeGroups(v: nat)
    ensures Run(Encode(v)) == |Encode(v)| - 1 && Groups(Encode(v)) == v
  {
    if v >= 128 {
      EncodeGroups(v / 128);
      assert Encode(v)[1..] == Encode(v / 128);
    }
  }

  lemma {:induction false} EncodeMinimal(v: nat)
    ensures |Encode(v)| > 1 ==> Pow2(7 * (|Encode(v)| - 1)) <= v
  {
    if v >= 128 {
      EncodeMinimal(v / 128);
      Pow2Seven();
      var n := |Encode(v / 128)|;
      assert |Encode(v)| == n + 1;
      if n > 1 {
        Pow2Add(7, 7 * (n - 1));
        hide Pow2, Encode;
        assert 7 + 7 * (n - 1) == 7 * n;
        MulLess(Pow2(7 * (n - 1)), v / 128, 128);
      }
    }
  }

  lemma {:induction false} EncodeShape(v: nat)
    ensures Run(Encode(v)) == |Encode(v)| - 1
    ensures Groups(Encode(v)) == v
    ensures |Encode(v)| > 1 ==> Pow2(7 * (|Encode(v)| - 1)) <= v
  {
    hide Pow2, Run, Groups, Encode;
    EncodeGroups(v);
    EncodeMinimal(v);
  }

  lemma {:induction false} Pow2Monotone(a: nat, b: nat)
    requires a <= b
    ensures Pow2(a) <= Pow2(b)
  {
    Pow2Add(a, b - a);
    MulLess(1, Pow2(b - a), Pow2(a));
  }

  /** The first n bytes of bs are one LEB128 encoding, minimal or not, of the W-bit value v. */
  ghost predicate IsVarint(W: nat, bs: seq<byte>, v: nat, n: nat)
  {
    && 1 <= n <= |bs| && n <= MaxLen(W)
    && (forall i :: 0 <= i < n - 1 ==> bs[i] >= 128) && bs[n - 1] < 128
    && v == Groups(bs[..n]) && v < Pow2(W)
  }

  /** Every byte string the reader accepts denotes its groups, fits, and is one terminated run; and conversely. */
  lemma ReadVarintMeaning(W: nat, bs: seq<byte>, v: nat, n: nat)
    ensures ReadVarint(W, bs) == Read(v, n) <==> IsVarint(W, bs, v, n)
  {
    if IsVarint(W, bs, v, n) {
      assert bs == bs[..n - 1] + bs[n - 1..];
      RunSkips(bs[..n - 1], bs[n - 1..]);
      assert bs[n - 1..][0] < 128;
      assert Run(bs) == n - 1;
    }
  }

  /** A minimal encoding of a W-bit value is within the limit. */
  lemma {:induction false} EncodeIsVarint(W: nat, v: nat, rest: seq<byte>)
    requires v < Pow2(W) && W > 0
    ensures IsVarint(W, Encode(v) + rest, v, |Encode(v)|)
  {
    var e := Encode(v);
    EncodeShape(v);
    hide Groups, Pow2, Encode, Run;
    var n := |e|;
    assert (e + rest)[..n] == e;
    if n > 1 && n > MaxLen(W) {
      Pow2Monotone(W, 7 * (n - 1));
      assert false;
    }
  }

  /** Reading back a minimal encoding, whatever follows it, gives the value and stops after its last byte. */
  lemma {:induction false} ReadEncode(W: nat, v: nat, rest: seq<byte>)
    requires v < Pow2(W)
    ensures ReadVarint(W, Encode(v) + rest) == if W == 0 then Bad else Read(v, |Encode(v)|)
  {
    hide Groups, Pow2, Run, Encode, IsVarint;
    if W > 0 {
      EncodeIsVarint(W, v, rest);
      ReadVarintMeaning(W, Encode(v) + rest, v, |Encode(v)|);
    }
  }

  // ---------------------------------------------------------------- ZigZag

  /** ZigZag on unbounded integers: the sign moves to the lowest bit. */
  function ZigZag(v: int): (z: nat)
  {
    if v >= 0 then 2 * v else -2 * v - 1
  }

  function UnZigZag(z: nat): int
  {
    if z % 2 == 0 then z / 2 else -(z / 2) - 1
  }

  // ---------------------------------------------------------------- ZigZag by shifts and xor

  /** Bitwise exclusive or of two n-bit words. */
  function Xor(n: nat, a: nat, b: nat): (r: nat)
    ensures r < Pow2(n)
  {
    if n == 0 then 0 else (a + b) % 2 + 2 * Xor(n - 1, a / 2, b / 2)
  }

  lemma {:induction false} XorZero(n: nat, a: nat)
    requires a < Pow2(n)
    ensures Xor(n, a, 0) == a
  {
    if n > 0 { XorZero(n - 1, a / 2); }
  }

  lemma {:induction false} XorOnes(n: nat, a: nat)
    requires a < Pow2(n)
    ensures Xor(n, a, Pow2(n) - 1) == Pow2(n) - 1 - a
  {
    if n > 0 {
      var m := Pow2(n - 1);
      assert (Pow2(n) - 1) / 2 == m - 1 && (Pow2(n) - 1) % 2 == 1;
      XorOnes(n - 1, a / 2);
      assert a == 2 * (a / 2) + a % 2;
    }
  }

  /** The n-bit word of an integer, and the signed integer of an n-bit word (two's complement). */
  function ToWord(n: nat, v: int): (r: nat)
    ensures r < Pow2(n)
  {
    v % Pow2(n)
  }

  function FromWord(n: nat, u: nat): int
  {
    if 2 * u >= Pow2(n) then u - Pow2(n) else u
  }

  predicate InRange(n: nat, v: int)
  {
    0 - Pow2(n) <= 2 * v < Pow2(n)
  }

  /** A right shift of a signed integer keeps the sign: it rounds down. */
  function ShiftRight(v: int, k: nat): int
  {
    v / Pow2(k)
  }

  /** (u >> 1) ^ -(u & 1), on W-bit words. */
  function ZigZagDecode(W: nat, u: nat): int
  {
    FromWord(W, Xor(W, u / 2, ToWord(W, 0 - u % 2)))
  }

  /** (v << 1) ^ (v >> (W - 1)), on W-bit words. */
  function ZigZagEncode(W: nat, v: int): nat
    requires W > 0
  {
    Xor(W, ToWord(W, 2 * ToWord(W, v)), ToWord(W, ShiftRight(v, W - 1)))
  }

  lemma {:induction false} SmallWord(n: nat, v: int)
    requires 0 - Pow2(n) <= v < Pow2(n)
    ensures ToWord(n, v) == if v >= 0 then v else v + Pow2(n)
  {
    hide Pow2;
    var m: int := Pow2(n);
    if v == 0 - m {
      assert v == m * -1 + 0;
    } else {
      ModRange(v, m);
    }
  }

  /** At every width the shift-and-xor decoder is the arithmetic one. */
  lemma {:induction false} ZigZagDecodeBits(W: nat, u: nat)
    requires W > 0 && u < Pow2(W)
    ensures ZigZagDecode(W, u) == UnZigZag(u) && InRange(W, UnZigZag(u))
  {
    var m := Pow2(W);
    assert m == 2 * Pow2(W - 1);
    hide Pow2, Xor;
    SmallWord(W, 0 - u % 2);
    if u % 2 == 0 { XorZero(W, u / 2); } else { XorOnes(W, u / 2); }
  }

  lemma {:induction false} SignShift(W: nat, v: int)
    requires W > 0 && InRange(W, v)
    ensures ShiftRight(v, W - 1) == if v >= 0 then 0 else -1
  {
    assert Pow2(W) == 2 * Pow2(W - 1);
    hide Pow2;
    FloorOf(v, Pow2(W - 1));
  }

  /** Rounding down to 0 and to -1, told by the bounds. */
  lemma FloorOf(v: int, m: nat)
    requires m > 0
    ensures v / m == 0 <==> 0 <= v < m
    ensures v / m == -1 <==> 0 - m <= v < 0
  {
    var q: int, r: int := v / m, v % m;
    assert v == q * m + r && 0 <= r < m;
    if q >= 1 { MulLess(1, q, m); }
    if q <= -2 { MulLess(2, 0 - q, m); }
  }

  /** At every width the shift-and-xor encoder is the arithmetic one, on every integer of that width. */
  lemma {:induction false} ZigZagEncodeBits(W: nat, v: int)
    requires W > 0 && InRange(W, v)
    ensures ZigZagEncode(W, v) == ZigZag(v) < Pow2(W)
  {
    var m := Pow2(W);
    SignShift(W, v);
    hide Pow2, Xor;
    SmallWord(W, v);
    SmallWord(W, if v >= 0 then 0 else -1);
    Doubled(W, v);
    if v >= 0 { XorZero(W, 2 * v); } else { XorOnes(W, 2 * v + m); }
  }

  lemma {:induction false} Doubled(W: nat, v: int)
    requires InRange(W, v) && ToWord(W, v) == if v >= 0 then v else v + Pow2(W)
    ensures ToWord(W, 2 * ToWord(W, v)) == if v >= 0 then 2 * v else 2 * v + Pow2(W)
  {
    hide Pow2;
    var m := Pow2(W);
    if v >= 0 {
      ModRange(2 * v, m);
    } else {
      ModOnce(2 * v + m, m);
    }
  }

  lemma ModOnce(x: nat, m: nat)
    requires 0 < m && x < m
    ensures (x + m) % m == x
  {
    assert x + m == m * 1 + x;
  }

  /** The decoder inverts the encoder on every W-bit integer, and the encoder the decoder on every word. */
  lemma {:induction false} ZigZagInverse(W: nat, v: int, u: nat)
    requires W > 0 && InRange(W, v) && u < Pow2(W)
    ensures ZigZagDecode(W, ZigZagEncode(W, v)) == v
    ensures ZigZagEncode(W, ZigZagDecode(W, u)) == u
  {
    hide ZigZagDecode, ZigZagEncode, Pow2, InRange;
    ZigZagEncodeBits(W, v);
    ZigZagDecodeBits(W, ZigZag(v));
    ZigZagDecodeBits(W, u);
    ZigZagEncodeBits(W, UnZigZag(u));
  }

  // ---------------------------------------------------------------- widths

  /** Two's-complement reading of the low w bytes. */
  function Signed(raw: nat, w: nat): int
  {
    if 2 * raw >= Span(w) then raw - Span(w) else raw
  }

  /** The w low bytes of a signed value, as an unsigned word. */
  function LowWord(v: int, w: nat): (r: nat)
    ensures r < Span(w)
  {
    v % Span(w)
  }

  predicate FitsSigned(v: int, w: nat)
  {
    0 - Span(w) <= 2 * v < Span(w)
  }

  /** _fits_signed_n on a W-bit value: always for a target as wide, else both shifts must leave the sign alone. */
  predicate FitsByShift(W: nat, v: int, n: nat)
    requires W > 0 && n > 0
  {
    n >= W || ShiftRight(v, n - 1) == ShiftRight(v, W - 1)
  }

  /** The shift comparison, early exit included, is the range of the target's width. */
  lemma {:induction false} FitsByShiftIsRange(W: nat, v: int, w: nat)
    requires W > 0 && w > 0 && InRange(W, v)
    ensures FitsByShift(W, v, 8 * w) <==> FitsSigned(v, w)
  {
    SpanIsPow2(w);
    var n := 8 * w;
    if n >= W {
      Pow2Monotone(W, n);
    } else {
      SignShift(W, v);
      assert Pow2(n) == 2 * Pow2(n - 1);
      hide Pow2;
      FloorOf(v, Pow2(n - 1));
    }
  }

  /** _fits_unsigned_n on a W-bit value, early exit included, is the range of the target's width. */
  lemma {:induction false} FitsUnsignedIsRange(W: nat, x: nat, w: nat)
    requires x < Pow2(W)
    ensures 8 * w >= W || ShiftRight(x, 8 * w) == 0 <==> x < Span(w)
  {
    SpanIsPow2(w);
    if 8 * w >= W {
      Pow2Monotone(W, 8 * w);
    } else {
      hide Pow2;
      FloorOf(x, Pow2(8 * w));
    }
  }

  /** A w-byte destination takes a signed value iff its ZigZag image is below 2^(8w), and loses nothing then. */
  lemma {:induction false} SignedFit(v: int, w: nat)
    requires w > 0
    ensures UnZigZag(ZigZag(v)) == v
    ensures FitsSigned(v, w) <==> ZigZag(v) < Span(w)
    ensures FitsSigned(v, w) ==> Signed(LowWord(v, w), w) == v
  {
    var m := Span(w);
    assert m == 2 * (128 * Span(w - 1));
    if FitsSigned(v, w) {
      ModRange(v, m);
    }
  }

  lemma ModRange(v: int, m: int)
    requires 0 < m && -m < v < m
    ensures v % m == if v >= 0 then v else v + m
  {
    if v < 0 { ModShift(v, m); }
  }

  lemma ModShift(v: int, m: int)
    requires 0 < m && -m < v < 0
    ensures v % m == v + m
  {
    assert v == m * -1 + (v + m);
  }

  /** Loading a w-byte signed member, zigzagging it, and storing it back is the identity on the raw word. */
  lemma {:induction false} SignedRoundTrip(raw: nat, w: nat)
    requires w > 0 && raw < Span(w)
    ensures var z := ZigZag(Signed(raw, w));
      z < Span(w) && UnZigZag(z) == Signed(raw, w) && FitsSigned(UnZigZag(z), w) && LowWord(UnZigZag(z), w) == raw
  {
    assert Span(w) == 256 * Span(w - 1);
    var v := Signed(raw, w);
    SignedFit(v, w);
    if v < 0 {
      ModShift(v, Span(w));
    } else {
      assert v % Span(w) == v;
    }
  }
}

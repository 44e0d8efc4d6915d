/** The strict UTF-8 validator and the clamp of over-long text, against RFC 3629 (sections 3 and 4). */
module Utf8 {
  import opened Bytes

  /** A Unicode scalar value: a code point that is not a surrogate. */
  predicate IsScalar(cp: int)
  {
    0 <= cp < 0xD800 || 0xE000 <= cp <= 0x10FFFF
  }

  type Scalar = cp: int | 0 <= cp < 0xD800 || 0xE000 <= cp <= 0x10FFFF witness 0

  /** The octet sequence RFC 3629 (section 3) assigns to a scalar value. */
  function EncodeScalar(cp: Scalar): (bs: seq<byte>)
    ensures 1 <= |bs| <= 4
  {
    if cp < 0x80 then [cp]
    else if cp < 0x800 then [0xC0 + cp / 64, 0x80 + cp % 64]
    else if cp < 0x10000 then [0xE0 + cp / 4096, 0x80 + cp / 64 % 64, 0x80 + cp % 64]
    else [0xF0 + cp / 262144, 0x80 + cp / 4096 % 64, 0x80 + cp / 64 % 64, 0x80 + cp % 64]
  }

  function EncodeText(cps: seq<Scalar>): seq<byte>
  {
    if cps == [] then [] else EncodeScalar(cps[0]) + EncodeText(cps[1..])
  }

  predicate IsContinuation(b: byte)
  {
    0x80 <= b < 0xC0
  }

  /** The lead byte's reading: continuation count, payload bits and least non-overlong value; None for a bad lead. */
  function Lead(b0: byte): Option<(nat, nat, nat)>
  {
    if b0 < 0x80 then Some((0, b0, 0))
    else if 0xC0 <= b0 < 0xE0 then Some((1, b0 - 0xC0, 0x80))
    else if 0xE0 <= b0 < 0xF0 then Some((2, b0 - 0xE0, 0x800))
    else if 0xF0 <= b0 < 0xF8 then Some((3, b0 - 0xF0, 0x10000))
    else None
  }

  /** Accumulated code point after a run of continuation bytes, or None at the first byte that is not one. */
  function Gather(cp: nat, bs: seq<byte>): Option<nat>
    decreases |bs|
  {
    if bs == [] then Some(cp)
    else if IsContinuation(bs[0]) then Gather(cp * 64 + (bs[0] - 0x80), bs[1..])
    else None
  }

  /** The code point at the front of bs with its length, or None when no well-formed one stands there. */
  function DecodeScalar(bs: seq<byte>): (r: Option<(Scalar, nat)>)
    requires bs != []
    ensures r.Some? ==> 1 <= r.value.1 <= |bs|
  {
    match Lead(bs[0])
    case None => None
    case Some((need, bits, least)) =>
      if need >= |bs| then None
      else
        match Gather(bits, bs[1..need + 1])
        case None => None
        case Some(cp) => if cp < least || !IsScalar(cp) then None else Some((cp, need + 1))
  }

  function DecodeText(bs: seq<byte>): Option<seq<Scalar>>
  {
    if bs == [] then Some([])
    else
      match DecodeScalar(bs)
      case None => None
      case Some((cp, n)) =>
        match DecodeText(bs[n..])
        case None => None
        case Some(cps) => Some([cp] + cps)
  }

  predicate ValidText(bs: seq<byte>)
  {
    DecodeText(bs).Some?
  }

  lemma {:induction false} GatherOne(cp: nat, a: byte)
    ensures Gather(cp, [a]) == if IsContinuation(a) then Some(cp * 64 + (a - 0x80)) else None
  {
    assert [a][1..] == [];
  }

  lemma {:induction false} GatherTwo(cp: nat, a: byte, b: byte)
    ensures Gather(cp, [a, b]) == if IsContinuation(a) && IsContinuation(b) then Some(cp * 4096 + (a - 0x80) * 64 + (b - 0x80)) else None
  {
    assert [a, b][1..] == [b];
    if IsContinuation(a) {
      GatherOne(cp * 64 + (a - 0x80), b);
    }
  }

  lemma {:induction false} GatherThree(cp: nat, a: byte, b: byte, c: byte)
    ensures Gather(cp, [a, b, c])
      == if IsContinuation(a) && IsContinuation(b) && IsContinuation(c)
         then Some(cp * 262144 + (a - 0x80) * 4096 + (b - 0x80) * 64 + (c - 0x80)) else None
  {
    assert [a, b, c][1..] == [b, c];
    if IsContinuation(a) {
      GatherTwo(cp * 64 + (a - 0x80), b, c);
    }
  }

  lemma {:induction false} GatherNone(cp: nat)
    ensures Gather(cp, []) == Some(cp)
  {
  }

  /** Two continuation bytes read back: the code points of three bytes. */
  lemma ThreeReadBack(cp: Scalar, rest: seq<byte>)
    requires 0x800 <= cp < 0x10000
    ensures DecodeScalar(EncodeScalar(cp) + rest) == Some((cp, 3))
  {
    hide Gather;
    var e := EncodeScalar(cp);
    var bs := e + rest;
    assert bs[0] == e[0] && bs[1..3] == [e[1], e[2]];
    GatherTwo(cp / 4096, e[1], e[2]);
    assert cp == cp / 4096 * 4096 + cp / 64 % 64 * 64 + cp % 64;
  }

  /** ... and of four. */
  lemma FourReadBack(cp: Scalar, rest: seq<byte>)
    requires 0x10000 <= cp
    ensures DecodeScalar(EncodeScalar(cp) + rest) == Some((cp, 4))
  {
    hide Gather;
    var e := EncodeScalar(cp);
    var bs := e + rest;
    assert bs[0] == e[0] && bs[1..4] == [e[1], e[2], e[3]];
    GatherThree(cp / 262144, e[1], e[2], e[3]);
    Recompose(cp);
  }

  lemma Recompose(v: nat)
    ensures v == v / 262144 * 262144 + v / 4096 % 64 * 4096 + v / 64 % 64 * 64 + v % 64
  {
    var a, b, c := v / 64, v / 4096, v / 262144;
    assert v == 64 * a + v % 64;
    assert a == 64 * b + a % 64;
    assert b == 64 * c + b % 64;
  }

  /** One scalar is read back from its encoding, whatever follows. */
  lemma ScalarReadBack(cp: Scalar, rest: seq<byte>)
    ensures DecodeScalar(EncodeScalar(cp) + rest) == Some((cp, |EncodeScalar(cp)|))
  {
    hide Gather;
    var e := EncodeScalar(cp);
    var bs := e + rest;
    assert bs[0] == e[0];
    if cp < 0x80 {
      assert bs[1..1] == [];
      GatherNone(cp);
    } else if cp < 0x800 {
      assert bs[1..2] == [e[1]];
      GatherOne(cp / 64, e[1]);
    } else if cp < 0x10000 {
      ThreeReadBack(cp, rest);
    } else {
      FourReadBack(cp, rest);
    }
  }

  /** A decoded scalar stands in its RFC 3629 encoding: no overlong, surrogate or out-of-range form is read. */
  lemma ScalarIsCanonical(bs: seq<byte>)
    requires bs != [] && DecodeScalar(bs).Some?
    ensures var (cp, n) := DecodeScalar(bs).value; bs[..n] == EncodeScalar(cp)
  {
    hide Gather;
    var (cp, n) := DecodeScalar(bs).value;
    if n == 1 {
      assert bs[1..1] == [];
      GatherNone(bs[0]);
    } else if n == 2 {
      assert bs[1..2] == [bs[1]];
      GatherOne(bs[0] - 0xC0, bs[1]);
      assert bs[..2] == [bs[0], bs[1]];
    } else if n == 3 {
      assert bs[1..3] == [bs[1], bs[2]];
      GatherTwo(bs[0] - 0xE0, bs[1], bs[2]);
      Digits(bs[0] - 0xE0, bs[1] - 0x80, bs[2] - 0x80);
      assert bs[..3] == [bs[0], bs[1], bs[2]];
    } else {
      assert bs[1..4] == [bs[1], bs[2], bs[3]];
      GatherThree(bs[0] - 0xF0, bs[1], bs[2], bs[3]);
      var lead: nat, second: nat := bs[0] - 0xF0, bs[1] - 0x80;
      Digits(lead * 64 + second, bs[2] - 0x80, bs[3] - 0x80);
      assert cp / 262144 == cp / 4096 / 64;
      assert bs[..4] == [bs[0], bs[1], bs[2], bs[3]];
    }
  }

  lemma Digits(a: nat, b: nat, c: nat)
    requires b < 64 && c < 64
    ensures var v := a * 4096 + b * 64 + c; v / 4096 == a && v / 64 % 64 == b && v % 64 == c
  {
  }

  /** Decoding inverts encoding. */
  lemma {:induction false} TextReadBack(cps: seq<Scalar>)
    ensures DecodeText(EncodeText(cps)) == Some(cps)
  {
    hide DecodeScalar, EncodeScalar;
    if cps != [] {
      ScalarReadBack(cps[0], EncodeText(cps[1..]));
      TextReadBack(cps[1..]);
      assert EncodeText(cps)[|EncodeScalar(cps[0])|..] == EncodeText(cps[1..]);
      assert cps == [cps[0]] + cps[1..];
    }
  }

  /** Encoding inverts decoding. */
  lemma {:induction false} TextIsCanonical(bs: seq<byte>)
    requires ValidText(bs)
    ensures EncodeText(DecodeText(bs).value) == bs
    decreases |bs|
  {
    hide DecodeScalar, EncodeScalar;
    if bs != [] {
      var (cp, n) := DecodeScalar(bs).value;
      ScalarIsCanonical(bs);
      TextIsCanonical(bs[n..]);
      var cps := DecodeText(bs[n..]).value;
      assert ([cp] + cps)[1..] == cps;
      assert bs == bs[..n] + bs[n..];
    }
  }

  /** Valid text is exactly the concatenations of RFC 3629 encodings, and each comes from one scalar string only. */
  lemma ValidTextIsExact(bs: seq<byte>)
    ensures ValidText(bs) <==> exists cps: seq<Scalar> :: EncodeText(cps) == bs
    ensures forall a: seq<Scalar>, b: seq<Scalar> :: EncodeText(a) == bs && EncodeText(b) == bs ==> a == b
  {
    if ValidText(bs) {
      TextIsCanonical(bs);
    }
    forall a: seq<Scalar> | EncodeText(a) == bs
      ensures DecodeText(bs) == Some(a)
    {
      TextReadBack(a);
    }
  }

  /** The validator's loop. */
  method IsValid(data: array<byte>, len: nat) returns (ok: bool)
    requires len <= data.Length
    ensures ok == ValidText(data[..len])
  {
    var i := 0;
    ghost var all := data[..len];
    while i < len
      invariant 0 <= i <= len
      invariant ValidText(all) == ValidText(all[i..])
    {
      var b0 := data[i];
      ghost var here := all[i..];
      if b0 < 0x80 {
        assert here[1..1] == [];
        assert here[1..] == all[i + 1..];
        i := i + 1;
      } else {
        var need: nat, cp: nat, least: nat;
        if 0xC0 <= b0 < 0xE0 {
          need, cp, least := 1, b0 - 0xC0, 0x80;
        } else if 0xE0 <= b0 < 0xF0 {
          need, cp, least := 2, b0 - 0xE0, 0x800;
        } else if 0xF0 <= b0 < 0xF8 {
          need, cp, least := 3, b0 - 0xF0, 0x10000;
        } else {
          return false;
        }
        if need >= len - i {
          return false;
        }
        var k := 1;
        while k <= need
          invariant 1 <= k <= need + 1
          invariant 0 <= cp
          invariant Gather(cp, here[k..need + 1]) == Gather(Lead(b0).value.1, here[1..need + 1])
        {
          var bc := data[i + k];
          assert here[k..need + 1][0] == bc && here[k..need + 1][1..] == here[k + 1..need + 1];
          if !(0x80 <= bc < 0xC0) {
            return false;
          }
          cp := cp * 64 + (bc - 0x80);
          k := k + 1;
        }
        assert here[need + 1..need + 1] == [];
        if cp < least {
          return false;
        }
        if cp > 0x10FFFF {
          return false;
        }
        if 0xD800 <= cp <= 0xDFFF {
          return false;
        }
        assert here[need + 1..] == all[i + need + 1..];
        i := i + need + 1;
      }
    }
    ok := true;
  }

  /** Where a prefix of valid text may end: at the end, or before a byte that is not a continuation. */
  predicate IsBoundary(bs: seq<byte>, j: nat)
    requires j <= |bs|
  {
    j == |bs| || !IsContinuation(bs[j])
  }

  /** Inside one encoded scalar there is no boundary, and its proper prefixes are not valid. */
  lemma InsideScalar(bs: seq<byte>, j: nat)
    requires bs != [] && DecodeScalar(bs).Some? && 0 < j < DecodeScalar(bs).value.1
    ensures IsContinuation(bs[j]) && !ValidText(bs[..j])
  {
    var (cp, n) := DecodeScalar(bs).value;
    ScalarIsCanonical(bs);
    assert bs[j] == bs[..n][j];
    assert bs[..j][0] == bs[0];
  }

  /** A prefix of valid text is valid exactly when it ends at a boundary. */
  lemma {:induction false} PrefixValidity(bs: seq<byte>, j: nat)
    requires ValidText(bs) && j <= |bs|
    ensures ValidText(bs[..j]) <==> IsBoundary(bs, j)
    decreases |bs|
  {
    if j == |bs| {
      assert bs[..j] == bs;
    } else if j == 0 {
      StartsAtBoundary(bs);
    } else {
      var n := DecodeScalar(bs).value.1;
      if j < n {
        InsideScalar(bs, j);
      } else {
        PrefixValidity(bs[n..], j - n);
        PrefixSteps(bs, j);
        assert IsBoundary(bs, j) == IsBoundary(bs[n..], j - n);
      }
    }
  }

  lemma StartsAtBoundary(bs: seq<byte>)
    requires ValidText(bs)
    ensures IsBoundary(bs, 0)
  {
  }

  /** Past the first scalar, the validity of a prefix is that of the prefix of what follows. */
  lemma PrefixSteps(bs: seq<byte>, j: nat)
    requires ValidText(bs) && bs != []
    requires DecodeScalar(bs).value.1 <= j <= |bs|
    ensures var n := DecodeScalar(bs).value.1; ValidText(bs[..j]) == ValidText(bs[n..][..j - n])
  {
    hide DecodeScalar, EncodeScalar;
    var (cp, n) := DecodeScalar(bs).value;
    ScalarIsCanonical(bs);
    ScalarReadBack(cp, bs[n..j]);
    assert bs[..j] == bs[..n] + bs[n..j];
    assert bs[..j][n..] == bs[n..][..j - n];
  }

  /** Some boundary lies at most three bytes before any position of valid text. */
  lemma {:induction false} BoundaryNearby(bs: seq<byte>, j: nat) returns (m: nat)
    requires ValidText(bs) && j <= |bs|
    ensures j - 3 <= m <= j && IsBoundary(bs, m)
    decreases |bs|
  {
    if j == |bs| {
      m := j;
    } else {
      var n := DecodeScalar(bs).value.1;
      if j < n {
        m := 0;
      } else {
        m := BoundaryNearby(bs[n..], j - n);
        assert IsBoundary(bs[n..], m) == IsBoundary(bs, m + n);
        m := m + n;
      }
    }
  }

  /** The clamp: step back while the first byte left out is a continuation. */
  method ClampPrefix(text: seq<byte>, limit: nat) returns (n: nat)
    requires limit < |text|
    ensures n <= limit
    ensures ValidText(text) ==>
      && ValidText(text[..n])
      && (forall j :: n < j <= limit ==> !ValidText(text[..j]))
      && limit - n <= 3
    ensures forall j :: n < j <= limit ==> IsContinuation(text[j])
    ensures n == 0 || !IsContinuation(text[n])
  {
    n := limit;
    while n > 0 && IsContinuation(text[n])
      invariant n <= limit
      invariant forall j :: n < j <= limit ==> IsContinuation(text[j])
    {
      n := n - 1;
    }
    if ValidText(text) {
      StartsAtBoundary(text);
      PrefixValidity(text, n);
      ghost var m := BoundaryNearby(text, limit);
      forall j | n < j <= limit
        ensures !ValidText(text[..j])
      {
        PrefixValidity(text, j);
      }
    }
  }
}

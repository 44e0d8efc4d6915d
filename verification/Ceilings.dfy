/** The ceilings of the format, exactly: nesting, ids, array counts and payload lengths, as a decoder answers them. */
module Ceilings {
  import opened Bytes
  import opened Varint
  import opened Wire
  import opened Decoder
  import opened Meaning
  import opened DecoderTheorems

  /** n empty sequences, one inside the other. */
  function Nest(n: nat): seq<Field>
  {
    if n == 0 then [] else [Group(0, Nest(n - 1))]
  }

  lemma {:induction false} NestOk(W: WordSize, n: nat, d: nat)
    requires n + d <= 255
    ensures FieldsOk(W, Nest(n), d)
  {
    SmallFits(W, 7);
    hide Pow2;
    if n > 0 {
      NestOk(W, n - 1, d + 1);
      OneFieldOk(W, Group(0, Nest(n - 1)), d);
    }
  }

  lemma {:induction false} OneFieldOk(W: WordSize, f: Field, d: nat)
    ensures FieldsOk(W, [f], d) <==> FieldOk(W, f, d)
  {
    hide FieldOk;
    assert [f][1..] == [];
  }

  lemma {:induction false} NestTooDeep(W: WordSize, n: nat, d: nat, rest: seq<byte>)
    requires n + d > 255 >= d
    ensures ParseFields(W, SerFields(Nest(n)) + rest, d) == Malformed
    decreases n
  {
    hide Encode, ParseVarint, Pow2;
    var inner := SerFields(Nest(n - 1));
    var tail := inner + (Header(0, END) + rest);
    assert [Group(0, Nest(n - 1))][1..] == [];
    assert SerFields(Nest(n)) + rest == Header(0, BEGIN) + tail;
    SmallFits(W, 8 * 0 + BEGIN);
    ParseVarintEncode(W, BEGIN, tail);
    assert Header(0, BEGIN) + tail != [];
    assert ParseFields(W, Header(0, BEGIN) + tail, d) == ParseFrom(W, 0, BEGIN, tail, d);
    if d < 255 { NestTooDeep(W, n - 1, d + 1, Header(0, END) + rest); }
  }

  /** Sequences nest 255 deep, and no deeper: whatever opens or skips them. */
  lemma {:induction false} NestingLimit<U(!new), D, S(!new)>(env: Env<U, D, S>, user: U, sc: S, n: nat)
    requires Gentle(env)
    ensures VerdictOf(RunBytes(env, Init(user, sc), SerFields(Nest(n)))) == if n <= 255 then Ok else Invalid
  {
    hide RunBytes, ParseFields, Gentle, SerFields, Nest;
    var b := SerFields(Nest(n));
    VerdictIsGrammar(env, user, sc, b);
    if n <= 255 {
      NestOk(env.W, n, 0);
      MessageRoundTrip(env.W, Nest(n));
    } else {
      NestTooDeep(env.W, n, 0, []);
      assert b + [] == b;
    }
  }

  /** A header word's id is at most 2^31 - 1; every header that fits in 32 bits is within it. */
  lemma {:induction false} IdLimit<U(!new), D, S(!new)>(env: Env<U, D, S>, user: U, sc: S, id: nat)
    requires Gentle(env) && 8 * id + 7 < Pow2(env.W)
    ensures VerdictOf(RunBytes(env, Init(user, sc), SerFields([Leaf(id, Int(false, 0))]))) == if id <= 0x7FFF_FFFF then Ok else Invalid
  {
    hide RunBytes, ParseFields, Gentle, Encode, ParseVarint, Pow2;
    var f := Leaf(id, Int(false, 0));
    var b := SerFields([f]);
    hide SerFields, FieldsOk;
    VerdictIsGrammar(env, user, sc, b);
    HeaderOf32(id);
    if id <= 0x7FFF_FFFF {
      SmallFits(env.W, 0);
      OneFieldOk(env.W, f, 0);
      MessageRoundTrip(env.W, [f]);
    } else {
      OneField(f);
      ParseVarintEncode(env.W, 8 * id, Encode(0));
      FirstHeader(env.W, b, 8 * id, Encode(0));
    }
  }

  lemma {:induction false} OneField(f: Field)
    requires f.Leaf? && f.value.Int?
    ensures SerFields([f]) == Header(f.id, TypeOf(f.value)) + Encode(f.value.word)
  {
    hide Encode;
    assert SerField(f) == Header(f.id, TypeOf(f.value)) + Encode(f.value.word);
    assert SerFields([f]) == SerField(f) + SerFields([f][1..]);
  }

  lemma HeaderOf32(id: nat)
    ensures 8 * id + 7 < Pow2(32) <==> id <= 0x1FFF_FFFF
  {
    SpanIsPow2(4);
    assert Span(4) == 256 * Span(3) && Span(3) == 256 * Span(2) && Span(2) == 256 * Span(1) && Span(1) == 256;
  }

  lemma {:induction false} FirstHeader(W: WordSize, b: seq<byte>, h: nat, rest: seq<byte>)
    requires ParseVarint(W, b) == Parsed(h, rest)
    ensures ParseFields(W, b, 0) == ParseFrom(W, h / 8, h % 8, rest, 0)
  {
    hide ParseVarint;
  }

  /** An array's count word is judged as soon as it has arrived: at most 2^31 - 1 elements. */
  lemma {:induction false} CountLimit<U(!new), D, S(!new)>(env: Env<U, D, S>, user: U, sc: S, ty: nat, n: nat)
    requires Gentle(env) && n < Pow2(env.W) && (ty == ARRAY_UNSIGNED || ty == ARRAY_SIGNED || ty == ARRAY_FIXLEN)
    ensures var v := VerdictOf(RunBytes(env, Init(user, sc), Header(0, ty) + Encode(n)));
      && (v == Invalid <==> n > 0x7FFF_FFFF)
      && (v == Ok <==> n == 0 && ty != ARRAY_FIXLEN)
  {
    hide RunBytes, ParseFields, Gentle, Encode, ParseVarint, Pow2;
    var b := Header(0, ty) + Encode(n);
    VerdictIsGrammar(env, user, sc, b);
    SmallFits(env.W, ty);
    ParseVarintEncode(env.W, ty, Encode(n));
    FirstHeader(env.W, b, ty, Encode(n));
    assert Encode(n) + [] == Encode(n);
    ParseVarintEncode(env.W, n, []);
    NothingLeft(env.W, 0);
    if n > 0 { NoWords(env.W, n); }
  }

  lemma {:induction false} NothingLeft(W: WordSize, d: nat)
    ensures ParseVarint(W, []) == Truncated && ParseFields(W, [], 0) == Parsed([], [])
  {
    assert MaxLen(W) > 0;
  }

  lemma {:induction false} NoWords(W: WordSize, n: nat)
    requires n > 0
    ensures ParseWords(W, n, []) == Truncated
  {
    NothingLeft(W, 0);
  }

  /** A payload's length is at most 2^31 - 1, judged before a byte of it arrives. */
  lemma {:induction false} LengthLimit<U(!new), D, S(!new)>(env: Env<U, D, S>, user: U, sc: S, sub: nat, len: nat)
    requires Gentle(env) && 8 * len + sub < Pow2(env.W) && sub < 8
    ensures var v := VerdictOf(RunBytes(env, Init(user, sc), Header(0, FIXLEN) + Encode(8 * len + sub)));
      && (v == Invalid <==> len > 0x7FFF_FFFF || sub > BLOB || (sub == FP32 && len != 4) || (sub == FP64 && len != 8))
      && (v == Ok <==> len == 0 && (sub == STRING || sub == BLOB))
  {
    hide RunBytes, ParseFields, Gentle, Encode, ParseVarint, Pow2;
    var word := 8 * len + sub;
    var b := Header(0, FIXLEN) + Encode(word);
    VerdictIsGrammar(env, user, sc, b);
    SmallFits(env.W, FIXLEN);
    ParseVarintEncode(env.W, FIXLEN, Encode(word));
    FirstHeader(env.W, b, FIXLEN, Encode(word));
    assert Encode(word) + [] == Encode(word);
    ParseVarintEncode(env.W, word, []);
    NothingLeft(env.W, 0);
  }
}

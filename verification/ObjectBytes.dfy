/** The object codec end to end: bytes through the resumable decoder into an object, and back. */
module ObjectBytes {
  import opened Bytes
  import opened Varint
  import opened Wire
  import opened Utf8
  import opened Decoder
  import opened Meaning
  import opened DecoderTheorems
  import opened Object
  import opened ObjectDecode
  import opened ObjectRoundTrip
  import opened ObjectTheorems
  import opened ObjectCanonical

  // ---------------------------------------------------------------- what the grammar accepts is within the ceilings

  lemma {:induction false} VarintFits(W: WordSize, b: seq<byte>)
    ensures ParseVarint(W, b).Parsed? ==> ParseVarint(W, b).tree < Pow2(W)
  {
    hide Pow2;
  }

  lemma {:induction false} WordsParsedFit(W: WordSize, n: nat, b: seq<byte>)
    ensures ParseWords(W, n, b).Parsed? ==> WordsFit(W, ParseWords(W, n, b).tree)
  {
    hide ParseVarint, Pow2;
    if n > 0 {
      VarintFits(W, b);
      var p := ParseVarint(W, b);
      if p.Parsed? { WordsParsedFit(W, n - 1, p.rest); }
    }
  }

  lemma FixlenParsedOk(W: WordSize, b: seq<byte>)
    ensures ParseFixlen(W, b).Parsed? ==> ValueOk(W, ParseFixlen(W, b).tree)
  {
    hide ParseVarint, Pow2;
    VarintFits(W, b);
  }

  lemma IntsParsedOk(W: WordSize, signed: bool, b: seq<byte>)
    ensures ParseInts(W, signed, b).Parsed? ==> ValueOk(W, ParseInts(W, signed, b).tree)
  {
    hide ParseVarint, Pow2, ParseWords, WordsFit;
    VarintFits(W, b);
    var p := ParseVarint(W, b);
    if p.Parsed? { WordsParsedFit(W, p.tree, p.rest); }
  }

  lemma FloatsParsedOk(W: WordSize, b: seq<byte>)
    ensures ParseFloats(W, b).Parsed? ==> ValueOk(W, ParseFloats(W, b).tree)
  {
    hide ParseVarint, Pow2;
    VarintFits(W, b);
    if ParseFloats(W, b).Parsed? {
      var n := ParseVarint(W, b).tree;
      var w := ParseVarint(W, ParseVarint(W, b).rest).tree;
      var v := ParseFloats(W, b).tree;
      assert w / 8 == FloatWidth(v.fp64);
      assert |v.payload| == n * FloatWidth(v.fp64);
      assert |v.payload| / FloatWidth(v.fp64) == n;
    }
  }

  lemma ValueParsedOk(W: WordSize, ty: nat, b: seq<byte>)
    requires ty <= ARRAY_FIXLEN
    ensures ParseValue(W, ty, b).Parsed? ==> ValueOk(W, ParseValue(W, ty, b).tree)
  {
    hide ParseVarint, Pow2, ParseFixlen, ParseInts, ParseFloats;
    VarintFits(W, b);
    FixlenParsedOk(W, b);
    FloatsParsedOk(W, b);
    IntsParsedOk(W, ty == ARRAY_SIGNED, b);
  }

  lemma TimesEight(n: nat)
    ensures Pow2(n + 3) == 8 * Pow2(n)
  {
    assert Pow2(n + 1) == 2 * Pow2(n);
    assert Pow2(n + 2) == 2 * Pow2(n + 1);
  }

  lemma BelowMultiple(h: nat, q: nat)
    requires h < 8 * q
    ensures 8 * (h / 8) + 7 < 8 * q
  {
  }

  lemma {:induction false} HeaderIdOk(W: WordSize, h: nat)
    requires h < Pow2(W) && h / 8 <= IdMax(W)
    ensures IdOk(W, h / 8)
  {
    hide Pow2;
    TimesEight(W - 3);
    BelowMultiple(h, Pow2(W - 3));
  }

  /** The trees the grammar yields are well-formed at their depth. */
  lemma {:induction false} ParsedOk(W: WordSize, b: seq<byte>, d: nat)
    requires d <= MAX_DEPTH
    ensures ParseFields(W, b, d).Parsed? ==> FieldsOk(W, ParseFields(W, b, d).tree, d)
    decreases |b|
  {
    hide ParseVarint, ParseValue, IdMax, Pow2, ValueOk, IdOk;
    if b != [] && ParseFields(W, b, d).Parsed? {
      var h, b1 := ParseVarint(W, b).tree, ParseVarint(W, b).rest;
      var id, ty := h / 8, h % 8;
      VarintFits(W, b);
      assert ParseFields(W, b, d) == ParseFrom(W, id, ty, b1, d);
      HeaderIdOk(W, h);
      if ty == BEGIN {
        ParseGroupCases(W, id, b1, d);
        var p := ParseFields(W, b1, d + 1);
        ParsedOk(W, b1, d + 1);
        ParsedOk(W, p.rest, d);
        assert ([Group(id, p.tree)] + ParseFields(W, p.rest, d).tree)[1..] == ParseFields(W, p.rest, d).tree;
      } else if ty != END {
        ParseLeafCases(W, id, ty, b1, d);
        var p := ParseValue(W, ty, b1);
        ValueParsedOk(W, ty, b1);
        ParsedOk(W, p.rest, d);
        assert ([Leaf(id, p.tree)] + ParseFields(W, p.rest, d).tree)[1..] == ParseFields(W, p.rest, d).tree;
      }
    }
  }

  // ---------------------------------------------------------------- what the encoder writes is within the ceilings

  lemma {:induction false} IntsValueOk(W: WordSize, strict: bool, k: Kind, x: Obj)
    requires (k.KInt? || k.KInts?) && KindOk(W, strict, k) && ShapeField(k, x)
    ensures ValueOk(W, EncodeCell(k, x))
  {
    hide Pow2, WireWord, WireWords, Booleans, Word, Span, Packed, AllFit, ScalarBytes, ValidText;
    var w: nat := k.width;
    SpanIsPow2(w);
    Pow2Monotone(8 * w, W);
    var num := if k.num.Signed? then Num.Signed else Unsigned;
    if k.KInt? {
      ScalarSurvives(num, w, x.buf);
    } else {
      MulLess(UsedOf(k, x), k.cap, w);
      ArraySurvives(num, w, x.buf, UsedOf(k, x));
    }
  }

  lemma {:induction false} FloatsValueOk(W: WordSize, strict: bool, k: Kind, x: Obj)
    requires k.KFloats? && KindOk(W, strict, k) && ShapeField(k, x)
    ensures ValueOk(W, EncodeCell(k, x))
  {
    hide Pow2, Span;
    var n, w := UsedOf(k, x), FloatWidth(k.fp64);
    MulLess(n, k.cap, w);
    assert |x.buf[..n * w]| == n * w && n * w / w == n && n * w % w == 0;
  }

  lemma {:induction false} CellValueOk(W: WordSize, strict: bool, k: Kind, x: Obj)
    requires !k.KNested? && KindOk(W, strict, k) && ShapeField(k, x)
    ensures ValueOk(W, EncodeCell(k, x))
  {
    hide Pow2, CStr, ValidText, Span, WireWord, WireWords, Booleans, WordsFit;
    if k.KInt? || k.KInts? {
      IntsValueOk(W, strict, k, x);
    } else if k.KFloats? {
      FloatsValueOk(W, strict, k, x);
    } else {
      SmallFits(W, 65);
      SmallFits(W, 32);
    }
  }

  lemma {:induction false} EncodedFieldOk(W: WordSize, strict: bool, f: FieldDescr, x: Obj, depth: nat)
    requires IdOk(W, f.id) && KindOk(W, strict, f.kind) && ShapeField(f.kind, x)
    requires f.kind.KNested? ==> depth + 1 + Levels(f.kind.descr) <= MAX_DEPTH
    ensures FieldOk(W, EncodeField(f, x), depth)
    decreases f, 0, 0
  {
    hide EncodeCell, ValueOk, IdOk;
    match f.kind {
      case KNested(nd) => EncodeOk(W, strict, nd, x, 0, depth + 1);
      case k => CellValueOk(W, strict, k, x);
    }
  }

  /** An encoded object is a well-formed field tree, as deep as its descriptor. */
  lemma {:induction false} EncodeOk(W: WordSize, strict: bool, d: Descr, x: Obj, i: nat, depth: nat)
    requires DescrOk(W, strict, d) && Shape(d, x) && depth + Levels(d) <= MAX_DEPTH
    ensures FieldsOk(W, EncodeFrom(d, x, i), depth)
    decreases d, 1, |d.fields| - i
  {
    hide EncodeField, FieldIsDefault, KindOk, ShapeField, FieldOk, IdOk;
    if i < WalkCount(d, x) {
      EncodeOk(W, strict, d, x, i + 1, depth);
      if AlwaysWritten(d, x, i) || !FieldIsDefault(d, i, x) {
        var f := d.fields[i];
        assert ShapeField(f.kind, x.kids[i]);
        if f.kind.KNested? { LevelsBound(d, i, 0); }
        EncodedFieldOk(W, strict, f, x.kids[i], depth);
        var rest := EncodeFrom(d, x, i + 1);
        assert ([EncodeField(f, x.kids[i])] + rest)[1..] == rest;
      }
    }
  }

  /** A member that is written is part of the value. */
  lemma {:induction false} WrittenIsSane(strict: bool, d: Descr, x: Obj, i: nat)
    requires UniqueIds(d) && Sane(strict, false, d, x) && i < WalkCount(d, x)
    requires AlwaysWritten(d, x, i) || !FieldIsDefault(d, i, x)
    ensures SaneField(strict, false, d.fields[i].kind, x.kids[i])
  {
    hide SaneField;
    if d.form.Union? {
      assert !NotHeld(d, x.aux, i);
      FindUnique(d, i);
    }
  }

  // ---------------------------------------------------------------- decoding bytes into an object

  /** The object after a message arrives in these chunks, or None when the decoder does not answer OK. */
  function DecodeObject(W: WordSize, strict: bool, d: Descr, t: Obj, h: nat, chunks: seq<seq<byte>>): Option<Obj>
  {
    var s := Feeds(ObjectEnv(W, strict), Init(t, Scope(d, [], h)), chunks);
    if VerdictOf(s).Ok? then Some(s.user) else None
  }

  lemma {:induction false} SaneShape(strict: bool, all: bool, d: Descr, o: Obj)
    requires Sane(strict, all, d, o)
    ensures Shape(d, o)
  {
  }

  /** The bytes of an object. */
  ghost function EncodeBytes(d: Descr, o: Obj): seq<byte>
    requires Shape(d, o)
  {
    SerFields(EncodeObj(d, o))
  }

  /** Decoding is parsing and then applying the fields, whatever the chunks. */
  lemma {:induction false} DecodeIsApply(W: WordSize, strict: bool, d: Descr, t: Obj, h: nat, chunks: seq<seq<byte>>)
    ensures var p := ParseFields(W, Join(chunks), 0);
      DecodeObject(W, strict, d, t, h, chunks) == if p.Parsed? then ApplyFields(strict, d, t, h, p.tree) else None
  {
    hide RunBytes, ParseFields, MeanFields, ApplyFields, StateOk;
    var env, sc, b := ObjectEnv(W, strict), Scope(d, [], h), Join(chunks);
    var s := Init<Obj, Path, Scope>(t, sc);
    StartOk<Obj, Path, Scope>(t, sc);
    ChunksDoNotMatter(env, s, chunks);
    DecodeIsMeaning(env, t, sc, b);
    var p := ParseFields(W, b, 0);
    if p.Parsed? {
      FieldsRefine(W, strict, Effect(t, []), sc, p.tree);
    }
  }

  /**
   * The round trip: for every well-formed descriptor tree at most 255 levels deep and every valid object, the
   * encoded bytes, fed in any chunks to a decoder over freshly initialised storage, are answered OK and leave
   * an object of the same value.
   */
  lemma {:induction false} RoundTrip(W: WordSize, strict: bool, d: Descr, x: Obj, g: Obj, h: nat, chunks: seq<seq<byte>>)
    requires DescrOk(W, strict, d) && Levels(d) <= MAX_DEPTH && h >= Levels(d)
    requires Sane(strict, false, d, x) && Shape(d, g)
    requires Join(chunks) == EncodeBytes(d, x)
    ensures var y := DecodeObject(W, strict, d, Reset(d, g), h, chunks);
      y.Some? && Shape(d, y.value) && ViewOf(d, y.value) == ViewOf(d, x)
  {
    hide DecodeObject, ParseFields, ApplyFields, SerFields, EncodeFrom, DescrOk, Sane, Reset, FieldsOk;
    SaneShape(strict, false, d, x);
    var fs := EncodeObj(d, x);
    EncodeOk(W, strict, d, x, 0, 0);
    MessageRoundTrip(W, fs);
    DecodeIsApply(W, strict, d, Reset(d, g), h, chunks);
    ObjectsRoundTrip(W, strict, d, x, g, h);
  }
}

/** What the object encoder refuses: exactly the objects whose bytes the decoder of the same descriptor would refuse. */
module ObjectRefusals {
  import opened Bytes
  import opened Varint
  import opened Wire
  import opened Utf8
  import opened Decoder
  import opened Meaning
  import opened DecoderTheorems
  import opened Object
  import opened ObjectDecode
  import opened ObjectRoundTrip
  import opened ObjectTheorems
  import opened ObjectBytes
  import opened ObjectStorage
  import opened Output
  import opened ObjectEncode

  // ---------------------------------------------------------------- what the decoder makes of an encoded member

  /** The words of any integer array in memory fit its element width, whatever they are. */
  lemma {:induction false} StoredWordsFit(num: Num, w: Width, buf: seq<byte>, n: nat)
    requires n * w <= |buf|
    ensures AllFit(num, w, WireWords(num.Signed?, w, buf, n))
  {
    hide ScalarBytes, WireWords, Packed, Booleans, AllFit;
    ArraySurvives(if num.Signed? then Num.Signed else Unsigned, w, buf, n);
    var ws := WireWords(num.Signed?, w, buf, n);
    if num.Boolean? { BooleansFit(w, ws); }
  }

  lemma BooleansFit(w: Width, ws: seq<nat>)
    ensures AllFit(Boolean, w, ws)
  {
    hide LowBytes;
  }

  lemma {:induction false} StoredWordFits(num: Num, w: Width, buf: seq<byte>)
    requires |buf| == w
    ensures ScalarBytes(num, w, WireWord(num.Signed?, w, buf)).1
  {
    hide LowBytes, Word, WireWord, FitsSigned, Span, UnZigZag;
    ScalarSurvives(if num.Signed? then Num.Signed else Unsigned, w, buf);
  }

  /** A member's encoding is refused by a member of its kind iff the encoder refuses to write it. */
  lemma {:induction false} LeafRefusal(W: WordSize, strict: bool, k: Kind, x: Obj, t: Obj)
    requires !k.KNested? && KindOk(W, strict, k) && ShapeField(k, x)
    ensures Received(strict, k, t, EncodeCell(k, x)).Some? <==> !TextRefused(strict, k, x)
  {
    hide ScalarBytes, WireWord, WireWords, Packed, AllFit, CStr, ValidText, PokeWrites, WithLen, Pow2, Span;
    match k
    case KInt(num, w) => StoredWordFits(num, w, x.buf);
    case KInts(num, w, cap, _) =>
      MulLess(UsedOf(k, x), cap, w);
      StoredWordsFit(num, w, x.buf, UsedOf(k, x));
    case KFloats(fp64, cap, _) =>
      var n, w := UsedOf(k, x), FloatWidth(fp64);
      MulLess(n, cap, w);
      assert |x.buf[..n * w]| / w == n;
    case _ =>
  }

  /** One encoded field, applied to any storage, is refused iff the encoder refuses to write it. */
  lemma {:induction false} FieldRefusal(W: WordSize, strict: bool, d: Descr, x: Obj, t: Obj, h: nat, i: nat)
    requires DescrOk(W, strict, d) && Shape(d, t) && i < |d.fields| && ShapeField(d.fields[i].kind, x)
    requires h >= Levels(d) && Levels(d) <= MAX_DEPTH
    ensures ApplyField(strict, d, t, h, EncodeField(d.fields[i], x)).Some? <==> EncodableField(strict, d.fields[i].kind, x)
    decreases d, 0, 0
  {
    hide ApplyField, ApplyFields, Received, EncodeCell, EncodeFrom, Encodable, TextRefused, ObservedAux, Reset, Shape, UniqueIds;
    var f := d.fields[i];
    UniqueOf(W, strict, d);
    MemberParts(W, strict, d, t, i);
    match f.kind {
      case KNested(nd) =>
        LevelsBound(d, i, 0);
        ApplyGroupAt(strict, d, t, h, i, EncodeFrom(nd, x, 0));
        OpenedShape(W, strict, d, t, i);
        ObjectRefusal(W, strict, nd, x, Opened(d, t, i), h - 1, 0);
      case k =>
        EncodedOpt(k, x);
        ApplyLeafAt(strict, d, t, h, i, EncodeCell(k, x));
        LeafRefusal(W, strict, k, x, t.kids[i]);
    }
  }

  lemma {:induction false} MemberParts(W: WordSize, strict: bool, d: Descr, t: Obj, i: nat)
    requires DescrOk(W, strict, d) && Shape(d, t) && i < |d.fields|
    ensures HasMembers(d, t) && KindOk(W, strict, d.fields[i].kind) && ShapeField(d.fields[i].kind, t.kids[i])
  {
  }

  lemma {:induction false} OpenedShape(W: WordSize, strict: bool, d: Descr, t: Obj, i: nat)
    requires DescrOk(W, strict, d) && Shape(d, t) && i < |d.fields| && d.fields[i].kind.KNested?
    ensures HasMembers(d, t) && DescrOk(W, strict, d.fields[i].kind.descr) && Shape(d.fields[i].kind.descr, Opened(d, t, i))
  {
    hide Reset;
    MemberParts(W, strict, d, t, i);
    ResetShape(W, strict, d.fields[i].kind.descr, t.kids[i]);
  }

  /** The fields of an encoding, applied to any storage, are accepted iff no text in them is one the encoder refuses. */
  lemma {:induction false} ObjectRefusal(W: WordSize, strict: bool, d: Descr, x: Obj, t: Obj, h: nat, i: nat)
    requires DescrOk(W, strict, d) && Shape(d, x) && Shape(d, t) && h >= Levels(d) && Levels(d) <= MAX_DEPTH
    ensures ApplyFields(strict, d, t, h, EncodeFrom(d, x, i)).Some? <==> Encodable(strict, d, x, i)
    decreases d, 1, |d.fields| - i
  {
    hide DescrOk, ShapeField, ApplyField, EncodeField, EncodableField, FieldIsDefault, FieldsOk;
    if i < WalkCount(d, x) {
      assert ShapeField(d.fields[i].kind, x.kids[i]);
      if AlwaysWritten(d, x, i) || !FieldIsDefault(d, i, x) {
        var f := EncodeField(d.fields[i], x.kids[i]);
        FieldRefusal(W, strict, d, x.kids[i], t, h, i);
        ApplyCons(strict, d, t, h, f, EncodeFrom(d, x, i + 1));
        ApplyCons(strict, d, t, h, f, []);
        assert [f] + [] == [f];
        var t1 := ApplyField(strict, d, t, h, f);
        if t1.Some? {
          FirstField(W, strict, d, x, i);
          ApplyShape(W, strict, d, t, h, [f], 0);
          ObjectRefusal(W, strict, d, x, t1.value, h, i + 1);
        }
      } else {
        ObjectRefusal(W, strict, d, x, t, h, i + 1);
      }
    }
  }

  lemma {:induction false} FirstField(W: WordSize, strict: bool, d: Descr, x: Obj, i: nat)
    requires DescrOk(W, strict, d) && Shape(d, x) && Levels(d) <= MAX_DEPTH && i < WalkCount(d, x)
    requires AlwaysWritten(d, x, i) || !FieldIsDefault(d, i, x)
    ensures ShapeField(d.fields[i].kind, x.kids[i]) && FieldsOk(W, [EncodeField(d.fields[i], x.kids[i])], 0)
  {
    hide FieldIsDefault, EncodeField, FieldOk, ShapeField, KindOk;
    assert ShapeField(d.fields[i].kind, x.kids[i]);
    EncodeOk(W, strict, d, x, i, 0);
    var f := EncodeField(d.fields[i], x.kids[i]);
    assert [f][1..] == [];
  }

  // ---------------------------------------------------------------- the run refuses, with or without room

  /** An encode run that meets a text it must refuse never answers OK, whatever room it has. */
  lemma {:induction false} RunRefuses(W: WordSize, strict: bool, D: nat, d: Descr, o: Obj, i: nat, s: Sheet)
    requires Shape(d, o) && !Encodable(strict, d, o, i)
    ensures EncodeRun(W, strict, D, d, o, i, s).1 != OK
    decreases d, 1, |d.fields| - i
  {
    hide FieldRun, FieldIsDefault, EncodableField, ShapeField;
    assert i < WalkCount(d, o);
    assert ShapeField(d.fields[i].kind, o.kids[i]);
    if AlwaysWritten(d, o, i) || !FieldIsDefault(d, i, o) {
      var (t, code) := FieldRun(W, strict, D, d.fields[i], o.kids[i], s);
      if !EncodableField(strict, d.fields[i].kind, o.kids[i]) {
        FieldRefuses(W, strict, D, d.fields[i], o.kids[i], s);
      } else if code == OK {
        RunRefuses(W, strict, D, d, o, i + 1, t);
      }
    } else {
      RunRefuses(W, strict, D, d, o, i + 1, s);
    }
  }

  lemma {:induction false} FieldRefuses(W: WordSize, strict: bool, D: nat, f: FieldDescr, o: Obj, s: Sheet)
    requires ShapeField(f.kind, o) && !EncodableField(strict, f.kind, o)
    ensures FieldRun(W, strict, D, f, o, s).1 != OK
    decreases f, 0, 0
  {
    hide Do, EncodeCell, TextRefused, EncodeRun, Encodable;
    match f.kind {
      case KNested(nd) => RunRefuses(W, strict, D, nd, o, 0, Do(W, D, s, Open(f.id)).0);
      case _ =>
    }
  }

  /** A text is refused iff no byte of its member is zero or, where texts are checked, it is not valid UTF-8. */
  lemma {:induction false} RefusedTexts(strict: bool, k: Kind, o: Obj)
    requires k.KText? && ShapeField(k, o)
    ensures TextRefused(strict, k, o)
      <==> (forall j :: 0 <= j < |o.buf| ==> o.buf[j] != 0) || (strict && !ValidText(CStr(o.buf)))
  {
    hide ValidText, CStr;
    if |CStr(o.buf)| == |o.buf| {
      assert CStr(o.buf) == o.buf;
    }
  }

  /**
   * The encoder refuses what its own decoder would: for any object, valid or not, an encode run that answers OK has
   * written bytes that the decoder of the same descriptor accepts, in any chunks and over any storage; and with a
   * sink it answers OK whenever the decoder would accept them.
   */
  lemma {:induction false} RefusedIffUndecodable(
    W: WordSize, strict: bool, D: nat, d: Descr, o: Obj, t: Obj, h: nat, s: Sheet, chunks: seq<seq<byte>>)
    requires DescrOk(W, strict, d) && Levels(d) <= MAX_DEPTH && h >= Levels(d)
    requires Shape(d, o) && Shape(d, t) && Join(chunks) == EncodeBytes(d, o)
    ensures var code, y := EncodeRun(W, strict, D, d, o, 0, s).1, DecodeObject(W, strict, d, t, h, chunks);
      && (code == OK ==> y.Some?)
      && (s.room.None? ==> (code == OK <==> y.Some?))
  {
    hide EncodeRun, Encodable, DescrOk, Shape, DecodeObject, ApplyFields, ParseFields, SerFields, EncodeFrom, FieldsOk;
    EncodeOk(W, strict, d, o, 0, 0);
    MessageRoundTrip(W, EncodeObj(d, o));
    DecodeIsApply(W, strict, d, t, h, chunks);
    ObjectRefusal(W, strict, d, o, t, h, 0);
    if !Encodable(strict, d, o, 0) {
      RunRefuses(W, strict, D, d, o, 0, s);
    } else if s.room.None? {
      RunFree(W, strict, D, d, o, 0, s);
    }
  }

  /** A text without a terminator that would be written stops the run, with or without a sink. */
  lemma {:induction false} UnterminatedIsRefused(W: WordSize, strict: bool, D: nat, d: Descr, o: Obj, i: nat, s: Sheet)
    requires Shape(d, o) && i < WalkCount(d, o) && d.fields[i].kind.KText?
    requires AlwaysWritten(d, o, i) || !FieldIsDefault(d, i, o)
    requires ShapeField(d.fields[i].kind, o.kids[i]) && forall j :: 0 <= j < |o.kids[i].buf| ==> o.kids[i].buf[j] != 0
    ensures EncodeRun(W, strict, D, d, o, 0, s).1 != OK
  {
    hide EncodeRun, Encodable, FieldIsDefault, TextRefused, ShapeField;
    RefusedTexts(strict, d.fields[i].kind, o.kids[i]);
    NotEncodable(strict, d, o, 0, i);
    RunRefuses(W, strict, D, d, o, 0, s);
  }

  lemma {:induction false} NotEncodable(strict: bool, d: Descr, o: Obj, i: nat, m: nat)
    requires Shape(d, o) && i <= m < WalkCount(d, o) && (AlwaysWritten(d, o, m) || !FieldIsDefault(d, m, o))
    requires ShapeField(d.fields[m].kind, o.kids[m]) && !EncodableField(strict, d.fields[m].kind, o.kids[m])
    ensures !Encodable(strict, d, o, i)
    decreases m - i
  {
    hide FieldIsDefault, EncodableField, ShapeField;
    if i < m { NotEncodable(strict, d, o, i + 1, m); }
  }
}

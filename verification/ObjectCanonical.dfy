/** Whatever the decoder accepts is a value the encoder writes, in one form that decodes to itself. */
module ObjectCanonical {
  import opened Bytes
  import opened Varint
  import opened Wire
  import opened Utf8
  import opened Decoder
  import opened Meaning
  import opened DecoderTheorems
  import opened Object
  import opened ObjectDecode
  import opened ObjectRoundTrip
  import opened ObjectTheorems

  // ---------------------------------------------------------------- what decoding leaves is sane

  lemma {:induction false} WordOfZeros(n: nat)
    ensures Word(Zeros(n)) == 0
  {
    if n > 0 {
      assert Zeros(n)[1..] == Zeros(n - 1);
      WordOfZeros(n - 1);
    }
  }

  lemma {:induction false} BooleanWord(b: nat, w: Width)
    requires b <= 1
    ensures Word(LowBytes(b, w)) == b
  {
    assert 1 < Span(w) by { assert Span(w) == 256 * Span(w - 1); }
    WordOfLowBytes(b, w);
  }

  lemma {:induction false} BooleansOfZeros(w: Width, n: nat, buf: seq<byte>)
    requires |buf| == n * w && forall i :: 0 <= i < |buf| ==> buf[i] == 0
    ensures Booleans(w, buf, n)
    decreases n
  {
    hide Word;
    if n > 0 {
      WordOfZeros(w);
      MulLess(1, n, w);
      assert buf[..w] == Zeros(w);
      assert |buf[w..]| == (n - 1) * w;
      BooleansOfZeros(w, n - 1, buf[w..]);
    }
  }

  lemma {:induction false} BooleansOfPacked(w: Width, words: seq<nat>, fill: nat, rest: seq<byte>)
    requires |rest| == fill * w && forall i :: 0 <= i < |rest| ==> rest[i] == 0
    ensures |Packed(Boolean, w, words)| == |words| * w && (|words| + fill) * w == |words| * w + fill * w
    ensures Booleans(w, Packed(Boolean, w, words) + rest, |words| + fill)
    decreases |words|
  {
    hide Word, LowBytes;
    var n := |words| + fill;
    var buf := Packed(Boolean, w, words) + rest;
    assert n * w == |words| * w + fill * w;
    if words == [] {
      assert buf == rest;
      BooleansOfZeros(w, fill, rest);
    } else {
      var b := if words[0] != 0 then 1 else 0;
      BooleanWord(b, w);
      BooleansOfPacked(w, words[1..], fill, rest);
      assert buf[..w] == LowBytes(b, w);
      assert buf[w..] == Packed(Boolean, w, words[1..]) + rest;
    }
  }

  lemma {:induction false} BooleansPrefix(w: nat, buf: seq<byte>, n: nat, m: nat)
    requires m <= n && n * w <= |buf| && m * w <= |buf| && Booleans(w, buf, n)
    ensures Booleans(w, buf, m)
    decreases n
  {
    if m > 0 {
      hide Word;
      MulLess(m, n, w);
      BooleansSplit(w, buf, n);
      SliceSplit(w, buf, m);
      BooleansPrefix(w, buf[w..], n - 1, m - 1);
      BooleansJoin(w, buf, m);
    } else {
      NoBooleans(w, buf);
    }
  }

  lemma {:induction false} NoBooleans(w: nat, buf: seq<byte>)
    ensures 0 * w <= |buf| && Booleans(w, buf, 0)
  {
  }

  lemma BooleansJoin(w: nat, buf: seq<byte>, m: nat)
    requires 0 < m && m * w <= |buf| && w <= m * w && m * w == w + (m - 1) * w
    requires Word(buf[..w]) <= 1 && Booleans(w, buf[w..], m - 1)
    ensures Booleans(w, buf, m)
  {
    hide Word;
  }

  lemma {:induction false} StringStopsAtZero(buf: seq<byte>, z: nat)
    requires z < |buf| && buf[z] == 0
    ensures |CStr(buf)| <= z
  {
    if z > 0 { StringStopsAtZero(buf[1..], z - 1); }
  }

  /** The C string in front of a terminated payload is valid text when the payload is. */
  lemma {:induction false} StringOfPayload(p: seq<byte>, rest: seq<byte>)
    ensures var s := CStr(p + [0] + rest); |s| <= |p| && (ValidText(p) ==> ValidText(s))
  {
    hide ValidText;
    var buf := p + [0] + rest;
    var s := CStr(buf);
    StringStopsAtZero(buf, |p|);
    assert s == p[..|s|];
    if ValidText(p) {
      if |s| < |p| { assert p[|s|] == buf[|s|] == 0; }
      PrefixValidity(p, |s|);
    }
  }

  lemma {:induction false} ReceivedIntsSane(strict: bool, k: Kind, t: Obj, v: Value)
    requires k.KInts? && v.Ints? && ShapeField(k, t) && LenOk(k.cap, k.len)
    requires Received(strict, k, t, v).Some?
    ensures SaneCell(strict, k, Received(strict, k, t, v).value)
  {
    hide PokeWrites, ScalarBytes, AllFit, Span, StoreLen, Booleans;
    var n, w, cap := |v.words|, k.width, k.cap;
    var p, q := Packed(k.num, w, v.words), Zeros((cap - n) * w);
    assert (cap - n) * w == cap * w - n * w;
    if k.len != 0 { LenIsKept(n, cap, k.len); }
    var t1 := WithLen(k, t, Call(0, 0, n, OptOf(v)));
    assert |p| == n * w;
    PokeTwo(t1.used, t.buf, p, q);
    assert t.buf[|p| + |q|..] == [];
    assert p + q + [] == p + q;
    if k.num.Boolean? {
      BooleansOfPacked(w, v.words, cap - n, q);
      assert |v.words| + (cap - n) == cap;
      MulLess(n, cap, w);
      BooleansPrefix(w, p + q, cap, UsedOf(k, Cell(t1.used, p + q)));
    }
  }

  lemma {:induction false} ReceivedFloatsSane(strict: bool, k: Kind, t: Obj, v: Value)
    requires k.KFloats? && v.Floats? && v.fp64 == k.fp64 && ShapeField(k, t)
    requires |v.payload| % FloatWidth(v.fp64) == 0
    requires Received(strict, k, t, v).Some?
    ensures SaneCell(strict, k, Received(strict, k, t, v).value)
  {
    hide PokeWrites, StoreLen;
    var w, cap := FloatWidth(k.fp64), k.cap;
    var n := |v.payload| / w;
    var q := Zeros((cap - n) * w);
    assert n * w == |v.payload| && (cap - n) * w == cap * w - n * w;
    var t1 := WithLen(k, t, Call(0, w, n, OptOf(v)));
    PokeTwo(t1.used, t.buf, v.payload, q);
  }

  lemma {:induction false} ReceivedIntSane(strict: bool, k: Kind, t: Obj, v: Value)
    requires k.KInt? && v.Int? && ShapeField(k, t)
    requires Received(strict, k, t, v).Some?
    ensures SaneCell(strict, k, Received(strict, k, t, v).value)
  {
    hide PokeWrites, Word, LowBytes, Span;
    var one := ScalarBytes(k.num, k.width, v.word).0;
    PokePrefix(t.used, t.buf, one);
    assert one + t.buf[|one|..] == one;
    if k.num.Boolean? { BooleanWord(if v.word != 0 then 1 else 0, k.width); }
  }

  lemma {:induction false} ReceivedTextSane(strict: bool, k: Kind, t: Obj, v: Value)
    requires k.KText? && v.Fixlen? && ShapeField(k, t)
    requires Received(strict, k, t, v).Some?
    ensures SaneCell(strict, k, Received(strict, k, t, v).value)
  {
    hide ValidText, CStr, PokeWrites;
    var p := v.payload;
    assert [Write(|p|, [0])] + [Write(0, p)] == [Write(|p|, [0]), Write(0, p)];
    PokeTwo(t.used, t.buf, p, [0]);
    StringOfPayload(p, t.buf[|p| + 1..]);
  }

  lemma {:induction false} ReceivedBytesSane(strict: bool, k: Kind, t: Obj, v: Value)
    requires (k.KBlob? && v.Fixlen?) || (k.KFloat? && v.Fixlen? && |v.payload| == FloatWidth(k.fp64))
    requires ShapeField(k, t) && Received(strict, k, t, v).Some?
    ensures SaneCell(strict, k, Received(strict, k, t, v).value)
  {
    hide PokeWrites, StoreLen;
    assert [] + [Write(0, v.payload)] == [Write(0, v.payload)];
    var t1 := WithLen(k, t, Call(0, |v.payload|, 0, OptOf(v)));
    PokePrefix(t1.used, t.buf, v.payload);
  }

  /** What the decoder leaves in a member is a value the encoder accepts. */
  lemma {:induction false} ReceivedSane(W: WordSize, strict: bool, k: Kind, t: Obj, v: Value)
    requires !k.KNested? && KindOk(W, strict, k) && ShapeField(k, t) && ValueOk(W, v) && OptOf(v) == ExpectedOf(k)
    requires Received(strict, k, t, v).Some?
    ensures SaneCell(strict, k, Received(strict, k, t, v).value)
  {
    hide Pow2, Span, Received, SaneCell, ShapeField, WordsFit;
    match k
    case KInt(_, _) => ReceivedIntSane(strict, k, t, v);
    case KFloat(_) => ReceivedBytesSane(strict, k, t, v);
    case KText(_) => ReceivedTextSane(strict, k, t, v);
    case KBlob(_, _) => ReceivedBytesSane(strict, k, t, v);
    case KInts(_, _, _, _) => ReceivedIntsSane(strict, k, t, v);
    case KFloats(_, _, _) => ReceivedFloatsSane(strict, k, t, v);
  }

  lemma {:induction false} ZeroCellSane(W: WordSize, strict: bool, k: Kind, used: nat)
    requires !k.KNested? && KindOk(W, strict, k)
    ensures SaneCell(strict, k, Cell(used, Zeros(SizeOfKind(k))))
  {
    hide Pow2, Span;
    var buf := Zeros(SizeOfKind(k));
    match k
    case KInt(_, w) => WordOfZeros(w);
    case KText(size) => assert buf[0] == 0;
    case KInts(num, w, cap, _) =>
      if num.Boolean? {
        hide Booleans;
        BooleansOfPacked(w, [], cap, buf);
        assert Packed(Boolean, w, []) + buf == buf;
        MulLess(UsedOf(k, Cell(used, buf)), cap, w);
        BooleansPrefix(w, buf, cap, UsedOf(k, Cell(used, buf)));
      }
    case _ =>
  }

  lemma DefaultIsKept(strict: bool, k: Kind, default: Obj)
    requires DefaultOk(strict, k, default) && LenOk(Capacity(k), LenWidth(k))
    ensures LenWidth(k) != 0 ==> StoreLen(default.used, LenWidth(k)) == default.used
  {
    hide StoreLen, CStr, Booleans, Word;
    if LenWidth(k) != 0 {
      LenIsKept(default.used, Capacity(k), LenWidth(k));
    }
  }

  lemma {:induction false} ResetFieldSane(W: WordSize, strict: bool, d: Descr, i: nat, g: Obj)
    requires DescrOk(W, strict, d) && i < |d.fields| && ShapeField(d.fields[i].kind, g) && UsesImage(d, i)
    ensures SaneField(strict, true, d.fields[i].kind, ResetField(d, i, g))
    decreases d, 0
  {
    var k := d.fields[i].kind;
    assert KindOk(W, strict, k);
    match k {
      case KNested(nd) => ResetSane(W, strict, nd, g);
      case _ =>
        var default := FieldDefault(d, i);
        if default.Some? {
          assert DefaultOk(strict, k, default.value);
          DefaultIsKept(strict, k, default.value);
        } else {
          ZeroCellSane(W, strict, k, if LenWidth(k) != 0 then 0 else g.used);
        }
    }
  }

  /** A reset object is sane in every part. */
  lemma {:induction false} ResetSane(W: WordSize, strict: bool, d: Descr, g: Obj)
    requires DescrOk(W, strict, d) && Shape(d, g)
    ensures Sane(strict, true, d, Reset(d, g))
    decreases d, 1
  {
    hide ResetField, SaneField, ShapeField, KindOk;
    ResetShape(W, strict, d, g);
    ResetKids(d, g);
    var r := Reset(d, g);
    forall i | 0 <= i < |d.fields| && !NotHeld(d, r.aux, i)
      ensures SaneField(strict, true, d.fields[i].kind, r.kids[i])
    {
      assert ShapeField(d.fields[i].kind, g.kids[i]);
      ResetFieldSane(W, strict, d, i, g.kids[i]);
    }
  }

  /** Replacing one member by a sane one, its presence recorded, keeps an object sane. */
  lemma SaneWith(W: WordSize, strict: bool, d: Descr, t: Obj, i: nat, cell: Obj)
    requires UniqueIds(d) && Sane(strict, true, d, t) && i < |d.fields|
    requires SaneField(strict, true, d.fields[i].kind, cell) && ShapeField(d.fields[i].kind, cell)
    ensures Sane(strict, true, d, Node(ObservedAux(d, t.aux, d.fields[i].id), t.kids[i := cell]))
  {
    hide SaneField, ShapeField, ObservedAux;
    FindUnique(d, i);
    var r := Node(ObservedAux(d, t.aux, d.fields[i].id), t.kids[i := cell]);
    assert d.form.Union? ==> r.aux == d.fields[i].id by { UnionObserved(d, t.aux, d.fields[i].id); }
    forall j | 0 <= j < |d.fields|
      ensures ShapeField(d.fields[j].kind, r.kids[j])
    {
    }
  }

  lemma UnionObserved(d: Descr, aux: nat, id: nat)
    ensures d.form.Union? ==> ObservedAux(d, aux, id) == id
  {
  }

  /** The wire type and subtype of a field. */
  function OptOfField(f: Field): nat
  {
    match f
    case Leaf(_, v) => OptOf(v)
    case Group(_, _) => BEGIN
  }

  /** A member takes the field: declared id, declared type, and a handle left for a sequence. */
  predicate Takes(d: Descr, h: nat, f: Field)
  {
    var i := Find(d.fields, f.id);
    i < |d.fields| && OptOfField(f) == ExpectedOf(d.fields[i].kind) && (f.Group? ==> h > 0)
  }

  /** An element past a holder's slots, of the element type. */
  predicate OverIndex(d: Descr, f: Field)
  {
    d.form.Holder? && d.fields != [] && Find(d.fields, f.id) == |d.fields| && OptOfField(f) == ExpectedOf(d.fields[0].kind)
  }

  /** A field no member takes leaves the object alone; only an over-index element is refused. */
  lemma {:induction false} NotTaken(strict: bool, d: Descr, t: Obj, h: nat, f: Field)
    requires HasMembers(d, t) && !Takes(d, h, f)
    ensures ApplyField(strict, d, t, h, f) == if OverIndex(d, f) then None else Some(t)
  {
    hide Find, Reset;
    var i := Find(d.fields, f.id);
    if i < |d.fields| { ReadAgrees(d.fields[i].kind, [] + [i]); }
  }

  lemma {:induction false} ApplyFieldSane(W: WordSize, strict: bool, d: Descr, t: Obj, h: nat, f: Field, depth: nat)
    requires DescrOk(W, strict, d) && Sane(strict, true, d, t) && FieldOk(W, f, depth)
    requires ApplyField(strict, d, t, h, f).Some?
    ensures Sane(strict, true, d, ApplyField(strict, d, t, h, f).value)
    decreases f
  {
    hide SaneField, ApplyField, Received, KindOk, Reset;
    var i := Find(d.fields, f.id);
    if !Takes(d, h, f) {
      NotTaken(strict, d, t, h, f);
    } else {
      var k := d.fields[i].kind;
      assert KindOk(W, strict, k) && ShapeField(k, t.kids[i]);
      match f
      case Leaf(id, v) =>
        LeafKind(k, v);
        ApplyLeafAt(strict, d, t, h, i, v);
        ReceivedSane(W, strict, k, t.kids[i], v);
        var cell := Received(strict, k, t.kids[i], v).value;
        LeafSaneField(strict, k, cell);
        SaneWith(W, strict, d, t, i, cell);
      case Group(id, body) =>
        GroupKind(k);
        var nd, kid := k.descr, Opened(d, t, i);
        ApplyGroupAt(strict, d, t, h, i, body);
        NestedKind(W, strict, k, t.kids[i]);
        if nd.form.Holder? || NotHeld(d, t.aux, i) {
          ResetSane(W, strict, nd, t.kids[i]);
        } else {
          SaneKid(strict, d, t, i);
        }
        ApplySane(W, strict, nd, kid, h - 1, body, depth + 1);
        var r := ApplyFields(strict, nd, kid, h - 1, body).value;
        NestedSaneField(strict, k, r);
        SaneWith(W, strict, d, t, i, r);
    }
  }

  lemma LeafKind(k: Kind, v: Value)
    requires OptOf(v) == ExpectedOf(k)
    ensures !k.KNested?
  {
  }

  lemma GroupKind(k: Kind)
    requires BEGIN == ExpectedOf(k)
    ensures k.KNested?
  {
  }

  lemma {:induction false} NestedKind(W: WordSize, strict: bool, k: Kind, o: Obj)
    requires k.KNested? && KindOk(W, strict, k) && ShapeField(k, o)
    ensures DescrOk(W, strict, k.descr) && Shape(k.descr, o)
  {
  }

  lemma {:induction false} LeafSaneField(strict: bool, k: Kind, o: Obj)
    requires SaneCell(strict, k, o)
    ensures SaneField(strict, true, k, o) && ShapeField(k, o)
  {
  }

  lemma {:induction false} NestedSaneField(strict: bool, k: Kind, o: Obj)
    requires k.KNested? && Sane(strict, true, k.descr, o)
    ensures SaneField(strict, true, k, o) && ShapeField(k, o)
  {
  }

  /** A member of a struct or holder, or the held option of a union, is sane. */
  lemma {:induction false} SaneKid(strict: bool, d: Descr, t: Obj, i: nat)
    requires UniqueIds(d) && Sane(strict, true, d, t) && i < |d.fields| && !NotHeld(d, t.aux, i) && d.fields[i].kind.KNested?
    ensures Sane(strict, true, d.fields[i].kind.descr, t.kids[i])
  {
    FindUnique(d, i);
    assert SaneField(strict, true, d.fields[i].kind, t.kids[i]);
  }

  /** Decoding keeps an object sane: whatever fields arrive and are accepted. */
  lemma {:induction false} ApplySane(W: WordSize, strict: bool, d: Descr, t: Obj, h: nat, fs: seq<Field>, depth: nat)
    requires DescrOk(W, strict, d) && Sane(strict, true, d, t) && FieldsOk(W, fs, depth)
    requires ApplyFields(strict, d, t, h, fs).Some?
    ensures Sane(strict, true, d, ApplyFields(strict, d, t, h, fs).value)
    decreases fs
  {
    hide DescrOk, Sane, ApplyField, FieldOk;
    if fs != [] {
      ApplyFieldSane(W, strict, d, t, h, fs[0], depth);
      ApplySane(W, strict, d, ApplyField(strict, d, t, h, fs[0]).value, h, fs[1..], depth);
    }
  }

  /** Sane in every part is sane where the value lies. */
  lemma {:induction false} AllSane(strict: bool, d: Descr, o: Obj)
    requires Sane(strict, true, d, o)
    ensures Sane(strict, false, d, o)
    decreases d
  {
    forall i | 0 <= i < |d.fields| && SaneField(strict, true, d.fields[i].kind, o.kids[i])
      ensures SaneField(strict, false, d.fields[i].kind, o.kids[i])
    {
      match d.fields[i].kind {
        case KNested(nd) => AllSane(strict, nd, o.kids[i]);
        case _ =>
      }
    }
  }
}

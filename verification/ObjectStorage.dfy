/**
 * What a decode depends on. Storage outside an object's value (a string's tail, the unused end of a sized
 * buffer, options a union does not hold) never reaches the result, and equal values have equal encodings.
 */
module ObjectStorage {
  import opened Bytes
  import opened Varint
  import opened Wire
  import opened Utf8
  import opened Decoder
  import opened Meaning
  import opened DecoderTheorems
  import opened Object
  import opened ObjectDecode
  import opened ObjectRoundTrip
  import opened ObjectTheorems
  import opened ObjectCanonical
  import opened ObjectBytes

  // ---------------------------------------------------------------- equal values encode equally

  lemma {:induction false} WordsOfPrefix(num: Num, w: Width, a: seq<byte>, b: seq<byte>, n: nat)
    requires n * w <= |a| && n * w <= |b| && a[..n * w] == b[..n * w]
    ensures WireWords(num.Signed?, w, a, n) == WireWords(num.Signed?, w, b, n)
    decreases n
  {
    hide WireWord;
    if n > 0 {
      MulLess(1, n, w);
      assert n * w == w + (n - 1) * w;
      assert a[..w] == a[..n * w][..w] && b[..w] == b[..n * w][..w];
      assert a[w..][..(n - 1) * w] == a[..n * w][w..] && b[w..][..(n - 1) * w] == b[..n * w][w..];
      WordsOfPrefix(num, w, a[w..], b[w..], n - 1);
    }
  }

  lemma SameCount(n: nat, m: nat, w: nat)
    requires w > 0 && n * w == m * w
    ensures n == m
  {
    if n < m { MulStrict(n, m, w); } else if m < n { MulStrict(m, n, w); }
  }

  lemma MulStrict(n: nat, m: nat, w: nat)
    requires n < m && w > 0
    ensures n * w < m * w
  {
    MulLess(n + 1, m, w);
  }

  /** Two members of one value hold the same number of elements and are encoded to the same field. */
  lemma {:induction false} SameCell(k: Kind, x: Obj, y: Obj)
    requires !k.KNested? && ShapeField(k, x) && ShapeField(k, y) && ViewCell(k, x) == ViewCell(k, y)
    ensures UsedOf(k, x) == UsedOf(k, y) && EncodeCell(k, x) == EncodeCell(k, y)
  {
    hide WireWord, WireWords, CStr;
    var n, m := UsedOf(k, x), UsedOf(k, y);
    match k
    case KInts(num, w, cap, _) =>
      MulLess(n, cap, w);
      MulLess(m, cap, w);
      assert |x.buf[..n * w]| == n * w && |y.buf[..m * w]| == m * w;
      SameCount(n, m, w);
      WordsOfPrefix(num, w, x.buf, y.buf, n);
    case KFloats(fp64, cap, _) =>
      MulLess(n, cap, FloatWidth(fp64));
      MulLess(m, cap, FloatWidth(fp64));
      assert |x.buf[..n * FloatWidth(fp64)]| == n * FloatWidth(fp64) && |y.buf[..m * FloatWidth(fp64)]| == m * FloatWidth(fp64);
      SameCount(n, m, FloatWidth(fp64));
    case KBlob(_, _) =>
      assert |x.buf[..n]| == n && |y.buf[..m]| == m;
    case _ =>
  }

  lemma {:induction false} StringStart(buf: seq<byte>)
    ensures CStr(buf) == [] <==> buf == [] || buf[0] == 0
  {
  }

  lemma {:induction false} SameTextDefault(k: Kind, default: Option<Obj>, x: Obj, y: Obj)
    requires k.KText? && ShapeField(k, x) && ShapeField(k, y) && ViewCell(k, x) == ViewCell(k, y)
    requires default.Some? ==> ShapeField(k, default.value)
    ensures CellIsDefault(k, default, x) == CellIsDefault(k, default, y)
  {
    hide SameText, CStr;
    StringStart(x.buf);
    StringStart(y.buf);
    if default.Some? {
      SameTextSameString(x.buf, default.value.buf);
      SameTextSameString(y.buf, default.value.buf);
    }
  }

  lemma {:induction false} SameSizedDefault(k: Kind, default: Option<Obj>, x: Obj, y: Obj)
    requires !k.KNested? && LenWidth(k) != 0 && ShapeField(k, x) && ShapeField(k, y) && ViewCell(k, x) == ViewCell(k, y)
    requires default.Some? ==> ShapeField(k, default.value)
    ensures CellIsDefault(k, default, x) == CellIsDefault(k, default, y)
  {
    SameCell(k, x, y);
    UsedPrefix(k, x);
    UsedPrefix(k, y);
    hide EncodeCell, ViewCell, UsedOf, ElemWidth, SizeOfKind;
  }

  lemma {:induction false} SamePlainDefault(k: Kind, default: Option<Obj>, x: Obj, y: Obj)
    requires !k.KNested? && !k.KText? && LenWidth(k) == 0 && ShapeField(k, x) && ShapeField(k, y) && ViewCell(k, x) == ViewCell(k, y)
    requires default.Some? ==> ShapeField(k, default.value)
    ensures CellIsDefault(k, default, x) == CellIsDefault(k, default, y)
  {
    assert x.buf[..|x.buf|] == x.buf && y.buf[..|y.buf|] == y.buf;
    assert x.buf == y.buf;
  }

  lemma {:induction false} SameCellDefault(k: Kind, default: Option<Obj>, x: Obj, y: Obj)
    requires !k.KNested? && ShapeField(k, x) && ShapeField(k, y) && ViewCell(k, x) == ViewCell(k, y)
    requires default.Some? ==> ShapeField(k, default.value)
    ensures CellIsDefault(k, default, x) == CellIsDefault(k, default, y)
  {
    hide CellIsDefault, ViewCell, ShapeField, LenWidth;
    if k.KText? {
      SameTextDefault(k, default, x, y);
    } else if LenWidth(k) != 0 {
      SameSizedDefault(k, default, x, y);
    } else {
      SamePlainDefault(k, default, x, y);
    }
  }

  /** The value of a sized member is its used prefix. */
  lemma {:induction false} UsedPrefix(k: Kind, x: Obj)
    requires !k.KNested? && ShapeField(k, x) && LenWidth(k) != 0
    ensures var n := UsedOf(k, x) * ElemWidth(k); n <= |x.buf| && ViewCell(k, x) == VLeaf(x.buf[..n])
  {
    MulLess(UsedOf(k, x), Capacity(k), ElemWidth(k));
  }

  /** The encoder decides and writes the same for field i of x and of y. */
  ghost predicate FieldAgrees(d: Descr, x: Obj, y: Obj, i: nat)
    requires Shape(d, x) && Shape(d, y) && i < |d.fields|
  {
    && FieldIsDefault(d, i, x) == FieldIsDefault(d, i, y)
    && (AlwaysWritten(d, x, i) || !FieldIsDefault(d, i, x) ==> EncodeField(d.fields[i], x.kids[i]) == EncodeField(d.fields[i], y.kids[i]))
  }

  lemma {:induction false} DefaultShape(W: WordSize, strict: bool, d: Descr, i: nat)
    requires DescrOk(W, strict, d) && i < |d.fields| && UsesImage(d, i) && !d.fields[i].kind.KNested?
    ensures FieldDefault(d, i).Some? ==> ShapeField(d.fields[i].kind, FieldDefault(d, i).value)
  {
    hide FieldDefault, UniqueIds, KindOk, ExpectedOf;
    if FieldDefault(d, i).Some? { assert DefaultOk(strict, d.fields[i].kind, FieldDefault(d, i).value); }
  }

  lemma {:induction false} SameField(W: WordSize, strict: bool, d: Descr, x: Obj, y: Obj, i: nat)
    requires DescrOk(W, strict, d) && Shape(d, x) && Shape(d, y) && i < |d.fields|
    requires d.form.Union? ==> x.aux == y.aux == d.fields[i].id
    requires SameValue(d.fields[i].kind, x.kids[i], y.kids[i])
    ensures FieldAgrees(d, x, y, i)
    decreases d, 0
  {
    hide CellIsDefault, IsDefault, EncodeCell, ViewCell, FieldDefault;
    var k := d.fields[i].kind;
    assert KindOk(W, strict, k);
    match k {
      case KNested(nd) => SameObject(W, strict, nd, x.kids[i], y.kids[i]);
      case _ =>
        SameCell(k, x.kids[i], y.kids[i]);
        if UsesImage(d, i) {
          DefaultShape(W, strict, d, i);
          SameCellDefault(k, FieldDefault(d, i), x.kids[i], y.kids[i]);
        }
    }
  }

  lemma {:induction false} NotHeldAgrees(d: Descr, x: Obj, y: Obj, i: nat)
    requires Shape(d, x) && Shape(d, y) && i < |d.fields| && x.aux == y.aux && NotHeld(d, x.aux, i)
    ensures FieldAgrees(d, x, y, i) && FieldIsDefault(d, i, x) && FieldIsDefault(d, i, y)
  {
  }

  lemma {:induction false} SameFrom(d: Descr, x: Obj, y: Obj, i: nat)
    requires Shape(d, x) && Shape(d, y) && (d.form.Holder? ==> SeqLen(d, x) == SeqLen(d, y))
    requires forall j :: 0 <= j < WalkCount(d, x) ==> FieldAgrees(d, x, y, j)
    ensures EncodeFrom(d, x, i) == EncodeFrom(d, y, i)
    decreases |d.fields| - i
  {
    hide EncodeField, FieldIsDefault, ShapeField;
    if i < WalkCount(d, x) {
      assert FieldAgrees(d, x, y, i);
      SameFrom(d, x, y, i + 1);
    }
  }

  /** Objects of one value are default together and have one encoding. */
  lemma {:induction false} SameObject(W: WordSize, strict: bool, d: Descr, x: Obj, y: Obj)
    requires DescrOk(W, strict, d) && Shape(d, x) && Shape(d, y) && ViewOf(d, x) == ViewOf(d, y)
    ensures EncodeObj(d, x) == EncodeObj(d, y) && IsDefault(d, x) == IsDefault(d, y)
    decreases d, 1
  {
    hide EncodeField, FieldIsDefault, ViewField, DescrOk, ShapeField, FieldAgrees;
    var n := WalkCount(d, x);
    if d.form.Union? { UniqueOf(W, strict, d); }
    forall j | 0 <= j < n
      ensures FieldAgrees(d, x, y, j)
    {
      assert ShapeField(d.fields[j].kind, x.kids[j]) && ShapeField(d.fields[j].kind, y.kids[j]);
      if NotHeld(d, x.aux, j) {
        NotHeldAgrees(d, x, y, j);
      } else {
        if d.form.Union? { FindUnique(d, j); }
        ViewsOfFields(d, x, y, j);
        SameField(W, strict, d, x, y, j);
      }
    }
    SameFrom(d, x, y, 0);
    AgreeOnDefault(d, x, y);
  }

  lemma {:induction false} AgreeOnDefault(d: Descr, x: Obj, y: Obj)
    requires Shape(d, x) && Shape(d, y) && (d.form.Holder? ==> SeqLen(d, x) == SeqLen(d, y))
    requires forall j :: 0 <= j < WalkCount(d, x) ==> FieldAgrees(d, x, y, j)
    ensures IsDefault(d, x) == IsDefault(d, y)
  {
    hide FieldIsDefault, EncodeField, ShapeField;
    if !(d.form.Holder? && d.form.len != 0) {
      forall j | 0 <= j < |d.fields|
        ensures FieldIsDefault(d, j, x) == FieldIsDefault(d, j, y)
      {
        assert FieldAgrees(d, x, y, j);
      }
    }
  }

  /** Equal values are equal member by member. */
  lemma {:induction false} ViewsOfFields(d: Descr, x: Obj, y: Obj, j: nat)
    requires Shape(d, x) && Shape(d, y) && ViewOf(d, x) == ViewOf(d, y) && j < WalkCount(d, x)
    requires d.form.Union? ==> Find(d.fields, x.aux) == j
    ensures SameValue(d.fields[j].kind, x.kids[j], y.kids[j])
    ensures d.form.Union? ==> x.aux == y.aux
    ensures d.form.Holder? ==> SeqLen(d, x) == SeqLen(d, y)
  {
    hide ViewField, ShapeField;
    assert ShapeField(d.fields[j].kind, x.kids[j]) && ShapeField(d.fields[j].kind, y.kids[j]);
    match d.form
    case Struct =>
      assert ViewOf(d, x).kids[j] == ViewField(d.fields[j].kind, x.kids[j]);
      assert ViewOf(d, y).kids[j] == ViewField(d.fields[j].kind, y.kids[j]);
    case Holder(_) =>
      assert ViewOf(d, x).kids[j] == ViewField(d.fields[j].kind, x.kids[j]);
      assert ViewOf(d, y).kids[j] == ViewField(d.fields[j].kind, y.kids[j]);
    case Union =>
      assert ViewOf(d, x).kids[0] == ViewField(d.fields[j].kind, x.kids[j]);
      assert ViewOf(d, y).kids[0] == ViewField(d.fields[j].kind, y.kids[j]);
  }

  // ---------------------------------------------------------------- storage that decodes alike

  ghost predicate AlikeField(k: Kind, a: Obj, b: Obj)
    decreases k
  {
    match k
    case KNested(d) => Alike(d, a, b)
    case _ => ShapeField(k, a) && ShapeField(k, b) && ViewCell(k, a) == ViewCell(k, b)
  }

  /** Equal as far as any later field can tell: every slot of a holder, and the held option of a union. */
  ghost predicate Alike(d: Descr, a: Obj, b: Obj)
    decreases d
  {
    Shape(d, a) && Shape(d, b) &&
    match d.form
    case Struct => forall i :: 0 <= i < |d.fields| ==> AlikeField(d.fields[i].kind, a.kids[i], b.kids[i])
    case Holder(len) =>
      (len != 0 ==> a.aux == b.aux) && forall i :: 0 <= i < |d.fields| ==> AlikeField(d.fields[i].kind, a.kids[i], b.kids[i])
    case Union =>
      a.aux == b.aux && forall i :: 0 <= i < |d.fields| && d.fields[i].id == a.aux ==> AlikeField(d.fields[i].kind, a.kids[i], b.kids[i])
  }

  lemma {:induction false} AlikeSelf(d: Descr, a: Obj)
    requires Shape(d, a)
    ensures Alike(d, a, a)
    decreases d
  {
    forall i | 0 <= i < |d.fields|
      ensures AlikeField(d.fields[i].kind, a.kids[i], a.kids[i])
    {
      assert ShapeField(d.fields[i].kind, a.kids[i]);
      match d.fields[i].kind {
        case KNested(nd) => AlikeSelf(nd, a.kids[i]);
        case _ =>
      }
    }
  }

  lemma {:induction false} AlikeFieldView(k: Kind, a: Obj, b: Obj)
    requires AlikeField(k, a, b)
    ensures SameValue(k, a, b)
    decreases k, 0
  {
    match k {
      case KNested(d) => AlikeView(d, a, b);
      case _ =>
    }
  }

  /** Alike storage has one value. */
  lemma {:induction false} AlikeView(d: Descr, a: Obj, b: Obj)
    requires Alike(d, a, b)
    ensures Shape(d, a) && Shape(d, b) && ViewOf(d, a) == ViewOf(d, b)
    decreases d, 1
  {
    hide ViewField, AlikeField, ShapeField;
    forall i | 0 <= i < |d.fields| && AlikeField(d.fields[i].kind, a.kids[i], b.kids[i])
      ensures SameValue(d.fields[i].kind, a.kids[i], b.kids[i])
    {
      AlikeFieldView(d.fields[i].kind, a.kids[i], b.kids[i]);
    }
  }

  lemma {:induction false} ResetCellAlike(k: Kind, default: Option<Obj>, a: Obj, b: Obj)
    requires !k.KNested? && ShapeField(k, a) && ShapeField(k, b)
    requires default.Some? ==> ShapeField(k, default.value)
    ensures AlikeField(k, ResetCell(k, default, a), ResetCell(k, default, b))
  {
    hide CStr, StoreLen;
  }

  lemma {:induction false} ResetFieldAlike(W: WordSize, strict: bool, d: Descr, i: nat, a: Obj, b: Obj)
    requires DescrOk(W, strict, d) && i < |d.fields| && UsesImage(d, i)
    requires ShapeField(d.fields[i].kind, a) && ShapeField(d.fields[i].kind, b)
    ensures AlikeField(d.fields[i].kind, ResetField(d, i, a), ResetField(d, i, b))
    decreases d, 0
  {
    var k := d.fields[i].kind;
    assert KindOk(W, strict, k);
    match k {
      case KNested(nd) => ResetAlike(W, strict, nd, a, b);
      case _ =>
        if FieldDefault(d, i).Some? { assert DefaultOk(strict, k, FieldDefault(d, i).value); }
        ResetCellAlike(k, FieldDefault(d, i), a, b);
    }
  }

  /** After a reset nothing of what the storage held can be told. */
  lemma {:induction false} ResetAlike(W: WordSize, strict: bool, d: Descr, a: Obj, b: Obj)
    requires DescrOk(W, strict, d) && Shape(d, a) && Shape(d, b)
    ensures Alike(d, Reset(d, a), Reset(d, b))
    decreases d, 1
  {
    hide ResetField, AlikeField, ShapeField, KindOk, ResetAux;
    ResetShape(W, strict, d, a);
    ResetShape(W, strict, d, b);
    ResetKids(d, a);
    ResetKids(d, b);
    var r, s := Reset(d, a), Reset(d, b);
    ResetAuxAgrees(d, a.aux, b.aux);
    forall i | 0 <= i < |d.fields| && !NotHeld(d, r.aux, i)
      ensures AlikeField(d.fields[i].kind, r.kids[i], s.kids[i])
    {
      assert ShapeField(d.fields[i].kind, a.kids[i]) && ShapeField(d.fields[i].kind, b.kids[i]);
      ResetFieldAlike(W, strict, d, i, a.kids[i], b.kids[i]);
    }
  }

  lemma ResetAuxAgrees(d: Descr, aux: nat, aux': nat)
    ensures d.form.Union? ==> ResetAux(d, aux) == ResetAux(d, aux') == DefaultTag(d)
    ensures d.form.Holder? && d.form.len != 0 ==> ResetAux(d, aux) == ResetAux(d, aux')
  {
  }

  // ---------------------------------------------------------------- alike storage stays alike

  lemma {:induction false} StringIsLocal(p: seq<byte>, ra: seq<byte>, rb: seq<byte>)
    ensures CStr(p + [0] + ra) == CStr(p + [0] + rb)
  {
    var a, b := p + [0] + ra, p + [0] + rb;
    if p == [] {
      assert a[0] == 0 && b[0] == 0;
    } else {
      assert a[1..] == p[1..] + [0] + ra && b[1..] == p[1..] + [0] + rb;
      StringIsLocal(p[1..], ra, rb);
    }
  }

  /** The part of a destination that survives a value of its type: only what an un-sized blob's payload leaves. */
  ghost predicate CellsAgree(k: Kind, a: Obj, b: Obj)
    requires ShapeField(k, a) && ShapeField(k, b) && !k.KNested?
  {
    k.KBlob? && LenWidth(k) == 0 ==> ViewCell(k, a) == ViewCell(k, b)
  }

  lemma {:induction false} ReceivedIntsAlike(strict: bool, k: Kind, a: Obj, b: Obj, v: Value)
    requires k.KInts? && v.Ints? && ShapeField(k, a) && ShapeField(k, b)
    ensures var ra, rb := Received(strict, k, a, v), Received(strict, k, b, v);
      ra.Some? == rb.Some? && (ra.Some? ==> AlikeField(k, ra.value, rb.value))
  {
    hide PokeWrites, ScalarBytes, AllFit, StoreLen, Packed;
    if Received(strict, k, a, v).Some? {
      var n, w, cap := |v.words|, k.width, k.cap;
      MulLess(n, cap, w);
      var p, q := Packed(k.num, w, v.words), Zeros((cap - n) * w);
      assert (cap - n) * w == cap * w - n * w;
      var c := Call(0, 0, n, OptOf(v));
      PokeTwo(WithLen(k, a, c).used, a.buf, p, q);
      PokeTwo(WithLen(k, b, c).used, b.buf, p, q);
      assert a.buf[|p| + |q|..] == [] && b.buf[|p| + |q|..] == [];
    }
  }

  lemma {:induction false} ReceivedFloatsAlike(strict: bool, k: Kind, a: Obj, b: Obj, v: Value)
    requires k.KFloats? && v.Floats? && v.fp64 == k.fp64 && ShapeField(k, a) && ShapeField(k, b)
    requires |v.payload| % FloatWidth(v.fp64) == 0
    ensures var ra, rb := Received(strict, k, a, v), Received(strict, k, b, v);
      ra.Some? == rb.Some? && (ra.Some? ==> AlikeField(k, ra.value, rb.value))
  {
    hide PokeWrites, StoreLen;
    if Received(strict, k, a, v).Some? {
      var w, cap := FloatWidth(k.fp64), k.cap;
      var n := |v.payload| / w;
      var q := Zeros((cap - n) * w);
      assert n * w == |v.payload| && (cap - n) * w == cap * w - n * w;
      var c := Call(0, w, n, OptOf(v));
      PokeTwo(WithLen(k, a, c).used, a.buf, v.payload, q);
      PokeTwo(WithLen(k, b, c).used, b.buf, v.payload, q);
      assert a.buf[|v.payload| + |q|..] == [] && b.buf[|v.payload| + |q|..] == [];
    }
  }

  lemma {:induction false} ReceivedBlobAlike(strict: bool, k: Kind, a: Obj, b: Obj, v: Value)
    requires k.KBlob? && v.Fixlen? && ShapeField(k, a) && ShapeField(k, b) && CellsAgree(k, a, b) && LenOk(k.cap, k.len)
    ensures var ra, rb := Received(strict, k, a, v), Received(strict, k, b, v);
      ra.Some? == rb.Some? && (ra.Some? ==> AlikeField(k, ra.value, rb.value))
  {
    hide PokeWrites, StoreLen, Span;
    if Received(strict, k, a, v).Some? {
      var p := v.payload;
      assert [] + [Write(0, p)] == [Write(0, p)];
      var c := Call(0, |p|, 0, OptOf(v));
      PokePrefix(WithLen(k, a, c).used, a.buf, p);
      PokePrefix(WithLen(k, b, c).used, b.buf, p);
      if k.len != 0 {
        LenIsKept(|p|, k.cap, k.len);
        assert (p + a.buf[|p|..])[..|p|] == p && (p + b.buf[|p|..])[..|p|] == p;
      } else {
        assert a.buf[..k.cap] == a.buf && b.buf[..k.cap] == b.buf;
      }
    }
  }

  lemma {:induction false} ReceivedScalarAlike(strict: bool, k: Kind, a: Obj, b: Obj, v: Value)
    requires (k.KInt? && v.Int?) || (k.KFloat? && v.Fixlen? && |v.payload| == FloatWidth(k.fp64))
    requires ShapeField(k, a) && ShapeField(k, b)
    ensures var ra, rb := Received(strict, k, a, v), Received(strict, k, b, v);
      ra.Some? == rb.Some? && (ra.Some? ==> AlikeField(k, ra.value, rb.value))
  {
    hide ScalarBytes, PokeWrites;
    var one := if k.KInt? then ScalarBytes(k.num, k.width, v.word).0 else v.payload;
    PokePrefix(a.used, a.buf, one);
    PokePrefix(b.used, b.buf, one);
    assert one + a.buf[|one|..] == one && one + b.buf[|one|..] == one;
  }

  lemma {:induction false} ReceivedTextAlike(strict: bool, k: Kind, a: Obj, b: Obj, v: Value)
    requires k.KText? && v.Fixlen? && ShapeField(k, a) && ShapeField(k, b)
    ensures var ra, rb := Received(strict, k, a, v), Received(strict, k, b, v);
      ra.Some? == rb.Some? && (ra.Some? ==> AlikeField(k, ra.value, rb.value))
  {
    hide ValidText, CStr, PokeWrites;
    if Received(strict, k, a, v).Some? {
      var p := v.payload;
      assert [Write(|p|, [0])] + [Write(0, p)] == [Write(|p|, [0]), Write(0, p)];
      PokeTwo(a.used, a.buf, p, [0]);
      PokeTwo(b.used, b.buf, p, [0]);
      StringIsLocal(p, a.buf[|p| + 1..], b.buf[|p| + 1..]);
    }
  }

  /** What a member holds after a field does not depend on what it held, but for an un-sized blob's tail. */
  lemma {:induction false} ReceivedAlike(W: WordSize, strict: bool, k: Kind, a: Obj, b: Obj, v: Value)
    requires !k.KNested? && KindOk(W, strict, k) && ShapeField(k, a) && ShapeField(k, b) && CellsAgree(k, a, b)
    requires ValueOk(W, v) && OptOf(v) == ExpectedOf(k)
    ensures var ra, rb := Received(strict, k, a, v), Received(strict, k, b, v);
      ra.Some? == rb.Some? && (ra.Some? ==> AlikeField(k, ra.value, rb.value))
  {
    hide Pow2, Span, Received, AlikeField, ShapeField, CellsAgree, WordsFit;
    match k
    case KInt(_, _) => ReceivedScalarAlike(strict, k, a, b, v);
    case KFloat(_) => ReceivedScalarAlike(strict, k, a, b, v);
    case KText(_) => ReceivedTextAlike(strict, k, a, b, v);
    case KBlob(_, _) => ReceivedBlobAlike(strict, k, a, b, v);
    case KInts(_, _, _, _) => ReceivedIntsAlike(strict, k, a, b, v);
    case KFloats(_, _, _) => ReceivedFloatsAlike(strict, k, a, b, v);
  }

  /** What the member that takes a field holds afterwards; `anew` is a sequence that starts from a reset. */
  function KidAfter(strict: bool, k: Kind, h: nat, kid: Obj, anew: bool, f: Field): Option<Obj>
  {
    match f
    case Leaf(_, v) => Received(strict, k, kid, v)
    case Group(_, body) =>
      if k.KNested? && h > 0 then ApplyFields(strict, k.descr, if anew then Reset(k.descr, kid) else kid, h - 1, body) else None
  }

  predicate Anew(d: Descr, aux: nat, i: nat)
    requires i < |d.fields|
  {
    NotHeld(d, aux, i) || (d.fields[i].kind.KNested? && d.fields[i].kind.descr.form.Holder?)
  }

  /** A field that is taken changes the one member that takes it, and records its presence. */
  lemma {:induction false} Taken(strict: bool, d: Descr, t: Obj, h: nat, f: Field)
    requires UniqueIds(d) && HasMembers(d, t) && Takes(d, h, f)
    ensures var i := Find(d.fields, f.id);
      ApplyField(strict, d, t, h, f)
        == match KidAfter(strict, d.fields[i].kind, h, t.kids[i], Anew(d, t.aux, i), f)
           case None => None
           case Some(kid) => Some(Node(ObservedAux(d, t.aux, f.id), t.kids[i := kid]))
  {
    hide ApplyField, ApplyFields, Received, ObservedAux, Reset, Find;
    var i := Find(d.fields, f.id);
    var k := d.fields[i].kind;
    match f
    case Leaf(_, v) =>
      LeafKind(k, v);
      ApplyLeafAt(strict, d, t, h, i, v);
    case Group(_, body) =>
      GroupKind(k);
      ApplyGroupAt(strict, d, t, h, i, body);
  }

  lemma {:induction false} KidAlike(W: WordSize, strict: bool, d: Descr, a: Obj, b: Obj, h: nat, i: nat, f: Field, depth: nat)
    requires DescrOk(W, strict, d) && Alike(d, a, b) && FieldOk(W, f, depth)
    requires i < |d.fields| && Takes(d, h, f) && i == Find(d.fields, f.id)
    ensures Anew(d, a.aux, i) == Anew(d, b.aux, i)
    ensures var k, anew := d.fields[i].kind, Anew(d, a.aux, i);
      var ra, rb := KidAfter(strict, k, h, a.kids[i], anew, f), KidAfter(strict, k, h, b.kids[i], anew, f);
      ra.Some? == rb.Some? && (ra.Some? ==> AlikeField(k, ra.value, rb.value))
    decreases f, 0
  {
    hide Received, ApplyFields, Reset, Find, ViewCell;
    var k := d.fields[i].kind;
    assert KindOk(W, strict, k) && ShapeField(k, a.kids[i]) && ShapeField(k, b.kids[i]);
    var anew := Anew(d, a.aux, i);
    match f
    case Leaf(_, v) =>
      LeafKind(k, v);
      assert CellsAgree(k, a.kids[i], b.kids[i]);
      ReceivedAlike(W, strict, k, a.kids[i], b.kids[i], v);
    case Group(_, body) =>
      GroupKind(k);
      NestedKind(W, strict, k, a.kids[i]);
      NestedKind(W, strict, k, b.kids[i]);
      var nd := k.descr;
      if anew {
        ResetAlike(W, strict, nd, a.kids[i], b.kids[i]);
        ApplyAlike(W, strict, nd, Reset(nd, a.kids[i]), Reset(nd, b.kids[i]), h - 1, body, depth + 1);
      } else {
        assert AlikeField(k, a.kids[i], b.kids[i]);
        ApplyAlike(W, strict, nd, a.kids[i], b.kids[i], h - 1, body, depth + 1);
      }
  }

  /** Alike objects with the same member replaced by alike ones are alike. */
  lemma AlikeWith(d: Descr, a: Obj, b: Obj, i: nat, ca: Obj, cb: Obj)
    requires UniqueIds(d) && Alike(d, a, b) && i < |d.fields| && AlikeField(d.fields[i].kind, ca, cb)
    requires ShapeField(d.fields[i].kind, ca) && ShapeField(d.fields[i].kind, cb)
    ensures Alike(d, Node(ObservedAux(d, a.aux, d.fields[i].id), a.kids[i := ca]), Node(ObservedAux(d, b.aux, d.fields[i].id), b.kids[i := cb]))
  {
    hide AlikeField, ShapeField, StoreLen;
    var x, y := Node(ObservedAux(d, a.aux, d.fields[i].id), a.kids[i := ca]), Node(ObservedAux(d, b.aux, d.fields[i].id), b.kids[i := cb]);
    forall j | 0 <= j < |d.fields| ensures ShapeField(d.fields[j].kind, x.kids[j]) && ShapeField(d.fields[j].kind, y.kids[j])
    {
    }
    if d.form.Union? {
      forall j | 0 <= j < |d.fields| && d.fields[j].id == d.fields[i].id ensures j == i
      {
        FindUnique(d, i);
        FindUnique(d, j);
      }
    }
  }

  lemma {:induction false} ApplyFieldAlike(W: WordSize, strict: bool, d: Descr, a: Obj, b: Obj, h: nat, f: Field, depth: nat)
    requires DescrOk(W, strict, d) && Alike(d, a, b) && FieldOk(W, f, depth)
    ensures var ra, rb := ApplyField(strict, d, a, h, f), ApplyField(strict, d, b, h, f);
      ra.Some? == rb.Some? && (ra.Some? ==> Alike(d, ra.value, rb.value))
    decreases f, 1
  {
    hide ApplyField, KidAfter, AlikeField, ObservedAux, Takes, Anew;
    if Takes(d, h, f) {
      TakesMember(d, h, f);
      var i := Find(d.fields, f.id);
      var k := d.fields[i].kind;
      Taken(strict, d, a, h, f);
      Taken(strict, d, b, h, f);
      KidAlike(W, strict, d, a, b, h, i, f, depth);
      var anew := Anew(d, a.aux, i);
      var ra, rb := KidAfter(strict, k, h, a.kids[i], anew, f), KidAfter(strict, k, h, b.kids[i], anew, f);
      if ra.Some? {
        AlikeFieldView(k, ra.value, rb.value);
        AlikeWith(d, a, b, i, ra.value, rb.value);
      }
    } else {
      NotTaken(strict, d, a, h, f);
      NotTaken(strict, d, b, h, f);
    }
  }

  lemma TakesMember(d: Descr, h: nat, f: Field)
    requires Takes(d, h, f)
    ensures Find(d.fields, f.id) < |d.fields|
  {
  }

  /** The same fields are accepted into alike storage or into neither, and leave it alike. */
  lemma {:induction false} ApplyAlike(W: WordSize, strict: bool, d: Descr, a: Obj, b: Obj, h: nat, fs: seq<Field>, depth: nat)
    requires DescrOk(W, strict, d) && Alike(d, a, b) && FieldsOk(W, fs, depth)
    ensures var ra, rb := ApplyFields(strict, d, a, h, fs), ApplyFields(strict, d, b, h, fs);
      ra.Some? == rb.Some? && (ra.Some? ==> Alike(d, ra.value, rb.value))
    decreases fs
  {
    hide ApplyField, Alike, DescrOk, FieldOk;
    if fs != [] {
      ApplyFieldAlike(W, strict, d, a, b, h, fs[0], depth);
      var ra, rb := ApplyField(strict, d, a, h, fs[0]), ApplyField(strict, d, b, h, fs[0]);
      if ra.Some? { ApplyAlike(W, strict, d, ra.value, rb.value, h, fs[1..], depth); }
    }
  }

  lemma {:induction false} ApplyShape(W: WordSize, strict: bool, d: Descr, a: Obj, h: nat, fs: seq<Field>, depth: nat)
    requires DescrOk(W, strict, d) && Shape(d, a) && FieldsOk(W, fs, depth)
    ensures var r := ApplyFields(strict, d, a, h, fs); r.Some? ==> Shape(d, r.value)
  {
    hide DescrOk, Shape, ApplyFields, FieldsOk;
    AlikeSelf(d, a);
    ApplyAlike(W, strict, d, a, a, h, fs, depth);
    var r := ApplyFields(strict, d, a, h, fs);
    if r.Some? { AlikeView(d, r.value, r.value); }
  }

  // ---------------------------------------------------------------- end to end

  /**
   * Canonical form: whatever bytes the decoder accepts into initialised storage, in whatever chunks, the object
   * is one the encoder accepts; decoding its encoding (into any initialised storage) gives the same value, and
   * encoding that again gives the same bytes.
   */
  lemma {:induction false} Canonical(W: WordSize, strict: bool, d: Descr, g: Obj, g': Obj, h: nat, h': nat, chunks: seq<seq<byte>>, again: seq<seq<byte>>)
    requires DescrOk(W, strict, d) && Levels(d) <= MAX_DEPTH && h' >= Levels(d) && Shape(d, g) && Shape(d, g')
    requires DecodeObject(W, strict, d, Reset(d, g), h, chunks).Some?
    ensures var x := DecodeObject(W, strict, d, Reset(d, g), h, chunks).value;
      && Sane(strict, false, d, x)
      && (Join(again) == EncodeBytes(d, x) ==>
            var y := DecodeObject(W, strict, d, Reset(d, g'), h', again);
            && y.Some? && Shape(d, y.value) && ViewOf(d, y.value) == ViewOf(d, x)
            && EncodeBytes(d, y.value) == EncodeBytes(d, x))
  {
    hide DecodeObject, ApplyFields, ParseFields, DescrOk, Sane, FieldsOk, Reset;
    DecodeIsApply(W, strict, d, Reset(d, g), h, chunks);
    ParsedOk(W, Join(chunks), 0);
    ResetSane(W, strict, d, g);
    ApplySane(W, strict, d, Reset(d, g), h, ParseFields(W, Join(chunks), 0).tree, 0);
    var x := DecodeObject(W, strict, d, Reset(d, g), h, chunks).value;
    AllSane(strict, d, x);
    SaneShape(strict, false, d, x);
    if Join(again) == EncodeBytes(d, x) {
      RoundTrip(W, strict, d, x, g', h', again);
      SameObject(W, strict, d, DecodeObject(W, strict, d, Reset(d, g'), h', again).value, x);
    }
  }

  /** The storage a decode starts from does not show: any two initialised objects decode a message to one value. */
  lemma {:induction false} StorageDoesNotShow(W: WordSize, strict: bool, d: Descr, g: Obj, g': Obj, h: nat, chunks: seq<seq<byte>>)
    requires DescrOk(W, strict, d) && Shape(d, g) && Shape(d, g')
    ensures var x, y := DecodeObject(W, strict, d, Reset(d, g), h, chunks), DecodeObject(W, strict, d, Reset(d, g'), h, chunks);
      && x.Some? == y.Some?
      && (x.Some? ==> Shape(d, x.value) && Shape(d, y.value) && ViewOf(d, x.value) == ViewOf(d, y.value))
  {
    hide DecodeObject, ApplyFields, ParseFields, DescrOk, FieldsOk, Reset, Alike;
    DecodeIsApply(W, strict, d, Reset(d, g), h, chunks);
    DecodeIsApply(W, strict, d, Reset(d, g'), h, chunks);
    ParsedOk(W, Join(chunks), 0);
    ResetAlike(W, strict, d, g, g');
    var p := ParseFields(W, Join(chunks), 0);
    if p.Parsed? {
      ApplyAlike(W, strict, d, Reset(d, g), Reset(d, g'), h, p.tree, 0);
      var x, y := ApplyFields(strict, d, Reset(d, g), h, p.tree), ApplyFields(strict, d, Reset(d, g'), h, p.tree);
      if x.Some? { AlikeView(d, x.value, y.value); }
    }
  }
}

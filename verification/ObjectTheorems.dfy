/** The laws of the object codec: round trip, canonical form, and what a decoder leaves of an object. */
module ObjectTheorems {
  import opened Bytes
  import opened Wire
  import opened Decoder
  import opened Meaning
  import opened Object
  import opened ObjectDecode
  import opened ObjectRoundTrip

  // ---------------------------------------------------------------- one field

  lemma {:induction false} UniqueOf(W: WordSize, strict: bool, d: Descr)
    requires DescrOk(W, strict, d)
    ensures UniqueIds(d)
  {
  }

  lemma FindUnique(d: Descr, i: nat)
    requires UniqueIds(d) && i < |d.fields|
    ensures Find(d.fields, d.fields[i].id) == i
  {
    var j := Find(d.fields, d.fields[i].id);
  }

  /** A holder's count or a union's tag once element id is bound. */
  function ObservedAux(d: Descr, aux: nat, id: nat): nat
  {
    match d.form
    case Struct => aux
    case Holder(len) => if len != 0 && Min(id + 1, |d.fields|) > aux then StoreLen(Min(id + 1, |d.fields|), len) else aux
    case Union => id
  }

  lemma ObserveIs(d: Descr, aux: nat, kids: seq<Obj>, id: nat)
    ensures Observe(d, Node(aux, kids), id) == Node(ObservedAux(d, aux, id), kids)
  {
    hide StoreLen;
  }

  /** A leaf field of the declared type: its cell receives the value and its presence is recorded. */
  lemma {:induction false} ApplyLeafAt(strict: bool, d: Descr, t: Obj, h: nat, i: nat, v: Value)
    requires UniqueIds(d) && HasMembers(d, t) && i < |d.fields| && !d.fields[i].kind.KNested?
    requires OptOf(v) == ExpectedOf(d.fields[i].kind)
    ensures var f := d.fields[i];
      ApplyField(strict, d, t, h, Leaf(f.id, v))
        == match Received(strict, f.kind, t.kids[i], v)
           case None => None
           case Some(cell) => Some(Node(ObservedAux(d, t.aux, f.id), t.kids[i := cell]))
  {
    hide Render, PokeWrites, StoreLen, Observe, ObservedAux;
    var f := d.fields[i];
    var k, c := f.kind, Call(f.id, SizeOf(v), CountOf(v), OptOf(v));
    FindUnique(d, i);
    var cell := WithLen(k, t.kids[i], c);
    assert cell == WithLen(k, t.kids[i], c.(id := 0));
    ObserveIs(d, t.aux, t.kids[i := cell], f.id);
    assert [] + [i] == [i];
    ReadAgrees(k, [i]);
    RenderMoves(strict, ReadOf(k, [i]), ReadOf(k, []), [i], v);
    var ws := Render(strict, ReadOf(k, []), v);
    if ws.Some? {
      assert t.kids[i := cell][i := PokeWrites(cell, ws.value)] == t.kids[i := PokeWrites(cell, ws.value)];
    }
  }

  /** The storage a sequence field's contents arrive in. */
  function Opened(d: Descr, t: Obj, i: nat): Obj
    requires t.Node? && i < |d.fields| && i < |t.kids| && d.fields[i].kind.KNested?
  {
    var nd := d.fields[i].kind.descr;
    if nd.form.Holder? || NotHeld(d, t.aux, i) then Reset(nd, t.kids[i]) else t.kids[i]
  }

  /** A sequence field of a declared sequence: replaced or merged, with the presence recorded. */
  lemma {:induction false} ApplyGroupAt(strict: bool, d: Descr, t: Obj, h: nat, i: nat, body: seq<Field>)
    requires UniqueIds(d) && HasMembers(d, t) && i < |d.fields| && d.fields[i].kind.KNested? && h > 0
    ensures var f := d.fields[i];
      ApplyField(strict, d, t, h, Group(f.id, body))
        == match ApplyFields(strict, f.kind.descr, Opened(d, t, i), h - 1, body)
           case None => None
           case Some(kid) => Some(Node(ObservedAux(d, t.aux, f.id), t.kids[i := kid]))
  {
    hide Observe, ObservedAux, Reset, ApplyFields;
    var f, kid := d.fields[i], Opened(d, t, i);
    FindUnique(d, i);
    ObserveIs(d, t.aux, t.kids[i := kid], f.id);
    var o1 := Node(ObservedAux(d, t.aux, f.id), t.kids[i := kid]);
    assert FieldCallback(d, t, [], h, Call(f.id, 0, 0, BEGIN)) == (o1, ReadSequence(Scope(f.kind.descr, [] + [i], h - 1)), false);
    assert o1.kids[i] == kid;
    var r := ApplyFields(strict, f.kind.descr, kid, h - 1, body);
    if r.Some? {
      assert t.kids[i := kid][i := r.value] == t.kids[i := r.value];
    }
  }

  lemma {:induction false} ApplyCons(strict: bool, d: Descr, t: Obj, h: nat, f: Field, fs: seq<Field>)
    ensures ApplyFields(strict, d, t, h, [f] + fs)
      == match ApplyField(strict, d, t, h, f) case None => None case Some(t1) => ApplyFields(strict, d, t1, h, fs)
  {
    hide ApplyField;
    assert ([f] + fs)[1..] == fs;
  }

  /** cell is a member of kind k with the value of x. */
  ghost predicate SameValue(k: Kind, cell: Obj, x: Obj)
  {
    ShapeField(k, cell) && ShapeField(k, x) && ViewField(k, cell) == ViewField(k, x)
  }

  /** The storage of a sequence field as a reset leaves it, or about to be reset. */
  ghost predicate FreshFor(d: Descr, t: Obj, i: nat, g: Obj)
    requires Shape(d, t) && i < |d.fields|
  {
    d.fields[i].kind.KNested? ==>
      var nd := d.fields[i].kind.descr;
      Shape(nd, g) && (nd.form.Holder? || NotHeld(d, t.aux, i) || t.kids[i] == Reset(nd, g))
  }

  lemma LeafRoundTrip(W: WordSize, strict: bool, d: Descr, t: Obj, h: nat, i: nat, x: Obj) returns (cell: Obj)
    requires UniqueIds(d) && HasMembers(d, t) && i < |d.fields| && !d.fields[i].kind.KNested?
    requires KindOk(W, strict, d.fields[i].kind) && SaneCell(strict, d.fields[i].kind, x) && ShapeField(d.fields[i].kind, t.kids[i])
    ensures var f := d.fields[i];
      && SameValue(f.kind, cell, x)
      && ApplyField(strict, d, t, h, EncodeField(f, x)) == Some(Node(ObservedAux(d, t.aux, f.id), t.kids[i := cell]))
  {
    hide ApplyField, ObservedAux, Received, EncodeCell, ViewCell, SaneCell;
    var f := d.fields[i];
    SaneCellShape(strict, f.kind, x);
    EncodedOpt(f.kind, x);
    CellSurvives(W, strict, f.kind, x, t.kids[i]);
    ApplyLeafAt(strict, d, t, h, i, EncodeCell(f.kind, x));
    cell := Received(strict, f.kind, t.kids[i], EncodeCell(f.kind, x)).value;
  }

  lemma {:induction false} SaneCellShape(strict: bool, k: Kind, x: Obj)
    requires SaneCell(strict, k, x)
    ensures ShapeField(k, x)
  {
    hide CStr, Booleans;
  }

  lemma {:induction false} NestedRoundTrip(W: WordSize, strict: bool, d: Descr, t: Obj, h: nat, i: nat, x: Obj, g: Obj)
      returns (kid: Obj)
    requires DescrOk(W, strict, d) && Shape(d, t) && i < |d.fields| && d.fields[i].kind.KNested?
    requires Sane(strict, false, d.fields[i].kind.descr, x) && FreshFor(d, t, i, g) && h >= Levels(d)
    ensures var f, nd := d.fields[i], d.fields[i].kind.descr;
      && Shape(nd, kid) && Shape(nd, x) && ViewOf(nd, kid) == ViewOf(nd, x)
      && ApplyField(strict, d, t, h, Group(f.id, EncodeFrom(nd, x, 0))) == Some(Node(ObservedAux(d, t.aux, f.id), t.kids[i := kid]))
    decreases d, 0, 0
  {
    hide ApplyField, ObservedAux, ApplyFields, ViewOf, EncodeFrom, Reset;
    var f, nd := d.fields[i], d.fields[i].kind.descr;
    assert KindOk(W, strict, f.kind) && ShapeField(f.kind, t.kids[i]);
    hide SaneField, KindOk, ShapeField;
    LevelsBound(d, i, 0);
    ApplyGroupAt(strict, d, t, h, i, EncodeFrom(nd, x, 0));
    var start := if Opened(d, t, i) == Reset(nd, t.kids[i]) then t.kids[i] else g;
    ObjectsRoundTrip(W, strict, nd, x, start, h - 1);
    kid := ApplyFields(strict, nd, Opened(d, t, i), h - 1, EncodeFrom(nd, x, 0)).value;
  }

  /** One encoded field, decoded into fresh storage, has its value again; the other members are untouched. */
  lemma {:induction false} FieldRoundTrip(W: WordSize, strict: bool, d: Descr, t: Obj, h: nat, i: nat, x: Obj, g: Obj)
      returns (cell: Obj)
    requires DescrOk(W, strict, d) && Shape(d, t) && i < |d.fields|
    requires SaneField(strict, false, d.fields[i].kind, x) && ShapeField(d.fields[i].kind, x)
    requires FreshFor(d, t, i, g) && h >= Levels(d)
    ensures var f := d.fields[i];
      && SameValue(f.kind, cell, x)
      && ApplyField(strict, d, t, h, EncodeField(f, x)) == Some(Node(ObservedAux(d, t.aux, f.id), t.kids[i := cell]))
    decreases d, 0, 1
  {
    hide ApplyField, ObservedAux, Received, SaneCell, ViewCell, EncodeCell, FreshFor;
    var f := d.fields[i];
    assert KindOk(W, strict, f.kind) && ShapeField(f.kind, t.kids[i]);
    match f.kind {
      case KNested(nd) => cell := NestedRoundTrip(W, strict, d, t, h, i, x, g);
      case _ => cell := LeafRoundTrip(W, strict, d, t, h, i, x);
    }
  }

  // ---------------------------------------------------------------- structs and holders

  /** Decoding has reached field i: the fields before have their values, the others are as reset. */
  ghost predicate Reached(d: Descr, x: Obj, g: Obj, i: nat, t: Obj)
    requires Shape(d, x) && Shape(d, g)
  {
    && t.Node? && |t.kids| == |d.fields| && i <= WalkCount(d, x)
    && (forall j :: 0 <= j < i ==> SameValue(d.fields[j].kind, t.kids[j], x.kids[j]))
    && (forall j :: i <= j < |d.fields| ==> t.kids[j] == ResetField(d, j, g.kids[j]) && ShapeField(d.fields[j].kind, t.kids[j]))
    && (d.form.Holder? && d.form.len != 0 ==> t.aux <= i && (i == WalkCount(d, x) ==> t.aux == i))
  }

  lemma CountRises(d: Descr, aux: nat, i: nat)
    requires d.form.Holder? && d.form.len != 0 && LenOk(|d.fields|, d.form.len) && aux <= i < |d.fields|
    ensures ObservedAux(d, aux, i) == i + 1
  {
    LenIsKept(i + 1, |d.fields|, d.form.len);
    assert Min(i + 1, |d.fields|) == i + 1;
  }

  /** A skipped default field keeps the invariant: the reset value is the value. */
  lemma SkipStep(W: WordSize, strict: bool, d: Descr, x: Obj, g: Obj, i: nat, t: Obj)
    requires DescrOk(W, strict, d) && Sane(strict, false, d, x) && Shape(d, g) && !d.form.Union?
    requires Reached(d, x, g, i, t) && i < WalkCount(d, x)
    requires !AlwaysWritten(d, x, i) && FieldIsDefault(d, i, x)
    ensures Reached(d, x, g, i + 1, t)
  {
    hide DescrOk, SaneField, ViewField, ResetField, ShapeField, FieldIsDefault;
    assert SaneField(strict, false, d.fields[i].kind, x.kids[i]);
    assert ShapeField(d.fields[i].kind, x.kids[i]);
    DefaultField(W, strict, false, d, i, x, g);
    assert SameValue(d.fields[i].kind, t.kids[i], x.kids[i]);
  }

  lemma {:induction false} DecodeFrom(W: WordSize, strict: bool, d: Descr, x: Obj, g: Obj, h: nat, i: nat, t: Obj)
    requires DescrOk(W, strict, d) && Sane(strict, false, d, x) && Shape(d, g) && !d.form.Union?
    requires Reached(d, x, g, i, t) && h >= Levels(d)
    ensures var r := ApplyFields(strict, d, t, h, EncodeFrom(d, x, i));
      r.Some? && Reached(d, x, g, WalkCount(d, x), r.value)
    decreases d, 1, |d.fields| - i
  {
    hide DescrOk, SaneField, ViewField, ResetField, ApplyField, ObservedAux, FieldIsDefault, EncodeField;
    if i < WalkCount(d, x) {
      if !AlwaysWritten(d, x, i) && FieldIsDefault(d, i, x) {
        SkipStep(W, strict, d, x, g, i, t);
        DecodeFrom(W, strict, d, x, g, h, i + 1, t);
      } else {
        var f := d.fields[i];
        assert SaneField(strict, false, f.kind, x.kids[i]) && ShapeField(f.kind, x.kids[i]) && ShapeField(f.kind, g.kids[i]);
        ReachedShape(d, x, g, i, t);
        ReachedFresh(d, x, g, i, t);
        var cell := FieldRoundTrip(W, strict, d, t, h, i, x.kids[i], g.kids[i]);
        var t1 := Node(ObservedAux(d, t.aux, f.id), t.kids[i := cell]);
        ReachedNext(W, strict, d, x, g, i, t, cell);
        ApplyCons(strict, d, t, h, EncodeField(f, x.kids[i]), EncodeFrom(d, x, i + 1));
        DecodeFrom(W, strict, d, x, g, h, i + 1, t1);
      }
    }
  }

  lemma {:induction false} ReachedShape(d: Descr, x: Obj, g: Obj, i: nat, t: Obj)
    requires Shape(d, x) && Shape(d, g) && Reached(d, x, g, i, t)
    ensures Shape(d, t)
  {
    hide ShapeField, ViewField, ResetField;
    forall j | 0 <= j < |d.fields| ensures ShapeField(d.fields[j].kind, t.kids[j])
    {
      if j < i { assert SameValue(d.fields[j].kind, t.kids[j], x.kids[j]); }
    }
  }

  lemma {:induction false} ReachedFresh(d: Descr, x: Obj, g: Obj, i: nat, t: Obj)
    requires Shape(d, x) && Shape(d, g) && Reached(d, x, g, i, t) && Shape(d, t) && i < |d.fields|
    ensures FreshFor(d, t, i, g.kids[i])
  {
    assert ShapeField(d.fields[i].kind, g.kids[i]);
    assert t.kids[i] == ResetField(d, i, g.kids[i]);
  }

  lemma {:induction false} ReachedNext(W: WordSize, strict: bool, d: Descr, x: Obj, g: Obj, i: nat, t: Obj, cell: Obj)
    requires DescrOk(W, strict, d) && Shape(d, x) && Shape(d, g) && Reached(d, x, g, i, t) && i < WalkCount(d, x) && !d.form.Union?
    requires SameValue(d.fields[i].kind, cell, x.kids[i])
    ensures Reached(d, x, g, i + 1, Node(ObservedAux(d, t.aux, d.fields[i].id), t.kids[i := cell]))
  {
    hide ShapeField, ViewField, ResetField, ObservedAux, KindOk, SameValue, UniqueIds;
    if d.form.Holder? && d.form.len != 0 {
      CountRises(d, t.aux, i);
    }
    var kids := t.kids[i := cell];
    forall j | 0 <= j < i + 1
      ensures SameValue(d.fields[j].kind, kids[j], x.kids[j])
    {
      assert j < i ==> kids[j] == t.kids[j];
    }
    forall j | i + 1 <= j < |d.fields|
      ensures kids[j] == ResetField(d, j, g.kids[j]) && ShapeField(d.fields[j].kind, kids[j])
    {
      assert kids[j] == t.kids[j];
    }
  }

  lemma {:induction false} ReachedIsValue(d: Descr, x: Obj, g: Obj, t: Obj)
    requires Shape(d, x) && Shape(d, g) && Reached(d, x, g, WalkCount(d, x), t) && !d.form.Union?
    ensures Shape(d, t) && ViewOf(d, t) == ViewOf(d, x)
  {
    hide ShapeField, ViewField, ResetField;
    ReachedShape(d, x, g, WalkCount(d, x), t);
    assert forall j :: 0 <= j < WalkCount(d, x) ==> SameValue(d.fields[j].kind, t.kids[j], x.kids[j]);
  }

  // ---------------------------------------------------------------- unions

  /** A union is encoded to its held option or to nothing. */
  lemma {:induction false} UnionFrom(d: Descr, x: Obj, i: nat)
    requires Shape(d, x) && UniqueIds(d) && d.form.Union?
    ensures var held := Find(d.fields, x.aux);
      EncodeFrom(d, x, i)
        == if i <= held < |d.fields| && !FieldIsDefault(d, held, x) then [EncodeField(d.fields[held], x.kids[held])] else []
    decreases |d.fields| - i
  {
    hide EncodeField, ShapeField;
    if i < |d.fields| {
      UnionFrom(d, x, i + 1);
      var held := Find(d.fields, x.aux);
      if i == held {
      } else {
        assert d.fields[i].id != x.aux by { if d.fields[i].id == x.aux { FindUnique(d, i); } }
      }
    }
  }

  lemma {:induction false} UnionRoundTrip(W: WordSize, strict: bool, d: Descr, x: Obj, g: Obj, h: nat)
    requires DescrOk(W, strict, d) && Sane(strict, false, d, x) && Shape(d, g) && d.form.Union? && h >= Levels(d)
    ensures var r := ApplyFields(strict, d, Reset(d, g), h, EncodeObj(d, x));
      r.Some? && Shape(d, r.value) && ViewOf(d, r.value) == ViewOf(d, x)
    decreases d, 1, 0
  {
    hide DescrOk, UniqueIds, SaneField, ViewField, ResetField, ApplyField, EncodeField, ShapeField, ViewOf, ObservedAux,
         FieldIsDefault, SameValue, FreshFor;
    UniqueOf(W, strict, d);
    var t := Reset(d, g);
    var held := Find(d.fields, x.aux);
    ResetShape(W, strict, d, g);
    ResetKids(d, g);
    UnionFrom(d, x, 0);
    if held < |d.fields| {
      var f := d.fields[held];
      assert ShapeField(f.kind, x.kids[held]) && ShapeField(f.kind, g.kids[held]) && ShapeField(f.kind, t.kids[held]);
      if FieldIsDefault(d, held, x) {
        HeldByDefault(d, x, held);
        DefaultField(W, strict, false, d, held, x, g);
        IsSameValue(f.kind, t.kids[held], x.kids[held]);
        UnionValue(d, x, t, held, t.kids[held]);
        assert t.kids[held := t.kids[held]] == t.kids;
      } else {
        UnionFresh(d, g, held);
        var cell := FieldRoundTrip(W, strict, d, t, h, held, x.kids[held], g.kids[held]);
        ApplyCons(strict, d, t, h, EncodeField(f, x.kids[held]), []);
        assert [EncodeField(f, x.kids[held])] + [] == [EncodeField(f, x.kids[held])];
        UnionAux(d, t.aux, f.id);
        UnionValue(d, x, t, held, cell);
      }
    } else {
      UnionEmpty(d, x, t);
    }
  }

  /** A held option that may be left out is the default one. */
  lemma {:induction false} HeldByDefault(d: Descr, x: Obj, i: nat)
    requires Shape(d, x) && d.form.Union? && i < |d.fields| && d.fields[i].id == x.aux && FieldIsDefault(d, i, x)
    ensures x.aux == DefaultTag(d)
  {
  }

  lemma {:induction false} IsSameValue(k: Kind, cell: Obj, x: Obj)
    requires ShapeField(k, cell) && ShapeField(k, x) && ViewField(k, cell) == ViewField(k, x)
    ensures SameValue(k, cell, x)
  {
  }

  lemma UnionAux(d: Descr, aux: nat, id: nat)
    requires d.form.Union?
    ensures ObservedAux(d, aux, id) == id
  {
  }

  /** A union is its tag and its held option. */
  lemma UnionValue(d: Descr, x: Obj, t: Obj, i: nat, cell: Obj)
    requires Shape(d, x) && Shape(d, t) && d.form.Union? && i == Find(d.fields, x.aux) < |d.fields|
    requires SameValue(d.fields[i].kind, cell, x.kids[i])
    ensures var r := Node(x.aux, t.kids[i := cell]); Shape(d, r) && ViewOf(d, r) == ViewOf(d, x)
  {
    hide ShapeField, ViewField;
    var r := Node(x.aux, t.kids[i := cell]);
    forall j | 0 <= j < |d.fields| ensures ShapeField(d.fields[j].kind, r.kids[j])
    {
      assert j != i ==> r.kids[j] == t.kids[j];
    }
  }

  lemma {:induction false} UnionEmpty(d: Descr, x: Obj, t: Obj)
    requires Shape(d, x) && Shape(d, t) && d.form.Union? && x.aux == t.aux && Find(d.fields, x.aux) == |d.fields|
    ensures ViewOf(d, t) == ViewOf(d, x)
  {
  }

  lemma {:induction false} UnionFresh(d: Descr, g: Obj, i: nat)
    requires Shape(d, g) && d.form.Union? && i < |d.fields| && Shape(d, Reset(d, g))
    ensures FreshFor(d, Reset(d, g), i, g.kids[i])
  {
    ResetKids(d, g);
    assert ShapeField(d.fields[i].kind, g.kids[i]);
  }

  // ---------------------------------------------------------------- objects

  /**
   * The round trip on trees: the fields an object is encoded to, applied to any storage after a reset, are
   * accepted and give an object of the same value, for every well-formed descriptor tree.
   */
  lemma {:induction false} ObjectsRoundTrip(W: WordSize, strict: bool, d: Descr, x: Obj, g: Obj, h: nat)
    requires DescrOk(W, strict, d) && Sane(strict, false, d, x) && Shape(d, g) && h >= Levels(d)
    ensures var r := ApplyFields(strict, d, Reset(d, g), h, EncodeObj(d, x));
      r.Some? && Shape(d, r.value) && ViewOf(d, r.value) == ViewOf(d, x)
    decreases d, 2
  {
    hide DescrOk, SaneField, ViewField, ResetField, ApplyField, EncodeField, ShapeField;
    if d.form.Union? {
      UnionRoundTrip(W, strict, d, x, g, h);
    } else {
      var t := Reset(d, g);
      ResetShape(W, strict, d, g);
      ResetKids(d, g);
      assert forall j :: 0 <= j < |d.fields| ==> ShapeField(d.fields[j].kind, t.kids[j]);
      DecodeFrom(W, strict, d, x, g, h, 0, t);
      ReachedIsValue(d, x, g, ApplyFields(strict, d, t, h, EncodeObj(d, x)).value);
    }
  }
}

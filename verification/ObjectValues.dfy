/**
 * What an initialised object holds and which members of an object reach the wire, both told from the descriptor and
 * the values alone.
 */
module ObjectValues {
  import opened Bytes
  import opened Wire
  import opened Decoder
  import opened Object
  import opened ObjectDecode
  import opened ObjectRoundTrip
  import opened ObjectTheorems
  import opened ObjectCanonical
  import opened ObjectBytes
  import opened ObjectStorage
  import opened ObjectLaws

  // ---------------------------------------------------------------- the value an object starts from

  /** The image holds a default for field i: it has a cell there and its extent, if any, covers the member. */
  predicate Declares(image: Image, i: nat, f: FieldDescr)
  {
    && i < |image.cells| && image.cells[i].Cell?
    && (image.extent == 0 || f.offset + SizeOfKind(f.kind) <= image.extent)
  }

  /** Member i of the object a descriptor describes; of a union's options only the one the tag names has a default. */
  function InitialMember(d: Descr, i: nat): Obj
    requires i < |d.fields|
    decreases d, 0
  {
    var f := d.fields[i];
    match (f.kind, d.image)
    case (KNested(nd), _) => Initial(nd)
    case (_, Some(image)) =>
      if Declares(image, i, f) && (d.form.Union? ==> f.id == image.tag) then image.cells[i] else Cell(0, Zeros(SizeOfKind(f.kind)))
    case (_, None) => Cell(0, Zeros(SizeOfKind(f.kind)))
  }

  /** The object a descriptor describes: the declared defaults, zeros elsewhere, no elements, the default option. */
  function Initial(d: Descr): Obj
    decreases d, 1
  {
    Node(if d.form.Union? && d.image.Some? then d.image.value.tag else 0,
         seq(|d.fields|, i requires 0 <= i < |d.fields| => InitialMember(d, i)))
  }

  lemma {:induction false} InitialKids(d: Descr)
    ensures var r := Initial(d);
      && r.Node? && |r.kids| == |d.fields| && (d.form.Union? ==> r.aux == DefaultTag(d)) && (d.form.Holder? ==> r.aux == 0)
      && forall i :: 0 <= i < |d.fields| ==> r.kids[i] == InitialMember(d, i)
  {
    hide InitialMember;
  }

  lemma {:induction false} InitialMemberShape(W: WordSize, strict: bool, d: Descr, i: nat)
    requires DescrOk(W, strict, d) && i < |d.fields|
    ensures ShapeField(d.fields[i].kind, InitialMember(d, i))
    decreases d, 0
  {
    var k := d.fields[i].kind;
    assert KindOk(W, strict, k);
    match k {
      case KNested(nd) => InitialShape(W, strict, nd);
      case _ => if UsesImage(d, i) { DefaultShape(W, strict, d, i); }
    }
  }

  lemma {:induction false} InitialShape(W: WordSize, strict: bool, d: Descr)
    requires DescrOk(W, strict, d)
    ensures Shape(d, Initial(d))
    decreases d, 1
  {
    hide DescrOk, ShapeField, InitialMember, Initial;
    InitialKids(d);
    forall i | 0 <= i < |d.fields|
      ensures ShapeField(d.fields[i].kind, Initial(d).kids[i])
    {
      InitialMemberShape(W, strict, d, i);
    }
  }

  lemma {:induction false} LeafStart(W: WordSize, strict: bool, d: Descr, i: nat, g: Obj)
    requires DescrOk(W, strict, d) && i < |d.fields| && UsesImage(d, i) && !d.fields[i].kind.KNested?
    requires ShapeField(d.fields[i].kind, g)
    ensures SameValue(d.fields[i].kind, ResetField(d, i, g), InitialMember(d, i))
  {
    var k, default := d.fields[i].kind, FieldDefault(d, i);
    DefaultImageOk(W, strict, d, i);
    InitialMemberShape(W, strict, d, i);
    hide DescrOk, CStr, StoreLen;
    if default.Some? {
      SaneCellShape(strict, k, default.value);
      DefaultIsKept(strict, k, default.value);
    }
  }

  /** Every member an initialisation touches starts with the value the descriptor declares for it. */
  lemma {:induction false} MemberStart(W: WordSize, strict: bool, d: Descr, i: nat, g: Obj)
    requires DescrOk(W, strict, d) && i < |d.fields| && UsesImage(d, i) && ShapeField(d.fields[i].kind, g)
    ensures SameValue(d.fields[i].kind, ResetField(d, i, g), InitialMember(d, i))
    decreases d, 0
  {
    var k := d.fields[i].kind;
    match k {
      case KNested(nd) =>
        assert KindOk(W, strict, k);
        InitialValue(W, strict, nd, g);
      case _ => LeafStart(W, strict, d, i, g);
    }
  }

  /**
   * An initialised object has the value its descriptor describes, whatever its storage held, at every level: each
   * leaf the image declares within its extent has that value, every other leaf is zero, a sized holder is empty, and
   * a union holds its default option.
   */
  lemma {:induction false} InitialValue(W: WordSize, strict: bool, d: Descr, g: Obj)
    requires DescrOk(W, strict, d) && Shape(d, g)
    ensures Shape(d, Reset(d, g)) && Shape(d, Initial(d)) && ViewOf(d, Reset(d, g)) == ViewOf(d, Initial(d))
    ensures d.form.Union? ==> Reset(d, g).aux == Initial(d).aux
    ensures forall i :: 0 <= i < |d.fields| && (d.form.Union? ==> d.fields[i].id == Initial(d).aux) ==>
      SameValue(d.fields[i].kind, Reset(d, g).kids[i], InitialMember(d, i))
    decreases d, 1
  {
    hide DescrOk, ShapeField, ResetField, InitialMember, ViewField, Reset, Initial, Find;
    ResetShape(W, strict, d, g);
    ResetKids(d, g);
    InitialShape(W, strict, d);
    InitialKids(d);
    forall i | 0 <= i < |d.fields| && UsesImage(d, i)
      ensures SameValue(d.fields[i].kind, Reset(d, g).kids[i], InitialMember(d, i))
    {
      assert ShapeField(d.fields[i].kind, g.kids[i]);
      MemberStart(W, strict, d, i, g.kids[i]);
    }
  }

  // ---------------------------------------------------------------- which members are on the wire

  /** The default test on a member that can have a default is equality with the value it starts from. */
  lemma {:induction false} MemberDefault(W: WordSize, strict: bool, d: Descr, i: nat, o: Obj)
    requires DescrOk(W, strict, d) && Sane(strict, false, d, o) && i < |d.fields|
    requires SaneField(strict, false, d.fields[i].kind, o.kids[i]) && !NotHeld(d, o.aux, i) && UsesImage(d, i)
    ensures FieldIsDefault(d, i, o) <==> SameValue(d.fields[i].kind, o.kids[i], InitialMember(d, i))
  {
    hide DescrOk, InitialMember, ViewField, ShapeField, FieldDefault, Initial, Sane;
    SaneShape(strict, false, d, o);
    var k, x := d.fields[i].kind, o.kids[i];
    assert ShapeField(k, x);
    MemberStart(W, strict, d, i, x);
    if FieldIsDefault(d, i, o) {
      DefaultField(W, strict, false, d, i, o, o);
    } else if SameValue(k, x, InitialMember(d, i)) {
      NotDefaultDiffers(W, strict, d, i, o);
      assert false;
    }
  }

  lemma {:induction false} NotDefaultDiffers(W: WordSize, strict: bool, d: Descr, i: nat, o: Obj)
    requires DescrOk(W, strict, d) && i < |d.fields| && Shape(d, o) && !NotHeld(d, o.aux, i) && UsesImage(d, i)
    requires !FieldIsDefault(d, i, o)
    ensures !SameValue(d.fields[i].kind, o.kids[i], InitialMember(d, i))
  {
    hide CellIsDefault, IsDefault, ViewCell, FieldDefault, InitialMember, Reset;
    var k, x := d.fields[i].kind, o.kids[i];
    assert ShapeField(k, x) && KindOk(W, strict, k);
    MemberStart(W, strict, d, i, x);
    match k {
      case KNested(nd) =>
        if SameValue(k, x, InitialMember(d, i)) {
          ResetIsDefault(W, strict, nd, x);
          SameObject(W, strict, nd, x, Reset(nd, x));
        }
      case _ =>
        if SameValue(k, x, InitialMember(d, i)) {
          DefaultImageOk(W, strict, d, i);
          DefaultShape(W, strict, d, i);
          ResetCellIsDefault(strict, k, FieldDefault(d, i), x);
          SameCellDefault(k, FieldDefault(d, i), x, ResetField(d, i, x));
        }
    }
  }

  /** Member i belongs on the wire: it holds something to say, told by value. */
  ghost predicate Present(d: Descr, o: Obj, i: nat)
    requires Shape(d, o) && i < |d.fields|
  {
    var changed := !SameValue(d.fields[i].kind, o.kids[i], InitialMember(d, i));
    match d.form
    case Struct => changed
    case Holder(_) => i < SeqLen(d, o) && (changed || i + 1 == SeqLen(d, o))
    case Union => o.aux == d.fields[i].id && (changed || o.aux != Initial(d).aux)
  }

  /** The members from i on that belong on the wire, in declared order, sub-objects likewise. */
  ghost function Sparse(d: Descr, o: Obj, i: nat): seq<Field>
    requires Shape(d, o)
    decreases d, |d.fields| - i
  {
    if i >= |d.fields| then []
    else (if Present(d, o, i) then [SparseField(d.fields[i], o.kids[i])] else []) + Sparse(d, o, i + 1)
  }

  ghost function SparseField(f: FieldDescr, o: Obj): Field
    requires ShapeField(f.kind, o)
    decreases f
  {
    match f.kind
    case KNested(nd) => Group(f.id, Sparse(nd, o, 0))
    case k => Leaf(f.id, EncodeCell(k, o))
  }

  /** The encoder's test, positional exception included, is presence by value. */
  lemma {:induction false} WrittenIsPresent(W: WordSize, strict: bool, d: Descr, o: Obj, i: nat)
    requires DescrOk(W, strict, d) && Sane(strict, false, d, o) && i < WalkCount(d, o)
    ensures Shape(d, o)
    ensures AlwaysWritten(d, o, i) || !FieldIsDefault(d, i, o) <==> Present(d, o, i)
  {
    hide DescrOk, SaneField, SameValue, InitialMember, IsDefault, CellIsDefault, Initial, ShapeField;
    SaneShape(strict, false, d, o);
    UniqueOf(W, strict, d);
    InitialKids(d);
    if !NotHeld(d, o.aux, i) {
      if d.form.Union? { FindUnique(d, i); }
      assert SaneField(strict, false, d.fields[i].kind, o.kids[i]);
      if UsesImage(d, i) { MemberDefault(W, strict, d, i, o); }
    }
  }

  lemma {:induction false} SparseEnd(d: Descr, o: Obj, i: nat)
    requires Shape(d, o) && i >= WalkCount(d, o)
    ensures Sparse(d, o, i) == []
    decreases |d.fields| - i
  {
    hide SameValue, SparseField;
    if i < |d.fields| { SparseEnd(d, o, i + 1); }
  }

  lemma {:induction false} FieldIsSparse(W: WordSize, strict: bool, f: FieldDescr, o: Obj)
    requires KindOk(W, strict, f.kind) && SaneField(strict, false, f.kind, o) && ShapeField(f.kind, o)
    ensures EncodeField(f, o) == SparseField(f, o)
    decreases f, 0, 0
  {
    hide EncodeCell, SaneCell, Sparse, EncodeFrom, DescrOk, Sane;
    match f.kind {
      case KNested(nd) => EncodingIsSparse(W, strict, nd, o, 0);
      case _ =>
    }
  }

  /**
   * The encoding of a valid object is sparse, at every level: in declared order, exactly the members whose value is
   * not the one they start from; in a wrapper array also the last element; of a union the held option, when it is
   * not the default one or has another value than it starts from.
   */
  lemma {:induction false} EncodingIsSparse(W: WordSize, strict: bool, d: Descr, o: Obj, i: nat)
    requires DescrOk(W, strict, d) && Sane(strict, false, d, o)
    ensures Shape(d, o)
    ensures EncodeFrom(d, o, i) == Sparse(d, o, i)
    decreases d, 1, |d.fields| - i
  {
    hide FieldIsDefault, SaneField, KindOk, ShapeField, EncodeField, SparseField, Present;
    SaneShape(strict, false, d, o);
    if i >= WalkCount(d, o) {
      SparseEnd(d, o, i);
    } else {
      EncodingIsSparse(W, strict, d, o, i + 1);
      WrittenIsPresent(W, strict, d, o, i);
      assert ShapeField(d.fields[i].kind, o.kids[i]) && KindOk(W, strict, d.fields[i].kind);
      if Present(d, o, i) {
        WrittenIsSane(strict, d, o, i);
        FieldIsSparse(W, strict, d.fields[i], o.kids[i]);
      }
    }
  }

  predicate OnWire(fs: seq<Field>, id: nat)
  {
    exists j :: 0 <= j < |fs| && fs[j].id == id
  }

  lemma {:induction false} OnWireCons(f: Field, fs: seq<Field>, id: nat)
    ensures OnWire([f] + fs, id) <==> f.id == id || OnWire(fs, id)
  {
    var all := [f] + fs;
    if OnWire(fs, id) {
      var j :| 0 <= j < |fs| && fs[j].id == id;
      assert all[j + 1].id == id;
    }
    if f.id == id { assert all[0].id == id; }
  }

  lemma {:induction false} SparseIds(d: Descr, o: Obj, i: nat, m: nat)
    requires Shape(d, o) && UniqueIds(d) && m < |d.fields|
    ensures OnWire(Sparse(d, o, i), d.fields[m].id) <==> i <= m && Present(d, o, m)
    decreases |d.fields| - i
  {
    hide Present, SparseField, OnWire, ShapeField;
    if i < |d.fields| {
      SparseIds(d, o, i + 1, m);
      assert ShapeField(d.fields[i].kind, o.kids[i]);
      SparseFieldId(d.fields[i], o.kids[i]);
      var rest := Sparse(d, o, i + 1);
      if Present(d, o, i) {
        OnWireCons(SparseField(d.fields[i], o.kids[i]), rest, d.fields[m].id);
      } else {
        assert [] + rest == rest;
      }
      SameId(d, i, m);
    } else {
      NothingOnWire(d.fields[m].id);
    }
  }

  lemma NothingOnWire(id: nat)
    ensures !OnWire([], id)
  {
  }

  lemma SameId(d: Descr, i: nat, m: nat)
    requires UniqueIds(d) && i < |d.fields| && m < |d.fields|
    ensures d.fields[i].id == d.fields[m].id <==> i == m
  {
  }

  lemma {:induction false} SparseFieldId(f: FieldDescr, o: Obj)
    requires ShapeField(f.kind, o)
    ensures SparseField(f, o).id == f.id
  {
  }

  /** A member's id is on the wire iff the member belongs there by value. */
  lemma {:induction false} OnlyChangesAreSent(W: WordSize, strict: bool, d: Descr, o: Obj, m: nat)
    requires DescrOk(W, strict, d) && Sane(strict, false, d, o) && m < |d.fields|
    ensures Shape(d, o)
    ensures OnWire(EncodeObj(d, o), d.fields[m].id) <==> Present(d, o, m)
  {
    hide OnWire, Present, DescrOk, Sane, EncodeFrom, Sparse;
    SaneShape(strict, false, d, o);
    UniqueOf(W, strict, d);
    EncodingIsSparse(W, strict, d, o, 0);
    SparseIds(d, o, 0, m);
  }
}

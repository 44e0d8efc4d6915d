/** Decoding into an object writes inside its members and keeps its layout, over every run and whatever the verdict. */
module ObjectFrames {
  import opened Bytes
  import opened Wire
  import opened Decoder
  import opened DecoderTheorems
  import opened SkipTheorems
  import opened Frames
  import opened Object
  import opened ObjectDecode
  import opened ObjectRoundTrip
  import opened ObjectTheorems

  /** The descriptor of the sub-object at a place. */
  function DescrAt(d: Descr, p: Path): Option<Descr>
    decreases |p|
  {
    if p == [] then Some(d)
    else if p[0] < |d.fields| && d.fields[p[0]].kind.KNested? then DescrAt(d.fields[p[0]].kind.descr, p[1..])
    else None
  }

  /** sizeof the leaf member at a place, 0 where there is none. */
  function SizeAt(d: Descr, p: Path): nat
  {
    if p == [] then 0
    else
      match DescrAt(d, p[..|p| - 1])
      case None => 0
      case Some(nd) => if p[|p| - 1] < |nd.fields| then SizeOfKind(nd.fields[p[|p| - 1]].kind) else 0
  }

  /** A decoder handle describes the place it points to. */
  predicate HandleOf(d: Descr, sc: Scope)
  {
    DescrAt(d, sc.dst) == Some(sc.descr)
  }

  function MemberBounds(d: Descr): Bounds<Path, Scope>
  {
    Bounds((p: Path) => SizeAt(d, p), (sc: Scope) => HandleOf(d, sc))
  }

  lemma {:induction false} DescrBelow(d: Descr, p: Path, nd: Descr, i: nat)
    requires DescrAt(d, p) == Some(nd) && i < |nd.fields|
    ensures SizeAt(d, p + [i]) == SizeOfKind(nd.fields[i].kind)
    ensures nd.fields[i].kind.KNested? ==> DescrAt(d, p + [i]) == Some(nd.fields[i].kind.descr)
    decreases |p|
  {
    assert (p + [i])[..|p|] == p;
    if p == [] {
      assert (p + [i])[1..] == [];
    } else {
      assert (p + [i])[1..] == p[1..] + [i];
      DescrBelow(d.fields[p[0]].kind.descr, p[1..], nd, i);
    }
  }

  lemma {:induction false} ShapeAt(d: Descr, root: Obj, p: Path, nd: Descr)
    requires Shape(d, root) && DescrAt(d, p) == Some(nd)
    ensures ValidPath(root, p) && Shape(nd, Inside(root, p))
    decreases |p|
  {
    if p != [] {
      assert ShapeField(d.fields[p[0]].kind, root.kids[p[0]]);
      ShapeAt(d.fields[p[0]].kind.descr, root.kids[p[0]], p[1..], nd);
    }
  }

  lemma {:induction false} PutShape(d: Descr, root: Obj, p: Path, nd: Descr, x: Obj)
    requires Shape(d, root) && DescrAt(d, p) == Some(nd) && Shape(nd, x)
    ensures Shape(d, Put(root, p, x))
    decreases |p|
  {
    if p != [] {
      var i := p[0];
      assert ShapeField(d.fields[i].kind, root.kids[i]);
      PutShape(d.fields[i].kind.descr, root.kids[i], p[1..], nd, x);
      KidShape(d, root, i, Put(root.kids[i], p[1..], x));
    }
  }

  /** An object with one member replaced by one of its kind keeps its layout. */
  lemma {:induction false} KidShape(d: Descr, o: Obj, i: nat, x: Obj)
    requires Shape(d, o) && i < |d.fields| && ShapeField(d.fields[i].kind, x)
    ensures Shape(d, WithKid(o, i, x)) && WithKid(o, i, x).kids == o.kids[i := x]
  {
    hide ShapeField;
    var r := WithKid(o, i, x);
    forall j | 0 <= j < |d.fields| ensures ShapeField(d.fields[j].kind, r.kids[j])
    {
      assert j != i ==> r.kids[j] == o.kids[j];
    }
  }

  lemma {:induction false} DescrOkAt(W: WordSize, strict: bool, d: Descr, p: Path, nd: Descr)
    requires DescrOk(W, strict, d) && DescrAt(d, p) == Some(nd)
    ensures DescrOk(W, strict, nd)
    decreases |p|
  {
    if p != [] {
      assert KindOk(W, strict, d.fields[p[0]].kind);
      DescrOkAt(W, strict, d.fields[p[0]].kind.descr, p[1..], nd);
    }
  }

  lemma {:induction false} ObserveShape(d: Descr, o: Obj, id: nat)
    requires Shape(d, o)
    ensures Shape(d, Observe(d, o, id))
  {
    hide ShapeField;
    ObserveKeepsKids(d, o, id);
  }

  lemma {:induction false} WithLenShape(k: Kind, o: Obj, c: Call)
    requires !k.KNested? && ShapeField(k, o)
    ensures ShapeField(k, WithLen(k, o, c))
  {
    hide StoreLen;
  }

  /** The callback keeps the layout of the object it serves. */
  lemma {:induction false} CallbackKeepsShape(W: WordSize, strict: bool, d: Descr, o: Obj, p: Path, h: nat, c: Call)
    requires DescrOk(W, strict, d) && Shape(d, o)
    ensures Shape(d, FieldCallback(d, o, p, h, c).0)
  {
    hide Shape, ShapeField, DescrOk, KindOk, Observe, WithLen, Reset, Find, ReadOf;
    var i := Find(d.fields, c.id);
    ShapeMember(W, strict, d, o, i);
    if i < |d.fields| {
      var k := d.fields[i].kind;
      if k.KNested? {
        NestedShape(W, strict, k, o.kids[i]);
        ResetShape(W, strict, k.descr, o.kids[i]);
        ShapeNested(k, Reset(k.descr, o.kids[i]));
        KidShape(d, o, i, Reset(k.descr, o.kids[i]));
        KidShape(d, o, i, o.kids[i]);
        ObserveShape(d, WithKid(o, i, Reset(k.descr, o.kids[i])), c.id);
        ObserveShape(d, WithKid(o, i, o.kids[i]), c.id);
      } else {
        WithLenShape(k, o.kids[i], c);
        KidShape(d, o, i, WithLen(k, o.kids[i], c));
        ObserveShape(d, WithKid(o, i, WithLen(k, o.kids[i], c)), c.id);
      }
    }
  }

  lemma {:induction false} ShapeMember(W: WordSize, strict: bool, d: Descr, o: Obj, i: nat)
    requires DescrOk(W, strict, d) && Shape(d, o)
    ensures o.Node? && |o.kids| == |d.fields|
    ensures i < |d.fields| ==> ShapeField(d.fields[i].kind, o.kids[i]) && KindOk(W, strict, d.fields[i].kind)
  {
    hide ShapeField, KindOk;
  }

  lemma {:induction false} NestedShape(W: WordSize, strict: bool, k: Kind, o: Obj)
    requires k.KNested? && ShapeField(k, o) && KindOk(W, strict, k)
    ensures Shape(k.descr, o) && DescrOk(W, strict, k.descr)
  {
  }

  lemma {:induction false} ShapeNested(k: Kind, o: Obj)
    requires k.KNested? && Shape(k.descr, o)
    ensures ShapeField(k, o)
  {
  }

  // ---------------------------------------------------------------- the object environment keeps to its members

  lemma ReadExtent(k: Kind, p: Path)
    ensures !k.KNested? ==> Extent(ReadOf(k, p)) == SizeOfKind(k) && LeafRead(ReadOf(k, p)) && ReadOf(k, p).dst == p
  {
  }

  lemma {:induction false} CallFits(d: Descr, root: Obj, sc: Scope, c: Call)
    requires HandleOf(d, sc)
    ensures ReadFits(MemberBounds(d), ObjectCall(root, sc, c).act)
  {
    hide Find, Reset, Observe, WithLen, ReadOf, SizeOfKind, Extent, SizeAt, DescrAt;
    var i := Find(sc.descr.fields, c.id);
    if i < |sc.descr.fields| {
      DescrBelow(d, sc.dst, sc.descr, i);
      ReadExtent(sc.descr.fields[i].kind, sc.dst + [i]);
    }
  }

  lemma {:induction false} ObjectKeepsTo(W: WordSize, strict: bool, d: Descr)
    ensures KeepsTo(ObjectEnv(W, strict), MemberBounds(d))
  {
    hide ObjectCall, ReadFits, HandleOf;
    forall root: Obj, sc: Scope, c: Call | MemberBounds(d).ours(sc)
      ensures ReadFits(MemberBounds(d), ObjectEnv(W, strict).call(root, sc, c).act)
    {
      CallFits(d, root, sc, c);
    }
  }

  lemma {:induction false} CallShape(W: WordSize, strict: bool, d: Descr, root: Obj, sc: Scope, c: Call)
    requires DescrOk(W, strict, d) && Shape(d, root) && HandleOf(d, sc)
    ensures Shape(d, ObjectCall(root, sc, c).user)
  {
    hide DescrOk, Shape, FieldCallback, DescrAt;
    ShapeAt(d, root, sc.dst, sc.descr);
    DescrOkAt(W, strict, d, sc.dst, sc.descr);
    var o := Inside(root, sc.dst);
    CallbackKeepsShape(W, strict, sc.descr, o, sc.dst, sc.handles, c);
    PutShape(d, root, sc.dst, sc.descr, FieldCallback(sc.descr, o, sc.dst, sc.handles, c).0);
  }

  /** Inside a member's size a store lands in that member's bytes: none is dropped. */
  lemma {:induction false} StoreLands(d: Descr, root: Obj, p: Path, pos: nat, b: byte)
    requires Shape(d, root) && pos < SizeAt(d, p)
    ensures ValidPath(root, p) && Inside(root, p).Cell? && pos < |Inside(root, p).buf|
    ensures StoreByte(root, p, pos, b) == Put(root, p, Cell(Inside(root, p).used, Inside(root, p).buf[pos := b]))
    ensures Shape(d, StoreByte(root, p, pos, b))
  {
    hide DescrAt, Shape;
    var q, i := p[..|p| - 1], p[|p| - 1];
    assert p == q + [i];
    var nd := DescrAt(d, q).value;
    ShapeAt(d, root, q, nd);
    var o := Inside(root, q);
    MemberCell(nd, o, i, pos, b);
    PutChild(root, q, i, o.kids[i]);
    var cell := Cell(o.kids[i].used, o.kids[i].buf[pos := b]);
    PutChild(root, q, i, cell);
    KidShape(nd, o, i, cell);
    PutShape(d, root, q, nd, WithKid(o, i, cell));
  }

  lemma {:induction false} MemberCell(d: Descr, o: Obj, i: nat, pos: nat, b: byte)
    requires Shape(d, o) && i < |d.fields| && pos < SizeOfKind(d.fields[i].kind)
    ensures o.Node? && i < |o.kids| && o.kids[i].Cell? && pos < |o.kids[i].buf|
    ensures ShapeField(d.fields[i].kind, Cell(o.kids[i].used, o.kids[i].buf[pos := b]))
  {
    assert ShapeField(d.fields[i].kind, o.kids[i]);
  }

  lemma {:induction false} ObjectPreserves(W: WordSize, strict: bool, d: Descr)
    requires DescrOk(W, strict, d)
    ensures Preserves(ObjectEnv(W, strict), MemberBounds(d), root => Shape(d, root))
  {
    hide DescrOk, Shape, ObjectCall, StoreByte, HandleOf, SizeAt;
    forall root: Obj, sc: Scope, c: Call | HandleOf(d, sc) && Shape(d, root)
      ensures Shape(d, ObjectEnv(W, strict).call(root, sc, c).user)
    {
      CallShape(W, strict, d, root, sc, c);
    }
    forall root: Obj, p: Path, pos: nat, b: byte | Shape(d, root) && pos < SizeAt(d, p)
      ensures Shape(d, ObjectEnv(W, strict).store(root, p, pos, b))
    {
      StoreLands(d, root, p, pos, b);
    }
  }

  /** The object environment but for what a store past a member's end would do. */
  ghost predicate DiffersPastMembers(W: WordSize, strict: bool, d: Descr, other: Env<Obj, Path, Scope>)
  {
    AgreeInside(ObjectEnv(W, strict), other, MemberBounds(d))
  }

  /**
   * Over every run, whatever the bytes, the verdict and the chunks: the object keeps its layout, and every byte the
   * decoder stores lies inside the member it was bound for, since stores past a member's end could do anything.
   */
  lemma {:induction false} ObjectRunsStayInside(
    W: WordSize, strict: bool, d: Descr, root: Obj, h: nat, chunks: seq<seq<byte>>, other: Env<Obj, Path, Scope>)
    requires DescrOk(W, strict, d) && Shape(d, root) && DiffersPastMembers(W, strict, d, other)
    ensures var s := Init<Obj, Path, Scope>(root, Scope(d, [], h));
      var r := Feeds(ObjectEnv(W, strict), s, chunks);
      Shape(d, r.user) && Feeds(other, s, chunks) == r
  {
    hide DescrOk, Shape, Feeds, KeepsTo, Preserves, AgreeInside;
    var sc := Scope(d, [], h);
    StartOk<Obj, Path, Scope>(root, sc);
    ObjectKeepsTo(W, strict, d);
    ObjectPreserves(W, strict, d);
    FeedsStayInside(ObjectEnv(W, strict), other, MemberBounds(d), root => Shape(d, root), Init(root, sc), chunks);
  }
}

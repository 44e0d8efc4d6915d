/** Companion lengths and element counts stay within their capacities, over every run and whatever the verdict. */
module ObjectCounts {
  import opened Bytes
  import opened Wire
  import opened Decoder
  import opened DecoderTheorems
  import opened SkipTheorems
  import opened Frames
  import opened Object
  import opened ObjectDecode
  import opened ObjectRoundTrip
  import opened ObjectTheorems
  import opened ObjectCanonical
  import opened ObjectFrames

  ghost predicate CountedField(k: Kind, o: Obj)
    decreases k
  {
    match k
    case KNested(d) => Counted(d, o)
    case _ => ShapeField(k, o) && (LenWidth(k) != 0 ==> o.used <= Capacity(k))
  }

  /** Storage of the right layout in which every length counts within its member: of a union, in the held option. */
  ghost predicate Counted(d: Descr, o: Obj)
    decreases d
  {
    && Shape(d, o)
    && (d.form.Holder? && d.form.len != 0 ==> o.aux <= |d.fields|)
    && forall i :: 0 <= i < |d.fields| && !NotHeld(d, o.aux, i) ==> CountedField(d.fields[i].kind, o.kids[i])
  }

  lemma StoreLenBound(v: nat, w: nat)
    ensures StoreLen(v, w) <= v
  {
    hide Span;
    var m := Span(w);
    assert v == m * (v / m) + v % m;
  }

  lemma {:induction false} ResetLeafCounted(W: WordSize, strict: bool, d: Descr, i: nat, g: Obj)
    requires DescrOk(W, strict, d) && i < |d.fields| && UsesImage(d, i) && !d.fields[i].kind.KNested?
    requires ShapeField(d.fields[i].kind, g)
    ensures CountedField(d.fields[i].kind, ResetField(d, i, g))
  {
    hide StoreLen, CStr, UniqueIds;
    var k, default := d.fields[i].kind, FieldDefault(d, i);
    assert KindOk(W, strict, k);
    if default.Some? {
      assert DefaultOk(strict, k, default.value);
      DefaultIsKept(strict, k, default.value);
    }
  }

  lemma {:induction false} ResetMemberCounted(W: WordSize, strict: bool, d: Descr, i: nat, g: Obj)
    requires DescrOk(W, strict, d) && i < |d.fields| && UsesImage(d, i) && ShapeField(d.fields[i].kind, g)
    ensures CountedField(d.fields[i].kind, ResetField(d, i, g))
    decreases d, 0
  {
    match d.fields[i].kind {
      case KNested(nd) =>
        assert KindOk(W, strict, d.fields[i].kind);
        ResetCounted(W, strict, nd, g);
      case _ => ResetLeafCounted(W, strict, d, i, g);
    }
  }

  /** An initialised object counts within its members, whatever its storage held. */
  lemma {:induction false} ResetCounted(W: WordSize, strict: bool, d: Descr, g: Obj)
    requires DescrOk(W, strict, d) && Shape(d, g)
    ensures Counted(d, Reset(d, g))
    decreases d, 1
  {
    hide DescrOk, ShapeField, ResetField, CountedField, Reset;
    ResetShape(W, strict, d, g);
    ResetKids(d, g);
    var r := Reset(d, g);
    forall i | 0 <= i < |d.fields| && !NotHeld(d, r.aux, i)
      ensures CountedField(d.fields[i].kind, r.kids[i])
    {
      assert ShapeField(d.fields[i].kind, g.kids[i]);
      ResetMemberCounted(W, strict, d, i, g.kids[i]);
    }
  }

  // ---------------------------------------------------------------- one callback

  /** A member replaced by one that counts, its presence recorded or the member already held. */
  lemma {:induction false} BoundCounted(d: Descr, o: Obj, i: nat, x: Obj, aux: nat)
    requires UniqueIds(d) && Counted(d, o) && i < |d.fields|
    requires CountedField(d.fields[i].kind, x) && ShapeField(d.fields[i].kind, x)
    requires aux == ObservedAux(d, o.aux, d.fields[i].id) || aux == o.aux
    ensures Counted(d, Node(aux, o.kids[i := x]))
  {
    hide ShapeField, CountedField, StoreLen;
    var r := Node(aux, o.kids[i := x]);
    KidShape(d, o, i, x);
    assert forall j :: 0 <= j < |d.fields| ==> ShapeField(d.fields[j].kind, r.kids[j]);
    if d.form.Holder? { StoreLenBound(Min(d.fields[i].id + 1, |d.fields|), d.form.len); }
    forall j | 0 <= j < |d.fields| && !NotHeld(d, r.aux, j)
      ensures CountedField(d.fields[j].kind, r.kids[j])
    {
      if j != i { assert r.kids[j] == o.kids[j] && !NotHeld(d, o.aux, j); }
    }
  }

  lemma {:induction false} WithLenCounted(k: Kind, o: Obj, c: Call)
    requires !k.KNested? && ShapeField(k, o)
    ensures CountedField(k, WithLen(k, o, c)) && ShapeField(k, WithLen(k, o, c))
  {
    hide StoreLen;
    StoreLenBound(Min(if k.KBlob? then c.size else c.count, Capacity(k)), LenWidth(k));
  }

  lemma {:induction false} OpenedCounted(W: WordSize, strict: bool, d: Descr, o: Obj, i: nat)
    requires DescrOk(W, strict, d) && Counted(d, o) && i < |d.fields| && d.fields[i].kind.KNested?
    ensures HasMembers(d, o)
    ensures CountedField(d.fields[i].kind, Opened(d, o, i)) && ShapeField(d.fields[i].kind, Opened(d, o, i))
  {
    hide Reset, UniqueIds;
    var nd := d.fields[i].kind.descr;
    assert ShapeField(d.fields[i].kind, o.kids[i]) && KindOk(W, strict, d.fields[i].kind);
    ResetCounted(W, strict, nd, o.kids[i]);
    if !NotHeld(d, o.aux, i) { assert CountedField(d.fields[i].kind, o.kids[i]); }
  }

  /** What the callback leaves: the same object, or one member bound and its presence recorded or not. */
  lemma {:induction false} CallbackCounted(W: WordSize, strict: bool, d: Descr, o: Obj, p: Path, h: nat, c: Call)
    requires DescrOk(W, strict, d) && Counted(d, o)
    ensures Counted(d, FieldCallback(d, o, p, h, c).0)
  {
    hide DescrOk, KindOk, CountedField, ShapeField, WithLen, Reset, Find, ReadOf, ObservedAux, Observe, Counted;
    var i := Find(d.fields, c.id);
    CountedMembers(d, o);
    if i < |d.fields| {
      var k := d.fields[i].kind;
      UniqueOf(W, strict, d);
      if k.KNested? {
        OpenedCounted(W, strict, d, o, i);
        var kid := Opened(d, o, i);
        BoundCounted(d, o, i, kid, o.aux);
        BoundCounted(d, o, i, kid, ObservedAux(d, o.aux, c.id));
        ObserveIs(d, o.aux, o.kids[i := kid], c.id);
      } else {
        assert ShapeField(k, o.kids[i]);
        var cell := WithLen(k, o.kids[i], c);
        WithLenCounted(k, o.kids[i], c);
        BoundCounted(d, o, i, cell, ObservedAux(d, o.aux, c.id));
        ObserveIs(d, o.aux, o.kids[i := cell], c.id);
      }
    }
  }

  lemma {:induction false} CountedMembers(d: Descr, o: Obj)
    requires Counted(d, o)
    ensures Shape(d, o) && HasMembers(d, o)
    ensures forall i :: 0 <= i < |d.fields| ==> ShapeField(d.fields[i].kind, o.kids[i])
  {
    hide ShapeField, CountedField;
  }

  // ---------------------------------------------------------------- objects inside objects

  /** A sub-object replaced by one that counts if the old one did, wherever it lies: in an option not held, or in the value. */
  lemma {:induction false} PutCounted(d: Descr, root: Obj, p: Path, nd: Descr, x: Obj)
    requires Counted(d, root) && DescrAt(d, p) == Some(nd) && Shape(nd, x)
    requires ValidPath(root, p) && (Counted(nd, Inside(root, p)) ==> Counted(nd, x))
    ensures Counted(d, Put(root, p, x))
    decreases |p|
  {
    if p != [] {
      hide ShapeField;
      var i := p[0];
      var k, kid, x1 := d.fields[i].kind, root.kids[i], Put(root.kids[i], p[1..], x);
      CountedMembers(d, root);
      assert ShapeField(k, kid);
      NestedParts(k, kid);
      PutShape(k.descr, kid, p[1..], nd, x);
      ShapeNested(k, x1);
      KidShape(d, root, i, x1);
      if !NotHeld(d, root.aux, i) {
        assert CountedField(k, kid);
        PutCounted(k.descr, kid, p[1..], nd, x);
      }
      CountedKid(d, root, i, x1);
    }
  }

  lemma {:induction false} NestedParts(k: Kind, o: Obj)
    requires k.KNested? && ShapeField(k, o)
    ensures Shape(k.descr, o)
  {
  }

  lemma {:induction false} CountedKid(d: Descr, o: Obj, i: nat, x: Obj)
    requires Counted(d, o) && i < |d.fields| && ShapeField(d.fields[i].kind, x)
    requires !NotHeld(d, o.aux, i) ==> CountedField(d.fields[i].kind, x)
    ensures Counted(d, WithKid(o, i, x))
  {
    hide ShapeField, CountedField;
    KidShape(d, o, i, x);
    var r := WithKid(o, i, x);
    forall j | 0 <= j < |d.fields| && !NotHeld(d, r.aux, j)
      ensures CountedField(d.fields[j].kind, r.kids[j])
    {
      if j != i { assert r.kids[j] == o.kids[j]; }
    }
  }

  lemma {:induction false} CallCounted(W: WordSize, strict: bool, d: Descr, root: Obj, sc: Scope, c: Call)
    requires DescrOk(W, strict, d) && Counted(d, root) && HandleOf(d, sc)
    ensures Counted(d, ObjectCall(root, sc, c).user)
  {
    hide DescrOk, Shape, Counted, FieldCallback, DescrAt;
    CountedMembers(d, root);
    ShapeAt(d, root, sc.dst, sc.descr);
    DescrOkAt(W, strict, d, sc.dst, sc.descr);
    var o := Inside(root, sc.dst);
    var x := FieldCallback(sc.descr, o, sc.dst, sc.handles, c).0;
    CallbackKeepsShape(W, strict, sc.descr, o, sc.dst, sc.handles, c);
    if Counted(sc.descr, o) { CallbackCounted(W, strict, sc.descr, o, sc.dst, sc.handles, c); }
    PutCounted(d, root, sc.dst, sc.descr, x);
  }

  lemma {:induction false} StoreCounted(d: Descr, root: Obj, p: Path, pos: nat, b: byte)
    requires Counted(d, root) && pos < SizeAt(d, p)
    ensures Counted(d, StoreByte(root, p, pos, b))
  {
    hide DescrAt, Shape, Counted, StoreByte;
    CountedMembers(d, root);
    StoreLands(d, root, p, pos, b);
    var q, i := p[..|p| - 1], p[|p| - 1];
    assert p == q + [i];
    var nd := DescrAt(d, q).value;
    ShapeAt(d, root, q, nd);
    var o := Inside(root, q);
    MemberCell(nd, o, i, pos, b);
    PutChild(root, q, i, o.kids[i]);
    var cell := Cell(o.kids[i].used, o.kids[i].buf[pos := b]);
    PutChild(root, q, i, cell);
    KidShape(nd, o, i, cell);
    if Counted(nd, o) { SameCount(nd, o, i, pos, b); }
    PutCounted(d, root, q, nd, WithKid(o, i, cell));
  }

  lemma {:induction false} SameCount(d: Descr, o: Obj, i: nat, pos: nat, b: byte)
    requires Counted(d, o) && i < |d.fields| && pos < SizeOfKind(d.fields[i].kind)
    ensures o.Node? && i < |o.kids| && o.kids[i].Cell? && pos < |o.kids[i].buf|
    ensures Counted(d, WithKid(o, i, Cell(o.kids[i].used, o.kids[i].buf[pos := b])))
  {
    MemberCell(d, o, i, pos, b);
    var cell := Cell(o.kids[i].used, o.kids[i].buf[pos := b]);
    if !NotHeld(d, o.aux, i) { assert CountedField(d.fields[i].kind, o.kids[i]); }
    CountedKid(d, o, i, cell);
  }

  lemma {:induction false} CountsPreserved(W: WordSize, strict: bool, d: Descr)
    requires DescrOk(W, strict, d)
    ensures Preserves(ObjectEnv(W, strict), MemberBounds(d), root => Counted(d, root))
  {
    hide DescrOk, Counted, ObjectCall, StoreByte, HandleOf, SizeAt;
    forall root: Obj, sc: Scope, c: Call | HandleOf(d, sc) && Counted(d, root)
      ensures Counted(d, ObjectEnv(W, strict).call(root, sc, c).user)
    {
      CallCounted(W, strict, d, root, sc, c);
    }
    forall root: Obj, p: Path, pos: nat, b: byte | Counted(d, root) && pos < SizeAt(d, p)
      ensures Counted(d, ObjectEnv(W, strict).store(root, p, pos, b))
    {
      StoreCounted(d, root, p, pos, b);
    }
  }

  /**
   * Decoding any bytes in any chunks into an initialised object, accepted or not, leaves every companion length within
   * its capacity and every element count within its slots, even where the wire announced more and was refused.
   */
  lemma {:induction false} LengthsStayWithin(W: WordSize, strict: bool, d: Descr, g: Obj, h: nat, chunks: seq<seq<byte>>)
    requires DescrOk(W, strict, d) && Shape(d, g)
    ensures Counted(d, Feeds(ObjectEnv(W, strict), Init(Reset(d, g), Scope(d, [], h)), chunks).user)
  {
    hide DescrOk, Shape, Counted, Reset, Feeds, KeepsTo, Preserves, AgreeInside;
    var env, sc := ObjectEnv(W, strict), Scope(d, [], h);
    ResetCounted(W, strict, d, g);
    StartOk<Obj, Path, Scope>(Reset(d, g), sc);
    ObjectKeepsTo(W, strict, d);
    CountsPreserved(W, strict, d);
    assert AgreeInside(env, env, MemberBounds(d)) by { SelfAgrees(env, MemberBounds(d)); }
    FeedsStayInside(env, env, MemberBounds(d), root => Counted(d, root), Init(Reset(d, g), sc), chunks);
  }

  lemma SelfAgrees<U(!new), D(!new), S(!new)>(env: Env<U, D, S>, bd: Bounds<D, S>)
    ensures AgreeInside(env, env, bd)
  {
  }
}

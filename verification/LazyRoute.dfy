/**
 * Two ways to leave default sub-objects off the wire: sofab_object_encode tests before it frames, the lazy route
 * begins every sequence held back and lets it vanish. On the same object they write the same bytes.
 */
module LazyRoute {
  import opened Bytes
  import opened Varint
  import opened Wire
  import opened Decoder
  import opened Object
  import opened ObjectDecode
  import opened ObjectRoundTrip
  import opened ObjectBytes
  import opened ObjectLaws
  import opened Output
  import opened HoldBack

  /** Sub-objects the default test must not decide: the element that carries a length, an option that is not the default one. */
  predicate Forced(d: Descr, o: Obj, i: nat)
    requires i < |d.fields|
  {
    AlwaysWritten(d, o, i) || (d.form.Union? && d.fields[i].id != DefaultTag(d))
  }

  /** The members from i on as they go through begin_lazy: leaves that are default are skipped, sequences never. */
  ghost function LazyFrom(d: Descr, o: Obj, i: nat): seq<Tree>
    requires Shape(d, o)
    decreases d, |d.fields| - i
  {
    if i >= WalkCount(d, o) then []
    else
      var f, rest := d.fields[i], LazyFrom(d, o, i + 1);
      assert ShapeField(f.kind, o.kids[i]);
      if NotHeld(d, o.aux, i) then rest
      else
        match f.kind
        case KNested(nd) => [Frame(f.id, true, Forced(d, o, i), LazyFrom(nd, o.kids[i], 0))] + rest
        case k =>
          if !AlwaysWritten(d, o, i) && FieldIsDefault(d, i, o) then rest
          else [Item(f.id, TypeOf(EncodeCell(k, o.kids[i])), SerValue(EncodeCell(k, o.kids[i])))] + rest
  }

  /** No member below d is a holder with slots and without a length. */
  ghost predicate Measured(d: Descr)
    decreases d
  {
    forall i :: 0 <= i < |d.fields| ==> MeasuredKind(d.fields[i].kind)
  }

  ghost predicate MeasuredKind(k: Kind)
    decreases k
  {
    match k
    case KNested(nd) => (nd.form.Holder? && nd.form.len == 0 ==> nd.fields == []) && Measured(nd)
    case _ => true
  }

  lemma {:induction false} PruneCons(t: Tree, ts: seq<Tree>)
    ensures Prune([t] + ts) == PruneOne(t) + Prune(ts)
  {
    hide PruneOne;
    assert ([t] + ts)[1..] == ts;
  }

  lemma {:induction false} SerConsTrees(t: Tree, ts: seq<Tree>)
    ensures SerTrees([t] + ts) == SerTree(t) + SerTrees(ts)
  {
    hide SerTree;
    assert ([t] + ts)[1..] == ts;
  }

  lemma {:induction false} SerConsFields(f: Field, fs: seq<Field>)
    ensures SerFields([f] + fs) == SerField(f) + SerFields(fs)
  {
    hide SerField;
    assert ([f] + fs)[1..] == fs;
  }

  /** The trees ts write what the fields fs write, and are empty together. */
  ghost predicate SameBytes(ts: seq<Tree>, fs: seq<Field>)
  {
    SerTrees(Prune(ts)) == SerFields(fs) && (Prune(ts) == [] <==> fs == [])
  }

  lemma SameNone()
    ensures SameBytes([], [])
  {
  }

  lemma {:induction false} SameWritten(t: Tree, ts: seq<Tree>, p: Tree, f: Field, fs: seq<Field>)
    requires PruneOne(t) == [p] && SerTree(p) == SerField(f) && SameBytes(ts, fs)
    ensures SameBytes([t] + ts, [f] + fs)
  {
    hide SerTree, SerField, PruneOne, Prune, SerTrees, SerFields;
    PruneCons(t, ts);
    SerConsTrees(p, Prune(ts));
    SerConsFields(f, fs);
  }

  lemma {:induction false} SameSkipped(t: Tree, ts: seq<Tree>, fs: seq<Field>)
    requires PruneOne(t) == [] && SameBytes(ts, fs)
    ensures SameBytes([t] + ts, fs)
  {
    hide SerTree, SerField, PruneOne;
    PruneCons(t, ts);
    assert [] + Prune(ts) == Prune(ts);
  }

  lemma {:induction false} SameFrame(d: Descr, o: Obj, i: nat)
    requires Shape(d, o) && Measured(d) && i < WalkCount(d, o) && !NotHeld(d, o.aux, i) && d.fields[i].kind.KNested?
    requires SameBytes(LazyFrom(d, o, i + 1), EncodeFrom(d, o, i + 1))
    ensures SameBytes(LazyFrom(d, o, i), EncodeFrom(d, o, i))
    decreases d, |d.fields| - i, 0
  {
    hide SerTree, SerField, Prune, SameBytes, Header;
    var f, kid := d.fields[i], o.kids[i];
    var nd := f.kind.descr;
    assert ShapeField(f.kind, kid) && MeasuredKind(f.kind);
    LazyIsEager(nd, kid, 0);
    EmptyEncoding(nd, kid);
    var t := Frame(f.id, true, Forced(d, o, i), LazyFrom(nd, kid, 0));
    var rest, fs := LazyFrom(d, o, i + 1), EncodeFrom(d, o, i + 1);
    assert LazyFrom(d, o, i) == [t] + rest;
    SameParts(LazyFrom(nd, kid, 0), EncodeObj(nd, kid));
    if !AlwaysWritten(d, o, i) && FieldIsDefault(d, i, o) {
      NestedDefault(d, o, i);
      SameSkipped(t, rest, fs);
    } else {
      NestedWritten(d, o, i);
      var p := Frame(f.id, true, Forced(d, o, i), Prune(LazyFrom(nd, kid, 0)));
      SameFrameBytes(f.id, true, Forced(d, o, i), LazyFrom(nd, kid, 0), EncodeObj(nd, kid));
      SameWritten(t, rest, p, Group(f.id, EncodeObj(nd, kid)), fs);
    }
  }

  lemma {:induction false} SameParts(ts: seq<Tree>, fs: seq<Field>)
    requires SameBytes(ts, fs)
    ensures SerTrees(Prune(ts)) == SerFields(fs) && (Prune(ts) == [] <==> fs == [])
  {
  }

  lemma {:induction false} SameFrameBytes(id: nat, lazy: bool, keep: bool, ts: seq<Tree>, fs: seq<Field>)
    requires SameBytes(ts, fs)
    ensures SerTree(Frame(id, lazy, keep, Prune(ts))) == SerField(Group(id, fs))
  {
    hide Header, Prune;
    assert Header(id, BEGIN) + SerFields(fs) + Header(0, END) == Header(id, BEGIN) + (SerFields(fs) + Header(0, END));
  }

  lemma {:induction false} NestedDefault(d: Descr, o: Obj, i: nat)
    requires Shape(d, o) && i < |d.fields| && !NotHeld(d, o.aux, i) && d.fields[i].kind.KNested?
    requires !AlwaysWritten(d, o, i) && FieldIsDefault(d, i, o)
    ensures !Forced(d, o, i) && IsDefault(d.fields[i].kind.descr, o.kids[i])
  {
  }

  lemma {:induction false} NestedWritten(d: Descr, o: Obj, i: nat)
    requires Shape(d, o) && i < |d.fields| && !NotHeld(d, o.aux, i) && d.fields[i].kind.KNested?
    requires AlwaysWritten(d, o, i) || !FieldIsDefault(d, i, o)
    ensures Forced(d, o, i) || !IsDefault(d.fields[i].kind.descr, o.kids[i])
  {
  }

  lemma {:induction false} NotHeldIsSilent(d: Descr, o: Obj, i: nat)
    requires Shape(d, o) && i < |d.fields| && NotHeld(d, o.aux, i)
    ensures !AlwaysWritten(d, o, i) && FieldIsDefault(d, i, o)
  {
  }

  lemma {:induction false} LazyIsEager(d: Descr, o: Obj, i: nat)
    requires Shape(d, o) && Measured(d)
    ensures SameBytes(LazyFrom(d, o, i), EncodeFrom(d, o, i))
    decreases d, |d.fields| - i, 1
  {
    hide SerTree, SerField, FieldIsDefault, EncodeCell, SameBytes, Measured;
    if i >= WalkCount(d, o) {
      SameNone();
    } else {
      LazyIsEager(d, o, i + 1);
      var f := d.fields[i];
      assert ShapeField(f.kind, o.kids[i]);
      if NotHeld(d, o.aux, i) {
        NotHeldIsSilent(d, o, i);
      } else if f.kind.KNested? {
        SameFrame(d, o, i);
      } else if AlwaysWritten(d, o, i) || !FieldIsDefault(d, i, o) {
        var v := EncodeCell(f.kind, o.kids[i]);
        ItemBytes(f.id, v);
        SameWritten(Item(f.id, TypeOf(v), SerValue(v)), LazyFrom(d, o, i + 1), Item(f.id, TypeOf(v), SerValue(v)), Leaf(f.id, v), EncodeFrom(d, o, i + 1));
      }
    }
  }

  lemma {:induction false} ItemBytes(id: nat, v: Value)
    ensures SerTree(Item(id, TypeOf(v), SerValue(v))) == SerField(Leaf(id, v))
    ensures PruneOne(Item(id, TypeOf(v), SerValue(v))) == [Item(id, TypeOf(v), SerValue(v))]
  {
  }

  // ---------------------------------------------------------------- the calls on a stream

  lemma {:induction false} LazyHeight(d: Descr, o: Obj, i: nat)
    requires Shape(d, o)
    ensures HoldBack.Height(LazyFrom(d, o, i)) <= LevelsFrom(d, i)
    decreases d, |d.fields| - i
  {
    hide EncodeCell, FieldIsDefault, SerValue;
    if i < WalkCount(d, o) {
      var f := d.fields[i];
      assert ShapeField(f.kind, o.kids[i]);
      LazyHeight(d, o, i + 1);
      if !NotHeld(d, o.aux, i) {
        var rest := LazyFrom(d, o, i + 1);
        match f.kind {
          case KNested(nd) =>
            LazyHeight(nd, o.kids[i], 0);
            assert ([Frame(f.id, true, Forced(d, o, i), LazyFrom(nd, o.kids[i], 0))] + rest)[1..] == rest;
          case k =>
            var item := Item(f.id, TypeOf(EncodeCell(k, o.kids[i])), SerValue(EncodeCell(k, o.kids[i])));
            assert ([item] + rest)[1..] == rest;
        }
      }
    }
  }

  lemma {:induction false} LazyIds(W: WordSize, strict: bool, d: Descr, o: Obj, i: nat)
    requires Shape(d, o) && DescrOk(W, strict, d)
    ensures IdsOk(W, LazyFrom(d, o, i))
    decreases d, |d.fields| - i
  {
    hide EncodeCell, FieldIsDefault, SerValue, IdMax;
    if i < WalkCount(d, o) {
      var f := d.fields[i];
      assert ShapeField(f.kind, o.kids[i]) && KindOk(W, strict, f.kind) && f.id <= IdMax(W);
      LazyIds(W, strict, d, o, i + 1);
      if !NotHeld(d, o.aux, i) {
        var rest := LazyFrom(d, o, i + 1);
        match f.kind {
          case KNested(nd) =>
            LazyIds(W, strict, nd, o.kids[i], 0);
            assert ([Frame(f.id, true, Forced(d, o, i), LazyFrom(nd, o.kids[i], 0))] + rest)[1..] == rest;
          case k =>
            var item := Item(f.id, TypeOf(EncodeCell(k, o.kids[i])), SerValue(EncodeCell(k, o.kids[i])));
            assert ([item] + rest)[1..] == rest;
        }
      }
    }
  }

  /**
   * Prediction equals hold-back: for structs, unions and sized wrapper arrays nested within the hold-back window,
   * the begin-lazy route, on a fresh stream with a sink, writes exactly the bytes of sofab_object_encode.
   */
  lemma {:induction false} LazyRouteIsEncoding(W: WordSize, strict: bool, D: nat, d: Descr, o: Obj)
    requires DescrOk(W, strict, d) && Shape(d, o) && Measured(d) && Levels(d) <= D
    ensures DoAll(W, D, Sheet([], None, []), OpsOfAll(LazyFrom(d, o, 0))) == (Sheet(EncodeBytes(d, o), None, []), OK)
  {
    hide DescrOk, Measured, LazyFrom, EncodeFrom, DoAll, OpsOfAll, Kept, Prune, SerTrees, SerFields, Fits;
    var ts := LazyFrom(d, o, 0);
    LazyIds(W, strict, d, o, 0);
    LazyHeight(d, o, 0);
    RunTrees(W, D, ts, [], []);
    ShallowFits(D, 0, ts);
    KeptIsPruned(D, 0, ts);
    LazyIsEager(d, o, 0);
    SameParts(ts, EncodeObj(d, o));
    SerNone();
    assert [] + Headers([]) + SerTrees(Prune(ts)) == SerTrees(Prune(ts));
  }
}

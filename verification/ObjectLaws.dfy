/** Laws of the object codec: skipped fields, wrapper arrays, re-opened sequences, and the default test as a prediction. */
module ObjectLaws {
  import opened Bytes
  import opened Varint
  import opened Wire
  import opened Decoder
  import opened Meaning
  import opened DecoderTheorems
  import opened SkipTheorems
  import opened Object
  import opened ObjectDecode
  import opened ObjectRoundTrip
  import opened ObjectTheorems
  import opened ObjectCanonical
  import opened ObjectBytes
  import opened ObjectStorage

  lemma {:induction false} ApplyAppend(strict: bool, d: Descr, t: Obj, h: nat, fs: seq<Field>, gs: seq<Field>)
    ensures ApplyFields(strict, d, t, h, fs + gs)
      == match ApplyFields(strict, d, t, h, fs) case None => None case Some(t1) => ApplyFields(strict, d, t1, h, gs)
    decreases |fs|
  {
    hide ApplyField;
    if fs == [] {
      assert fs + gs == gs;
    } else {
      assert (fs + gs)[0] == fs[0] && (fs + gs)[1..] == fs[1..] + gs;
      var t1 := ApplyField(strict, d, t, h, fs[0]);
      if t1.Some? { ApplyAppend(strict, d, t1.value, h, fs[1..], gs); }
    }
  }

  lemma {:induction false} ApplyOne(strict: bool, d: Descr, t: Obj, h: nat, f: Field)
    ensures ApplyFields(strict, d, t, h, [f]) == ApplyField(strict, d, t, h, f)
  {
    hide ApplyField;
    assert [f] + [] == [f];
    ApplyCons(strict, d, t, h, f, []);
  }

  // ---------------------------------------------------------------- fields that are skipped

  /** An undeclared id (in a holder: one that is no over-index element), or a type that contradicts the declared one. */
  predicate Foreign(d: Descr, f: Field)
  {
    var i := Find(d.fields, f.id);
    !OverIndex(d, f) && (i == |d.fields| || OptOfField(f) != ExpectedOf(d.fields[i].kind))
  }

  lemma ForeignIsPassedOver(W: WordSize, strict: bool, root: Obj, sc: Scope, f: Field)
    requires Foreign(sc.descr, f)
    ensures PassedOver(ObjectEnv(W, strict), root, sc, f)
  {
    hide Find, Reset;
    var d := sc.descr;
    var i := Find(d.fields, f.id);
    if ValidPath(root, sc.dst) {
      PutAt(root, sc.dst, Inside(root, sc.dst));
      if i < |d.fields| { ReadAgrees(d.fields[i].kind, sc.dst + [i]); }
    }
  }

  /**
   * Skip transparency: a complete field that is foreign to the scope it arrives in, inserted at any field boundary
   * of any scope of any run, changes neither the verdict nor a byte of the object (lengths, counts and tags included).
   */
  lemma {:induction false} ForeignFieldsAreTransparent(
    W: WordSize, strict: bool, s: State<Obj, Path, Scope>, front: seq<byte>, bf: seq<byte>, f: Field, back: seq<byte>)
    requires StateOk(s)
    requires var t := RunBytes(ObjectEnv(W, strict), s, front);
      && AtFieldBoundary(t) && t.scopes != []
      && IsOneField(W, bf, f) && |t.scopes| - 1 + Height(f) <= MAX_DEPTH
      && Foreign(t.scopes[|t.scopes| - 1].descr, f)
    ensures var env := ObjectEnv(W, strict);
      var with, without := RunBytes(env, s, front + bf + back), RunBytes(env, s, front + back);
      VerdictOf(with) == VerdictOf(without) && with.user == without.user
  {
    hide RunBytes, IsOneField, Height, Foreign, StateOk, PassedOver;
    var env := ObjectEnv(W, strict);
    var t := RunBytes(env, s, front);
    ForeignIsPassedOver(W, strict, t.user, t.scopes[|t.scopes| - 1], f);
    InsertionIsTransparent(env, s, front, bf, f, back);
  }

  // ---------------------------------------------------------------- a wrapper array's length

  /** The highest element id taken as an element, plus one; 0 when there is none. */
  function TakenLength(d: Descr, h: nat, fs: seq<Field>): nat
  {
    if fs == [] then 0
    else Max(if Takes(d, h, fs[0]) then fs[0].id + 1 else 0, TakenLength(d, h, fs[1..]))
  }

  lemma {:induction false} HolderCount(W: WordSize, strict: bool, d: Descr, aux: nat, h: nat, f: Field)
    requires DescrOk(W, strict, d) && d.form.Holder? && d.form.len != 0 && Takes(d, h, f)
    ensures ObservedAux(d, aux, f.id) == Max(aux, f.id + 1)
  {
    hide KindOk, StoreLen, Span;
    var i := Find(d.fields, f.id);
    assert d.fields[i].id == i;
    LenIsKept(i + 1, |d.fields|, d.form.len);
    assert Min(i + 1, |d.fields|) == i + 1;
  }

  /** After any elements, a sized holder's count is the larger of what it was and the highest element taken. */
  lemma {:induction false} HolderLength(W: WordSize, strict: bool, d: Descr, t: Obj, h: nat, fs: seq<Field>)
    requires DescrOk(W, strict, d) && d.form.Holder? && d.form.len != 0 && HasMembers(d, t)
    ensures var r := ApplyFields(strict, d, t, h, fs);
      r.Some? ==> HasMembers(d, r.value) && r.value.aux == Max(t.aux, TakenLength(d, h, fs))
    decreases |fs|
  {
    hide ApplyField, DescrOk, Takes, ObservedAux, KidAfter, Anew;
    if fs != [] {
      var f := fs[0];
      UniqueOf(W, strict, d);
      if Takes(d, h, f) {
        Taken(strict, d, t, h, f);
        HolderCount(W, strict, d, t.aux, h, f);
        TakesMember(d, h, f);
      } else {
        NotTaken(strict, d, t, h, f);
      }
      var t1 := ApplyField(strict, d, t, h, f);
      if t1.Some? { HolderLength(W, strict, d, t1.value, h, fs[1..]); }
    }
  }

  /** One occurrence of a sized wrapper array leaves the length of that occurrence, whatever was there. */
  lemma {:induction false} WrapperLength(W: WordSize, strict: bool, d: Descr, t: Obj, h: nat, fs: seq<Field>)
    requires DescrOk(W, strict, d) && d.form.Holder? && d.form.len != 0 && HasMembers(d, t)
    ensures var r := ApplyFields(strict, d, Reset(d, t), h, fs);
      r.Some? ==> r.value.Node? && r.value.aux == TakenLength(d, h, fs)
  {
    hide DescrOk, ApplyFields, ResetField;
    ResetKids(d, t);
    HolderLength(W, strict, d, Reset(d, t), h, fs);
  }

  // ---------------------------------------------------------------- order of fields

  lemma {:induction false} ObservedCommute(W: WordSize, strict: bool, d: Descr, aux: nat, h: nat, f: Field, g: Field)
    requires DescrOk(W, strict, d) && !d.form.Union? && Takes(d, h, f) && Takes(d, h, g)
    ensures ObservedAux(d, ObservedAux(d, aux, f.id), g.id) == ObservedAux(d, ObservedAux(d, aux, g.id), f.id)
  {
    hide DescrOk, Takes;
    if d.form.Holder? && d.form.len != 0 {
      HolderCount(W, strict, d, aux, h, f);
      HolderCount(W, strict, d, aux, h, g);
      HolderCount(W, strict, d, ObservedAux(d, aux, g.id), h, f);
      HolderCount(W, strict, d, ObservedAux(d, aux, f.id), h, g);
    }
  }

  lemma AnewIsLocal(d: Descr, aux: nat, aux': nat, i: nat)
    requires i < |d.fields| && !d.form.Union?
    ensures Anew(d, aux, i) == Anew(d, aux', i)
  {
  }

  lemma {:induction false} KeepsMembers(strict: bool, d: Descr, t: Obj, h: nat, f: Field)
    requires UniqueIds(d) && HasMembers(d, t)
    ensures var r := ApplyField(strict, d, t, h, f); r.Some? ==> HasMembers(d, r.value)
  {
    hide ApplyField, ObservedAux, KidAfter, Anew, Takes;
    if Takes(d, h, f) {
      TakesMember(d, h, f);
      Taken(strict, d, t, h, f);
    } else {
      NotTaken(strict, d, t, h, f);
    }
  }

  /** Two fields of different ids may arrive in either order, in a struct as in a wrapper array. */
  lemma {:induction false} Swap(W: WordSize, strict: bool, d: Descr, t: Obj, h: nat, f: Field, g: Field)
    requires DescrOk(W, strict, d) && !d.form.Union? && HasMembers(d, t) && f.id != g.id
    ensures ApplyFields(strict, d, t, h, [f, g]) == ApplyFields(strict, d, t, h, [g, f])
  {
    hide ApplyField, ApplyFields, ObservedAux, KidAfter, Anew, Takes, DescrOk, OverIndex;
    UniqueOf(W, strict, d);
    assert [f, g] == [f] + [g] && [g, f] == [g] + [f];
    ApplyCons(strict, d, t, h, f, [g]);
    ApplyCons(strict, d, t, h, g, [f]);
    var tf, tg := ApplyField(strict, d, t, h, f), ApplyField(strict, d, t, h, g);
    KeepsMembers(strict, d, t, h, f);
    KeepsMembers(strict, d, t, h, g);
    if tf.Some? { ApplyOne(strict, d, tf.value, h, g); }
    if tg.Some? { ApplyOne(strict, d, tg.value, h, f); }
    if !Takes(d, h, f) {
      NotTaken(strict, d, t, h, f);
      if tg.Some? { NotTaken(strict, d, tg.value, h, f); }
    } else if !Takes(d, h, g) {
      NotTaken(strict, d, t, h, g);
      if tf.Some? { NotTaken(strict, d, tf.value, h, g); }
    } else {
      SwapTaken(W, strict, d, t, h, f, g);
    }
  }

  lemma {:induction false} SwapTaken(W: WordSize, strict: bool, d: Descr, t: Obj, h: nat, f: Field, g: Field)
    requires DescrOk(W, strict, d) && !d.form.Union? && HasMembers(d, t) && f.id != g.id && Takes(d, h, f) && Takes(d, h, g)
    ensures var tf, tg := ApplyField(strict, d, t, h, f), ApplyField(strict, d, t, h, g);
      var fg := if tf.Some? then ApplyField(strict, d, tf.value, h, g) else None;
      var gf := if tg.Some? then ApplyField(strict, d, tg.value, h, f) else None;
      fg == gf
  {
    hide ApplyField, ObservedAux, KidAfter, Anew, Takes, DescrOk, Find;
    UniqueOf(W, strict, d);
    TakesMember(d, h, f);
    TakesMember(d, h, g);
    var i, j := Find(d.fields, f.id), Find(d.fields, g.id);
    Taken(strict, d, t, h, f);
    Taken(strict, d, t, h, g);
    var ci := KidAfter(strict, d.fields[i].kind, h, t.kids[i], Anew(d, t.aux, i), f);
    var cj := KidAfter(strict, d.fields[j].kind, h, t.kids[j], Anew(d, t.aux, j), g);
    if ci.Some? {
      var tf := Node(ObservedAux(d, t.aux, f.id), t.kids[i := ci.value]);
      AnewIsLocal(d, t.aux, tf.aux, j);
      Taken(strict, d, tf, h, g);
    }
    if cj.Some? {
      var tg := Node(ObservedAux(d, t.aux, g.id), t.kids[j := cj.value]);
      AnewIsLocal(d, t.aux, tg.aux, i);
      Taken(strict, d, tg, h, f);
    }
    if ci.Some? && cj.Some? {
      ObservedCommute(W, strict, d, t.aux, h, f, g);
      assert t.kids[i := ci.value][j := cj.value] == t.kids[j := cj.value][i := ci.value];
    }
  }

  lemma {:induction false} ManyKeepMembers(strict: bool, d: Descr, t: Obj, h: nat, fs: seq<Field>)
    requires UniqueIds(d) && HasMembers(d, t)
    ensures var r := ApplyFields(strict, d, t, h, fs); r.Some? ==> HasMembers(d, r.value)
    decreases |fs|
  {
    hide ApplyField;
    if fs != [] {
      KeepsMembers(strict, d, t, h, fs[0]);
      var t1 := ApplyField(strict, d, t, h, fs[0]);
      if t1.Some? { ManyKeepMembers(strict, d, t1.value, h, fs[1..]); }
    }
  }

  /** A field may arrive before any run of fields of other ids. */
  lemma {:induction false} MoveToFront(W: WordSize, strict: bool, d: Descr, t: Obj, h: nat, before: seq<Field>, f: Field, back: seq<Field>)
    requires DescrOk(W, strict, d) && !d.form.Union? && HasMembers(d, t)
    requires forall i :: 0 <= i < |before| ==> before[i].id != f.id
    ensures ApplyFields(strict, d, t, h, before + [f] + back) == ApplyFields(strict, d, t, h, [f] + before + back)
    decreases |before|
  {
    hide ApplyFields, DescrOk;
    if before == [] {
      assert before + [f] + back == [f] + before + back;
    } else {
      UniqueOf(W, strict, d);
      var n := |before| - 1;
      var front, e := before[..n], before[n];
      assert before + [f] + back == front + ([e, f] + back);
      ApplyAppend(strict, d, t, h, front, [e, f] + back);
      ApplyAppend(strict, d, t, h, front, [f, e] + back);
      ManyKeepMembers(strict, d, t, h, front);
      var t1 := ApplyFields(strict, d, t, h, front);
      if t1.Some? {
        Swap(W, strict, d, t1.value, h, e, f);
        ApplyAppend(strict, d, t1.value, h, [e, f], back);
        ApplyAppend(strict, d, t1.value, h, [f, e], back);
      }
      assert front + ([f, e] + back) == front + [f] + ([e] + back);
      MoveToFront(W, strict, d, t, h, front, f, [e] + back);
      assert [f] + front + ([e] + back) == [f] + before + back;
    }
  }

  ghost predicate DistinctIds(fs: seq<Field>)
  {
    forall i, j :: 0 <= i < j < |fs| ==> fs[i].id != fs[j].id
  }

  /** The same fields with distinct ids, in any order, leave the same object (or are refused alike). */
  lemma {:induction false} OrderDoesNotMatter(W: WordSize, strict: bool, d: Descr, t: Obj, h: nat, fs: seq<Field>, gs: seq<Field>)
    requires DescrOk(W, strict, d) && !d.form.Union? && HasMembers(d, t)
    requires multiset(fs) == multiset(gs) && DistinctIds(fs)
    ensures ApplyFields(strict, d, t, h, fs) == ApplyFields(strict, d, t, h, gs)
    decreases |fs|
  {
    hide ApplyField, DescrOk;
    if fs == [] {
      assert |multiset(gs)| == 0;
    } else {
      hide ApplyFields, DistinctIds;
      var f, rest := fs[0], fs[1..];
      var before, back := Rearranged(fs, gs);
      MoveToFront(W, strict, d, t, h, before, f, back);
      assert [f] + before + back == [f] + (before + back);
      assert fs == [f] + rest;
      ApplyCons(strict, d, t, h, f, rest);
      ApplyCons(strict, d, t, h, f, before + back);
      UniqueOf(W, strict, d);
      KeepsMembers(strict, d, t, h, f);
      var t1 := ApplyField(strict, d, t, h, f);
      if t1.Some? { OrderDoesNotMatter(W, strict, d, t1.value, h, rest, before + back); }
    }
  }

  /** A rearrangement of fs around the first of fs: what is left of both is a rearrangement again. */
  lemma Rearranged(fs: seq<Field>, gs: seq<Field>) returns (before: seq<Field>, back: seq<Field>)
    requires fs != [] && multiset(fs) == multiset(gs) && DistinctIds(fs)
    ensures gs == before + [fs[0]] + back
    ensures forall i :: 0 <= i < |before| ==> before[i].id != fs[0].id
    ensures multiset(fs[1..]) == multiset(before + back) && DistinctIds(fs[1..])
  {
    var f, rest := fs[0], fs[1..];
    assert fs == [f] + rest;
    var j := FirstOf(gs, f, fs);
    before, back := gs[..j], gs[j + 1..];
    assert gs == before + [f] + back;
    assert multiset(rest) == multiset(fs) - multiset{f};
    assert multiset(before + back) == multiset(gs) - multiset{f};
  }

  /** Where the first of fs stands in a rearrangement: behind fields of other ids only. */
  lemma FirstOf(gs: seq<Field>, f: Field, fs: seq<Field>) returns (j: nat)
    requires fs != [] && f == fs[0] && multiset(fs) == multiset(gs) && DistinctIds(fs)
    ensures j < |gs| && gs[j] == f && forall i :: 0 <= i < j ==> gs[i].id != f.id
  {
    assert f in multiset(fs);
    j := 0;
    while gs[j] != f
      invariant j < |gs| && f in gs[j..]
      invariant forall i :: 0 <= i < j ==> gs[i].id != f.id
      decreases |gs| - j
    {
      assert gs[j] in multiset(gs);
      assert gs[j] in fs;
      var k :| 0 <= k < |fs| && fs[k] == gs[j];
      assert fs[0].id != fs[k].id;
      assert gs[j..] == [gs[j]] + gs[j + 1..];
      j := j + 1;
    }
  }

  // ---------------------------------------------------------------- re-opened sequences

  lemma {:induction false} ObservedTwice(W: WordSize, strict: bool, d: Descr, aux: nat, h: nat, f: Field)
    requires DescrOk(W, strict, d) && Takes(d, h, f)
    ensures ObservedAux(d, ObservedAux(d, aux, f.id), f.id) == ObservedAux(d, aux, f.id)
  {
    hide DescrOk, Takes;
    if d.form.Holder? && d.form.len != 0 {
      HolderCount(W, strict, d, aux, h, f);
      HolderCount(W, strict, d, ObservedAux(d, aux, f.id), h, f);
    }
  }

  /** Bound once, a union holds the option: it is not started anew again. */
  lemma HeldOnceBound(d: Descr, aux: nat, i: nat)
    requires i < |d.fields|
    ensures !NotHeld(d, ObservedAux(d, aux, d.fields[i].id), i)
  {
  }

  /** The descriptor of sequence member id, which takes the sequence. */
  predicate TakesSequence(d: Descr, h: nat, id: nat)
  {
    Takes(d, h, Group(id, []))
  }

  lemma {:induction false} SequenceTaken(d: Descr, h: nat, id: nat, body: seq<Field>)
    requires TakesSequence(d, h, id)
    ensures Takes(d, h, Group(id, body))
    ensures var i := Find(d.fields, id); i < |d.fields| && d.fields[i].kind.KNested? && d.fields[i].id == id && h > 0
  {
    GroupKind(d.fields[Find(d.fields, id)].kind);
  }

  /** Back to back, two occurrences of a struct or union member are one with both contents. */
  lemma {:induction false} MergeAdjacent(W: WordSize, strict: bool, d: Descr, t: Obj, h: nat, id: nat, b1: seq<Field>, b2: seq<Field>)
    requires DescrOk(W, strict, d) && HasMembers(d, t) && TakesSequence(d, h, id)
    requires !d.fields[Find(d.fields, id)].kind.descr.form.Holder?
    ensures ApplyFields(strict, d, t, h, [Group(id, b1), Group(id, b2)]) == ApplyFields(strict, d, t, h, [Group(id, b1 + b2)])
  {
    hide ApplyField, ApplyFields, ObservedAux, DescrOk, Reset, Find, Takes;
    var i := Find(d.fields, id);
    SequenceTaken(d, h, id, b1);
    SequenceTaken(d, h, id, b2);
    SequenceTaken(d, h, id, b1 + b2);
    UniqueOf(W, strict, d);
    Taken(strict, d, t, h, Group(id, b1));
    Taken(strict, d, t, h, Group(id, b1 + b2));
    ApplyOne(strict, d, t, h, Group(id, b1 + b2));
    assert [Group(id, b1), Group(id, b2)] == [Group(id, b1)] + [Group(id, b2)];
    ApplyCons(strict, d, t, h, Group(id, b1), [Group(id, b2)]);
    var nd := d.fields[i].kind.descr;
    var start := if Anew(d, t.aux, i) then Reset(nd, t.kids[i]) else t.kids[i];
    ApplyAppend(strict, nd, start, h - 1, b1, b2);
    var k1 := ApplyFields(strict, nd, start, h - 1, b1);
    if k1.Some? {
      var t1 := Node(ObservedAux(d, t.aux, id), t.kids[i := k1.value]);
      HeldOnceBound(d, t.aux, i);
      Taken(strict, d, t1, h, Group(id, b2));
      ApplyOne(strict, d, t1, h, Group(id, b2));
      ObservedTwice(W, strict, d, t.aux, h, Group(id, b1));
      var k2 := ApplyFields(strict, nd, k1.value, h - 1, b2);
      if k2.Some? {
        assert t.kids[i := k1.value][i := k2.value] == t.kids[i := k2.value];
      }
    }
  }

  /**
   * A re-opened struct merges: with fields of other ids in between (none, in a union), two occurrences leave
   * exactly what one occurrence with both contents leaves.
   */
  lemma {:induction false} ReopenedStructMerges(W: WordSize, strict: bool, d: Descr, t: Obj, h: nat, id: nat, b1: seq<Field>, mid: seq<Field>, b2: seq<Field>)
    requires DescrOk(W, strict, d) && HasMembers(d, t) && TakesSequence(d, h, id)
    requires !d.fields[Find(d.fields, id)].kind.descr.form.Holder?
    requires (forall i :: 0 <= i < |mid| ==> mid[i].id != id) && (d.form.Union? ==> mid == [])
    ensures ApplyFields(strict, d, t, h, [Group(id, b1)] + mid + [Group(id, b2)]) == ApplyFields(strict, d, t, h, mid + [Group(id, b1 + b2)])
  {
    hide ApplyFields, DescrOk, TakesSequence;
    var f, g, fg := Group(id, b1), Group(id, b2), Group(id, b1 + b2);
    assert mid + [f, g] == mid + [f] + [g];
    if d.form.Union? {
      assert [f] + mid + [g] == mid + [f, g];
    } else {
      MoveToFront(W, strict, d, t, h, mid, f, [g]);
    }
    ApplyAppend(strict, d, t, h, mid, [f, g]);
    ApplyAppend(strict, d, t, h, mid, [fg]);
    var t1 := ApplyFields(strict, d, t, h, mid);
    if t1.Some? {
      UniqueOf(W, strict, d);
      ManyKeepMembers(strict, d, t, h, mid);
      MergeAdjacent(W, strict, d, t1.value, h, id, b1, b2);
    }
  }

  /** Back to back, the second occurrence of a wrapper array leaves what it would have left alone. */
  lemma {:induction false} ReplaceAdjacent(W: WordSize, strict: bool, d: Descr, t: Obj, h: nat, id: nat, b1: seq<Field>, b2: seq<Field>, depth: nat)
    requires DescrOk(W, strict, d) && Shape(d, t) && TakesSequence(d, h, id)
    requires d.fields[Find(d.fields, id)].kind.descr.form.Holder?
    requires FieldOk(W, Group(id, b1), depth) && FieldOk(W, Group(id, b2), depth)
    requires ApplyField(strict, d, t, h, Group(id, b1)).Some?
    ensures var t1 := ApplyField(strict, d, t, h, Group(id, b1)).value;
      var two, one := ApplyField(strict, d, t1, h, Group(id, b2)), ApplyField(strict, d, t, h, Group(id, b2));
      two.Some? == one.Some? && (two.Some? ==> Alike(d, two.value, one.value))
  {
    hide ApplyField, ApplyFields, ObservedAux, DescrOk, Reset, Find, Takes, Alike, FieldsOk, ShapeField;
    var i := Find(d.fields, id);
    SequenceTaken(d, h, id, b1);
    SequenceTaken(d, h, id, b2);
    UniqueOf(W, strict, d);
    Taken(strict, d, t, h, Group(id, b1));
    Taken(strict, d, t, h, Group(id, b2));
    var k, nd := d.fields[i].kind, d.fields[i].kind.descr;
    var k1 := ApplyFields(strict, nd, Reset(nd, t.kids[i]), h - 1, b1).value;
    var t1 := Node(ObservedAux(d, t.aux, id), t.kids[i := k1]);
    Taken(strict, d, t1, h, Group(id, b2));
    MemberOk(W, strict, d, t, i);
    ResetShape(W, strict, nd, t.kids[i]);
    ApplyShape(W, strict, nd, Reset(nd, t.kids[i]), h - 1, b1, depth + 1);
    ResetAlike(W, strict, nd, k1, t.kids[i]);
    ApplyAlike(W, strict, nd, Reset(nd, k1), Reset(nd, t.kids[i]), h - 1, b2, depth + 1);
    var two := ApplyFields(strict, nd, Reset(nd, k1), h - 1, b2);
    var one := ApplyFields(strict, nd, Reset(nd, t.kids[i]), h - 1, b2);
    if two.Some? {
      ObservedTwice(W, strict, d, t.aux, h, Group(id, b1));
      assert t1.kids[i := two.value] == t.kids[i := two.value];
      SwitchedAlike(d, t, i, two.value, one.value);
    }
  }

  lemma {:induction false} MemberOk(W: WordSize, strict: bool, d: Descr, t: Obj, i: nat)
    requires DescrOk(W, strict, d) && Shape(d, t) && i < |d.fields| && d.fields[i].kind.KNested?
    ensures DescrOk(W, strict, d.fields[i].kind.descr) && Shape(d.fields[i].kind.descr, t.kids[i])
  {
    assert KindOk(W, strict, d.fields[i].kind) && ShapeField(d.fields[i].kind, t.kids[i]);
  }

  lemma {:induction false} SwitchedAlike(d: Descr, t: Obj, i: nat, a: Obj, b: Obj)
    requires UniqueIds(d) && Shape(d, t) && i < |d.fields| && d.fields[i].kind.KNested? && Alike(d.fields[i].kind.descr, a, b)
    ensures Alike(d, Node(ObservedAux(d, t.aux, d.fields[i].id), t.kids[i := a]), Node(ObservedAux(d, t.aux, d.fields[i].id), t.kids[i := b]))
  {
    hide ShapeField, StoreLen;
    AlikeSelf(d, t);
    AlikeView(d.fields[i].kind.descr, a, b);
    NestedAlike(d.fields[i].kind, a, b);
    AlikeWith(d, t, t, i, a, b);
  }

  lemma {:induction false} NestedAlike(k: Kind, a: Obj, b: Obj)
    requires k.KNested? && Alike(k.descr, a, b) && Shape(k.descr, a) && Shape(k.descr, b)
    ensures AlikeField(k, a, b) && ShapeField(k, a) && ShapeField(k, b)
  {
  }

  /**
   * A re-opened wrapper array is replaced: with fields of other ids in between (none, in a union), a message whose
   * first occurrence was accepted goes on, field for field, as if only the last occurrence had been sent.
   */
  lemma {:induction false} ReopenedHolderReplaces(
    W: WordSize, strict: bool, d: Descr, t: Obj, h: nat, id: nat,
    b1: seq<Field>, mid: seq<Field>, b2: seq<Field>, back: seq<Field>, depth: nat)
    requires DescrOk(W, strict, d) && Shape(d, t) && TakesSequence(d, h, id)
    requires d.fields[Find(d.fields, id)].kind.descr.form.Holder?
    requires (forall i :: 0 <= i < |mid| ==> mid[i].id != id) && (d.form.Union? ==> mid == [])
    requires FieldsOk(W, [Group(id, b1)], depth) && FieldsOk(W, mid, depth) && FieldsOk(W, [Group(id, b2)], depth) && FieldsOk(W, back, depth)
    requires ApplyFields(strict, d, t, h, [Group(id, b1)] + mid).Some?
    ensures var two := ApplyFields(strict, d, t, h, [Group(id, b1)] + mid + ([Group(id, b2)] + back));
      var one := ApplyFields(strict, d, t, h, mid + ([Group(id, b2)] + back));
      two.Some? == one.Some? && (two.Some? ==> Alike(d, two.value, one.value))
  {
    hide ApplyFields, ApplyField, DescrOk, TakesSequence, Alike, Shape, FieldOk;
    var f, g := Group(id, b1), Group(id, b2);
    UniqueOf(W, strict, d);
    ShapeMembers(d, t);
    FirstMoves(W, strict, d, t, h, f, mid);
    ApplyAppend(strict, d, t, h, [f] + mid, [g] + back);
    ApplyAppend(strict, d, t, h, mid, [f]);
    ApplyAppend(strict, d, t, h, mid, [g] + back);
    var t0 := ApplyFields(strict, d, t, h, mid).value;
    ApplyShape(W, strict, d, t, h, mid, depth);
    ApplyOne(strict, d, t0, h, f);
    var t1 := ApplyField(strict, d, t0, h, f).value;
    ReplaceAdjacent(W, strict, d, t0, h, id, b1, b2, depth);
    ApplyCons(strict, d, t1, h, g, back);
    ApplyCons(strict, d, t0, h, g, back);
    var two, one := ApplyField(strict, d, t1, h, g), ApplyField(strict, d, t0, h, g);
    if two.Some? {
      ApplyAlike(W, strict, d, two.value, one.value, h, back, depth);
    }
  }

  lemma {:induction false} ShapeMembers(d: Descr, t: Obj)
    requires Shape(d, t)
    ensures HasMembers(d, t)
  {
  }

  lemma {:induction false} FirstMoves(W: WordSize, strict: bool, d: Descr, t: Obj, h: nat, f: Field, mid: seq<Field>)
    requires DescrOk(W, strict, d) && HasMembers(d, t)
    requires (forall i :: 0 <= i < |mid| ==> mid[i].id != f.id) && (d.form.Union? ==> mid == [])
    ensures ApplyFields(strict, d, t, h, [f] + mid) == ApplyFields(strict, d, t, h, mid + [f])
  {
    hide ApplyFields, DescrOk;
    if d.form.Union? {
      assert [f] + mid == mid + [f];
    } else {
      MoveToFront(W, strict, d, t, h, mid, f, []);
      assert mid + [f] + [] == mid + [f];
      assert [f] + mid + [] == [f] + mid;
    }
  }

  // ---------------------------------------------------------------- the default test predicts an empty encoding

  /** The encoder writes nothing for field i. */
  predicate Silent(d: Descr, o: Obj, i: nat)
    requires i < |d.fields|
  {
    !AlwaysWritten(d, o, i) && FieldIsDefault(d, i, o)
  }

  lemma {:induction false} EmptyFrom(d: Descr, o: Obj, i: nat)
    requires Shape(d, o)
    ensures EncodeFrom(d, o, i) == [] <==> forall j :: i <= j < WalkCount(d, o) ==> Silent(d, o, j)
    decreases |d.fields| - i
  {
    hide EncodeField, FieldIsDefault, ShapeField;
    if i < WalkCount(d, o) {
      EmptyFrom(d, o, i + 1);
      if EncodeFrom(d, o, i) != [] && Silent(d, o, i) {
        assert EncodeFrom(d, o, i) == EncodeFrom(d, o, i + 1);
      }
      assert EncodeFrom(d, o, i) == [] ==> Silent(d, o, i);
    }
  }

  /** What an encoding of nothing means: no element in a holder, nothing but defaults elsewhere. */
  lemma {:induction false} EmptyEncoding(d: Descr, o: Obj)
    requires Shape(d, o)
    ensures EncodeObj(d, o) == [] <==> if d.form.Holder? then SeqLen(d, o) == 0 else IsDefault(d, o)
  {
    hide FieldIsDefault, ShapeField, EncodeFrom;
    EmptyFrom(d, o, 0);
    if d.form.Holder? {
      if SeqLen(d, o) > 0 {
        assert !Silent(d, o, SeqLen(d, o) - 1);
      }
    } else {
      forall j | 0 <= j < |d.fields|
        ensures Silent(d, o, j) <==> FieldIsDefault(d, j, o)
      {
      }
    }
  }

  lemma {:induction false} NoBytesNoFields(fs: seq<Field>)
    ensures SerFields(fs) == [] <==> fs == []
  {
    hide Encode;
    if fs != [] {
      var f := fs[0];
      assert |Header(f.id, if f.Leaf? then TypeOf(f.value) else BEGIN)| >= 1;
      assert |SerField(f)| >= 1;
    }
  }

  lemma {:induction false} SameAsItself(a: seq<byte>)
    ensures SameText(a, a)
    decreases |a|
  {
    if a != [] { SameAsItself(a[1..]); }
  }

  /** A leaf as a reset leaves it passes the default test. */
  lemma {:induction false} ResetCellIsDefault(strict: bool, k: Kind, default: Option<Obj>, g: Obj)
    requires !k.KNested? && ShapeField(k, g) && LenOk(Capacity(k), LenWidth(k))
    requires default.Some? ==> DefaultOk(strict, k, default.value)
    ensures CellIsDefault(k, default, ResetCell(k, default, g))
  {
    hide StoreLen, SameText, SaneCell, CStr;
    var r := ResetCell(k, default, g);
    if default.Some? {
      DefaultIsKept(strict, k, default.value);
      SaneCellShape(strict, k, default.value);
      SameAsItself(default.value.buf);
      MulLess(UsedOf(k, r), Capacity(k), ElemWidth(k));
    }
  }

  lemma {:induction false} ResetFieldIsDefault(W: WordSize, strict: bool, d: Descr, i: nat, g: Obj, r: Obj)
    requires DescrOk(W, strict, d) && i < |d.fields| && ShapeField(d.fields[i].kind, g) && HasMembers(d, r)
    requires !NotHeld(d, r.aux, i) ==> r.kids[i] == ResetField(d, i, g) && UsesImage(d, i)
    ensures FieldIsDefault(d, i, r)
    decreases d, 0
  {
    var k := d.fields[i].kind;
    assert KindOk(W, strict, k);
    if !NotHeld(d, r.aux, i) {
      match k {
        case KNested(nd) => ResetIsDefault(W, strict, nd, g);
        case _ =>
          DefaultImageOk(W, strict, d, i);
          ResetCellIsDefault(strict, k, FieldDefault(d, i), g);
      }
    }
  }

  lemma {:induction false} DefaultImageOk(W: WordSize, strict: bool, d: Descr, i: nat)
    requires DescrOk(W, strict, d) && i < |d.fields| && UsesImage(d, i) && !d.fields[i].kind.KNested?
    ensures FieldDefault(d, i).Some? ==> DefaultOk(strict, d.fields[i].kind, FieldDefault(d, i).value)
    ensures LenOk(Capacity(d.fields[i].kind), LenWidth(d.fields[i].kind))
  {
    hide FieldDefault, UniqueIds, DefaultOk;
    assert KindOk(W, strict, d.fields[i].kind);
  }

  /** An initialised object is default. */
  lemma {:induction false} ResetIsDefault(W: WordSize, strict: bool, d: Descr, g: Obj)
    requires DescrOk(W, strict, d) && Shape(d, g)
    ensures Shape(d, Reset(d, g)) && IsDefault(d, Reset(d, g))
    decreases d, 1
  {
    hide DescrOk, ShapeField, ResetField, FieldIsDefault, Reset;
    ResetShape(W, strict, d, g);
    ResetKids(d, g);
    var r := Reset(d, g);
    forall i | 0 <= i < |d.fields|
      ensures FieldIsDefault(d, i, r)
    {
      assert ShapeField(d.fields[i].kind, g.kids[i]);
      ResetFieldIsDefault(W, strict, d, i, g.kids[i], r);
    }
  }

  /** The default test compares values: an object passes iff its value is the one an initialised object has. */
  lemma {:induction false} DefaultIsInitialValue(W: WordSize, strict: bool, d: Descr, o: Obj, g: Obj)
    requires DescrOk(W, strict, d) && Sane(strict, false, d, o) && Shape(d, g)
    ensures Shape(d, o) && Shape(d, Reset(d, g))
    ensures IsDefault(d, o) <==> ViewOf(d, o) == ViewOf(d, Reset(d, g))
  {
    hide DescrOk, Sane, Shape, Reset, IsDefault, ViewOf;
    SaneShape(strict, false, d, o);
    ResetIsDefault(W, strict, d, g);
    if IsDefault(d, o) {
      DefaultObject(W, strict, false, d, o, g);
    } else if ViewOf(d, o) == ViewOf(d, Reset(d, g)) {
      SameObject(W, strict, d, o, Reset(d, g));
    }
  }

  /** An initialised object is encoded to zero bytes, unless it is a holder that has slots and no length member. */
  lemma {:induction false} InitialValueIsSilent(W: WordSize, strict: bool, d: Descr, g: Obj)
    requires DescrOk(W, strict, d) && Shape(d, g)
    ensures Shape(d, Reset(d, g))
    ensures EncodeBytes(d, Reset(d, g)) == [] <==> !(d.form.Holder? && d.form.len == 0 && d.fields != [])
  {
    hide DescrOk, Shape, Reset, SerFields, EncodeFrom, FieldIsDefault;
    ResetIsDefault(W, strict, d, g);
    EmptyEncoding(d, Reset(d, g));
    NoBytesNoFields(EncodeObj(d, Reset(d, g)));
  }

  /** The default test and an empty encoding, told apart by the test itself. */
  lemma {:induction false} PredictionByTest(d: Descr, o: Obj)
    requires Shape(d, o)
    ensures (IsDefault(d, o) <==> EncodeBytes(d, o) == []) <==> !(d.form.Holder? && d.form.len == 0 && d.fields != [] && IsDefault(d, o))
  {
    hide EncodeField, FieldIsDefault, ShapeField, EncodeFrom, SerFields;
    EmptyEncoding(d, o);
    NoBytesNoFields(EncodeObj(d, o));
  }

  /**
   * Leaving a sub-object off the wire is decided without encoding it, and rightly so: the default test passes iff
   * the object would be encoded to zero bytes. The one exception is a holder that has slots, has no length member and
   * holds its initial value (g is any storage to initialise): it passes the test and is never encoded to nothing,
   * since its last slot is always written.
   */
  lemma {:induction false} PredictionIsExact(W: WordSize, strict: bool, d: Descr, o: Obj, g: Obj)
    requires DescrOk(W, strict, d) && Sane(strict, false, d, o) && Shape(d, g)
    ensures Shape(d, o) && Shape(d, Reset(d, g))
    ensures (IsDefault(d, o) <==> EncodeBytes(d, o) == [])
      <==> !(d.form.Holder? && d.form.len == 0 && d.fields != [] && ViewOf(d, o) == ViewOf(d, Reset(d, g)))
  {
    hide DescrOk, Sane, Shape, Reset, SerFields, EncodeFrom, IsDefault, ViewOf;
    DefaultIsInitialValue(W, strict, d, o, g);
    PredictionByTest(d, o);
  }

  /** The exception exists: an un-sized holder of one zero byte. */
  lemma UnsizedHolderIsMispredicted()
    ensures var d := Descr(Holder(0), [FieldDescr(0, 0, KInt(Unsigned, 1))], None);
      var o := Node(0, [Cell(0, [0])]);
      Shape(d, o) && IsDefault(d, o) && EncodeBytes(d, o) != []
  {
    hide SerFields;
    var d := Descr(Holder(0), [FieldDescr(0, 0, KInt(Unsigned, 1))], None);
    var o := Node(0, [Cell(0, [0])]);
    assert ShapeField(d.fields[0].kind, o.kids[0]);
    assert FieldIsDefault(d, 0, o);
    EmptyEncoding(d, o);
    NoBytesNoFields(EncodeObj(d, o));
  }
}

/**
 * The object decoder: the field callback, what a field tree does to an object, and the proof that the
 * byte machine under this callback computes it in place inside the root object.
 */
module ObjectDecode {
  import opened Bytes
  import opened Wire
  import opened Decoder
  import opened Meaning
  import opened Object

  type Path = seq<nat>

  /** A decoder handle: descriptor, destination inside the root object, and handles left below it. */
  datatype Scope = Scope(descr: Descr, dst: Path, handles: nat)

  // ---------------------------------------------------------------- places inside an object

  predicate ValidPath(o: Obj, p: Path)
  {
    p == [] || (o.Node? && p[0] < |o.kids| && ValidPath(o.kids[p[0]], p[1..]))
  }

  function Inside(o: Obj, p: Path): Obj
    requires ValidPath(o, p)
  {
    if p == [] then o else Inside(o.kids[p[0]], p[1..])
  }

  /** o with x in place p. */
  function Put(o: Obj, p: Path, x: Obj): Obj
  {
    if p == [] then x
    else if o.Node? && p[0] < |o.kids| then Node(o.aux, o.kids[p[0] := Put(o.kids[p[0]], p[1..], x)])
    else o
  }

  lemma {:induction false} PutAt(o: Obj, p: Path, x: Obj)
    requires ValidPath(o, p)
    ensures ValidPath(Put(o, p, x), p) && Inside(Put(o, p, x), p) == x
    ensures Put(o, p, Inside(o, p)) == o
    decreases |p|
  {
    if p != [] {
      PutAt(o.kids[p[0]], p[1..], x);
      assert o.kids[p[0] := o.kids[p[0]]] == o.kids;
    }
  }

  lemma {:induction false} PutPut(o: Obj, p: Path, x: Obj, y: Obj)
    requires ValidPath(o, p)
    ensures Put(Put(o, p, x), p, y) == Put(o, p, y)
    decreases |p|
  {
    if p != [] {
      PutPut(o.kids[p[0]], p[1..], x, y);
      var k := o.kids;
      assert k[p[0] := Put(k[p[0]], p[1..], x)][p[0] := Put(k[p[0]], p[1..], y)] == k[p[0] := Put(k[p[0]], p[1..], y)];
    }
  }

  /** A node with one child replaced. */
  function WithKid(o: Obj, i: nat, x: Obj): Obj
  {
    if o.Node? && i < |o.kids| then Node(o.aux, o.kids[i := x]) else o
  }

  lemma {:induction false} PutChild(o: Obj, p: Path, i: nat, x: Obj)
    requires ValidPath(o, p) && Inside(o, p).Node? && i < |Inside(o, p).kids|
    ensures ValidPath(o, p + [i]) && Inside(o, p + [i]) == Inside(o, p).kids[i]
    ensures Put(o, p + [i], x) == Put(o, p, WithKid(Inside(o, p), i, x))
    decreases |p|
  {
    if p == [] {
      assert p + [i] == [i];
      assert [i][1..] == [];
    } else {
      assert (p + [i])[1..] == p[1..] + [i];
      PutChild(o.kids[p[0]], p[1..], i, x);
    }
  }

  // ---------------------------------------------------------------- stores

  /** One byte of a cell. */
  function PokeCell(o: Obj, pos: nat, b: byte): Obj
  {
    if o.Cell? && pos < |o.buf| then Cell(o.used, o.buf[pos := b]) else o
  }

  function StoreByte(root: Obj, p: Path, pos: nat, b: byte): Obj
  {
    if ValidPath(root, p) then Put(root, p, PokeCell(Inside(root, p), pos, b)) else root
  }

  function PokeBytes(o: Obj, pos: nat, bs: seq<byte>): Obj
    decreases |bs|
  {
    if bs == [] then o else PokeBytes(PokeCell(o, pos, bs[0]), pos + 1, bs[1..])
  }

  function PokeWrites(o: Obj, ws: seq<Write>): Obj
    decreases |ws|
  {
    if ws == [] then o else PokeWrites(PokeBytes(o, ws[0].pos, ws[0].bytes), ws[1..])
  }

  // ---------------------------------------------------------------- the callback

  /** The read a leaf kind is bound with. */
  function ReadOf(k: Kind, p: Path): Action<Path, Scope>
  {
    match k
    case KInt(num, w) => ReadInt(p, num, w)
    case KFloat(fp64) => ReadFloat(p, fp64)
    case KText(size) => ReadBytes(p, size, true, true)
    case KBlob(cap, _) => ReadBytes(p, cap, false, false)
    case KInts(num, w, cap, _) => ReadInts(p, cap, num, w)
    case KFloats(fp64, cap, _) => ReadFloats(p, cap, fp64)
    case KNested(_) => Decline
  }

  /** Record that element id is bound: a sized holder's length covers it, a union holds it. */
  function Observe(d: Descr, o: Obj, id: nat): Obj
  {
    match (d.form, o)
    case (Holder(len), Node(aux, kids)) =>
      if len == 0 then o
      else
        var n := Min(id + 1, |d.fields|);
        if n > aux then Node(StoreLen(n, len), kids) else o
    case (Union, Node(_, kids)) => Node(id, kids)
    case _ => o
  }

  /** The companion length of a sized member, as the callback records it. */
  function WithLen(k: Kind, o: Obj, c: Call): Obj
  {
    if LenWidth(k) == 0 || o.Node? then o
    else Cell(StoreLen(Min(if k.KBlob? then c.size else c.count, Capacity(k)), LenWidth(k)), o.buf)
  }

  /** Binding leaf field i: settle a sized member's type first, then bind, record the length and the presence. */
  function BindCell(d: Descr, o: Obj, i: nat, p: Path, c: Call): (Obj, Action<Path, Scope>)
    requires i < |d.fields|
  {
    var k := d.fields[i].kind;
    if o.Cell? || i >= |o.kids| then (o, Decline)
    else if LenWidth(k) != 0 && c.opt != ExpectedOf(k) then (o, Decline)
    else if c.opt != ExpectedOf(k) then (o, ReadOf(k, p + [i]))
    else (Observe(d, WithKid(o, i, WithLen(k, o.kids[i], c)), c.id), ReadOf(k, p + [i]))
  }

  /** Binding sequence field i: a wrapper array is replaced, a union option switched to starts from its default. */
  function BindNested(d: Descr, o: Obj, i: nat, p: Path, h: nat, c: Call): (Obj, Action<Path, Scope>)
    requires i < |d.fields| && d.fields[i].kind.KNested?
  {
    var nd := d.fields[i].kind.descr;
    if h == 0 || o.Cell? || i >= |o.kids| || c.opt % 8 != BEGIN then (o, Decline)
    else
      var kid := if nd.form.Holder? || NotHeld(d, o.aux, i) then Reset(nd, o.kids[i]) else o.kids[i];
      (if c.opt == BEGIN then Observe(d, WithKid(o, i, kid), c.id) else WithKid(o, i, kid),
       ReadSequence(Scope(nd, p + [i], h - 1)))
  }

  /** sofab_object_field_cb on the object o at place p: its new storage, the read, and a refusal. */
  function FieldCallback(d: Descr, o: Obj, p: Path, h: nat, c: Call): (Obj, Action<Path, Scope>, bool)
  {
    var i := Find(d.fields, c.id);
    if i == |d.fields| then
      (o, Decline, d.form.Holder? && |d.fields| != 0 && c.opt == ExpectedOf(d.fields[0].kind))
    else if d.fields[i].kind.KNested? then
      var r := BindNested(d, o, i, p, h, c); (r.0, r.1, false)
    else
      var r := BindCell(d, o, i, p, c); (r.0, r.1, false)
  }

  function ObjectCall(root: Obj, sc: Scope, c: Call): Reply<Obj, Path, Scope>
  {
    if !ValidPath(root, sc.dst) then Reply(root, Decline, false)
    else
      var r := FieldCallback(sc.descr, Inside(root, sc.dst), sc.dst, sc.handles, c);
      Reply(Put(root, sc.dst, r.0), r.1, r.2)
  }

  function ObjectEnv(W: WordSize, strict: bool): Env<Obj, Path, Scope>
  {
    Env(W, strict, (root, sc, c) => ObjectCall(root, sc, c), (root, p, pos, b) => StoreByte(root, p, pos, b))
  }

  // ---------------------------------------------------------------- what fields do to an object

  /** A leaf field received: the callback's bookkeeping, then the bytes its value leaves in the cell. */
  function ApplyLeaf(strict: bool, d: Descr, o: Obj, h: nat, id: nat, v: Value): Option<Obj>
  {
    var c := Call(id, SizeOf(v), CountOf(v), OptOf(v));
    var r := FieldCallback(d, o, [], h, c);
    var a := Settle(r.1, c.opt);
    if r.2 then None
    else if a.Decline? || a.ReadSequence? then Some(r.0)
    else
      match Render(strict, a, v)
      case None => None
      case Some(ws) =>
        var i := Find(d.fields, id);
        Some(if r.0.Node? && i < |r.0.kids| then WithKid(r.0, i, PokeWrites(r.0.kids[i], ws)) else r.0)
  }

  function ApplyField(strict: bool, d: Descr, o: Obj, h: nat, f: Field): Option<Obj>
    decreases f
  {
    match f
    case Leaf(id, v) => ApplyLeaf(strict, d, o, h, id, v)
    case Group(id, body) =>
      var r := FieldCallback(d, o, [], h, Call(id, 0, 0, BEGIN));
      var a := Settle(r.1, BEGIN);
      if r.2 then None
      else if a.ReadSequence? then
        var i := Find(d.fields, id);
        if r.0.Node? && i < |r.0.kids| then
          match ApplyFields(strict, a.scope.descr, r.0.kids[i], a.scope.handles, body)
          case None => None
          case Some(kid) => Some(WithKid(r.0, i, kid))
        else Some(r.0)
      else Some(r.0)
  }

  /** The object after a scope's fields, or None when one is refused. */
  function ApplyFields(strict: bool, d: Descr, o: Obj, h: nat, fs: seq<Field>): Option<Obj>
    decreases fs
  {
    if fs == [] then Some(o)
    else
      match ApplyField(strict, d, o, h, fs[0])
      case None => None
      case Some(o1) => ApplyFields(strict, d, o1, h, fs[1..])
  }

  // ---------------------------------------------------------------- refinement

  lemma {:induction false} StoresPoke(W: WordSize, strict: bool, root: Obj, p: Path, pos: nat, bs: seq<byte>)
    requires ValidPath(root, p)
    ensures StoreAll(ObjectEnv(W, strict), root, p, pos, bs) == Put(root, p, PokeBytes(Inside(root, p), pos, bs))
    decreases |bs|
  {
    hide PokeCell;
    var x := Inside(root, p);
    PutAt(root, p, x);
    if bs != [] {
      var x1 := PokeCell(x, pos, bs[0]);
      PutAt(root, p, x1);
      StoresPoke(W, strict, Put(root, p, x1), p, pos + 1, bs[1..]);
      PutPut(root, p, x1, PokeBytes(x1, pos + 1, bs[1..]));
    }
  }

  lemma {:induction false} WritesPoke(W: WordSize, strict: bool, root: Obj, p: Path, ws: seq<Write>)
    requires ValidPath(root, p)
    ensures StoreWrites(ObjectEnv(W, strict), root, p, ws) == Put(root, p, PokeWrites(Inside(root, p), ws))
    decreases |ws|
  {
    hide PokeBytes, StoreAll;
    var x := Inside(root, p);
    PutAt(root, p, x);
    if ws != [] {
      var x1 := PokeBytes(x, ws[0].pos, ws[0].bytes);
      StoresPoke(W, strict, root, p, ws[0].pos, ws[0].bytes);
      PutAt(root, p, x1);
      WritesPoke(W, strict, Put(root, p, x1), p, ws[1..]);
      PutPut(root, p, x1, PokeWrites(x1, ws[1..]));
    }
  }

  /** The callback does the same wherever the object lies; only the destinations it names move along. */
  lemma CallbackMoves(d: Descr, o: Obj, p: Path, h: nat, c: Call)
    ensures var r, s, i := FieldCallback(d, o, p, h, c), FieldCallback(d, o, [], h, c), Find(d.fields, c.id);
      && r.0 == s.0 && r.2 == s.2
      && Rebased(r.1, s.1, p + [i])
      && (Settle(s.1, c.opt).Decline? || (r.0.Node? && i < |r.0.kids|))
      && (s.1.ReadSequence? ==> c.opt % 8 == BEGIN)
  {
    hide Reset, Find, WithLen;
    if Find(d.fields, c.id) < |d.fields| {
      ReadAgrees(d.fields[Find(d.fields, c.id)].kind, p + [Find(d.fields, c.id)]);
      ReadAgrees(d.fields[Find(d.fields, c.id)].kind, [Find(d.fields, c.id)]);
    }
    assert [] + [Find(d.fields, c.id)] == [Find(d.fields, c.id)];
    ObserveKeepsKids(d, o, c.id);
  }

  lemma ReadAgrees(k: Kind, p: Path)
    ensures !k.KNested? ==> ExpectedOpt(ReadOf(k, p)) == ExpectedOf(k) && !ReadOf(k, p).Decline? && !ReadOf(k, p).ReadSequence?
  {
  }

  /** r is the read s with its destination moved to p. */
  ghost predicate Rebased(r: Action<Path, Scope>, s: Action<Path, Scope>, p: Path)
  {
    match s
    case Decline => r.Decline?
    case ReadSequence(sc) => r == ReadSequence(Scope(sc.descr, p, sc.handles))
    case ReadInt(_, num, w) => r == ReadInt(p, num, w)
    case ReadFloat(_, fp64) => r == ReadFloat(p, fp64)
    case ReadBytes(_, cap, text, term) => r == ReadBytes(p, cap, text, term)
    case ReadInts(_, n, num, w) => r == ReadInts(p, n, num, w)
    case ReadFloats(_, n, fp64) => r == ReadFloats(p, n, fp64)
  }

  lemma ObserveKeepsKids(d: Descr, o: Obj, id: nat)
    ensures o.Node? ==> Observe(d, o, id).Node? && Observe(d, o, id).kids == o.kids
    ensures o.Cell? ==> Observe(d, o, id) == o
  {
  }

  /** The bytes a value leaves do not depend on where the destination lies. */
  lemma RenderMoves(strict: bool, r: Action<Path, Scope>, s: Action<Path, Scope>, p: Path, v: Value)
    requires Rebased(r, s, p)
    ensures Render(strict, r, v) == Render(strict, s, v)
    ensures ExpectedOpt(r) == ExpectedOpt(s)
  {
    hide ScalarBytes, Packed, AllFit;
  }

  lemma {:induction false} LeafRefines(W: WordSize, strict: bool, e: Effect<Obj>, sc: Scope, id: nat, v: Value)
    requires ValidPath(e.user, sc.dst)
    ensures var m := MeanLeaf(ObjectEnv(W, strict), e, sc, id, v);
      var r := ApplyLeaf(strict, sc.descr, Inside(e.user, sc.dst), sc.handles, id, v);
      && (m.Some? <==> r.Some?)
      && (m.Some? ==> m.value.user == Put(e.user, sc.dst, r.value))
  {
    hide FieldCallback, Render, PokeWrites, StoreWrites, OptOf, SizeOf, CountOf, Find;
    var root, p, d := e.user, sc.dst, sc.descr;
    var o, c := Inside(root, p), Call(id, SizeOf(v), CountOf(v), OptOf(v));
    var i := Find(d.fields, id);
    CallbackMoves(d, o, p, sc.handles, c);
    var r, s := FieldCallback(d, o, p, sc.handles, c), FieldCallback(d, o, [], sc.handles, c);
    RenderMoves(strict, r.1, s.1, p + [i], v);
    var a := Settle(s.1, c.opt);
    if !s.2 && !a.Decline? && !a.ReadSequence? {
      var ws := Render(strict, a, v);
      if ws.Some? {
        PutAt(root, p, r.0);
        PutChild(Put(root, p, r.0), p, i, PokeWrites(r.0.kids[i], ws.value));
        WritesPoke(W, strict, Put(root, p, r.0), p + [i], ws.value);
        PutPut(root, p, r.0, WithKid(r.0, i, PokeWrites(r.0.kids[i], ws.value)));
      }
    }
  }

  lemma {:induction false} FieldRefines(W: WordSize, strict: bool, e: Effect<Obj>, sc: Scope, f: Field)
    requires ValidPath(e.user, sc.dst)
    ensures var m := MeanField(ObjectEnv(W, strict), e, sc, f);
      var r := ApplyField(strict, sc.descr, Inside(e.user, sc.dst), sc.handles, f);
      && (m.Some? <==> r.Some?)
      && (m.Some? ==> m.value.user == Put(e.user, sc.dst, r.value))
    decreases f
  {
    hide FieldCallback, MeanLeaf, ApplyLeaf, MeanFields, ApplyFields;
    match f
    case Leaf(id, v) => LeafRefines(W, strict, e, sc, id, v);
    case Group(id, body) =>
      var root, p, d := e.user, sc.dst, sc.descr;
      var o, c := Inside(root, p), Call(id, 0, 0, BEGIN);
      var i := Find(d.fields, id);
      CallbackMoves(d, o, p, sc.handles, c);
      var r, s := FieldCallback(d, o, p, sc.handles, c), FieldCallback(d, o, [], sc.handles, c);
      GroupMeans(ObjectEnv(W, strict), e, sc, id, body);
      var a := Settle(s.1, BEGIN);
      if !s.2 && a.ReadSequence? {
        var root1 := Put(root, p, r.0);
        PutAt(root, p, r.0);
        var kid := r.0.kids[i];
        PutChild(root1, p, i, kid);
        var sc1 := Scope(a.scope.descr, p + [i], a.scope.handles);
        FieldsRefine(W, strict, Effect(root1, e.calls + [c]), sc1, body);
        var k1 := ApplyFields(strict, a.scope.descr, kid, a.scope.handles, body);
        if k1.Some? {
          PutChild(root1, p, i, k1.value);
          PutPut(root, p, r.0, WithKid(r.0, i, k1.value));
        }
      }
  }

  /** The meaning of a field tree under the object callback is its application to the object in place. */
  lemma {:induction false} FieldsRefine(W: WordSize, strict: bool, e: Effect<Obj>, sc: Scope, fs: seq<Field>)
    requires ValidPath(e.user, sc.dst)
    ensures var m := MeanFields(ObjectEnv(W, strict), e, sc, fs);
      var r := ApplyFields(strict, sc.descr, Inside(e.user, sc.dst), sc.handles, fs);
      && (m.Some? <==> r.Some?)
      && (m.Some? ==> m.value.user == Put(e.user, sc.dst, r.value))
    decreases fs
  {
    hide MeanField, ApplyField;
    var o := Inside(e.user, sc.dst);
    PutAt(e.user, sc.dst, o);
    if fs != [] {
      FieldRefines(W, strict, e, sc, fs[0]);
      var m, r := MeanField(ObjectEnv(W, strict), e, sc, fs[0]), ApplyField(strict, sc.descr, o, sc.handles, fs[0]);
      if m.Some? {
        PutAt(e.user, sc.dst, r.value);
        FieldsRefine(W, strict, m.value, sc, fs[1..]);
        var r2 := ApplyFields(strict, sc.descr, r.value, sc.handles, fs[1..]);
        if r2.Some? {
          PutPut(e.user, sc.dst, r.value, r2.value);
        }
      }
    }
  }
}

/**
 * Holding back sequence headers: what a balanced run of writer calls puts on the wire, as the tree it stands for
 * with content-free lazy frames left out.
 */
module HoldBack {
  import opened Bytes
  import opened Varint
  import opened Wire
  import opened Output

  /** A field's content, or a sequence: begun lazily or not, and ended with or without "keep". */
  datatype Tree = Item(id: nat, ty: nat, payload: seq<byte>) | Frame(id: nat, lazy: bool, keep: bool, kids: seq<Tree>)

  // ---------------------------------------------------------------- trees, calls and bytes

  /** The calls that write a tree. */
  function OpsOf(t: Tree): seq<Op>
    decreases t
  {
    match t
    case Item(id, ty, payload) => [Content(id, ty, payload)]
    case Frame(id, lazy, keep, kids) =>
      [if lazy then OpenLazy(id) else Open(id)] + OpsOfAll(kids) + [if keep then CloseKeep else Close]
  }

  function OpsOfAll(ts: seq<Tree>): seq<Op>
    decreases ts
  {
    if ts == [] then [] else OpsOf(ts[0]) + OpsOfAll(ts[1..])
  }

  function SerTree(t: Tree): seq<byte>
    decreases t
  {
    match t
    case Item(id, ty, payload) => Header(id, ty) + payload
    case Frame(id, _, _, kids) => Header(id, BEGIN) + SerTrees(kids) + Header(0, END)
  }

  function SerTrees(ts: seq<Tree>): seq<byte>
    decreases ts
  {
    if ts == [] then [] else SerTree(ts[0]) + SerTrees(ts[1..])
  }

  predicate IdsOk(W: WordSize, ts: seq<Tree>)
    decreases ts
  {
    ts == [] || (ts[0].id <= IdMax(W) && (ts[0].Frame? ==> IdsOk(W, ts[0].kids)) && IdsOk(W, ts[1..]))
  }

  /** A lazy frame that is not kept and has no content at any depth is no part of the message. */
  function Prune(ts: seq<Tree>): seq<Tree>
    decreases ts
  {
    if ts == [] then [] else PruneOne(ts[0]) + Prune(ts[1..])
  }

  function PruneOne(t: Tree): seq<Tree>
    decreases t
  {
    match t
    case Item(_, _, _) => [t]
    case Frame(id, lazy, keep, kids) =>
      var rest := Prune(kids);
      if lazy && !keep && rest == [] then [] else [Frame(id, lazy, keep, rest)]
  }

  /** Every balanced sequence of calls writes some tree. */
  predicate Balanced(ops: seq<Op>, n: nat)
  {
    if ops == [] then n == 0
    else
      match ops[0]
      case Content(_, _, _) => Balanced(ops[1..], n)
      case Open(_) => Balanced(ops[1..], n + 1)
      case OpenLazy(_) => Balanced(ops[1..], n + 1)
      case _ => n > 0 && Balanced(ops[1..], n - 1)
  }

  lemma {:induction false} OpsCons(t: Tree, ts: seq<Tree>)
    ensures OpsOfAll([t] + ts) == OpsOf(t) + OpsOfAll(ts)
  {
    hide OpsOf;
    assert ([t] + ts)[1..] == ts;
  }

  /** The calls of one scope, up to the call that ends it. */
  lemma {:induction false} TakeScope(ops: seq<Op>, n: nat) returns (ts: seq<Tree>, keep: bool, rest: seq<Op>)
    requires Balanced(ops, n) && n > 0
    ensures ops == OpsOfAll(ts) + [if keep then CloseKeep else Close] + rest && Balanced(rest, n - 1)
    decreases |ops|
  {
    match ops[0]
    case Content(id, ty, payload) =>
      ts, keep, rest := TakeScope(ops[1..], n);
      OpsCons(Item(id, ty, payload), ts);
      ts := [Item(id, ty, payload)] + ts;
    case Open(id) => ts, keep, rest := TakeFrame(ops, n, id, false);
    case OpenLazy(id) => ts, keep, rest := TakeFrame(ops, n, id, true);
    case _ =>
      ts, keep, rest := [], ops[0] == CloseKeep, ops[1..];
  }

  lemma {:induction false} TakeFrame(ops: seq<Op>, n: nat, id: nat, lazy: bool) returns (ts: seq<Tree>, keep: bool, rest: seq<Op>)
    requires ops != [] && ops[0] == (if lazy then OpenLazy(id) else Open(id)) && Balanced(ops[1..], n + 1) && n > 0
    ensures ops == OpsOfAll(ts) + [if keep then CloseKeep else Close] + rest && Balanced(rest, n - 1)
    decreases |ops|, 0
  {
    hide Balanced, OpsOfAll;
    var kids, kept, after := TakeScope(ops[1..], n + 1);
    ts, keep, rest := TakeScope(after, n);
    OpsCons(Frame(id, lazy, kept, kids), ts);
    JoinCalls(ops, OpsOfAll(kids), if kept then CloseKeep else Close, OpsOfAll(ts), if keep then CloseKeep else Close, rest);
    ts := [Frame(id, lazy, kept, kids)] + ts;
  }

  lemma JoinCalls(ops: seq<Op>, a: seq<Op>, x: Op, b: seq<Op>, y: Op, rest: seq<Op>)
    requires ops != [] && ops[1..] == a + [x] + (b + [y] + rest)
    ensures ops == [ops[0]] + a + [x] + b + [y] + rest
  {
    assert ops == [ops[0]] + ops[1..];
  }

  lemma {:induction false} BalancedIsTree(ops: seq<Op>) returns (ts: seq<Tree>)
    requires Balanced(ops, 0)
    ensures OpsOfAll(ts) == ops
    decreases |ops|
  {
    if ops == [] {
      ts := [];
    } else if ops[0].Content? {
      ts := BalancedIsTree(ops[1..]);
      var item := Item(ops[0].id, ops[0].ty, ops[0].payload);
      OpsCons(item, ts);
      ts := [item] + ts;
    } else {
      assert ops[0].Open? || ops[0].OpenLazy?;
      var kids, keep, rest := TakeScope(ops[1..], 1);
      ts := BalancedIsTree(rest);
      var frame := Frame(ops[0].id, ops[0].OpenLazy?, keep, kids);
      OpsCons(frame, ts);
      ts := [frame] + ts;
    }
  }

  // ---------------------------------------------------------------- what reaches the wire

  /** The tree that is written, given h headers held back in front of it and a window of D. */
  function Kept(D: nat, h: nat, ts: seq<Tree>): seq<Tree>
    decreases ts
  {
    if ts == [] then []
    else
      var first := KeptOne(D, h, ts[0]);
      first + Kept(D, if first == [] then h else 0, ts[1..])
  }

  /** A frame begun beyond the window is framed at once, content or not. */
  function KeptOne(D: nat, h: nat, t: Tree): seq<Tree>
    decreases t
  {
    match t
    case Item(_, _, _) => [t]
    case Frame(id, lazy, keep, kids) =>
      if lazy && h < D then
        var rest := Kept(D, h + 1, kids);
        if rest == [] && !keep then [] else [Frame(id, lazy, keep, rest)]
      else [Frame(id, lazy, keep, Kept(D, 0, kids))]
  }

  lemma {:induction false} SerAppend(a: seq<Tree>, b: seq<Tree>)
    ensures SerTrees(a + b) == SerTrees(a) + SerTrees(b)
    decreases |a|
  {
    hide SerTree;
    if a == [] {
      assert a + b == b;
    } else {
      assert (a + b)[1..] == a[1..] + b;
      SerAppend(a[1..], b);
    }
  }

  lemma {:induction false} HeadersAppend(p: seq<nat>, id: nat)
    ensures Headers(p + [id]) == Headers(p) + Header(id, BEGIN)
    decreases |p|
  {
    hide Header;
    if p == [] {
      assert p + [id] == [id];
      assert [id][1..] == [];
    } else {
      assert (p + [id])[1..] == p[1..] + [id];
      HeadersAppend(p[1..], id);
    }
  }

  /** The state behind what is written of a tree: untouched when nothing is, else all headers out and the tree behind them. */
  function Behind(log: seq<byte>, p: seq<nat>, kept: seq<Tree>): Sheet
  {
    if kept == [] then Sheet(log, None, p) else Sheet(log + Headers(p) + SerTrees(kept), None, [])
  }

  /** Content over an unlimited room: the held-back headers and then the bytes. */
  lemma {:induction false} EmitFree(log: seq<byte>, p: seq<nat>, bs: seq<byte>)
    ensures Emit(Sheet(log, None, p), bs) == (Sheet(log + Headers(p) + bs, None, []), OK)
  {
    hide Commit, Headers;
    CommitFree(Sheet(log, None, p));
  }

  lemma {:induction false} SerOne(t: Tree)
    ensures SerTrees([t]) == SerTree(t)
  {
    hide SerTree;
    assert [t][1..] == [];
  }

  lemma {:induction false} RunTree(W: WordSize, D: nat, t: Tree, log: seq<byte>, p: seq<nat>)
    requires IdsOk(W, [t]) && |p| <= D
    ensures DoAll(W, D, Sheet(log, None, p), OpsOf(t)) == (Behind(log, p, KeptOne(D, |p|, t)), OK)
    decreases t
  {
    hide Emit, Headers, Header, SerTrees, IdMax;
    var s := Sheet(log, None, p);
    SerOneKept(D, |p|, t);
    match t
    case Item(id, ty, payload) =>
      EmitFree(log, p, Header(id, ty) + payload);
      DoOne(W, D, s, Content(id, ty, payload));
    case Frame(id, lazy, keep, kids) =>
      if lazy && |p| < D {
        RunHeld(W, D, t, log, p);
      } else {
        RunFramed(W, D, t, log, p);
      }
  }

  lemma {:induction false} SerOneKept(D: nat, h: nat, t: Tree)
    ensures KeptOne(D, h, t) != [] ==> |KeptOne(D, h, t)| == 1 && SerTrees(KeptOne(D, h, t)) == SerTree(KeptOne(D, h, t)[0])
  {
    hide Kept, SerTree;
    if KeptOne(D, h, t) != [] {
      assert KeptOne(D, h, t) == [KeptOne(D, h, t)[0]];
      SerOne(KeptOne(D, h, t)[0]);
    }
  }

  lemma {:induction false} DoOne(W: WordSize, D: nat, s: Sheet, op: Op)
    ensures DoAll(W, D, s, [op]) == Do(W, D, s, op)
  {
    hide Do;
    assert [op][1..] == [];
  }

  /** A call, the calls of the kids, and the closing call. */
  lemma {:induction false} DoFrame(W: WordSize, D: nat, s: Sheet, open: Op, kids: seq<Op>, close: Op)
    requires Do(W, D, s, open).1 == OK && DoAll(W, D, Do(W, D, s, open).0, kids).1 == OK
    ensures DoAll(W, D, s, [open] + kids + [close]) == Do(W, D, DoAll(W, D, Do(W, D, s, open).0, kids).0, close)
  {
    hide Do, DoAll;
    DoAppend(W, D, s, [open] + kids, [close]);
    DoAppend(W, D, s, [open], kids);
    DoOne(W, D, s, open);
    DoOne(W, D, DoAll(W, D, Do(W, D, s, open).0, kids).0, close);
  }

  lemma {:induction false} RunHeld(W: WordSize, D: nat, t: Tree, log: seq<byte>, p: seq<nat>)
    requires t.Frame? && t.lazy && IdsOk(W, [t]) && |p| < D
    ensures DoAll(W, D, Sheet(log, None, p), OpsOf(t)) == (Behind(log, p, KeptOne(D, |p|, t)), OK)
    decreases t, 0
  {
    hide Emit, Headers, Header, SerTrees, IdMax, DoAll;
    var s, kids := Sheet(log, None, p), t.kids;
    SerOneKept(D, |p|, t);
    var close := if t.keep then CloseKeep else Close;
    var held := p + [t.id];
    RunTrees(W, D, kids, log, held);
    DoFrame(W, D, s, OpenLazy(t.id), OpsOfAll(kids), close);
    var rest := Kept(D, |p| + 1, kids);
    HeadersAppend(p, t.id);
    if rest == [] {
      assert held[..|held| - 1] == p;
      SerNone();
      if t.keep {
        EmitFree(log, held, Header(0, END));
        Regroup(log, Headers(p), Header(t.id, BEGIN), [], Header(0, END));
      }
    } else {
      var out := log + Headers(held) + SerTrees(rest);
      EmitFree(out, [], Header(0, END));
      HeadersNone(out);
      Regroup(log, Headers(p), Header(t.id, BEGIN), SerTrees(rest), Header(0, END));
    }
  }

  lemma SerNone()
    ensures SerTrees([]) == []
  {
  }

  lemma HeadersNone(out: seq<byte>)
    ensures out + Headers([]) == out
  {
  }

  lemma Regroup(log: seq<byte>, a: seq<byte>, b: seq<byte>, c: seq<byte>, e: seq<byte>)
    ensures log + (a + b) + c + e == log + a + (b + c + e)
    ensures log + a + b + c + e == log + a + (b + c + e)
    ensures c == [] ==> log + (a + b) + e == log + a + (b + c + e) && log + a + b + e == log + a + (b + c + e)
  {
  }

  lemma {:induction false} RunFramed(W: WordSize, D: nat, t: Tree, log: seq<byte>, p: seq<nat>)
    requires t.Frame? && !(t.lazy && |p| < D) && IdsOk(W, [t]) && |p| <= D
    ensures DoAll(W, D, Sheet(log, None, p), OpsOf(t)) == (Behind(log, p, KeptOne(D, |p|, t)), OK)
    decreases t, 0
  {
    hide Emit, Headers, Header, SerTrees, IdMax, DoAll;
    var s, kids := Sheet(log, None, p), t.kids;
    SerOneKept(D, |p|, t);
    var open, close := if t.lazy then OpenLazy(t.id) else Open(t.id), if t.keep then CloseKeep else Close;
    EmitFree(log, p, Header(t.id, BEGIN));
    var framed := log + Headers(p) + Header(t.id, BEGIN);
    RunTrees(W, D, kids, framed, []);
    DoFrame(W, D, s, open, OpsOfAll(kids), close);
    var rest := Kept(D, 0, kids);
    HeadersNone(framed);
    SerNone();
    var out := if rest == [] then framed else framed + SerTrees(rest);
    EmitFree(out, [], Header(0, END));
    HeadersNone(out);
    Regroup(log, Headers(p), Header(t.id, BEGIN), SerTrees(rest), Header(0, END));
  }

  /** The calls of trees put the kept trees on the wire, with the headers held back before them when there are any. */
  lemma {:induction false} RunTrees(W: WordSize, D: nat, ts: seq<Tree>, log: seq<byte>, p: seq<nat>)
    requires IdsOk(W, ts) && |p| <= D
    ensures DoAll(W, D, Sheet(log, None, p), OpsOfAll(ts)) == (Behind(log, p, Kept(D, |p|, ts)), OK)
    decreases ts
  {
    hide OpsOf, KeptOne, Headers, SerTrees, IdMax, Do;
    if ts != [] {
      var first := KeptOne(D, |p|, ts[0]);
      assert [ts[0]][1..] == [];
      RunTree(W, D, ts[0], log, p);
      DoAppend(W, D, Sheet(log, None, p), OpsOf(ts[0]), OpsOfAll(ts[1..]));
      if first == [] {
        RunTrees(W, D, ts[1..], log, p);
        assert first + Kept(D, |p|, ts[1..]) == Kept(D, |p|, ts[1..]);
      } else {
        var out, rest := log + Headers(p) + SerTrees(first), Kept(D, 0, ts[1..]);
        RunTrees(W, D, ts[1..], out, []);
        HeadersNone(out);
        SerAppend(first, rest);
        SerNone();
        assert first + [] == first;
        assert out + SerTrees(rest) == log + Headers(p) + (SerTrees(first) + SerTrees(rest));
      }
    }
  }

  // ---------------------------------------------------------------- the window

  /** No frame is begun with the window full: lazy frames nest at most D deep inside the last eager one. */
  predicate Fits(D: nat, h: nat, ts: seq<Tree>)
    decreases ts
  {
    ts == [] || (FitsOne(D, h, ts[0]) && Fits(D, h, ts[1..]))
  }

  predicate FitsOne(D: nat, h: nat, t: Tree)
    decreases t
  {
    match t
    case Item(_, _, _) => true
    case Frame(_, lazy, _, kids) => if lazy then h < D && Fits(D, h + 1, kids) else Fits(D, 0, kids)
  }

  lemma {:induction false} FitsLess(D: nat, h: nat, g: nat, ts: seq<Tree>)
    requires Fits(D, h, ts) && g <= h
    ensures Fits(D, g, ts)
    decreases ts
  {
    if ts != [] {
      match ts[0] {
        case Item(_, _, _) =>
        case Frame(_, lazy, _, kids) => if lazy { FitsLess(D, h + 1, g + 1, kids); }
      }
      FitsLess(D, h, g, ts[1..]);
    }
  }

  lemma {:induction false} KeptIsPruned(D: nat, h: nat, ts: seq<Tree>)
    requires Fits(D, h, ts)
    ensures Kept(D, h, ts) == Prune(ts)
    decreases ts
  {
    if ts != [] {
      match ts[0] {
        case Item(_, _, _) =>
        case Frame(_, lazy, _, kids) => KeptIsPruned(D, if lazy then h + 1 else 0, kids);
      }
      var first := KeptOne(D, h, ts[0]);
      if first != [] { FitsLess(D, h, 0, ts[1..]); }
      KeptIsPruned(D, if first == [] then h else 0, ts[1..]);
    }
  }

  lemma {:induction false} PruneAppend(a: seq<Tree>, b: seq<Tree>)
    ensures Prune(a + b) == Prune(a) + Prune(b)
    decreases |a|
  {
    hide PruneOne;
    if a == [] {
      assert a + b == b;
    } else {
      assert (a + b)[1..] == a[1..] + b;
      PruneAppend(a[1..], b);
    }
  }

  lemma {:induction false} KeptOnePrunes(D: nat, h: nat, t: Tree)
    ensures Prune(KeptOne(D, h, t)) == PruneOne(t)
    decreases t, 0
  {
    match t
    case Item(_, _, _) => assert Prune([t]) == PruneOne(t) + Prune([]);
    case Frame(id, lazy, keep, kids) =>
      var g := if lazy && h < D then h + 1 else 0;
      KeptPrunes(D, g, kids);
      var rest := Kept(D, g, kids);
      var f := Frame(id, lazy, keep, rest);
      assert [f][1..] == [];
      assert Prune([f]) == PruneOne(f) + Prune([]) == PruneOne(f);
  }

  /** What is written differs from the pruned tree by retained content-free lazy frames only. */
  lemma {:induction false} KeptPrunes(D: nat, h: nat, ts: seq<Tree>)
    ensures Prune(Kept(D, h, ts)) == Prune(ts)
    decreases ts
  {
    hide PruneOne, KeptOne;
    if ts != [] {
      var first := KeptOne(D, h, ts[0]);
      KeptOnePrunes(D, h, ts[0]);
      KeptPrunes(D, if first == [] then h else 0, ts[1..]);
      PruneAppend(first, Kept(D, if first == [] then h else 0, ts[1..]));
    }
  }

  function Height(ts: seq<Tree>): nat
    decreases ts
  {
    if ts == [] then 0 else Max(if ts[0].Frame? then 1 + Height(ts[0].kids) else 0, Height(ts[1..]))
  }

  lemma {:induction false} ShallowFits(D: nat, h: nat, ts: seq<Tree>)
    requires h + Height(ts) <= D
    ensures Fits(D, h, ts)
    decreases ts
  {
    if ts != [] {
      match ts[0] {
        case Item(_, _, _) =>
        case Frame(_, lazy, _, kids) => ShallowFits(D, if lazy then h + 1 else 0, kids);
      }
      ShallowFits(D, h, ts[1..]);
    }
  }

  // ---------------------------------------------------------------- the refinement

  predicate OpIdsOk(W: WordSize, ops: seq<Op>)
  {
    forall i :: 0 <= i < |ops| ==> (ops[i].Content? || ops[i].Open? || ops[i].OpenLazy? ==> ops[i].id <= IdMax(W))
  }

  lemma {:induction false} OpIdsOfTree(W: WordSize, ts: seq<Tree>)
    requires OpIdsOk(W, OpsOfAll(ts))
    ensures IdsOk(W, ts)
    decreases ts
  {
    hide IdMax;
    if ts != [] {
      var first, all := OpsOf(ts[0]), OpsOfAll(ts);
      OpIdsSplit(W, first, OpsOfAll(ts[1..]));
      OpIdsOfTree(W, ts[1..]);
      assert first[0] in first;
      if ts[0].Frame? {
        assert first == first[..1] + OpsOfAll(ts[0].kids) + first[|first| - 1..];
        OpIdsSplit(W, first[..1] + OpsOfAll(ts[0].kids), first[|first| - 1..]);
        OpIdsSplit(W, first[..1], OpsOfAll(ts[0].kids));
        OpIdsOfTree(W, ts[0].kids);
      }
    }
  }

  lemma OpIdsSplit(W: WordSize, a: seq<Op>, b: seq<Op>)
    requires OpIdsOk(W, a + b)
    ensures OpIdsOk(W, a) && OpIdsOk(W, b)
  {
    hide IdMax;
    forall i | 0 <= i < |a|
      ensures a[i].Content? || a[i].Open? || a[i].OpenLazy? ==> a[i].id <= IdMax(W)
    {
      assert a[i] == (a + b)[i];
    }
    forall i | 0 <= i < |b|
      ensures b[i].Content? || b[i].Open? || b[i].OpenLazy? ==> b[i].id <= IdMax(W)
    {
      assert b[i] == (a + b)[|a| + i];
    }
  }

  /**
   * Hold-back refines pruning: every balanced run of writer calls with valid ids stands for a tree; its bytes are
   * those of a tree that prunes to the same (so only content-free lazy frames may be left over), and those of the
   * pruned tree itself when lazy frames nest within the window.
   */
  lemma HoldBackIsPruning(W: WordSize, D: nat, ops: seq<Op>) returns (ts: seq<Tree>)
    requires Balanced(ops, 0) && OpIdsOk(W, ops)
    ensures OpsOfAll(ts) == ops
    ensures var (t, code) := DoAll(W, D, Sheet([], None, []), ops);
      && code == OK && t.pending == []
      && t.log == SerTrees(Kept(D, 0, ts)) && Prune(Kept(D, 0, ts)) == Prune(ts)
      && (Fits(D, 0, ts) ==> t.log == SerTrees(Prune(ts)))
      && (Height(ts) <= D ==> t.log == SerTrees(Prune(ts)))
  {
    hide DoAll, Kept, SerTrees, Prune, OpIdsOk, OpsOfAll;
    ts := BalancedIsTree(ops);
    OpIdsOfTree(W, ts);
    RunTrees(W, D, ts, [], []);
    KeptPrunes(D, 0, ts);
    SerNone();
    assert [] + Headers([]) + SerTrees(Kept(D, 0, ts)) == SerTrees(Kept(D, 0, ts));
    if Height(ts) <= D { ShallowFits(D, 0, ts); }
    if Fits(D, 0, ts) { KeptIsPruned(D, 0, ts); }
  }
}

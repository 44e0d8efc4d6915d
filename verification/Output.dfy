/**
 * What the encoder writes, over the one endless log of its output bytes: room, held-back sequence headers, and
 * the five operations every writer comes down to.
 */
module Output {
  import opened Bytes
  import opened Varint
  import opened Wire

  datatype Code = OK | ARGUMENT | FULL

  /**
   * log: the bytes written so far; room: how many more fit, None when a sink makes room as often as needed;
   * pending: ids of the open sequences whose headers are held back, outermost first.
   */
  datatype Sheet = Sheet(log: seq<byte>, room: Option<nat>, pending: seq<nat>)

  datatype Op = Content(id: nat, ty: nat, payload: seq<byte>) | Open(id: nat) | OpenLazy(id: nat) | Close | CloseKeep

  /** Bytes onto the log, as far as they fit. */
  function Append(s: Sheet, bs: seq<byte>): (Sheet, bool)
  {
    match s.room
    case None => (s.(log := s.log + bs), true)
    case Some(n) =>
      if |bs| <= n then (s.(log := s.log + bs, room := Some(n - |bs|)), true)
      else (s.(log := s.log + bs[..n], room := Some(0)), false)
  }

  /** The held-back headers, outermost first; those that do not fit whole stay held back. */
  function Commit(s: Sheet): (Sheet, bool)
    decreases |s.pending|
  {
    if s.pending == [] then (s, true)
    else
      var (t, ok) := Append(s, Header(s.pending[0], BEGIN));
      if ok then Commit(t.(pending := t.pending[1..])) else (t, false)
  }

  /** Committed headers, then bytes. */
  function Emit(s: Sheet, bs: seq<byte>): (Sheet, Code)
  {
    var (t, ok) := Commit(s);
    if !ok then (t, FULL) else var (u, fits) := Append(t, bs); (u, if fits then OK else FULL)
  }

  /** One operation; D is the number of headers that can be held back. */
  function Do(W: WordSize, D: nat, s: Sheet, op: Op): (Sheet, Code)
  {
    match op
    case Content(id, ty, payload) =>
      if id > IdMax(W) then (s, ARGUMENT) else Emit(s, Header(id, ty) + payload)
    case Open(id) =>
      if id <= IdMax(W) then Emit(s, Header(id, BEGIN))
      else var (t, ok) := Commit(s); (t, if ok then ARGUMENT else FULL)
    case OpenLazy(id) =>
      if id > IdMax(W) then (s, ARGUMENT)
      else if |s.pending| < D then (s.(pending := s.pending + [id]), OK)
      else Emit(s, Header(id, BEGIN))
    case Close =>
      if s.pending != [] then (s.(pending := s.pending[..|s.pending| - 1]), OK) else Emit(s, Header(0, END))
    case CloseKeep => Emit(s, Header(0, END))
  }

  /** The operation that writes a leaf field. */
  function FieldOp(f: Field): Op
    requires f.Leaf?
  {
    Content(f.id, TypeOf(f.value), SerValue(f.value))
  }

  /** A run of operations up to the first that fails. */
  function DoAll(W: WordSize, D: nat, s: Sheet, ops: seq<Op>): (Sheet, Code)
    decreases |ops|
  {
    if ops == [] then (s, OK)
    else
      var (t, code) := Do(W, D, s, ops[0]);
      if code == OK then DoAll(W, D, t, ops[1..]) else (t, code)
  }

  predicate HasId(op: Op)
  {
    op.Content? || op.Open? || op.OpenLazy?
  }

  /**
   * An id past the ceiling is refused by every call that takes one, and never reaches the wire: a field and a lazy
   * begin leave everything alone, a plain begin has put out the headers held back in front of it.
   */
  lemma {:induction false} BadIdsAreRefused(W: WordSize, D: nat, s: Sheet, op: Op)
    requires HasId(op)
    ensures var (t, code) := Do(W, D, s, op);
      && (op.id > IdMax(W) ==> code != OK)
      && (op.id > IdMax(W) && !op.Open? ==> t == s && code == ARGUMENT)
      && (op.id > IdMax(W) && op.Open? && s.room.None? ==> t == Sheet(s.log + Headers(s.pending), None, []) && code == ARGUMENT)
      && (op.id <= IdMax(W) && s.room.None? ==> code == OK)
  {
    hide Commit, IdMax, Header;
    if s.room.None? { CommitFree(s); }
  }

  /** With a sink a run succeeds iff every id in it is within the ceiling; without one it never does when one is not. */
  lemma {:induction false} RunsNeedGoodIds(W: WordSize, D: nat, s: Sheet, ops: seq<Op>)
    ensures var good := forall i :: 0 <= i < |ops| && HasId(ops[i]) ==> ops[i].id <= IdMax(W);
      && (DoAll(W, D, s, ops).1 == OK ==> good)
      && (s.room.None? ==> DoAll(W, D, s, ops).1 == if good then OK else ARGUMENT)
    decreases |ops|
  {
    hide Do, IdMax, Headers;
    if ops != [] {
      var (t, code) := Do(W, D, s, ops[0]);
      if HasId(ops[0]) { BadIdsAreRefused(W, D, s, ops[0]); }
      if s.room.None? {
        FreeStaysFree(W, D, s, ops[0]);
        if !HasId(ops[0]) { EndsSucceed(W, D, s, ops[0]); }
      }
      if code == OK {
        RunsNeedGoodIds(W, D, t, ops[1..]);
        assert forall i :: 0 <= i < |ops[1..]| ==> ops[1..][i] == ops[i + 1];
        assert forall i :: 0 < i < |ops| ==> ops[i] == ops[1..][i - 1];
      }
    }
  }

  lemma EndsSucceed(W: WordSize, D: nat, s: Sheet, op: Op)
    requires s.room.None? && !HasId(op)
    ensures Do(W, D, s, op).1 == OK
  {
    hide Commit, Header;
    CommitFree(s);
  }

  // ---------------------------------------------------------------- bytes

  lemma AppendTwice(s: Sheet, a: seq<byte>, b: seq<byte>)
    ensures Append(s, a + b) == if Append(s, a).1 then Append(Append(s, a).0, b) else Append(s, a)
  {
    if s.room.None? || |a| <= s.room.value {
      assert s.log + (a + b) == s.log + a + b;
      if s.room.Some? && |a + b| > s.room.value {
        assert (a + b)[..s.room.value] == a + b[..s.room.value - |a|];
        assert s.log + (a + b[..s.room.value - |a|]) == s.log + a + b[..s.room.value - |a|];
      }
    } else {
      assert (a + b)[..s.room.value] == a[..s.room.value];
    }
  }

  lemma AppendNothing(s: Sheet)
    ensures Append(s, []) == (s, true)
  {
    assert s.log + [] == s.log;
  }

  lemma EmitTwice(s: Sheet, a: seq<byte>, b: seq<byte>)
    ensures Emit(s, a + b)
      == if Emit(s, a).1 == OK then (Append(Emit(s, a).0, b).0, AsCode(Append(Emit(s, a).0, b).1)) else Emit(s, a)
  {
    hide Commit, Append;
    AppendTwice(Commit(s).0, a, b);
  }

  lemma {:induction false} DoAppend(W: WordSize, D: nat, s: Sheet, a: seq<Op>, b: seq<Op>)
    ensures DoAll(W, D, s, a + b) == if DoAll(W, D, s, a).1 == OK then DoAll(W, D, DoAll(W, D, s, a).0, b) else DoAll(W, D, s, a)
    decreases |a|
  {
    hide Do;
    if a == [] {
      assert a + b == b;
    } else {
      assert (a + b)[1..] == a[1..] + b;
      DoAppend(W, D, Do(W, D, s, a[0]).0, a[1..], b);
    }
  }

  /** The word of a header, a length or a subtype as the machine forms it: the shift drops what leaves W bits. */
  function TypeWord(W: WordSize, v: nat, ty: nat): nat
  {
    8 * v % Pow2(W) + ty
  }

  /** The word says what it should exactly when the shifted value fits the value type. */
  lemma {:induction false} TypeWordIsExact(W: WordSize, v: nat, ty: nat)
    ensures TypeWord(W, v, ty) == 8 * v + ty <==> 8 * v < Pow2(W)
  {
    hide Pow2;
    ModIsSame(8 * v, Pow2(W));
  }

  lemma ModIsSame(x: nat, m: nat)
    requires m > 0
    ensures x % m == x <==> x < m
  {
  }

  lemma {:induction false} IdsFit(W: WordSize, id: nat)
    requires id <= IdMax(W)
    ensures 8 * id < Pow2(W)
  {
    SpanIsPow2(W / 8);
    assert 8 * (W / 8) == W;
    assert Span(4) == 0x1_0000_0000 by { assert Span(2) == 0x1_0000; }
    if W == 64 { assert Span(8) >= Span(4) by { assert Span(6) >= Span(4); } }
  }

  // ---------------------------------------------------------------- the same bytes whatever the room

  /** s with unlimited room. */
  function Unbounded(s: Sheet): Sheet
  {
    s.(room := None)
  }

  /** How the bounded run (t, ok) relates to the unbounded one (u, sound) from s: the same, or cut off where the room ends. */
  ghost predicate CutOff(s: Sheet, t: Sheet, code: Code, u: Sheet, free: Code)
    requires s.room.Some?
  {
    && s.log <= u.log
    && if |u.log| - |s.log| <= s.room.value then code == free && t == u.(room := Some(s.room.value - (|u.log| - |s.log|)))
       else code == FULL && t.room == Some(0) && t.log == u.log[..|s.log| + s.room.value]
  }

  function AsCode(ok: bool): Code { if ok then OK else FULL }

  lemma AppendCutOff(s: Sheet, bs: seq<byte>)
    requires s.room.Some?
    ensures CutOff(s, Append(s, bs).0, AsCode(Append(s, bs).1), Append(Unbounded(s), bs).0, OK)
  {
    var n := s.room.value;
    if |bs| > n { assert (s.log + bs)[..|s.log| + n] == s.log + bs[..n]; }
  }

  /** Unlimited runs only grow the log. */
  lemma {:induction false} CommitFree(s: Sheet)
    requires s.room.None?
    ensures Commit(s) == (Sheet(s.log + Headers(s.pending), None, []), true)
    decreases |s.pending|
  {
    hide Header;
    if s.pending == [] {
      assert s.log + [] == s.log;
    } else {
      var h := Header(s.pending[0], BEGIN);
      CommitFree(Sheet(s.log + h, None, s.pending[1..]));
      assert s.log + h + Headers(s.pending[1..]) == s.log + (h + Headers(s.pending[1..]));
    }
  }

  /** The headers of a held-back run. */
  function Headers(ids: seq<nat>): seq<byte>
  {
    if ids == [] then [] else Header(ids[0], BEGIN) + Headers(ids[1..])
  }

  /** The cut falls inside the first part, or the second part goes on from it. */
  lemma CutOffChain(s: Sheet, t: Sheet, u: Sheet, t2: Sheet, code2: Code, u2: Sheet, free2: Code)
    requires s.room.Some? && CutOff(s, t, OK, u, OK) && CutOff(t, t2, code2, u2, free2)
    ensures CutOff(s, t2, code2, u2, free2)
  {
    if |u2.log| - |s.log| > s.room.value {
      assert u2.log[..|t.log| + t.room.value] == u2.log[..|s.log| + s.room.value];
    }
  }

  lemma CutOffEarly(s: Sheet, t: Sheet, u: Sheet, u2: Sheet, free2: Code)
    requires s.room.Some? && CutOff(s, t, FULL, u, OK) && u.log <= u2.log
    ensures CutOff(s, t, FULL, u2, free2)
  {
    assert u2.log[..|s.log| + s.room.value] == u.log[..|s.log| + s.room.value];
  }

  lemma {:induction false} CommitCutOff(s: Sheet)
    requires s.room.Some?
    ensures CutOff(s, Commit(s).0, AsCode(Commit(s).1), Commit(Unbounded(s)).0, OK)
    decreases |s.pending|
  {
    hide Header, CutOff;
    if s.pending == [] {
      SameCutOff(s, OK);
    } else {
      var h := Header(s.pending[0], BEGIN);
      var (t, ok) := Append(s, h);
      var u := Append(Unbounded(s), h).0;
      AppendCutOff(s, h);
      var s1, u1 := t.(pending := t.pending[1..]), u.(pending := u.pending[1..]);
      if ok {
        AppendFits(s, h);
        CommitCutOff(s1);
        PendingCutOff(s, t, u, s.pending[1..]);
        CutOffChain(s, s1, u1, Commit(s1).0, AsCode(Commit(s1).1), Commit(Unbounded(s1)).0, OK);
      } else {
        CommitFree(u1);
        CutOffEarly(s, t, u, Commit(u1).0, OK);
      }
    }
  }

  lemma SameCutOff(s: Sheet, code: Code)
    requires s.room.Some?
    ensures CutOff(s, s, code, Unbounded(s), code)
  {
  }

  lemma AppendFits(s: Sheet, bs: seq<byte>)
    requires s.room.Some? && Append(s, bs).1
    ensures Unbounded(Append(s, bs).0) == Append(Unbounded(s), bs).0
  {
  }

  lemma PendingCutOff(s: Sheet, t: Sheet, u: Sheet, ids: seq<nat>)
    requires s.room.Some? && CutOff(s, t, OK, u, OK)
    ensures CutOff(s, t.(pending := ids), OK, u.(pending := ids), OK)
  {
  }

  lemma EmitCutOff(s: Sheet, bs: seq<byte>)
    requires s.room.Some?
    ensures CutOff(s, Emit(s, bs).0, Emit(s, bs).1, Emit(Unbounded(s), bs).0, OK)
    ensures Emit(Unbounded(s), bs) == (Sheet(s.log + Headers(s.pending) + bs, None, []), OK)
  {
    hide Commit, CutOff;
    CommitCutOff(s);
    CommitFree(Unbounded(s));
    var (t, ok) := Commit(s);
    var u := Commit(Unbounded(s)).0;
    if ok {
      CutOffFits(s, t, u);
      AppendCutOff(t, bs);
      CutOffChain(s, t, u, Append(t, bs).0, AsCode(Append(t, bs).1), Append(Unbounded(t), bs).0, OK);
    } else {
      CutOffEarly(s, t, u, Append(u, bs).0, OK);
    }
  }

  lemma CutOffFits(s: Sheet, t: Sheet, u: Sheet)
    requires s.room.Some? && CutOff(s, t, OK, u, OK) && u.room.None?
    ensures Unbounded(t) == u && t.room.Some?
  {
  }

  /** One operation without a sink does what it does with one, or fails exactly at the end of the room. */
  lemma DoCutOff(W: WordSize, D: nat, s: Sheet, op: Op)
    requires s.room.Some?
    ensures CutOff(s, Do(W, D, s, op).0, Do(W, D, s, op).1, Do(W, D, Unbounded(s), op).0, Do(W, D, Unbounded(s), op).1)
  {
    hide Emit, Commit, Header, CutOff;
    match op
    case Content(id, ty, payload) =>
      if id > IdMax(W) { SameCutOff(s, ARGUMENT); } else { EmitCutOff(s, Header(id, ty) + payload); }
    case Open(id) =>
      if id <= IdMax(W) {
        EmitCutOff(s, Header(id, BEGIN));
      } else {
        CommitCutOff(s);
        CommitFree(Unbounded(s));
        RefusedCutOff(s, Commit(s).0, Commit(s).1, Commit(Unbounded(s)).0);
      }
    case OpenLazy(id) =>
      if id > IdMax(W) { SameCutOff(s, ARGUMENT); }
      else if |s.pending| < D { HeldCutOff(s, s.pending + [id]); }
      else { EmitCutOff(s, Header(id, BEGIN)); }
    case Close =>
      if s.pending != [] { HeldCutOff(s, s.pending[..|s.pending| - 1]); } else { EmitCutOff(s, Header(0, END)); }
    case CloseKeep => EmitCutOff(s, Header(0, END));
  }

  lemma RefusedCutOff(s: Sheet, t: Sheet, ok: bool, u: Sheet)
    requires s.room.Some? && CutOff(s, t, AsCode(ok), u, OK)
    ensures CutOff(s, t, if ok then ARGUMENT else FULL, u, ARGUMENT)
  {
  }

  lemma HeldCutOff(s: Sheet, ids: seq<nat>)
    requires s.room.Some?
    ensures CutOff(s, s.(pending := ids), OK, Unbounded(s).(pending := ids), OK)
  {
  }

  lemma FreeStaysFree(W: WordSize, D: nat, s: Sheet, op: Op)
    requires s.room.None?
    ensures Do(W, D, s, op).0.room.None? && s.log <= Do(W, D, s, op).0.log && Do(W, D, s, op).1 != FULL
  {
    hide Commit, Header;
    CommitFree(s);
  }

  lemma {:induction false} FreeRun(W: WordSize, D: nat, s: Sheet, ops: seq<Op>)
    requires s.room.None?
    ensures DoAll(W, D, s, ops).0.room.None? && s.log <= DoAll(W, D, s, ops).0.log && DoAll(W, D, s, ops).1 != FULL
    decreases |ops|
  {
    hide Do;
    if ops != [] {
      FreeStaysFree(W, D, s, ops[0]);
      if Do(W, D, s, ops[0]).1 == OK { FreeRun(W, D, Do(W, D, s, ops[0]).0, ops[1..]); }
    }
  }

  /**
   * Without a sink a run of operations succeeds iff its encoding fits the room, and then writes that encoding;
   * otherwise it fails with "buffer full" and has written exactly the part of it that fits.
   */
  lemma {:induction false} RunCutOff(W: WordSize, D: nat, s: Sheet, ops: seq<Op>)
    requires s.room.Some?
    ensures CutOff(s, DoAll(W, D, s, ops).0, DoAll(W, D, s, ops).1, DoAll(W, D, Unbounded(s), ops).0, DoAll(W, D, Unbounded(s), ops).1)
    decreases |ops|
  {
    hide Do, CutOff;
    if ops == [] {
      SameCutOff(s, OK);
    } else {
      DoCutOff(W, D, s, ops[0]);
      FreeStaysFree(W, D, Unbounded(s), ops[0]);
      var (t, code) := Do(W, D, s, ops[0]);
      var (u, free) := Do(W, D, Unbounded(s), ops[0]);
      CutOffOutcome(s, t, code, u, free);
      if free == OK {
        FreeRun(W, D, u, ops[1..]);
        var u2, free2 := DoAll(W, D, u, ops[1..]).0, DoAll(W, D, u, ops[1..]).1;
        if code == OK {
          CutOffFits(s, t, u);
          RunCutOff(W, D, t, ops[1..]);
          CutOffChain(s, t, u, DoAll(W, D, t, ops[1..]).0, DoAll(W, D, t, ops[1..]).1, u2, free2);
        } else {
          CutOffEarly(s, t, u, u2, free2);
        }
      }
    }
  }

  lemma CutOffOutcome(s: Sheet, t: Sheet, code: Code, u: Sheet, free: Code)
    requires s.room.Some? && CutOff(s, t, code, u, free)
    ensures code == free || code == FULL
  {
  }

  /**
   * A partial commit keeps exactly the headers that are not on the wire whole: of a run that does not fit, the
   * first i are written, the log ends inside the next, and that one and all inside it stay held back.
   */
  lemma {:induction false} CommitKeepsSuffix(s: Sheet) returns (i: nat)
    ensures i <= |s.pending| && Commit(s).0.pending == s.pending[i..]
    ensures Commit(s).1 <==> i == |s.pending|
    ensures Commit(s).1 <==> s.room.None? || |Headers(s.pending)| <= s.room.value
    ensures i == |s.pending| ==> Commit(s).0.log == s.log + Headers(s.pending)
    ensures i < |s.pending| ==> HeadersReach(s, Commit(s).0, i)
    decreases |s.pending|
  {
    hide Header, HeadersReach;
    if s.pending == [] {
      assert s.log + [] == s.log;
      i := 0;
    } else {
      var h := Header(s.pending[0], BEGIN);
      var (t, ok) := Append(s, h);
      if ok {
        var s1 := t.(pending := s.pending[1..]);
        i := CommitKeepsSuffix(s1);
        assert s.log + h + Headers(s.pending[1..]) == s.log + (h + Headers(s.pending[1..]));
        assert s.pending[i + 1..] == s1.pending[i..];
        if i < |s1.pending| { ReachLater(s, s1, Commit(s1).0, i); }
        i := i + 1;
      } else {
        i := 0;
        ReachFirst(s, t);
      }
    }
  }

  lemma ReachLater(s: Sheet, s1: Sheet, t: Sheet, i: nat)
    requires s.pending != [] && s1.pending == s.pending[1..] && s1.log == s.log + Header(s.pending[0], BEGIN)
    requires i < |s1.pending| && HeadersReach(s1, t, i)
    ensures HeadersReach(s, t, i + 1)
  {
    hide Header;
    var h := Header(s.pending[0], BEGIN);
    assert s.pending[..i + 1] == [s.pending[0]] + s1.pending[..i];
    assert s.pending[..i + 2] == [s.pending[0]] + s1.pending[..i + 1];
    HeadersCons(s.pending[0], s1.pending[..i]);
    HeadersCons(s.pending[0], s1.pending[..i + 1]);
    assert s.log + h + Headers(s1.pending[..i]) == s.log + (h + Headers(s1.pending[..i]));
    assert s.log + h + Headers(s1.pending[..i + 1]) == s.log + (h + Headers(s1.pending[..i + 1]));
  }

  lemma ReachFirst(s: Sheet, t: Sheet)
    requires s.pending != [] && Append(s, Header(s.pending[0], BEGIN)) == (t, false)
    ensures HeadersReach(s, t, 0)
  {
    hide Header;
    var h := Header(s.pending[0], BEGIN);
    assert s.pending[..1] == [s.pending[0]] + [];
    HeadersCons(s.pending[0], []);
    assert h + [] == h;
    assert s.log + [] == s.log;
    var n := s.room.value;
    assert (s.log + h)[|s.log| + n] == h[n];
    assert t.log == (s.log + h)[..|s.log| + n];
  }

  lemma {:induction false} HeadersCons(id: nat, ids: seq<nat>)
    ensures Headers([id] + ids) == Header(id, BEGIN) + Headers(ids)
  {
    assert ([id] + ids)[1..] == ids;
  }

  /** The log of t ends inside the header of s.pending[i], behind the whole headers before it. */
  ghost predicate HeadersReach(s: Sheet, t: Sheet, i: nat)
    requires i < |s.pending|
  {
    s.log + Headers(s.pending[..i]) <= t.log < s.log + Headers(s.pending[..i + 1])
  }
}

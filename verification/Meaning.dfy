/**
 * What a message means to a callback, field by field over the parse tree, and the proof that the
 * byte machine computes exactly that on exactly the byte strings the grammar accepts.
 */
module Meaning {
  import opened Bytes
  import opened Varint
  import opened Wire
  import opened Utf8
  import opened Decoder

  // ---------------------------------------------------------------- meaning of a field

  /** Bytes that land in a destination. */
  datatype Write = Write(pos: nat, bytes: seq<byte>)

  /** The elements of an integer array as they lie in memory. */
  function Packed(num: Num, width: Width, words: seq<nat>): (bs: seq<byte>)
    ensures |bs| == width * |words|
  {
    if words == [] then [] else ScalarBytes(num, width, words[0]).0 + Packed(num, width, words[1..])
  }

  predicate AllFit(num: Num, width: Width, words: seq<nat>)
  {
    forall i :: 0 <= i < |words| ==> ScalarBytes(num, width, words[i]).1
  }

  /** Everything a settled read leaves in its destination for a value, in order; None when the value is refused. */
  function Render<D, S>(strict: bool, a: Action<D, S>, v: Value): Option<seq<Write>>
  {
    match (a, v)
    case (ReadInt(_, num, w), Int(_, x)) =>
      if ScalarBytes(num, w, x).1 then Some([Write(0, ScalarBytes(num, w, x).0)]) else None
    case (ReadFloat(_, _), Fixlen(_, p)) => Some([Write(0, p)])
    case (ReadBytes(_, cap, text, term), Fixlen(_, p)) =>
      if |p| + (if term then 1 else 0) > cap || (strict && text && !ValidText(p)) then None
      else Some((if term then [Write(|p|, [0])] else []) + [Write(0, p)])
    case (ReadInts(_, cap, num, w), Ints(_, words)) =>
      if |words| > cap || !AllFit(num, w, words) then None
      else Some([Write(|words| * w, Zeros((cap - |words|) * w)), Write(0, Packed(num, w, words))])
    case (ReadFloats(_, cap, _), Floats(fp64, p)) =>
      if |p| / FloatWidth(fp64) > cap then None
      else
        var len := FloatWidth(fp64);
        var n := |p| / len;
        Some([Write(n * len, Zeros((cap - n) * len)), Write(0, p)])
    case _ => None
  }

  function StoreWrites<U, D, S>(env: Env<U, D, S>, u: U, d: D, ws: seq<Write>): U
  {
    if ws == [] then u else StoreWrites(env, StoreAll(env, u, d, ws[0].pos, ws[0].bytes), d, ws[1..])
  }

  /** The application side of a run: its state and the callbacks it has seen. */
  datatype Effect<+U> = Effect(user: U, calls: seq<Call>)

  function MeanLeaf<U, D, S>(env: Env<U, D, S>, e: Effect<U>, sc: S, id: nat, v: Value): Option<Effect<U>>
  {
    var c := Call(id, SizeOf(v), CountOf(v), OptOf(v));
    var r := env.call(e.user, sc, c);
    var a := Settle(r.act, c.opt);
    if r.condemn then None
    else if a.Decline? || a.ReadSequence? then Some(Effect(r.user, e.calls + [c]))
    else
      match Render(env.strict, a, v)
      case None => None
      case Some(ws) => Some(Effect(StoreWrites(env, r.user, a.dst, ws), e.calls + [c]))
  }

  /** A sequence the callback does not open is skipped whole; one it opens is delivered to the scope it named. */
  function MeanField<U, D, S>(env: Env<U, D, S>, e: Effect<U>, sc: S, f: Field): Option<Effect<U>>
    decreases f
  {
    match f
    case Leaf(id, v) => MeanLeaf(env, e, sc, id, v)
    case Group(id, body) =>
      var c := Call(id, 0, 0, BEGIN);
      var r := env.call(e.user, sc, c);
      var a := Settle(r.act, BEGIN);
      if r.condemn then None
      else if a.ReadSequence? then MeanFields(env, Effect(r.user, e.calls + [c]), a.scope, body)
      else Some(Effect(r.user, e.calls + [c]))
  }

  function MeanFields<U, D, S>(env: Env<U, D, S>, e: Effect<U>, sc: S, fs: seq<Field>): Option<Effect<U>>
    decreases fs
  {
    if fs == [] then Some(e)
    else
      match MeanField(env, e, sc, fs[0])
      case None => None
      case Some(e1) => MeanFields(env, e1, sc, fs[1..])
  }

  // ---------------------------------------------------------------- refusal is absorbing

  lemma StepKeepsRefusal<U, D, S>(env: Env<U, D, S>, s: State<U, D, S>, b: byte)
    requires !Good(s)
    ensures !Good(StepByte(env, s, b))
  {
  }

  lemma {:induction false} RefusalStays<U, D, S>(env: Env<U, D, S>, s: State<U, D, S>, bs: seq<byte>)
    requires !Good(s)
    ensures !Good(RunBytes(env, s, bs))
    decreases |bs|
  {
    if bs != [] {
      StepKeepsRefusal(env, s, bs[0]);
      RefusalStays(env, StepByte(env, s, bs[0]), bs[1..]);
    }
  }

  // ---------------------------------------------------------------- varints

  lemma {:induction false} RunAccumulates<U, D, S>(env: Env<U, D, S>, s: State<U, D, S>, b: seq<byte>)
    requires s.Live? && s.scopes != [] && InVarint(s.ctl)
    ensures match Accumulate(env.W, s.acc, b)
      case Read(v, n) => 1 <= n <= |b| && RunBytes(env, s, b) == RunBytes(env, OnVarint(env, s.(acc := ZERO), v), b[n..])
      case Short => exists a :: RunBytes(env, s, b) == s.(acc := a) && (b != [] ==> a.shift > 0) && (b == [] ==> a == s.acc)
      case Bad => RunBytes(env, s, b) == Reject(s)
    decreases |b|
  {
    hide OnVarint;
    if b == [] {
      assert RunBytes(env, s, b) == s.(acc := s.acc);
    } else {
      match Step(env.W, s.acc, b[0])
      case Overflow =>
        DeadStays(env, Reject(s), b[1..]);
      case Done(v) =>
      case More(a) =>
        RunAccumulates(env, s.(acc := a), b[1..]);
        assert a.shift > 0;
        var r := Accumulate(env.W, a, b[1..]);
        if r.Read? {
          assert b[1..][r.len..] == b[r.len + 1..];
        }
    }
  }

  /** What a run does from a state that waits for a varint. */
  lemma {:induction false} RunVarint<U, D, S>(env: Env<U, D, S>, s: State<U, D, S>, b: seq<byte>)
    requires s.Live? && s.scopes != [] && InVarint(s.ctl) && s.acc == ZERO
    ensures match ParseVarint(env.W, b)
      case Parsed(v, rest) => RunBytes(env, s, b) == RunBytes(env, OnVarint(env, s, v), rest)
      case Truncated =>
        && Quiet(s, RunBytes(env, s, b))
        && (b != [] || !s.ctl.Idle? ==> !AtBoundary(RunBytes(env, s, b)))
      case Malformed => RunBytes(env, s, b).Dead?
  {
    hide OnVarint;
    RunAccumulates(env, s, b);
    AccumulatorIsExact(env.W, b);
    assert s.(acc := ZERO) == s;
  }

  /** s and t are both live, and t is condemned just when s is. */
  predicate Quiet<U, D, S>(s: State<U, D, S>, t: State<U, D, S>)
  {
    s.Live? && t.Live? && t.condemned == s.condemned
  }

  /** What a run that stopped inside a value looks like: not a message boundary, and quiet if the value was skipped. */
  predicate Stalled<U, D, S>(s: State<U, D, S>, t: State<U, D, S>, skipped: bool)
  {
    !(Good(t) && AtBoundary(t)) && (skipped ==> Quiet(s, t))
  }

  // ---------------------------------------------------------------- elements and payloads

  /** The state once the element words have arrived. */
  function AfterWords<U, D, S>(env: Env<U, D, S>, s: State<U, D, S>, words: seq<nat>): State<U, D, S>
    requires s.Live? && s.ctl.Scalars?
  {
    var c := s.ctl;
    s.(ctl := Idle,
       user := if c.to.At? then StoreAll(env, s.user, c.to.dst, c.to.pos, Packed(c.num, c.width, words)) else s.user)
  }

  lemma {:induction false} RunWords<U, D, S>(env: Env<U, D, S>, s: State<U, D, S>, b: seq<byte>)
    requires s.Live? && s.scopes != [] && s.acc == ZERO
    requires s.ctl.Scalars? && s.ctl.left >= 1 && (s.ctl.list || s.ctl.left == 1)
    ensures var t := RunBytes(env, s, b);
      match ParseWords(env.W, s.ctl.left, b)
      case Parsed(words, rest) =>
        if s.ctl.to.At? && !AllFit(s.ctl.num, s.ctl.width, words) then !Good(t)
        else t == RunBytes(env, AfterWords(env, s, words), rest)
      case Truncated => Stalled(s, t, s.ctl.to.Skip?)
      case Malformed => !Good(t)
    decreases s.ctl.left
  {
    hide ParseVarint, ScalarBytes, OnVarint, AfterWords, Packed;
    RunVarint(env, s, b);
    var c := s.ctl;
    match ParseVarint(env.W, b)
    case Truncated =>
    case Malformed =>
    case Parsed(word, b1) =>
      var r := ParseWords(env.W, c.left - 1, b1);
      if r.Parsed? {
        FitMore(c.num, c.width, word, r.tree);
      }
      if c.to.At? && !ScalarBytes(c.num, c.width, word).1 {
        MisfitRejects(env, s, word);
        DeadStays(env, OnVarint(env, s, word), b1);
      } else if c.left == 1 {
        LastWord(env, s, word);
        assert [word] + [] == [word];
      } else {
        MoreWords(env, s, word);
        var s1 := OnVarint(env, s, word);
        RunWords(env, s1, b1);
        if r.Parsed? {
          MoreWordsAfter(env, s, word, r.tree);
        }
      }
  }

  lemma MisfitRejects<U, D, S>(env: Env<U, D, S>, s: State<U, D, S>, word: nat)
    requires s.Live? && s.scopes != [] && s.ctl.Scalars?
    requires s.ctl.to.At? && !ScalarBytes(s.ctl.num, s.ctl.width, word).1
    ensures OnVarint(env, s, word).Dead?
  {
  }

  lemma LastWord<U, D, S>(env: Env<U, D, S>, s: State<U, D, S>, word: nat)
    requires s.Live? && s.scopes != [] && s.ctl.Scalars? && s.ctl.left == 1
    requires s.ctl.to.At? ==> ScalarBytes(s.ctl.num, s.ctl.width, word).1
    ensures OnVarint(env, s, word) == AfterWords(env, s, [word])
  {
    hide ScalarBytes;
    var one := ScalarBytes(s.ctl.num, s.ctl.width, word).0;
    assert Packed(s.ctl.num, s.ctl.width, [word]) == one + [];
    assert one + [] == one;
  }

  lemma {:induction false} MoreWords<U, D, S>(env: Env<U, D, S>, s: State<U, D, S>, word: nat)
    requires s.Live? && s.scopes != [] && s.ctl.Scalars? && s.ctl.left > 1 && s.ctl.list
    requires s.ctl.to.At? ==> ScalarBytes(s.ctl.num, s.ctl.width, word).1
    ensures var c, s1 := s.ctl, OnVarint(env, s, word);
      && s1.Live? && s1 == s.(user := s1.user, ctl := s1.ctl)
      && s1.ctl == Scalars(c.num, Advance(c.to, c.width), c.width, true, c.left - 1)
      && s1.user == if c.to.At? then StoreAll(env, s.user, c.to.dst, c.to.pos, ScalarBytes(c.num, c.width, word).0) else s.user
  {
    hide ScalarBytes, StoreAll;
  }

  lemma MoreWordsAfter<U, D, S>(env: Env<U, D, S>, s: State<U, D, S>, word: nat, words: seq<nat>)
    requires s.Live? && s.scopes != [] && s.ctl.Scalars? && s.ctl.left > 1 && s.ctl.list
    requires s.ctl.to.At? ==> ScalarBytes(s.ctl.num, s.ctl.width, word).1
    ensures var s1 := OnVarint(env, s, word);
      s1.Live? && s1.ctl.Scalars? && AfterWords(env, s1, words) == AfterWords(env, s, [word] + words)
  {
    hide ScalarBytes, StoreAll, OnVarint;
    MoreWords(env, s, word);
    var c := s.ctl;
    var one := ScalarBytes(c.num, c.width, word).0;
    assert ([word] + words)[1..] == words;
    assert Packed(c.num, c.width, [word] + words) == one + Packed(c.num, c.width, words);
    if c.to.At? {
      StoreAppend(env, s.user, c.to.dst, c.to.pos, one, Packed(c.num, c.width, words));
    }
  }

  lemma FitMore(num: Num, width: Width, word: nat, words: seq<nat>)
    ensures AllFit(num, width, [word] + words) <==> ScalarBytes(num, width, word).1 && AllFit(num, width, words)
  {
    hide ScalarBytes;
    var all := [word] + words;
    assert all[0] == word;
    if AllFit(num, width, all) {
      forall i | 0 <= i < |words| ensures ScalarBytes(num, width, words[i]).1 { assert all[i + 1] == words[i]; }
    }
  }

  lemma {:induction false} StoreOne<U, D, S>(env: Env<U, D, S>, u: U, d: D, pos: nat, b: byte)
    ensures StoreAll(env, u, d, pos, [b]) == env.store(u, d, pos, b)
  {
    var u1 := env.store(u, d, pos, b);
    assert [b][1..] == [];
    assert StoreAll(env, u1, d, pos + 1, []) == u1;
  }

  /** The state once a payload has arrived. */
  function AfterPayload<U, D, S>(env: Env<U, D, S>, s: State<U, D, S>, to: Target<D>, p: seq<byte>): State<U, D, S>
    requires s.Live?
  {
    s.(ctl := Idle, user := if to.At? then StoreAll(env, s.user, to.dst, to.pos, p) else s.user)
  }

  lemma {:induction false} RunFloats<U, D, S>(env: Env<U, D, S>, s: State<U, D, S>, b: seq<byte>, total: nat)
    requires s.Live? && s.scopes != [] && s.ctl.FixlenVal?
    requires s.ctl.rem >= 1 && s.ctl.elem >= 1 && s.ctl.left >= 1
    requires total == s.ctl.rem + (s.ctl.left - 1) * s.ctl.elem
    ensures var t := RunBytes(env, s, b);
      if |b| < total then Stalled(s, t, true)
      else t == RunBytes(env, AfterPayload(env, s, s.ctl.to, b[..total]), b[total..])
    decreases |b|
  {
    var c := s.ctl;
    assert (c.left - 1) * c.elem >= 0;
    if b != [] {
      var s1 := StepByte(env, s, b[0]);
      if total == 1 {
        assert c.left == 1 by { if c.left > 1 { MulLess(1, c.left - 1, c.elem); } }
        assert b[..1] == [b[0]];
        if c.to.At? { StoreOne(env, s.user, c.to.dst, c.to.pos, b[0]); }
      } else {
        if c.rem == 1 {
          assert c.left > 1;
          assert (c.left - 1) * c.elem == c.elem + (c.left - 2) * c.elem;
        }
        RunFloats(env, s1, b[1..], total - 1);
        if |b| >= total {
          assert b[..total] == [b[0]] + b[1..][..total - 1];
          assert b[..total][1..] == b[1..][..total - 1];
        }
      }
    }
  }

  lemma {:induction false} RunRaw<U, D, S>(env: Env<U, D, S>, s: State<U, D, S>, b: seq<byte>)
    requires s.Live? && s.scopes != [] && s.ctl.FixlenRaw? && s.ctl.rem >= 1
    ensures var t, n := RunBytes(env, s, b), s.ctl.rem;
      if |b| < n then Stalled(s, t, true)
      else if s.ctl.text.Some? && !ValidText(s.ctl.text.value + b[..n]) then t.Dead?
      else t == RunBytes(env, AfterPayload(env, s, s.ctl.to, b[..n]), b[n..])
    decreases |b|
  {
    hide ValidText;
    var c := s.ctl;
    if b != [] {
      var s1 := StepByte(env, s, b[0]);
      if c.rem == 1 {
        assert b[..1] == [b[0]];
        if c.to.At? { StoreOne(env, s.user, c.to.dst, c.to.pos, b[0]); }
        if s1.Dead? { DeadStays(env, s1, b[1..]); }
      } else {
        RunRaw(env, s1, b[1..]);
        if |b| >= c.rem {
          assert b[..c.rem] == [b[0]] + b[1..][..c.rem - 1];
          assert b[..c.rem][1..] == b[1..][..c.rem - 1];
          if c.text.Some? {
            assert (c.text.value + [b[0]]) + b[1..][..c.rem - 1] == c.text.value + b[..c.rem];
          }
        }
      }
    }
  }

  // ---------------------------------------------------------------- leaf fields

  /** The decoder between two fields. */
  function Place<U, D, S>(e: Effect<U>, scopes: seq<S>, skip: nat): State<U, D, S>
  {
    Live(e.user, e.calls, scopes, skip, Idle, ZERO, false)
  }

  /** ... and inside a field. */
  function Within<U, D, S>(e: Effect<U>, scopes: seq<S>, skip: nat, ctl: Control<D>): State<U, D, S>
  {
    Live(e.user, e.calls, scopes, skip, ctl, ZERO, false)
  }

  /** A callback that never condemns and reads nothing but sequences. */
  ghost predicate Gentle<U(!new), D, S(!new)>(env: Env<U, D, S>)
  {
    forall u: U, sc: S, c: Call ::
      var r := env.call(u, sc, c); !r.condemn && (r.act.Decline? || r.act.ReadSequence?)
  }

  /** Inside a skipped sequence a leaf means nothing. */
  function LeafEffect<U, D, S>(env: Env<U, D, S>, e: Effect<U>, scopes: seq<S>, skip: nat, id: nat, v: Value): Option<Effect<U>>
    requires scopes != []
  {
    if skip > 0 then Some(e) else MeanLeaf(env, e, scopes[|scopes| - 1], id, v)
  }

  /** From state t, entered by a leaf header, bytes b do what the value they parse to means. */
  ghost predicate LeafRuns<U(!new), D, S(!new)>(
    env: Env<U, D, S>, e: Effect<U>, scopes: seq<S>, skip: nat, id: nat, t: State<U, D, S>, p: Parse<Value>, b: seq<byte>)
    requires scopes != []
  {
    var r := RunBytes(env, t, b);
    match p
    case Parsed(v, rest) =>
      (match LeafEffect(env, e, scopes, skip, id, v)
       case Some(e1) => r == RunBytes(env, Place(e1, scopes, skip), rest)
       case None => !Good(r))
    case Truncated => Stalled(Place<U, D, S>(e, scopes, skip), r, skip > 0 || Gentle(env))
    case Malformed => !Good(r)
  }

  /** The callback's answer to a leaf field at the bottom of the chain. */
  function Answer<U, D, S>(env: Env<U, D, S>, e: Effect<U>, scopes: seq<S>, c: Call): Reply<U, D, S>
    requires scopes != []
  {
    var r := env.call(e.user, scopes[|scopes| - 1], c);
    r.(act := Settle(r.act, c.opt))
  }

  /** t is s after the callback for c, apart from the control state. */
  ghost predicate Asked<U, D, S>(env: Env<U, D, S>, e: Effect<U>, scopes: seq<S>, skip: nat, c: Call, t: State<U, D, S>)
    requires scopes != []
  {
    && t.Live? && t.scopes == scopes && t.skip == skip && t.acc == ZERO
    && (skip > 0 ==> t.user == e.user && t.calls == e.calls && !t.condemned)
    && (skip == 0 ==>
          var r := Answer(env, e, scopes, c); t.user == r.user && t.calls == e.calls + [c] && t.condemned == r.condemn)
  }

  lemma IntHeader<U, D, S>(env: Env<U, D, S>, e: Effect<U>, scopes: seq<S>, skip: nat, id: nat, ty: nat)
    requires scopes != [] && id <= IdMax(env.W) && (ty == UNSIGNED || ty == SIGNED)
    ensures var c, t := Call(id, 0, 0, ty), OnHeader(env, Place(e, scopes, skip), 8 * id + ty);
      && Asked(env, e, scopes, skip, c, t)
      && t.ctl.Scalars? && t.ctl.left == 1 && !t.ctl.list
      && (skip > 0 ==> t.ctl.to.Skip?)
      && (skip == 0 ==>
            match Answer(env, e, scopes, c).act
            case ReadInt(d, num, w) => t.ctl == Scalars(num, At(d, 0), w, false, 1)
            case _ => t.ctl.to.Skip?)
  {
  }

  lemma IntRender<D, S>(strict: bool, a: Action<D, S>, signed: bool, x: nat)
    requires a.ReadInt?
    ensures Render(strict, a, Int(signed, x))
      == if AllFit(a.num, a.width, [x]) then Some([Write(0, Packed(a.num, a.width, [x]))]) else None
  {
    hide ScalarBytes;
    var one := ScalarBytes(a.num, a.width, x).0;
    assert Packed(a.num, a.width, [x]) == one + [];
    assert one + [] == one;
    assert [x][0] == x;
  }

  lemma {:induction false} StoreOneWrite<U, D, S>(env: Env<U, D, S>, u: U, d: D, w: Write)
    ensures StoreWrites(env, u, d, [w]) == StoreAll(env, u, d, w.pos, w.bytes)
  {
    hide StoreAll;
    assert [w][1..] == [];
    assert StoreWrites(env, StoreAll(env, u, d, w.pos, w.bytes), d, []) == StoreAll(env, u, d, w.pos, w.bytes);
  }

  lemma RunInt<U(!new), D, S(!new)>(env: Env<U, D, S>, e: Effect<U>, scopes: seq<S>, skip: nat, id: nat, ty: nat, b: seq<byte>)
    requires scopes != [] && id <= IdMax(env.W) && (ty == UNSIGNED || ty == SIGNED)
    ensures LeafRuns(env, e, scopes, skip, id, OnHeader(env, Place(e, scopes, skip), 8 * id + ty), ParseValue(env.W, ty, b), b)
  {
    hide ParseVarint, ScalarBytes, OnHeader, Packed, StoreAll, Render, AllFit, RunBytes, StoreWrites;
    var t := OnHeader(env, Place<U, D, S>(e, scopes, skip), 8 * id + ty);
    IntHeader(env, e, scopes, skip, id, ty);
    RunWords(env, t, b);
    if !Good(t) { RefusalStays(env, t, b); }
    match ParseVarint(env.W, b)
    case Truncated =>
    case Malformed =>
    case Parsed(x, b1) =>
      assert ParseWords(env.W, 0, b1) == Parsed([], b1);
      assert [x] + [] == [x];
      if !t.condemned && t.ctl.to.At? {
        var a := Answer(env, e, scopes, Call(id, 0, 0, ty)).act;
        IntRender(env.strict, a, ty == SIGNED, x);
        StoreOneWrite(env, t.user, a.dst, Write(0, Packed(a.num, a.width, [x])));
      }
  }

  /** After a header of type 2-5 the decoder waits for the next word; nothing else has changed. */
  lemma PlainHeader<U, D, S>(env: Env<U, D, S>, e: Effect<U>, scopes: seq<S>, skip: nat, id: nat, ty: nat)
    requires scopes != [] && id <= IdMax(env.W) && FIXLEN <= ty <= ARRAY_FIXLEN
    ensures OnHeader(env, Place(e, scopes, skip), 8 * id + ty)
      == Within(e, scopes, skip, if ty == FIXLEN then FixlenWord(id, false, 0) else ArrayCount(id, ty))
  {
  }

  /** The decoder in front of the elements of an integer array whose count has arrived. */
  lemma {:induction false} IntsCount<U, D, S>(env: Env<U, D, S>, e: Effect<U>, scopes: seq<S>, skip: nat, id: nat, ty: nat, n: nat)
    requires scopes != [] && n <= ARRAY_MAX && (ty == ARRAY_UNSIGNED || ty == ARRAY_SIGNED)
    ensures var c := Call(id, 0, n, ty);
      var t := OnArrayCount(env, Within(e, scopes, skip, ArrayCount(id, ty)), n);
      var r := Answer(env, e, scopes, c);
      if skip == 0 && r.act.ReadInts? then
        if n > r.act.n then t.Dead?
        else
          && t.Live? && t.scopes == scopes && t.skip == skip && t.acc == ZERO
          && t.calls == e.calls + [c] && t.condemned == r.condemn
          && t.user == StoreAll(env, r.user, r.act.dst, n * r.act.width, Zeros((r.act.n - n) * r.act.width))
          && t.ctl == if n == 0 then Idle else Scalars(r.act.num, At(r.act.dst, 0), r.act.width, true, n)
      else
        Asked(env, e, scopes, skip, c, t) && (n == 0 ==> t.ctl.Idle?)
        && (n > 0 ==> t.ctl.Scalars? && t.ctl.to.Skip? && t.ctl.list && t.ctl.left == n)
  {
    hide StoreAll;
  }

  lemma {:induction false} StoreTwoWrites<U, D, S>(env: Env<U, D, S>, u: U, d: D, w1: Write, w2: Write)
    ensures StoreWrites(env, u, d, [w1, w2])
      == StoreAll(env, StoreAll(env, u, d, w1.pos, w1.bytes), d, w2.pos, w2.bytes)
  {
    hide StoreAll;
    assert [w1, w2][1..] == [w2];
    StoreOneWrite(env, StoreAll(env, u, d, w1.pos, w1.bytes), d, w2);
  }

  /** The elements of an integer array, count and callback behind. */
  lemma {:induction false} RunElements<U(!new), D, S(!new)>(
    env: Env<U, D, S>, e: Effect<U>, scopes: seq<S>, skip: nat, id: nat, ty: nat, n: nat, b: seq<byte>)
    requires scopes != [] && n <= ARRAY_MAX && (ty == ARRAY_UNSIGNED || ty == ARRAY_SIGNED)
    ensures var t := OnArrayCount(env, Within(e, scopes, skip, ArrayCount(id, ty)), n);
      var p := match ParseWords(env.W, n, b)
               case Parsed(ws, rest) => Parsed(Ints(ty == ARRAY_SIGNED, ws), rest)
               case Truncated => Truncated
               case Malformed => Malformed;
      LeafRuns(env, e, scopes, skip, id, t, p, b)
  {
    hide ParseVarint, ScalarBytes, OnArrayCount, Packed, StoreAll, AllFit, RunBytes, StoreWrites, ParseWords;
    var t := OnArrayCount(env, Within(e, scopes, skip, ArrayCount(id, ty)), n);
    IntsCount(env, e, scopes, skip, id, ty, n);
    ParseNoWords(env.W, b);
    if !Good(t) {
      RefusalStays(env, t, b);
    } else {
      var a := Answer(env, e, scopes, Call(id, 0, n, ty)).act;
      if n > 0 {
        RunWords(env, t, b);
      }
      if skip == 0 && a.ReadInts? {
        var ws := if ParseWords(env.W, n, b).Parsed? then ParseWords(env.W, n, b).tree else [];
        StoreTwoWrites(env, Answer(env, e, scopes, Call(id, 0, n, ty)).user, a.dst,
          Write(n * a.width, Zeros((a.n - n) * a.width)), Write(0, Packed(a.num, a.width, ws)));
        StoreNothing(env, t.user, a.dst, a.num, a.width);
      }
    }
  }

  lemma {:induction false} ParseNoWords(W: WordSize, b: seq<byte>)
    ensures ParseWords(W, 0, b) == Parsed([], b)
  {
  }

  lemma {:induction false} StoreNothing<U, D, S>(env: Env<U, D, S>, u: U, d: D, num: Num, width: Width)
    ensures StoreAll(env, u, d, 0, Packed(num, width, [])) == u && StoreAll(env, u, d, 0, []) == u
    ensures AllFit(num, width, [])
  {
  }

  lemma RunInts<U(!new), D, S(!new)>(env: Env<U, D, S>, e: Effect<U>, scopes: seq<S>, skip: nat, id: nat, ty: nat, b: seq<byte>)
    requires scopes != [] && id <= IdMax(env.W) && (ty == ARRAY_UNSIGNED || ty == ARRAY_SIGNED)
    ensures LeafRuns(env, e, scopes, skip, id, OnHeader(env, Place(e, scopes, skip), 8 * id + ty), ParseValue(env.W, ty, b), b)
  {
    hide ParseVarint, OnHeader, OnArrayCount, RunBytes, ParseWords, LeafEffect;
    PlainHeader(env, e, scopes, skip, id, ty);
    var t := OnHeader(env, Place<U, D, S>(e, scopes, skip), 8 * id + ty);
    RunVarint(env, t, b);
    match ParseVarint(env.W, b)
    case Truncated =>
    case Malformed =>
    case Parsed(n, b1) =>
      if n > ARRAY_MAX {
        CountTooLarge(env, t, n);
        DeadStays(env, OnVarint(env, t, n), b1);
      } else {
        RunElements(env, e, scopes, skip, id, ty, n, b1);
      }
  }

  lemma CountTooLarge<U, D, S>(env: Env<U, D, S>, s: State<U, D, S>, n: nat)
    requires s.Live? && s.scopes != [] && s.ctl.ArrayCount? && n > ARRAY_MAX
    ensures OnVarint(env, s, n).Dead?
  {
  }

  /** The decoder in front of the elements of a float array whose element word has arrived. */
  lemma {:induction false} ElementWord<U, D, S>(env: Env<U, D, S>, e: Effect<U>, scopes: seq<S>, skip: nat, id: nat, n: nat, word: nat)
    requires scopes != [] && ElementWordOk(word % 8, word / 8)
    ensures var len := word / 8;
      var c := Call(id, len, n, ARRAY_FIXLEN + 8 * (word % 8));
      var t := OnElementWord(env, Within(e, scopes, skip, FixlenWord(id, true, n)), word);
      var r := Answer(env, e, scopes, c);
      if skip == 0 && r.act.ReadFloats? then
        if n > r.act.n then t.Dead?
        else
          && t.Live? && t.scopes == scopes && t.skip == skip && t.acc == ZERO
          && t.calls == e.calls + [c] && t.condemned == r.condemn
          && t.user == StoreAll(env, r.user, r.act.dst, n * len, Zeros((r.act.n - n) * len))
          && t.ctl == if n == 0 then Idle else FixlenVal(At(r.act.dst, 0), len, len, n)
      else
        Asked(env, e, scopes, skip, c, t) && t.ctl == if n == 0 then Idle else FixlenVal(Skip, len, len, n)
  {
    hide StoreAll;
  }

  /** The elements of a float array, element word and callback behind. */
  lemma RunFloatElements<U(!new), D, S(!new)>(
    env: Env<U, D, S>, e: Effect<U>, scopes: seq<S>, skip: nat, id: nat, n: nat, word: nat, b: seq<byte>)
    requires scopes != [] && ElementWordOk(word % 8, word / 8)
    ensures var t := OnElementWord(env, Within(e, scopes, skip, FixlenWord(id, true, n)), word);
      var p := match ParsePayload(n * (word / 8), b)
               case Parsed(q, rest) => Parsed(Floats(word % 8 == FP64, q), rest)
               case Truncated => Truncated
               case Malformed => Malformed;
      LeafRuns(env, e, scopes, skip, id, t, p, b)
  {
    hide OnElementWord, StoreAll, RunBytes, StoreWrites;
    var t := OnElementWord(env, Within<U, D, S>(e, scopes, skip, FixlenWord(id, true, n)), word);
    var len := word / 8;
    ElementWord(env, e, scopes, skip, id, n, word);
    if !Good(t) {
      RefusalStays(env, t, b);
    } else {
      var r := Answer(env, e, scopes, Call(id, len, n, ARRAY_FIXLEN + 8 * (word % 8)));
      if n > 0 {
        assert len + (n - 1) * len == n * len;
        RunFloats(env, t, b, n * len);
      }
      assert n == 0 ==> b[..0] == [] && b[0..] == b;
      if skip == 0 && r.act.ReadFloats? && |b| >= n * len {
        StoreTwoWrites(env, r.user, r.act.dst, Write(n * len, Zeros((r.act.n - n) * len)), Write(0, b[..n * len]));
        StoreNothing(env, t.user, r.act.dst, Unsigned, 1);
        assert n * len / len == n;
      }
      if |b| >= n * len {
        assert n * len / len == n;
      }
    }
  }

  lemma RunFloatArray<U(!new), D, S(!new)>(env: Env<U, D, S>, e: Effect<U>, scopes: seq<S>, skip: nat, id: nat, b: seq<byte>)
    requires scopes != [] && id <= IdMax(env.W)
    ensures LeafRuns(env, e, scopes, skip, id,
      OnHeader(env, Place(e, scopes, skip), 8 * id + ARRAY_FIXLEN), ParseValue(env.W, ARRAY_FIXLEN, b), b)
  {
    hide ParseVarint, OnHeader, OnElementWord, RunBytes, LeafEffect;
    PlainHeader(env, e, scopes, skip, id, ARRAY_FIXLEN);
    var t := OnHeader(env, Place<U, D, S>(e, scopes, skip), 8 * id + ARRAY_FIXLEN);
    RunVarint(env, t, b);
    match ParseVarint(env.W, b)
    case Truncated =>
    case Malformed =>
    case Parsed(n, b1) =>
      if n > ARRAY_MAX {
        CountTooLarge(env, t, n);
        DeadStays(env, OnVarint(env, t, n), b1);
      } else {
        var t1 := Within<U, D, S>(e, scopes, skip, FixlenWord(id, true, n));
        FloatCount(env, e, scopes, skip, id, n);
        RunVarint(env, t1, b1);
        match ParseVarint(env.W, b1)
        case Truncated =>
        case Malformed =>
        case Parsed(w, b2) =>
          if !ElementWordOk(w % 8, w / 8) {
            BadElementWord(env, t1, w);
            DeadStays(env, OnVarint(env, t1, w), b2);
          } else {
            RunFloatElements(env, e, scopes, skip, id, n, w, b2);
          }
      }
  }

  lemma FloatCount<U, D, S>(env: Env<U, D, S>, e: Effect<U>, scopes: seq<S>, skip: nat, id: nat, n: nat)
    requires scopes != [] && n <= ARRAY_MAX
    ensures OnVarint(env, Within(e, scopes, skip, ArrayCount(id, ARRAY_FIXLEN)), n) == Within(e, scopes, skip, FixlenWord(id, true, n))
  {
  }

  lemma BadElementWord<U, D, S>(env: Env<U, D, S>, s: State<U, D, S>, w: nat)
    requires s.Live? && s.scopes != [] && s.ctl.FixlenWord? && s.ctl.list && !ElementWordOk(w % 8, w / 8)
    ensures OnVarint(env, s, w).Dead?
  {
  }

  /** The decoder in front of the payload of a scalar fixlen field. */
  lemma {:induction false} ScalarWord<U, D, S>(env: Env<U, D, S>, e: Effect<U>, scopes: seq<S>, skip: nat, id: nat, word: nat)
    requires scopes != [] && ScalarWordOk(word % 8, word / 8)
    ensures var sub, len := word % 8, word / 8;
      var c := Call(id, len, 0, FIXLEN + 8 * sub);
      var t := OnScalarWord(env, Within(e, scopes, skip, FixlenWord(id, false, 0)), word);
      var r := Answer(env, e, scopes, c);
      if skip == 0 && r.act.ReadBytes? then
        if len + (if r.act.term then 1 else 0) > r.act.cap then t.Dead?
        else
          && t.Live? && t.scopes == scopes && t.skip == skip && t.acc == ZERO
          && t.calls == e.calls + [c] && t.condemned == r.condemn
          && t.user == (if r.act.term then StoreAll(env, r.user, r.act.dst, len, [0]) else r.user)
          && t.ctl == if len == 0 then Idle
                      else FixlenRaw(At(r.act.dst, 0), len, if env.strict && r.act.text then Some([]) else None)
      else
        && Asked(env, e, scopes, skip, c, t)
        && (skip == 0 && r.act.ReadFloat? ==> len > 0)
        && var to := if skip == 0 && r.act.ReadFloat? then At(r.act.dst, 0) else Skip;
          t.ctl == if len == 0 then Idle
                   else if sub == FP32 || sub == FP64 then FixlenVal(to, len, len, 1)
                   else FixlenRaw(to, len, None)
  {
    hide StoreAll;
  }

  lemma {:induction false} ScalarWrites<U, D, S>(env: Env<U, D, S>, u: U, a: Action<D, S>, sub: nat, p: seq<byte>)
    requires a.ReadBytes? || a.ReadFloat?
    requires Render(env.strict, a, Fixlen(sub, p)).Some?
    ensures StoreWrites(env, u, a.dst, Render(env.strict, a, Fixlen(sub, p)).value)
      == StoreAll(env, if a.ReadBytes? && a.term then StoreAll(env, u, a.dst, |p|, [0]) else u, a.dst, 0, p)
  {
    hide StoreAll, StoreWrites;
    if a.ReadBytes? && a.term {
      StoreTwoWrites(env, u, a.dst, Write(|p|, [0]), Write(0, p));
      assert [Write(|p|, [0])] + [Write(0, p)] == [Write(|p|, [0]), Write(0, p)];
    } else {
      StoreOneWrite(env, u, a.dst, Write(0, p));
      assert [] + [Write(0, p)] == [Write(0, p)];
    }
  }

  /** The payload of a scalar fixlen field, word and callback behind. */
  lemma RunScalarPayload<U(!new), D, S(!new)>(
    env: Env<U, D, S>, e: Effect<U>, scopes: seq<S>, skip: nat, id: nat, word: nat, b: seq<byte>)
    requires scopes != [] && ScalarWordOk(word % 8, word / 8)
    ensures var t := OnScalarWord(env, Within(e, scopes, skip, FixlenWord(id, false, 0)), word);
      var p := match ParsePayload(word / 8, b)
               case Parsed(q, rest) => Parsed(Fixlen(word % 8, q), rest)
               case Truncated => Truncated
               case Malformed => Malformed;
      LeafRuns(env, e, scopes, skip, id, t, p, b)
  {
    hide OnScalarWord, StoreAll, RunBytes, StoreWrites, ValidText;
    var t := OnScalarWord(env, Within<U, D, S>(e, scopes, skip, FixlenWord(id, false, 0)), word);
    var sub, len := word % 8, word / 8;
    ScalarWord(env, e, scopes, skip, id, word);
    if !Good(t) {
      RefusalStays(env, t, b);
    } else {
      var r := Answer(env, e, scopes, Call(id, len, 0, FIXLEN + 8 * sub));
      if len > 0 {
        if t.ctl.FixlenVal? {
          assert t.ctl.rem + (t.ctl.left - 1) * t.ctl.elem == len;
          RunFloats(env, t, b, len);
        } else {
          RunRaw(env, t, b);
        }
      }
      assert len == 0 ==> b[..0] == [] && b[0..] == b;
      ValidNothing();
      if |b| >= len {
        assert [] + b[..len] == b[..len];
        if skip == 0 && (r.act.ReadBytes? || r.act.ReadFloat?) {
          if Render(env.strict, r.act, Fixlen(sub, b[..len])).Some? {
            ScalarWrites(env, r.user, r.act, sub, b[..len]);
          }
          StoreNothing(env, t.user, r.act.dst, Unsigned, 1);
        }
      }
    }
  }

  lemma ValidNothing()
    ensures ValidText([])
  {
  }

  lemma RunFixlen<U(!new), D, S(!new)>(env: Env<U, D, S>, e: Effect<U>, scopes: seq<S>, skip: nat, id: nat, b: seq<byte>)
    requires scopes != [] && id <= IdMax(env.W)
    ensures LeafRuns(env, e, scopes, skip, id,
      OnHeader(env, Place(e, scopes, skip), 8 * id + FIXLEN), ParseValue(env.W, FIXLEN, b), b)
  {
    hide ParseVarint, OnHeader, OnScalarWord, RunBytes, LeafEffect;
    PlainHeader(env, e, scopes, skip, id, FIXLEN);
    var t := OnHeader(env, Place<U, D, S>(e, scopes, skip), 8 * id + FIXLEN);
    RunVarint(env, t, b);
    match ParseVarint(env.W, b)
    case Truncated =>
    case Malformed =>
    case Parsed(w, b1) =>
      if !ScalarWordOk(w % 8, w / 8) {
        BadScalarWord(env, t, w);
        DeadStays(env, OnVarint(env, t, w), b1);
      } else {
        RunScalarPayload(env, e, scopes, skip, id, w, b1);
      }
  }

  lemma BadScalarWord<U, D, S>(env: Env<U, D, S>, s: State<U, D, S>, w: nat)
    requires s.Live? && s.scopes != [] && s.ctl.FixlenWord? && !s.ctl.list && !ScalarWordOk(w % 8, w / 8)
    ensures OnVarint(env, s, w).Dead?
  {
  }

  /** A leaf field of any type. */
  lemma RunLeaf<U(!new), D, S(!new)>(env: Env<U, D, S>, e: Effect<U>, scopes: seq<S>, skip: nat, id: nat, ty: nat, b: seq<byte>)
    requires scopes != [] && id <= IdMax(env.W) && ty <= ARRAY_FIXLEN
    ensures LeafRuns(env, e, scopes, skip, id, OnHeader(env, Place(e, scopes, skip), 8 * id + ty), ParseValue(env.W, ty, b), b)
  {
    hide LeafRuns, ParseValue, OnHeader, IdMax;
    if ty == UNSIGNED || ty == SIGNED {
      RunInt(env, e, scopes, skip, id, ty, b);
    } else if ty == FIXLEN {
      RunFixlen(env, e, scopes, skip, id, b);
    } else if ty == ARRAY_FIXLEN {
      RunFloatArray(env, e, scopes, skip, id, b);
    } else {
      RunInts(env, e, scopes, skip, id, ty, b);
    }
  }

  // ---------------------------------------------------------------- scopes

  /** Headers that are not leaf headers, as the decoder sees them between fields. */
  lemma StructureHeader<U, D, S>(env: Env<U, D, S>, e: Effect<U>, scopes: seq<S>, skip: nat, h: nat)
    requires scopes != [] && (h / 8 > IdMax(env.W) || h % 8 == BEGIN || h % 8 == END)
    ensures var t, d := OnVarint(env, Place(e, scopes, skip), h), |scopes| - 1 + skip;
      var r := Answer(env, e, scopes, Call(h / 8, 0, 0, BEGIN));
      if h / 8 > IdMax(env.W) then t.Dead?
      else if h % 8 == END then
        if skip > 0 then t == Place(e, scopes, skip - 1)
        else if d == 0 then t.Dead?
        else t == Place(e, scopes[..d], 0)
      else if d == MAX_DEPTH then t.Dead?
      else if skip > 0 then t == Place(e, scopes, skip + 1)
      else
        var e1 := Effect(r.user, e.calls + [Call(h / 8, 0, 0, BEGIN)]);
        && t.Live? && t.condemned == r.condemn
        && (!r.condemn ==> t == if r.act.ReadSequence? then Place(e1, scopes + [r.act.scope], 0) else Place(e1, scopes, 1))
  {
  }

  lemma {:induction false} RunNothing<U, D, S>(env: Env<U, D, S>, s: State<U, D, S>)
    ensures RunBytes(env, s, []) == s
    ensures s.Live? && s.skip > 0 ==> !AtBoundary(s)
  {
  }

  /** A skipped scope: its bytes are consumed to its END and leave no trace. */
  lemma {:induction false} RunSkipped<U(!new), D, S(!new)>(env: Env<U, D, S>, e: Effect<U>, scopes: seq<S>, skip: nat, b: seq<byte>)
    requires scopes != [] && skip >= 1 && |scopes| - 1 + skip <= MAX_DEPTH
    ensures var s := Place<U, D, S>(e, scopes, skip);
      var r := RunBytes(env, s, b);
      match ParseFields(env.W, b, |scopes| - 1 + skip)
      case Parsed(_, rest) => r == RunBytes(env, Place(e, scopes, skip - 1), rest)
      case Truncated => Stalled(s, r, true)
      case Malformed => !Good(r)
    decreases |b|
  {
    hide ParseVarint, OnVarint, OnHeader, ParseValue, IdMax, RunBytes, AtBoundary;
    var s := Place<U, D, S>(e, scopes, skip);
    var d := |scopes| - 1 + skip;
    if b == [] {
      RunNothing(env, s);
    } else {
      RunVarint(env, s, b);
      match ParseVarint(env.W, b)
      case Truncated =>
      case Malformed =>
      case Parsed(h, b1) =>
        assert ParseFields(env.W, b, d) == ParseFrom(env.W, h / 8, h % 8, b1, d);
        var t := OnVarint(env, s, h);
        if h / 8 > IdMax(env.W) || h % 8 == BEGIN || h % 8 == END {
          StructureHeader(env, e, scopes, skip, h);
          if t.Dead? {
            DeadStays(env, t, b1);
          } else if h % 8 == BEGIN {
            RunSkipped(env, e, scopes, skip + 1, b1);
            ParseGroupCases(env.W, h / 8, b1, d);
            var p := ParseFields(env.W, b1, d + 1);
            if p.Parsed? {
              RunSkipped(env, e, scopes, skip, p.rest);
            }
          }
        } else {
          HeaderIsOnHeader(env, s, h);
          ParseLeafCases(env.W, h / 8, h % 8, b1, d);
          RunLeaf(env, e, scopes, skip, h / 8, h % 8, b1);
          var p := ParseValue(env.W, h % 8, b1);
          if p.Parsed? {
            RunSkipped(env, e, scopes, skip, p.rest);
          }
        }
    }
  }

  lemma HeaderIsOnHeader<U, D, S>(env: Env<U, D, S>, s: State<U, D, S>, h: nat)
    requires s.Live? && s.scopes != [] && s.ctl.Idle?
    ensures OnVarint(env, s, h) == OnHeader(env, s, 8 * (h / 8) + h % 8)
  {
    hide OnHeader;
  }

  lemma {:induction false} MeanPrepend<U, D, S>(env: Env<U, D, S>, e: Effect<U>, sc: S, f: Field, fs: seq<Field>)
    ensures MeanFields(env, e, sc, [f] + fs)
      == match MeanField(env, e, sc, f) case None => None case Some(e1) => MeanFields(env, e1, sc, fs)
  {
    hide MeanField;
    assert ([f] + fs)[1..] == fs;
  }

  lemma {:induction false} MeanNothing<U, D, S>(env: Env<U, D, S>, e: Effect<U>, sc: S)
    ensures MeanFields(env, e, sc, []) == Some(e)
  {
  }

  lemma {:induction false} LeafMeans<U, D, S>(env: Env<U, D, S>, e: Effect<U>, sc: S, id: nat, v: Value)
    ensures MeanField(env, e, sc, Leaf(id, v)) == MeanLeaf(env, e, sc, id, v)
  {
    hide MeanLeaf;
  }

  lemma {:induction false} GroupMeans<U, D, S>(env: Env<U, D, S>, e: Effect<U>, sc: S, id: nat, body: seq<Field>)
    ensures var c := Call(id, 0, 0, BEGIN);
      var r := env.call(e.user, sc, c);
      var a := Settle(r.act, BEGIN);
      MeanField(env, e, sc, Group(id, body))
        == if r.condemn then None
           else if a.ReadSequence? then MeanFields(env, Effect(r.user, e.calls + [c]), a.scope, body)
           else Some(Effect(r.user, e.calls + [c]))
  {
    hide MeanFields;
  }

  /** A gentle callback refuses nothing. */
  lemma GentleAnswers<U(!new), D, S(!new)>(env: Env<U, D, S>, e: Effect<U>, scopes: seq<S>, c: Call)
    requires Gentle(env) && scopes != []
    ensures !Answer(env, e, scopes, c).condemn
    ensures var a := Answer(env, e, scopes, c).act; a.Decline? || a.ReadSequence?
  {
    var r := env.call(e.user, scopes[|scopes| - 1], c);
    assert !r.condemn;
  }

  lemma {:induction false} GentleMeans<U(!new), D, S(!new)>(env: Env<U, D, S>, e: Effect<U>, sc: S, fs: seq<Field>)
    requires Gentle(env)
    ensures MeanFields(env, e, sc, fs).Some?
    decreases fs
  {
    if fs != [] {
      GentleField(env, e, sc, fs[0]);
      GentleMeans(env, MeanField(env, e, sc, fs[0]).value, sc, fs[1..]);
    }
  }

  lemma {:induction false} GentleField<U(!new), D, S(!new)>(env: Env<U, D, S>, e: Effect<U>, sc: S, f: Field)
    requires Gentle(env)
    ensures MeanField(env, e, sc, f).Some?
    decreases f
  {
    hide Gentle, MeanFields;
    match f
    case Leaf(id, v) =>
      GentleAnswers(env, e, [sc], Call(id, SizeOf(v), CountOf(v), OptOf(v)));
    case Group(id, body) =>
      var c := Call(id, 0, 0, BEGIN);
      GentleAnswers(env, e, [sc], c);
      GroupMeans(env, e, sc, id, body);
      var r := env.call(e.user, sc, c);
      if Settle(r.act, BEGIN).ReadSequence? {
        GentleMeans(env, Effect(r.user, e.calls + [c]), Settle(r.act, BEGIN).scope, body);
      }
  }

  /** From state Place(e, scopes, 0), reaching r did what the rest p of the innermost scope means. */
  ghost predicate ScopeRuns<U(!new), D, S(!new)>(
    env: Env<U, D, S>, e: Effect<U>, scopes: seq<S>, r: State<U, D, S>, p: Parse<seq<Field>>)
    requires scopes != []
  {
    var d := |scopes| - 1;
    match p
    case Parsed(fs, rest) =>
      (match MeanFields(env, e, scopes[d], fs)
       case Some(e1) => r == if d == 0 then Place(e1, scopes, 0) else RunBytes(env, Place(e1, scopes[..d], 0), rest)
       case None => !Good(r))
    case Truncated => Stalled(Place<U, D, S>(e, scopes, 0), r, Gentle(env))
    case Malformed => !Good(r)
  }

  /**
   * The refinement. From any place between fields, with any chain of scopes the callback has opened,
   * the byte machine does exactly what the parse of the coming bytes means: it reaches the end of the
   * scope in the state the fields produce, or refuses if the fields are refused, stops short of a
   * message boundary if the bytes are cut off, and refuses if they are malformed.
   */
  lemma {:induction false} RunScope<U(!new), D, S(!new)>(env: Env<U, D, S>, e: Effect<U>, scopes: seq<S>, b: seq<byte>)
    requires scopes != [] && |scopes| - 1 <= MAX_DEPTH
    ensures ScopeRuns(env, e, scopes, RunBytes(env, Place(e, scopes, 0), b), ParseFields(env.W, b, |scopes| - 1))
    decreases |b|, 0
  {
    hide ParseVarint, OnVarint, OnHeader, ParseValue, IdMax, MeanFields, MeanField, MeanLeaf, Gentle;
    var s, d := Place<U, D, S>(e, scopes, 0), |scopes| - 1;
    if b == [] {
      MeanNothing(env, e, scopes[d]);
    } else {
      RunVarint(env, s, b);
      match ParseVarint(env.W, b)
      case Truncated =>
      case Malformed =>
      case Parsed(h, b1) =>
        assert ParseFields(env.W, b, d) == ParseFrom(env.W, h / 8, h % 8, b1, d);
        var t := OnVarint(env, s, h);
        if h / 8 > IdMax(env.W) || h % 8 == END {
          MeanNothing(env, e, scopes[d]);
          StructureHeader(env, e, scopes, 0, h);
          if t.Dead? { DeadStays(env, t, b1); }
        } else if h % 8 == BEGIN {
          StructureHeader(env, e, scopes, 0, h);
          if t.Dead? {
            DeadStays(env, t, b1);
          } else {
            RunGroup(env, e, scopes, h, b1);
          }
        } else {
          HeaderIsOnHeader(env, s, h);
          ParseLeafCases(env.W, h / 8, h % 8, b1, d);
          RunLeaf(env, e, scopes, 0, h / 8, h % 8, b1);
          var p := ParseValue(env.W, h % 8, b1);
          if p.Parsed? {
            var f := Leaf(h / 8, p.tree);
            LeafMeans(env, e, scopes[d], h / 8, p.tree);
            var m := MeanField(env, e, scopes[d], f);
            if m.Some? {
              RunScope(env, m.value, scopes, p.rest);
            } else if Gentle(env) {
              GentleField(env, e, scopes[d], f);
            }
            var q := ParseFields(env.W, p.rest, d);
            if q.Parsed? {
              MeanPrepend(env, e, scopes[d], f, q.tree);
            }
          }
        }
    }
  }

  /** A scope that begins with a sequence, its header behind. */
  lemma {:induction false} RunGroup<U(!new), D, S(!new)>(env: Env<U, D, S>, e: Effect<U>, scopes: seq<S>, h: nat, b: seq<byte>)
    requires scopes != [] && |scopes| - 1 < MAX_DEPTH && h / 8 <= IdMax(env.W) && h % 8 == BEGIN
    ensures ScopeRuns(env, e, scopes,
      RunBytes(env, OnVarint(env, Place(e, scopes, 0), h), b), ParseFrom(env.W, h / 8, BEGIN, b, |scopes| - 1))
    decreases |b|, 1
  {
    hide OnVarint, IdMax, MeanFields, Gentle, RunBytes, AtBoundary, ParseFrom, ParseFields;
    var d := |scopes| - 1;
    var t := OnVarint(env, Place<U, D, S>(e, scopes, 0), h);
    StructureHeader(env, e, scopes, 0, h);
    ParseGroupCases(env.W, h / 8, b, d);
    var p := ParseFields(env.W, b, d + 1);
    var c := Call(h / 8, 0, 0, BEGIN);
    var r := Answer(env, e, scopes, c);
    var e1 := Effect(r.user, e.calls + [c]);
    if Gentle(env) {
      GentleAnswers(env, e, scopes, c);
    }
    if p.Parsed? {
      GroupMeans(env, e, scopes[d], h / 8, p.tree);
    }
    if t.condemned {
      RefusalStays(env, t, b);
      RefusedGroup(env, e, scopes, h / 8, RunBytes(env, t, b), p);
    } else if r.act.ReadSequence? {
      assert (scopes + [r.act.scope])[..d + 1] == scopes;
      RunScope(env, e1, scopes + [r.act.scope], b);
      if p.Parsed? {
        var m := MeanFields(env, e1, r.act.scope, p.tree);
        if m.Some? {
          RunScope(env, m.value, scopes, p.rest);
          ContinueScope(env, e, scopes, Group(h / 8, p.tree), m.value, RunBytes(env, t, b), p.rest);
        } else {
          if Gentle(env) { GentleMeans(env, e1, r.act.scope, p.tree); }
          RefusedGroup(env, e, scopes, h / 8, RunBytes(env, t, b), p);
        }
      }
    } else {
      RunSkipped(env, e1, scopes, 1, b);
      if p.Parsed? {
        RunScope(env, e1, scopes, p.rest);
        ContinueScope(env, e, scopes, Group(h / 8, p.tree), e1, RunBytes(env, t, b), p.rest);
      }
    }
  }

  /** A refused sequence refuses its scope, whatever follows. */
  lemma {:induction false} RefusedGroup<U(!new), D, S(!new)>(
    env: Env<U, D, S>, e: Effect<U>, scopes: seq<S>, id: nat, r: State<U, D, S>, p: Parse<seq<Field>>)
    requires scopes != [] && !Good(r) && !Gentle(env)
    requires p.Parsed? ==> MeanField(env, e, scopes[|scopes| - 1], Group(id, p.tree)).None?
    ensures p.Parsed? ==> ScopeRuns(env, e, scopes, r, Prepend([Group(id, p.tree)], ParseFields(env.W, p.rest, |scopes| - 1)))
    ensures !p.Parsed? ==> ScopeRuns(env, e, scopes, r, p)
  {
    hide Gentle, MeanField, MeanFields, ParseFields;
    if p.Parsed? {
      var q := ParseFields(env.W, p.rest, |scopes| - 1);
      if q.Parsed? {
        MeanPrepend(env, e, scopes[|scopes| - 1], Group(id, p.tree), q.tree);
      }
    }
  }

  /** What a scope does after its first field is what it does altogether. */
  lemma ContinueScope<U(!new), D, S(!new)>(
    env: Env<U, D, S>, e: Effect<U>, scopes: seq<S>, f: Field, e1: Effect<U>, r: State<U, D, S>, rest: seq<byte>)
    requires scopes != [] && MeanField(env, e, scopes[|scopes| - 1], f) == Some(e1)
    requires ScopeRuns(env, e1, scopes, r, ParseFields(env.W, rest, |scopes| - 1))
    ensures ScopeRuns(env, e, scopes, r, Prepend([f], ParseFields(env.W, rest, |scopes| - 1)))
  {
    hide Gentle, MeanField, MeanFields, ParseFields;
    var q := ParseFields(env.W, rest, |scopes| - 1);
    if q.Parsed? {
      MeanPrepend(env, e, scopes[|scopes| - 1], f, q.tree);
    }
  }
}

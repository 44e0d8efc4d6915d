/** What the refinement gives: verdicts, feeds, refusals, completions, skipped fields, filled destinations. */
module DecoderTheorems {
  import opened Bytes
  import opened Varint
  import opened Wire
  import opened Utf8
  import opened Decoder
  import opened Meaning

  // ---------------------------------------------------------------- verdicts

  /** For every callback: OK exactly on the messages the grammar accepts and the callback does not refuse, with their meaning. */
  lemma {:induction false} DecodeIsMeaning<U(!new), D, S(!new)>(env: Env<U, D, S>, user: U, sc: S, b: seq<byte>)
    ensures var r, p := RunBytes(env, Init(user, sc), b), ParseFields(env.W, b, 0);
      && (VerdictOf(r) == Ok <==> p.Parsed? && MeanFields(env, Effect(user, []), sc, p.tree).Some?)
      && (VerdictOf(r) == Ok ==>
            r == Place(MeanFields(env, Effect(user, []), sc, p.tree).value, [sc], 0))
      && (p.Malformed? ==> VerdictOf(r) == Invalid)
      && (p.Parsed? && VerdictOf(r) != Ok ==> VerdictOf(r) == Invalid)
  {
    hide ParseFields, MeanFields, Gentle;
    RunScope(env, Effect(user, []), [sc], b);
  }

  /** With a callback that binds no leaf the three verdicts are the three outcomes of the grammar. */
  lemma {:induction false} VerdictIsGrammar<U(!new), D, S(!new)>(env: Env<U, D, S>, user: U, sc: S, b: seq<byte>)
    requires Gentle(env)
    ensures var v, p := VerdictOf(RunBytes(env, Init(user, sc), b)), ParseFields(env.W, b, 0);
      && (v == Ok <==> p.Parsed?) && (v == Incomplete <==> p.Truncated?) && (v == Invalid <==> p.Malformed?)
  {
    hide ParseFields, MeanFields, Gentle;
    RunScope(env, Effect(user, []), [sc], b);
    var p := ParseFields(env.W, b, 0);
    if p.Parsed? {
      GentleMeans(env, Effect(user, []), sc, p.tree);
    }
  }

  function Deaf(W: WordSize): Env<(), (), ()>
  {
    Env(W, false, (u, s, c) => Reply(u, Decline, false), (u, d, i, b) => u)
  }

  /** Malformed input stays malformed under every continuation; a complete message continues as a message. */
  lemma {:induction false} NoExtensionHeals(W: WordSize, b: seq<byte>, more: seq<byte>)
    ensures ParseFields(W, b, 0).Malformed? ==> ParseFields(W, b + more, 0).Malformed?
  {
    var env := Deaf(W);
    hide ParseFields, RunBytes;
    assert Gentle(env);
    VerdictIsGrammar(env, (), (), b);
    VerdictIsGrammar(env, (), (), b + more);
    RunAppend(env, Init((), ()), b, more);
    if ParseFields(W, b, 0).Malformed? {
      RefusalStays(env, RunBytes(env, Init((), ()), b), more);
    }
  }

  // ---------------------------------------------------------------- reachable states

  /** What holds of the control state whenever the decoder waits for a byte. */
  predicate ControlOk<D>(ctl: Control<D>)
  {
    match ctl
    case Idle => true
    case Scalars(_, _, _, list, left) => left >= 1 && (list || left == 1)
    case FixlenWord(_, _, _) => true
    case ArrayCount(_, ty) => ARRAY_UNSIGNED <= ty <= ARRAY_FIXLEN
    case FixlenVal(_, rem, elem, left) => 1 <= rem <= elem && left >= 1
    case FixlenRaw(_, rem, _) => rem >= 1
  }

  /**
   * The invariant of every run: the nesting depth (pushed decoders plus skipped sequences) stays in
   * 0..255, a partial varint is pending only where one is read, and a condemned message is never
   * between a field header and the callback that header leads to.
   */
  predicate StateOk<U, D, S>(s: State<U, D, S>)
  {
    s.Live? ==>
      && s.scopes != [] && 0 <= Depth(s) <= MAX_DEPTH
      && ControlOk(s.ctl)
      && (s.acc.shift > 0 ==> InVarint(s.ctl)) && (s.acc.shift == 0 ==> s.acc == ZERO)
      && (s.condemned ==> !s.ctl.FixlenWord? && !s.ctl.ArrayCount?)
  }

  lemma HeaderKeeps<U, D, S>(env: Env<U, D, S>, s: State<U, D, S>, w: nat)
    requires StateOk(s) && s.Live? && s.ctl.Idle? && s.acc == ZERO
    ensures StateOk(OnHeader(env, s, w))
  {
  }

  lemma WordKeeps<U, D, S>(env: Env<U, D, S>, s: State<U, D, S>, w: nat)
    requires StateOk(s) && s.Live? && InVarint(s.ctl) && s.acc == ZERO
    ensures StateOk(OnVarint(env, s, w))
  {
    hide StoreAll, ScalarBytes;
    if s.ctl.Idle? { HeaderKeeps(env, s, w); }
  }

  lemma StepKeeps<U, D, S>(env: Env<U, D, S>, s: State<U, D, S>, b: byte)
    requires StateOk(s)
    ensures StateOk(StepByte(env, s, b))
  {
    hide OnVarint, ValidText;
    if s.Live? {
      if InVarint(s.ctl) {
        match Step(env.W, s.acc, b)
        case More(a) =>
        case Overflow =>
        case Done(v) => WordKeeps(env, s.(acc := ZERO), v);
      }
    }
  }

  lemma {:induction false} RunKeeps<U, D, S>(env: Env<U, D, S>, s: State<U, D, S>, bs: seq<byte>)
    requires StateOk(s)
    ensures StateOk(RunBytes(env, s, bs))
    decreases |bs|
  {
    hide StepByte;
    if bs != [] {
      StepKeeps(env, s, bs[0]);
      RunKeeps(env, StepByte(env, s, bs[0]), bs[1..]);
    }
  }

  // ---------------------------------------------------------------- refusal is final

  /** Once refused, by decoder or callback, no byte leads to another callback. */
  lemma StepDispatchesNothing<U, D, S>(env: Env<U, D, S>, s: State<U, D, S>, b: byte)
    requires StateOk(s) && !Good(s)
    ensures StepByte(env, s, b).calls == s.calls
  {
    hide ValidText, StoreAll, ScalarBytes;
  }

  lemma {:induction false} RefusalIsFinal<U, D, S>(env: Env<U, D, S>, s: State<U, D, S>, bs: seq<byte>)
    requires StateOk(s) && !Good(s)
    ensures RunBytes(env, s, bs).calls == s.calls && VerdictOf(RunBytes(env, s, bs)) == Invalid
    decreases |bs|
  {
    hide StepByte;
    if bs != [] {
      StepDispatchesNothing(env, s, bs[0]);
      StepKeeps(env, s, bs[0]);
      StepKeepsRefusal(env, s, bs[0]);
      RefusalIsFinal(env, StepByte(env, s, bs[0]), bs[1..]);
    }
  }

  /** ... and every later feed answers INVALID without looking at its bytes. */
  lemma {:induction false} RefusedFeeds<U, D, S>(env: Env<U, D, S>, s: State<U, D, S>, chunks: seq<seq<byte>>)
    requires s.Dead?
    ensures Feeds(env, s, chunks) == s
    decreases |chunks|
  {
    hide RunBytes;
    if chunks != [] {
      DeadStays(env, s, chunks[0]);
      RefusedFeeds(env, Feed(env, s, chunks[0]), chunks[1..]);
    }
  }

  // ---------------------------------------------------------------- chunks

  function Join(chunks: seq<seq<byte>>): seq<byte>
  {
    if chunks == [] then [] else chunks[0] + Join(chunks[1..])
  }

  /** At no byte of the run has a callback condemned a message the decoder had not rejected. */
  predicate Uncondemned<U, D, S>(env: Env<U, D, S>, s: State<U, D, S>, bs: seq<byte>)
    decreases |bs|
  {
    (s.Live? ==> !s.condemned) && (bs != [] ==> Uncondemned(env, StepByte(env, s, bs[0]), bs[1..]))
  }

  lemma {:induction false} UncondemnedSplit<U, D, S>(env: Env<U, D, S>, s: State<U, D, S>, a: seq<byte>, b: seq<byte>)
    requires Uncondemned(env, s, a + b)
    ensures Uncondemned(env, RunBytes(env, s, a), b) && (RunBytes(env, s, a).Live? ==> !RunBytes(env, s, a).condemned)
    decreases |a|
  {
    hide StepByte;
    if a == [] {
      assert a + b == b;
    } else {
      assert (a + b)[1..] == a[1..] + b;
      UncondemnedSplit(env, StepByte(env, s, a[0]), a[1..], b);
    }
  }

  /** A callback that never condemns leaves every run uncondemned. */
  lemma {:induction false} MildRunsAreUncondemned<U(!new), D, S(!new)>(env: Env<U, D, S>, s: State<U, D, S>, bs: seq<byte>)
    requires forall u: U, sc: S, c: Call :: !env.call(u, sc, c).condemn
    requires s.Live? ==> !s.condemned
    ensures Uncondemned(env, s, bs)
    decreases |bs|
  {
    if bs != [] {
      MildStep(env, s, bs[0]);
      MildRunsAreUncondemned(env, StepByte(env, s, bs[0]), bs[1..]);
    }
  }

  lemma {:induction false} MildStep<U(!new), D, S(!new)>(env: Env<U, D, S>, s: State<U, D, S>, b: byte)
    requires forall u: U, sc: S, c: Call :: !env.call(u, sc, c).condemn
    requires s.Live? ==> !s.condemned
    ensures StepByte(env, s, b).Live? ==> !StepByte(env, s, b).condemned
  {
    hide StoreAll, ScalarBytes, ValidText, Step;
  }

  /**
   * However the input is cut into feeds (empty ones included), the verdict and the callbacks are those of one
   * feed of the whole; and so is everything else, destinations included and rejected messages too, as long as no
   * callback condemned the message.
   */
  lemma {:induction false} ChunksDoNotMatter<U, D, S>(env: Env<U, D, S>, s: State<U, D, S>, chunks: seq<seq<byte>>)
    requires StateOk(s)
    ensures var many, one := Feeds(env, s, chunks), RunBytes(env, s, Join(chunks));
      && VerdictOf(many) == VerdictOf(one) && many.calls == one.calls
      && (Good(one) ==> many == one)
      && (Uncondemned(env, s, Join(chunks)) ==> many == one)
    decreases |chunks|
  {
    hide RunBytes, StateOk, Uncondemned;
    if chunks == [] {
      RunNothing(env, s);
    } else {
      var first, rest := chunks[0], Join(chunks[1..]);
      var t := RunBytes(env, s, first);
      RunKeeps(env, s, first);
      RunAppend(env, s, first, rest);
      if Uncondemned(env, s, Join(chunks)) { UncondemnedSplit(env, s, first, rest); }
      if Good(t) {
        ChunksDoNotMatter(env, t, chunks[1..]);
      } else {
        RefusedFeeds(env, Seal(t), chunks[1..]);
        RefusalIsFinal(env, t, rest);
        if t.Dead? { DeadStays(env, t, rest); }
      }
    }
  }

  // ---------------------------------------------------------------- completion

  function Repeat(bs: seq<byte>, n: nat): (r: seq<byte>)
    ensures |r| == n * |bs|
  {
    if n == 0 then [] else bs + Repeat(bs, n - 1)
  }

  /** Bytes that finish the field the decoder stands in: zero words, an empty blob or float word, zero payload. */
  function FieldSuffix<D>(ctl: Control<D>): seq<byte>
  {
    match ctl
    case Idle => []
    case Scalars(_, _, _, _, left) => Zeros(left)
    case FixlenWord(_, list, count) => if list then [32] + Zeros(4 * count) else [3]
    case ArrayCount(_, ty) => if ty == ARRAY_FIXLEN then [0, 32] else [0]
    case FixlenVal(_, rem, elem, left) => Zeros(if left == 0 then rem else rem + (left - 1) * elem)
    case FixlenRaw(_, rem, _) => Zeros(rem)
  }

  /** ... and then the END headers of the sequences still open. */
  function Suffix<U, D, S>(s: State<U, D, S>): seq<byte>
    requires s.Live? && StateOk(s)
  {
    FieldSuffix(s.ctl) + Repeat([END as byte], Depth(s))
  }

  lemma ReadSmall(W: WordSize, v: byte, rest: seq<byte>)
    requires v < 128
    ensures ParseVarint(W, [v] + rest) == Parsed(v, rest)
  {
    SmallFits(W, v);
    ParseVarintEncode(W, v, rest);
    assert Encode(v) == [v];
  }

  /** One small word fed to a decoder that waits for a varint. */
  lemma {:induction false} FeedSmall<U, D, S>(env: Env<U, D, S>, s: State<U, D, S>, v: byte, rest: seq<byte>)
    requires s.Live? && s.scopes != [] && InVarint(s.ctl) && s.acc == ZERO && v < 128
    ensures RunBytes(env, s, [v] + rest) == RunBytes(env, OnVarint(env, s, v), rest)
  {
    hide ParseVarint, OnVarint;
    ReadSmall(env.W, v, rest);
    RunVarint(env, s, [v] + rest);
  }

  /** The open sequences close one by one. */
  lemma {:induction false} CloseAll<U, D, S>(env: Env<U, D, S>, s: State<U, D, S>)
    requires StateOk(s) && Good(s) && s.ctl.Idle? && s.acc == ZERO
    ensures VerdictOf(RunBytes(env, s, Repeat([END as byte], Depth(s)))) == Ok
    decreases Depth(s)
  {
    hide OnVarint;
    if Depth(s) > 0 {
      var rest := Repeat([END as byte], Depth(s) - 1);
      FeedSmall(env, s, END, rest);
      var t := CloseOne(env, s);
      CloseAll(env, t);
    }
  }

  lemma CloseOne<U, D, S>(env: Env<U, D, S>, s: State<U, D, S>) returns (t: State<U, D, S>)
    requires StateOk(s) && Good(s) && s.ctl.Idle? && s.acc == ZERO && Depth(s) > 0
    ensures t == OnVarint(env, s, END)
    ensures StateOk(t) && Good(t) && t.ctl.Idle? && t.acc == ZERO && Depth(t) == Depth(s) - 1
  {
    t := OnVarint(env, s, END);
  }

  /** A state that a finished field leaves: between fields, as deep as before. */
  ghost predicate Settled<U, D, S>(s: State<U, D, S>, t: State<U, D, S>)
    requires s.Live? && StateOk(s)
  {
    StateOk(t) && Good(t) && t.ctl.Idle? && t.acc == ZERO && Depth(t) == Depth(s)
  }

  lemma ZeroFits(num: Num, width: Width)
    ensures ScalarBytes(num, width, 0).1
  {
  }

  lemma {:induction false} ParseZeros(W: WordSize, n: nat)
    ensures ParseWords(W, n, Zeros(n)) == Parsed(seq(n, _ => 0), [])
  {
    if n > 0 {
      hide ParseVarint;
      assert Zeros(n) == [0] + Zeros(n - 1);
      ReadSmall(W, 0, Zeros(n - 1));
      ParseZeros(W, n - 1);
      assert seq(n, _ => 0) == [0] + seq(n - 1, _ => 0);
    }
  }

  lemma {:induction false} FinishWords<U, D, S>(env: Env<U, D, S>, s: State<U, D, S>)
    requires StateOk(s) && Good(s) && s.ctl.Scalars? && s.acc == ZERO
    ensures Settled(s, RunBytes(env, s, Zeros(s.ctl.left)))
  {
    hide ParseWords, ScalarBytes, RunBytes;
    var words := seq(s.ctl.left, _ => 0);
    ParseZeros(env.W, s.ctl.left);
    ZeroFits(s.ctl.num, s.ctl.width);
    assert AllFit(s.ctl.num, s.ctl.width, words);
    RunWords(env, s, Zeros(s.ctl.left));
    RunNothing(env, AfterWords(env, s, words));
  }

  lemma {:induction false} FinishPayload<U, D, S>(env: Env<U, D, S>, s: State<U, D, S>, n: nat)
    requires StateOk(s) && Good(s) && s.acc == ZERO
    requires (s.ctl.FixlenVal? && n == s.ctl.rem + (s.ctl.left - 1) * s.ctl.elem) || (s.ctl.FixlenRaw? && s.ctl.text.None? && n == s.ctl.rem)
    ensures Settled(s, RunBytes(env, s, Zeros(n)))
  {
    if s.ctl.FixlenVal? {
      RunFloats(env, s, Zeros(n), n);
    } else {
      RunRaw(env, s, Zeros(n));
    }
    assert Zeros(n)[n..] == [];
  }

  lemma {:induction false} FinishCount<U(!new), D, S(!new)>(env: Env<U, D, S>, s: State<U, D, S>)
    requires StateOk(s) && Good(s) && s.ctl.ArrayCount? && s.acc == ZERO && Gentle(env)
    ensures Settled(s, RunBytes(env, s, FieldSuffix(s.ctl)))
  {
    hide StoreAll, RunBytes;
    var t := OnVarint(env, s, 0);
    WordKeeps(env, s, 0);
    if s.ctl.ty == ARRAY_FIXLEN {
      assert [0, 32] == [0] + [32 as byte];
      FeedSmall(env, s, 0, [32]);
      assert [32] + Zeros(0) == [32 as byte];
      FinishElementWord(env, t);
    } else {
      assert [0 as byte] + [] == [0];
      FeedSmall(env, s, 0, []);
      RunNothing(env, t);
      if s.skip == 0 { GentleAnswers(env, Effect(s.user, s.calls), s.scopes, Call(s.ctl.id, 0, 0, s.ctl.ty)); }
    }
  }

  lemma {:induction false} FinishElementWord<U(!new), D, S(!new)>(env: Env<U, D, S>, s: State<U, D, S>)
    requires StateOk(s) && Good(s) && s.ctl.FixlenWord? && s.ctl.list && s.acc == ZERO && Gentle(env)
    ensures Settled(s, RunBytes(env, s, [32] + Zeros(4 * s.ctl.count)))
  {
    hide StoreAll, RunBytes;
    var n := s.ctl.count;
    FeedSmall(env, s, 32, Zeros(4 * n));
    var t := OnVarint(env, s, 32);
    WordKeeps(env, s, 32);
    if s.skip == 0 { GentleAnswers(env, Effect(s.user, s.calls), s.scopes, Call(s.ctl.id, 4, n, ARRAY_FIXLEN)); }
    if n == 0 {
      RunNothing(env, t);
    } else {
      FinishPayload(env, t, 4 * n);
    }
  }

  lemma {:induction false} FinishScalarWord<U(!new), D, S(!new)>(env: Env<U, D, S>, s: State<U, D, S>)
    requires StateOk(s) && Good(s) && s.ctl.FixlenWord? && !s.ctl.list && s.acc == ZERO && Gentle(env)
    ensures Settled(s, RunBytes(env, s, [3]))
  {
    hide StoreAll, RunBytes;
    assert [3 as byte] + [] == [3];
    FeedSmall(env, s, 3, []);
    var t := OnVarint(env, s, 3);
    WordKeeps(env, s, 3);
    if s.skip == 0 { GentleAnswers(env, Effect(s.user, s.calls), s.scopes, Call(s.ctl.id, 0, 0, FIXLEN + 8 * BLOB)); }
    RunNothing(env, t);
  }

  /**
   * Every live state between two varints can be driven to OK by the computed suffix, provided the
   * callback binds no further leaf and no strict text payload is half read.
   */
  lemma {:induction false} Completable<U(!new), D, S(!new)>(env: Env<U, D, S>, s: State<U, D, S>)
    requires StateOk(s) && Good(s) && s.acc == ZERO && Gentle(env)
    requires s.ctl.FixlenRaw? ==> s.ctl.text.None?
    ensures VerdictOf(RunBytes(env, s, Suffix(s))) == Ok
  {
    hide RunBytes, Gentle;
    var f := FieldSuffix(s.ctl);
    RunAppend(env, s, f, Repeat([END as byte], Depth(s)));
    match s.ctl {
      case Idle => RunNothing(env, s);
      case Scalars(_, _, _, _, _) => FinishWords(env, s);
      case FixlenWord(_, list, _) => if list { FinishElementWord(env, s); } else { FinishScalarWord(env, s); }
      case ArrayCount(_, _) => FinishCount(env, s);
      case FixlenVal(_, rem, elem, left) => FinishPayload(env, s, rem + (left - 1) * elem);
      case FixlenRaw(_, rem, _) => FinishPayload(env, s, rem);
    }
    CloseAll(env, RunBytes(env, s, f));
  }

  /** No strict text is half read. */
  predicate NoText<U, D, S>(s: State<U, D, S>)
  {
    s.Live? && s.ctl.FixlenRaw? ==> s.ctl.text.None?
  }

  lemma WordBindsNoText<U(!new), D, S(!new)>(env: Env<U, D, S>, s: State<U, D, S>, w: nat)
    requires Gentle(env) && s.Live? && s.scopes != [] && InVarint(s.ctl)
    ensures NoText(OnVarint(env, s, w))
  {
    hide Gentle, StoreAll, ScalarBytes, OnHeader, OnScalar, OnArrayCount, OnElementWord;
    match s.ctl
    case Idle => HeaderBindsNoText(env, s, w);
    case Scalars(_, _, _, _, _) => ScalarBindsNoText(env, s, w);
    case ArrayCount(_, _) => CountBindsNoText(env, s, w);
    case FixlenWord(id, list, _) =>
      if list {
        ElementWordBindsNoText(env, s, w);
      } else if s.skip == 0 {
        GentleAnswers(env, Effect(s.user, s.calls), s.scopes, Call(id, w / 8, 0, FIXLEN + 8 * (w % 8)));
      }
  }

  lemma HeaderBindsNoText<U, D, S>(env: Env<U, D, S>, s: State<U, D, S>, w: nat)
    requires s.Live? && s.scopes != [] && s.ctl.Idle?
    ensures NoText(OnHeader(env, s, w))
  {
  }

  lemma ScalarBindsNoText<U, D, S>(env: Env<U, D, S>, s: State<U, D, S>, w: nat)
    requires s.Live? && s.ctl.Scalars?
    ensures NoText(OnScalar(env, s, w))
  {
    hide StoreAll, ScalarBytes;
  }

  lemma CountBindsNoText<U, D, S>(env: Env<U, D, S>, s: State<U, D, S>, w: nat)
    requires s.Live? && s.scopes != [] && s.ctl.ArrayCount?
    ensures NoText(OnArrayCount(env, s, w))
  {
    hide StoreAll;
  }

  lemma ElementWordBindsNoText<U, D, S>(env: Env<U, D, S>, s: State<U, D, S>, w: nat)
    requires s.Live? && s.scopes != [] && s.ctl.FixlenWord? && s.ctl.list
    ensures NoText(OnElementWord(env, s, w))
  {
    hide StoreAll;
  }

  lemma {:induction false} RunBindsNoText<U(!new), D, S(!new)>(env: Env<U, D, S>, s: State<U, D, S>, bs: seq<byte>)
    requires Gentle(env) && NoText(s)
    ensures NoText(RunBytes(env, s, bs))
    decreases |bs|
  {
    hide Gentle, OnVarint, ValidText;
    if bs != [] {
      if s.Live? && s.scopes != [] && InVarint(s.ctl) {
        match Step(env.W, s.acc, bs[0]) {
          case Done(v) => WordBindsNoText(env, s.(acc := ZERO), v);
          case More(_) =>
          case Overflow =>
        }
      }
      RunBindsNoText(env, StepByte(env, s, bs[0]), bs[1..]);
    }
  }

  /**
   * No dead ends: under a callback that binds no leaf, whatever bytes have been consumed without refusal, as long
   * as no varint is half read, the computed suffix completes the message.
   */
  lemma {:induction false} EveryRunIsCompletable<U(!new), D, S(!new)>(env: Env<U, D, S>, user: U, sc: S, b: seq<byte>)
    requires Gentle(env)
    ensures var s := RunBytes(env, Init(user, sc), b);
      Good(s) && s.acc.shift == 0 ==> StateOk(s) && VerdictOf(RunBytes(env, Init(user, sc), b + Suffix(s))) == Ok
  {
    hide RunBytes, Gentle, Suffix, StateOk;
    var s0 := Init<U, D, S>(user, sc);
    StartOk<U, D, S>(user, sc);
    RunKeeps(env, s0, b);
    RunBindsNoText(env, s0, b);
    var s := RunBytes(env, s0, b);
    if Good(s) && s.acc.shift == 0 {
      NothingPending(s);
      Completable(env, s);
      RunAppend(env, s0, b, Suffix(s));
    }
  }

  lemma StartOk<U, D, S>(user: U, sc: S)
    ensures StateOk(Init<U, D, S>(user, sc))
  {
  }

  lemma NothingPending<U, D, S>(s: State<U, D, S>)
    requires StateOk(s) && s.Live? && s.acc.shift == 0
    ensures s.acc == ZERO
  {
  }

  /** A callback that binds one byte and condemns the message in the same breath; the destination is the state. */
  function Condemning(W: WordSize): Env<int, (), ()>
  {
    Env(W, false, (u, s, c) => Reply(u, ReadBytes((), 1, false, false), true), (u, d, i, b) => b)
  }

  lemma {:induction false} CondemnedSteps(W: WordSize)
    ensures var env, s := Condemning(W), Init<int, (), ()>(0, ());
      var s1 := OnVarint(env, s, 2);
      var s2 := OnVarint(env, s1, 11);
      && s1.Live? && s1.scopes == [()] && InVarint(s1.ctl) && s1.acc == ZERO
      && s2.Live? && s2.condemned && s2.user == 0 && StepByte(env, s2, 5).user == 5
  {
    var env, s := Condemning(W), Init<int, (), ()>(0, ());
    assert OnVarint(env, s, 2) == s.(ctl := FixlenWord(0, false, 0));
    var s2 := OnVarint(env, s.(ctl := FixlenWord(0, false, 0)), 11);
    assert s2.ctl == FixlenRaw(At((), 0), 1, None);
  }

  /**
   * The proviso is needed: a payload byte that arrives in the feed of the condemnation is stored, in the next feed
   * it is not looked at.
   */
  lemma {:induction false} CondemnedDestinationsDiffer(W: WordSize)
    ensures var env, s := Condemning(W), Init<int, (), ()>(0, ());
      Feeds(env, s, [[2, 11, 5]]).user == 5 && Feeds(env, s, [[2, 11], [5]]).user == 0
  {
    hide OnVarint, StepByte, Condemning;
    CondemnedSteps(W);
    var env, s := Condemning(W), Init<int, (), ()>(0, ());
    var s1 := OnVarint(env, s, 2);
    var s2 := OnVarint(env, s1, 11);
    assert [2 as byte, 11, 5] == [2] + [11, 5] && [11 as byte, 5] == [11] + [5] && [2 as byte, 11] == [2] + [11] && [11 as byte] == [11] + [];
    FeedSmall(env, s, 2, [11, 5]);
    FeedSmall(env, s1, 11, [5]);
    FeedSmall(env, s, 2, [11]);
    FeedSmall(env, s1, 11, []);
    assert [5 as byte][1..] == [];
    var one: seq<seq<byte>> := [[2, 11, 5]];
    var two: seq<seq<byte>> := [[2, 11], [5]];
    assert one[1..] == [] && two[1..] == [[5 as byte]] && [[5 as byte]][1..] == [];
    DeadStays(env, Seal(s2), [5]);
  }
}

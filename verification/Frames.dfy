/**
 * Where the decoder writes, over every run and whatever the verdict: inside the destinations the callback bound and
 * nowhere else, refused and cut-off values included.
 */
module Frames {
  import opened Bytes
  import opened Varint
  import opened Wire
  import opened Utf8
  import opened Decoder
  import opened Meaning
  import opened DecoderTheorems
  import opened SkipTheorems

  /** How many bytes each destination owns, and the scopes whose callbacks keep to that. */
  datatype Bounds<!D, !S> = Bounds(cap: D -> nat, ours: S -> bool)

  predicate ReadFits<D, S>(bd: Bounds<D, S>, a: Action<D, S>)
  {
    match a
    case Decline => true
    case ReadSequence(sc) => bd.ours(sc)
    case _ => Extent(a) <= bd.cap(a.dst)
  }

  /** Every read the callback makes in a scope of ours stays within its destination. */
  ghost predicate KeepsTo<U(!new), D, S(!new)>(env: Env<U, D, S>, bd: Bounds<D, S>)
  {
    forall u: U, sc: S, c: Call :: bd.ours(sc) ==> ReadFits(bd, env.call(u, sc, c).act)
  }

  /** J survives the callback and every store inside a destination; nothing is asked of stores outside. */
  ghost predicate Preserves<U(!new), D(!new), S(!new)>(env: Env<U, D, S>, bd: Bounds<D, S>, J: U -> bool)
  {
    && (forall u: U, sc: S, c: Call :: bd.ours(sc) && J(u) ==> J(env.call(u, sc, c).user))
    && (forall u: U, d: D, pos: nat, b: byte :: J(u) && pos < bd.cap(d) ==> J(env.store(u, d, pos, b)))
  }

  /** The same environment but for what a store outside its destination would do. */
  ghost predicate AgreeInside<U(!new), D(!new), S(!new)>(env: Env<U, D, S>, other: Env<U, D, S>, bd: Bounds<D, S>)
  {
    && other.W == env.W && other.strict == env.strict && other.call == env.call
    && (forall u: U, d: D, pos: nat, b: byte :: pos < bd.cap(d) ==> other.store(u, d, pos, b) == env.store(u, d, pos, b))
  }

  ghost predicate Setting<U(!new), D(!new), S(!new)>(env: Env<U, D, S>, other: Env<U, D, S>, bd: Bounds<D, S>, J: U -> bool)
  {
    KeepsTo(env, bd) && Preserves(env, bd, J) && AgreeInside(env, other, bd)
  }

  /** What is left to write of the bound value lies within its destination. */
  predicate TargetFits<D, S>(bd: Bounds<D, S>, ctl: Control<D>)
  {
    match ctl
    case Scalars(_, to, width, _, left) => to.At? ==> to.pos + left * width <= bd.cap(to.dst)
    case FixlenVal(to, rem, elem, left) => to.At? && left >= 1 ==> to.pos + rem + (left - 1) * elem <= bd.cap(to.dst)
    case FixlenRaw(to, rem, _) => to.At? ==> to.pos + rem <= bd.cap(to.dst)
    case _ => true
  }

  ghost predicate Confined<U, D, S>(bd: Bounds<D, S>, s: State<U, D, S>)
  {
    s.Live? ==> TargetFits(bd, s.ctl) && forall i :: 0 <= i < |s.scopes| ==> bd.ours(s.scopes[i])
  }

  // ---------------------------------------------------------------- one step

  lemma {:induction false} StoresInside<U(!new), D(!new), S(!new)>(
    env: Env<U, D, S>, other: Env<U, D, S>, bd: Bounds<D, S>, J: U -> bool, u: U, d: D, pos: nat, bs: seq<byte>)
    requires Setting(env, other, bd, J) && J(u) && pos + |bs| <= bd.cap(d)
    ensures J(StoreAll(env, u, d, pos, bs)) && StoreAll(other, u, d, pos, bs) == StoreAll(env, u, d, pos, bs)
    decreases |bs|
  {
    if bs != [] {
      StoresInside(env, other, bd, J, env.store(u, d, pos, bs[0]), d, pos + 1, bs[1..]);
    }
  }

  /** A consultation leaves a read that fits. */
  lemma {:induction false} AsksInside<U(!new), D(!new), S(!new)>(
    env: Env<U, D, S>, other: Env<U, D, S>, bd: Bounds<D, S>, J: U -> bool, s: State<U, D, S>, c: Call)
    requires Setting(env, other, bd, J) && s.Live? && s.scopes != [] && Confined(bd, s) && J(s.user)
    ensures var (t, a) := Consult(env, s, c);
      && Consult(other, s, c) == (t, a) && J(t.user) && ReadFits(bd, a) && (a.Decline? || ExpectedOpt(a) == c.opt)
  {
    hide Extent;
    var sc := s.scopes[|s.scopes| - 1];
    assert ReadFits(bd, env.call(s.user, sc, c).act);
  }

  lemma {:induction false} HeaderInside<U(!new), D(!new), S(!new)>(
    env: Env<U, D, S>, other: Env<U, D, S>, bd: Bounds<D, S>, J: U -> bool, s: State<U, D, S>, w: nat)
    requires Setting(env, other, bd, J) && s.Live? && s.scopes != [] && s.ctl.Idle? && Confined(bd, s) && J(s.user)
    ensures var t := OnHeader(env, s, w); OnHeader(other, s, w) == t && Confined(bd, t) && J(t.user)
  {
    hide Consult, IdMax, KeepsTo, Preserves;
    AsksInside(env, other, bd, J, s, Call(w / 8, 0, 0, w % 8));
  }

  lemma {:induction false} ScalarInside<U(!new), D(!new), S(!new)>(
    env: Env<U, D, S>, other: Env<U, D, S>, bd: Bounds<D, S>, J: U -> bool, s: State<U, D, S>, w: nat)
    requires Setting(env, other, bd, J) && s.Live? && s.ctl.Scalars? && ControlOk(s.ctl) && Confined(bd, s) && J(s.user)
    ensures var t := OnScalar(env, s, w); OnScalar(other, s, w) == t && Confined(bd, t) && J(t.user)
  {
    hide ScalarBytes, KeepsTo, Preserves, StoreAll;
    var c := s.ctl;
    MulLess(1, c.left, c.width);
    assert (c.left - 1) * c.width == c.left * c.width - c.width;
    if c.to.At? { StoresInside(env, other, bd, J, s.user, c.to.dst, c.to.pos, ScalarBytes(c.num, c.width, w).0); }
  }

  lemma {:induction false} CountInside<U(!new), D(!new), S(!new)>(
    env: Env<U, D, S>, other: Env<U, D, S>, bd: Bounds<D, S>, J: U -> bool, s: State<U, D, S>, n: nat)
    requires Setting(env, other, bd, J) && s.Live? && s.scopes != [] && s.ctl.ArrayCount? && Confined(bd, s) && J(s.user)
    ensures var t := OnArrayCount(env, s, n); OnArrayCount(other, s, n) == t && Confined(bd, t) && J(t.user)
  {
    hide Consult, KeepsTo, Preserves, StoreAll;
    var c := Call(s.ctl.id, 0, n, s.ctl.ty);
    AsksInside(env, other, bd, J, s, c);
    var (t, a) := Consult(env, s, c);
    if a.ReadInts? && n <= a.n {
      WholeWords(a.n, n, a.width);
      StoresInside(env, other, bd, J, t.user, a.dst, n * a.width, Zeros((a.n - n) * a.width));
    }
  }

  lemma {:induction false} ElementWordInside<U(!new), D(!new), S(!new)>(
    env: Env<U, D, S>, other: Env<U, D, S>, bd: Bounds<D, S>, J: U -> bool, s: State<U, D, S>, w: nat)
    requires Setting(env, other, bd, J) && s.Live? && s.scopes != [] && s.ctl.FixlenWord? && s.ctl.list && Confined(bd, s) && J(s.user)
    ensures var t := OnElementWord(env, s, w); OnElementWord(other, s, w) == t && Confined(bd, t) && J(t.user)
  {
    hide Consult, KeepsTo, Preserves, StoreAll;
    var sub, len, n := w % 8, w / 8, s.ctl.count;
    var c := Call(s.ctl.id, len, n, ARRAY_FIXLEN + 8 * sub);
    AsksInside(env, other, bd, J, s, c);
    var (t, a) := Consult(env, s, c);
    if ElementWordOk(sub, len) && a.ReadFloats? && n <= a.n {
      assert FloatWidth(a.fp64) == len;
      WholeWords(a.n, n, len);
      assert n > 0 ==> len + (n - 1) * len == n * len;
      StoresInside(env, other, bd, J, t.user, a.dst, n * len, Zeros((a.n - n) * len));
    }
  }

  lemma {:induction false} ScalarWordInside<U(!new), D(!new), S(!new)>(
    env: Env<U, D, S>, other: Env<U, D, S>, bd: Bounds<D, S>, J: U -> bool, s: State<U, D, S>, w: nat)
    requires Setting(env, other, bd, J) && s.Live? && s.scopes != [] && s.ctl.FixlenWord? && !s.ctl.list && Confined(bd, s) && J(s.user)
    ensures var t := OnScalarWord(env, s, w); OnScalarWord(other, s, w) == t && Confined(bd, t) && J(t.user)
  {
    hide Consult, KeepsTo, Preserves, StoreAll;
    var sub, len := w % 8, w / 8;
    var c := Call(s.ctl.id, len, 0, FIXLEN + 8 * sub);
    AsksInside(env, other, bd, J, s, c);
    var (t, a) := Consult(env, s, c);
    if a.ReadBytes? && len + (if a.term then 1 else 0) <= a.cap && a.term {
      StoresInside(env, other, bd, J, t.user, a.dst, len, [0]);
    }
  }

  lemma {:induction false} WordInside<U(!new), D(!new), S(!new)>(
    env: Env<U, D, S>, other: Env<U, D, S>, bd: Bounds<D, S>, J: U -> bool, s: State<U, D, S>, w: nat)
    requires Setting(env, other, bd, J) && s.Live? && s.scopes != [] && InVarint(s.ctl) && ControlOk(s.ctl) && Confined(bd, s) && J(s.user)
    ensures var t := OnVarint(env, s, w); OnVarint(other, s, w) == t && Confined(bd, t) && J(t.user)
  {
    hide OnHeader, OnScalar, OnArrayCount, OnElementWord, OnScalarWord, Setting, Confined;
    match s.ctl
    case Idle => HeaderInside(env, other, bd, J, s, w);
    case Scalars(_, _, _, _, _) => ScalarInside(env, other, bd, J, s, w);
    case ArrayCount(_, _) => CountInside(env, other, bd, J, s, w);
    case FixlenWord(_, list, _) =>
      if list { ElementWordInside(env, other, bd, J, s, w); } else { ScalarWordInside(env, other, bd, J, s, w); }
  }

  lemma {:induction false} PayloadInside<U(!new), D(!new), S(!new)>(
    env: Env<U, D, S>, other: Env<U, D, S>, bd: Bounds<D, S>, J: U -> bool, s: State<U, D, S>, b: byte)
    requires Setting(env, other, bd, J) && s.Live? && !InVarint(s.ctl) && ControlOk(s.ctl) && Confined(bd, s) && J(s.user)
    ensures var t := OnPayload(env, s, b); OnPayload(other, s, b) == t && Confined(bd, t) && J(t.user)
  {
    hide KeepsTo, ValidText;
    if s.ctl.FixlenVal? {
      assert (s.ctl.left - 1) * s.ctl.elem >= 0;
      assert s.ctl.left > 1 ==> s.ctl.elem + (s.ctl.left - 2) * s.ctl.elem == (s.ctl.left - 1) * s.ctl.elem;
    }
  }

  lemma {:induction false} StepInside<U(!new), D(!new), S(!new)>(
    env: Env<U, D, S>, other: Env<U, D, S>, bd: Bounds<D, S>, J: U -> bool, s: State<U, D, S>, b: byte)
    requires Setting(env, other, bd, J) && StateOk(s) && Confined(bd, s) && J(s.user)
    ensures var t := StepByte(env, s, b); StepByte(other, s, b) == t && Confined(bd, t) && J(t.user)
  {
    hide OnVarint, OnPayload, ControlOk, KeepsTo, Preserves, TargetFits;
    if s.Live? {
      if InVarint(s.ctl) {
        match Step(env.W, s.acc, b)
        case More(_) =>
        case Overflow =>
        case Done(v) => WordInside(env, other, bd, J, s.(acc := ZERO), v);
      } else {
        PayloadInside(env, other, bd, J, s, b);
      }
    }
  }

  // ---------------------------------------------------------------- every run

  /**
   * Whatever bytes arrive and whatever becomes of the message, the decoder stores only inside the destinations the
   * callback bound: a property that the callback and stores inside them preserve holds after every run, and what a
   * store outside would do cannot be told.
   */
  lemma {:induction false} RunsStayInside<U(!new), D(!new), S(!new)>(
    env: Env<U, D, S>, other: Env<U, D, S>, bd: Bounds<D, S>, J: U -> bool, s: State<U, D, S>, bs: seq<byte>)
    requires KeepsTo(env, bd) && Preserves(env, bd, J) && AgreeInside(env, other, bd)
    requires StateOk(s) && Confined(bd, s) && J(s.user)
    ensures var r := RunBytes(env, s, bs); RunBytes(other, s, bs) == r && Confined(bd, r) && J(r.user)
    decreases |bs|
  {
    hide StepByte, KeepsTo, Preserves, AgreeInside, Confined, StateOk;
    if bs != [] {
      StepKeeps(env, s, bs[0]);
      StepInside(env, other, bd, J, s, bs[0]);
      RunsStayInside(env, other, bd, J, StepByte(env, s, bs[0]), bs[1..]);
    }
  }

  /** ... and over any number of feeds. */
  lemma {:induction false} FeedsStayInside<U(!new), D(!new), S(!new)>(
    env: Env<U, D, S>, other: Env<U, D, S>, bd: Bounds<D, S>, J: U -> bool, s: State<U, D, S>, chunks: seq<seq<byte>>)
    requires KeepsTo(env, bd) && Preserves(env, bd, J) && AgreeInside(env, other, bd)
    requires StateOk(s) && Confined(bd, s) && J(s.user)
    ensures var r := Feeds(env, s, chunks); Feeds(other, s, chunks) == r && Confined(bd, r) && J(r.user)
    decreases |chunks|
  {
    hide RunBytes, KeepsTo, Preserves, AgreeInside, StateOk, TargetFits;
    if chunks != [] {
      RunKeeps(env, s, chunks[0]);
      RunsStayInside(env, other, bd, J, s, chunks[0]);
      SealKeeps(RunBytes(env, s, chunks[0]));
      FeedsStayInside(env, other, bd, J, Feed(env, s, chunks[0]), chunks[1..]);
    }
  }

  lemma SealKeeps<U, D, S>(s: State<U, D, S>)
    requires StateOk(s)
    ensures StateOk(Seal(s))
  {
  }

  // ---------------------------------------------------------------- flat memory

  /** Equal at every address outside R. */
  predicate SameOutside(R: set<nat>, m: seq<byte>, m': seq<byte>)
  {
    |m| == |m'| && forall a :: 0 <= a < |m| && a !in R ==> m'[a] == m[a]
  }

  /** How far R reaches from an address without a gap. */
  ghost function Reach(R: set<nat>, base: nat): nat
  {
    if base in R then 1 + Reach(R - {base}, base + 1) else 0
  }

  lemma {:induction false} ReachIsInside(R: set<nat>, base: nat, pos: nat)
    requires pos < Reach(R, base)
    ensures base + pos in R
    decreases pos
  {
    if pos > 0 { ReachIsInside(R - {base}, base + 1, pos - 1); }
  }

  lemma {:induction false} InsideIsReached(R: set<nat>, base: nat, n: nat)
    requires forall a :: base <= a < base + n ==> a in R
    ensures n <= Reach(R, base)
    decreases n
  {
    if n > 0 { InsideIsReached(R - {base}, base + 1, n - 1); }
  }

  predicate LeafRead<D, S>(a: Action<D, S>)
  {
    !a.Decline? && !a.ReadSequence?
  }

  /** A flat-memory application that keeps to R: its callback changes nothing outside R and binds only regions of R. */
  ghost predicate Owns<S(!new)>(env: Env<seq<byte>, nat, S>, R: set<nat>)
  {
    env.store == Poke &&
    forall m: seq<byte>, sc: S, c: Call :: var r := env.call(m, sc, c);
      && SameOutside(R, m, r.user)
      && (LeafRead(r.act) ==> forall a :: r.act.dst <= a < r.act.dst + Extent(r.act) ==> a in R)
  }

  /** The bytes still to come of the bound value go to R. */
  predicate TargetIn<S>(R: set<nat>, s: State<seq<byte>, nat, S>)
  {
    s.Live? ==>
      match s.ctl
      case Scalars(_, At(d, pos), width, _, left) => forall a :: d <= a < d + pos + left * width ==> a in R
      case FixlenVal(At(d, pos), rem, elem, left) => left >= 1 ==> forall a :: d <= a < d + pos + rem + (left - 1) * elem ==> a in R
      case FixlenRaw(At(d, pos), rem, _) => forall a :: d <= a < d + pos + rem ==> a in R
      case _ => true
  }

  ghost function RegionBounds<S(!new)>(R: set<nat>): Bounds<nat, S>
  {
    Bounds((d: nat) => Reach(R, d), (sc: S) => true)
  }

  lemma {:induction false} OwnerKeepsTo<S(!new)>(env: Env<seq<byte>, nat, S>, R: set<nat>)
    requires Owns(env, R)
    ensures KeepsTo(env, RegionBounds(R))
  {
    hide Extent;
    forall m: seq<byte>, sc: S, c: Call
      ensures ReadFits(RegionBounds(R), env.call(m, sc, c).act)
    {
      var a := env.call(m, sc, c).act;
      if LeafRead(a) { InsideIsReached(R, a.dst, Extent(a)); }
    }
  }

  lemma {:induction false} OwnerPreserves<S(!new)>(env: Env<seq<byte>, nat, S>, R: set<nat>, m0: seq<byte>)
    requires Owns(env, R)
    ensures Preserves(env, RegionBounds(R), m => SameOutside(R, m0, m))
  {
    hide Extent;
    forall m: seq<byte>, sc: S, c: Call | SameOutside(R, m0, m)
      ensures SameOutside(R, m0, env.call(m, sc, c).user)
    {
      assert SameOutside(R, m, env.call(m, sc, c).user);
    }
    forall m: seq<byte>, d: nat, pos: nat, b: byte | SameOutside(R, m0, m) && pos < Reach(R, d)
      ensures SameOutside(R, m0, env.store(m, d, pos, b))
    {
      ReachIsInside(R, d, pos);
    }
  }

  lemma {:induction false} TargetInFits<S(!new)>(R: set<nat>, s: State<seq<byte>, nat, S>)
    requires TargetIn(R, s)
    ensures Confined(RegionBounds(R), s)
  {
    if s.Live? {
      match s.ctl
      case Scalars(_, At(d, pos), width, _, left) => InsideIsReached(R, d, pos + left * width);
      case FixlenVal(At(d, pos), rem, elem, left) => if left >= 1 { InsideIsReached(R, d, pos + rem + (left - 1) * elem); }
      case FixlenRaw(At(d, pos), rem, _) => InsideIsReached(R, d, pos + rem);
      case _ =>
    }
  }

  /**
   * Memory outside the bound regions is untouched: whatever the bytes and the verdict, and however they are cut into
   * feeds, memory changes at most in R; and what a store past it would do (here: be dropped) makes no difference.
   */
  lemma {:induction false} MemoryOutsideIsUntouched<S(!new)>(
    env: Env<seq<byte>, nat, S>, R: set<nat>, s: State<seq<byte>, nat, S>, bs: seq<byte>, chunks: seq<seq<byte>>)
    requires Owns(env, R) && StateOk(s) && TargetIn(R, s)
    ensures SameOutside(R, s.user, RunBytes(env, s, bs).user)
    ensures SameOutside(R, s.user, Feeds(env, s, chunks).user)
    ensures forall other: Env<seq<byte>, nat, S> :: DiffersOutside(env, other, R) ==>
      RunBytes(other, s, bs) == RunBytes(env, s, bs) && Feeds(other, s, chunks) == Feeds(env, s, chunks)
  {
    hide RunBytes, Feeds, Owns, StateOk, KeepsTo, Preserves, Confined;
    var bd, J := RegionBounds<S>(R), m => SameOutside(R, s.user, m);
    OwnerKeepsTo(env, R);
    OwnerPreserves(env, R, s.user);
    TargetInFits(R, s);
    RunsStayInside(env, env, bd, J, s, bs);
    FeedsStayInside(env, env, bd, J, s, chunks);
    forall other: Env<seq<byte>, nat, S> | DiffersOutside(env, other, R)
      ensures RunBytes(other, s, bs) == RunBytes(env, s, bs) && Feeds(other, s, chunks) == Feeds(env, s, chunks)
    {
      OutsideAgrees(env, other, R);
      RunsStayInside(env, other, bd, J, s, bs);
      FeedsStayInside(env, other, bd, J, s, chunks);
    }
  }

  /** The same application over memory whose stores outside R do anything at all. */
  ghost predicate DiffersOutside<S(!new)>(env: Env<seq<byte>, nat, S>, other: Env<seq<byte>, nat, S>, R: set<nat>)
  {
    && other.W == env.W && other.strict == env.strict && other.call == env.call
    && forall m: seq<byte>, d: nat, pos: nat, b: byte :: d + pos in R ==> other.store(m, d, pos, b) == env.store(m, d, pos, b)
  }

  lemma {:induction false} OutsideAgrees<S(!new)>(env: Env<seq<byte>, nat, S>, other: Env<seq<byte>, nat, S>, R: set<nat>)
    requires DiffersOutside(env, other, R)
    ensures AgreeInside(env, other, RegionBounds(R))
  {
    forall m: seq<byte>, d: nat, pos: nat, b: byte | pos < Reach(R, d)
      ensures other.store(m, d, pos, b) == env.store(m, d, pos, b)
    {
      ReachIsInside(R, d, pos);
    }
  }

  // ---------------------------------------------------------------- strict text in flat memory

  /** The copy kept of a half-read strict text is what lies in its destination. */
  predicate TextKept<S>(s: State<seq<byte>, nat, S>)
  {
    s.Live? && s.ctl.FixlenRaw? && s.ctl.text.Some? ==>
      var (to, text) := (s.ctl.to, s.ctl.text.value);
      && to.At? && |text| == to.pos
      && (to.dst + to.pos + s.ctl.rem <= |s.user| ==> s.user[to.dst..to.dst + to.pos] == text)
  }

  lemma {:induction false} WordKeepsText<S>(env: Env<seq<byte>, nat, S>, s: State<seq<byte>, nat, S>, w: nat)
    requires s.Live? && s.scopes != [] && InVarint(s.ctl)
    ensures TextKept(OnVarint(env, s, w))
  {
    hide StoreAll, ScalarBytes, OnHeader, OnScalar, OnArrayCount, OnElementWord, Consult;
    match s.ctl
    case Idle => HeaderBindsNoText(env, s, w);
    case Scalars(_, _, _, _, _) => ScalarBindsNoText(env, s, w);
    case ArrayCount(_, _) => CountBindsNoText(env, s, w);
    case FixlenWord(_, list, _) => if list { ElementWordBindsNoText(env, s, w); }
  }

  lemma {:induction false} PayloadKeepsText<S>(env: Env<seq<byte>, nat, S>, s: State<seq<byte>, nat, S>, b: byte)
    requires env.store == Poke && s.Live? && !InVarint(s.ctl) && TextKept(s)
    ensures TextKept(OnPayload(env, s, b))
  {
    hide ValidText;
    if s.ctl.FixlenRaw? && s.ctl.text.Some? && s.ctl.to.dst + s.ctl.to.pos + s.ctl.rem <= |s.user| && s.ctl.rem > 0 {
      PokeExtends(s.user, s.ctl.to.dst, s.ctl.to.pos, b);
    }
  }

  lemma PokeExtends(m: seq<byte>, base: nat, pos: nat, b: byte)
    requires base + pos < |m|
    ensures Poke(m, base, pos, b)[base..base + pos + 1] == m[base..base + pos] + [b]
  {
  }

  lemma {:induction false} RunKeepsText<S>(env: Env<seq<byte>, nat, S>, s: State<seq<byte>, nat, S>, bs: seq<byte>)
    requires env.store == Poke && StateOk(s) && TextKept(s)
    ensures TextKept(RunBytes(env, s, bs))
    decreases |bs|
  {
    hide OnVarint, OnPayload, ControlOk;
    if bs != [] {
      if s.Live? && InVarint(s.ctl) {
        match Step(env.W, s.acc, bs[0]) {
          case Done(v) => WordKeepsText(env, s.(acc := ZERO), v);
          case More(_) =>
          case Overflow =>
        }
      } else if s.Live? {
        PayloadKeepsText(env, s, bs[0]);
      }
      StepKeeps(env, s, bs[0]);
      RunKeepsText(env, StepByte(env, s, bs[0]), bs[1..]);
    }
  }

  /**
   * A strict text is judged by the bytes that lie in its destination, however the payload was cut: on its last byte
   * the message is rejected iff what memory then holds of the payload is not valid UTF-8.
   */
  lemma {:induction false} TextIsJudgedInPlace<S>(env: Env<seq<byte>, nat, S>, user: seq<byte>, sc: S, bs: seq<byte>, b: byte)
    requires env.store == Poke
    requires var s := RunBytes<seq<byte>, nat, S>(env, Init(user, sc), bs);
      s.Live? && s.ctl.FixlenRaw? && s.ctl.text.Some? && s.ctl.rem == 1 && s.ctl.to.At? && s.ctl.to.dst + s.ctl.to.pos < |s.user|
    ensures var s := RunBytes<seq<byte>, nat, S>(env, Init(user, sc), bs);
      var m := Poke(s.user, s.ctl.to.dst, s.ctl.to.pos, b);
      RunBytes<seq<byte>, nat, S>(env, Init(user, sc), bs + [b])
        == if ValidText(m[s.ctl.to.dst..s.ctl.to.dst + s.ctl.to.pos + 1]) then s.(user := m, ctl := Idle) else Dead(m, s.calls)
  {
    hide RunBytes, ValidText;
    var s0 := Init<seq<byte>, nat, S>(user, sc);
    StartOk<seq<byte>, nat, S>(user, sc);
    RunKeeps(env, s0, bs);
    RunKeepsText(env, s0, bs);
    RunAppend(env, s0, bs, [b]);
    var s := RunBytes(env, s0, bs);
    PokeExtends(s.user, s.ctl.to.dst, s.ctl.to.pos, b);
    RunOne(env, s, b);
  }

  lemma {:induction false} RunOne<U, D, S>(env: Env<U, D, S>, s: State<U, D, S>, b: byte)
    ensures RunBytes(env, s, [b]) == StepByte(env, s, b)
  {
    hide StepByte;
    assert [b][1..] == [];
  }
}

/**
 * The resumable decoder as a state machine over single bytes.
 *
 * U is everything the application owns (destinations included), D names a destination and S the user
 * pointer of one decoder in the chain. The field callback is a deterministic function of the
 * application state, so any callback, with any private state, is covered.
 */
module Decoder {
  import opened Bytes
  import opened Varint
  import opened Wire
  import opened Utf8

  /** What the callback is told: field id, size, count, and the wire type with its subtype. */
  datatype Call = Call(id: nat, size: nat, count: nat, opt: nat)

  datatype Num = Unsigned | Signed | Boolean

  /** What the callback asks for: one typed read, or none. A text or blob capacity counts the terminator. */
  datatype Action<+D, +S> =
    | Decline
    | ReadInt(dst: D, num: Num, width: Width)
    | ReadFloat(dst: D, fp64: bool)
    | ReadBytes(dst: D, cap: nat, text: bool, term: bool)
    | ReadInts(dst: D, n: nat, num: Num, width: Width)
    | ReadFloats(dst: D, n: nat, fp64: bool)
    | ReadSequence(scope: S)

  datatype Reply<+U, +D, +S> = Reply(user: U, act: Action<D, S>, condemn: bool)

  /**
   * The environment of one stream: value width, strict text validation, the field callback, and the
   * store of one byte at an offset of a destination.
   */
  datatype Env<!U, !D, !S> = Env(
    W: WordSize, strict: bool, call: (U, S, Call) -> Reply<U, D, S>, store: (U, D, nat, byte) -> U)

  /** The type and subtype a read expects on the wire. */
  function ExpectedOpt<D, S>(a: Action<D, S>): nat
  {
    match a
    case Decline => 0
    case ReadInt(_, num, _) => if num.Signed? then SIGNED else UNSIGNED
    case ReadFloat(_, fp64) => FIXLEN + 8 * (if fp64 then FP64 else FP32)
    case ReadBytes(_, _, text, _) => FIXLEN + 8 * (if text then STRING else BLOB)
    case ReadInts(_, _, num, _) => if num.Signed? then ARRAY_SIGNED else ARRAY_UNSIGNED
    case ReadFloats(_, _, fp64) => ARRAY_FIXLEN + 8 * (if fp64 then FP64 else FP32)
    case ReadSequence(_) => BEGIN
  }

  /** A read that contradicts the wire is undone: the field is skipped as if it had been declined. */
  function Settle<D, S>(a: Action<D, S>, opt: nat): Action<D, S>
  {
    if a.Decline? || ExpectedOpt(a) == opt then a else Decline
  }

  // ---------------------------------------------------------------- state

  datatype Target<+D> = Skip | At(dst: D, pos: nat)

  /** Where the decoder stands inside a field. */
  datatype Control<+D> =
    | Idle
    | Scalars(num: Num, to: Target<D>, width: Width, list: bool, left: nat)
    | FixlenWord(id: nat, list: bool, count: nat)
    | ArrayCount(id: nat, ty: nat)
    | FixlenVal(to: Target<D>, rem: nat, elem: nat, left: nat)
    | FixlenRaw(to: Target<D>, rem: nat, text: Option<seq<byte>>)

  /**
   * Live: decoding. `scopes` is the decoder chain, innermost last; `skip` counts the skipped sequences
   * open inside it; `condemned` is a refusal by the callback. Dead: the message was rejected.
   */
  datatype State<+U, +D, +S> =
    | Live(user: U, calls: seq<Call>, scopes: seq<S>, skip: nat, ctl: Control<D>, acc: Acc, condemned: bool)
    | Dead(user: U, calls: seq<Call>)

  datatype Verdict = Ok | Incomplete | Invalid

  predicate AtBoundary<U, D, S>(s: State<U, D, S>)
  {
    s.Live? && s.acc.shift == 0 && s.ctl.Idle? && s.skip == 0 && |s.scopes| <= 1
  }

  /** A live state no callback has condemned. */
  predicate Good<U, D, S>(s: State<U, D, S>)
  {
    s.Live? && !s.condemned
  }

  function VerdictOf<U, D, S>(s: State<U, D, S>): Verdict
  {
    if !Good(s) then Invalid else if AtBoundary(s) then Ok else Incomplete
  }

  function Depth<U, D, S>(s: State<U, D, S>): int
    requires s.Live?
  {
    |s.scopes| - 1 + s.skip
  }

  function Init<U, D, S>(user: U, scope: S): State<U, D, S>
  {
    Live(user, [], [scope], 0, Idle, ZERO, false)
  }

  function Reject<U, D, S>(s: State<U, D, S>): State<U, D, S>
  {
    Dead(s.user, s.calls)
  }

  // ---------------------------------------------------------------- steps

  function StoreAll<U, D, S>(env: Env<U, D, S>, u: U, d: D, pos: nat, bs: seq<byte>): U
    decreases |bs|
  {
    if bs == [] then u else StoreAll(env, env.store(u, d, pos, bs[0]), d, pos + 1, bs[1..])
  }

  /** The state as the callback leaves it, with the read it made settled against the wire. */
  function Consult<U, D, S>(env: Env<U, D, S>, s: State<U, D, S>, c: Call): (r: (State<U, D, S>, Action<D, S>))
    requires s.Live? && s.scopes != []
    ensures r.0.Live? && r.0 == s.(user := r.0.user, calls := r.0.calls, condemned := r.0.condemned)
  {
    if s.skip > 0 then (s, Decline)
    else
      var r := env.call(s.user, s.scopes[|s.scopes| - 1], c);
      (s.(user := r.user, calls := s.calls + [c], condemned := s.condemned || r.condemn), Settle(r.act, c.opt))
  }

  function Advance<D>(t: Target<D>, k: nat): Target<D>
  {
    if t.At? then At(t.dst, t.pos + k) else Skip
  }

  /** The bytes an integer word leaves in a destination of the given kind, and whether it fits there. */
  function ScalarBytes(num: Num, width: Width, word: nat): (r: (seq<byte>, bool))
    ensures |r.0| == width
  {
    match num
    case Boolean => (LowBytes(if word != 0 then 1 else 0, width), true)
    case Unsigned => (LowBytes(word, width), word < Span(width))
    case Signed =>
      var v := UnZigZag(word);
      (LowBytes(LowWord(v, width), width), FitsSigned(v, width))
  }

  predicate InVarint<D>(ctl: Control<D>)
  {
    ctl.Idle? || ctl.Scalars? || ctl.FixlenWord? || ctl.ArrayCount?
  }

  /** A header word arrived between fields. */
  function OnHeader<U, D, S>(env: Env<U, D, S>, s: State<U, D, S>, word: nat): State<U, D, S>
    requires s.Live? && s.scopes != []
  {
    var id, ty := word / 8, word % 8;
    if s.condemned || id > IdMax(env.W) then Reject(s)
    else if ty == UNSIGNED || ty == SIGNED then
      var (t, act) := Consult(env, s, Call(id, 0, 0, ty));
      t.(ctl := match act
                case ReadInt(d, num, w) => Scalars(num, At(d, 0), w, false, 1)
                case _ => Scalars(if ty == SIGNED then Signed else Unsigned, Skip, 1, false, 1))
    else if ty == FIXLEN then s.(ctl := FixlenWord(id, false, 0))
    else if ty == BEGIN then
      if Depth(s) == MAX_DEPTH then Reject(s)
      else
        var (t, act) := Consult(env, s, Call(id, 0, 0, BEGIN));
        if act.ReadSequence? then t.(scopes := t.scopes + [act.scope]) else t.(skip := t.skip + 1)
    else if ty == END then
      if s.skip > 0 then s.(skip := s.skip - 1)
      else if |s.scopes| == 1 then Reject(s)
      else s.(scopes := s.scopes[..|s.scopes| - 1])
    else s.(ctl := ArrayCount(id, ty))
  }

  /** One integer word of a scalar or of an array: store first, then the width check. */
  function OnScalar<U, D, S>(env: Env<U, D, S>, s: State<U, D, S>, word: nat): State<U, D, S>
    requires s.Live? && s.ctl.Scalars?
  {
    var c := s.ctl;
    var (bytes, fits) := ScalarBytes(c.num, c.width, word);
    var s1 := if c.to.At? then s.(user := StoreAll(env, s.user, c.to.dst, c.to.pos, bytes)) else s;
    if c.to.At? && !fits then Reject(s1)
    else if c.list && c.left > 1 then
      s1.(ctl := Scalars(c.num, Advance(c.to, c.width), c.width, true, c.left - 1))
    else s1.(ctl := Idle)
  }

  /** The element count of an array. */
  function OnArrayCount<U, D, S>(env: Env<U, D, S>, s: State<U, D, S>, n: nat): State<U, D, S>
    requires s.Live? && s.scopes != [] && s.ctl.ArrayCount?
  {
    var id, ty := s.ctl.id, s.ctl.ty;
    if n > ARRAY_MAX then Reject(s)
    else if ty == ARRAY_FIXLEN then s.(ctl := FixlenWord(id, true, n))
    else
      var (t, act) := Consult(env, s, Call(id, 0, n, ty));
      match act
      case ReadInts(d, cap, num, w) =>
        if n > cap then Reject(t)
        else
          t.(user := StoreAll(env, t.user, d, n * w, Zeros((cap - n) * w)),
             ctl := if n == 0 then Idle else Scalars(num, At(d, 0), w, true, n))
      case _ =>
        t.(ctl := if n == 0 then Idle else Scalars(if ty == ARRAY_SIGNED then Signed else Unsigned, Skip, 1, true, n))
  }

  /** The shared length-and-subtype word of a float array. */
  function OnElementWord<U, D, S>(env: Env<U, D, S>, s: State<U, D, S>, word: nat): State<U, D, S>
    requires s.Live? && s.scopes != [] && s.ctl.FixlenWord? && s.ctl.list
  {
    var sub, len, n := word % 8, word / 8, s.ctl.count;
    if !ElementWordOk(sub, len) then Reject(s)
    else
      var (t, act) := Consult(env, s, Call(s.ctl.id, len, n, ARRAY_FIXLEN + 8 * sub));
      match act
      case ReadFloats(d, cap, _) =>
        if n > cap then Reject(t)
        else
          t.(user := StoreAll(env, t.user, d, n * len, Zeros((cap - n) * len)),
             ctl := if n == 0 then Idle else FixlenVal(At(d, 0), len, len, n))
      case _ => t.(ctl := if n == 0 then Idle else FixlenVal(Skip, len, len, n))
  }

  /** The length-and-subtype word of a scalar float, string or blob. */
  function OnScalarWord<U, D, S>(env: Env<U, D, S>, s: State<U, D, S>, word: nat): State<U, D, S>
    requires s.Live? && s.scopes != [] && s.ctl.FixlenWord? && !s.ctl.list
  {
    var sub, len := word % 8, word / 8;
    if !ScalarWordOk(sub, len) then Reject(s)
    else
      var (t, act) := Consult(env, s, Call(s.ctl.id, len, 0, FIXLEN + 8 * sub));
      match act
      case ReadFloat(d, _) => t.(ctl := FixlenVal(At(d, 0), len, len, 1))
      case ReadBytes(d, cap, text, term) =>
        if len + (if term then 1 else 0) > cap then Reject(t)
        else
          var t1 := if term then t.(user := StoreAll(env, t.user, d, len, [0])) else t;
          t1.(ctl := if len == 0 then Idle
                     else FixlenRaw(At(d, 0), len, if env.strict && text then Some([]) else None))
      case _ =>
        t.(ctl := if len == 0 then Idle
                  else if sub == FP32 || sub == FP64 then FixlenVal(Skip, len, len, 1)
                  else FixlenRaw(Skip, len, None))
  }

  /** A completed varint, dispatched on the control state. */
  function OnVarint<U, D, S>(env: Env<U, D, S>, s: State<U, D, S>, word: nat): State<U, D, S>
    requires s.Live? && s.scopes != [] && InVarint(s.ctl)
  {
    match s.ctl
    case Idle => OnHeader(env, s, word)
    case Scalars(_, _, _, _, _) => OnScalar(env, s, word)
    case FixlenWord(_, list, _) => if list then OnElementWord(env, s, word) else OnScalarWord(env, s, word)
    case ArrayCount(_, _) => OnArrayCount(env, s, word)
  }

  /** One payload byte. */
  function OnPayload<U, D, S>(env: Env<U, D, S>, s: State<U, D, S>, b: byte): State<U, D, S>
    requires s.Live? && !InVarint(s.ctl)
  {
    var s1 := if s.ctl.to.At? then s.(user := env.store(s.user, s.ctl.to.dst, s.ctl.to.pos, b)) else s;
    match s.ctl
    case FixlenVal(to, rem, elem, left) =>
      if rem > 1 then s1.(ctl := FixlenVal(Advance(to, 1), rem - 1, elem, left))
      else if left > 1 then s1.(ctl := FixlenVal(Advance(to, 1), elem, elem, left - 1))
      else s1.(ctl := Idle)
    case FixlenRaw(to, rem, text) =>
      var text' := if text.Some? then Some(text.value + [b]) else None;
      if rem > 1 then s1.(ctl := FixlenRaw(Advance(to, 1), rem - 1, text'))
      else if text'.Some? && !ValidText(text'.value) then Reject(s1)
      else s1.(ctl := Idle)
  }

  function StepByte<U, D, S>(env: Env<U, D, S>, s: State<U, D, S>, b: byte): State<U, D, S>
  {
    if s.Dead? || s.scopes == [] then s
    else if InVarint(s.ctl) then
      match Step(env.W, s.acc, b)
      case More(acc) => s.(acc := acc)
      case Done(v) => OnVarint(env, s.(acc := ZERO), v)
      case Overflow => Reject(s)
    else OnPayload(env, s, b)
  }

  function RunBytes<U, D, S>(env: Env<U, D, S>, s: State<U, D, S>, bs: seq<byte>): State<U, D, S>
    decreases |bs|
  {
    if bs == [] then s else RunBytes(env, StepByte(env, s, bs[0]), bs[1..])
  }

  /** Between feeds a message a callback condemned is as good as rejected: no further byte is looked at. */
  function Seal<U, D, S>(s: State<U, D, S>): State<U, D, S>
  {
    if Good(s) then s else Reject(s)
  }

  /** One feed: nothing at all once the message was refused, else the bytes and then the seal. */
  function Feed<U, D, S>(env: Env<U, D, S>, s: State<U, D, S>, data: seq<byte>): State<U, D, S>
  {
    Seal(RunBytes(env, s, data))
  }

  function Feeds<U, D, S>(env: Env<U, D, S>, s: State<U, D, S>, chunks: seq<seq<byte>>): State<U, D, S>
    decreases |chunks|
  {
    if chunks == [] then s else Feeds(env, Feed(env, s, chunks[0]), chunks[1..])
  }

  // ---------------------------------------------------------------- runs

  lemma {:induction false} RunAppend<U, D, S>(env: Env<U, D, S>, s: State<U, D, S>, a: seq<byte>, b: seq<byte>)
    ensures RunBytes(env, s, a + b) == RunBytes(env, RunBytes(env, s, a), b)
    decreases |a|
  {
    if a == [] {
      assert a + b == b;
    } else {
      hide StepByte;
      assert (a + b)[1..] == a[1..] + b;
      RunAppend(env, StepByte(env, s, a[0]), a[1..], b);
    }
  }

  lemma {:induction false} DeadStays<U, D, S>(env: Env<U, D, S>, s: State<U, D, S>, bs: seq<byte>)
    requires s.Dead?
    ensures RunBytes(env, s, bs) == s
    decreases |bs|
  {
    if bs != [] {
      DeadStays(env, s, bs[1..]);
    }
  }

  lemma {:induction false} StoreAppend<U, D, S>(env: Env<U, D, S>, u: U, d: D, pos: nat, a: seq<byte>, b: seq<byte>)
    ensures StoreAll(env, u, d, pos, a + b) == StoreAll(env, StoreAll(env, u, d, pos, a), d, pos + |a|, b)
    decreases |a|
  {
    if a == [] {
      assert a + b == b;
    } else {
      assert (a + b)[1..] == a[1..] + b;
      StoreAppend(env, env.store(u, d, pos, a[0]), d, pos + 1, a[1..], b);
    }
  }
}

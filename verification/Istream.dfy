/**
 * The input stream object: one flat record updated in place by every byte, proved to be the state
 * machine of module Decoder. Valid() is the chain invariant.
 */
module Istream {
  import opened Bytes
  import V = Varint
  import opened Wire
  import opened Utf8
  import D = Decoder

  datatype DecoderState = IDLE | VARINT_UNSIGNED | VARINT_SIGNED | FIXLEN_LEN | ARRAY_COUNT | FIXLEN_VAL | FIXLEN_RAW

  /** One decoder of the chain: its user pointer, its state and the sequences it is skipping. */
  datatype Handle<+S> = Handle(scope: S, state: DecoderState, skipDepth: nat)

  /** target_ptr: null, a place in a destination, or the child decoder a sequence read has pushed. */
  datatype Pointer<+T> = Null | Mem(dst: T, pos: nat) | Child

  datatype Ret = OK | INCOMPLETE | E_INVALID_MSG

  // Flags of target_opt outside the bits compared with the wire.
  const STRINGTERM: nat := 0x40
  const BOOLEAN: nat := 0x80

  // ---------------------------------------------------------------- the machine's word steps, read by reads

  lemma ScalarSpec<U, T, S>(env: D.Env<U, T, S>, s: D.State<U, T, S>, id: nat, ty: nat)
    requires s.Live? && s.scopes != [] && !s.condemned && id <= IdMax(env.W) && (ty == UNSIGNED || ty == SIGNED)
    ensures var (t, a) := D.Consult(env, s, D.Call(id, 0, 0, ty));
      D.OnHeader(env, s, 8 * id + ty)
        == t.(ctl := if a.ReadInt? then D.Scalars(a.num, D.At(a.dst, 0), a.width, false, 1)
                     else D.Scalars(if ty == SIGNED then D.Signed else D.Unsigned, D.Skip, 1, false, 1))
  {
    hide D.Consult, IdMax;
  }

  lemma SequenceSpec<U, T, S>(env: D.Env<U, T, S>, s: D.State<U, T, S>, id: nat)
    requires s.Live? && s.scopes != [] && !s.condemned && id <= IdMax(env.W)
    ensures var (t, a) := D.Consult(env, s, D.Call(id, 0, 0, BEGIN));
      D.OnHeader(env, s, 8 * id + BEGIN)
        == if D.Depth(s) == MAX_DEPTH then D.Reject(s)
           else if a.ReadSequence? then t.(scopes := s.scopes + [a.scope]) else t.(skip := s.skip + 1)
  {
    hide IdMax;
  }

  lemma {:induction false} IntsSpec<U, T, S>(env: D.Env<U, T, S>, s: D.State<U, T, S>, n: nat)
    requires s.Live? && s.scopes != [] && s.ctl.ArrayCount? && n <= ARRAY_MAX
    requires s.ctl.ty == ARRAY_UNSIGNED || s.ctl.ty == ARRAY_SIGNED
    ensures var (t, a) := D.Consult(env, s, D.Call(s.ctl.id, 0, n, s.ctl.ty));
      var r := D.OnArrayCount(env, s, n);
      && (!a.ReadInts? ==>
            r == t.(ctl := if n == 0 then D.Idle
                           else D.Scalars(if s.ctl.ty == ARRAY_SIGNED then D.Signed else D.Unsigned, D.Skip, 1, true, n)))
      && (a.ReadInts? && n > a.n ==> r == D.Reject(t))
      && (a.ReadInts? && n <= a.n ==>
            r == t.(user := D.StoreAll(env, t.user, a.dst, n * a.width, Zeros((a.n - n) * a.width)),
                    ctl := if n == 0 then D.Idle else D.Scalars(a.num, D.At(a.dst, 0), a.width, true, n)))
  {
    hide D.StoreAll, D.Consult;
  }

  lemma FloatsSpec<U, T, S>(env: D.Env<U, T, S>, s: D.State<U, T, S>, sub: nat, len: nat)
    requires s.Live? && s.scopes != [] && s.ctl.FixlenWord? && s.ctl.list && ElementWordOk(sub, len)
    ensures var n := s.ctl.count;
      var (t, a) := D.Consult(env, s, D.Call(s.ctl.id, len, n, ARRAY_FIXLEN + 8 * sub));
      var r := D.OnElementWord(env, s, 8 * len + sub);
      && (!a.ReadFloats? ==> r == t.(ctl := if n == 0 then D.Idle else D.FixlenVal(D.Skip, len, len, n)))
      && (a.ReadFloats? && n > a.n ==> r == D.Reject(t))
      && (a.ReadFloats? && n <= a.n ==>
            r == t.(user := D.StoreAll(env, t.user, a.dst, n * len, Zeros((a.n - n) * len)),
                    ctl := if n == 0 then D.Idle else D.FixlenVal(D.At(a.dst, 0), len, len, n)))
  {
    hide D.StoreAll, D.Consult;
  }

  lemma {:induction false} PayloadSpec<U, T, S>(env: D.Env<U, T, S>, s: D.State<U, T, S>, sub: nat, len: nat)
    requires s.Live? && s.scopes != [] && s.ctl.FixlenWord? && !s.ctl.list && ScalarWordOk(sub, len)
    ensures var (t, a) := D.Consult(env, s, D.Call(s.ctl.id, len, 0, FIXLEN + 8 * sub));
      var r := D.OnScalarWord(env, s, 8 * len + sub);
      && (!a.ReadFloat? && !a.ReadBytes? ==>
            r == t.(ctl := if len == 0 then D.Idle
                           else if sub <= FP64 then D.FixlenVal(D.Skip, len, len, 1)
                           else D.FixlenRaw(D.Skip, len, None)))
      && (a.ReadFloat? ==> r == t.(ctl := D.FixlenVal(D.At(a.dst, 0), len, len, 1)))
      && (a.ReadBytes? && len + (if a.term then 1 else 0) > a.cap ==> r == D.Reject(t))
      && (a.ReadBytes? && len + (if a.term then 1 else 0) <= a.cap ==>
            r == t.(user := if a.term then D.StoreAll(env, t.user, a.dst, len, [0]) else t.user,
                    ctl := if len == 0 then D.Idle
                           else D.FixlenRaw(D.At(a.dst, 0), len, if env.strict && a.text then Some([]) else None)))
  {
    hide D.StoreAll, D.Consult;
    assert (8 * len + sub) % 8 == sub && (8 * len + sub) / 8 == len;
  }

  class Istream<U, T, S> {
    const env: D.Env<U, T, S>
    var user: U
    var chain: seq<Handle<S>>
    var varintValue: nat
    var varintShift: nat
    var id: nat
    var target: Pointer<T>
    var targetLen: nat
    var targetCount: nat
    var targetOpt: nat
    var arrayWireCount: nat
    var fixlenRemaining: nat
    var text: Option<seq<byte>>
    var depth: nat
    var invalid: bool
    ghost var calls: seq<D.Call>

    // -------------------------------------------------------------- abstraction

    ghost function Top(): Handle<S>
      reads `chain
      requires chain != []
    {
      chain[|chain| - 1]
    }

    predicate Flag(bit: nat)
      reads `targetOpt
      requires bit > 0
    {
      targetOpt / bit % 2 == 1
    }

    ghost function To(): D.Target<T>
      reads `target
    {
      if target.Mem? then D.At(target.dst, target.pos) else D.Skip
    }

    ghost function IntWidth(): Width
      reads `target, `targetLen
    {
      if target.Mem? && (targetLen == 1 || targetLen == 2 || targetLen == 4 || targetLen == 8) then targetLen else 1
    }

    ghost function Control(): D.Control<T>
      reads this
      requires chain != []
    {
      match Top().state
      case IDLE => D.Idle
      case VARINT_UNSIGNED =>
        var list := targetOpt % 8 == ARRAY_UNSIGNED;
        D.Scalars(if target.Mem? && Flag(BOOLEAN) then D.Boolean else D.Unsigned, To(), IntWidth(), list, if list then targetCount else 1)
      case VARINT_SIGNED =>
        var list := targetOpt % 8 == ARRAY_SIGNED;
        D.Scalars(D.Signed, To(), IntWidth(), list, if list then targetCount else 1)
      case FIXLEN_LEN =>
        var list := targetOpt % 8 == ARRAY_FIXLEN;
        D.FixlenWord(id, list, if list then arrayWireCount else 0)
      case ARRAY_COUNT => D.ArrayCount(id, targetOpt % 8)
      case FIXLEN_VAL => D.FixlenVal(To(), fixlenRemaining, targetLen, if targetOpt % 8 == ARRAY_FIXLEN then targetCount else 1)
      case FIXLEN_RAW => D.FixlenRaw(To(), fixlenRemaining, text)
    }

    ghost function Scopes(): seq<S>
      reads `chain
    {
      var c := chain;
      seq(|c|, i requires 0 <= i < |c| => c[i].scope)
    }

    ghost function With(ctl: D.Control<T>): (s: D.State<U, T, S>)
      reads this
      requires chain != []
      ensures s.Live? && |s.scopes| == |chain| && s.scopes[|chain| - 1] == Top().scope
    {
      D.Live(user, calls, Scopes(), Top().skipDepth, ctl, V.Acc(varintValue, varintShift), invalid)
    }

    ghost function State(): (s: D.State<U, T, S>)
      reads this
      requires chain != []
      ensures s.Live? && |s.scopes| == |chain| && s.scopes[|chain| - 1] == Top().scope
    {
      With(Control())
    }

    /**
     * The chain invariant: depth counts the pushed decoders and the sequences the active one skips, and
     * never exceeds 255; every other decoder is idle and skips nothing.
     */
    ghost predicate ChainOk()
      reads `chain, `depth
    {
      && chain != [] && depth == |chain| - 1 + Top().skipDepth && depth <= MAX_DEPTH
      && forall i :: 0 <= i < |chain| - 1 ==> chain[i].state == IDLE && chain[i].skipDepth == 0
    }

    /** What the scratch fields hold while a field is in progress. */
    ghost predicate FieldOk()
      reads this
      requires chain != []
    {
      match Top().state
      case IDLE => true
      case VARINT_UNSIGNED =>
        && (targetOpt % 8 == UNSIGNED || (targetOpt % 8 == ARRAY_UNSIGNED && targetCount >= 1))
        && (target.Mem? ==> targetLen == IntWidth()) && !target.Child?
      case VARINT_SIGNED =>
        && (targetOpt % 8 == SIGNED || (targetOpt % 8 == ARRAY_SIGNED && targetCount >= 1))
        && (target.Mem? ==> targetLen == IntWidth()) && !target.Child?
      case FIXLEN_LEN =>
        && (targetOpt == FIXLEN || targetOpt == ARRAY_FIXLEN) && target.Null? && targetLen == 0
        && targetCount == (if targetOpt == ARRAY_FIXLEN then arrayWireCount else 0)
      case ARRAY_COUNT => ARRAY_UNSIGNED <= targetOpt <= ARRAY_FIXLEN && target.Null? && targetLen == 0
      case FIXLEN_VAL =>
        && fixlenRemaining >= 1 && targetLen >= 1 && !target.Child?
        && (targetOpt % 8 == FIXLEN || (targetOpt % 8 == ARRAY_FIXLEN && targetCount >= 1))
      case FIXLEN_RAW => fixlenRemaining >= 1 && !target.Child?
    }

    ghost predicate Sound()
      reads this
    {
      ChainOk() && FieldOk()
    }

    /** A refused stream keeps nothing but its refusal. */
    ghost predicate Valid()
      reads this
    {
      invalid || Sound()
    }

    constructor (env: D.Env<U, T, S>, user: U, scope: S)
      ensures Valid() && !invalid && this.env == env && State() == D.Init(user, scope)
      ensures calls == [] && this.user == user
    {
      this.env := env;
      this.user := user;
      chain := [Handle(scope, IDLE, 0)];
      varintValue, varintShift := 0, 0;
      id, targetLen, targetCount, targetOpt, arrayWireCount, fixlenRemaining, depth := 0, 0, 0, 0, 0, 0, 0;
      target, text := Null, None;
      invalid := false;
      calls := [];
      new;
      assert Scopes() == [scope];
    }

    // -------------------------------------------------------------- reads a callback may make

    /** sofab_istream_read_field */
    method ReadField(dst: T, len: nat, opt: nat)
      modifies this`target, this`targetLen, this`targetOpt
      ensures target == Mem(dst, 0) && targetLen == len && targetOpt == opt
    {
      target, targetLen, targetOpt := Mem(dst, 0), len, opt;
    }

    /** sofab_istream_read_array */
    method ReadArray(dst: T, count: nat, size: nat, opt: nat)
      modifies this`target, this`targetLen, this`targetOpt, this`targetCount
      ensures target == Mem(dst, 0) && targetCount == count && targetLen == size && targetOpt == opt
    {
      target, targetCount, targetLen, targetOpt := Mem(dst, 0), count, size, opt;
    }

    /** sofab_istream_read_sequence: a fresh decoder on top of the chain. */
    method ReadSequence(scope: S)
      modifies this`target, this`targetOpt, this`chain
      ensures chain == old(chain) + [Handle(scope, IDLE, 0)] && target == Child && targetOpt == BEGIN
    {
      chain, target, targetOpt := chain + [Handle(scope, IDLE, 0)], Child, BEGIN;
    }

    /** The scratch fields after a read: what is bound, how wide, how many. */
    ghost predicate Bound(act: D.Action<T, S>, len: nat, count: nat)
      reads this
    {
      match act
      case Decline => target.Null? && targetLen == len && targetCount == count
      case ReadInt(d, num, w) => target == Mem(d, 0) && targetLen == w && Flag(BOOLEAN) == num.Boolean? && targetCount == count
      case ReadFloat(d, fp64) =>
        target == Mem(d, 0) && targetLen == FloatWidth(fp64) && !Flag(STRINGTERM) && targetCount == count
      case ReadBytes(d, cap, _, term) => target == Mem(d, 0) && targetLen == cap && Flag(STRINGTERM) == term && targetCount == count
      case ReadInts(d, n, num, w) => target == Mem(d, 0) && targetLen == w && Flag(BOOLEAN) == num.Boolean? && targetCount == n
      case ReadFloats(d, n, fp64) => target == Mem(d, 0) && targetLen == FloatWidth(fp64) && targetCount == n
      case ReadSequence(_) => target.Child? && targetOpt == BEGIN && targetLen == len && targetCount == count
    }

    /** The typed read an action stands for, with its option word. */
    method Bind(act: D.Action<T, S>)
      requires target.Null?
      modifies this`target, this`targetLen, this`targetOpt, this`targetCount, this`chain
      ensures Bound(act, old(targetLen), old(targetCount))
      ensures act.Decline? ==> targetOpt == old(targetOpt)
      ensures !act.Decline? ==> targetOpt % 64 == D.ExpectedOpt(act)
      ensures chain == if act.ReadSequence? then old(chain) + [Handle(act.scope, IDLE, 0)] else old(chain)
    {
      match act
      case Decline =>
      case ReadInt(d, num, w) =>
        ReadField(d, w, if num.Signed? then SIGNED else if num.Boolean? then UNSIGNED + BOOLEAN else UNSIGNED);
      case ReadFloat(d, fp64) =>
        ReadField(d, FloatWidth(fp64), FIXLEN + 8 * (if fp64 then FP64 else FP32));
      case ReadBytes(d, cap, text, term) =>
        ReadField(d, cap, FIXLEN + 8 * (if text then STRING else BLOB) + if term then STRINGTERM else 0);
      case ReadInts(d, n, num, w) =>
        ReadArray(d, n, w,
          if num.Signed? then ARRAY_SIGNED else if num.Boolean? then ARRAY_UNSIGNED + BOOLEAN else ARRAY_UNSIGNED);
      case ReadFloats(d, n, fp64) =>
        ReadArray(d, n, FloatWidth(fp64), ARRAY_FIXLEN + 8 * (if fp64 then FP64 else FP32));
      case ReadSequence(scope) => ReadSequence(scope);
    }

    /** The field type sits in the low three bits, whatever the rest of the option word. */
    static lemma LowBits(opt: nat)
      ensures opt % 64 % 8 == opt % 8
    {
      var high, low := opt / 64, opt % 64;
      assert opt == 8 * (8 * high + low / 8) + low % 8;
    }

    /** Comparing under the mask the call uses is comparing type and subtype. */
    static lemma MaskAgrees(act: D.Action<T, S>, bound: nat, opt: nat, mask: nat)
      requires !act.Decline? && bound % 64 == D.ExpectedOpt(act) && opt < 64
      requires mask == 64 || (mask == 8 && ARRAY_UNSIGNED <= opt <= ARRAY_SIGNED)
      ensures bound % mask == opt % mask <==> D.ExpectedOpt(act) == opt
      ensures bound % 8 == BEGIN <==> act.ReadSequence?
    {
      LowBits(bound);
      match act {
        case ReadInt(_, _, _) =>
        case ReadFloat(_, _) =>
        case ReadBytes(_, _, _, _) =>
        case ReadInts(_, _, _, _) =>
        case ReadFloats(_, _, _) =>
        case ReadSequence(_) =>
      }
    }

    /** The application after the callback for c was consulted in state s, and the read it settled on. */
    ghost predicate Consulted(s: D.State<U, T, S>, c: D.Call, act: D.Action<T, S>)
      reads this
      requires s.Live? && s.scopes != []
    {
      var (t, a) := D.Consult(env, s, c);
      user == t.user && calls == t.calls && invalid == t.condemned && act == a
    }

    /**
     * Ask the active decoder's callback about the current field, unless the field is inside a skipped
     * sequence; undo a read whose type the wire contradicts. mask is 64 to compare type and subtype, 8 for
     * the type alone (the count-0 integer array).
     */
    method CallField(mask: nat) returns (ghost act: D.Action<T, S>)
      requires chain != [] && target.Null? && targetOpt < 64
      requires mask == 64 || (mask == 8 && ARRAY_UNSIGNED <= targetOpt <= ARRAY_SIGNED)
      modifies this`user, this`invalid, this`calls, this`target, this`targetLen, this`targetOpt, this`targetCount, this`chain
      ensures Consulted(old(State()), D.Call(id, old(targetLen), old(targetCount), old(targetOpt)), act)
      ensures Bound(act, old(targetLen), old(targetCount))
      ensures chain == if act.ReadSequence? then old(chain) + [Handle(act.scope, IDLE, 0)] else old(chain)
      ensures targetOpt % 64 == old(targetOpt)
      ensures !act.Decline? ==> D.ExpectedOpt(act) == old(targetOpt)
    {
      var fieldOpt, fieldLen, fieldCount := targetOpt, targetLen, targetCount;
      act := D.Decline;
      assert Scopes()[|chain| - 1] == Top().scope;
      if chain[|chain| - 1].skipDepth > 0 {
        return;
      }
      var c := D.Call(id, targetLen, targetCount, targetOpt);
      var r := env.call(user, chain[|chain| - 1].scope, c);
      user := r.user;
      calls := calls + [c];
      if r.condemn {
        invalid := true;
      }
      Bind(r.act);
      act := D.Settle(r.act, fieldOpt);
      if !target.Null? {
        MaskAgrees(r.act, targetOpt, fieldOpt, mask);
        if targetOpt % mask != fieldOpt % mask {
          if targetOpt % 8 == BEGIN && |chain| > 1 {
            chain := chain[..|chain| - 1];
          }
          target, targetLen, targetCount, targetOpt := Null, fieldLen, fieldCount, fieldOpt;
        }
      }
    }

    /** Reconcile the wire count with the capacity bound: refuse an excess, clear the tail, read what the wire carries. */
    method BindArrayCount(wire: nat) returns (ok: bool)
      requires !target.Child?
      modifies this`user, this`targetCount
      ensures target.Null? ==> ok && unchanged(this)
      ensures target.Mem? ==> ok == (wire <= old(targetCount))
      ensures !ok ==> unchanged(this)
      ensures target.Mem? && ok ==>
        && targetCount == wire
        && user == D.StoreAll(env, old(user), target.dst, target.pos + wire * targetLen, Zeros((old(targetCount) - wire) * targetLen))
    {
      if target.Mem? {
        if wire > targetCount {
          return false;
        }
        if wire < targetCount {
          user := D.StoreAll(env, user, target.dst, target.pos + wire * targetLen, Zeros((targetCount - wire) * targetLen));
        } else {
          assert (targetCount - wire) * targetLen == 0;
        }
        targetCount := wire;
      }
      return true;
    }

    // -------------------------------------------------------------- one byte

    /** This object has become t; halting means the message is rejected. */
    ghost predicate Follows(t: D.State<U, T, S>, halt: bool)
      reads this
    {
      && user == t.user && calls == t.calls && (halt <==> t.Dead?)
      && (!halt ==> Sound() && State() == t)
    }

    /** The active decoder's state. */
    method Enter(state: DecoderState)
      requires chain != []
      modifies this`chain
      ensures |chain| == |old(chain)| && chain[..|chain| - 1] == old(chain)[..|chain| - 1]
      ensures Top() == old(Top()).(state := state)
      ensures Scopes() == old(Scopes())
    {
      var n := |chain| - 1;
      chain := chain[n := chain[n].(state := state)];
    }

    /** The scratch fields of a field whose header has just been read. */
    ghost predicate Fresh(ty: nat)
      reads this
    {
      targetOpt == ty && target.Null? && targetLen == 0 && targetCount == 0
    }

    /** A scalar integer header: ask the callback, then wait for the word. */
    method BeginScalar(ty: nat)
      requires Sound() && Top().state == IDLE && !invalid && varintShift == 0 && varintValue == 0
      requires (ty == UNSIGNED || ty == SIGNED) && Fresh(ty) && id <= IdMax(env.W)
      modifies this
      ensures Follows(D.OnHeader(env, old(State()), 8 * old(id) + ty), false)
    {
      hide IdMax, D.ExpectedOpt, D.Settle, Bound, D.OnHeader;
      ScalarSpec(env, State(), id, ty);
      Enter(if ty == UNSIGNED then VARINT_UNSIGNED else VARINT_SIGNED);
      ghost var act := CallField(64);
      BoundInt(act, ty, 0, 0);
      LowBits(targetOpt);
      assert targetOpt % 8 == ty;
    }

    /** A header whose value starts with a length or count word. */
    method BeginWord(ty: nat)
      requires Sound() && Top().state == IDLE && !invalid && varintShift == 0 && varintValue == 0
      requires FIXLEN <= ty <= ARRAY_FIXLEN && Fresh(ty) && id <= IdMax(env.W)
      modifies this
      ensures Follows(D.OnHeader(env, old(State()), 8 * old(id) + ty), false)
    {
      hide IdMax;
      Enter(if ty == FIXLEN then FIXLEN_LEN else ARRAY_COUNT);
    }

    /** A sequence opens: one level deeper, bound or skipped. */
    method BeginSequence() returns (halt: bool)
      requires Sound() && Top().state == IDLE && !invalid && varintShift == 0 && varintValue == 0
      requires Fresh(BEGIN) && id <= IdMax(env.W)
      modifies this
      ensures Follows(D.OnHeader(env, old(State()), 8 * old(id) + BEGIN), halt)
    {
      hide IdMax, D.ExpectedOpt, D.Settle, Bound, D.OnHeader;
      SequenceSpec(env, State(), id);
      if depth == MAX_DEPTH {
        return true;
      }
      ghost var scopes := Scopes();
      ghost var act := CallField(64);
      BoundSequence(act);
      depth := depth + 1;
      if target.Null? {
        var n := |chain| - 1;
        chain := chain[n := chain[n].(skipDepth := chain[n].skipDepth + 1)];
        assert Scopes() == scopes;
      } else {
        assert Scopes() == scopes + [act.scope];
      }
      return false;
    }

    /** An END header: a skipped level closes, or the active decoder hands back to its parent. */
    method EndSequence() returns (halt: bool)
      requires Sound() && Top().state == IDLE && !invalid && varintShift == 0 && varintValue == 0
      requires Fresh(END) && id <= IdMax(env.W)
      modifies this
      ensures Follows(D.OnHeader(env, old(State()), 8 * old(id) + END), halt)
    {
      hide IdMax;
      ghost var scopes := Scopes();
      var n := |chain| - 1;
      if chain[n].skipDepth > 0 {
        chain := chain[n := chain[n].(skipDepth := chain[n].skipDepth - 1)];
        assert Scopes() == scopes;
      } else {
        if n == 0 {
          return true;
        }
        chain := chain[..n];
        assert Scopes() == scopes[..n];
      }
      depth := depth - 1;
      return false;
    }

    /** The header's type decides what comes next. */
    method BeginField(ty: nat) returns (halt: bool)
      requires Sound() && Top().state == IDLE && !invalid && varintShift == 0 && varintValue == 0
      requires ty < 8 && Fresh(ty) && id <= IdMax(env.W)
      modifies this
      ensures Follows(D.OnHeader(env, old(State()), 8 * old(id) + ty), halt)
    {
      hide D.OnHeader, IdMax, Follows;
      halt := false;
      if ty == UNSIGNED || ty == SIGNED {
        BeginScalar(ty);
      } else if ty == BEGIN {
        halt := BeginSequence();
      } else if ty == END {
        halt := EndSequence();
      } else {
        BeginWord(ty);
      }
    }

    /** The scratch fields are reset for the new field; between fields they are no part of the state. */
    method ResetField(fieldId: nat, ty: nat)
      requires Sound() && Top().state == IDLE
      modifies this`id, this`targetOpt, this`target, this`targetLen, this`targetCount
      ensures Fresh(ty) && id == fieldId && State() == old(State()) && Sound()
    {
      id, targetOpt := fieldId, ty;
      target, targetLen, targetCount := Null, 0, 0;
    }

    /** A header word in the idle state. */
    method OnIdle(word: nat) returns (halt: bool)
      requires Sound() && Top().state == IDLE && varintValue == 0 && varintShift == 0
      modifies this
      ensures Follows(D.OnHeader(env, old(State()), word), halt)
    {
      if invalid || word / 8 > IdMax(env.W) {
        return true;
      }
      hide *;
      ResetField(word / 8, word % 8);
      assert 8 * (word / 8) + word % 8 == word;
      halt := BeginField(word % 8);
    }

    /** On to the next element of an integer array, or back to idle. */
    method NextElement(arrayType: nat)
      requires Sound() && (Top().state == VARINT_UNSIGNED || Top().state == VARINT_SIGNED)
      requires arrayType == if Top().state == VARINT_UNSIGNED then ARRAY_UNSIGNED else ARRAY_SIGNED
      modifies this`target, this`targetCount, this`chain
      ensures Sound()
      ensures var s := old(State());
        var c := s.ctl;
        State() == s.(ctl := if c.list && c.left > 1 then D.Scalars(c.num, D.Advance(c.to, c.width), c.width, true, c.left - 1) else D.Idle)
    {
      if targetOpt % 8 == arrayType {
        if target.Mem? {
          target := Mem(target.dst, target.pos + targetLen);
        }
        targetCount := targetCount - 1;
        if targetCount > 0 {
          return;
        }
      }
      Enter(IDLE);
    }

    /** An unsigned or boolean word: store its low bytes, then check the width. */
    method OnUnsigned(word: nat) returns (halt: bool)
      requires Sound() && Top().state == VARINT_UNSIGNED
      modifies this
      ensures Follows(D.OnScalar(env, old(State()), word), halt)
      ensures halt <==> old(target.Mem? && !Flag(BOOLEAN)) && word >= Pow2(8 * old(targetLen))
    {
      hide D.StoreAll, LowBytes, Span;
      SpanIsPow2(targetLen);
      if target.Mem? {
        var value := word;
        if Flag(BOOLEAN) {
          value := if word != 0 then 1 else 0;
        }
        user := D.StoreAll(env, user, target.dst, target.pos, LowBytes(value, targetLen));
        OneFits(targetLen);
        if value >= Span(targetLen) {
          return true;
        }
      }
      NextElement(ARRAY_UNSIGNED);
      return false;
    }

    static lemma {:induction false} OneFits(w: nat)
      ensures w > 0 ==> 1 < Span(w)
    {
    }

    static lemma {:induction false} SignedRange(word: nat, w: nat)
      ensures w > 0 ==> (V.FitsSigned(V.UnZigZag(word), w) <==> word < Pow2(8 * w))
    {
      if w > 0 {
        SpanIsPow2(w);
        V.SignedFit(V.UnZigZag(word), w);
        assert V.ZigZag(V.UnZigZag(word)) == word;
      }
    }

    /** A signed word, likewise. */
    method OnSigned(word: nat) returns (halt: bool)
      requires Sound() && Top().state == VARINT_SIGNED
      modifies this
      ensures Follows(D.OnScalar(env, old(State()), word), halt)
      ensures halt <==> old(target.Mem?) && word >= Pow2(8 * old(targetLen))
    {
      SignedRange(word, targetLen);
      hide D.StoreAll, LowBytes, Span, V.LowWord, V.FitsSigned, V.UnZigZag;
      if target.Mem? {
        var value := V.UnZigZag(word);
        user := D.StoreAll(env, user, target.dst, target.pos, LowBytes(V.LowWord(value, targetLen), targetLen));
        if !V.FitsSigned(value, targetLen) {
          return true;
        }
      }
      NextElement(ARRAY_SIGNED);
      return false;
    }

    /** What a read that the wire bears out leaves bound, for a scalar integer. */
    lemma BoundInt(act: D.Action<T, S>, ty: nat, len: nat, count: nat)
      requires ty == UNSIGNED || ty == SIGNED
      requires Bound(act, len, count) && (!act.Decline? ==> D.ExpectedOpt(act) == ty)
      ensures !target.Child?
      ensures act.Decline? ==> target.Null?
      ensures !act.Decline? ==>
        && act.ReadInt? && act.num.Signed? == (ty == SIGNED)
        && target == Mem(act.dst, 0) && targetLen == act.width && Flag(BOOLEAN) == act.num.Boolean?
    {
    }

    /** ... for a sequence. */
    lemma BoundSequence(act: D.Action<T, S>)
      requires Bound(act, 0, 0) && (!act.Decline? ==> D.ExpectedOpt(act) == BEGIN)
      ensures act.Decline? ==> target.Null?
      ensures !act.Decline? ==> act.ReadSequence? && target.Child?
    {
    }

    /** ... for an integer array. */
    lemma BoundInts(act: D.Action<T, S>, ty: nat, len: nat, count: nat)
      requires ty == ARRAY_UNSIGNED || ty == ARRAY_SIGNED
      requires Bound(act, len, count) && (!act.Decline? ==> D.ExpectedOpt(act) == ty)
      ensures !target.Child?
      ensures act.Decline? ==> target.Null? && targetLen == len && targetCount == count
      ensures !act.Decline? ==>
        && act.ReadInts? && act.num.Signed? == (ty == ARRAY_SIGNED)
        && target == Mem(act.dst, 0) && targetLen == act.width && Flag(BOOLEAN) == act.num.Boolean? && targetCount == act.n
    {
    }

    /** The callback learns the count of an integer array. */
    method AskInts(count: nat) returns (ghost act: D.Action<T, S>)
      requires Sound() && Top().state == ARRAY_COUNT && targetCount == count && targetOpt != ARRAY_FIXLEN
      modifies this
      ensures Consulted(old(State()), D.Call(id, 0, count, old(targetOpt)), act)
      ensures id == old(id) && ChainOk() && unchanged(this`chain, this`varintValue, this`varintShift)
      ensures targetOpt % 8 == old(targetOpt) && !target.Child?
      ensures act.Decline? ==> target.Null? && targetCount == count
      ensures !act.Decline? ==>
        && act.ReadInts? && act.num.Signed? == (old(targetOpt) == ARRAY_SIGNED)
        && target == Mem(act.dst, 0) && targetLen == act.width && Flag(BOOLEAN) == act.num.Boolean? && targetCount == act.n
    {
      hide D.ExpectedOpt, D.Settle, Bound;
      var ty := targetOpt;
      // A count-0 array names no subtype, so only the field type is compared.
      var mask := if count == 0 then 8 else 64;
      act := CallField(mask);
      BoundInts(act, ty, 0, count);
      LowBits(targetOpt);
      assert targetOpt % 8 == ty;
    }

    /** Wait for the words of an integer array, or go back to idle when there are none. */
    method AwaitInts(ty: nat)
      requires ChainOk() && Top().state == ARRAY_COUNT && targetOpt % 8 == ty && !target.Child?
      requires (ty == ARRAY_UNSIGNED || ty == ARRAY_SIGNED) && (target.Mem? ==> targetLen == IntWidth())
      modifies this`chain
      ensures Sound()
      ensures State() == old(With(
        if targetCount == 0 then D.Idle
        else D.Scalars(if ty == ARRAY_SIGNED then D.Signed else if target.Mem? && Flag(BOOLEAN) then D.Boolean else D.Unsigned,
                       To(), IntWidth(), true, targetCount)))
    {
      Enter(if targetCount == 0 then IDLE else if ty == ARRAY_UNSIGNED then VARINT_UNSIGNED else VARINT_SIGNED);
    }

    /** An integer array of count elements: ask the callback, reconcile the count, and wait for the words. */
    method BeginInts(count: nat) returns (halt: bool)
      requires Sound() && Top().state == ARRAY_COUNT && count <= ARRAY_MAX
      requires targetCount == count && targetOpt != ARRAY_FIXLEN
      modifies this
      ensures Follows(D.OnArrayCount(env, old(State()), count), halt)
    {
      hide D.StoreAll, D.OnArrayCount, D.Consult, Flag, D.ExpectedOpt, Control;
      InArrayCount();
      IntsSpec(env, State(), count);
      var ty := targetOpt;
      ghost var act := AskInts(count);
      var ok := BindArrayCount(count);
      if !ok {
        return true;
      }
      AwaitInts(ty);
      return false;
    }

    lemma InArrayCount()
      requires Sound() && Top().state == ARRAY_COUNT
      ensures State().ctl == D.ArrayCount(id, targetOpt)
    {
    }

    /** The element count of an array. */
    method OnCount(count: nat) returns (halt: bool)
      requires Sound() && Top().state == ARRAY_COUNT
      modifies this
      ensures Follows(D.OnArrayCount(env, old(State()), count), halt)
    {
      if count > ARRAY_MAX {
        return true;
      }
      targetCount, arrayWireCount := count, count;
      if targetOpt % 8 == ARRAY_FIXLEN {
        // The destination is bound later, when the element word names the subtype.
        Enter(FIXLEN_LEN);
        return false;
      }
      halt := BeginInts(count);
    }

    /** ... for a float array. */
    lemma BoundFloats(act: D.Action<T, S>, sub: nat, len: nat, count: nat)
      requires sub == FP32 || sub == FP64
      requires Bound(act, len, count) && (!act.Decline? ==> D.ExpectedOpt(act) == ARRAY_FIXLEN + 8 * sub)
      ensures !target.Child?
      ensures act.Decline? ==> target.Null? && targetLen == len && targetCount == count
      ensures !act.Decline? ==>
        && act.ReadFloats? && target == Mem(act.dst, 0) && targetLen == FloatWidth(sub == FP64) && targetCount == act.n
    {
    }

    /** ... for a scalar float, a string or a blob. */
    lemma BoundFixlen(act: D.Action<T, S>, sub: nat, len: nat, count: nat)
      requires sub <= BLOB
      requires Bound(act, len, count) && (!act.Decline? ==> D.ExpectedOpt(act) == FIXLEN + 8 * sub)
      ensures !target.Child?
      ensures act.Decline? ==> target.Null? && targetLen == len
      ensures !act.Decline? ==>
        && target == Mem(act.dst, 0)
        && if sub <= FP64 then act.ReadFloat? && targetLen == FloatWidth(sub == FP64) && !Flag(STRINGTERM)
           else act.ReadBytes? && act.text == (sub == STRING) && targetLen == act.cap && Flag(STRINGTERM) == act.term
    {
    }

    /** Wait for the elements of a float array, or go back to idle when there are none. */
    method AwaitFloats(len: nat)
      requires ChainOk() && Top().state == FIXLEN_LEN && targetOpt % 8 == ARRAY_FIXLEN && !target.Child?
      requires targetLen == len >= 1
      modifies this`text, this`fixlenRemaining, this`chain
      ensures Sound()
      ensures State() == old(With(if targetCount == 0 then D.Idle else D.FixlenVal(To(), len, len, targetCount)))
    {
      if targetCount == 0 {
        Enter(IDLE);
      } else {
        text := None;
        fixlenRemaining := len;
        Enter(FIXLEN_VAL);
      }
    }

    /** The callback learns the subtype and count of a float array. */
    method AskFloats(sub: nat, len: nat) returns (ghost act: D.Action<T, S>)
      requires Sound() && Top().state == FIXLEN_LEN && targetOpt == ARRAY_FIXLEN && ElementWordOk(sub, len)
      modifies this
      ensures Consulted(old(State()), D.Call(id, len, arrayWireCount, ARRAY_FIXLEN + 8 * sub), act)
      ensures id == old(id) && ChainOk() && unchanged(this`chain, this`varintValue, this`varintShift, this`arrayWireCount)
      ensures targetOpt % 8 == ARRAY_FIXLEN && !target.Child? && targetLen == len
      ensures act.Decline? ==> target.Null? && targetCount == arrayWireCount
      ensures !act.Decline? ==> act.ReadFloats? && target == Mem(act.dst, 0) && targetCount == act.n
    {
      hide D.ExpectedOpt, D.Settle, Bound;
      targetOpt := targetOpt + 8 * sub;
      targetLen := len;
      act := CallField(64);
      BoundFloats(act, sub, len, arrayWireCount);
      LowBits(targetOpt);
      assert targetOpt % 8 == ARRAY_FIXLEN;
    }

    /** The element word of a float array: ask the callback, reconcile the count kept since the count word. */
    method BeginFloats(sub: nat, len: nat) returns (halt: bool)
      requires Sound() && Top().state == FIXLEN_LEN && targetOpt == ARRAY_FIXLEN && ElementWordOk(sub, len)
      modifies this
      ensures Follows(D.OnElementWord(env, old(State()), 8 * len + sub), halt)
    {
      hide D.StoreAll, D.OnElementWord, D.Consult, Flag, D.ExpectedOpt, Control;
      InFixlenLen();
      FloatsSpec(env, State(), sub, len);
      ghost var act := AskFloats(sub, len);
      var ok := BindArrayCount(arrayWireCount);
      if !ok {
        return true;
      }
      AwaitFloats(len);
      return false;
    }

    /** A scalar destination must hold the declared length, and the terminator of a text beside it. */
    method FitPayload(len: nat) returns (ok: bool)
      modifies this`user
      ensures target.Mem? ==> ok == (len + (if Flag(STRINGTERM) then 1 else 0) <= targetLen)
      ensures !target.Mem? ==> ok
      ensures user == if target.Mem? && ok && Flag(STRINGTERM)
        then D.StoreAll(env, old(user), target.dst, target.pos + len, [0]) else old(user)
    {
      if target.Mem? {
        if Flag(STRINGTERM) {
          if len + 1 > targetLen {
            return false;
          }
          user := D.StoreAll(env, user, target.dst, target.pos + len, [0]);
        } else {
          if len > targetLen {
            return false;
          }
        }
      }
      return true;
    }

    /** Wait for a payload of the given subtype and length, or go back to idle when it is empty. */
    method AwaitPayload(sub: nat, len: nat)
      requires ChainOk() && Top().state == FIXLEN_LEN && targetOpt % 8 == FIXLEN && !target.Child?
      requires sub <= FP64 ==> targetLen == len
      modifies this`text, this`fixlenRemaining, this`chain
      ensures Sound()
      ensures State() == old(With(
        if len == 0 then D.Idle
        else if sub <= FP64 then D.FixlenVal(To(), len, len, 1)
        else D.FixlenRaw(To(), len, if env.strict && target.Mem? && sub == STRING then Some([]) else None)))
    {
      text := if env.strict && target.Mem? && sub == STRING && len > 0 then Some([]) else None;
      if len > 0 {
        fixlenRemaining := len;
        Enter(if sub <= FP64 then FIXLEN_VAL else FIXLEN_RAW);
      } else {
        Enter(IDLE);
      }
    }

    /** The callback learns the subtype and length of a scalar fixlen field. */
    method AskPayload(sub: nat, len: nat) returns (ghost act: D.Action<T, S>)
      requires Sound() && Top().state == FIXLEN_LEN && targetOpt == FIXLEN && ScalarWordOk(sub, len)
      modifies this
      ensures Consulted(old(State()), D.Call(id, len, 0, FIXLEN + 8 * sub), act)
      ensures id == old(id) && ChainOk() && unchanged(this`chain, this`varintValue, this`varintShift)
      ensures targetOpt % 8 == FIXLEN && !target.Child?
      ensures act.Decline? ==> target.Null? && targetLen == len
      ensures !act.Decline? ==>
        && target == Mem(act.dst, 0)
        && if sub <= FP64 then act.ReadFloat? && targetLen == FloatWidth(sub == FP64) && !Flag(STRINGTERM)
           else act.ReadBytes? && act.text == (sub == STRING) && targetLen == act.cap && Flag(STRINGTERM) == act.term
    {
      hide D.ExpectedOpt, D.Settle, Bound;
      targetOpt := targetOpt + 8 * sub;
      targetLen := len;
      act := CallField(64);
      BoundFixlen(act, sub, len, 0);
      LowBits(targetOpt);
      assert targetOpt % 8 == FIXLEN;
    }

    /** The word of a scalar fixlen field: ask the callback, terminate a text, and wait for the payload. */
    method BeginPayload(sub: nat, len: nat) returns (halt: bool)
      requires Sound() && Top().state == FIXLEN_LEN && targetOpt == FIXLEN && ScalarWordOk(sub, len)
      modifies this
      ensures Follows(D.OnScalarWord(env, old(State()), 8 * len + sub), halt)
    {
      hide D.StoreAll, D.OnScalarWord, D.Consult, Flag, D.ExpectedOpt, Control;
      InFixlenLen();
      PayloadSpec(env, State(), sub, len);
      ghost var act := AskPayload(sub, len);
      var ok := FitPayload(len);
      if !ok {
        return true;
      }
      AwaitPayload(sub, len);
      return false;
    }

    lemma InFixlenLen()
      requires Sound() && Top().state == FIXLEN_LEN
      ensures State().ctl == if targetOpt == FIXLEN then D.FixlenWord(id, false, 0) else D.FixlenWord(id, true, arrayWireCount)
    {
    }

    /** A fixlen word: the subtype settles what lengths it may declare. */
    method OnFixlenLen(word: nat) returns (halt: bool)
      requires Sound() && Top().state == FIXLEN_LEN
      modifies this
      ensures Follows(
        if old(targetOpt) == ARRAY_FIXLEN then D.OnElementWord(env, old(State()), word) else D.OnScalarWord(env, old(State()), word), halt)
    {
      hide D.Consult, D.StoreAll;
      var sub, len := word % 8, word / 8;
      assert word == 8 * len + sub;
      var list := targetOpt % 8 == ARRAY_FIXLEN;
      if sub == FP32 {
        if len != 4 { return true; }
      } else if sub == FP64 {
        if len != 8 { return true; }
      } else if sub == STRING || sub == BLOB {
        if list { return true; }
      } else {
        return true;
      }
      if len > FIXLEN_MAX {
        return true;
      }
      if list {
        halt := BeginFloats(sub, len);
      } else {
        halt := BeginPayload(sub, len);
      }
    }

    /** One payload byte into the destination, if there is one. */
    method TakeByte(b: byte)
      requires fixlenRemaining >= 1 && !target.Child?
      modifies this`user, this`target, this`fixlenRemaining
      ensures fixlenRemaining == old(fixlenRemaining) - 1 && target.Mem? == old(target.Mem?) && !target.Child?
      ensures To() == D.Advance(old(To()), 1)
      ensures user == if old(target.Mem?) then env.store(old(user), old(target).dst, old(target).pos, b) else old(user)
    {
      if target.Mem? {
        user := env.store(user, target.dst, target.pos, b);
        target := Mem(target.dst, target.pos + 1);
      }
      fixlenRemaining := fixlenRemaining - 1;
    }

    /** A byte of a float or of a float array's elements. */
    method OnFixlenVal(b: byte)
      requires Sound() && Top().state == FIXLEN_VAL
      modifies this
      ensures Follows(D.OnPayload(env, old(State()), b), false)
    {
      TakeByte(b);
      if fixlenRemaining > 0 {
        return;
      }
      if targetOpt % 8 == ARRAY_FIXLEN {
        targetCount := targetCount - 1;
        if targetCount > 0 {
          fixlenRemaining := targetLen;
          return;
        }
      }
      Enter(IDLE);
    }

    /** A byte of a string or blob; a strict text is validated once it is whole. */
    method OnFixlenRaw(b: byte) returns (halt: bool)
      requires Sound() && Top().state == FIXLEN_RAW
      modifies this
      ensures Follows(D.OnPayload(env, old(State()), b), halt)
    {
      hide ValidText;
      TakeByte(b);
      if text.Some? {
        text := Some(text.value + [b]);
      }
      if fixlenRemaining > 0 {
        return false;
      }
      if text.Some? && !ValidText(text.value) {
        return true;
      }
      Enter(IDLE);
      return false;
    }

    /** One byte into the accumulator: -1 for more, 0 for a value, -2 for a value too wide. */
    method VarintDecode(b: byte) returns (dec: int, value: nat)
      modifies this`varintValue, this`varintShift
      ensures match V.Step(env.W, V.Acc(old(varintValue), old(varintShift)), b)
        case More(acc) => dec == -1 && V.Acc(varintValue, varintShift) == acc
        case Done(v) => dec == 0 && value == v && varintValue == 0 && varintShift == 0
        case Overflow => dec == -2
    {
      value := 0;
      if varintShift >= env.W {
        return -2, 0;
      }
      var room := env.W - varintShift;
      if room < 7 && (b % 128) / Pow2(room) != 0 {
        return -2, 0;
      }
      varintValue := varintValue + (b % 128) * Pow2(varintShift);
      varintShift := varintShift + 7;
      if b < 128 {
        value := varintValue;
        varintValue, varintShift := 0, 0;
        return 0, value;
      }
      if varintShift >= env.W {
        return -2, 0;
      }
      return -1, 0;
    }

    /** The state a completed varint leads to. */
    method OnVarint(word: nat) returns (halt: bool)
      requires Sound() && D.InVarint(Control()) && varintValue == 0 && varintShift == 0
      modifies this
      ensures Follows(D.OnVarint(env, old(State()), word), halt)
    {
      hide D.OnHeader, D.OnScalar, D.OnElementWord, D.OnScalarWord, D.OnArrayCount, Follows;
      match chain[|chain| - 1].state
      case IDLE => halt := OnIdle(word);
      case VARINT_UNSIGNED => halt := OnUnsigned(word);
      case VARINT_SIGNED => halt := OnSigned(word);
      case FIXLEN_LEN => halt := OnFixlenLen(word);
      case ARRAY_COUNT => halt := OnCount(word);
    }

    /** One byte of a feed. */
    method StepByte(b: byte) returns (halt: bool)
      requires Sound()
      modifies this
      ensures Follows(D.StepByte(env, old(State()), b), halt)
    {
      hide D.OnVarint, D.OnPayload, V.Step;
      var state := chain[|chain| - 1].state;
      if state != FIXLEN_VAL && state != FIXLEN_RAW {
        ghost var before := State();
        var dec, value := VarintDecode(b);
        if dec == -1 {
          return false;
        }
        if dec < 0 {
          return true;
        }
        halt := OnVarint(value);
      } else if state == FIXLEN_VAL {
        halt := false;
        OnFixlenVal(b);
      } else {
        halt := OnFixlenRaw(b);
      }
    }

    /** A message boundary: no partial varint, idle, nothing skipped and nothing pushed. */
    predicate AtMessageBoundary()
      reads this
      requires chain != []
      ensures Sound() ==> AtMessageBoundary() == D.AtBoundary(State())
    {
      varintShift == 0 && chain[|chain| - 1].state == IDLE && chain[|chain| - 1].skipDepth == 0 && |chain| == 1
    }

    /**
     * A feed decodes its bytes as the machine does and reports the machine's verdict; a refusal is sticky,
     * and a stream already refused looks at no byte.
     */
    method Feed(data: array<byte>, datalen: nat) returns (ret: Ret)
      requires Valid() && datalen <= data.Length
      modifies this
      ensures Valid() && (ret == E_INVALID_MSG <==> invalid)
      ensures old(invalid) ==> ret == E_INVALID_MSG && user == old(user) && calls == old(calls)
      ensures !old(invalid) ==>
        var r := D.RunBytes(env, old(State()), data[..datalen]);
        && ret == (match D.VerdictOf(r) case Ok => OK case Incomplete => INCOMPLETE case Invalid => E_INVALID_MSG)
        && user == r.user && calls == r.calls
        && (ret != E_INVALID_MSG ==> State() == r)
    {
      if invalid {
        return E_INVALID_MSG;
      }
      hide D.StepByte, Control, FieldOk;
      ghost var all, start := data[..datalen], State();
      var i := 0;
      while i < datalen
        invariant 0 <= i <= datalen && Sound()
        invariant D.RunBytes(env, start, all) == D.RunBytes(env, State(), all[i..])
      {
        ghost var t := D.StepByte(env, State(), data[i]);
        assert all[i..][0] == data[i] && all[i..][1..] == all[i + 1..];
        var halt := StepByte(data[i]);
        if halt {
          D.DeadStays(env, t, all[i + 1..]);
          invalid := true;
          return E_INVALID_MSG;
        }
        i := i + 1;
      }
      if invalid {
        return E_INVALID_MSG;
      }
      return if AtMessageBoundary() then OK else INCOMPLETE;
    }
  }
}

/** Fields the application does not take: inserting one anywhere changes nothing but the callback log. */
module SkipTheorems {
  import opened Bytes
  import opened Varint
  import opened Wire
  import opened Utf8
  import opened Decoder
  import opened Meaning
  import opened DecoderTheorems

  // ---------------------------------------------------------------- the parse at another depth

  /** How many levels a field adds below itself. */
  function Height(f: Field): nat
    decreases f
  {
    match f
    case Leaf(_, _) => 0
    case Group(_, body) => 1 + Heights(body)
  }

  function Heights(fs: seq<Field>): nat
    decreases fs
  {
    if fs == [] then 0 else Max(Height(fs[0]), Heights(fs[1..]))
  }

  lemma {:induction false} HeightsPrepend(f: Field, fs: seq<Field>)
    ensures Heights([f] + fs) == Max(Height(f), Heights(fs))
  {
    hide Height;
    assert ([f] + fs)[1..] == fs;
  }

  /** Inside a sequence, the fields parsed do not depend on the depth as long as they still fit. */
  lemma {:induction false} ParseAtDepth(W: WordSize, b: seq<byte>, d: nat, d': nat)
    requires d > 0 && d' > 0
    requires ParseFields(W, b, d).Parsed?
    requires Heights(ParseFields(W, b, d).tree) + d' <= MAX_DEPTH
    ensures ParseFields(W, b, d') == ParseFields(W, b, d)
    decreases |b|
  {
    hide ParseVarint, ParseValue, IdMax, Heights, Height;
    match ParseVarint(W, b)
    case Parsed(h, b1) =>
      var id, ty := h / 8, h % 8;
      assert ParseFields(W, b, d) == ParseFrom(W, id, ty, b1, d);
      assert ParseFields(W, b, d') == ParseFrom(W, id, ty, b1, d');
      if ty == BEGIN {
        ParseGroupCases(W, id, b1, d);
        var p := ParseFields(W, b1, d + 1);
        var q := ParseFields(W, p.rest, d);
        HeightsPrepend(Group(id, p.tree), q.tree);
        GroupHeight(id, p.tree);
        ParseGroupCases(W, id, b1, d');
        ParseAtDepth(W, b1, d + 1, d' + 1);
        ParseAtDepth(W, p.rest, d, d');
      } else if ty != END {
        ParseLeafCases(W, id, ty, b1, d);
        var p := ParseValue(W, ty, b1);
        var q := ParseFields(W, p.rest, d);
        HeightsPrepend(Leaf(id, p.tree), q.tree);
        ParseLeafCases(W, id, ty, b1, d');
        ParseAtDepth(W, p.rest, d, d');
      }
  }

  lemma {:induction false} GroupHeight(id: nat, body: seq<Field>)
    ensures Height(Group(id, body)) == 1 + Heights(body)
  {
    hide Heights;
  }

  /** bf is one complete well-formed field. */
  predicate IsOneField(W: WordSize, bf: seq<byte>, f: Field)
  {
    ParseFields(W, bf, 0) == Parsed([f], [])
  }

  lemma {:induction false} SomeField(W: WordSize, b: seq<byte>)
    ensures b != [] ==> ParseFields(W, b, 0) != Parsed([], [])
  {
    hide ParseVarint, ParseValue, IdMax;
  }

  /** The shape of one complete field: its header, and then a value or a sequence that ends with the bytes. */
  lemma {:induction false} OneFieldShape(W: WordSize, bf: seq<byte>, f: Field)
    requires IsOneField(W, bf, f)
    ensures ParseVarint(W, bf).Parsed?
    ensures var h, b1 := ParseVarint(W, bf).tree, ParseVarint(W, bf).rest;
      && h / 8 == f.id <= IdMax(W)
      && (f.Leaf? ==> h % 8 <= ARRAY_FIXLEN && ParseValue(W, h % 8, b1) == Parsed(f.value, []))
      && (f.Group? ==> h % 8 == BEGIN && ParseFields(W, b1, 1) == Parsed(f.body, []))
  {
    hide ParseVarint, ParseValue, IdMax;
    match ParseVarint(W, bf)
    case Parsed(h, b1) =>
      assert ParseFields(W, bf, 0) == ParseFrom(W, h / 8, h % 8, b1, 0);
      if h % 8 == BEGIN {
        ParseGroupCases(W, h / 8, b1, 0);
        var p := ParseFields(W, b1, 1);
        var q := ParseFields(W, p.rest, 0);
        assert ([Group(h / 8, p.tree)] + q.tree)[0] == f && ([Group(h / 8, p.tree)] + q.tree)[1..] == q.tree == [];
        SomeField(W, p.rest);
      } else if h % 8 != END {
        ParseLeafCases(W, h / 8, h % 8, b1, 0);
        var p := ParseValue(W, h % 8, b1);
        var q := ParseFields(W, p.rest, 0);
        assert ([Leaf(h / 8, p.tree)] + q.tree)[0] == f && ([Leaf(h / 8, p.tree)] + q.tree)[1..] == q.tree == [];
        SomeField(W, p.rest);
      }
  }

  /** One complete field fed at a field boundary of any scope has exactly its meaning. */
  lemma {:induction false} RunOneField<U(!new), D, S(!new)>(env: Env<U, D, S>, e: Effect<U>, scopes: seq<S>, bf: seq<byte>, f: Field)
    requires scopes != [] && IsOneField(env.W, bf, f) && |scopes| - 1 + Height(f) <= MAX_DEPTH
    ensures var r := RunBytes(env, Place(e, scopes, 0), bf);
      match MeanField(env, e, scopes[|scopes| - 1], f)
      case Some(e1) => r == Place(e1, scopes, 0)
      case None => !Good(r)
  {
    hide ParseVarint, ParseValue, ParseFields, IdMax, MeanFields, MeanLeaf, OnVarint, OnHeader, RunBytes, Heights, Gentle;
    var s, d := Place<U, D, S>(e, scopes, 0), |scopes| - 1;
    OneFieldShape(env.W, bf, f);
    RunVarint(env, s, bf);
    var h, b1 := ParseVarint(env.W, bf).tree, ParseVarint(env.W, bf).rest;
    if f.Leaf? {
      HeaderIsOnHeader(env, s, h);
      RunLeaf(env, e, scopes, 0, f.id, h % 8, b1);
      LeafMeans(env, e, scopes[d], f.id, f.value);
      var m := MeanField(env, e, scopes[d], f);
      if m.Some? { RunNothing(env, Place<U, D, S>(m.value, scopes, 0)); }
    } else {
      StructureHeader(env, e, scopes, 0, h);
      GroupMeans(env, e, scopes[d], f.id, f.body);
      var t := OnVarint(env, s, h);
      var r := Answer(env, e, scopes, Call(f.id, 0, 0, BEGIN));
      var e1 := Effect(r.user, e.calls + [Call(f.id, 0, 0, BEGIN)]);
      ParseAtDepth(env.W, b1, 1, d + 1);
      if t.condemned {
        RefusalStays(env, t, b1);
      } else if r.act.ReadSequence? {
        RunScope(env, e1, scopes + [r.act.scope], b1);
        assert (scopes + [r.act.scope])[..d + 1] == scopes;
        var m := MeanFields(env, e1, r.act.scope, f.body);
        if m.Some? { RunNothing(env, Place<U, D, S>(m.value, scopes, 0)); }
      } else {
        RunSkipped(env, e1, scopes, 1, b1);
        RunNothing(env, Place<U, D, S>(e1, scopes, 0));
      }
    }
  }

  // ---------------------------------------------------------------- the log decides nothing

  /** s without its callback log. */
  function Forget<U, D, S>(s: State<U, D, S>): State<U, D, S>
  {
    s.(calls := [])
  }

  lemma HeaderForgets<U, D, S>(env: Env<U, D, S>, s: State<U, D, S>, log: seq<Call>, w: nat)
    requires s.Live? && s.scopes != [] && s.ctl.Idle?
    ensures Forget(OnHeader(env, s, w)) == Forget(OnHeader(env, s.(calls := log), w))
  {
    hide StoreAll, ScalarBytes;
  }

  lemma ScalarForgets<U, D, S>(env: Env<U, D, S>, s: State<U, D, S>, log: seq<Call>, w: nat)
    requires s.Live? && s.scopes != [] && s.ctl.Scalars?
    ensures Forget(OnScalar(env, s, w)) == Forget(OnScalar(env, s.(calls := log), w))
  {
    hide StoreAll, ScalarBytes;
  }

  lemma CountForgets<U, D, S>(env: Env<U, D, S>, s: State<U, D, S>, log: seq<Call>, w: nat)
    requires s.Live? && s.scopes != [] && s.ctl.ArrayCount?
    ensures Forget(OnArrayCount(env, s, w)) == Forget(OnArrayCount(env, s.(calls := log), w))
  {
    hide StoreAll, ScalarBytes;
  }

  lemma ElementWordForgets<U, D, S>(env: Env<U, D, S>, s: State<U, D, S>, log: seq<Call>, w: nat)
    requires s.Live? && s.scopes != [] && s.ctl.FixlenWord? && s.ctl.list
    ensures Forget(OnElementWord(env, s, w)) == Forget(OnElementWord(env, s.(calls := log), w))
  {
    hide StoreAll, ScalarBytes;
  }

  lemma ScalarWordForgets<U, D, S>(env: Env<U, D, S>, s: State<U, D, S>, log: seq<Call>, w: nat)
    requires s.Live? && s.scopes != [] && s.ctl.FixlenWord? && !s.ctl.list
    ensures Forget(OnScalarWord(env, s, w)) == Forget(OnScalarWord(env, s.(calls := log), w))
  {
    hide StoreAll, ScalarBytes;
  }

  lemma WordForgets<U, D, S>(env: Env<U, D, S>, s: State<U, D, S>, log: seq<Call>, w: nat)
    requires s.Live? && s.scopes != [] && InVarint(s.ctl)
    ensures Forget(OnVarint(env, s, w)) == Forget(OnVarint(env, s.(calls := log), w))
  {
    hide OnHeader, OnScalar, OnArrayCount, OnElementWord, OnScalarWord;
    match s.ctl
    case Idle => HeaderForgets(env, s, log, w);
    case Scalars(_, _, _, _, _) => ScalarForgets(env, s, log, w);
    case ArrayCount(_, _) => CountForgets(env, s, log, w);
    case FixlenWord(_, list, _) => if list { ElementWordForgets(env, s, log, w); } else { ScalarWordForgets(env, s, log, w); }
  }

  lemma StepForgets<U, D, S>(env: Env<U, D, S>, s: State<U, D, S>, t: State<U, D, S>, b: byte)
    requires Forget(s) == Forget(t)
    ensures Forget(StepByte(env, s, b)) == Forget(StepByte(env, t, b))
  {
    hide OnVarint, ValidText;
    assert s.Live? == t.Live?;
    if s.Live? && s.scopes != [] && InVarint(s.ctl) {
      match Step(env.W, s.acc, b)
      case More(_) =>
      case Overflow =>
      case Done(v) =>
        assert t == s.(calls := t.calls);
        assert t.(acc := ZERO) == s.(acc := ZERO).(calls := t.calls);
        WordForgets(env, s.(acc := ZERO), t.calls, v);
    }
  }

  lemma {:induction false} RunForgets<U, D, S>(env: Env<U, D, S>, s: State<U, D, S>, t: State<U, D, S>, bs: seq<byte>)
    requires Forget(s) == Forget(t)
    ensures Forget(RunBytes(env, s, bs)) == Forget(RunBytes(env, t, bs))
    ensures VerdictOf(RunBytes(env, s, bs)) == VerdictOf(RunBytes(env, t, bs))
    decreases |bs|
  {
    hide StepByte;
    if bs == [] {
      assert s.Live? == t.Live?;
    } else {
      StepForgets(env, s, t, bs[0]);
      RunForgets(env, StepByte(env, s, bs[0]), StepByte(env, t, bs[0]), bs[1..]);
    }
  }

  // ---------------------------------------------------------------- insertion

  /** The decoder stands between two fields of a scope the callback opened. */
  predicate AtFieldBoundary<U, D, S>(s: State<U, D, S>)
  {
    Good(s) && s.ctl.Idle? && s.acc.shift == 0 && s.skip == 0
  }

  /** What the callback is told about a field. */
  function CallOf(f: Field): Call
  {
    match f
    case Leaf(id, v) => Call(id, SizeOf(v), CountOf(v), OptOf(v))
    case Group(id, _) => Call(id, 0, 0, BEGIN)
  }

  /** The callback passes over the field: it changes nothing, and makes no read the wire type bears out. */
  ghost predicate PassedOver<U, D, S>(env: Env<U, D, S>, u: U, sc: S, f: Field)
  {
    var r := env.call(u, sc, CallOf(f));
    var a := Settle(r.act, CallOf(f).opt);
    r.user == u && !r.condemn && (a.Decline? || (f.Leaf? && a.ReadSequence?))
  }

  /**
   * Inserting a complete field that is passed over, at any field boundary of any opened scope, leaves the
   * verdict and the whole application state of the rest of the message as they were.
   */
  lemma {:induction false} InsertionIsTransparent<U(!new), D, S(!new)>(
    env: Env<U, D, S>, s: State<U, D, S>, front: seq<byte>, bf: seq<byte>, f: Field, back: seq<byte>)
    requires StateOk(s)
    requires AtFieldBoundary(RunBytes(env, s, front))
    requires var t := RunBytes(env, s, front);
      && IsOneField(env.W, bf, f) && |t.scopes| - 1 + Height(f) <= MAX_DEPTH
      && t.scopes != [] && PassedOver(env, t.user, t.scopes[|t.scopes| - 1], f)
    ensures var with, without := RunBytes(env, s, front + bf + back), RunBytes(env, s, front + back);
      VerdictOf(with) == VerdictOf(without) && with.user == without.user
  {
    hide RunBytes, IsOneField, Height, MeanLeaf;
    var t := RunBytes(env, s, front);
    RunKeeps(env, s, front);
    var e := Effect(t.user, t.calls);
    assert t == Place(e, t.scopes, 0);
    RunOneField(env, e, t.scopes, bf, f);
    MeanPassedOver(env, e, t.scopes[|t.scopes| - 1], f);
    RunAppend(env, s, front, bf);
    RunAppend(env, s, front + bf, back);
    RunAppend(env, s, front, back);
    RunForgets(env, RunBytes(env, t, bf), t, back);
    var with, without := RunBytes(env, RunBytes(env, t, bf), back), RunBytes(env, t, back);
    assert Forget(with).user == Forget(without).user;
  }

  lemma {:induction false} MeanPassedOver<U, D, S>(env: Env<U, D, S>, e: Effect<U>, sc: S, f: Field)
    requires PassedOver(env, e.user, sc, f)
    ensures MeanField(env, e, sc, f) == Some(Effect(e.user, e.calls + [CallOf(f)]))
  {
  }

  // ---------------------------------------------------------------- destinations in flat memory

  /** One byte into flat memory; a destination is its base address. */
  function Poke(mem: seq<byte>, base: nat, pos: nat, b: byte): (m: seq<byte>)
    ensures |m| == |mem|
  {
    if base + pos < |mem| then mem[base + pos := b] else mem
  }

  lemma {:induction false} StoreInPlace<S>(env: Env<seq<byte>, nat, S>, mem: seq<byte>, base: nat, pos: nat, bs: seq<byte>)
    requires env.store == Poke && base + pos + |bs| <= |mem|
    ensures StoreAll(env, mem, base, pos, bs) == mem[..base + pos] + bs + mem[base + pos + |bs|..]
    decreases |bs|
  {
    if bs == [] {
      assert mem == mem[..base + pos] + mem[base + pos..];
    } else {
      var m1 := Poke(mem, base, pos, bs[0]);
      StoreInPlace(env, m1, base, pos + 1, bs[1..]);
      assert m1[..base + pos + 1] == mem[..base + pos] + [bs[0]];
      assert m1[base + pos + |bs|..] == mem[base + pos + |bs|..];
      assert [bs[0]] + bs[1..] == bs;
    }
  }

  /** The bytes a read owns. */
  function Extent<D, S>(a: Action<D, S>): nat
  {
    match a
    case ReadInt(_, _, w) => w
    case ReadFloat(_, fp64) => FloatWidth(fp64)
    case ReadBytes(_, cap, _, _) => cap
    case ReadInts(_, n, _, w) => n * w
    case ReadFloats(_, n, fp64) => n * FloatWidth(fp64)
    case _ => 0
  }

  /** What a destination with the prior contents holds after an accepted value: the value, then its filling. */
  function Filled<D, S>(a: Action<D, S>, v: Value, prior: seq<byte>): seq<byte>
    requires |prior| == Extent(a)
  {
    match (a, v)
    case (ReadInt(_, num, w), Int(_, x)) => ScalarBytes(num, w, x).0
    case (ReadFloat(_, _), Fixlen(_, p)) => p
    case (ReadBytes(_, _, _, term), Fixlen(_, p)) =>
      var image := p + if term then [0] else [];
      if |image| <= |prior| then image + prior[|image|..] else prior
    case (ReadInts(_, n, num, w), Ints(_, words)) =>
      Packed(num, w, words) + if |words| <= n then Zeros((n - |words|) * w) else []
    case (ReadFloats(_, n, fp64), Floats(_, p)) =>
      p + if |p| <= n * FloatWidth(fp64) then Zeros(n * FloatWidth(fp64) - |p|) else []
    case _ => prior
  }

  lemma {:induction false} TwoStores<S>(env: Env<seq<byte>, nat, S>, mem: seq<byte>, base: nat, len: nat, p: seq<byte>, q: seq<byte>)
    requires env.store == Poke && base + |p| + |q| <= |mem| && len == |p| + |q|
    ensures StoreWrites(env, mem, base, [Write(|p|, q), Write(0, p)]) == mem[..base] + (p + q) + mem[base + len..]
  {
    hide StoreAll, StoreWrites;
    StoreTwoWrites(env, mem, base, Write(|p|, q), Write(0, p));
    StoreInPlace(env, mem, base, |p|, q);
    var m := mem[..base + |p|] + q + mem[base + |p| + |q|..];
    StoreInPlace(env, m, base, 0, p);
    assert m[..base] == mem[..base];
    assert m[base + |p|..] == q + mem[base + len..];
  }

  lemma TooMany(p: seq<byte>, n: nat, len: nat)
    requires len > 0 && |p| % len == 0 && |p| / len <= n
    ensures |p| / len * len == |p| && |p| <= n * len && (n - |p| / len) * len == n * len - |p|
  {
    var k := |p| / len;
    assert k * len == |p|;
    MulLess(k, n, len);
    assert (n - k) * len == n * len - k * len;
  }

  lemma WholeWords(n: nat, m: nat, w: nat)
    requires m <= n
    ensures m * w <= n * w && (n - m) * w == n * w - m * w
  {
    MulLess(m, n, w);
    assert (n - m) * w == n * w - m * w;
  }

  /** The wire words a w-byte member of this kind takes: any truth value, else what w bytes can tell apart. */
  predicate Representable(num: Num, w: Width, x: nat)
  {
    num.Boolean? || x < Pow2(8 * w)
  }

  /** A member's bytes, read as its type, are the number the wire word stands for. */
  predicate Holds(num: Num, w: Width, bytes: seq<byte>, x: nat)
  {
    |bytes| == w &&
    match num
    case Unsigned => Word(bytes) == x
    case Signed => Varint.Signed(Word(bytes), w) == UnZigZag(x)
    case Boolean => Word(bytes) == if x != 0 then 1 else 0
  }

  lemma {:induction false} ScalarIsExact(num: Num, w: Width, x: nat)
    ensures ScalarBytes(num, w, x).1 <==> Representable(num, w, x)
    ensures Representable(num, w, x) ==> Holds(num, w, ScalarBytes(num, w, x).0, x)
  {
    SpanIsPow2(w);
    hide LowBytes, Word, Span, Pow2;
    match num
    case Boolean =>
      OneFits(w);
      WordOfLowBytes(if x != 0 then 1 else 0, w);
    case Unsigned =>
      if x < Span(w) { WordOfLowBytes(x, w); }
    case Signed =>
      ZigZagUnZigZag(x);
      SignedFit(UnZigZag(x), w);
      WordOfLowBytes(LowWord(UnZigZag(x), w), w);
  }

  lemma {:induction false} OneFits(w: Width)
    ensures 1 < Span(w)
  {
    assert Span(w) == 256 * Span(w - 1);
  }

  lemma ZigZagUnZigZag(x: nat)
    ensures ZigZag(UnZigZag(x)) == x
  {
  }

  lemma {:induction false} AllInRange(num: Num, w: Width, words: seq<nat>)
    ensures AllFit(num, w, words) <==> forall i :: 0 <= i < |words| ==> Representable(num, w, words[i])
  {
    hide ScalarBytes, Representable, Holds;
    forall i | 0 <= i < |words|
      ensures ScalarBytes(num, w, words[i]).1 <==> Representable(num, w, words[i])
    {
      ScalarIsExact(num, w, words[i]);
    }
  }

  /** When a destination takes a value of its own wire type. */
  predicate Accepts<D, S>(strict: bool, a: Action<D, S>, v: Value)
  {
    match (a, v)
    case (ReadInt(_, num, w), Int(_, x)) => Representable(num, w, x)
    case (ReadFloat(_, _), Fixlen(_, _)) => true
    case (ReadBytes(_, cap, text, term), Fixlen(_, p)) => |p| + (if term then 1 else 0) <= cap && (strict && text ==> ValidText(p))
    case (ReadInts(_, n, num, w), Ints(_, words)) => |words| <= n && forall i :: 0 <= i < |words| ==> Representable(num, w, words[i])
    case (ReadFloats(_, n, _), Floats(_, _)) => CountOf(v) <= n
    case _ => false
  }

  /** The bytes of mem a read owns, replaced. */
  function Overlay<S>(mem: seq<byte>, a: Action<nat, S>, image: seq<byte>): seq<byte>
    requires !a.Decline? && !a.ReadSequence? && a.dst + Extent(a) <= |mem|
  {
    mem[..a.dst] + image + mem[a.dst + Extent(a)..]
  }

  lemma BytesAreFilled<S>(env: Env<seq<byte>, nat, S>, mem: seq<byte>, a: Action<nat, S>, v: Value)
    requires env.store == Poke && a.ReadBytes? && v.Fixlen?
    requires a.dst + Extent(a) <= |mem| && Render(env.strict, a, v).Some?
    ensures var image := Filled(a, v, mem[a.dst..a.dst + Extent(a)]);
      StoreWrites(env, mem, a.dst, Render(env.strict, a, v).value) == Overlay(mem, a, image) && |image| == Extent(a)
  {
    hide StoreAll, StoreWrites;
    var base, p := a.dst, v.payload;
    var image := p + if a.term then [0] else [];
    assert mem[base + |image|..] == mem[base..base + a.cap][|image|..] + mem[base + a.cap..];
    if a.term {
      assert [Write(|p|, [0])] + [Write(0, p)] == [Write(|p|, [0]), Write(0, p)];
      TwoStores(env, mem, base, |image|, p, [0]);
    } else {
      assert [] + [Write(0, p)] == [Write(0, p)];
      StoreOneWrite(env, mem, base, Write(0, p));
      StoreInPlace(env, mem, base, 0, p);
    }
  }

  lemma IntsAreFilled<S>(env: Env<seq<byte>, nat, S>, mem: seq<byte>, a: Action<nat, S>, v: Value)
    requires env.store == Poke && a.ReadInts? && v.Ints?
    requires a.dst + Extent(a) <= |mem| && Render(env.strict, a, v).Some?
    ensures var image := Filled(a, v, mem[a.dst..a.dst + Extent(a)]);
      StoreWrites(env, mem, a.dst, Render(env.strict, a, v).value) == Overlay(mem, a, image) && |image| == Extent(a)
  {
    hide StoreAll, StoreWrites, Packed, ScalarBytes, AllFit;
    WholeWords(a.n, |v.words|, a.width);
    TwoStores(env, mem, a.dst, a.n * a.width, Packed(a.num, a.width, v.words), Zeros((a.n - |v.words|) * a.width));
  }

  lemma FloatsAreFilled<S>(env: Env<seq<byte>, nat, S>, mem: seq<byte>, a: Action<nat, S>, v: Value)
    requires env.store == Poke && a.ReadFloats? && v.Floats? && v.fp64 == a.fp64 && |v.payload| % FloatWidth(v.fp64) == 0
    requires a.dst + Extent(a) <= |mem| && Render(env.strict, a, v).Some?
    ensures var image := Filled(a, v, mem[a.dst..a.dst + Extent(a)]);
      StoreWrites(env, mem, a.dst, Render(env.strict, a, v).value) == Overlay(mem, a, image) && |image| == Extent(a)
  {
    hide StoreAll, StoreWrites;
    var len, p := FloatWidth(v.fp64), v.payload;
    TooMany(p, a.n, len);
    TwoStores(env, mem, a.dst, a.n * len, p, Zeros((a.n - |p| / len) * len));
  }

  lemma ScalarIsFilled<S>(env: Env<seq<byte>, nat, S>, mem: seq<byte>, a: Action<nat, S>, v: Value)
    requires env.store == Poke && ((a.ReadInt? && v.Int?) || (a.ReadFloat? && v.Fixlen? && |v.payload| == FloatWidth(a.fp64)))
    requires a.dst + Extent(a) <= |mem| && Render(env.strict, a, v).Some?
    ensures var image := Filled(a, v, mem[a.dst..a.dst + Extent(a)]);
      StoreWrites(env, mem, a.dst, Render(env.strict, a, v).value) == Overlay(mem, a, image) && |image| == Extent(a)
  {
    hide StoreAll, StoreWrites, ScalarBytes;
    var p := Render(env.strict, a, v).value[0].bytes;
    StoreOneWrite(env, mem, a.dst, Write(0, p));
    StoreInPlace(env, mem, a.dst, 0, p);
  }

  /**
   * In flat memory an accepted value changes the destination to exactly value-plus-filling and no byte
   * outside it: an array of capacity N that receives M elements ends with the M elements and N - M zeros, a
   * text with payload and terminator. It is accepted iff it fits: no more elements or bytes than the
   * capacity, every integer within the width, and strict text valid.
   */
  lemma DestinationsAreFilledExactly<S>(env: Env<seq<byte>, nat, S>, W: WordSize, mem: seq<byte>, a: Action<nat, S>, v: Value)
    requires env.store == Poke && ValueOk(W, v)
    requires !a.Decline? && !a.ReadSequence? && ExpectedOpt(a) == OptOf(v)
    requires a.dst + Extent(a) <= |mem|
    ensures Render(env.strict, a, v).Some? <==> Accepts(env.strict, a, v)
    ensures Render(env.strict, a, v).Some? ==>
      var image := Filled(a, v, mem[a.dst..a.dst + Extent(a)]);
      StoreWrites(env, mem, a.dst, Render(env.strict, a, v).value) == Overlay(mem, a, image) && |image| == Extent(a)
  {
    hide StoreAll, StoreWrites, ScalarBytes, Pow2, Packed, AllFit, ValidText, Overlay, Filled, Representable, Holds;
    if a.ReadInt? { ScalarIsExact(a.num, a.width, v.word); }
    if a.ReadInts? { AllInRange(a.num, a.width, v.words); }
    if Render(env.strict, a, v).Some? {
      match a
      case ReadInt(_, _, _) => ScalarIsFilled(env, mem, a, v);
      case ReadFloat(_, _) => ScalarIsFilled(env, mem, a, v);
      case ReadBytes(_, _, _, _) => BytesAreFilled(env, mem, a, v);
      case ReadInts(_, _, _, _) => IntsAreFilled(env, mem, a, v);
      case ReadFloats(_, _, _) => FloatsAreFilled(env, mem, a, v);
    }
  }
}

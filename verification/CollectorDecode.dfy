/**
 * StringSeq at work: the collector as the field callback of the decoder, over the bytes of a wrapper array. The
 * container, the latched category and the answer of a feed are told from the message.
 */
module CollectorDecode {
  import opened Bytes
  import opened Varint
  import opened Wire
  import opened Utf8
  import opened Decoder
  import opened Meaning
  import opened DecoderTheorems
  import C = Collectors

  /** The collector's container, and the category latched beside the core. */
  datatype Bin = Bin(items: seq<seq<byte>>, refusal: Option<C.Refusal>)

  /** A string collector: a ceiling on the index and one on an element's length. */
  function Strings(index: C.Limits, size: C.Limits): C.Declared
  {
    C.Declared(Some(FIXLEN), Some(STRING), index, Some(size))
  }

  /** What the callback is told of an element, as an event that makes its slot `text`. */
  function EventOf(c: Call, text: seq<byte>): C.Event<seq<byte>>
  {
    C.Event(c.id, c.opt % 8, c.opt / 8, c.size, (_: seq<byte>) => text)
  }

  /** StringSeq::deserialize: type, index, length; then the gaps, an element of that length, and the read. */
  function Deserialize(p: C.Declared, u: Bin, c: Call): Reply<Bin, nat, ()>
  {
    var e := EventOf(c, Zeros(c.size));
    if !C.Typed(p, e) then Reply(u, Decline, false)
    else if C.Objection(p, e).Some? then
      Reply(u.(refusal := if u.refusal.Some? then u.refusal else C.Objection(p, e)), Decline, true)
    else
      Reply(u.(items := C.Placed(p, [], u.items, e)), if c.size > 0 then ReadBytes(c.id, c.size, true, false) else Decline, false)
  }

  function StoreChar(u: Bin, d: nat, pos: nat, b: byte): Bin
  {
    if d < |u.items| && pos < |u.items[d]| then
      var row: seq<byte> := u.items[d][pos := b];
      u.(items := u.items[d := row])
    else u
  }

  function CollectorEnv(W: WordSize, strict: bool, p: C.Declared): Env<Bin, nat, ()>
  {
    Env(W, strict, (u, sc, c) => Deserialize(p, u, c), (u, d, pos, b) => StoreChar(u, d, pos, b))
  }

  const EMPTY: Bin := Bin([], None)

  /** The answer of the feed that leaves state s. */
  function Answer(s: State<Bin, nat, ()>): C.Answer
  {
    if s.user.refusal.Some? then C.Refused(s.user.refusal.value) else C.Core(VerdictOf(s))
  }

  // ---------------------------------------------------------------- what the fields of a message collect

  function EventOfField(f: Field): C.Event<seq<byte>>
  {
    match f
    case Leaf(id, v) => EventOf(Call(id, SizeOf(v), CountOf(v), OptOf(v)), if v.Fixlen? then v.payload else [])
    case Group(id, _) => EventOf(Call(id, 0, 0, BEGIN), [])
  }

  function Events(fs: seq<Field>): seq<C.Event<seq<byte>>>
  {
    if fs == [] then [] else [EventOfField(fs[0])] + Events(fs[1..])
  }

  /** A string element is taken: within both ceilings, and valid where that is checked. */
  predicate Welcome(strict: bool, p: C.Declared, f: Field)
  {
    C.Typed(p, EventOfField(f)) ==>
      C.Objection(p, EventOfField(f)).None? && (strict && f.Leaf? && f.value.Fixlen? ==> ValidText(f.value.payload))
  }

  lemma {:induction false} StoresFill(W: WordSize, strict: bool, p: C.Declared, u: Bin, d: nat, pos: nat, bs: seq<byte>)
    requires d < |u.items| && pos + |bs| == |u.items[d]|
    ensures StoreAll(CollectorEnv(W, strict, p), u, d, pos, bs) == u.(items := u.items[d := u.items[d][..pos] + bs])
    decreases |bs|
  {
    if bs == [] {
      assert u.items[d][..pos] + [] == u.items[d];
      assert u.items[d := u.items[d]] == u.items;
    } else {
      var u1 := StoreChar(u, d, pos, bs[0]);
      StoresFill(W, strict, p, u1, d, pos + 1, bs[1..]);
      assert u1.items[d][..pos + 1] + bs[1..] == u.items[d][..pos] + bs;
      assert u.items[d := u1.items[d]][d := u.items[d][..pos] + bs] == u.items[d := u.items[d][..pos] + bs];
    }
  }

  lemma {:induction false} FieldCollects(W: WordSize, strict: bool, index: C.Limits, size: C.Limits, e: Effect<Bin>, f: Field)
    ensures var p := Strings(index, size);
      var m := MeanField(CollectorEnv(W, strict, p), e, (), f);
      && (m.Some? <==> Welcome(strict, p, f))
      && (m.Some? ==> m.value.user == e.user.(items := C.Placed(p, [], e.user.items, EventOfField(f))))
  {
    hide C.Objection, ValidText, StoreAll, MeanFields;
    var p := Strings(index, size);
    match f
    case Group(id, body) => GroupMeans(CollectorEnv(W, strict, p), e, (), id, body);
    case Leaf(id, v) => LeafCollects(W, strict, index, size, e, id, v);
  }

  lemma {:induction false} LeafCollects(W: WordSize, strict: bool, index: C.Limits, size: C.Limits, e: Effect<Bin>, id: nat, v: Value)
    ensures var p := Strings(index, size);
      var f := Leaf(id, v);
      var m := MeanLeaf(CollectorEnv(W, strict, p), e, (), id, v);
      && (m.Some? <==> Welcome(strict, p, f))
      && (m.Some? ==> m.value.user == e.user.(items := C.Placed(p, [], e.user.items, EventOfField(f))))
  {
    hide C.Objection, ValidText, StoreAll, C.Grown, C.Placed;
    var p, env := Strings(index, size), CollectorEnv(W, strict, Strings(index, size));
    var c := Call(id, SizeOf(v), CountOf(v), OptOf(v));
    SameObjection(p, c, Zeros(c.size), if v.Fixlen? then v.payload else []);
    if v.Fixlen? && v.sub == STRING && C.Objection(p, EventOf(c, Zeros(c.size))).None? {
      var u1 := Deserialize(p, e.user, c).user;
      SamePlace(p, e.user.items, c, Zeros(c.size), v.payload);
      if |v.payload| > 0 {
        assert [] + [Write(0, v.payload)] == [Write(0, v.payload)];
        StoreOneWrite(env, u1, id, Write(0, v.payload));
        StoresFill(W, strict, p, u1, id, 0, v.payload);
        assert Zeros(c.size)[..0] + v.payload == v.payload;
      } else {
        assert v.payload == Zeros(c.size);
        EmptyIsValid();
      }
    } else {
      NotPlaced(p, e.user.items, EventOfField(Leaf(id, v)));
    }
  }

  lemma NotPlaced(p: C.Declared, items: seq<seq<byte>>, e: C.Event<seq<byte>>)
    ensures !C.Accepted(p, e) ==> C.Placed(p, [], items, e) == items
  {
  }

  /** A refusal goes by index and length alone. */
  lemma SameObjection(p: C.Declared, c: Call, a: seq<byte>, b: seq<byte>)
    ensures C.Objection(p, EventOf(c, a)) == C.Objection(p, EventOf(c, b))
  {
    hide C.Breach;
  }

  lemma EmptyIsValid()
    ensures ValidText([])
  {
  }

  /** Placing a text is placing room for it and writing it there. */
  lemma SamePlace(p: C.Declared, items: seq<seq<byte>>, c: Call, a: seq<byte>, b: seq<byte>)
    requires C.Accepted(p, EventOf(c, a))
    ensures C.Accepted(p, EventOf(c, b))
    ensures var x := C.Placed(p, [], items, EventOf(c, a)); c.id < |x| && x[c.id] == a
    ensures C.Placed(p, [], items, EventOf(c, b)) == C.Placed(p, [], items, EventOf(c, a))[c.id := b]
  {
    hide C.Breach;
    var g := C.Grown(items, c.id + 1, []);
    assert g[c.id := a][c.id := b] == g[c.id := b];
  }

  predicate AllWelcome(strict: bool, p: C.Declared, fs: seq<Field>)
  {
    fs == [] || (Welcome(strict, p, fs[0]) && AllWelcome(strict, p, fs[1..]))
  }

  lemma {:induction false} FieldsCollect(W: WordSize, strict: bool, index: C.Limits, size: C.Limits, e: Effect<Bin>, fs: seq<Field>)
    ensures var p := Strings(index, size);
      var m := MeanFields(CollectorEnv(W, strict, p), e, (), fs);
      && (m.Some? <==> AllWelcome(strict, p, fs))
      && (m.Some? ==> m.value.user == e.user.(items := C.Collected(p, [], e.user.items, Events(fs))))
    decreases fs
  {
    hide MeanField, Welcome, C.Placed, EventOfField;
    if fs != [] {
      var p := Strings(index, size);
      FieldCollects(W, strict, index, size, e, fs[0]);
      var m := MeanField(CollectorEnv(W, strict, p), e, (), fs[0]);
      if m.Some? {
        FieldsCollect(W, strict, index, size, m.value, fs[1..]);
        assert Events(fs)[1..] == Events(fs[1..]);
      }
    }
  }

  // ---------------------------------------------------------------- over every run

  /** The callbacks so far, as events. */
  function Trace(calls: seq<Call>): seq<C.Event<seq<byte>>>
    ensures |Trace(calls)| == |calls|
  {
    if calls == [] then [] else Trace(calls[..|calls| - 1]) + [EventOf(calls[|calls| - 1], Zeros(calls[|calls| - 1].size))]
  }

  /** Every slot is empty or within the ceiling on an element. */
  ghost predicate Short(p: C.Declared, items: seq<seq<byte>>)
  {
    p.size.Some? ==> forall i :: 0 <= i < |items| ==> C.Within(|items[i]|, p.size.value)
  }

  /**
   * The latch and the size of the container follow the callbacks, its slots stay within their ceiling; a latched
   * refusal has condemned the message.
   */
  ghost predicate Tallied(p: C.Declared, s: State<Bin, nat, ()>)
  {
    && s.user.refusal == C.LatchedAfter(p, None, Trace(s.calls))
    && |s.user.items| == C.Extent(p, Trace(s.calls)) && Short(p, s.user.items)
    && (s.Live? ==> s.condemned == s.user.refusal.Some?)
  }

  lemma {:induction false} TraceMore(p: C.Declared, es: seq<C.Event<seq<byte>>>, e: C.Event<seq<byte>>, kept: Option<C.Refusal>)
    ensures C.LatchedAfter(p, kept, es + [e]) == C.Latched(p, C.LatchedAfter(p, kept, es), e)
    ensures C.Extent(p, es + [e]) == Max(C.Extent(p, es), if C.Accepted(p, e) then e.id + 1 else 0)
    decreases |es|
  {
    hide C.Accepted, C.Latched;
    if es == [] {
      assert es + [e] == [e] && [e][1..] == [];
    } else {
      assert (es + [e])[1..] == es[1..] + [e] && (es + [e])[0] == es[0];
      TraceMore(p, es[1..], e, C.Latched(p, kept, es[0]));
    }
  }

  predicate SameSizes(a: seq<seq<byte>>, b: seq<seq<byte>>)
  {
    |a| == |b| && forall i :: 0 <= i < |a| ==> |a[i]| == |b[i]|
  }

  lemma {:induction false} StoresTally(W: WordSize, strict: bool, p: C.Declared, u: Bin, d: nat, pos: nat, bs: seq<byte>)
    ensures var v := StoreAll(CollectorEnv(W, strict, p), u, d, pos, bs); v.refusal == u.refusal && SameSizes(u.items, v.items)
    decreases |bs|
  {
    if bs != [] { StoresTally(W, strict, p, StoreChar(u, d, pos, bs[0]), d, pos + 1, bs[1..]); }
  }

  /** What one callback does to the container and the latch. */
  lemma DeserializeTallies(p: C.Declared, u: Bin, c: Call)
    requires Short(p, u.items)
    ensures var r, e := Deserialize(p, u, c), EventOf(c, Zeros(c.size));
      && r.user.refusal == C.Latched(p, u.refusal, e)
      && |r.user.items| == Max(|u.items|, if C.Accepted(p, e) then e.id + 1 else 0)
      && Short(p, r.user.items)
      && (r.condemn <==> C.Typed(p, e) && C.Objection(p, e).Some?)
  {
    hide C.Objection;
    C.ObjectionIsExact(p, EventOf(c, Zeros(c.size)));
  }

  lemma {:induction false} ConsultTallies(W: WordSize, strict: bool, p: C.Declared, s: State<Bin, nat, ()>, c: Call)
    requires s.Live? && s.scopes != [] && Tallied(p, s)
    ensures Tallied(p, Consult(CollectorEnv(W, strict, p), s, c).0)
  {
    hide C.Objection, C.LatchedAfter, C.Extent, C.Accepted, C.Typed, Deserialize, Short;
    if s.skip == 0 {
      var e := EventOf(c, Zeros(c.size));
      assert (s.calls + [c])[..|s.calls|] == s.calls;
      TraceMore(p, Trace(s.calls), e, None);
      DeserializeTallies(p, s.user, c);
    }
  }

  /** t has what s has of application, callbacks and condemnation, up to bytes stored. */
  predicate SameTally(s: State<Bin, nat, ()>, t: State<Bin, nat, ()>)
  {
    && t.user.refusal == s.user.refusal && SameSizes(s.user.items, t.user.items) && t.calls == s.calls
    && (t.Live? ==> s.Live? && t.condemned == s.condemned)
  }

  lemma SameTallied(p: C.Declared, s: State<Bin, nat, ()>, t: State<Bin, nat, ()>)
    requires Tallied(p, s) && SameTally(s, t)
    ensures Tallied(p, t)
  {
    hide C.LatchedAfter, C.Extent;
  }

  lemma {:induction false} HeaderTallies(W: WordSize, strict: bool, p: C.Declared, s: State<Bin, nat, ()>, w: nat)
    requires s.Live? && s.scopes != [] && s.ctl.Idle? && Tallied(p, s)
    ensures Tallied(p, OnHeader(CollectorEnv(W, strict, p), s, w))
  {
    hide Consult, IdMax, Tallied;
    var env, c := CollectorEnv(W, strict, p), Call(w / 8, 0, 0, w % 8);
    ConsultTallies(W, strict, p, s, c);
    var r := OnHeader(env, s, w);
    var t := Consult(env, s, c).0;
    if SameTally(t, r) { SameTallied(p, t, r); } else { SameTallied(p, s, r); }
  }

  lemma {:induction false} ScalarTallies(W: WordSize, strict: bool, p: C.Declared, s: State<Bin, nat, ()>, w: nat)
    requires s.Live? && s.ctl.Scalars? && Tallied(p, s)
    ensures Tallied(p, OnScalar(CollectorEnv(W, strict, p), s, w))
  {
    hide ScalarBytes, StoreAll, Tallied;
    var c := s.ctl;
    if c.to.At? { StoresTally(W, strict, p, s.user, c.to.dst, c.to.pos, ScalarBytes(c.num, c.width, w).0); }
    SameTallied(p, s, OnScalar(CollectorEnv(W, strict, p), s, w));
  }

  lemma {:induction false} CountTallies(W: WordSize, strict: bool, p: C.Declared, s: State<Bin, nat, ()>, n: nat)
    requires s.Live? && s.scopes != [] && s.ctl.ArrayCount? && Tallied(p, s)
    ensures Tallied(p, OnArrayCount(CollectorEnv(W, strict, p), s, n))
  {
    hide Consult, StoreAll, Tallied;
    var env, c := CollectorEnv(W, strict, p), Call(s.ctl.id, 0, n, s.ctl.ty);
    ConsultTallies(W, strict, p, s, c);
    var (t, a) := Consult(env, s, c);
    if a.ReadInts? && n <= a.n { StoresTally(W, strict, p, t.user, a.dst, n * a.width, Zeros((a.n - n) * a.width)); }
    var r := OnArrayCount(env, s, n);
    if SameTally(t, r) { SameTallied(p, t, r); } else { SameTallied(p, s, r); }
  }

  lemma {:induction false} ElementWordTallies(W: WordSize, strict: bool, p: C.Declared, s: State<Bin, nat, ()>, w: nat)
    requires s.Live? && s.scopes != [] && s.ctl.FixlenWord? && s.ctl.list && Tallied(p, s)
    ensures Tallied(p, OnElementWord(CollectorEnv(W, strict, p), s, w))
  {
    hide Consult, StoreAll, Tallied;
    var env, c := CollectorEnv(W, strict, p), Call(s.ctl.id, w / 8, s.ctl.count, ARRAY_FIXLEN + 8 * (w % 8));
    ConsultTallies(W, strict, p, s, c);
    var (t, a) := Consult(env, s, c);
    var n, len := s.ctl.count, w / 8;
    if a.ReadFloats? && n <= a.n { StoresTally(W, strict, p, t.user, a.dst, n * len, Zeros((a.n - n) * len)); }
    var r := OnElementWord(env, s, w);
    if SameTally(t, r) { SameTallied(p, t, r); } else { SameTallied(p, s, r); }
  }

  lemma {:induction false} ScalarWordTallies(W: WordSize, strict: bool, p: C.Declared, s: State<Bin, nat, ()>, w: nat)
    requires s.Live? && s.scopes != [] && s.ctl.FixlenWord? && !s.ctl.list && Tallied(p, s)
    ensures Tallied(p, OnScalarWord(CollectorEnv(W, strict, p), s, w))
  {
    hide Consult, StoreAll, Tallied;
    var env, c := CollectorEnv(W, strict, p), Call(s.ctl.id, w / 8, 0, FIXLEN + 8 * (w % 8));
    ConsultTallies(W, strict, p, s, c);
    var (t, a) := Consult(env, s, c);
    if a.ReadBytes? { StoresTally(W, strict, p, t.user, a.dst, w / 8, [0]); }
    var r := OnScalarWord(env, s, w);
    if SameTally(t, r) { SameTallied(p, t, r); } else { SameTallied(p, s, r); }
  }

  lemma {:induction false} WordTallies(W: WordSize, strict: bool, p: C.Declared, s: State<Bin, nat, ()>, w: nat)
    requires s.Live? && s.scopes != [] && InVarint(s.ctl) && Tallied(p, s)
    ensures Tallied(p, OnVarint(CollectorEnv(W, strict, p), s, w))
  {
    hide OnHeader, OnScalar, OnArrayCount, OnElementWord, OnScalarWord, Tallied;
    match s.ctl
    case Idle => HeaderTallies(W, strict, p, s, w);
    case Scalars(_, _, _, _, _) => ScalarTallies(W, strict, p, s, w);
    case ArrayCount(_, _) => CountTallies(W, strict, p, s, w);
    case FixlenWord(_, list, _) =>
      if list { ElementWordTallies(W, strict, p, s, w); } else { ScalarWordTallies(W, strict, p, s, w); }
  }

  lemma {:induction false} StepTallies(W: WordSize, strict: bool, p: C.Declared, s: State<Bin, nat, ()>, b: byte)
    requires Tallied(p, s)
    ensures Tallied(p, StepByte(CollectorEnv(W, strict, p), s, b))
  {
    hide OnVarint, ValidText, Tallied;
    var env := CollectorEnv(W, strict, p);
    if s.Live? && s.scopes != [] {
      if InVarint(s.ctl) {
        match Step(W, s.acc, b)
        case More(a) => SameTallied(p, s, s.(acc := a));
        case Overflow => SameTallied(p, s, Reject(s));
        case Done(v) =>
          SameTallied(p, s, s.(acc := ZERO));
          WordTallies(W, strict, p, s.(acc := ZERO), v);
      } else {
        SameTallied(p, s, OnPayload(env, s, b));
      }
    }
  }

  lemma {:induction false} RunTallies(W: WordSize, strict: bool, p: C.Declared, s: State<Bin, nat, ()>, bs: seq<byte>)
    requires Tallied(p, s)
    ensures Tallied(p, RunBytes(CollectorEnv(W, strict, p), s, bs))
    decreases |bs|
  {
    hide StepByte, Tallied;
    if bs != [] {
      StepTallies(W, strict, p, s, bs[0]);
      RunTallies(W, strict, p, StepByte(CollectorEnv(W, strict, p), s, bs[0]), bs[1..]);
    }
  }

  lemma {:induction false} FeedsTally(W: WordSize, strict: bool, p: C.Declared, s: State<Bin, nat, ()>, chunks: seq<seq<byte>>)
    requires Tallied(p, s)
    ensures Tallied(p, Feeds(CollectorEnv(W, strict, p), s, chunks))
    decreases |chunks|
  {
    hide RunBytes, Tallied;
    if chunks != [] {
      var t := RunBytes(CollectorEnv(W, strict, p), s, chunks[0]);
      RunTallies(W, strict, p, s, chunks[0]);
      SameTallied(p, t, Seal(t));
      FeedsTally(W, strict, p, Seal(t), chunks[1..]);
    }
  }

  lemma StartTallied(p: C.Declared)
    ensures Tallied(p, Init<Bin, nat, ()>(EMPTY, ()))
  {
  }

  /**
   * The collector decoded: for all bytes in all chunks, the feed answers OK iff the bytes are a message whose string
   * elements are all within the ceilings (and valid where checked), and the container is then the placement of those
   * strings; a refused message is answered with the category of the first element refused, always the same one
   * however the bytes are cut. Whatever the verdict, the container never holds more slots than the highest accepted
   * index needs, nor more than the ceiling on the index (the schema's where there is one, whatever the receiver's
   * cap), and no slot is longer than the ceiling on an element.
   */
  lemma {:induction false} CollectorDecodes(W: WordSize, strict: bool, index: C.Limits, size: C.Limits, chunks: seq<seq<byte>>)
    ensures var p, env := Strings(index, size), CollectorEnv(W, strict, Strings(index, size));
      var s0 := Init<Bin, nat, ()>(EMPTY, ());
      var r, one := Feeds(env, s0, chunks), RunBytes(env, s0, Join(chunks));
      var tree := ParseFields(W, Join(chunks), 0);
      && (Answer(r) == C.Core(Ok) <==> tree.Parsed? && AllWelcome(strict, p, tree.tree))
      && (Answer(r) == C.Core(Ok) ==> r.user.items == C.Collected(p, [], [], Events(tree.tree)))
      && (Answer(r).Refused? <==> C.FirstRefusal(p, Trace(r.calls)).Some?)
      && (Answer(r).Refused? ==> Answer(r).category == C.FirstRefusal(p, Trace(r.calls)).value && VerdictOf(r) == Invalid)
      && Answer(r) == Answer(one)
      && |r.user.items| == C.Extent(p, Trace(r.calls))
      && (index.schema.Some? ==> |r.user.items| <= index.schema.value)
      && (index.schema.None? && index.receiver.Some? ==> |r.user.items| <= index.receiver.value)
      && (index.schema.None? && index.receiver.None? ==> r.user.items == [])
      && forall i :: 0 <= i < |r.user.items| ==> C.Within(|r.user.items[i]|, size)
  {
    hide RunBytes, Feeds, ParseFields, MeanFields, StateOk, AllWelcome, Events, C.Collected, C.LatchedAfter, C.FirstRefusal, C.Extent, Trace,
         Uncondemned;
    var p, env := Strings(index, size), CollectorEnv(W, strict, Strings(index, size));
    var s0 := Init<Bin, nat, ()>(EMPTY, ());
    StartOk<Bin, nat, ()>(EMPTY, ());
    StartTallied(p);
    FeedsTally(W, strict, p, s0, chunks);
    RunTallies(W, strict, p, s0, Join(chunks));
    ChunksDoNotMatter(env, s0, chunks);
    DecodeIsMeaning(env, EMPTY, (), Join(chunks));
    var r, one := Feeds(env, s0, chunks), RunBytes(env, s0, Join(chunks));
    C.FirstWins(p, None, Trace(r.calls));
    C.NeverPastTheCeiling(p, [], [], Trace(r.calls));
    var tree := ParseFields(W, Join(chunks), 0);
    if tree.Parsed? { FieldsCollect(W, strict, index, size, Effect(EMPTY, []), tree.tree); }
  }
}

/**
 * The wrapper-array collectors of the C++ layer: inline storage, the refusal latch, and the placement of
 * elements at their index with gaps filled and bounds tested before anything grows.
 */
module Collectors {
  import opened Bytes
  import opened Wire
  import opened Decoder
  import opened Utf8

  // ---------------------------------------------------------------- refusals

  /** Which of the three refusals a callback made. */
  datatype Refusal = InvalidMessage | LimitExceeded | InvalidArgument

  /** What a feed answers: a latched refusal, or the verdict of the core. */
  datatype Answer = Core(verdict: Verdict) | Refused(category: Refusal)

  /** The ceilings on a length or index: the schema's, and the receiver's cap for what the schema leaves open. */
  datatype Limits = Limits(schema: Option<nat>, receiver: Option<nat>)

  /** The schema binds first; the cap binds only what the schema does not; neither stated is the caller's mistake. */
  function Breach(n: nat, l: Limits): Option<Refusal>
  {
    match (l.schema, l.receiver)
    case (Some(bound), _) => if n > bound then Some(InvalidMessage) else None
    case (None, Some(cap)) => if n > cap then Some(LimitExceeded) else None
    case (None, None) => Some(InvalidArgument)
  }

  /** The part of the input stream a callback refuses through. */
  class Stream {
    var refusal: Option<Refusal>
    var condemned: bool

    constructor ()
      ensures refusal == None && !condemned
    {
      refusal, condemned := None, false;
    }

    /** The first refusal of a message is the one that is kept. */
    method LatchRefusal(category: Refusal)
      modifies this
      ensures refusal == (if old(refusal).Some? then old(refusal) else Some(category)) && condemned
    {
      if refusal.None? {
        refusal := Some(category);
      }
      condemned := true;
    }

    method RefuseSchema(n: nat, bound: nat) returns (refused: bool)
      modifies this
      ensures refused == (n > bound)
      ensures refusal == (if refused && old(refusal).None? then Some(InvalidMessage) else old(refusal))
      ensures condemned == (refused || old(condemned))
    {
      refused := n > bound;
      if refused { LatchRefusal(InvalidMessage); }
    }

    method RefuseCap(n: nat, cap: nat) returns (refused: bool)
      modifies this
      ensures refused == (n > cap)
      ensures refusal == (if refused && old(refusal).None? then Some(LimitExceeded) else old(refusal))
      ensures condemned == (refused || old(condemned))
    {
      refused := n > cap;
      if refused { LatchRefusal(LimitExceeded); }
    }

    /** A schema bound decides alone, whatever the receiver's cap; without one the cap decides; without either the call is at fault. */
    method RefuseBound(n: nat, l: Limits) returns (refused: bool)
      modifies this
      ensures l.schema.Some? ==>
        refused == (n > l.schema.value) && refusal == (if refused && old(refusal).None? then Some(InvalidMessage) else old(refusal))
      ensures l.schema.None? && l.receiver.Some? ==>
        refused == (n > l.receiver.value) && refusal == (if refused && old(refusal).None? then Some(LimitExceeded) else old(refusal))
      ensures l.schema.None? && l.receiver.None? ==>
        refused && refusal == (if old(refusal).None? then Some(InvalidArgument) else old(refusal))
      ensures refused == Breach(n, l).Some?
      ensures refusal == (if old(refusal).Some? then old(refusal) else Breach(n, l))
      ensures condemned == (refused || old(condemned))
    {
      if l.schema.Some? {
        refused := RefuseSchema(n, l.schema.value);
      } else if l.receiver.None? {
        LatchRefusal(InvalidArgument);
        refused := true;
      } else {
        refused := RefuseCap(n, l.receiver.value);
      }
    }

    /** A feed reports the latched category whatever the core decided, now and in every later feed. */
    method Feed(core: Verdict) returns (answer: Answer)
      ensures answer == if refusal.Some? then Refused(refusal.value) else Core(core)
    {
      answer := Core(core);
      if refusal.Some? {
        answer := Refused(refusal.value);
      }
    }
  }

  // ---------------------------------------------------------------- inline storage

  /** n copies of the default element. */
  function Defaults<T>(n: nat, default: T): (r: seq<T>)
    ensures |r| == n && forall i :: 0 <= i < n ==> r[i] == default
  {
    seq(n, _ => default)
  }

  /** InlineVector: storage for a fixed number of elements, and a length. */
  class InlineVector<T> {
    const buf: array<T>
    const default: T
    var len: nat

    ghost predicate Valid()
      reads this
    {
      len <= buf.Length
    }

    ghost function Items(): seq<T>
      requires Valid()
      reads this, buf
    {
      buf[..len]
    }

    constructor (capacity: nat, default: T)
      ensures Valid() && fresh(buf) && buf.Length == capacity && this.default == default && Items() == []
    {
      buf := new T[capacity](_ => default);
      this.default := default;
      len := 0;
    }

    /** What enters or leaves the logical range is set to the default, so nothing stale shows after a later grow. */
    method Resize(n: nat)
      requires Valid()
      modifies this, buf
      ensures Valid() && len == Min(n, buf.Length)
      ensures Items() == old(Items())[..Min(len, old(len))] + Defaults(if len > old(len) then len - old(len) else 0, default)
      ensures forall i :: len <= i < old(len) ==> buf[i] == default
      ensures forall i :: Max(len, old(len)) <= i < buf.Length ==> buf[i] == old(buf[i])
    {
      var m := Min(n, buf.Length);
      var i := m;
      while i < len
        modifies buf
        invariant forall j :: m <= j < i && j < len ==> buf[j] == default
        invariant forall j :: 0 <= j < buf.Length && !(m <= j < len) ==> buf[j] == old(buf[j])
      {
        buf[i] := default;
        i := i + 1;
      }
      i := len;
      while i < m
        modifies buf
        invariant forall j :: len <= j < i && j < m ==> buf[j] == default
        invariant forall j :: m <= j < len ==> buf[j] == default
        invariant forall j :: 0 <= j < Min(m, len) ==> buf[j] == old(buf[j])
        invariant forall j :: Max(m, len) <= j < buf.Length ==> buf[j] == old(buf[j])
      {
        buf[i] := default;
        i := i + 1;
      }
      len := m;
      assert Items() == old(Items())[..Min(len, old(len))] + Defaults(if len > old(len) then len - old(len) else 0, default);
    }

    /** The decode-side binder: once full, the last slot is reused and the length stays. */
    method EmplaceBack()
      requires Valid() && buf.Length > 0
      modifies this, buf
      ensures Valid()
      ensures Items() == if old(len) < buf.Length then old(Items()) + [default] else old(Items())[buf.Length - 1 := default]
    {
      var i := len;
      if len < buf.Length { len := len + 1; } else { i := buf.Length - 1; }
      buf[i] := default;
    }

    /** The assignment-side append: once full, the value is dropped. */
    method PushBack(v: T)
      requires Valid()
      modifies this, buf
      ensures Valid()
      ensures Items() == if old(len) < buf.Length then old(Items()) + [v] else old(Items())
    {
      if len < buf.Length {
        buf[len] := v;
        len := len + 1;
      }
    }
  }

  // ---------------------------------------------------------------- placement

  /** An element arriving in a wrapper: its id, its wire type and subtype, its payload size, and what reading it does to its slot. */
  datatype Event<!T> = Event(id: nat, wire: nat, fix: nat, size: nat, fill: T -> T)

  /** What a collector declares: the element's type and subtype (None when untested), the ceiling on the array, and one on an element's size. */
  datatype Declared = Declared(wire: Option<nat>, fix: Option<nat>, index: Limits, size: Option<Limits>)

  predicate Typed<T>(p: Declared, e: Event<T>)
  {
    (p.wire.Some? ==> e.wire == p.wire.value) && (p.fix.Some? ==> e.fix == p.fix.value)
  }

  /** Why an element of the declared type is refused: its index, before its size. */
  function Objection<T>(p: Declared, e: Event<T>): Option<Refusal>
  {
    if Breach(e.id + 1, p.index).Some? then Breach(e.id + 1, p.index)
    else if p.size.Some? then Breach(e.size, p.size.value)
    else None
  }

  predicate Accepted<T>(p: Declared, e: Event<T>)
  {
    Typed(p, e) && Objection(p, e).None?
  }

  function Grown<T>(items: seq<T>, n: nat, default: T): (r: seq<T>)
    ensures |r| == Max(|items|, n)
    ensures forall i :: 0 <= i < |r| ==> r[i] == if i < |items| then items[i] else default
  {
    if n <= |items| then items else items + Defaults(n - |items|, default)
  }

  /** The container after an element: untouched unless it is accepted. */
  function Placed<T>(p: Declared, default: T, items: seq<T>, e: Event<T>): seq<T>
  {
    if !Accepted(p, e) then items
    else
      var g := Grown(items, e.id + 1, default);
      g[e.id := e.fill(g[e.id])]
  }

  /** The collector over a fixed inline vector: FixedMessageSeq. */
  method CollectFixed<T>(wire: Option<nat>, fix: Option<nat>, out: InlineVector<T>, stream: Stream, e: Event<T>)
    requires out.Valid()
    modifies out, out.buf, stream
    ensures out.Valid()
    ensures var p := Declared(wire, fix, Limits(Some(out.buf.Length), None), None);
      && out.Items() == Placed(p, out.default, old(out.Items()), e)
      && stream.refusal == (if Typed(p, e) && old(stream.refusal).None? then Objection(p, e) else old(stream.refusal))
    ensures (wire.Some? && e.wire != wire.value) || (fix.Some? && e.fix != fix.value) ==>
      out.Items() == old(out.Items()) && stream.refusal == old(stream.refusal)
    ensures e.id >= out.buf.Length ==> out.Items() == old(out.Items()) && (stream.refusal == old(stream.refusal) || stream.refusal == Some(InvalidMessage))
  {
    if wire.Some? && e.wire != wire.value {
      return;
    }
    if fix.Some? && e.fix != fix.value {
      return;
    }
    if e.id >= out.buf.Length {
      stream.LatchRefusal(InvalidMessage);
      return;
    }
    ghost var before := out.Items();
    while out.len <= e.id
      modifies out, out.buf
      invariant out.Valid() && out.len <= Max(|before|, e.id + 1)
      invariant out.Items() == Grown(before, out.len, out.default)
      decreases e.id + 1 - out.len
    {
      out.EmplaceBack();
    }
    out.buf[e.id] := e.fill(out.buf[e.id]);
  }

  /** A growable container: MessageSeq, and StringSeq with a ceiling on an element's length. */
  class GrowableVector<T> {
    const default: T
    var items: seq<T>

    constructor (default: T)
      ensures items == [] && this.default == default
    {
      this.default, items := default, [];
    }

    method Collect(p: Declared, stream: Stream, e: Event<T>)
      modifies this, stream
      ensures items == Placed(p, default, old(items), e)
      ensures stream.refusal == (if Typed(p, e) && old(stream.refusal).None? then Objection(p, e) else old(stream.refusal))
      ensures (p.wire.Some? && e.wire != p.wire.value) || (p.fix.Some? && e.fix != p.fix.value) ==>
        items == old(items) && stream.refusal == old(stream.refusal)
      ensures p.index.schema.Some? && e.id >= p.index.schema.value ==>
        items == old(items) && (stream.refusal == old(stream.refusal) || stream.refusal == Some(InvalidMessage))
    {
      if (p.wire.Some? && e.wire != p.wire.value) || (p.fix.Some? && e.fix != p.fix.value) {
        return;
      }
      var refused := stream.RefuseBound(e.id + 1, p.index);
      if refused {
        return;
      }
      if p.size.Some? {
        refused := stream.RefuseBound(e.size, p.size.value);
        if refused {
          return;
        }
      }
      ghost var before := items;
      while |items| <= e.id
        modifies this
        invariant items == Grown(before, |items|, default) && |items| <= Max(|before|, e.id + 1)
      {
        items := items + [default];
      }
      items := items[e.id := e.fill(items[e.id])];
    }
  }

  // ---------------------------------------------------------------- over a whole run

  function Collected<T>(p: Declared, default: T, items: seq<T>, es: seq<Event<T>>): seq<T>
    decreases |es|
  {
    if es == [] then items else Collected(p, default, Placed(p, default, items, es[0]), es[1..])
  }

  /** The category kept after a run: that of the first element of the declared type that is refused. */
  function FirstRefusal<T>(p: Declared, es: seq<Event<T>>): Option<Refusal>
  {
    if es == [] then None
    else if Typed(p, es[0]) && Objection(p, es[0]).Some? then Objection(p, es[0])
    else FirstRefusal(p, es[1..])
  }

  /** The highest accepted id plus one; 0 when none is accepted. */
  function Extent<T>(p: Declared, es: seq<Event<T>>): nat
  {
    if es == [] then 0 else Max(if Accepted(p, es[0]) then es[0].id + 1 else 0, Extent(p, es[1..]))
  }

  /** n stays within the schema's bound where there is one, else within the receiver's cap where there is one. */
  predicate Within(n: nat, l: Limits)
  {
    (l.schema.Some? ==> n <= l.schema.value) && (l.schema.None? && l.receiver.Some? ==> n <= l.receiver.value)
  }

  /** A limit is breached iff none is stated or the one that binds is exceeded; and the category names the one at fault. */
  lemma BreachIsExact(n: nat, l: Limits)
    ensures Breach(n, l).None? <==> Within(n, l) && (l.schema.Some? || l.receiver.Some?)
    ensures Breach(n, l) == Some(InvalidMessage) <==> l.schema.Some? && n > l.schema.value
    ensures Breach(n, l) == Some(LimitExceeded) <==> l.schema.None? && l.receiver.Some? && n > l.receiver.value
  {
  }

  /** Which of an element's two ceilings is reported: the array's when its index breaks that, the element's own after. */
  lemma ObjectionIsExact<T>(p: Declared, e: Event<T>)
    ensures Objection(p, e).None? <==>
      && Within(e.id + 1, p.index) && (p.index.schema.Some? || p.index.receiver.Some?)
      && (p.size.Some? ==> Within(e.size, p.size.value) && (p.size.value.schema.Some? || p.size.value.receiver.Some?))
    ensures p.index.schema.Some? && e.id >= p.index.schema.value ==> Objection(p, e) == Some(InvalidMessage)
    ensures p.index.schema.None? && p.index.receiver.Some? && e.id >= p.index.receiver.value ==> Objection(p, e) == Some(LimitExceeded)
  {
    BreachIsExact(e.id + 1, p.index);
    if p.size.Some? { BreachIsExact(e.size, p.size.value); }
  }

  /** No run grows a container past the ceiling that binds its index; with no ceiling at all nothing is ever placed. */
  lemma {:induction false} NeverPastTheCeiling<T>(p: Declared, default: T, items: seq<T>, es: seq<Event<T>>)
    ensures Within(Extent(p, es), p.index)
    ensures p.index.schema.None? && p.index.receiver.None? ==> Extent(p, es) == 0
    ensures Within(|items|, p.index) ==> Within(|Collected(p, default, items, es)|, p.index)
    decreases |es|
  {
    hide Placed, Accepted;
    if es != [] {
      NeverPastTheCeiling(p, default, Placed(p, default, items, es[0]), es[1..]);
      PlacedWithin(p, default, items, es[0]);
    }
  }

  lemma PlacedWithin<T>(p: Declared, default: T, items: seq<T>, e: Event<T>)
    ensures Accepted(p, e) ==> Within(e.id + 1, p.index) && (p.index.schema.Some? || p.index.receiver.Some?)
    ensures Within(|items|, p.index) ==> Within(|Placed(p, default, items, e)|, p.index)
  {
    ObjectionIsExact(p, e);
  }

  /** What reading all accepted elements of id i in turn makes of a slot. */
  function Filled<T>(p: Declared, x: T, i: nat, es: seq<Event<T>>): T
    decreases |es|
  {
    if es == [] then x
    else Filled(p, if Accepted(p, es[0]) && es[0].id == i then es[0].fill(x) else x, i, es[1..])
  }

  /** No accepted element of the run names slot i. */
  predicate Unnamed<T>(p: Declared, i: nat, es: seq<Event<T>>)
  {
    forall k :: 0 <= k < |es| && es[k].id == i ==> !Accepted(p, es[k])
  }

  lemma {:induction false} UnnamedIsUntouched<T>(p: Declared, x: T, i: nat, es: seq<Event<T>>)
    requires Unnamed(p, i, es)
    ensures Filled(p, x, i, es) == x
    decreases |es|
  {
    hide Accepted;
    if es != [] {
      assert forall k :: 0 <= k < |es[1..]| ==> es[1..][k] == es[k + 1];
      UnnamedIsUntouched(p, x, i, es[1..]);
    }
  }

  lemma {:induction false} SlotsAreFilled<T>(p: Declared, default: T, items: seq<T>, es: seq<Event<T>>)
    ensures var r := Collected(p, default, items, es);
      && |r| == Max(|items|, Extent(p, es))
      && forall i :: 0 <= i < |r| ==> r[i] == Filled(p, if i < |items| then items[i] else default, i, es)
    decreases |es|
  {
    hide Accepted;
    if es != [] {
      var e := es[0];
      var items1 := Placed(p, default, items, e);
      SlotsAreFilled(p, default, items1, es[1..]);
      var r := Collected(p, default, items1, es[1..]);
      forall i | 0 <= i < |r|
        ensures r[i] == Filled(p, if i < |items| then items[i] else default, i, es)
      {
        var x := if i < |items| then items[i] else default;
        assert (if i < |items1| then items1[i] else default) == if Accepted(p, e) && e.id == i then e.fill(x) else x;
      }
    }
  }

  /**
   * Placement over any run of elements: the size is the highest accepted id plus one (or what it was, if larger),
   * each slot holds what its own accepted elements made of it, and a slot none of them names is as it was, the
   * default in a gap.
   */
  lemma {:induction false} PlacementIsByIndex<T>(p: Declared, default: T, items: seq<T>, es: seq<Event<T>>)
    ensures var r := Collected(p, default, items, es);
      && |r| == Max(|items|, Extent(p, es))
      && (forall i :: 0 <= i < |r| ==> r[i] == Filled(p, if i < |items| then items[i] else default, i, es))
      && (forall i :: 0 <= i < |r| && Unnamed(p, i, es) ==> r[i] == if i < |items| then items[i] else default)
  {
    hide Unnamed, Filled;
    SlotsAreFilled(p, default, items, es);
    var r := Collected(p, default, items, es);
    forall i | 0 <= i < |r| && Unnamed(p, i, es)
      ensures r[i] == if i < |items| then items[i] else default
    {
      UnnamedIsUntouched(p, if i < |items| then items[i] else default, i, es);
    }
  }

  /** The elements a run accepts. */
  function OnlyAccepted<T>(p: Declared, es: seq<Event<T>>): (r: seq<Event<T>>)
    ensures forall i :: 0 <= i < |r| ==> Accepted(p, r[i])
  {
    if es == [] then [] else (if Accepted(p, es[0]) then [es[0]] else []) + OnlyAccepted(p, es[1..])
  }

  /** A mistyped or refused element might as well not have arrived. */
  lemma {:induction false} OthersLeaveNothing<T>(p: Declared, default: T, items: seq<T>, es: seq<Event<T>>)
    ensures Collected(p, default, items, es) == Collected(p, default, items, OnlyAccepted(p, es))
    decreases |es|
  {
    hide Accepted;
    if es != [] {
      OthersLeaveNothing(p, default, Placed(p, default, items, es[0]), es[1..]);
      if Accepted(p, es[0]) {
        assert ([es[0]] + OnlyAccepted(p, es[1..]))[1..] == OnlyAccepted(p, es[1..]);
      } else {
        assert [] + OnlyAccepted(p, es[1..]) == OnlyAccepted(p, es[1..]);
      }
    }
  }

  /** The latch after one more element, as both collectors leave it. */
  function Latched<T>(p: Declared, kept: Option<Refusal>, e: Event<T>): Option<Refusal>
  {
    if Typed(p, e) && kept.None? then Objection(p, e) else kept
  }

  function LatchedAfter<T>(p: Declared, kept: Option<Refusal>, es: seq<Event<T>>): Option<Refusal>
    decreases |es|
  {
    if es == [] then kept else LatchedAfter(p, Latched(p, kept, es[0]), es[1..])
  }

  lemma {:induction false} LatchedFirst<T>(p: Declared, kept: Option<Refusal>, es: seq<Event<T>>)
    ensures LatchedAfter(p, kept, es) == if kept.Some? then kept else FirstRefusal(p, es)
    decreases |es|
  {
    hide Objection;
    if es != [] {
      LatchedFirst(p, Latched(p, kept, es[0]), es[1..]);
    }
  }

  lemma {:induction false} NothingRefused<T>(p: Declared, es: seq<Event<T>>)
    ensures FirstRefusal(p, es).None? <==> forall k :: 0 <= k < |es| && Typed(p, es[k]) ==> Accepted(p, es[k])
    decreases |es|
  {
    if es != [] {
      NothingRefused(p, es[1..]);
      assert forall k :: 0 <= k < |es[1..]| ==> es[1..][k] == es[k + 1];
      assert forall k :: 0 < k < |es| ==> es[k] == es[1..][k - 1];
    }
  }

  /**
   * First refusal wins: whatever arrives after it, in this feed or a later one, the category kept is the first; and
   * none is kept iff every element of the declared type was accepted.
   */
  lemma {:induction false} FirstWins<T>(p: Declared, kept: Option<Refusal>, es: seq<Event<T>>)
    ensures LatchedAfter(p, kept, es) == if kept.Some? then kept else FirstRefusal(p, es)
    ensures kept.None? ==>
      (LatchedAfter(p, kept, es).None? <==> forall k :: 0 <= k < |es| && Typed(p, es[k]) ==> Accepted(p, es[k]))
  {
    hide LatchedAfter, FirstRefusal;
    LatchedFirst(p, kept, es);
    NothingRefused(p, es);
  }

  // ---------------------------------------------------------------- strings in place

  /** FixedString: up to a fixed number of bytes, with a terminator behind them. */
  class FixedString {
    const buf: array<byte>
    var len: nat

    ghost predicate Valid()
      reads this, buf
    {
      len < buf.Length && buf[len] == 0
    }

    ghost function Text(): seq<byte>
      requires Valid()
      reads this, buf
    {
      buf[..len]
    }

    constructor (capacity: nat)
      ensures Valid() && fresh(buf) && buf.Length == capacity + 1 && Text() == []
    {
      buf := new byte[capacity + 1](_ => 0);
      len := 0;
    }

    /** A text that fits is kept; a longer one is cut back to the start of the character that would not fit whole. */
    method Assign(sv: seq<byte>)
      requires Valid()
      modifies this, buf
      ensures Valid() && Text() <= sv
      ensures |sv| < buf.Length ==> Text() == sv
      ensures ValidText(sv) ==>
        && ValidText(Text())
        && (forall j :: len < j < buf.Length && j <= |sv| ==> !ValidText(sv[..j]))
        && (|sv| >= buf.Length ==> buf.Length - 1 - len <= 3)
    {
      hide ValidText;
      var n := |sv|;
      if |sv| >= buf.Length {
        n := ClampPrefix(sv, buf.Length - 1);
      }
      len := n;
      var i := 0;
      while i < n
        invariant i <= n < buf.Length && n == len
        invariant buf[..i] == sv[..i]
      {
        buf[i] := sv[i];
        i := i + 1;
      }
      buf[n] := 0;
      assert buf[..n] == sv[..n];
      assert |sv| < buf.Length ==> sv[..n] == sv;
    }

    /** The decode hook: the length is fixed and the terminator placed before the bytes are read in. */
    method SetLen(n: nat)
      requires Valid()
      modifies this, buf
      ensures Valid() && len == Min(n, buf.Length - 1)
      ensures forall i :: 0 <= i < buf.Length && i != len ==> buf[i] == old(buf[i])
    {
      len := if n > buf.Length - 1 then buf.Length - 1 else n;
      buf[len] := 0;
    }
  }
}

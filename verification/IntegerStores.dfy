/**
 * Which integers a bound destination takes, and what its memory then reads as: stated by ranges and by reading the
 * bytes back, over single members and arrays, down to a whole message.
 */
module IntegerStores {
  import opened Bytes
  import opened Varint
  import opened Wire
  import opened Decoder
  import opened Meaning
  import opened DecoderTheorems
  import opened SkipTheorems

  lemma {:induction false} PackedIsExact(num: Num, w: Width, words: seq<nat>, i: nat)
    requires i < |words| && forall j :: 0 <= j < |words| ==> Representable(num, w, words[j])
    ensures i * w + w <= |Packed(num, w, words)|
    ensures Holds(num, w, Packed(num, w, words)[i * w..i * w + w], words[i])
    decreases i
  {
    hide ScalarBytes, Representable, Holds;
    var one, rest := ScalarBytes(num, w, words[0]).0, Packed(num, w, words[1..]);
    assert Packed(num, w, words) == one + rest;
    hide Packed;
    ElementRange(i, |words|, w);
    if i == 0 {
      ScalarIsExact(num, w, words[0]);
      assert (one + rest)[0..w] == one;
    } else {
      assert forall j :: 0 <= j < |words[1..]| ==> words[1..][j] == words[j + 1];
      PackedIsExact(num, w, words[1..], i - 1);
      MiddleSlice(one, rest, [], (i - 1) * w, w);
      assert one + rest + [] == one + rest;
    }
  }

  /** Element i of n lies within them, one element behind its predecessor. */
  lemma ElementRange(i: nat, n: nat, w: nat)
    requires i < n
    ensures i * w + w <= n * w && (i > 0 ==> i * w == w + (i - 1) * w)
  {
    MulLess(i + 1, n, w);
  }

  lemma MiddleSlice(front: seq<byte>, image: seq<byte>, back: seq<byte>, x: nat, w: nat)
    requires x + w <= |image|
    ensures (front + image + back)[|front| + x..|front| + x + w] == image[x..x + w]
  {
  }

  // ---------------------------------------------------------------- destinations

  /** The integer words of a value. */
  function WordsOf(v: Value): seq<nat>
    requires v.Int? || v.Ints?
  {
    if v.Int? then [v.word] else v.words
  }

  /** The elements an integer read has room for. */
  function Room<D, S>(a: Action<D, S>): nat
    requires a.ReadInt? || a.ReadInts?
  {
    if a.ReadInt? then 1 else a.n
  }

  /** The bytes of element i of a destination. */
  function Slot<S>(mem: seq<byte>, a: Action<nat, S>, i: nat): seq<byte>
    requires (a.ReadInt? || a.ReadInts?) && i < Room(a) && a.dst + Extent(a) <= |mem|
  {
    MulLess(i + 1, Room(a), a.width);
    mem[a.dst + i * a.width..a.dst + i * a.width + a.width]
  }

  /** An integer value is taken iff there are no more elements than room and each is in its range. */
  lemma {:induction false} IntegersTaken<D, S>(strict: bool, a: Action<D, S>, v: Value)
    requires (a.ReadInt? && v.Int?) || (a.ReadInts? && v.Ints?)
    ensures Render(strict, a, v).Some?
      <==> |WordsOf(v)| <= Room(a) && forall i :: 0 <= i < |WordsOf(v)| ==> Representable(a.num, a.width, WordsOf(v)[i])
  {
    hide ScalarBytes, Representable, Packed, AllFit, Holds;
    if v.Int? {
      assert WordsOf(v)[0] == v.word;
      ScalarIsExact(a.num, a.width, v.word);
    } else {
      AllInRange(a.num, a.width, v.words);
    }
  }

  /** Packed elements with zeros behind them, element by element. */
  lemma {:induction false} ElementsLie(num: Num, w: Width, ws: seq<nat>, n: nat, fill: nat, image: seq<byte>, i: nat)
    requires i < n && |ws| <= n && forall j :: 0 <= j < |ws| ==> Representable(num, w, ws[j])
    requires image == Packed(num, w, ws) + Zeros(fill) && |image| == n * w
    ensures i * w + w <= |image|
    ensures if i < |ws| then Holds(num, w, image[i * w..i * w + w], ws[i]) else AllZeros(image[i * w..i * w + w])
  {
    var p := Packed(num, w, ws);
    hide Representable, Holds, Packed;
    ElementRange(i, n, w);
    if i < |ws| {
      PackedIsExact(num, w, ws, i);
      MiddleSlice([], p, Zeros(fill), i * w, w);
      assert [] + p + Zeros(fill) == image;
    } else {
      MulLess(|ws|, i, w);
      MiddleSlice(p, Zeros(fill), [], i * w - |p|, w);
      assert p + Zeros(fill) + [] == image;
    }
  }

  /** The same where the elements lie in memory. */
  lemma {:induction false} IntegersLie<S>(
    m: seq<byte>, a: Action<nat, S>, v: Value, front: seq<byte>, image: seq<byte>, back: seq<byte>, fill: nat, i: nat)
    requires (a.ReadInt? && v.Int?) || (a.ReadInts? && v.Ints?)
    requires i < Room(a) && |WordsOf(v)| <= Room(a) && forall j :: 0 <= j < |WordsOf(v)| ==> Representable(a.num, a.width, WordsOf(v)[j])
    requires image == Packed(a.num, a.width, WordsOf(v)) + Zeros(fill)
    requires m == front + image + back && |front| == a.dst && |image| == Extent(a) == Room(a) * a.width
    ensures if i < |WordsOf(v)| then Holds(a.num, a.width, Slot(m, a, i), WordsOf(v)[i]) else AllZeros(Slot(m, a, i))
  {
    hide Representable, Holds, Packed, AllZeros, WordsOf, Room, Extent;
    var ws, w := WordsOf(v), a.width;
    ElementsLie(a.num, w, ws, Room(a), fill, image, i);
    MiddleSlice(front, image, back, i * w, w);
  }

  predicate AllZeros(bs: seq<byte>)
  {
    forall i :: 0 <= i < |bs| ==> bs[i] == 0
  }

  /**
   * An integer destination in flat memory: it takes a value iff every element is in the range of its width (a boolean
   * takes anything), and then element by element reads as the number sent, with zeros in the elements behind and no
   * byte outside it changed.
   */
  lemma {:induction false} IntegersLandExactly<S>(env: Env<seq<byte>, nat, S>, mem: seq<byte>, a: Action<nat, S>, v: Value)
    requires env.store == Poke && ((a.ReadInt? && v.Int?) || (a.ReadInts? && v.Ints?))
    requires a.dst + Extent(a) <= |mem|
    ensures var ws, r := WordsOf(v), Render(env.strict, a, v);
      && (r.Some? <==> |ws| <= Room(a) && forall i :: 0 <= i < |ws| ==> Representable(a.num, a.width, ws[i]))
      && (r.Some? ==>
            var m := StoreWrites(env, mem, a.dst, r.value);
            && |m| == |mem|
            && (forall i :: 0 <= i < |ws| ==> Holds(a.num, a.width, Slot(m, a, i), ws[i]))
            && (forall i :: |ws| <= i < Room(a) ==> AllZeros(Slot(m, a, i)))
            && (forall j :: 0 <= j < |mem| && !(a.dst <= j < a.dst + Extent(a)) ==> m[j] == mem[j]))
  {
    hide StoreAll, StoreWrites, ScalarBytes, Packed, Representable, Holds, AllZeros, Slot;
    IntegersTaken(env.strict, a, v);
    var ws := WordsOf(v);
    if Render(env.strict, a, v).Some? {
      var prior := mem[a.dst..a.dst + Extent(a)];
      var image := Filled(a, v, prior);
      if a.ReadInt? {
        ScalarIsFilled(env, mem, a, v);
        OnePacked(a.num, a.width, v.word);
      } else {
        IntsAreFilled(env, mem, a, v);
        WholeWords(a.n, |ws|, a.width);
      }
      var m := StoreWrites(env, mem, a.dst, Render(env.strict, a, v).value);
      assert m == mem[..a.dst] + image + mem[a.dst + Extent(a)..];
      forall i | 0 <= i < Room(a)
        ensures if i < |ws| then Holds(a.num, a.width, Slot(m, a, i), ws[i]) else AllZeros(Slot(m, a, i))
      {
        IntegersLie(m, a, v, mem[..a.dst], image, mem[a.dst + Extent(a)..], Extent(a) - |ws| * a.width, i);
      }
    }
  }

  lemma {:induction false} OnePacked(num: Num, w: Width, x: nat)
    ensures Packed(num, w, [x]) + Zeros(w - w) == ScalarBytes(num, w, x).0
  {
    hide ScalarBytes;
    assert Packed(num, w, [x]) == ScalarBytes(num, w, x).0 + [];
  }

  // ---------------------------------------------------------------- one word at a time

  /** What a w-byte destination keeps of a word, in range or not: its value modulo what w bytes can tell apart. */
  function KeptOf(num: Num, w: Width, x: nat): int
  {
    match num
    case Boolean => if x != 0 then 1 else 0
    case Unsigned => x % Pow2(8 * w)
    case Signed => UnZigZag(x) % Pow2(8 * w)
  }

  lemma {:induction false} LowBytesKeep(v: nat, w: nat)
    ensures Word(LowBytes(v, w)) == v % Span(w)
  {
    if w > 0 {
      LowBytesKeep(v / 256, w - 1);
      assert LowBytes(v, w)[1..] == LowBytes(v / 256, w - 1);
      ModSplit(v, Span(w - 1));
    }
  }

  lemma ModSplit(v: nat, s: nat)
    requires s > 0
    ensures v % (256 * s) == 256 * (v / 256 % s) + v % 256
  {
    var u := v / 256;
    var q, r := u / s, u % s;
    assert u == s * q + r;
    Grouped(v, s, q, r);
    RemainderIs(v, 256 * s, q, 256 * r + v % 256);
  }

  lemma Grouped(v: nat, s: nat, q: nat, r: nat)
    requires v / 256 == s * q + r
    ensures v == (256 * s) * q + (256 * r + v % 256)
  {
    assert v == 256 * (s * q + r) + v % 256;
    assert 256 * (s * q) == (256 * s) * q;
  }

  lemma RemainderIs(v: nat, m: nat, q: nat, r: nat)
    requires m > 0 && v == m * q + r && r < m
    ensures v % m == r
  {
    QuotientIs(v, m, q, r);
  }

  /**
   * An integer word is stored first and judged after: in flat memory the element it is bound to holds the word's
   * value modulo the width whether or not the word is then refused, and no other byte changes; it is refused iff it
   * is out of range.
   */
  lemma {:induction false} StoredThenJudged<S>(env: Env<seq<byte>, nat, S>, s: State<seq<byte>, nat, S>, x: nat)
    requires env.store == Poke && s.Live? && s.ctl.Scalars? && s.ctl.to.At?
    requires s.ctl.to.dst + s.ctl.to.pos + s.ctl.width <= |s.user|
    ensures var c, t := s.ctl, OnScalar(env, s, x);
      var at := c.to.dst + c.to.pos;
      && |t.user| == |s.user| && Word(t.user[at..at + c.width]) == KeptOf(c.num, c.width, x)
      && (forall j :: 0 <= j < |s.user| && !(at <= j < at + c.width) ==> t.user[j] == s.user[j])
      && (t.Dead? <==> !Representable(c.num, c.width, x))
  {
    var c := s.ctl;
    var w := c.width;
    var bytes := ScalarBytes(c.num, w, x).0;
    ScalarIsExact(c.num, w, x);
    hide StoreAll, LowBytes, Word, Span, Pow2, Representable, ScalarBytes, KeptOf;
    StoreInPlace(env, s.user, c.to.dst, c.to.pos, bytes);
    ScalarKeeps(c.num, w, x);
    var at := c.to.dst + c.to.pos;
    MiddleSlice(s.user[..at], bytes, s.user[at + w..], 0, w);
    assert bytes[0..w] == bytes;
  }

  lemma {:induction false} ScalarKeeps(num: Num, w: Width, x: nat)
    ensures Word(ScalarBytes(num, w, x).0) == KeptOf(num, w, x)
  {
    SpanIsPow2(w);
    OneFits(w);
    hide LowBytes, Word, Span, Pow2;
    match num
    case Boolean => WordOfLowBytes(if x != 0 then 1 else 0, w);
    case Unsigned => LowBytesKeep(x, w);
    case Signed => WordOfLowBytes(LowWord(UnZigZag(x), w), w);
  }

  // ---------------------------------------------------------------- a whole message

  /**
   * A message of one integer whose member the callback binds, in any chunks: answered OK iff the word is in the range
   * of the member's width, INVALID otherwise.
   */
  lemma {:induction false} WideIntegersAreRefused<U(!new), D, S(!new)>(
    env: Env<U, D, S>, u: U, sc: S, id: nat, sg: bool, x: nat, chunks: seq<seq<byte>>)
    requires IdOk(env.W, id) && x < Pow2(env.W) && Join(chunks) == SerFields([Leaf(id, Int(sg, x))])
    requires var r := env.call(u, sc, Call(id, 0, 0, if sg then SIGNED else UNSIGNED));
      !r.condemn && r.act.ReadInt? && r.act.num.Signed? == sg
    ensures var a := env.call(u, sc, Call(id, 0, 0, if sg then SIGNED else UNSIGNED)).act;
      VerdictOf(Feeds(env, Init(u, sc), chunks)) == if Representable(a.num, a.width, x) then Ok else Invalid
  {
    hide Feeds, RunBytes, ParseFields, SerField, StateOk, Representable, ScalarBytes, StoreWrites, Pow2, Uncondemned;
    var f := Leaf(id, Int(sg, x));
    var a := env.call(u, sc, Call(id, 0, 0, if sg then SIGNED else UNSIGNED)).act;
    assert FieldsOk(env.W, [f], 0) by { assert [f][1..] == []; assert FieldOk(env.W, f, 0); }
    MessageRoundTrip(env.W, [f]);
    StartOk<U, D, S>(u, sc);
    ChunksDoNotMatter(env, Init(u, sc), chunks);
    DecodeIsMeaning(env, u, sc, Join(chunks));
    ScalarIsExact(a.num, a.width, x);
    assert [f][1..] == [];
  }
}

/** Decoding what was encoded gives back the object: member by member, then over the descriptor tree. */
module ObjectRoundTrip {
  import opened Bytes
  import opened Varint
  import opened Wire
  import opened Utf8
  import opened Decoder
  import opened Meaning
  import opened Object
  import opened ObjectDecode

  // ---------------------------------------------------------------- well-formed descriptors

  /** A companion length can count to the capacity. */
  predicate LenOk(cap: nat, len: nat)
  {
    len == 0 || cap < Span(len)
  }

  ghost predicate KindOk(W: WordSize, strict: bool, k: Kind)
    decreases k
  {
    match k
    case KInt(_, w) => 8 * w <= W
    case KFloat(_) => true
    case KText(size) => 1 <= size <= FIXLEN_MAX && 8 * size + STRING < Pow2(W)
    case KBlob(cap, len) => cap <= FIXLEN_MAX && 8 * cap + BLOB < Pow2(W) && LenOk(cap, len)
    case KInts(_, w, cap, len) => 8 * w <= W && cap <= ARRAY_MAX && cap < Pow2(W) && LenOk(cap, len)
    case KFloats(_, cap, len) => cap <= ARRAY_MAX && cap < Pow2(W) && LenOk(cap, len)
    case KNested(d) => DescrOk(W, strict, d)
  }

  /** Which fields' image cells are ever read. */
  predicate UsesImage(d: Descr, i: nat)
    requires i < |d.fields|
  {
    !d.form.Union? || d.fields[i].id == DefaultTag(d)
  }

  ghost predicate DescrOk(W: WordSize, strict: bool, d: Descr)
    decreases d
  {
    && (forall i :: 0 <= i < |d.fields| ==> IdOk(W, d.fields[i].id) && KindOk(W, strict, d.fields[i].kind))
    && UniqueIds(d)
    && (forall i :: 0 <= i < |d.fields| && UsesImage(d, i) && !d.fields[i].kind.KNested? && FieldDefault(d, i).Some? ==>
          DefaultOk(strict, d.fields[i].kind, FieldDefault(d, i).value))
    && (d.form.Holder? ==>
          && d.image.None? && LenOk(|d.fields|, d.form.len)
          && forall i :: 0 <= i < |d.fields| ==> d.fields[i].id == i && ExpectedOf(d.fields[i].kind) == ExpectedOf(d.fields[0].kind))
    && (d.form.Union? ==>
          forall i :: 0 <= i < |d.fields| ==> !(d.fields[i].kind.KBlob? && LenWidth(d.fields[i].kind) == 0))
  }

  /** A declared default is a value the encoder accepts, its companion length within the capacity. */
  ghost predicate DefaultOk(strict: bool, k: Kind, default: Obj)
  {
    SaneCell(strict, k, default) && (LenWidth(k) != 0 ==> default.used <= Capacity(k))
  }

  ghost predicate UniqueIds(d: Descr)
  {
    forall i, j :: 0 <= i < j < |d.fields| ==> d.fields[i].id != d.fields[j].id
  }

  /** Levels of nesting below an object: the handles decoding it needs. */
  function Levels(d: Descr): nat
    decreases d, 1, 0
  {
    LevelsFrom(d, 0)
  }

  function LevelsFrom(d: Descr, i: nat): nat
    decreases d, 0, |d.fields| - i
  {
    if i >= |d.fields| then 0
    else
      var rest := LevelsFrom(d, i + 1);
      match d.fields[i].kind
      case KNested(nd) => Max(1 + Levels(nd), rest)
      case _ => rest
  }

  lemma {:induction false} LevelsBound(d: Descr, i: nat, j: nat)
    requires j <= i < |d.fields| && d.fields[i].kind.KNested?
    ensures 1 + Levels(d.fields[i].kind.descr) <= LevelsFrom(d, j)
    decreases |d.fields| - j
  {
    if j < i { LevelsBound(d, i, j + 1); }
  }

  // ---------------------------------------------------------------- valid objects

  /** Every element of a boolean buffer is 0 or 1. */
  predicate Booleans(w: nat, buf: seq<byte>, n: nat)
    requires n * w <= |buf|
  {
    if n == 0 then true
    else
      MulLess(1, n, w);
      Word(buf[..w]) <= 1 && Booleans(w, buf[w..], n - 1)
  }

  /** A member the encoder accepts: a text ends inside its member (and is valid when checked), booleans are 0 or 1. */
  ghost predicate SaneCell(strict: bool, k: Kind, o: Obj)
  {
    ShapeField(k, o) && !k.KNested? &&
    match k
    case KText(_) => |CStr(o.buf)| < |o.buf| && (strict ==> ValidText(CStr(o.buf)))
    case KInt(Boolean, _) => Word(o.buf) <= 1
    case KInts(Boolean, w, cap, _) => MulLess(UsedOf(k, o), cap, w); Booleans(w, o.buf, UsedOf(k, o))
    case _ => true
  }

  ghost predicate SaneField(strict: bool, all: bool, k: Kind, o: Obj)
    decreases k
  {
    match k
    case KNested(d) => Sane(strict, all, d, o)
    case _ => SaneCell(strict, k, o)
  }

  /**
   * An object whose value is in order. Beyond its value nothing is asked of a holder's unused slots (unless
   * `all`) or of the options a union does not hold; the tag names an option or is the default one.
   */
  ghost predicate Sane(strict: bool, all: bool, d: Descr, o: Obj)
    decreases d
  {
    Shape(d, o) &&
    match d.form
    case Struct => forall i :: 0 <= i < |d.fields| ==> SaneField(strict, all, d.fields[i].kind, o.kids[i])
    case Holder(_) =>
      forall i :: 0 <= i < (if all then |d.fields| else SeqLen(d, o)) ==> SaneField(strict, all, d.fields[i].kind, o.kids[i])
    case Union =>
      var i := Find(d.fields, o.aux);
      if i < |d.fields| then SaneField(strict, all, d.fields[i].kind, o.kids[i]) else o.aux == DefaultTag(d)
  }

  // ---------------------------------------------------------------- one member

  lemma {:induction false} PokeSplices(used: nat, buf: seq<byte>, pos: nat, bs: seq<byte>)
    requires pos + |bs| <= |buf|
    ensures PokeBytes(Cell(used, buf), pos, bs) == Cell(used, buf[..pos] + bs + buf[pos + |bs|..])
    decreases |bs|
  {
    if bs == [] {
      assert buf[..pos] + [] + buf[pos..] == buf;
    } else {
      var b1 := buf[pos := bs[0]];
      PokeSplices(used, b1, pos + 1, bs[1..]);
      assert b1[..pos + 1] + bs[1..] + b1[pos + |bs|..] == buf[..pos] + bs + buf[pos + |bs|..];
    }
  }

  /** Writing a whole prefix from 0. */
  lemma PokePrefix(used: nat, buf: seq<byte>, bs: seq<byte>)
    requires |bs| <= |buf|
    ensures PokeWrites(Cell(used, buf), [Write(0, bs)]) == Cell(used, bs + buf[|bs|..])
  {
    hide PokeBytes;
    PokeSplices(used, buf, 0, bs);
    var o := PokeBytes(Cell(used, buf), 0, bs);
    assert [Write(0, bs)][1..] == [];
    assert PokeWrites(o, []) == o;
    assert buf[..0] + bs + buf[|bs|..] == bs + buf[|bs|..];
  }

  /** A tail, then the prefix before it. */
  lemma PokeTwo(used: nat, buf: seq<byte>, p: seq<byte>, q: seq<byte>)
    requires |p| + |q| <= |buf|
    ensures PokeWrites(Cell(used, buf), [Write(|p|, q), Write(0, p)]) == Cell(used, p + q + buf[|p| + |q|..])
  {
    hide PokeBytes;
    PokeSplices(used, buf, |p|, q);
    var b1 := buf[..|p|] + q + buf[|p| + |q|..];
    assert [Write(|p|, q), Write(0, p)][1..] == [Write(0, p)];
    PokePrefix(used, b1, p);
    assert b1[|p|..] == q + buf[|p| + |q|..];
    assert p + (q + buf[|p| + |q|..]) == p + q + buf[|p| + |q|..];
  }

  /** An integer member survives the wire: its word fits, and storing it back gives its bytes. */
  lemma {:induction false} ScalarSurvives(num: Num, w: Width, bytes: seq<byte>)
    requires |bytes| == w && (num.Boolean? ==> Word(bytes) <= 1)
    ensures ScalarBytes(num, w, WireWord(num.Signed?, w, bytes)) == (bytes, true)
    ensures WireWord(num.Signed?, w, bytes) < Span(w)
  {
    hide LowBytes, Word, Span, ZigZag, UnZigZag, LowWord, FitsSigned, Varint.Signed;
    WordBound(bytes);
    LowBytesOfWord(bytes);
    if num.Signed? {
      SignedRoundTrip(Word(bytes), w);
    }
  }

  lemma BooleansSplit(w: nat, buf: seq<byte>, n: nat)
    requires 0 < n && n * w <= |buf| && Booleans(w, buf, n)
    ensures w <= n * w && n * w == w + (n - 1) * w
    ensures Word(buf[..w]) <= 1 && Booleans(w, buf[w..], n - 1)
  {
    MulLess(1, n, w);
  }

  lemma SliceSplit(w: nat, buf: seq<byte>, n: nat)
    requires 0 < n && n * w <= |buf|
    ensures w <= n * w && n * w == w + (n - 1) * w && buf[..n * w] == buf[..w] + buf[w..][..(n - 1) * w]
  {
    MulLess(1, n, w);
  }

  lemma {:induction false} PackedCons(num: Num, w: Width, word: nat, words: seq<nat>)
    ensures Packed(num, w, [word] + words) == ScalarBytes(num, w, word).0 + Packed(num, w, words)
  {
    hide ScalarBytes;
    assert ([word] + words)[1..] == words;
  }

  lemma {:induction false} ArraySurvives(num: Num, w: Width, buf: seq<byte>, n: nat)
    requires n * w <= |buf| && (num.Boolean? ==> Booleans(w, buf, n))
    ensures var ws := WireWords(num.Signed?, w, buf, n);
      && Packed(num, w, ws) == buf[..n * w] && AllFit(num, w, ws)
      && forall i :: 0 <= i < n ==> ws[i] < Span(w)
    decreases n
  {
    hide ScalarBytes, WireWord, Booleans, Word, Span, AllFit;
    if n == 0 {
      FitNone(num, w);
    } else {
      hide Packed;
      SliceSplit(w, buf, n);
      if num.Boolean? { BooleansSplit(w, buf, n); }
      ScalarSurvives(num, w, buf[..w]);
      ArraySurvives(num, w, buf[w..], n - 1);
      var word, ws := WireWord(num.Signed?, w, buf[..w]), WireWords(num.Signed?, w, buf[w..], n - 1);
      assert WireWords(num.Signed?, w, buf, n) == [word] + ws;
      PackedCons(num, w, word, ws);
      FitMore(num, w, word, ws);
    }
  }

  lemma FitNone(num: Num, w: Width)
    ensures AllFit(num, w, [])
  {
  }

  lemma {:induction false} EncodedOpt(k: Kind, x: Obj)
    requires ShapeField(k, x) && !k.KNested?
    ensures OptOf(EncodeCell(k, x)) == ExpectedOf(k)
  {
  }

  /** The cell a leaf field's bytes make of t. */
  function Received(strict: bool, k: Kind, t: Obj, v: Value): Option<Obj>
  {
    var c := Call(0, SizeOf(v), CountOf(v), OptOf(v));
    match Render(strict, ReadOf(k, []), v)
    case None => None
    case Some(ws) => Some(PokeWrites(WithLen(k, t, c), ws))
  }

  lemma LenIsKept(n: nat, cap: nat, len: nat)
    requires n <= cap && LenOk(cap, len) && len != 0
    ensures StoreLen(Min(n, cap), len) == n
  {
    hide Span;
    var m := Span(len);
    assert n % m == n;
  }

  lemma {:induction false} ReceivedInts(strict: bool, k: Kind, x: Obj, t: Obj)
    requires k.KInts? && SaneCell(strict, k, x) && ShapeField(k, t) && LenOk(k.cap, k.len)
    ensures var r := Received(strict, k, t, EncodeCell(k, x));
      r.Some? && ShapeField(k, r.value) && ViewCell(k, r.value) == ViewCell(k, x)
  {
    hide WireWords, Packed, AllFit, ScalarBytes, PokeWrites, Span, StoreLen, Booleans;
    var n, w, cap := UsedOf(k, x), k.width, k.cap;
    MulLess(n, cap, w);
    ArraySurvives(k.num, w, x.buf, n);
    var p, q := x.buf[..n * w], Zeros((cap - n) * w);
    assert |p| == n * w && (cap - n) * w == cap * w - n * w;
    if k.len != 0 { LenIsKept(n, cap, k.len); }
    var t1 := WithLen(k, t, Call(0, 0, n, ExpectedOf(k)));
    PokeTwo(t1.used, t.buf, p, q);
    var image := p + q + t.buf[|p| + |q|..];
    assert image[..n * w] == p;
  }

  lemma {:induction false} ReceivedFloats(strict: bool, k: Kind, x: Obj, t: Obj)
    requires k.KFloats? && SaneCell(strict, k, x) && ShapeField(k, t) && LenOk(k.cap, k.len)
    ensures var r := Received(strict, k, t, EncodeCell(k, x));
      r.Some? && ShapeField(k, r.value) && ViewCell(k, r.value) == ViewCell(k, x)
  {
    hide PokeWrites, Span, StoreLen;
    var n, w, cap := UsedOf(k, x), FloatWidth(k.fp64), k.cap;
    MulLess(n, cap, w);
    var p, q := x.buf[..n * w], Zeros((cap - n) * w);
    assert |p| == n * w && |p| / w == n && (cap - n) * w == cap * w - n * w;
    if k.len != 0 { LenIsKept(n, cap, k.len); }
    var t1 := WithLen(k, t, Call(0, w, n, ExpectedOf(k)));
    PokeTwo(t1.used, t.buf, p, q);
    var image := p + q + t.buf[|p| + |q|..];
    assert image[..n * w] == p;
  }

  lemma {:induction false} CStrOfPrefix(s: seq<byte>, rest: seq<byte>)
    requires forall i :: 0 <= i < |s| ==> s[i] != 0
    ensures CStr(s + [0] + rest) == s
  {
    var b := s + [0] + rest;
    if s == [] {
      assert b[0] == 0;
    } else {
      assert b[1..] == s[1..] + [0] + rest;
      CStrOfPrefix(s[1..], rest);
    }
  }

  lemma {:induction false} ReceivedText(strict: bool, k: Kind, x: Obj, t: Obj)
    requires k.KText? && SaneCell(strict, k, x) && ShapeField(k, t)
    ensures var r := Received(strict, k, t, EncodeCell(k, x));
      r.Some? && ShapeField(k, r.value) && ViewCell(k, r.value) == ViewCell(k, x)
  {
    hide PokeWrites, ValidText, CStr;
    var p := CStr(x.buf);
    assert [Write(|p|, [0])] + [Write(0, p)] == [Write(|p|, [0]), Write(0, p)];
    PokeTwo(t.used, t.buf, p, [0]);
    CStrOfPrefix(p, t.buf[|p| + 1..]);
  }

  lemma {:induction false} ReceivedBlob(strict: bool, k: Kind, x: Obj, t: Obj)
    requires k.KBlob? && SaneCell(strict, k, x) && ShapeField(k, t) && LenOk(k.cap, k.len)
    ensures var r := Received(strict, k, t, EncodeCell(k, x));
      r.Some? && ShapeField(k, r.value) && ViewCell(k, r.value) == ViewCell(k, x)
  {
    hide PokeWrites, Span, StoreLen;
    var p := x.buf[..UsedOf(k, x)];
    if k.len != 0 { LenIsKept(|p|, k.cap, k.len); }
    assert [] + [Write(0, p)] == [Write(0, p)];
    var t1 := WithLen(k, t, Call(0, |p|, 0, ExpectedOf(k)));
    PokePrefix(t1.used, t.buf, p);
    assert (p + t.buf[|p|..])[..|p|] == p;
  }

  /** A leaf member survives the wire, whatever the destination held. */
  lemma {:induction false} CellSurvives(W: WordSize, strict: bool, k: Kind, x: Obj, t: Obj)
    requires !k.KNested? && KindOk(W, strict, k) && SaneCell(strict, k, x) && ShapeField(k, t)
    ensures var r := Received(strict, k, t, EncodeCell(k, x));
      r.Some? && ShapeField(k, r.value) && ViewCell(k, r.value) == ViewCell(k, x)
  {
    match k
    case KInt(num, w) =>
      hide ScalarBytes, WireWord;
      ScalarSurvives(num, w, x.buf);
      PokePrefix(t.used, t.buf, x.buf);
      assert x.buf + t.buf[|x.buf|..] == x.buf;
    case KFloat(fp64) =>
      PokePrefix(t.used, t.buf, x.buf);
      assert x.buf + t.buf[|x.buf|..] == x.buf;
    case KText(_) => ReceivedText(strict, k, x, t);
    case KBlob(_, _) => ReceivedBlob(strict, k, x, t);
    case KInts(_, _, _, _) => ReceivedInts(strict, k, x, t);
    case KFloats(_, _, _) => ReceivedFloats(strict, k, x, t);
  }

  // ---------------------------------------------------------------- defaults

  lemma {:induction false} SameTextSameString(a: seq<byte>, b: seq<byte>)
    requires |a| == |b|
    ensures SameText(a, b) <==> CStr(a) == CStr(b)
    decreases |a|
  {
    if a != [] {
      SameTextSameString(a[1..], b[1..]);
      if CStr(a) == CStr(b) && CStr(a) != [] {
        assert CStr(a)[0] == a[0] && CStr(b)[0] == b[0];
        assert CStr(a)[1..] == CStr(a[1..]) && CStr(b)[1..] == CStr(b[1..]);
      }
    }
  }

  lemma {:induction false} ResetFieldShape(W: WordSize, strict: bool, d: Descr, i: nat, g: Obj)
    requires DescrOk(W, strict, d) && i < |d.fields| && ShapeField(d.fields[i].kind, g) && UsesImage(d, i)
    ensures ShapeField(d.fields[i].kind, ResetField(d, i, g))
    decreases d, 0
  {
    var k := d.fields[i].kind;
    assert KindOk(W, strict, k);
    match k {
      case KNested(nd) => ResetShape(W, strict, nd, g);
      case _ =>
        if FieldDefault(d, i).Some? { assert DefaultOk(strict, k, FieldDefault(d, i).value); }
    }
  }

  lemma {:induction false} ResetShape(W: WordSize, strict: bool, d: Descr, g: Obj)
    requires DescrOk(W, strict, d) && Shape(d, g)
    ensures Shape(d, Reset(d, g))
    decreases d, 1
  {
    hide DescrOk, ShapeField, ResetField;
    ResetKids(d, g);
    var r := Reset(d, g);
    forall i | 0 <= i < |d.fields|
      ensures ShapeField(d.fields[i].kind, r.kids[i])
    {
      assert ShapeField(d.fields[i].kind, g.kids[i]);
      if !NotHeld(d, r.aux, i) {
        ResetFieldShape(W, strict, d, i, g.kids[i]);
      }
    }
  }

  /** A leaf at its default has the value a reset leaves. */
  lemma {:induction false} DefaultCell(strict: bool, k: Kind, default: Option<Obj>, x: Obj, g: Obj)
    requires !k.KNested? && ShapeField(k, x) && ShapeField(k, g) && LenOk(Capacity(k), LenWidth(k))
    requires default.Some? ==> ShapeField(k, default.value)
    requires CellIsDefault(k, default, x)
    ensures var r := ResetCell(k, default, g);
      ShapeField(k, r) && ViewCell(k, r) == ViewCell(k, x)
  {
    hide Span;
    var r := ResetCell(k, default, g);
    if k.KText? {
      if default.Some? {
        SameTextSameString(x.buf, default.value.buf);
      }
    } else if LenWidth(k) != 0 {
      if default.Some? {
        LenIsKept(UsedOf(k, x), Capacity(k), LenWidth(k));
      }
    } else if default.None? {
      assert x.buf == r.buf;
    }
  }

  lemma {:induction false} DefaultField(W: WordSize, strict: bool, all: bool, d: Descr, i: nat, x: Obj, g: Obj)
    requires DescrOk(W, strict, d) && Sane(strict, all, d, x) && Shape(d, g) && i < |d.fields|
    requires SaneField(strict, all, d.fields[i].kind, x.kids[i])
    requires FieldIsDefault(d, i, x) && !NotHeld(d, x.aux, i)
    ensures var r := ResetField(d, i, g.kids[i]);
      ShapeField(d.fields[i].kind, r) && ViewField(d.fields[i].kind, r) == ViewField(d.fields[i].kind, x.kids[i])
    decreases d, 0
  {
    var k := d.fields[i].kind;
    assert ShapeField(k, g.kids[i]) && KindOk(W, strict, k) && ShapeField(k, x.kids[i]);
    match k {
      case KNested(nd) =>
        ResetShape(W, strict, nd, g.kids[i]);
        DefaultObject(W, strict, all, nd, x.kids[i], g.kids[i]);
      case _ =>
        DefaultCell(strict, k, FieldDefault(d, i), x.kids[i], g.kids[i]);
    }
  }

  /** A sub-object the default test passes has the value a reset leaves: leaving it off the wire loses nothing. */
  lemma {:induction false} DefaultObject(W: WordSize, strict: bool, all: bool, d: Descr, x: Obj, g: Obj)
    requires DescrOk(W, strict, d) && Sane(strict, all, d, x) && Shape(d, g) && IsDefault(d, x)
    ensures Shape(d, Reset(d, g)) && ViewOf(d, Reset(d, g)) == ViewOf(d, x)
    decreases d, 1
  {
    hide DescrOk, ViewField, SaneField, ResetField;
    ResetShape(W, strict, d, g);
    ResetKids(d, g);
    var r := Reset(d, g);
    if d.form.Union? {
      var i := Find(d.fields, x.aux);
      if i < |d.fields| {
        assert FieldIsDefault(d, i, x);
        assert x.aux == DefaultTag(d);
        DefaultField(W, strict, all, d, i, x, g);
      }
    } else if !(d.form.Holder? && d.form.len != 0) {
      forall i | 0 <= i < |d.fields|
        ensures ViewField(d.fields[i].kind, r.kids[i]) == ViewField(d.fields[i].kind, x.kids[i])
      {
        assert FieldIsDefault(d, i, x);
        DefaultField(W, strict, all, d, i, x, g);
      }
    }
  }
}

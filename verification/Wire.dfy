/**
 * The wire format: field trees, their minimal encoding, and the recursive-descent grammar
 *   message = field* ,  field = leaf | BEGIN field* END
 * that the resumable decoder is measured against.
 */
module Wire {
  import opened Bytes
  import opened Varint

  const FIXLEN_MAX: nat := 0x7FFF_FFFF
  const ARRAY_MAX: nat := 0x7FFF_FFFF
  const MAX_DEPTH: nat := 255

  // Wire types, as in a field header's low three bits.
  const UNSIGNED: nat := 0
  const SIGNED: nat := 1
  const FIXLEN: nat := 2
  const ARRAY_UNSIGNED: nat := 3
  const ARRAY_SIGNED: nat := 4
  const ARRAY_FIXLEN: nat := 5
  const BEGIN: nat := 6
  const END: nat := 7

  // Subtypes, as in a fixlen word's low three bits.
  const FP32: nat := 0
  const FP64: nat := 1
  const STRING: nat := 2
  const BLOB: nat := 3

  function IdMax(W: WordSize): nat
  {
    if W == 64 then 0x7FFF_FFFF else 0x1FFF_FFFF
  }

  /** What a leaf field carries: integer words are raw varint values, floats are bit patterns. */
  datatype Value =
    | Int(signed: bool, word: nat)
    | Fixlen(sub: nat, payload: seq<byte>)
    | Ints(signed: bool, words: seq<nat>)
    | Floats(fp64: bool, payload: seq<byte>)

  datatype Field = Leaf(id: nat, value: Value) | Group(id: nat, body: seq<Field>)

  function FloatWidth(fp64: bool): nat { if fp64 then 8 else 4 }

  function TypeOf(v: Value): nat
  {
    match v
    case Int(signed, _) => if signed then SIGNED else UNSIGNED
    case Fixlen(_, _) => FIXLEN
    case Ints(signed, _) => if signed then ARRAY_SIGNED else ARRAY_UNSIGNED
    case Floats(_, _) => ARRAY_FIXLEN
  }

  /** Wire type in bits 0-2, fixlen subtype in bits 3-5: what a reader's expectation is compared with. */
  function OptOf(v: Value): nat
  {
    match v
    case Fixlen(sub, _) => FIXLEN + 8 * sub
    case Floats(fp64, _) => ARRAY_FIXLEN + 8 * (if fp64 then FP64 else FP32)
    case _ => TypeOf(v)
  }

  /** The size and count a callback is told before it binds a destination. */
  function SizeOf(v: Value): nat
  {
    match v
    case Fixlen(_, p) => |p|
    case Floats(fp64, _) => FloatWidth(fp64)
    case _ => 0
  }

  function CountOf(v: Value): nat
  {
    match v
    case Ints(_, ws) => |ws|
    case Floats(fp64, p) => |p| / FloatWidth(fp64)
    case _ => 0
  }

  // ---------------------------------------------------------------- integers in memory

  /** The wire word of a w-byte integer in memory: sign-extended and ZigZag-mapped when signed. */
  function WireWord(signed: bool, w: nat, bytes: seq<byte>): nat
  {
    if signed then ZigZag(Signed(Word(bytes), w)) else Word(bytes)
  }

  /** The wire words of n packed w-byte integers. */
  function WireWords(signed: bool, w: nat, buf: seq<byte>, n: nat): (ws: seq<nat>)
    requires n * w <= |buf|
    ensures |ws| == n
  {
    if n == 0 then []
    else
      MulLess(1, n, w);
      [WireWord(signed, w, buf[..w])] + WireWords(signed, w, buf[w..], n - 1)
  }

  // ---------------------------------------------------------------- well-formed trees

  ghost predicate WordsFit(W: WordSize, ws: seq<nat>)
  {
    forall i :: 0 <= i < |ws| ==> ws[i] < Pow2(W)
  }

  /** A value within every ceiling of the format. */
  ghost predicate ValueOk(W: WordSize, v: Value)
  {
    match v
    case Int(_, w) => w < Pow2(W)
    case Fixlen(sub, p) =>
      && sub <= BLOB && |p| <= FIXLEN_MAX && 8 * |p| + sub < Pow2(W)
      && (sub == FP32 ==> |p| == 4) && (sub == FP64 ==> |p| == 8)
    case Ints(_, ws) => |ws| <= ARRAY_MAX && |ws| < Pow2(W) && WordsFit(W, ws)
    case Floats(fp64, p) =>
      && |p| % FloatWidth(fp64) == 0
      && |p| / FloatWidth(fp64) <= ARRAY_MAX && |p| / FloatWidth(fp64) < Pow2(W)
  }

  ghost predicate IdOk(W: WordSize, id: nat)
  {
    id <= IdMax(W) && 8 * id + 7 < Pow2(W)
  }

  /** A field that may stand at nesting depth d (d sequences are open around it). */
  ghost predicate FieldOk(W: WordSize, f: Field, d: nat)
    decreases f
  {
    IdOk(W, f.id) &&
    match f
    case Leaf(_, v) => ValueOk(W, v)
    case Group(_, body) => d < MAX_DEPTH && FieldsOk(W, body, d + 1)
  }

  ghost predicate FieldsOk(W: WordSize, fs: seq<Field>, d: nat)
    decreases fs
  {
    fs == [] || (FieldOk(W, fs[0], d) && FieldsOk(W, fs[1..], d))
  }

  // ---------------------------------------------------------------- encoding

  function Header(id: nat, ty: nat): seq<byte>
  {
    Encode(8 * id + ty)
  }

  function SerWords(ws: seq<nat>): seq<byte>
  {
    if ws == [] then [] else Encode(ws[0]) + SerWords(ws[1..])
  }

  function SerValue(v: Value): seq<byte>
  {
    match v
    case Int(_, w) => Encode(w)
    case Fixlen(sub, p) => Encode(8 * |p| + sub) + p
    case Ints(_, ws) => Encode(|ws|) + SerWords(ws)
    case Floats(fp64, p) =>
      Encode(|p| / FloatWidth(fp64)) + (Encode(8 * FloatWidth(fp64) + if fp64 then FP64 else FP32) + p)
  }

  function SerField(f: Field): seq<byte>
    decreases f
  {
    match f
    case Leaf(id, v) => Header(id, TypeOf(v)) + SerValue(v)
    case Group(id, body) => Header(id, BEGIN) + (SerFields(body) + Header(0, END))
  }

  function SerFields(fs: seq<Field>): seq<byte>
    decreases fs
  {
    if fs == [] then [] else SerField(fs[0]) + SerFields(fs[1..])
  }

  // ---------------------------------------------------------------- grammar

  datatype Parse<+T> = Parsed(tree: T, rest: seq<byte>) | Truncated | Malformed

  /** One varint off the front. */
  function ParseVarint(W: WordSize, b: seq<byte>): (r: Parse<nat>)
    ensures r.Parsed? ==> |r.rest| < |b|
  {
    match ReadVarint(W, b)
    case Read(v, n) => Parsed(v, b[n..])
    case Short => Truncated
    case Bad => Malformed
  }

  function ParseWords(W: WordSize, n: nat, b: seq<byte>): (r: Parse<seq<nat>>)
    ensures r.Parsed? ==> |r.rest| <= |b| && |r.tree| == n
  {
    if n == 0 then Parsed([], b)
    else
      match ParseVarint(W, b)
      case Truncated => Truncated
      case Malformed => Malformed
      case Parsed(v, b1) =>
        match ParseWords(W, n - 1, b1)
        case Truncated => Truncated
        case Malformed => Malformed
        case Parsed(vs, b2) => Parsed([v] + vs, b2)
  }

  function ParsePayload(n: nat, b: seq<byte>): Parse<seq<byte>>
  {
    if |b| < n then Truncated else Parsed(b[..n], b[n..])
  }

  /** The length and subtype a fixlen word may declare for a scalar field. */
  predicate ScalarWordOk(sub: nat, len: nat)
  {
    sub <= BLOB && (sub == FP32 ==> len == 4) && (sub == FP64 ==> len == 8) && len <= FIXLEN_MAX
  }

  /** ... and for the elements of an array: floats only. */
  predicate ElementWordOk(sub: nat, len: nat)
  {
    (sub == FP32 && len == 4) || (sub == FP64 && len == 8)
  }

  function ParseFixlen(W: WordSize, b: seq<byte>): (r: Parse<Value>)
    ensures r.Parsed? ==> |r.rest| <= |b|
  {
    match ParseVarint(W, b)
    case Truncated => Truncated
    case Malformed => Malformed
    case Parsed(w, b1) =>
      if !ScalarWordOk(w % 8, w / 8) then Malformed
      else
        match ParsePayload(w / 8, b1)
        case Truncated => Truncated
        case Malformed => Malformed
        case Parsed(p, b2) => Parsed(Fixlen(w % 8, p), b2)
  }

  function ParseInts(W: WordSize, signed: bool, b: seq<byte>): (r: Parse<Value>)
    ensures r.Parsed? ==> |r.rest| <= |b|
  {
    match ParseVarint(W, b)
    case Truncated => Truncated
    case Malformed => Malformed
    case Parsed(n, b1) =>
      if n > ARRAY_MAX then Malformed
      else
        match ParseWords(W, n, b1)
        case Truncated => Truncated
        case Malformed => Malformed
        case Parsed(ws, b2) => Parsed(Ints(signed, ws), b2)
  }

  function ParseFloats(W: WordSize, b: seq<byte>): (r: Parse<Value>)
    ensures r.Parsed? ==> |r.rest| <= |b|
  {
    match ParseVarint(W, b)
    case Truncated => Truncated
    case Malformed => Malformed
    case Parsed(n, b1) =>
      if n > ARRAY_MAX then Malformed
      else
        match ParseVarint(W, b1)
        case Truncated => Truncated
        case Malformed => Malformed
        case Parsed(w, b2) =>
          if !ElementWordOk(w % 8, w / 8) then Malformed
          else
            match ParsePayload(n * (w / 8), b2)
            case Truncated => Truncated
            case Malformed => Malformed
            case Parsed(p, b3) => Parsed(Floats(w % 8 == FP64, p), b3)
  }

  /** The value after a header of leaf type ty. */
  function ParseValue(W: WordSize, ty: nat, b: seq<byte>): (r: Parse<Value>)
    requires ty <= ARRAY_FIXLEN
    ensures r.Parsed? ==> |r.rest| <= |b|
  {
    if ty == UNSIGNED || ty == SIGNED then
      match ParseVarint(W, b)
      case Truncated => Truncated
      case Malformed => Malformed
      case Parsed(w, b1) => Parsed(Int(ty == SIGNED, w), b1)
    else if ty == FIXLEN then ParseFixlen(W, b)
    else if ty == ARRAY_FIXLEN then ParseFloats(W, b)
    else ParseInts(W, ty == ARRAY_SIGNED, b)
  }

  /** Fields in front of what another parse found. */
  function Prepend(fs: seq<Field>, r: Parse<seq<Field>>): (q: Parse<seq<Field>>)
    ensures q.Parsed? <==> r.Parsed?
    ensures q.Parsed? ==> q.rest == r.rest
  {
    match r
    case Parsed(gs, rest) => Parsed(fs + gs, rest)
    case Truncated => Truncated
    case Malformed => Malformed
  }

  /**
   * The fields of one scope. At depth 0 the scope is the message and ends with the input; deeper, it
   * ends with its END header (whatever id that header carries).
   */
  function ParseFields(W: WordSize, b: seq<byte>, d: nat): (r: Parse<seq<Field>>)
    ensures r.Parsed? ==> |r.rest| <= |b| && (d > 0 ==> |r.rest| < |b|) && (d == 0 ==> r.rest == [])
    decreases |b|, 0
  {
    if b == [] then (if d == 0 then Parsed([], []) else Truncated)
    else
      match ParseVarint(W, b)
      case Truncated => Truncated
      case Malformed => Malformed
      case Parsed(h, b1) => ParseFrom(W, h / 8, h % 8, b1, d)
  }

  /** The rest of a scope, behind a header already read. */
  function ParseFrom(W: WordSize, id: nat, ty: nat, b: seq<byte>, d: nat): (r: Parse<seq<Field>>)
    requires ty < 8
    ensures r.Parsed? ==> |r.rest| <= |b| && (d == 0 ==> r.rest == [])
    decreases |b|, 1
  {
    if id > IdMax(W) then Malformed
    else if ty == END then (if d == 0 then Malformed else Parsed([], b))
    else if ty == BEGIN then
      if d >= MAX_DEPTH then Malformed
      else
        match ParseFields(W, b, d + 1)
        case Truncated => Truncated
        case Malformed => Malformed
        case Parsed(body, b2) => Prepend([Group(id, body)], ParseFields(W, b2, d))
    else
      match ParseValue(W, ty, b)
      case Truncated => Truncated
      case Malformed => Malformed
      case Parsed(v, b2) => Prepend([Leaf(id, v)], ParseFields(W, b2, d))
  }

  /** The parse of a scope that starts with a leaf, by cases. */
  lemma {:induction false} ParseLeafCases(W: WordSize, id: nat, ty: nat, b: seq<byte>, d: nat)
    requires id <= IdMax(W) && ty <= ARRAY_FIXLEN
    ensures var p := ParseValue(W, ty, b);
      ParseFrom(W, id, ty, b, d)
        == if p.Parsed? then Prepend([Leaf(id, p.tree)], ParseFields(W, p.rest, d))
           else if p.Truncated? then Truncated else Malformed
  {
    hide ParseValue;
  }

  /** The parse of a scope that starts with a sequence, by cases. */
  lemma {:induction false} ParseGroupCases(W: WordSize, id: nat, b: seq<byte>, d: nat)
    requires id <= IdMax(W) && d < MAX_DEPTH
    ensures var p := ParseFields(W, b, d + 1);
      ParseFrom(W, id, BEGIN, b, d)
        == if p.Parsed? then Prepend([Group(id, p.tree)], ParseFields(W, p.rest, d))
           else if p.Truncated? then Truncated else Malformed
  {
  }

  // ---------------------------------------------------------------- parse inverts encode

  lemma {:induction false} ParseVarintEncode(W: WordSize, v: nat, rest: seq<byte>)
    requires v < Pow2(W)
    ensures ParseVarint(W, Encode(v) + rest) == Parsed(v, rest)
  {
    ReadEncode(W, v, rest);
    assert (Encode(v) + rest)[|Encode(v)|..] == rest;
  }

  lemma {:induction false} ParseWordsSer(W: WordSize, ws: seq<nat>, rest: seq<byte>)
    requires WordsFit(W, ws)
    ensures ParseWords(W, |ws|, SerWords(ws) + rest) == Parsed(ws, rest)
    decreases |ws|
  {
    hide ParseVarint, Encode, Pow2;
    if ws == [] {
      assert SerWords(ws) + rest == rest;
    } else {
      assert SerWords(ws) + rest == Encode(ws[0]) + (SerWords(ws[1..]) + rest);
      ParseVarintEncode(W, ws[0], SerWords(ws[1..]) + rest);
      ParseWordsSer(W, ws[1..], rest);
      assert ws == [ws[0]] + ws[1..];
    }
  }

  lemma {:induction false} SmallFits(W: WordSize, v: nat)
    requires v < 256
    ensures v < Pow2(W)
  {
    SpanIsPow2(1);
    Pow2Monotone(8, W);
    assert Span(1) == 256 * Span(0);
  }

  lemma {:induction false} ParseFixlenSer(W: WordSize, sub: nat, p: seq<byte>, rest: seq<byte>)
    requires ValueOk(W, Fixlen(sub, p))
    ensures ParseFixlen(W, Encode(8 * |p| + sub) + p + rest) == Parsed(Fixlen(sub, p), rest)
  {
    hide ParseVarint, Encode, Pow2;
    assert Encode(8 * |p| + sub) + p + rest == Encode(8 * |p| + sub) + (p + rest);
    ParseVarintEncode(W, 8 * |p| + sub, p + rest);
    assert (p + rest)[..|p|] == p && (p + rest)[|p|..] == rest;
  }

  lemma {:induction false} ParseIntsSer(W: WordSize, signed: bool, ws: seq<nat>, rest: seq<byte>)
    requires ValueOk(W, Ints(signed, ws))
    ensures ParseInts(W, signed, Encode(|ws|) + SerWords(ws) + rest) == Parsed(Ints(signed, ws), rest)
  {
    hide ParseVarint, Encode, Pow2;
    assert Encode(|ws|) + SerWords(ws) + rest == Encode(|ws|) + (SerWords(ws) + rest);
    ParseVarintEncode(W, |ws|, SerWords(ws) + rest);
    ParseWordsSer(W, ws, rest);
  }

  lemma ParseFloatsSer(W: WordSize, fp64: bool, p: seq<byte>, rest: seq<byte>)
    requires ValueOk(W, Floats(fp64, p))
    ensures ParseFloats(W, SerValue(Floats(fp64, p)) + rest) == Parsed(Floats(fp64, p), rest)
  {
    hide ParseVarint, Encode, Pow2;
    var n, w := |p| / FloatWidth(fp64), 8 * FloatWidth(fp64) + (if fp64 then FP64 else FP32);
    assert SerValue(Floats(fp64, p)) + rest == Encode(n) + (Encode(w) + (p + rest));
    ParseVarintEncode(W, n, Encode(w) + (p + rest));
    SmallFits(W, w);
    ParseVarintEncode(W, w, p + rest);
    assert n * (w / 8) == |p|;
    assert (p + rest)[..|p|] == p && (p + rest)[|p|..] == rest;
  }

  lemma ParseValueSer(W: WordSize, v: Value, rest: seq<byte>)
    requires ValueOk(W, v)
    ensures ParseValue(W, TypeOf(v), SerValue(v) + rest) == Parsed(v, rest)
  {
    hide ParseVarint, Encode, Pow2;
    match v
    case Int(_, w) => ParseVarintEncode(W, w, rest);
    case Fixlen(sub, p) => ParseFixlenSer(W, sub, p, rest);
    case Ints(signed, ws) => ParseIntsSer(W, signed, ws, rest);
    case Floats(fp64, p) => ParseFloatsSer(W, fp64, p, rest);
  }

  lemma {:induction false} ParseHeader(W: WordSize, id: nat, ty: nat, rest: seq<byte>, d: nat)
    requires ty < 8 && 8 * id + ty < Pow2(W)
    ensures ParseFields(W, Header(id, ty) + rest, d) == ParseFrom(W, id, ty, rest, d)
  {
    hide ParseVarint, ParseFrom, Encode, Pow2;
    var h := 8 * id + ty;
    assert h / 8 == id && h % 8 == ty;
    ParseVarintEncode(W, h, rest);
    assert Encode(h) + rest != [];
  }

  /** Parsing what was encoded gives the fields back and leaves the parse of what follows. */
  lemma {:induction false} ParseFieldsSer(W: WordSize, fs: seq<Field>, d: nat, rest: seq<byte>)
    requires FieldsOk(W, fs, d)
    ensures ParseFields(W, SerFields(fs) + rest, d) == Prepend(fs, ParseFields(W, rest, d))
    decreases fs
  {
    hide ParseVarint, ParseFrom, Encode, Pow2;
    if fs == [] {
      assert SerFields(fs) + rest == rest;
      PrependNone(ParseFields(W, rest, d));
    } else {
      var tail := SerFields(fs[1..]) + rest;
      assert SerFields(fs) + rest == SerField(fs[0]) + tail;
      ParseFieldSer(W, fs[0], d, tail);
      ParseFieldsSer(W, fs[1..], d, rest);
      PrependTwice([fs[0]], fs[1..], ParseFields(W, rest, d));
      assert [fs[0]] + fs[1..] == fs;
    }
  }

  lemma {:induction false} ParseFieldSer(W: WordSize, f: Field, d: nat, rest: seq<byte>)
    requires FieldOk(W, f, d)
    ensures ParseFields(W, SerField(f) + rest, d) == Prepend([f], ParseFields(W, rest, d))
    decreases f
  {
    hide ParseVarint, ParseValue, SerValue, Encode, Pow2;
    match f
    case Leaf(id, v) =>
      assert SerField(f) + rest == Header(id, TypeOf(v)) + (SerValue(v) + rest);
      ParseHeader(W, id, TypeOf(v), SerValue(v) + rest, d);
      ParseValueSer(W, v, rest);
    case Group(id, body) =>
      var inner := Header(0, END) + rest;
      assert SerField(f) + rest == Header(id, BEGIN) + (SerFields(body) + inner);
      ParseHeader(W, id, BEGIN, SerFields(body) + inner, d);
      ParseFieldsSer(W, body, d + 1, inner);
      SmallFits(W, END);
      ParseHeader(W, 0, END, rest, d + 1);
      assert body + [] == body;
  }

  lemma PrependNone(r: Parse<seq<Field>>)
    ensures Prepend([], r) == r
  {
    if r.Parsed? { assert [] + r.tree == r.tree; }
  }

  lemma PrependTwice(fs: seq<Field>, gs: seq<Field>, r: Parse<seq<Field>>)
    ensures Prepend(fs, Prepend(gs, r)) == Prepend(fs + gs, r)
  {
    if r.Parsed? { assert fs + (gs + r.tree) == (fs + gs) + r.tree; }
  }

  /** Encoding then parsing a whole message is the identity on well-formed trees. */
  lemma {:induction false} MessageRoundTrip(W: WordSize, fs: seq<Field>)
    requires FieldsOk(W, fs, 0)
    ensures ParseFields(W, SerFields(fs), 0) == Parsed(fs, [])
  {
    ParseFieldsSer(W, fs, 0, []);
    assert SerFields(fs) + [] == SerFields(fs);
    assert fs + [] == fs;
  }
}

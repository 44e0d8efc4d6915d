/** The object codec as it runs: loops over descriptor fields that write object memory in place, or an output stream. */
module ObjectMemory {
  import opened Bytes
  import opened Varint
  import opened Wire
  import opened Utf8
  import opened Decoder
  import opened DecoderTheorems
  import opened Object
  import opened ObjectDecode
  import opened ObjectRoundTrip
  import opened ObjectTheorems
  import opened ObjectBytes
  import opened Output
  import opened Ostream
  import opened ObjectEncode
  import opened ObjectRefusals

  // ---------------------------------------------------------------- object memory

  /** An object being reset: its tag or count, and the first n members. */
  function ResetUpTo(d: Descr, o: Obj, n: nat): Obj
    requires HasMembers(d, o)
  {
    var aux := ResetAux(d, o.aux);
    Node(aux, seq(|o.kids|, i requires 0 <= i < |o.kids| =>
      if i >= n || NotHeld(d, aux, i) then o.kids[i] else ResetField(d, i, o.kids[i])))
  }

  lemma ResetNone(d: Descr, o: Obj)
    requires HasMembers(d, o)
    ensures ResetUpTo(d, o, 0) == Node(ResetAux(d, o.aux), o.kids)
  {
    hide ResetField, ResetAux;
    assert ResetUpTo(d, o, 0).kids == o.kids;
  }

  lemma {:induction false} ResetAll(d: Descr, o: Obj)
    requires HasMembers(d, o)
    ensures ResetUpTo(d, o, |d.fields|) == Reset(d, o)
  {
    hide ResetField, ResetAux;
    ResetKids(d, o);
    assert ResetUpTo(d, o, |d.fields|).kids == Reset(d, o).kids;
  }

  lemma ResetOne(d: Descr, o: Obj, i: nat)
    requires HasMembers(d, o) && i < |d.fields|
    ensures var a, aux := ResetUpTo(d, o, i), ResetAux(d, o.aux);
      && HasMembers(d, a) && a.aux == aux && a.kids[i] == o.kids[i]
      && ResetUpTo(d, o, i + 1) == if NotHeld(d, aux, i) then a else WithKid(a, i, ResetField(d, i, o.kids[i]))
  {
    hide ResetField, ResetAux;
    var a, b, aux := ResetUpTo(d, o, i), ResetUpTo(d, o, i + 1), ResetAux(d, o.aux);
    assert b.kids == if NotHeld(d, aux, i) then a.kids else a.kids[i := ResetField(d, i, o.kids[i])];
  }

  /** The memory a message is decoded into: objects inside it are named by their place. */
  class Memory {
    var root: Obj

    constructor (root: Obj)
      ensures this.root == root
    {
      this.root := root;
    }

    /** The count or tag at the start of the object at p. */
    method SetAux(p: Path, aux: nat)
      requires ValidPath(root, p) && Inside(root, p).Node?
      modifies this
      ensures root == Put(old(root), p, Node(aux, Inside(old(root), p).kids))
    {
      root := Put(root, p, Node(aux, Inside(root, p).kids));
    }

    /** sofab_object_init, in place. */
    method Init(d: Descr, p: Path)
      requires ValidPath(root, p) && Shape(d, Inside(root, p))
      modifies this
      ensures root == Put(old(root), p, Reset(d, Inside(old(root), p)))
      decreases d
    {
      hide ShapeField, ResetField, Reset, ResetUpTo;
      ghost var r0, o := root, Inside(root, p);
      PutAt(r0, p, o);
      ResetNone(d, o);
      InitAux(d, p);
      var i := 0;
      while i < |d.fields|
        invariant i <= |d.fields| && root == Put(r0, p, ResetUpTo(d, o, i))
      {
        ResetOne(d, o, i);
        ghost var done := ResetUpTo(d, o, i);
        PutAt(r0, p, done);
        PutChild(root, p, i, o.kids[i]);
        assert ShapeField(d.fields[i].kind, o.kids[i]);
        if !NotHeld(d, Inside(root, p).aux, i) {
          PutChild(root, p, i, ResetField(d, i, o.kids[i]));
          PutPut(r0, p, done, WithKid(done, i, ResetField(d, i, o.kids[i])));
          InitMember(d, p, i);
        }
        i := i + 1;
      }
      ResetAll(d, o);
    }

    /** A sized holder's count is cleared, a union's tag names its default option. */
    method InitAux(d: Descr, p: Path)
      requires ValidPath(root, p) && HasMembers(d, Inside(root, p))
      modifies this
      ensures root == Put(old(root), p, Node(ResetAux(d, Inside(old(root), p).aux), Inside(old(root), p).kids))
    {
      PutAt(root, p, Inside(root, p));
      if d.form.Holder? && d.form.len != 0 {
        SetAux(p, 0);
      } else if d.form.Union? {
        SetAux(p, DefaultTag(d));
      }
    }

    /** A nested object is seeded by its own descriptor, a leaf from the default image or with zeros. */
    method InitMember(d: Descr, p: Path, i: nat)
      requires i < |d.fields| && ValidPath(root, p + [i]) && ShapeField(d.fields[i].kind, Inside(root, p + [i]))
      modifies this
      ensures root == Put(old(root), p + [i], ResetField(d, i, Inside(old(root), p + [i])))
      decreases d, 0
    {
      hide Reset, ResetCell;
      match d.fields[i].kind {
        case KNested(nd) => Init(nd, p + [i]);
        case k => root := Put(root, p + [i], ResetCell(k, FieldDefault(d, i), Inside(root, p + [i])));
      }
    }

    /** _seq_len_observe: a sized holder's count rises to cover the element, a union's tag names the option. */
    method SeqLenObserve(d: Descr, p: Path, id: nat)
      requires ValidPath(root, p) && Inside(root, p).Node?
      modifies this
      ensures root == Put(old(root), p, Observe(d, Inside(old(root), p), id))
    {
      PutAt(root, p, Inside(root, p));
      match d.form {
        case Struct =>
        case Union => SetAux(p, id);
        case Holder(len) =>
          if len != 0 {
            var n := Min(id + 1, |d.fields|);
            if n > Inside(root, p).aux { SetAux(p, StoreLen(n, len)); }
          }
      }
    }

    /** The companion length of a sized blob or array. */
    method StoreLength(k: Kind, p: Path, c: Call)
      requires ValidPath(root, p)
      modifies this
      ensures root == Put(old(root), p, WithLen(k, Inside(old(root), p), c))
    {
      PutAt(root, p, Inside(root, p));
      var cell := Inside(root, p);
      if LenWidth(k) != 0 && cell.Cell? {
        var n := if k.KBlob? then c.size else c.count;
        root := Put(root, p, Cell(StoreLen(Min(n, Capacity(k)), LenWidth(k)), cell.buf));
      }
    }

    /** sofab_object_field_cb: looks the id up, binds or declines, and keeps the lengths, counts and tags. */
    method FieldCb(sc: Scope, c: Call) returns (act: Action<Path, Scope>, condemn: bool)
      requires ValidPath(root, sc.dst) && Shape(sc.descr, Inside(root, sc.dst))
      modifies this
      ensures Reply(root, act, condemn) == ObjectCall(old(root), sc, c)
    {
      hide ShapeField, BindCell, BindNested, Reset;
      var d, p := sc.descr, sc.dst;
      PutAt(root, p, Inside(root, p));
      var i := 0;
      while i < |d.fields|
        invariant i <= |d.fields| && root == old(root)
        invariant forall j :: 0 <= j < i ==> d.fields[j].id != c.id
      {
        if d.fields[i].id == c.id {
          assert Find(d.fields, c.id) == i;
          assert ShapeField(d.fields[i].kind, Inside(root, p).kids[i]);
          if d.fields[i].kind.KNested? {
            act := OpenSequence(sc, i, c);
          } else {
            act := BindLeaf(sc, i, c);
          }
          return act, false;
        }
        i := i + 1;
      }
      assert Find(d.fields, c.id) == |d.fields|;
      act := Decline;
      condemn := d.form.Holder? && |d.fields| != 0 && c.opt == ExpectedOf(d.fields[0].kind);
    }

    /** A leaf: for a sized member the type is settled first, since its length is written with the bind. */
    method BindLeaf(sc: Scope, i: nat, c: Call) returns (act: Action<Path, Scope>)
      requires ValidPath(root, sc.dst) && Shape(sc.descr, Inside(root, sc.dst))
      requires i < |sc.descr.fields| && !sc.descr.fields[i].kind.KNested?
      modifies this
      ensures var r := BindCell(sc.descr, Inside(old(root), sc.dst), i, sc.dst, c);
        root == Put(old(root), sc.dst, r.0) && act == r.1
    {
      hide ShapeField, Observe, WithLen, ReadOf;
      var d, p, k := sc.descr, sc.dst, sc.descr.fields[i].kind;
      ghost var r0, o := root, Inside(root, p);
      PutAt(r0, p, o);
      if LenWidth(k) != 0 && c.opt != ExpectedOf(k) {
        return Decline;
      }
      act := ReadOf(k, p + [i]);
      if c.opt == ExpectedOf(k) {
        PutChild(r0, p, i, o.kids[i]);
        ghost var cell := WithLen(k, o.kids[i], c);
        PutChild(r0, p, i, cell);
        StoreLength(k, p + [i], c);
        ghost var o1 := WithKid(o, i, cell);
        PutAt(r0, p, o1);
        SeqLenObserve(d, p, c.id);
        PutPut(r0, p, o1, Observe(d, o1, c.id));
      }
    }

    /** A sequence: a wrapper array is emptied when it is opened, an option switched to starts from its default. */
    method OpenSequence(sc: Scope, i: nat, c: Call) returns (act: Action<Path, Scope>)
      requires ValidPath(root, sc.dst) && Shape(sc.descr, Inside(root, sc.dst))
      requires i < |sc.descr.fields| && sc.descr.fields[i].kind.KNested?
      modifies this
      ensures var r := BindNested(sc.descr, Inside(old(root), sc.dst), i, sc.dst, sc.handles, c);
        root == Put(old(root), sc.dst, r.0) && act == r.1
    {
      hide Observe, Reset;
      var d, p, nd := sc.descr, sc.dst, sc.descr.fields[i].kind.descr;
      ghost var r0, o := root, Inside(root, p);
      PutAt(r0, p, o);
      assert ShapeField(d.fields[i].kind, o.kids[i]);
      hide ShapeField;
      if sc.handles == 0 || c.opt % 8 != BEGIN {
        return Decline;
      }
      PutChild(r0, p, i, o.kids[i]);
      ghost var kid := if nd.form.Holder? || NotHeld(d, o.aux, i) then Reset(nd, o.kids[i]) else o.kids[i];
      if nd.form.Holder? || NotHeld(d, Inside(root, p).aux, i) {
        Init(nd, p + [i]);
      }
      PutChild(r0, p, i, kid);
      ghost var o1 := WithKid(o, i, kid);
      assert o.kids[i := o.kids[i]] == o.kids;
      PutAt(r0, p, o1);
      assert root == Put(r0, p, o1);
      act := ReadSequence(Scope(nd, p + [i], sc.handles - 1));
      if c.opt == BEGIN {
        SeqLenObserve(d, p, c.id);
        PutPut(r0, p, o1, Observe(d, o1, c.id));
      }
    }
  }

  // ---------------------------------------------------------------- encoding

  /** The two texts of an integer member's word. */
  lemma {:induction false} IntFits(W: WordSize, w: Width, bytes: seq<byte>)
    requires |bytes| == w && 8 * w <= W
    ensures Word(bytes) < Pow2(W) && ZigZag(Varint.Signed(Word(bytes), w)) < Pow2(W)
  {
    hide Word, Span, Pow2, ZigZag, Varint.Signed;
    WordBound(bytes);
    ScalarSurvives(Signed, w, bytes);
    SpanIsPow2(w);
    Pow2Monotone(8 * w, W);
  }

  lemma {:induction false} FixlenOp(W: WordSize, id: nat, sub: nat, data: seq<byte>)
    requires 8 * |data| < Pow2(W)
    ensures FieldOp(Leaf(id, Fixlen(sub, data))) == Content(id, FIXLEN, Encode(TypeWord(W, |data|, sub)) + data)
  {
    hide Encode, Pow2, TypeWord;
    TypeWordIsExact(W, |data|, sub);
  }

  /** sofab_object_encode: every member that is not default, and the element that carries a length. */
  method EncodeObject(d: Descr, src: Obj, out: Ostream) returns (code: Code)
    requires out.Valid() && Shape(d, src) && DescrOk(out.W, out.strict, d)
    modifies out`buffer, out`offset, out`bufend, out`start, out`chunks, out`flushes, out`npending, out.buffer, out.pending
    ensures out.Valid() && (out.buffer == old(out.buffer) || fresh(out.buffer))
    ensures (out.State(), code) == EncodeRun(out.W, out.strict, out.pending.Length, d, src, 0, old(out.State()))
    decreases d, 1
  {
    hide FieldRun, ShapeField, FieldIsDefault, KindOk, DescrOk, EncodeRun, AlwaysWritten, Delivered, IdMax;
    ghost var s0, D := out.State(), out.pending.Length;
    var i := 0;
    code := OK;
    while i < WalkCount(d, src) && code == OK
      invariant out.Valid() && (out.buffer == old(out.buffer) || fresh(out.buffer))
      invariant code == OK ==>
        EncodeRun(out.W, out.strict, D, d, src, 0, s0) == EncodeRun(out.W, out.strict, D, d, src, i, out.State())
      invariant code != OK ==> EncodeRun(out.W, out.strict, D, d, src, 0, s0) == (out.State(), code)
      decreases |d.fields| - i
    {
      EncodeStep(out.W, out.strict, D, d, src, i, out.State());
      if AlwaysWritten(d, src, i) || !FieldIsDefault(d, i, src) {
        code := EncodeMember(d.fields[i], src.kids[i], out);
      }
      i := i + 1;
    }
    if code == OK { EncodeDone(out.W, out.strict, D, d, src, i, out.State()); }
  }

  /**
   * An object sent through a sink: whatever buffers the sink installs and whatever it reserves in them, the units it
   * was handed, without the reserved fronts, are what was written before and then exactly the object's bytes. It
   * succeeds iff the decoder of the same descriptor would accept those bytes.
   */
  method SendObject(d: Descr, src: Obj, out: Ostream) returns (code: Code)
    requires out.Valid() && Shape(d, src) && DescrOk(out.W, out.strict, d) && out.sink.Sink?
    modifies out`buffer, out`offset, out`bufend, out`start, out`chunks, out`flushes, out`npending, out.buffer, out.pending
    ensures out.Valid() && (code == OK <==> Encodable(out.strict, d, src, 0))
    ensures Levels(d) <= MAX_DEPTH ==>
      (code == OK <==> DecodeObject(out.W, out.strict, d, src, Levels(d), [EncodeBytes(d, src)]).Some?)
    ensures code == OK ==>
      Delivered(out.chunks) == old(out.Log()) + (if EncodeObj(d, src) == [] then [] else Headers(old(out.State()).pending) + EncodeBytes(d, src))
  {
    hide EncodeRun, Encodable, DescrOk, EncodeFrom, Headers, SerFields, Delivered, Shape, DecodeObject, Levels;
    ghost var s := out.State();
    if Levels(d) <= MAX_DEPTH { OneChunk(out.W, out.strict, out.pending.Length, d, src, s); }
    assert Unbounded(s) == s;
    EncodeOnStream(out.W, out.strict, out.pending.Length, d, src, s);
    code := EncodeObject(d, src, out);
    var _ := out.Flush();
  }

  lemma JoinOne(b: seq<byte>)
    ensures Join([b]) == b
  {
    var rest: seq<seq<byte>> := [b][1..];
    assert Join(rest) == [] && b + [] == b;
  }

  lemma {:induction false} OneChunk(W: WordSize, strict: bool, D: nat, d: Descr, o: Obj, s: Sheet)
    requires DescrOk(W, strict, d) && Levels(d) <= MAX_DEPTH && Shape(d, o) && s.room.None?
    ensures EncodeRun(W, strict, D, d, o, 0, s).1 == OK <==> DecodeObject(W, strict, d, o, Levels(d), [EncodeBytes(d, o)]).Some?
  {
    hide EncodeRun, DescrOk, Shape, DecodeObject, EncodeBytes, Levels;
    var b := EncodeBytes(d, o);
    JoinOne(b);
    RefusedIffUndecodable(W, strict, D, d, o, o, Levels(d), s, [b]);
  }

  method EncodeMember(f: FieldDescr, src: Obj, out: Ostream) returns (code: Code)
    requires out.Valid() && ShapeField(f.kind, src) && KindOk(out.W, out.strict, f.kind)
    modifies out`buffer, out`offset, out`bufend, out`start, out`chunks, out`flushes, out`npending, out.buffer, out.pending
    ensures out.Valid() && (out.buffer == old(out.buffer) || fresh(out.buffer))
    ensures (out.State(), code) == FieldRun(out.W, out.strict, out.pending.Length, f, src, old(out.State()))
    decreases f, 0
  {
    hide Do, EncodeRun, FieldOp, EncodeCell;
    match f.kind {
      case KNested(nd) =>
        code := out.Begin(f.id);
        var inner := EncodeObject(nd, src, out);
        code := Or(code, inner);
        var close := out.End();
        code := Or(code, close);
      case _ => code := EncodeLeaf(f, src, out);
    }
  }

  method EncodeLeaf(f: FieldDescr, src: Obj, out: Ostream) returns (code: Code)
    requires out.Valid() && ShapeField(f.kind, src) && KindOk(out.W, out.strict, f.kind) && !f.kind.KNested?
    modifies out`buffer, out`offset, out`bufend, out`start, out`chunks, out`flushes, out`npending, out.buffer, out.pending
    ensures out.Valid() && (out.buffer == old(out.buffer) || fresh(out.buffer))
    ensures (out.State(), code) == FieldRun(out.W, out.strict, out.pending.Length, f, src, old(out.State()))
  {
    hide Do, FieldOp, Pow2, CStr, ValidText, Word, ZigZag, WireWords, TypeWord, Encode;
    match f.kind {
      case KInt(num, w) =>
        IntFits(out.W, w, src.buf);
        if num.Signed? {
          code := out.WriteSigned(f.id, Varint.Signed(Word(src.buf), w));
        } else {
          code := out.WriteUnsigned(f.id, Word(src.buf));
        }
      case KFloat(fp64) =>
        SmallFits(out.W, 64);
        SmallFits(out.W, 32);
        FixlenOp(out.W, f.id, if fp64 then FP64 else FP32, src.buf);
        code := out.WriteFixlen(f.id, src.buf, if fp64 then FP64 else FP32);
      case KText(size) =>
        code := EncodeText(f, src, out);
      case KBlob(cap, _) =>
        var n := UsedOf(f.kind, src);
        FixlenOp(out.W, f.id, BLOB, src.buf[..n]);
        code := out.WriteFixlen(f.id, src.buf[..n], BLOB);
      case KInts(num, w, cap, _) =>
        var n := UsedOf(f.kind, src);
        MulLess(n, cap, w);
        code := out.WriteVarintArray(f.id, src.buf, n, w, num.Signed?);
      case KFloats(fp64, cap, _) =>
        var n := UsedOf(f.kind, src);
        MulLess(n, cap, FloatWidth(fp64));
        code := out.WriteFixlenArray(f.id, src.buf[..n * FloatWidth(fp64)], n, fp64);
    }
  }

  /** A text: its length is read bounded by the member, and one that fills the member is refused. */
  method EncodeText(f: FieldDescr, src: Obj, out: Ostream) returns (code: Code)
    requires out.Valid() && ShapeField(f.kind, src) && KindOk(out.W, out.strict, f.kind) && f.kind.KText?
    modifies out`buffer, out`offset, out`bufend, out`start, out`chunks, out`flushes, out`npending, out.buffer, out.pending
    ensures out.Valid() && (out.buffer == old(out.buffer) || fresh(out.buffer))
    ensures (out.State(), code) == FieldRun(out.W, out.strict, out.pending.Length, f, src, old(out.State()))
    ensures (forall j :: 0 <= j < |src.buf| ==> src.buf[j] != 0) ==> code == ARGUMENT && out.State() == old(out.State())
  {
    hide Do, FieldOp, Pow2, CStr, ValidText, TypeWord, Encode, TextRefused;
    RefusedTexts(out.strict, f.kind, src);
    var len := TextLength(src.buf);
    if len == |src.buf| {
      return ARGUMENT;
    }
    FixlenOp(out.W, f.id, STRING, src.buf[..len]);
    code := out.WriteFixlen(f.id, src.buf[..len], STRING);
  }

  /** Bytes before the first zero, all of them when there is none. */
  method TextLength(buf: seq<byte>) returns (len: nat)
    ensures len == |CStr(buf)|
  {
    len := 0;
    while len < |buf| && buf[len] != 0
      invariant len <= |buf|
      invariant |CStr(buf)| == len + |CStr(buf[len..])|
    {
      assert buf[len..][1..] == buf[len + 1..];
      len := len + 1;
    }
  }
}

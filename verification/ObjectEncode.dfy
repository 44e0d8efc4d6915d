/** sofab_object_encode as it runs on a stream, errors included, and what it leaves on the wire. */
module ObjectEncode {
  import opened Bytes
  import opened Varint
  import opened Wire
  import opened Utf8
  import opened Decoder
  import opened Object
  import opened ObjectDecode
  import opened ObjectRoundTrip
  import opened ObjectTheorems
  import opened ObjectBytes
  import opened Output

  /** Bitwise or of two return codes (0, 2 and 3). */
  function Or(a: Code, b: Code): Code
  {
    if a == OK then b else if b == OK || a == b then a else FULL
  }

  /** The number of a return code. */
  function Number(c: Code): bv2
  {
    match c
    case OK => 0
    case ARGUMENT => 2
    case FULL => 3
  }

  lemma OrIsBitwise(a: Code, b: Code)
    ensures Number(Or(a, b)) == Number(a) | Number(b)
  {
  }

  /** A text the encoder refuses: no terminator inside its member, or invalid where that is checked. */
  predicate TextRefused(strict: bool, k: Kind, o: Obj)
  {
    k.KText? && o.Cell? && (|CStr(o.buf)| == |o.buf| || (strict && !ValidText(CStr(o.buf))))
  }

  /** One member: a sequence is framed, filled and closed whatever happens in between. */
  ghost function FieldRun(W: WordSize, strict: bool, D: nat, f: FieldDescr, o: Obj, s: Sheet): (Sheet, Code)
    requires ShapeField(f.kind, o)
    decreases f, 0, 0
  {
    match f.kind
    case KNested(nd) =>
      var (s1, c1) := Do(W, D, s, Open(f.id));
      var (s2, c2) := EncodeRun(W, strict, D, nd, o, 0, s1);
      var (s3, c3) := Do(W, D, s2, Close);
      (s3, Or(Or(c1, c2), c3))
    case k => if TextRefused(strict, k, o) then (s, ARGUMENT) else Do(W, D, s, FieldOp(Leaf(f.id, EncodeCell(k, o))))
  }

  /** The members from i on, up to the first that fails. */
  ghost function EncodeRun(W: WordSize, strict: bool, D: nat, d: Descr, o: Obj, i: nat, s: Sheet): (Sheet, Code)
    requires Shape(d, o)
    decreases d, 1, |d.fields| - i
  {
    if i >= WalkCount(d, o) then (s, OK)
    else if !AlwaysWritten(d, o, i) && FieldIsDefault(d, i, o) then EncodeRun(W, strict, D, d, o, i + 1, s)
    else
      var (t, code) := FieldRun(W, strict, D, d.fields[i], o.kids[i], s);
      if code == OK then EncodeRun(W, strict, D, d, o, i + 1, t) else (t, code)
  }

  /** One member of the encode run. */
  lemma {:induction false} EncodeStep(W: WordSize, strict: bool, D: nat, d: Descr, o: Obj, i: nat, s: Sheet)
    requires Shape(d, o) && DescrOk(W, strict, d) && i < WalkCount(d, o)
    ensures ShapeField(d.fields[i].kind, o.kids[i]) && KindOk(W, strict, d.fields[i].kind)
    ensures EncodeRun(W, strict, D, d, o, i, s)
      == if !AlwaysWritten(d, o, i) && FieldIsDefault(d, i, o) then EncodeRun(W, strict, D, d, o, i + 1, s)
         else
           var (t, code) := FieldRun(W, strict, D, d.fields[i], o.kids[i], s);
           if code == OK then EncodeRun(W, strict, D, d, o, i + 1, t) else (t, code)
  {
    hide FieldRun, ShapeField, FieldIsDefault, KindOk, AlwaysWritten;
  }

  lemma {:induction false} EncodeDone(W: WordSize, strict: bool, D: nat, d: Descr, o: Obj, i: nat, s: Sheet)
    requires Shape(d, o) && i >= WalkCount(d, o)
    ensures EncodeRun(W, strict, D, d, o, i, s) == (s, OK)
  {
  }

  // ---------------------------------------------------------------- objects that can be encoded

  ghost predicate EncodableField(strict: bool, k: Kind, o: Obj)
    requires ShapeField(k, o)
    decreases k, 0
  {
    match k
    case KNested(nd) => Encodable(strict, nd, o, 0)
    case _ => !TextRefused(strict, k, o)
  }

  /** No text that would be written is refused. */
  ghost predicate Encodable(strict: bool, d: Descr, o: Obj, i: nat)
    requires Shape(d, o)
    decreases d, 1, |d.fields| - i
  {
    if i >= WalkCount(d, o) then true
    else (AlwaysWritten(d, o, i) || !FieldIsDefault(d, i, o) ==> EncodableField(strict, d.fields[i].kind, o.kids[i])) && Encodable(strict, d, o, i + 1)
  }

  lemma {:induction false} EncodableStep(strict: bool, d: Descr, o: Obj, i: nat)
    requires Shape(d, o) && i < WalkCount(d, o)
    ensures ShapeField(d.fields[i].kind, o.kids[i])
    ensures Encodable(strict, d, o, i)
      <==> (AlwaysWritten(d, o, i) || !FieldIsDefault(d, i, o) ==> EncodableField(strict, d.fields[i].kind, o.kids[i])) && Encodable(strict, d, o, i + 1)
  {
    hide FieldIsDefault, EncodableField, ShapeField;
  }

  /** Every sane object can be encoded. */
  lemma {:induction false} SaneIsEncodable(W: WordSize, strict: bool, d: Descr, o: Obj, i: nat)
    requires DescrOk(W, strict, d) && Sane(strict, false, d, o)
    ensures Encodable(strict, d, o, i)
    decreases d, 1, |d.fields| - i
  {
    hide FieldIsDefault, KindOk, SaneField, ShapeField;
    if i < WalkCount(d, o) {
      SaneIsEncodable(W, strict, d, o, i + 1);
      if AlwaysWritten(d, o, i) || !FieldIsDefault(d, i, o) {
        WrittenIsSane(strict, d, o, i);
        assert ShapeField(d.fields[i].kind, o.kids[i]) && KindOk(W, strict, d.fields[i].kind);
        SaneFieldIsEncodable(W, strict, d.fields[i].kind, o.kids[i]);
      }
    }
  }

  lemma {:induction false} SaneFieldIsEncodable(W: WordSize, strict: bool, k: Kind, o: Obj)
    requires KindOk(W, strict, k) && SaneField(strict, false, k, o) && ShapeField(k, o)
    ensures EncodableField(strict, k, o)
    decreases k, 0
  {
    match k {
      case KNested(nd) => SaneIsEncodable(W, strict, nd, o, 0);
      case _ => hide ValidText, CStr;
    }
  }

  // ---------------------------------------------------------------- with unlimited room

  /** What stands on the wire behind held-back headers once the fields are written. */
  function After(s: Sheet, fs: seq<Field>): Sheet
  {
    if fs == [] then s else Sheet(s.log + Headers(s.pending) + SerFields(fs), None, [])
  }

  lemma EmitFree(s: Sheet, bs: seq<byte>)
    requires s.room.None?
    ensures Emit(s, bs) == (Sheet(s.log + Headers(s.pending) + bs, None, []), OK)
  {
    hide Commit, Headers;
    CommitFree(s);
  }

  lemma NoHeaders()
    ensures Headers([]) == []
  {
  }

  lemma {:induction false} SerCons(f: Field, fs: seq<Field>)
    ensures SerFields([f] + fs) == SerField(f) + SerFields(fs)
  {
    hide SerField;
    assert ([f] + fs)[1..] == fs;
  }

  lemma SerNothing()
    ensures SerFields([]) == []
  {
  }

  lemma OpenIsOk(W: WordSize, D: nat, s: Sheet, id: nat)
    requires s.room.None? && id <= IdMax(W)
    ensures var (t, code) := Do(W, D, s, Open(id)); code == OK && t.room.None? && t.pending == [] && s.log <= t.log
  {
    hide Emit, Header, Headers, IdMax;
    EmitFree(s, Header(id, BEGIN));
  }

  lemma CloseIsOk(W: WordSize, D: nat, s: Sheet)
    requires s.room.None?
    ensures var (t, code) := Do(W, D, s, Close); code == OK && t.room.None? && s.log <= t.log
  {
    hide Emit, Header, Headers;
    EmitFree(s, Header(0, END));
  }

  /** A frame opened, filled with fields and closed. */
  lemma FramedBytes(W: WordSize, D: nat, s: Sheet, id: nat, fs: seq<Field>)
    requires s.room.None? && id <= IdMax(W)
    ensures Do(W, D, After(Do(W, D, s, Open(id)).0, fs), Close).0
      == Sheet(s.log + Headers(s.pending) + SerField(Group(id, fs)), None, [])
  {
    hide Emit, Header, Headers, SerFields, IdMax;
    EmitFree(s, Header(id, BEGIN));
    NoHeaders();
    SerNothing();
    var s1 := Do(W, D, s, Open(id)).0;
    assert s1.log + [] + SerFields(fs) == s1.log + SerFields(fs) && s1.log + [] == s1.log;
    var s2 := After(s1, fs);
    assert s2 == Sheet(s1.log + SerFields(fs), None, []);
    EmitFree(s2, Header(0, END));
    assert s2.log + [] + Header(0, END) == s.log + Headers(s.pending) + (Header(id, BEGIN) + (SerFields(fs) + Header(0, END)));
  }

  /** One member with unlimited room: its bytes behind the headers, or the refusal of a text. */
  lemma {:induction false} FieldFree(W: WordSize, strict: bool, D: nat, f: FieldDescr, o: Obj, s: Sheet)
    requires ShapeField(f.kind, o) && KindOk(W, strict, f.kind) && f.id <= IdMax(W) && s.room.None?
    ensures var (t, code) := FieldRun(W, strict, D, f, o, s);
      && t.room.None? && s.log <= t.log
      && (EncodableField(strict, f.kind, o) ==> code == OK && t == Sheet(s.log + Headers(s.pending) + SerField(EncodeField(f, o)), None, []))
      && (!EncodableField(strict, f.kind, o) ==> code == ARGUMENT)
    decreases f, 0, 0
  {
    hide Emit, Header, Headers, EncodeCell, SerValue, SerFields, TextRefused, IdMax;
    match f.kind {
      case KNested(nd) =>
        hide Do, After;
        OpenIsOk(W, D, s, f.id);
        var s1 := Do(W, D, s, Open(f.id)).0;
        RunFree(W, strict, D, nd, o, 0, s1);
        var s2 := EncodeRun(W, strict, D, nd, o, 0, s1).0;
        CloseIsOk(W, D, s2);
        FramedBytes(W, D, s, f.id, EncodeFrom(nd, o, 0));
      case _ => LeafFree(W, strict, D, f, o, s);
    }
  }

  lemma {:induction false} LeafFree(W: WordSize, strict: bool, D: nat, f: FieldDescr, o: Obj, s: Sheet)
    requires ShapeField(f.kind, o) && !f.kind.KNested? && f.id <= IdMax(W) && s.room.None?
    ensures var (t, code) := FieldRun(W, strict, D, f, o, s);
      && t.room.None? && s.log <= t.log
      && (EncodableField(strict, f.kind, o) ==> code == OK && t == Sheet(s.log + Headers(s.pending) + SerField(EncodeField(f, o)), None, []))
      && (!EncodableField(strict, f.kind, o) ==> code == ARGUMENT)
  {
    hide Emit, Header, Headers, EncodeCell, SerValue, TypeOf, TextRefused, IdMax;
    if !TextRefused(strict, f.kind, o) {
      var v := EncodeCell(f.kind, o);
      EmitFree(s, Header(f.id, TypeOf(v)) + SerValue(v));
    }
  }

  /** The members with unlimited room: the encoding, or a refused text; never "buffer full". */
  lemma {:induction false} RunFree(W: WordSize, strict: bool, D: nat, d: Descr, o: Obj, i: nat, s: Sheet)
    requires Shape(d, o) && DescrOk(W, strict, d) && s.room.None?
    ensures var (t, code) := EncodeRun(W, strict, D, d, o, i, s);
      && t.room.None? && s.log <= t.log && (s.pending == [] ==> t.pending == [])
      && (Encodable(strict, d, o, i) ==> code == OK && t == After(s, EncodeFrom(d, o, i)))
      && (!Encodable(strict, d, o, i) ==> code == ARGUMENT)
    decreases d, 1, |d.fields| - i
  {
    hide FieldRun, FieldIsDefault, EncodeField, EncodableField, KindOk, ShapeField, Headers, SerField, SerFields, IdMax;
    if i < WalkCount(d, o) {
      var f := d.fields[i];
      assert ShapeField(f.kind, o.kids[i]) && KindOk(W, strict, f.kind) && f.id <= IdMax(W);
      if AlwaysWritten(d, o, i) || !FieldIsDefault(d, i, o) {
        FieldFree(W, strict, D, f, o.kids[i], s);
        FieldKeepsNone(W, strict, D, f, o.kids[i], s);
        var (t, code) := FieldRun(W, strict, D, f, o.kids[i], s);
        if code == OK {
          RunFree(W, strict, D, d, o, i + 1, t);
          if Encodable(strict, d, o, i + 1) {
            AfterCons(s, t, EncodeField(f, o.kids[i]), EncodeFrom(d, o, i + 1));
          }
        }
      } else {
        RunFree(W, strict, D, d, o, i + 1, s);
      }
    }
  }

  lemma {:induction false} AfterCons(s: Sheet, t: Sheet, f: Field, fs: seq<Field>)
    requires t == Sheet(s.log + Headers(s.pending) + SerField(f), None, [])
    ensures After(t, fs) == After(s, [f] + fs)
  {
    hide Headers, SerField, SerFields;
    NoHeaders();
    SerNothing();
    SerCons(f, fs);
    assert t.log + [] + SerFields(fs) == s.log + Headers(s.pending) + (SerField(f) + SerFields(fs));
    assert SerField(f) + [] == SerField(f);
  }

  lemma {:induction false} CommitNothing(s: Sheet)
    requires s.pending == []
    ensures Commit(s) == (s, true)
  {
  }

  lemma DoKeepsNone(W: WordSize, D: nat, s: Sheet, op: Op)
    requires s.pending == [] && !op.OpenLazy?
    ensures Do(W, D, s, op).0.pending == []
  {
    hide Commit, Header;
    CommitNothing(s);
  }

  lemma {:induction false} FieldKeepsNone(W: WordSize, strict: bool, D: nat, f: FieldDescr, o: Obj, s: Sheet)
    requires ShapeField(f.kind, o)
    ensures s.pending == [] ==> FieldRun(W, strict, D, f, o, s).0.pending == []
    decreases f, 0, 0
  {
    hide Do, EncodeCell, TextRefused;
    if s.pending == [] {
      match f.kind {
        case KNested(nd) =>
          DoKeepsNone(W, D, s, Open(f.id));
          var s1 := Do(W, D, s, Open(f.id)).0;
          RunKeepsNone(W, strict, D, nd, o, 0, s1);
          DoKeepsNone(W, D, EncodeRun(W, strict, D, nd, o, 0, s1).0, Close);
        case k =>
          DoKeepsNone(W, D, s, FieldOp(Leaf(f.id, EncodeCell(k, o))));
      }
    }
  }

  lemma {:induction false} RunKeepsNone(W: WordSize, strict: bool, D: nat, d: Descr, o: Obj, i: nat, s: Sheet)
    requires Shape(d, o)
    ensures s.pending == [] ==> EncodeRun(W, strict, D, d, o, i, s).0.pending == []
    decreases d, 1, |d.fields| - i
  {
    hide FieldRun, FieldIsDefault, ShapeField;
    if i < WalkCount(d, o) {
      assert ShapeField(d.fields[i].kind, o.kids[i]);
      FieldKeepsNone(W, strict, D, d.fields[i], o.kids[i], s);
      RunKeepsNone(W, strict, D, d, o, i + 1, s);
      RunKeepsNone(W, strict, D, d, o, i + 1, FieldRun(W, strict, D, d.fields[i], o.kids[i], s).0);
    }
  }

  // ---------------------------------------------------------------- with limited room

  /** A full buffer takes nothing more. */
  ghost predicate Stuck(s: Sheet, t: Sheet, code: Code)
  {
    t.log == s.log && t.room == Some(0) && code != ARGUMENT
  }

  lemma NonEmptyHeader(id: nat, ty: nat)
    ensures |Header(id, ty)| >= 1
  {
  }

  lemma AppendStuck(s: Sheet, bs: seq<byte>)
    requires s.room == Some(0)
    ensures Append(s, bs).0.log == s.log && Append(s, bs).0.room == Some(0)
  {
    assert s.log + bs[..0] == s.log;
    if bs == [] { assert s.log + bs == s.log; }
  }

  lemma {:induction false} CommitStuck(s: Sheet)
    requires s.room == Some(0)
    ensures Commit(s).0.log == s.log && Commit(s).0.room == Some(0)
  {
    hide Header;
    if s.pending != [] {
      NonEmptyHeader(s.pending[0], BEGIN);
      AppendStuck(s, Header(s.pending[0], BEGIN));
    }
  }

  lemma DoStuck(W: WordSize, D: nat, s: Sheet, op: Op)
    requires s.room == Some(0) && (op.Close? || op.CloseKeep? || op.id <= IdMax(W))
    ensures Stuck(s, Do(W, D, s, op).0, Do(W, D, s, op).1)
  {
    hide Commit, Append, Header, IdMax;
    CommitStuck(s);
    var t := Commit(s).0;
    match op
    case Content(id, ty, payload) => AppendStuck(t, Header(id, ty) + payload);
    case Open(id) => AppendStuck(t, Header(id, BEGIN));
    case OpenLazy(id) => AppendStuck(t, Header(id, BEGIN));
    case _ => AppendStuck(t, Header(0, END));
  }

  lemma {:induction false} FieldStuck(W: WordSize, strict: bool, D: nat, f: FieldDescr, o: Obj, s: Sheet)
    requires ShapeField(f.kind, o) && KindOk(W, strict, f.kind) && f.id <= IdMax(W) && s.room == Some(0) && EncodableField(strict, f.kind, o)
    ensures Stuck(s, FieldRun(W, strict, D, f, o, s).0, FieldRun(W, strict, D, f, o, s).1)
    decreases f, 0, 0
  {
    hide Do, EncodeCell, TextRefused, IdMax;
    match f.kind {
      case KNested(nd) =>
        DoStuck(W, D, s, Open(f.id));
        var s1 := Do(W, D, s, Open(f.id)).0;
        RunStuck(W, strict, D, nd, o, 0, s1);
        DoStuck(W, D, EncodeRun(W, strict, D, nd, o, 0, s1).0, Close);
      case k =>
        DoStuck(W, D, s, FieldOp(Leaf(f.id, EncodeCell(k, o))));
    }
  }

  lemma {:induction false} RunStuck(W: WordSize, strict: bool, D: nat, d: Descr, o: Obj, i: nat, s: Sheet)
    requires Shape(d, o) && DescrOk(W, strict, d) && s.room == Some(0) && Encodable(strict, d, o, i)
    ensures Stuck(s, EncodeRun(W, strict, D, d, o, i, s).0, EncodeRun(W, strict, D, d, o, i, s).1)
    decreases d, 1, |d.fields| - i
  {
    hide FieldRun, FieldIsDefault, EncodableField, KindOk, ShapeField, IdMax;
    if i < WalkCount(d, o) {
      var f := d.fields[i];
      assert ShapeField(f.kind, o.kids[i]) && KindOk(W, strict, f.kind) && f.id <= IdMax(W);
      if AlwaysWritten(d, o, i) || !FieldIsDefault(d, i, o) {
        FieldStuck(W, strict, D, f, o.kids[i], s);
        var (t, code) := FieldRun(W, strict, D, f, o.kids[i], s);
        RunStuck(W, strict, D, d, o, i + 1, t);
      } else {
        RunStuck(W, strict, D, d, o, i + 1, s);
      }
    }
  }

  /** The second part goes on where the first ended, or writes nothing more into a full buffer. */
  lemma ThenCutOff(s: Sheet, t: Sheet, c: Code, u: Sheet, t2: Sheet, c2: Code, u2: Sheet)
    requires s.room.Some? && CutOff(s, t, c, u, OK) && u.log <= u2.log
    requires if c == OK then t.room.Some? && CutOff(t, t2, c2, u2, OK) else Stuck(t, t2, c2)
    ensures CutOff(s, t2, Or(c, c2), u2, OK)
  {
    if c == OK {
      CutOffChain(s, t, u, t2, c2, u2, OK);
    } else {
      CutOffEarly(s, t, u, u2, OK);
    }
  }

  lemma {:induction false} FieldCutOff(W: WordSize, strict: bool, D: nat, f: FieldDescr, o: Obj, s: Sheet)
    requires ShapeField(f.kind, o) && KindOk(W, strict, f.kind) && f.id <= IdMax(W) && s.room.Some? && EncodableField(strict, f.kind, o)
    ensures CutOff(s, FieldRun(W, strict, D, f, o, s).0, FieldRun(W, strict, D, f, o, s).1, FieldRun(W, strict, D, f, o, Unbounded(s)).0, OK)
    decreases f, 0, 0
  {
    hide Do, EncodeCell, TextRefused, IdMax, CutOff, Or;
    var u := Unbounded(s);
    FieldFree(W, strict, D, f, o, u);
    match f.kind {
      case KNested(nd) =>
        DoCutOff(W, D, s, Open(f.id));
        OpenIsOk(W, D, u, f.id);
        var (t1, c1) := Do(W, D, s, Open(f.id));
        var u1 := Do(W, D, u, Open(f.id)).0;
        CutOffOutcome(s, t1, c1, u1, OK);
        RunFree(W, strict, D, nd, o, 0, u1);
        var (t2, c2) := EncodeRun(W, strict, D, nd, o, 0, t1);
        var u2 := EncodeRun(W, strict, D, nd, o, 0, u1).0;
        if c1 == OK {
          CutOffFits(s, t1, u1);
          RunCut(W, strict, D, nd, o, 0, t1);
        } else {
          FullIsStuck(s, t1, u1);
          RunStuck(W, strict, D, nd, o, 0, t1);
        }
        ThenCutOff(s, t1, c1, u1, t2, c2, u2);
        var (t3, c3) := Do(W, D, t2, Close);
        var u3 := Do(W, D, u2, Close).0;
        CloseIsOk(W, D, u2);
        CutOffOutcome(s, t2, Or(c1, c2), u2, OK);
        if Or(c1, c2) == OK {
          CutOffFits(s, t2, u2);
          DoCutOff(W, D, t2, Close);
        } else {
          FullIsStuck(s, t2, u2);
          DoStuck(W, D, t2, Close);
        }
        ThenCutOff(s, t2, Or(c1, c2), u2, t3, c3, u3);
      case k =>
        DoCutOff(W, D, s, FieldOp(Leaf(f.id, EncodeCell(k, o))));
    }
  }

  lemma FullIsStuck(s: Sheet, t: Sheet, u: Sheet)
    requires s.room.Some? && CutOff(s, t, FULL, u, OK)
    ensures t.room == Some(0)
  {
  }

  lemma {:induction false} RunCut(W: WordSize, strict: bool, D: nat, d: Descr, o: Obj, i: nat, s: Sheet)
    requires Shape(d, o) && DescrOk(W, strict, d) && s.room.Some? && Encodable(strict, d, o, i)
    ensures CutOff(s, EncodeRun(W, strict, D, d, o, i, s).0, EncodeRun(W, strict, D, d, o, i, s).1,
                   EncodeRun(W, strict, D, d, o, i, Unbounded(s)).0, OK)
    decreases d, 1, |d.fields| - i
  {
    hide FieldRun, FieldIsDefault, EncodableField, KindOk, ShapeField, IdMax, CutOff, EncodeRun, Encodable, AlwaysWritten;
    if i >= WalkCount(d, o) {
      EncodeDone(W, strict, D, d, o, i, s);
      EncodeDone(W, strict, D, d, o, i, Unbounded(s));
      SameCutOff(s, OK);
    } else {
      var f := d.fields[i];
      EncodeStep(W, strict, D, d, o, i, s);
      EncodeStep(W, strict, D, d, o, i, Unbounded(s));
      EncodableStep(strict, d, o, i);
      assert f.id <= IdMax(W);
      if AlwaysWritten(d, o, i) || !FieldIsDefault(d, i, o) {
        FieldCutOff(W, strict, D, f, o.kids[i], s);
        FieldFree(W, strict, D, f, o.kids[i], Unbounded(s));
        var (t, code) := FieldRun(W, strict, D, f, o.kids[i], s);
        var u := FieldRun(W, strict, D, f, o.kids[i], Unbounded(s)).0;
        CutOffOutcome(s, t, code, u, OK);
        RunFree(W, strict, D, d, o, i + 1, u);
        var u2 := EncodeRun(W, strict, D, d, o, i + 1, u).0;
        if code == OK {
          CutOffFits(s, t, u);
          RunCut(W, strict, D, d, o, i + 1, t);
          CutOffChain(s, t, u, EncodeRun(W, strict, D, d, o, i + 1, t).0, EncodeRun(W, strict, D, d, o, i + 1, t).1, u2, OK);
        } else {
          CutOffEarly(s, t, u, u2, OK);
        }
      } else {
        RunCut(W, strict, D, d, o, i + 1, s);
      }
    }
  }

  /**
   * Encoding an object onto a stream: with a sink it succeeds iff no text that would be written is refused, and
   * then puts held-back headers and the object's fields on the wire (nothing at all for an object without any);
   * without a sink, an object with no refused text is written whole iff that fits the room, and else cut off there
   * with "buffer full".
   */
  lemma {:induction false} EncodeOnStream(W: WordSize, strict: bool, D: nat, d: Descr, o: Obj, s: Sheet)
    requires Shape(d, o) && DescrOk(W, strict, d)
    ensures var (u, free) := EncodeRun(W, strict, D, d, o, 0, Unbounded(s));
      && (free == OK <==> Encodable(strict, d, o, 0))
      && (free == OK ==> u == After(Unbounded(s), EncodeObj(d, o)))
      && (s.room.Some? && free == OK ==> CutOff(s, EncodeRun(W, strict, D, d, o, 0, s).0, EncodeRun(W, strict, D, d, o, 0, s).1, u, OK))
  {
    hide EncodeRun, Encodable, DescrOk, EncodeFrom, CutOff;
    RunFree(W, strict, D, d, o, 0, Unbounded(s));
    if s.room.Some? && Encodable(strict, d, o, 0) { RunCut(W, strict, D, d, o, 0, s); }
  }

  // ---------------------------------------------------------------- held-back headers and a full buffer

  /** How many sequences open, one inside the other, before the first leaf is written. */
  ghost function SequencesFirst(d: Descr, o: Obj, i: nat): nat
    requires Shape(d, o)
    decreases d, |d.fields| - i
  {
    if i >= WalkCount(d, o) then 0
    else if !AlwaysWritten(d, o, i) && FieldIsDefault(d, i, o) then SequencesFirst(d, o, i + 1)
    else
      assert ShapeField(d.fields[i].kind, o.kids[i]);
      match d.fields[i].kind
      case KNested(nd) => 1 + SequencesFirst(nd, o.kids[i], 0)
      case _ => 0
  }

  /** A run without its innermost k ids. */
  function WithoutLast(ids: seq<nat>, k: nat): seq<nat>
  {
    if k <= |ids| then ids[..|ids| - k] else []
  }

  lemma {:induction false} WithoutSteps(ids: seq<nat>, k: nat)
    ensures WithoutLast(ids, 0) == ids
    ensures WithoutLast(WithoutLast(ids, k), 1) == WithoutLast(ids, 1 + k)
  {
  }

  /** Into a full buffer no header goes: a begin or a leaf keeps the run, an end drops its innermost id. */
  lemma {:induction false} StuckPending(W: WordSize, D: nat, s: Sheet, op: Op)
    requires s.room == Some(0) && !op.OpenLazy? && (op.Content? || op.Open? ==> op.id <= IdMax(W))
    ensures var (t, code) := Do(W, D, s, op);
      && t.room == Some(0)
      && (op.Close? ==> t.pending == WithoutLast(s.pending, 1))
      && (!op.Close? ==> t.pending == s.pending && code == FULL)
  {
    hide Header, IdMax;
    if s.pending != [] { NonEmptyHeader(s.pending[0], BEGIN); }
    NonEmptyHeader(0, END);
    if op.Content? { NonEmptyHeader(op.id, op.ty); }
    if op.Open? { NonEmptyHeader(op.id, BEGIN); }
  }

  lemma {:induction false} StuckFieldPending(W: WordSize, strict: bool, D: nat, f: FieldDescr, o: Obj, s: Sheet)
    requires ShapeField(f.kind, o) && KindOk(W, strict, f.kind) && f.id <= IdMax(W) && s.room == Some(0) && EncodableField(strict, f.kind, o)
    ensures var (t, code) := FieldRun(W, strict, D, f, o, s);
      code == FULL && t.pending == WithoutLast(s.pending, if f.kind.KNested? then 1 + SequencesFirst(f.kind.descr, o, 0) else 0)
    decreases f, 0, 0
  {
    hide Do, EncodeCell, TextRefused, IdMax, EncodeRun, SequencesFirst, WithoutLast, Encodable;
    WithoutSteps(s.pending, 0);
    match f.kind {
      case KNested(nd) =>
        StuckPending(W, D, s, Open(f.id));
        var s1 := Do(W, D, s, Open(f.id)).0;
        StuckRunPending(W, strict, D, nd, o, 0, s1);
        RunStuck(W, strict, D, nd, o, 0, s1);
        StuckPending(W, D, EncodeRun(W, strict, D, nd, o, 0, s1).0, Close);
        WithoutSteps(s.pending, SequencesFirst(nd, o, 0));
      case k =>
        StuckPending(W, D, s, FieldOp(Leaf(f.id, EncodeCell(k, o))));
    }
  }

  lemma {:induction false} StuckRunPending(W: WordSize, strict: bool, D: nat, d: Descr, o: Obj, i: nat, s: Sheet)
    requires Shape(d, o) && DescrOk(W, strict, d) && s.room == Some(0) && Encodable(strict, d, o, i)
    ensures EncodeRun(W, strict, D, d, o, i, s).0.pending == WithoutLast(s.pending, SequencesFirst(d, o, i))
    decreases d, 1, |d.fields| - i
  {
    hide FieldRun, FieldIsDefault, EncodableField, KindOk, ShapeField, IdMax;
    if i < WalkCount(d, o) {
      var f := d.fields[i];
      assert ShapeField(f.kind, o.kids[i]) && KindOk(W, strict, f.kind) && f.id <= IdMax(W);
      if AlwaysWritten(d, o, i) || !FieldIsDefault(d, i, o) {
        StuckFieldPending(W, strict, D, f, o.kids[i], s);
      } else {
        StuckRunPending(W, strict, D, d, o, i + 1, s);
      }
    }
  }

  /** Where the held-back run does not fit, the first member written finds the buffer full. */
  lemma {:induction false} BlockedRun(W: WordSize, strict: bool, D: nat, d: Descr, o: Obj, i: nat, s: Sheet)
    requires Shape(d, o) && DescrOk(W, strict, d) && Encodable(strict, d, o, i) && !Commit(s).1
    ensures var (t, code) := EncodeRun(W, strict, D, d, o, i, s);
      if EncodeFrom(d, o, i) == [] then t == s && code == OK
      else code == FULL && t.pending == WithoutLast(Commit(s).0.pending, SequencesFirst(d, o, i))
    decreases |d.fields| - i
  {
    hide FieldIsDefault, EncodableField, KindOk, ShapeField, IdMax, Commit, EncodeField, FieldRun;
    if i < WalkCount(d, o) {
      var f := d.fields[i];
      assert ShapeField(f.kind, o.kids[i]) && KindOk(W, strict, f.kind) && f.id <= IdMax(W);
      if AlwaysWritten(d, o, i) || !FieldIsDefault(d, i, o) {
        BlockedField(W, strict, D, f, o.kids[i], s);
      } else {
        BlockedRun(W, strict, D, d, o, i + 1, s);
      }
    }
  }

  lemma {:induction false} BlockedField(W: WordSize, strict: bool, D: nat, f: FieldDescr, o: Obj, s: Sheet)
    requires ShapeField(f.kind, o) && KindOk(W, strict, f.kind) && f.id <= IdMax(W) && EncodableField(strict, f.kind, o) && !Commit(s).1
    ensures var (t, code) := FieldRun(W, strict, D, f, o, s);
      && code == FULL
      && t.pending == WithoutLast(Commit(s).0.pending, if f.kind.KNested? then 1 + SequencesFirst(f.kind.descr, o, 0) else 0)
  {
    hide EncodeCell, TextRefused, IdMax, Commit, Encodable, Do, EncodeRun, SequencesFirst, WithoutLast;
    var t := Commit(s).0;
    CommitBlocked(s);
    WithoutSteps(t.pending, 0);
    match f.kind {
      case KNested(nd) =>
        BlockedDo(W, D, s, Open(f.id));
        StuckRunPending(W, strict, D, nd, o, 0, t);
        RunStuck(W, strict, D, nd, o, 0, t);
        StuckPending(W, D, EncodeRun(W, strict, D, nd, o, 0, t).0, Close);
        WithoutSteps(t.pending, SequencesFirst(nd, o, 0));
      case k =>
        BlockedDo(W, D, s, FieldOp(Leaf(f.id, EncodeCell(k, o))));
    }
  }

  lemma {:induction false} BlockedDo(W: WordSize, D: nat, s: Sheet, op: Op)
    requires !Commit(s).1 && (op.Content? || op.Open?) && op.id <= IdMax(W)
    ensures Do(W, D, s, op) == (Commit(s).0, FULL)
  {
    hide Commit, Header, IdMax;
  }

  lemma {:induction false} CommitBlocked(s: Sheet)
    requires !Commit(s).1
    ensures Commit(s).0.room == Some(0) && Commit(s).0.pending != []
    decreases |s.pending|
  {
    hide Header;
    if s.pending != [] {
      var (t, ok) := Append(s, Header(s.pending[0], BEGIN));
      if ok { CommitBlocked(t.(pending := t.pending[1..])); }
    }
  }

  /**
   * A commit that does not fit keeps the headers it could not write, so that a retry into a fresh buffer stays
   * balanced. An object encode that meets such a commit keeps them iff the first thing it writes is a leaf: when
   * that is a sequence, the end it goes on to call after the failed begin erases a header that is not its own.
   */
  lemma {:induction false} FullBufferKeepsHeaders(W: WordSize, strict: bool, D: nat, d: Descr, o: Obj, s: Sheet)
    requires Shape(d, o) && DescrOk(W, strict, d) && Encodable(strict, d, o, 0) && !Commit(s).1 && EncodeObj(d, o) != []
    ensures var (t, code) := EncodeRun(W, strict, D, d, o, 0, s);
      && code == FULL
      && (t.pending == Commit(s).0.pending <==> SequencesFirst(d, o, 0) == 0)
  {
    hide EncodeRun, Commit, Encodable, DescrOk, SequencesFirst, EncodeFrom;
    BlockedRun(W, strict, D, d, o, 0, s);
    CommitBlocked(s);
    var p := Commit(s).0.pending;
    assert WithoutLast(p, 0) == p;
  }

  /** The failing input: one header held back, no room, and a struct whose one member is a struct of one non-zero byte. */
  lemma {:induction false} FullBufferDropsHeader(strict: bool)
    ensures var inner := Descr(Struct, [FieldDescr(0, 0, KInt(Unsigned, 1))], None);
      var d := Descr(Struct, [FieldDescr(1, 0, KNested(inner))], None);
      var o, s := Node(0, [Node(0, [Cell(0, [5])])]), Sheet([], Some(0), [7]);
      && Shape(d, o) && Commit(s) == (s, false)
      && EncodeRun(64, strict, 8, d, o, 0, s) == (s.(pending := []), FULL)
  {
    hide Header, IdMax;
    var inner := Descr(Struct, [FieldDescr(0, 0, KInt(Unsigned, 1))], None);
    var d := Descr(Struct, [FieldDescr(1, 0, KNested(inner))], None);
    var cell, kid := Cell(0, [5]), Node(0, [Cell(0, [5])]);
    var o, s := Node(0, [kid]), Sheet([], Some(0), [7]);
    assert ShapeField(inner.fields[0].kind, cell) && Shape(inner, kid);
    assert ShapeField(d.fields[0].kind, kid) && Shape(d, o);
    assert !CellIsDefault(KInt(Unsigned, 1), None, cell) by { assert cell.buf[0] == 5; }
    assert !FieldIsDefault(inner, 0, kid);
    assert !IsDefault(inner, kid);
    assert !FieldIsDefault(d, 0, o);
    NonEmptyHeader(7, BEGIN);
    assert [] + Header(7, BEGIN)[..0] == [];
    assert Commit(s) == (s, false);
    SmallIds();
    var f := FieldOp(Leaf(0, EncodeCell(KInt(Unsigned, 1), cell)));
    assert Do(64, 8, s, f) == (s, FULL);
    assert FieldRun(64, strict, 8, inner.fields[0], cell, s) == (s, FULL);
    assert EncodeRun(64, strict, 8, inner, kid, 0, s) == (s, FULL);
    assert Do(64, 8, s, Open(1)) == (s, FULL);
    assert s.pending[..0] == [];
    assert Do(64, 8, s, Close) == (s.(pending := []), OK);
    assert FieldRun(64, strict, 8, d.fields[0], kid, s) == (s.(pending := []), FULL);
  }

  lemma {:induction false} SmallIds()
    ensures IdMax(64) >= 1
  {
  }
}

/** The output stream: a cursor over an installed buffer, a sink that may replace the buffer, and the held-back headers. */
module Ostream {
  import opened Bytes
  import opened Varint
  import opened Wire
  import opened Utf8
  import opened Output

  /** What a sink does with the stream when it is handed a unit: nothing, or it installs a buffer of its own. */
  datatype Install = Keep | Swap(len: nat, at: nat)

  /** No sink, or a sink whose n-th answer is plan(n). */
  datatype Sink = NoSink | Sink(plan: nat -> Install)

  /** A unit the sink was handed, and how much of its front the installation had reserved. */
  datatype Chunk = Chunk(data: seq<byte>, reserved: nat)

  function Body(c: Chunk): seq<byte>
  {
    if c.reserved <= |c.data| then c.data[c.reserved..] else []
  }

  /** The units without their reserved fronts, in order. */
  function Delivered(chunks: seq<Chunk>): seq<byte>
    decreases |chunks|
  {
    if chunks == [] then [] else Delivered(chunks[..|chunks| - 1]) + Body(chunks[|chunks| - 1])
  }

  lemma {:induction false} DeliverOne(chunks: seq<Chunk>, c: Chunk)
    ensures Delivered(chunks + [c]) == Delivered(chunks) + Body(c)
  {
    assert (chunks + [c])[..|chunks|] == chunks;
  }

  class Ostream {
    const W: WordSize
    const strict: bool
    const sink: Sink
    const pending: array<nat>
    var buffer: array<byte>
    var offset: nat
    var bufend: nat
    var npending: nat
    var flushes: nat
    ghost var start: nat
    ghost var chunks: seq<Chunk>

    /** A stream as the code leaves it, whatever the sink does. */
    ghost predicate Sound()
      reads this, pending
    {
      && start <= offset <= bufend <= buffer.Length
      && HeldOk()
      && (sink.Sink? ==> forall n :: Lawful(sink.plan(n)))
    }

    /** ... and with a sink that leaves room for a byte in whatever it installs. */
    ghost predicate Valid()
      reads this, pending
    {
      Sound() && (sink.Sink? ==> bufend >= 1 && forall n :: RoomLeft(sink.plan(n)))
    }

    ghost predicate HeldOk()
      reads this`npending, pending
    {
      npending <= pending.Length && 1 <= pending.Length <= 255 && forall k :: 0 <= k < npending ==> pending[k] <= IdMax(W)
    }

    /** A cursor lies within the buffer it is installed with. */
    static predicate Lawful(i: Install)
    {
      i.Swap? ==> i.at <= i.len
    }

    /** A buffer installed with a sink has room for a byte. */
    static predicate RoomLeft(i: Install)
    {
      i.Swap? ==> i.at < i.len
    }

    /** Everything written so far: what the sink got, then what waits in the buffer. */
    ghost function Log(): seq<byte>
      requires Sound()
      reads this, buffer, pending
    {
      Delivered(chunks) + buffer[start..offset]
    }

    ghost function State(): Sheet
      requires Sound()
      reads this, buffer, pending
    {
      Sheet(Log(), if sink.Sink? then None else Some(bufend - offset), pending[..npending])
    }

    /** A stream over the caller's buffer; the first `at` bytes stay the caller's. */
    constructor (W: WordSize, strict: bool, depth: nat, buffer: array<byte>, at: nat, sink: Sink)
      requires 1 <= depth <= 255 && at <= buffer.Length
      requires sink.Sink? ==> at < buffer.Length && forall n :: RoomLeft(sink.plan(n))
      ensures Valid() && this.buffer == buffer && fresh(pending)
      ensures this.W == W && this.strict == strict && this.sink == sink && pending.Length == depth
      ensures State() == Sheet([], if sink.Sink? then None else Some(buffer.Length - at), [])
    {
      this.W, this.strict, this.sink := W, strict, sink;
      pending := new nat[depth];
      this.buffer, offset, bufend := buffer, at, buffer.Length;
      npending, flushes := 0, 0;
      start, chunks := at, [];
    }

    /** The cursor to offset `at` of another buffer. */
    method Install(next: array<byte>, at: nat)
      requires HeldOk() && at <= next.Length && (sink.Sink? ==> forall n :: Lawful(sink.plan(n)))
      modifies this`buffer, this`offset, this`bufend, this`start
      ensures Sound() && buffer == next && offset == start == at && bufend == next.Length
      ensures npending == old(npending)
    {
      buffer, offset, bufend := next, at, next.Length;
      start := at;
    }

    /** sofab_ostream_buffer_set: the caller takes what waits in the old buffer, and writing goes on in the new one. */
    method BufferSet(next: array<byte>, at: nat)
      requires Valid() && at <= next.Length && (sink.Sink? ==> at < next.Length)
      modifies this`buffer, this`offset, this`bufend, this`start, this`chunks
      ensures Valid() && buffer == next && chunks == old(chunks) + [Chunk(old(buffer[..offset]), old(start))]
      ensures State() == old(State()).(room := if sink.Sink? then None else Some(next.Length - at))
    {
      ghost var unit, log := Chunk(buffer[..offset], start), Log();
      DeliverOne(chunks, unit);
      assert Body(unit) == buffer[start..offset];
      chunks := chunks + [unit];
      Install(next, at);
      assert Log() == log;
    }

    /** Whether the sink's next answer leaves room for a byte. */
    ghost predicate MakesRoom()
      requires sink.Sink?
      reads this
    {
      match sink.plan(flushes)
      case Keep => bufend > 0
      case Swap(len, at) => at < len
    }

    /** _drain: the cursor goes back before the sink runs, so that an installation of its own stands. */
    method Drain()
      requires Sound() && sink.Sink?
      modifies this`buffer, this`offset, this`bufend, this`start, this`chunks, this`flushes
      ensures Sound() && (buffer == old(buffer) || fresh(buffer))
      ensures chunks == old(chunks) + [Chunk(old(buffer[..offset]), old(start))]
      ensures State() == old(State())
      ensures offset < bufend <==> old(MakesRoom())
      ensures old(Valid()) ==> Valid() && offset < bufend
    {
      hide Delivered, IdMax;
      ghost var unit, log := Chunk(buffer[..offset], start), Log();
      DeliverOne(chunks, unit);
      assert Body(unit) == buffer[start..offset];
      hide Body;
      offset := 0;
      start := 0;
      chunks := chunks + [unit];
      assert Delivered(chunks) == log && buffer[start..offset] == [];
      assert Lawful(sink.plan(flushes));
      match sink.plan(flushes) {
        case Keep =>
        case Swap(len, at) =>
          var next := new byte[len];
          Install(next, at);
      }
      flushes := flushes + 1;
      assert buffer[start..offset] == [] && log + [] == log;
    }

    /**
     * _push_byte: one byte, after a drain when the buffer is full. It fails, and writes nothing, when there is no sink
     * and no room, or when the sink installed a buffer that starts out full.
     */
    method PushByte(b: byte) returns (ok: bool)
      requires Sound()
      modifies this`buffer, this`offset, this`bufend, this`start, this`chunks, this`flushes, buffer
      ensures Sound() && (buffer == old(buffer) || fresh(buffer))
      ensures ok <==> old(offset < bufend || (sink.Sink? && MakesRoom()))
      ensures Log() == old(Log()) + (if ok then [b] else []) && npending == old(npending)
      ensures old(Valid()) ==> Valid() && (State(), ok) == Append(old(State()), [b])
    {
      hide Delivered, IdMax;
      if offset >= bufend {
        if sink.Sink? {
          Drain();
        } else {
          assert State().log + [b][..0] == State().log;
          return false;
        }
        if offset >= bufend {
          assert Log() + [] == Log();
          return false;
        }
      }
      ghost var waiting, log := buffer[start..offset], Log();
      buffer[offset] := b;
      offset := offset + 1;
      assert buffer[start..offset] == waiting + [b];
      assert Log() == log + [b];
      ok := true;
    }

    /** _varint_encode: seven bits at a time, low first. */
    method VarintEncode(value: nat) returns (ok: bool)
      requires Valid()
      modifies this`buffer, this`offset, this`bufend, this`start, this`chunks, this`flushes, buffer
      ensures Valid() && (buffer == old(buffer) || fresh(buffer))
      ensures (State(), ok) == Append(old(State()), Encode(value))
    {
      hide Append, Encode, IdMax, Delivered;
      ghost var s0, sent := State(), [];
      var v, more := value, true;
      AppendNothing(s0);
      while more
        invariant Valid() && (buffer == old(buffer) || fresh(buffer))
        invariant sent + (if more then Encode(v) else []) == Encode(value)
        invariant Append(s0, sent) == (State(), true)
        decreases if more then v + 1 else 0
      {
        var rest := v / 128;
        var b: byte := if rest != 0 then v % 128 + 128 else v % 128;
        ghost var tail := if rest != 0 then Encode(rest) else [];
        NextGroup(v, sent, tail);
        ok := PushByte(b);
        AppendTwice(s0, sent, [b]);
        sent := sent + [b];
        if !ok {
          AppendTwice(s0, sent, tail);
          return;
        }
        v, more := rest, rest != 0;
      }
      assert sent + [] == sent;
      ok := true;
    }

    /** _write_fixlen: payload bytes in wire order. */
    method WriteBytes(data: seq<byte>) returns (ok: bool)
      requires Valid()
      modifies this`buffer, this`offset, this`bufend, this`start, this`chunks, this`flushes, buffer
      ensures Valid() && (buffer == old(buffer) || fresh(buffer))
      ensures (State(), ok) == Append(old(State()), data)
    {
      hide Append;
      ghost var s0 := State();
      AppendNothing(s0);
      assert data[..0] == [];
      var i := 0;
      while i < |data|
        invariant i <= |data| && Valid() && (buffer == old(buffer) || fresh(buffer))
        invariant Append(s0, data[..i]) == (State(), true)
      {
        ok := PushByte(data[i]);
        AppendTwice(s0, data[..i], [data[i]]);
        assert data[..i] + [data[i]] == data[..i + 1];
        if !ok {
          AppendTwice(s0, data[..i + 1], data[i + 1..]);
          assert data[..i + 1] + data[i + 1..] == data;
          return;
        }
        i := i + 1;
      }
      assert data[..|data|] == data;
      ok := true;
    }

    /** _commit_pending: the held-back headers, outermost first; what did not get out is shifted down and stays. */
    method CommitPending() returns (ok: bool)
      requires Valid()
      modifies this`buffer, this`offset, this`bufend, this`start, this`chunks, this`flushes, this`npending, buffer, pending
      ensures Valid() && (buffer == old(buffer) || fresh(buffer))
      ensures (State(), ok) == Commit(old(State()))
    {
      hide Append, Header;
      ghost var s0 := State();
      var n, i := npending, 0;
      ok := true;
      assert s0.(pending := s0.pending[0..]) == s0;
      while i < n && ok
        invariant i <= n == npending && Valid() && (buffer == old(buffer) || fresh(buffer))
        invariant pending[..n] == s0.pending
        invariant ok ==> Commit(s0) == Commit(State().(pending := s0.pending[i..]))
        invariant !ok ==> i < n && Commit(s0) == (State().(pending := s0.pending[i..]), false)
        decreases n - i, ok
      {
        ghost var s := State().(pending := s0.pending[i..]);
        assert s.pending[0] == pending[i] && s.pending[1..] == s0.pending[i + 1..];
        HeaderWord(W, pending[i], BEGIN);
        AppendPending(State(), Header(pending[i], BEGIN), s.pending);
        AppendPending(State(), Header(pending[i], BEGIN), State().pending);
        ok := VarintEncode(TypeWord(W, pending[i], BEGIN));
        if ok { i := i + 1; }
      }
      ShiftPending(i);
    }

    /** The ids from i on, moved to the front. */
    method ShiftPending(i: nat)
      requires Valid() && i <= npending
      modifies this`npending, pending
      ensures Valid() && State() == old(State()).(pending := old(pending[i..npending]))
    {
      ghost var p, n, log := pending[..], npending, Log();
      npending := npending - i;
      var k := 0;
      while k < npending
        invariant k <= npending == n - i
        invariant forall j :: 0 <= j < k ==> pending[j] == p[i + j]
        invariant forall j :: k <= j < |p| ==> pending[j] == p[j]
        invariant Valid() && Log() == log
      {
        pending[k] := pending[i + k];
        k := k + 1;
      }
      assert pending[..npending] == p[i..n];
    }

    /** _write_id_type: content commits the held-back headers first; a frame header never does. */
    method WriteIdType(id: nat, ty: nat) returns (code: Code)
      requires Valid() && ty < 8 && (ty == BEGIN || ty == END ==> npending == 0)
      modifies this`buffer, this`offset, this`bufend, this`start, this`chunks, this`flushes, this`npending, buffer, pending
      ensures Valid() && (buffer == old(buffer) || fresh(buffer))
      ensures (State(), code) == if id > IdMax(W) then (old(State()), ARGUMENT) else Emit(old(State()), Header(id, ty))
    {
      hide Append, Header;
      if id > IdMax(W) {
        return ARGUMENT;
      }
      if npending != 0 && ty != BEGIN && ty != END {
        var committed := CommitPending();
        if !committed {
          return FULL;
        }
      }
      HeaderWord(W, id, ty);
      var ok := VarintEncode(TypeWord(W, id, ty));
      code := if ok then OK else FULL;
    }

    /** _write_id_varint: a header and one varint behind it. */
    method WriteIdVarint(id: nat, ty: nat, payload: nat) returns (code: Code)
      requires Valid() && ty < BEGIN
      modifies this`buffer, this`offset, this`bufend, this`start, this`chunks, this`flushes, this`npending, buffer, pending
      ensures Valid() && (buffer == old(buffer) || fresh(buffer))
      ensures (State(), code) == Do(W, pending.Length, old(State()), Content(id, ty, Encode(payload)))
    {
      hide Append, Header, Emit;
      ghost var s0 := State();
      code := WriteIdType(id, ty);
      EmitTwice(s0, Header(id, ty), Encode(payload));
      if code == OK {
        var ok := VarintEncode(payload);
        code := if ok then OK else FULL;
      }
    }

    method WriteUnsigned(id: nat, value: nat) returns (code: Code)
      requires Valid() && value < Pow2(W)
      modifies this`buffer, this`offset, this`bufend, this`start, this`chunks, this`flushes, this`npending, buffer, pending
      ensures Valid() && (buffer == old(buffer) || fresh(buffer))
      ensures (State(), code) == Do(W, pending.Length, old(State()), FieldOp(Leaf(id, Int(false, value))))
    {
      hide Do, Pow2;
      code := WriteIdVarint(id, UNSIGNED, value);
    }

    method WriteSigned(id: nat, value: int) returns (code: Code)
      requires Valid() && ZigZag(value) < Pow2(W)
      modifies this`buffer, this`offset, this`bufend, this`start, this`chunks, this`flushes, this`npending, buffer, pending
      ensures Valid() && (buffer == old(buffer) || fresh(buffer))
      ensures (State(), code) == Do(W, pending.Length, old(State()), FieldOp(Leaf(id, Int(true, ZigZag(value)))))
    {
      hide Do, Pow2;
      code := WriteIdVarint(id, SIGNED, ZigZag(value));
    }

    /** sofab_ostream_write_fixlen: a text is checked before a byte is written. */
    method WriteFixlen(id: nat, data: seq<byte>, sub: nat) returns (code: Code)
      requires Valid() && sub <= BLOB && |data| <= FIXLEN_MAX
      modifies this`buffer, this`offset, this`bufend, this`start, this`chunks, this`flushes, this`npending, buffer, pending
      ensures Valid() && (buffer == old(buffer) || fresh(buffer))
      ensures (State(), code)
        == if strict && sub == STRING && !ValidText(data) then (old(State()), ARGUMENT)
           else Do(W, pending.Length, old(State()), Content(id, FIXLEN, Encode(TypeWord(W, |data|, sub)) + data))
    {
      hide Append, Header, Emit, Encode, TypeWord, ValidText;
      if strict && sub == STRING && !ValidText(data) {
        return ARGUMENT;
      }
      ghost var s0, word := State(), TypeWord(W, |data|, sub);
      code := WriteIdVarint(id, FIXLEN, TypeWord(W, |data|, sub));
      assert Header(id, FIXLEN) + (Encode(word) + data) == Header(id, FIXLEN) + Encode(word) + data;
      EmitTwice(s0, Header(id, FIXLEN) + Encode(word), data);
      if code == OK {
        var ok := WriteBytes(data);
        code := if ok then OK else FULL;
      }
    }

    /** The integer loads this build has. */
    predicate Loadable(size: nat)
    {
      size == 1 || size == 2 || size == 4 || (size == 8 && W == 64)
    }

    /** The elements of an integer array, each loaded, re-signed and mapped. */
    method WriteElements(data: seq<byte>, count: nat, size: nat, signed: bool) returns (code: Code)
      requires Valid() && count * size <= |data|
      modifies this`buffer, this`offset, this`bufend, this`start, this`chunks, this`flushes, buffer
      ensures Valid() && (buffer == old(buffer) || fresh(buffer))
      ensures Loadable(size) || count == 0 ==>
        (State(), code) == (Append(old(State()), SerWords(WireWords(signed, size, data, count))).0,
                            AsCode(Append(old(State()), SerWords(WireWords(signed, size, data, count))).1))
      ensures !Loadable(size) && count > 0 ==> (State(), code) == (old(State()), ARGUMENT)
    {
      hide Append, Encode, WireWord, WireWords, SerWords, IdMax, Delivered;
      ghost var s0, words := State(), WireWords(signed, size, data, count);
      ghost var sent, rest := [], words;
      AppendNothing(s0);
      var i := 0;
      assert data[0 * size..] == data;
      while i < count && Loadable(size)
        invariant i <= count && Valid() && (buffer == old(buffer) || fresh(buffer))
        invariant i * size <= count * size && (count - i) * size == count * size - i * size
        invariant rest == WireWords(signed, size, data[i * size..], count - i)
        invariant sent + SerWords(rest) == SerWords(words)
        invariant Append(s0, sent) == (State(), true)
        invariant if i > 0 then Loadable(size) else State() == s0
      {
        NextElement(data, i, count, size);
        ghost var word, rest' := ElementStep(data, i, count, size, signed, sent);
        var ok := VarintEncode(WireWord(signed, size, data[i * size..(i + 1) * size]));
        AppendTwice(s0, sent, Encode(word));
        sent := sent + Encode(word);
        if !ok {
          AppendTwice(s0, sent, SerWords(rest'));
          return FULL;
        }
        rest := rest';
        i := i + 1;
      }
      if i < count {
        assert i == 0;
        return ARGUMENT;
      }
      NoElements(data[i * size..], size, signed);
      assert sent + [] == sent;
      code := OK;
    }

    /** _write_varint_array: header, count, elements. */
    method WriteVarintArray(id: nat, data: seq<byte>, count: nat, size: nat, signed: bool) returns (code: Code)
      requires Valid() && count <= ARRAY_MAX && count * size <= |data|
      modifies this`buffer, this`offset, this`bufend, this`start, this`chunks, this`flushes, this`npending, buffer, pending
      ensures Valid() && (buffer == old(buffer) || fresh(buffer))
      ensures Loadable(size) || count == 0 ==>
        (State(), code) == Do(W, pending.Length, old(State()), FieldOp(Leaf(id, Ints(signed, WireWords(signed, size, data, count)))))
      ensures !Loadable(size) && count > 0 ==>
        var (t, c) := Do(W, pending.Length, old(State()), Content(id, if signed then ARRAY_SIGNED else ARRAY_UNSIGNED, Encode(count)));
        (State(), code) == (t, if c == OK then ARGUMENT else c)
    {
      hide Append, Header, Emit, Encode, Do, WireWord, WireWords, SerWords, IdMax, FieldOp;
      ghost var s0, D, words := State(), pending.Length, WireWords(signed, size, data, count);
      var ty := if signed then ARRAY_SIGNED else ARRAY_UNSIGNED;
      IntsOp(id, signed, words);
      code := WriteIdVarint(id, ty, count);
      if code != OK {
        ContentFails(W, D, s0, id, ty, Encode(count), SerWords(words));
        return;
      }
      ContentMore(W, D, s0, id, ty, Encode(count), SerWords(words));
      code := WriteElements(data, count, size, signed);
    }

    /** sofab_ostream_write_array_of_fixlen: the element word is written even for no elements. */
    method WriteFixlenArray(id: nat, data: seq<byte>, count: nat, fp64: bool) returns (code: Code)
      requires Valid() && count <= ARRAY_MAX && count * FloatWidth(fp64) == |data|
      modifies this`buffer, this`offset, this`bufend, this`start, this`chunks, this`flushes, this`npending, buffer, pending
      ensures Valid() && (buffer == old(buffer) || fresh(buffer))
      ensures (State(), code) == Do(W, pending.Length, old(State()), FieldOp(Leaf(id, Floats(fp64, data))))
    {
      hide Append, Header, Emit, Encode, Do, IdMax, TypeWord, SerValue, FieldOp, FloatWidth;
      ghost var s0, D := State(), pending.Length;
      var w, sub := FloatWidth(fp64), if fp64 then FP64 else FP32;
      FloatsOp(id, fp64, data, count);
      ghost var head, word := Encode(count), Encode(8 * w + sub);
      code := WriteIdVarint(id, ARRAY_FIXLEN, count);
      if code != OK {
        ContentFails(W, D, s0, id, ARRAY_FIXLEN, head, word + data);
        return;
      }
      ElementWordFits(W, fp64);
      var ok := VarintEncode(TypeWord(W, w, sub));
      ContentMore(W, D, s0, id, ARRAY_FIXLEN, head, word);
      assert head + word + data == head + (word + data);
      if !ok {
        ContentFails(W, D, s0, id, ARRAY_FIXLEN, head + word, data);
        return FULL;
      }
      ok := WriteBytes(data);
      ContentMore(W, D, s0, id, ARRAY_FIXLEN, head + word, data);
      code := if ok then OK else FULL;
    }

    /** sofab_ostream_write_sequence_begin: a framed sequence is content for all that encloses it. */
    method Begin(id: nat) returns (code: Code)
      requires Valid()
      modifies this`buffer, this`offset, this`bufend, this`start, this`chunks, this`flushes, this`npending, buffer, pending
      ensures Valid() && (buffer == old(buffer) || fresh(buffer))
      ensures (State(), code) == Do(W, pending.Length, old(State()), Open(id))
    {
      hide Append, Header;
      if npending != 0 {
        var ok := CommitPending();
        if !ok {
          return FULL;
        }
      }
      CommitEmpties(old(State()));
      code := WriteIdType(id, BEGIN);
    }

    /** sofab_ostream_write_sequence_begin_lazy: the header waits for content, as long as the window has room. */
    method BeginLazy(id: nat) returns (code: Code)
      requires Valid()
      modifies this`buffer, this`offset, this`bufend, this`start, this`chunks, this`flushes, this`npending, buffer, pending
      ensures Valid() && (buffer == old(buffer) || fresh(buffer))
      ensures (State(), code) == Do(W, pending.Length, old(State()), OpenLazy(id))
    {
      hide Append, Header, IdMax, Delivered;
      if id > IdMax(W) {
        return ARGUMENT;
      }
      if npending < pending.Length {
        ghost var held := pending[..npending];
        pending[npending] := id;
        npending := npending + 1;
        assert pending[..npending] == held + [id];
        return OK;
      }
      var ok := CommitPending();
      if !ok {
        return FULL;
      }
      CommitEmpties(old(State()));
      code := WriteIdType(id, BEGIN);
    }

    /** sofab_ostream_write_sequence_end_keep: the sequence reaches the wire whatever it holds. */
    method EndKeep() returns (code: Code)
      requires Valid()
      modifies this`buffer, this`offset, this`bufend, this`start, this`chunks, this`flushes, this`npending, buffer, pending
      ensures Valid() && (buffer == old(buffer) || fresh(buffer))
      ensures (State(), code) == Do(W, pending.Length, old(State()), CloseKeep)
    {
      hide Append, Header;
      if npending != 0 {
        var ok := CommitPending();
        if !ok {
          return FULL;
        }
      }
      CommitEmpties(old(State()));
      code := WriteIdType(0, END);
    }

    /** sofab_ostream_write_sequence_end: a sequence still held back never was. */
    method End() returns (code: Code)
      requires Valid()
      modifies this`buffer, this`offset, this`bufend, this`start, this`chunks, this`flushes, this`npending, buffer, pending
      ensures Valid() && (buffer == old(buffer) || fresh(buffer))
      ensures (State(), code) == Do(W, pending.Length, old(State()), Close)
    {
      hide Append, Header;
      if npending != 0 {
        npending := npending - 1;
        assert pending[..npending] == old(pending[..npending])[..npending];
        return OK;
      }
      code := WriteIdType(0, END);
    }

    /** sofab_ostream_flush: after it, with a sink, the sink has had everything. */
    method Flush() returns (used: nat)
      requires Valid()
      modifies this`buffer, this`offset, this`bufend, this`start, this`chunks, this`flushes
      ensures Valid() && (buffer == old(buffer) || fresh(buffer))
      ensures State() == old(State()) && used == old(offset)
      ensures sink.Sink? ==> Delivered(chunks) == Log()
    {
      used := offset;
      if sink.Sink? && used > 0 {
        DrainAll();
      }
      assert offset == 0 ==> buffer[start..offset] == [];
    }

    /** A drain leaves nothing waiting. */
    method DrainAll()
      requires Valid() && sink.Sink?
      modifies this`buffer, this`offset, this`bufend, this`start, this`chunks, this`flushes
      ensures Valid() && (buffer == old(buffer) || fresh(buffer))
      ensures State() == old(State()) && Delivered(chunks) == Log()
    {
      DeliverOne(chunks, Chunk(buffer[..offset], start));
      Drain();
    }
  }

  lemma {:induction false} NextGroup(v: nat, sent: seq<byte>, tail: seq<byte>)
    requires tail == if v / 128 != 0 then Encode(v / 128) else []
    ensures sent + Encode(v) == sent + [if v / 128 != 0 then v % 128 + 128 else v % 128] + tail
    ensures sent + [] == sent
  {
  }

  lemma HeaderWord(W: WordSize, id: nat, ty: nat)
    requires id <= IdMax(W)
    ensures Encode(TypeWord(W, id, ty)) == Header(id, ty)
  {
    hide Encode, TypeWord, Pow2;
    IdsFit(W, id);
    TypeWordIsExact(W, id, ty);
  }

  lemma AppendPending(s: Sheet, bs: seq<byte>, ids: seq<nat>)
    ensures Append(s.(pending := ids), bs) == (Append(s, bs).0.(pending := ids), Append(s, bs).1)
  {
  }

  /** What failed stays failed, and nothing more is written. */
  lemma ContentFails(W: WordSize, D: nat, s: Sheet, id: nat, ty: nat, a: seq<byte>, b: seq<byte>)
    requires Do(W, D, s, Content(id, ty, a)).1 != OK
    ensures Do(W, D, s, Content(id, ty, a + b)) == Do(W, D, s, Content(id, ty, a))
  {
    hide Emit, Header, Append, IdMax;
    assert Header(id, ty) + (a + b) == Header(id, ty) + a + b;
    EmitTwice(s, Header(id, ty) + a, b);
  }

  lemma ContentMore(W: WordSize, D: nat, s: Sheet, id: nat, ty: nat, a: seq<byte>, b: seq<byte>)
    requires Do(W, D, s, Content(id, ty, a)).1 == OK
    ensures Do(W, D, s, Content(id, ty, a + b))
      == var (t, ok) := Append(Do(W, D, s, Content(id, ty, a)).0, b); (t, AsCode(ok))
  {
    hide Emit, Header, Append, IdMax;
    assert Header(id, ty) + (a + b) == Header(id, ty) + a + b;
    EmitTwice(s, Header(id, ty) + a, b);
  }

  lemma {:induction false} CommitEmpties(s: Sheet)
    ensures Commit(s).1 ==> Commit(s).0.pending == []
    decreases |s.pending|
  {
    hide Append, Header;
    if s.pending != [] {
      var (t, ok) := Append(s, Header(s.pending[0], BEGIN));
      if ok {
        AppendKeepsPending(s, Header(s.pending[0], BEGIN));
        CommitEmpties(t.(pending := t.pending[1..]));
      }
    }
  }

  lemma AppendKeepsPending(s: Sheet, bs: seq<byte>)
    ensures Append(s, bs).0.pending == s.pending
  {
  }

  lemma NextElement(data: seq<byte>, i: nat, count: nat, size: nat)
    requires i < count && count * size <= |data|
    ensures i * size + size == (i + 1) * size <= count * size
    ensures (count - i) * size == count * size - i * size
    ensures (count - (i + 1)) * size == count * size - (i + 1) * size
  {
    MulLess(i + 1, count, size);
  }

  lemma {:induction false} NoElements(data: seq<byte>, size: nat, signed: bool)
    ensures WireWords(signed, size, data, 0) == [] && SerWords([]) == []
  {
  }

  lemma {:induction false} IntsOp(id: nat, signed: bool, words: seq<nat>)
    ensures FieldOp(Leaf(id, Ints(signed, words)))
      == Content(id, if signed then ARRAY_SIGNED else ARRAY_UNSIGNED, Encode(|words|) + SerWords(words))
  {
  }

  lemma {:induction false} FloatsOp(id: nat, fp64: bool, data: seq<byte>, count: nat)
    requires count * FloatWidth(fp64) == |data|
    ensures FieldOp(Leaf(id, Floats(fp64, data)))
      == Content(id, ARRAY_FIXLEN, Encode(count) + (Encode(8 * FloatWidth(fp64) + if fp64 then FP64 else FP32) + data))
  {
    hide Encode;
    assert |data| / FloatWidth(fp64) == count;
  }

  /** The words still to come begin with element i's. */
  lemma ElementStep(data: seq<byte>, i: nat, count: nat, size: nat, signed: bool, sent: seq<byte>) returns (word: nat, rest: seq<nat>)
    requires i < count && count * size <= |data|
    requires i * size + size == (i + 1) * size <= count * size
    requires (count - i) * size == count * size - i * size && (count - (i + 1)) * size == count * size - (i + 1) * size
    ensures word == WireWord(signed, size, data[i * size..(i + 1) * size])
    ensures rest == WireWords(signed, size, data[(i + 1) * size..], count - (i + 1))
    ensures sent + SerWords(WireWords(signed, size, data[i * size..], count - i)) == sent + Encode(word) + SerWords(rest)
  {
    hide WireWord, Encode;
    var from := data[i * size..];
    assert from[..size] == data[i * size..(i + 1) * size] && from[size..] == data[(i + 1) * size..];
    word := WireWord(signed, size, from[..size]);
    rest := WireWords(signed, size, from[size..], count - i - 1);
    assert ([word] + rest)[1..] == rest;
    assert sent + (Encode(word) + SerWords(rest)) == sent + Encode(word) + SerWords(rest);
  }

  lemma ElementWordFits(W: WordSize, fp64: bool)
    ensures TypeWord(W, FloatWidth(fp64), if fp64 then FP64 else FP32) == 8 * FloatWidth(fp64) + if fp64 then FP64 else FP32
  {
    hide Pow2;
    SmallFits(W, 64);
    SmallFits(W, 32);
    TypeWordIsExact(W, FloatWidth(fp64), if fp64 then FP64 else FP32);
  }
}

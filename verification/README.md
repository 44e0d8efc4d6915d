# SofaBuffers C core: a verified model

SofaBuffers is a streaming tag-length-value codec in C with a thin C++ layer. This project models its
hard core and proves what it is for:

* a **resumable decoder** that takes a message byte by byte, in any chunks, and reports OK, INCOMPLETE or INVALID;
* an **encoder** that writes through a small buffer into a sink and holds sequence headers back until a sequence
  turns out to have content;
* a **descriptor-driven object codec**: nested structs, wrapper arrays, sized blobs and arrays, tagged unions,
  default images;
* **UTF-8**, **LEB128** and **ZigZag**, exact at their boundaries, and the C++ wrapper-array collectors.

The full configuration is modelled (every `SOFAB_DISABLE_*` switch off); the value width W stays a parameter in
{32, 64}, strict text validation is a parameter, and so is the size of the hold-back window.

## How it is built

| file | what it holds |
|---|---|
| `Bytes.dfy` | bytes, powers of two, little-endian words |
| `Varint.dfy` | LEB128 (accumulator, closed form, minimal encoder), ZigZag, signed widths |
| `Utf8.dfy` | RFC 3629 encoding of scalar values, the validator's loop, the clamp |
| `Wire.dfy` | field trees, their minimal encoding, and a recursive-descent grammar |
| `Decoder.dfy` | the decoder as a pure state machine over single bytes; the callback and the store are parameters |
| `Meaning.dfy` | what a field tree means to a callback, and the refinement of the machine to it |
| `DecoderTheorems.dfy` | verdicts, chunk independence, finality of refusals, completability |
| `SkipTheorems.dfy` | inserted fields that are passed over, destinations filled exactly |
| `IntegerStores.dfy` | which integers a destination takes and what it then reads as, by ranges and values |
| `Ceilings.dfy` | the format's limits on nesting, ids, counts and lengths, exactly |
| `Frames.dfy`, `ObjectFrames.dfy` | where the decoder writes over every run, whatever the verdict: flat memory, and objects |
| `ObjectCounts.dfy` | companion lengths and element counts within their capacities, over every run |
| `Istream.dfy` | the `sofab_istream_t` record as a class, method by method, refining the machine |
| `Output.dfy` | the encoder over one log of output bytes: room, held-back headers, five operations |
| `Ostream.dfy` | the `sofab_ostream_t` record as a class over buffers and a sink, refining `Output` |
| `HoldBack.dfy` | balanced writer calls as trees; what the window keeps and what it drops |
| `Object.dfy` | descriptors, storage, defaults, reset, the default test, the fields an object is encoded to |
| `ObjectDecode.dfy` | the field callback and what fields do to an object; the machine refines it in place |
| `ObjectRoundTrip.dfy`, `ObjectTheorems.dfy` | the round trip, member by member and over the tree |
| `ObjectCanonical.dfy`, `ObjectBytes.dfy`, `ObjectStorage.dfy` | bytes end to end, canonical form, what storage can show |
| `ObjectLaws.dfy` | skipped fields, wrapper-array length, order, re-opened sequences, prediction |
| `ObjectValues.dfy` | the value an object starts from and the members that reach the wire, told from descriptor and values |
| `ObjectEncode.dfy`, `LazyRoute.dfy` | the encode run with its errors; prediction equals hold-back |
| `ObjectRefusals.dfy` | the encoder refuses exactly what its own decoder would |
| `ObjectMemory.dfy` | init, encode and the field callback as loops over object memory and a stream |
| `Collectors.dfy` | inline vector, fixed string, refusal latch, placement at an index |
| `CollectorDecode.dfy` | a string collector as the field callback of the decoder, over the bytes of a wrapper array |

Reading order: `Wire`, `Decoder`, `Meaning.RunScope`, then `DecoderTheorems`; `Object`, `ObjectDecode.FieldsRefine`,
`ObjectBytes.RoundTrip`, `ObjectStorage.Canonical`; `Frames.RunsStayInside`; `Output.RunCutOff`, `HoldBack.HoldBackIsPruning`.

The field callback is a deterministic function of the application state and of what it is told (id, size, count,
type with subtype). It makes at most one typed read, so bound widths are 1, 2, 4 or 8 bytes by construction.
A state `Good` is one neither decoder nor callback has refused.

`DescrOk` collects what the descriptor macros assert: ids unique in a scope and within the ceiling, a holder's slot i
carrying id i and all slots of one type, companion lengths wide enough for their capacity, union blob options sized,
default images that hold encodable values. `Sane` collects what an object must be to be encoded: texts that end inside
their member (and are valid where checked), booleans 0 or 1, a union tag that names an option or is the default one.
Nothing is asked of storage outside an object's value.

Three places where comment and code differ; the model follows the code. `sofab.hpp` 2088-2091 says the core keeps
dispatching within a feed after a callback rejects; the idle-state test in `istream.c` 588-591 stops it, and
`DecoderTheorems.RefusalIsFinal` proves that. `object.c` 577-578 describes the default test of a sequence as true iff
encoding it would emit an empty frame; a holder without a length member is an exception, see
`ObjectLaws.PredictionIsExact`. `ostream.c` 181-188 says a commit that hits a full buffer keeps the headers it could
not write, for a balanced retry; the object encoder goes on to close a sequence whose begin has just failed
(`object.c` 1069-1076), and that end erases a held-back header that is not its own, see
`ObjectEncode.FullBufferKeepsHeaders`.

## Model

| member | source | states |
|---|---|---|
| Varint.AccumulatorIsExact | src/istream.c:117-162 | The bounded byte-at-a-time accumulator answers, for every input, what the closed form of LEB128 (DWARF 5, section 7.6) with a W-bit bound answers. |
| Varint.RefusedOnOffendingByte | src/istream.c:122-158 | The verdict falls on the byte that settles it: byte n is the first refused iff the bytes before it are continuations and it sets a bit at or past W or demands a byte past the limit. |
| Varint.ReadVarintMeaning | src/istream.c:117-162 | A varint is accepted, with a value and a length, iff the bytes are one terminated run within the limit whose groups denote that value below 2^W; minimal or not. |
| Varint.EncodeShape | src/ostream.c:141-157 | The encoder writes one terminated run that denotes the value, and no shorter run could. |
| Varint.ReadEncode | src/ostream.c:141-157 | Reading back a written value, whatever follows it, gives the value and stops behind its last byte. |
| Varint.ZigZagDecodeBits | src/istream.c:100-103 | At every width the shift, negate and xor decoder on W-bit words is the arithmetic inverse map, and lands in the signed range of that width. |
| Varint.ZigZagEncodeBits | src/ostream.c:52-60 | At every width the shift and xor encoder, its sign mask from an arithmetic right shift, is the arithmetic map on every signed integer of that width, and fits in W bits. |
| Varint.ZigZagInverse | src/istream.c:100-103 | Each bit-level map inverts the other, on every W-bit integer and every W-bit word. |
| Varint.FitsUnsignedIsRange | src/istream.c:174-182 | The shift test, early exit for wide targets included, is the range of the target's width. |
| Varint.FitsByShiftIsRange | src/istream.c:191-196 | The comparison of two arithmetic shifts, early exit for wide targets included, is the signed range of the target's width. |
| Varint.SignedFit | src/istream.c:191-228 | A signed value is in the range of an n-bit destination iff its ZigZag image is below 2^n, and its stored low bytes then denote it without loss. |
| Varint.SignedRoundTrip | src/ostream.c:590-605 | Any raw w-byte word, re-signed, mapped, unmapped and truncated again, is the same word. |
| Utf8.ValidTextIsExact | src/utf8.c:17-104 | A byte string is valid iff it is the concatenation of RFC 3629 (sections 3 and 4) encodings of Unicode scalar values, which are then unique. |
| Utf8.TextReadBack | src/utf8.c:17-104 | Decoding what was encoded gives the scalar values back. |
| Utf8.TextIsCanonical | src/utf8.c:17-104 | What decodes at all is the encoding of what it decodes to: no overlong form, surrogate or value past U+10FFFF. |
| Utf8.IsValid | src/utf8.c:17-104 | The validator's two nested loops over the array answer validity, for every array and length. |
| Utf8.PrefixValidity | src/include/sofab/sofab.hpp:269-276 | A prefix of valid text is valid iff it does not cut in front of a continuation byte. |
| Utf8.ClampPrefix | src/include/sofab/sofab.hpp:269-276 | For valid text the backward loop finds the longest valid prefix within the limit, at most three bytes short of it. |
| Wire.ParseFieldsSer | src/ostream.c:141-157 | Parsing encoded fields at any depth gives them back and leaves exactly the parse of what follows. |
| Wire.MessageRoundTrip | src/ostream.c:235-295 | The grammar reads every encoded well-formed field tree back as itself. |
| Meaning.RunScope | src/istream.c:522-1183 | The refinement: from any place between fields under any chain of bound sequences and any callback, the byte machine does exactly what the parse tree of the coming bytes means, is short of a boundary iff they are cut off, and refuses if they are malformed. |
| Meaning.RunLeaf | src/istream.c:731-1133 | The same for one leaf of any wire type: bound destinations receive exactly the rendered value, a refused value refuses the message. |
| Meaning.RunSkipped | src/istream.c:333-337 | Inside a skipped sequence no callback runs and nothing is stored, however deep it nests. |
| Meaning.RefusalStays | src/istream.c:543-546 | Once refused, by decoder or callback, no bytes make the message acceptable. |
| DecoderTheorems.DecodeIsMeaning | src/istream.c:522-1183 | For every callback the verdict is OK iff the bytes are a message and the callback refuses none of its fields; the state is then that meaning; malformed bytes are INVALID. |
| DecoderTheorems.VerdictIsGrammar | src/istream.c:431-448 | With a callback that binds no leaf: OK iff the bytes are a message, INCOMPLETE iff they are a proper beginning as far as complete words tell, INVALID iff malformed. |
| DecoderTheorems.NoExtensionHeals | src/istream.c:1153-1182 | No continuation of malformed bytes is well formed. |
| DecoderTheorems.RunKeeps | src/istream.c:641-727 | Over every run: pushed decoders plus skipped sequences stay within 0..255, a partial varint is pending only where one is read, and a condemned message never stands between a header and its callback. |
| DecoderTheorems.RefusalIsFinal | src/istream.c:588-591 | After a refusal, in the same feed, no byte leads to another callback and the verdict stays INVALID. |
| DecoderTheorems.RefusedFeeds | src/istream.c:543-546 | ... and every later feed answers INVALID without changing anything. |
| DecoderTheorems.ChunksDoNotMatter | src/istream.c:522-569 | However the input is cut into feeds, empty ones included, verdict and callback trace are those of one feed; state and destinations too, rejected messages included, as long as no callback condemned the message. |
| DecoderTheorems.MildRunsAreUncondemned | src/istream.c:1185-1192 | A callback that never condemns leaves no run condemned, whatever the bytes. |
| DecoderTheorems.CondemnedDestinationsDiffer | src/istream.c:577-591 | The proviso is needed: a payload byte in the feed of the condemnation is stored, in the next feed it is not looked at. |
| DecoderTheorems.Completable | src/istream.c:571-1135 | From any accepted state between two varints the computed suffix (zero words, zero payload, then sequence ends) leads to OK, as long as no further leaf is bound. |
| DecoderTheorems.EveryRunIsCompletable | src/istream.c:571-1135 | Under a callback that binds no leaf there are no dead ends: whatever was consumed without refusal can be completed by that suffix unless a varint is half read. |
| Ceilings.NestingLimit | src/istream.c:641-649 | Sequences nested n deep, whoever opens or skips them, are answered OK iff n is at most 255, INVALID otherwise. |
| Ceilings.IdLimit | src/istream.c:593-601 | A header is answered OK or INVALID by its id alone: at most 2^31 - 1. |
| Ceilings.CountLimit | src/istream.c:1051-1059 | An array count is judged as soon as it has arrived: INVALID iff above 2^31 - 1. |
| Ceilings.LengthLimit | src/istream.c:826-885 | A length word is judged before its payload: INVALID iff the length is above 2^31 - 1, the subtype is unknown, or a float has not its width. |
| SkipTheorems.ParseAtDepth | src/istream.c:641-649 | A sequence parses the same at any depth where it still fits the ceiling. |
| SkipTheorems.RunOneField | src/istream.c:588-1135 | One complete field fed at a field boundary of any scope has exactly its meaning there. |
| SkipTheorems.InsertionIsTransparent | src/istream.c:320-398 | Inserting a complete field the callback passes over, at any field boundary of any bound scope, changes neither the verdict nor the application state of the whole message. |
| SkipTheorems.DestinationsAreFilledExactly | src/istream.c:479-503 | A bound destination takes a value iff it fits (count, length with terminator, every integer below 2^(8w) unless boolean, strict text), and then holds value plus filling (N - M zero elements, the terminator) and no byte outside it changes. |
| IntegerStores.IntegersLandExactly | src/istream.c:174-228 | Told without the store: an integer destination, single or array, takes a value iff there is room and every word is below 2^(8w) (a boolean takes anything); each element then reads back as the number sent, the elements behind are zero, no other byte changes. |
| IntegerStores.StoredThenJudged | src/istream.c:748-763 | A bound word is stored before it is judged: refused or not, its element then holds the value modulo 2^(8w) and nothing else changes; it is refused iff it is out of range. |
| IntegerStores.WideIntegersAreRefused | src/istream.c:731-824 | A message of one bound integer, in any chunks, is answered OK iff the word is in the range of the member, INVALID otherwise. |
| Bytes.LowBytesAt | src/istream.c:255-273 | Byte i of a stored word is its i-th digit in base 256. |
| Frames.RunsStayInside | src/istream.c:255-273 | Over every run, whatever the bytes and the verdict: stores fall inside the destinations the callback bound, refused and cut-off values included. Any property that the callback and stores inside preserve holds afterwards, and what a store outside would do makes no difference. |
| Frames.FeedsStayInside | src/istream.c:522-569 | The same over any number of feeds. |
| Frames.MemoryOutsideIsUntouched | src/istream.c:479-503 | In flat memory, whatever the verdict and the chunks, memory outside the regions the callback binds and owns is untouched. |
| Frames.TextIsJudgedInPlace | src/istream.c:1023-1041 | A strict text, cut in any way, is rejected on its last byte iff the bytes that then lie in its destination are not valid UTF-8. |
| ObjectFrames.StoreLands | src/istream.c:255-273 | A store within a member's size lands in that member's bytes and keeps the object's layout. |
| ObjectFrames.ObjectRunsStayInside | src/object.c:1089-1369 | Decoding any bytes in any chunks into an object, accepted or not, keeps its layout and stores nothing past a member's end. |
| ObjectCounts.LengthsStayWithin | src/object.c:1129-1207 | Decoding any bytes in any chunks into an initialised object, accepted or not, leaves every companion length within its capacity and every element count within its slots, also where the wire announced more and was refused. |
| Istream.Istream.constructor | src/istream.c:508-520 | A fresh stream is the machine's initial state. |
| Istream.Istream.ReadSequence | src/istream.c:1238-1256 | A sequence read pushes an idle decoder and leaves every other field of the stream alone. |
| Istream.Istream.MaskAgrees | src/istream.c:355-360 | Comparing option words under the mask a call uses is comparing wire type and subtype, flags outside the mask notwithstanding. |
| Istream.Istream.CallField | src/istream.c:320-398 | The callback is consulted once unless the field is inside a skipped sequence; a read the wire contradicts leaves exactly what a declining callback leaves, a pushed decoder included. |
| Istream.Istream.BindArrayCount | src/istream.c:479-503 | A wire count past the capacity is refused and nothing changes; otherwise exactly the elements behind it are cleared and the wire count is read. |
| Istream.Istream.BeginSequence | src/istream.c:642-699 | A sequence raises the depth by one, on the chain or on the skip counter, and is refused at 255 before the callback is asked. |
| Istream.Istream.EndSequence | src/istream.c:701-725 | An end closes a skipped level or hands back to the parent, and is refused with nothing open. |
| Istream.Istream.OnIdle | src/istream.c:573-729 | A header word between fields does what the machine does, from the condemned-message test to the sequence bookkeeping. |
| Istream.Istream.OnUnsigned | src/istream.c:731-780 | An unsigned or boolean word is stored first and judged for width after, and an array goes on to its next element; it halts iff a bound non-boolean word is 2^(8w) or more. |
| Istream.Istream.OnSigned | src/istream.c:782-824 | The same for a signed word, by its ZigZag image. |
| Istream.Istream.OnFixlenLen | src/istream.c:826-978 | A length word settles subtype, width and ceiling, asks the callback, reconciles the count of a float array and places a text's terminator. |
| Istream.Istream.OnCount | src/istream.c:1051-1133 | A count word asks the callback at once for integers and with the element word for floats; an empty array ends there. |
| Istream.Istream.OnFixlenVal | src/istream.c:980-1014 | A float byte lands at its place; the element and the array end where they should. |
| Istream.Istream.OnFixlenRaw | src/istream.c:1016-1048 | A payload byte lands at its place; a strict text is judged once whole, wherever it was cut. |
| Istream.Istream.VarintDecode | src/istream.c:117-162 | One byte moves the accumulator as the machine's does; the three answers are more, done and too wide. |
| Istream.Istream.StepByte | src/istream.c:550-1135 | One iteration of the byte loop is one step of the machine. |
| Istream.Istream.Feed | src/istream.c:522-1183 | A feed is the machine's run over its bytes and reports its verdict; a refusal is sticky and a refused stream looks at no byte. Valid() is the chain invariant: every decoder but the active one idle and skipping nothing. |
| Output.TypeWordIsExact | src/ostream.c:169-172 | A header or length word says what it should iff the shifted value fits the value type; past that it silently loses bits. |
| Output.CommitKeepsSuffix | src/ostream.c:197-222 | A commit that does not fit keeps held back exactly the headers not on the wire whole, the log ending inside the first of them; it succeeds iff all fit. |
| Output.EmitCutOff | src/ostream.c:235-262 | Content behind held-back headers is those headers, outermost first, and then the content, or is cut off at the end of the room. |
| Output.RunCutOff | src/ostream.c:102-132 | Buffer independence: a run of writer calls without a sink succeeds iff its encoding fits the room, and then writes that encoding; else it fails with "buffer full" having written exactly the part that fits. |
| Output.BadIdsAreRefused | src/ostream.c:235-262 | An id past the ceiling is refused by every call that takes one and never written; a field and a lazy begin leave all else alone, a plain begin has put out the held-back headers. |
| Output.RunsNeedGoodIds | src/ostream.c:235-262 | With a sink a run of calls succeeds iff all its ids are within the ceiling; without one it never does otherwise. |
| Ostream.Ostream.constructor | src/ostream.c:369-388 | A fresh stream has written nothing, holds nothing back, and has the buffer's room behind the reserved offset. |
| Ostream.Ostream.BufferSet | src/ostream.c:412-435 | Another buffer, mid-stream, changes the room and nothing written before. |
| Ostream.Ostream.Drain | src/ostream.c:83-90 | The sink gets the unit with its reserved front; what it installs stands, room or none; nothing of the log is lost or repeated. |
| Ostream.Ostream.PushByte | src/ostream.c:102-132 | One byte goes onto the log, whatever buffers and sink do underneath, or none does: exactly when there is neither room nor sink, or the sink leaves no room. |
| Ostream.Ostream.VarintEncode | src/ostream.c:141-157 | The minimal encoding goes onto the log, as far as it fits. |
| Ostream.Ostream.WriteBytes | src/ostream.c:309-322 | Payload bytes go onto the log, as far as they fit. |
| Ostream.Ostream.CommitPending | src/ostream.c:197-222 | The held-back headers go onto the log; those that do not fit whole are shifted down and stay. |
| Ostream.Ostream.WriteIdType | src/ostream.c:235-264 | Content commits what is held back; an id past the ceiling is refused before a byte is written. |
| Ostream.Ostream.WriteFixlen | src/ostream.c:454-528 | A strict text that is invalid is refused before a byte is written; else header, length word and payload. |
| Ostream.Ostream.WriteElements | src/ostream.c:569-614 | Array elements are loaded, re-signed and mapped one by one; an unsupported width is refused at the first element. |
| Ostream.Ostream.WriteVarintArray | src/ostream.c:545-617 | An integer array is the field of its elements' words; with an unsupported element width the header and count are already out. |
| Ostream.Ostream.WriteFixlenArray | src/ostream.c:644-716 | A float array carries its element word even when empty. |
| Ostream.Ostream.Begin | src/ostream.c:722-744 | An eager sequence commits what encloses it, before its own id is judged. |
| Ostream.Ostream.BeginLazy | src/ostream.c:747-773 | A lazy sequence is held back while the window has room, and framed at once beyond it. |
| Ostream.Ostream.EndKeep | src/ostream.c:775-790 | A kept sequence reaches the wire whatever it holds. |
| Ostream.Ostream.End | src/ostream.c:793-816 | The end of a sequence still held back erases it; any other gets its end marker. |
| Ostream.Ostream.Flush | src/ostream.c:390-403 | After a flush the units, without their reserved fronts, are everything written. |
| HoldBack.BalancedIsTree | src/ostream.c:747-816 | Every balanced run of writer calls is the run of some tree. |
| HoldBack.RunTrees | src/ostream.c:197-264 | Writing trees behind h held-back headers puts out those headers and the kept trees, or nothing at all when no tree is kept. |
| HoldBack.KeptPrunes | src/ostream.c:764-772 | What is written prunes to what was meant: only content-free lazy frames can be left over. |
| HoldBack.KeptIsPruned | src/ostream.c:758-762 | When lazy frames nest within the window, nothing is left over. |
| HoldBack.HoldBackIsPruning | src/ostream.c:722-816 | Hold-back refinement: the bytes of any balanced run are those of its tree without content-free, non-kept lazy frames when nesting fits the window, and otherwise those of a tree differing only by such frames. |
| ObjectDecode.CallbackMoves | src/object.c:1089-1369 | The callback does the same to an object wherever it lies; only the destination moves along. |
| ObjectDecode.FieldsRefine | src/object.c:1089-1369 | The machine under the object callback does to the root object, in place, exactly what applying the fields to the (sub-)object does. |
| ObjectRoundTrip.ArraySurvives | src/ostream.c:569-614 | The words of any packed integers, stored back, are the same bytes, and each fits. |
| ObjectRoundTrip.CellSurvives | src/object.c:1129-1207 | Every leaf member, decoded from its own encoding into a member holding anything, is accepted and has its value again, companion length included. |
| ObjectRoundTrip.DefaultObject | src/object.c:602-720 | A sub-object the default test passes has the value a reset leaves: leaving it off the wire loses nothing. |
| ObjectTheorems.UnionFrom | src/object.c:620-624 | A union is encoded to its held option, or to nothing when that is the default option at its default. |
| ObjectTheorems.FieldRoundTrip | src/object.c:833-1087 | One encoded field, applied to fresh storage, restores its member's value and leaves every other member alone. |
| ObjectTheorems.ObjectsRoundTrip | src/object.c:722-1369 | The round trip on trees, for every well-formed descriptor tree and every valid object. |
| ObjectCanonical.ReceivedSane | src/object.c:1129-1207 | Whatever field a leaf member accepts, it then holds a value the encoder accepts. |
| ObjectCanonical.ResetSane | src/object.c:722-831 | An initialised object is valid in every part, whatever its storage held. |
| ObjectCanonical.NotTaken | src/object.c:1312-1368 | A field no member takes changes nothing; only an over-index element of the element type is refused. |
| ObjectCanonical.ApplySane | src/object.c:1089-1369 | Whatever fields arrive and are accepted, the object stays valid. |
| ObjectBytes.ParsedOk | src/istream.c:588-1134 | Whatever the grammar accepts is within every ceiling of the format. |
| ObjectBytes.EncodeOk | src/object.c:833-1087 | Whatever the encoder writes of an object, valid or not, is within every ceiling, as deep as the descriptor. |
| ObjectBytes.DecodeIsApply | src/object.c:1089-1369 | Decoding bytes in any chunks is parsing them and applying the fields: OK iff both succeed, with that object. |
| ObjectBytes.RoundTrip | src/object.c:722-1369 | Object round trip: the bytes of any valid object of any well-formed descriptor tree up to 255 levels, fed in any chunks to freshly initialised storage, are answered OK and leave an object of the same value. |
| ObjectStorage.SameObject | src/object.c:833-1087 | Objects of one value are default together and have one encoding. |
| ObjectStorage.ResetAlike | src/object.c:722-831 | After a reset nothing of what the storage held can be told. |
| ObjectStorage.ApplyAlike | src/object.c:1089-1369 | The same fields are accepted into indistinguishable storage or into neither, and leave it indistinguishable: stale bytes never surface. |
| ObjectStorage.Taken | src/object.c:1129-1310 | A field that is taken changes the one member that takes it, the companion count or the tag, and nothing else. |
| ObjectStorage.Canonical | src/object.c:833-1369 | Canonicalisation: whatever bytes are accepted, in whatever chunks, the object re-encodes, decodes to the same value again, and encodes to the same bytes again. |
| ObjectStorage.StorageDoesNotShow | src/object.c:722-831 | Two initialised objects with different leftovers decode a message to the same verdict and value. |
| ObjectLaws.ForeignIsPassedOver | src/object.c:1129-1310 | An undeclared id (in a holder: no over-index element) or a contradicting type leaves object, lengths, counts and tags alone. |
| ObjectLaws.ForeignFieldsAreTransparent | src/object.c:1355-1368 | Skip transparency: such a field, inserted at any field boundary of any scope of any run, changes neither verdict nor object. |
| ObjectLaws.HolderLength | src/object.c:361-388 | After any elements a sized holder's count is the larger of what it was and the highest element id taken plus one. |
| ObjectLaws.WrapperLength | src/object.c:1259-1262 | One occurrence of a sized wrapper leaves its own length, whatever was there. |
| ObjectLaws.Swap | src/object.c:1305-1309 | Two fields of different ids may arrive in either order, in a struct and in a wrapper array, refusals included. |
| ObjectLaws.OrderDoesNotMatter | src/object.c:343-392 | Any rearrangement of fields with distinct ids leaves the same object, or is refused alike. |
| ObjectLaws.MergeAdjacent | src/object.c:1234-1262 | Two occurrences of a struct or union member back to back are one occurrence with both contents. |
| ObjectLaws.ReopenedStructMerges | src/object.c:1234-1262 | The same with fields of other ids in between. |
| ObjectLaws.ReopenedHolderReplaces | src/object.c:1234-1262 | A message in which a wrapper array is re-opened goes on as if only its last occurrence had been sent. |
| ObjectLaws.EmptyEncoding | src/object.c:833-1087 | An object is encoded to nothing iff it is a holder without elements, or not a holder and default throughout. |
| ObjectLaws.ResetIsDefault | src/object.c:722-831 | An initialised object is default, whatever its storage held. |
| ObjectLaws.DefaultIsInitialValue | src/object.c:602-720 | The default test compares values: a valid object passes iff its value is the one an initialised object has. |
| ObjectLaws.InitialValueIsSilent | src/object.c:833-1087 | An initialised object is encoded to zero bytes iff its descriptor is no holder with slots and without a length member. |
| ObjectLaws.PredictionByTest | src/object.c:602-720 | For any storage, valid or not, test and empty encoding part only at a holder with slots and without a length member that passes the test. |
| ObjectLaws.PredictionIsExact | src/object.c:602-720 | The default test is true iff the object would be encoded to zero bytes, with one exact exception: a holder that has slots, has no length member and holds its initial value. |
| ObjectLaws.UnsizedHolderIsMispredicted | src/object.c:628-654 | The exception exists. |
| ObjectValues.InitialValue | src/object.c:247-257 | Told from the descriptor alone, at every level: a leaf that the image covers, its last byte on the extent included, starts with its declared value, any other with zeros, a sized holder empty, a union with the image's tag (0 without an image). |
| ObjectValues.MemberDefault | src/object.c:602-720 | The default test on one member is equality with the value it starts from. |
| ObjectValues.EncodingIsSparse | src/object.c:887-914 | The encoding of a valid object, at every level and in declared order, is exactly the members whose value is not the one they start from, the last element of a wrapper array, and a union's held option unless it is the default one at its starting value. |
| ObjectValues.OnlyChangesAreSent | src/object.c:887-914 | A member's id is on the wire iff it is one of those. |
| LazyRoute.LazyIsEager | src/object.c:833-1087 | Testing before framing and framing lazily describe the same message, member by member. |
| LazyRoute.LazyRouteIsEncoding | src/object.c:833-1087 | Prediction equals hold-back: within the window, the begin-lazy route over structs, unions and sized holders writes exactly the bytes of the object encoder. |
| ObjectEncode.SaneIsEncodable | src/object.c:979-1001 | A valid object has no text the encoder refuses. |
| ObjectEncode.RunFree | src/object.c:833-1087 | With a sink, encoding writes the object's fields behind the held-back headers iff no text is refused, and never reports "buffer full". |
| ObjectEncode.RunCut | src/object.c:1069-1076 | Without a sink the encode run is cut off exactly where the room ends, although it goes on to close its sequences. |
| ObjectEncode.EncodeOnStream | src/object.c:833-1087 | Encoding an object onto any stream succeeds iff no written text is refused and the bytes fit. |
| ObjectEncode.FullBufferKeepsHeaders | src/object.c:1069-1076 | When the held-back headers do not fit, an object encode fails with "buffer full" and keeps the unwritten ones for a retry iff the first thing it writes is a leaf, not a sequence. |
| ObjectEncode.FullBufferDropsHeader | src/ostream.c:181-188 | A concrete object and stream for which a held-back header is lost. |
| ObjectEncode.OrIsBitwise | src/object.c:1069-1076 | Return codes combine bit by bit. |
| ObjectRefusals.ObjectRefusal | src/object.c:979-1001 | The fields of any object's encoding, valid or not, applied to any storage are accepted iff no text in them is one the encoder refuses. |
| ObjectRefusals.RefusedTexts | src/object.c:989-997 | A text is refused iff no byte of its member is zero or, where texts are checked, it is not valid UTF-8. |
| ObjectRefusals.UnterminatedIsRefused | src/object.c:992-997 | A text without a terminator that would be written keeps the encode run from ever answering OK, with or without a sink. |
| ObjectRefusals.RefusedIffUndecodable | src/object.c:833-1369 | The encoder refuses what its own decoder would: an encode run that answers OK has bytes the decoder of the same descriptor accepts, in any chunks and over any storage; with a sink it answers OK iff that is so. |
| ObjectMemory.Memory.Init | src/object.c:722-831 | The loop over descriptor fields resets the object in place and nothing else in memory. |
| ObjectMemory.Memory.SeqLenObserve | src/object.c:361-392 | A sized holder's count rises to cover the element, a union's tag names the option, a struct is left alone. |
| ObjectMemory.Memory.FieldCb | src/object.c:1089-1369 | The lookup loop and its two branches are the callback the decoder theorems are about: storage, read and refusal. |
| ObjectMemory.EncodeObject | src/object.c:833-1087 | The loop over members, with its recursion and or-ed codes, is the encode run. |
| ObjectMemory.SendObject | src/ostream.c:83-132 | Encoded and flushed through a sink, an object arrives whole: the units handed over, without their reserved fronts, are what came before and then exactly the object's bytes, whatever buffers the sink installs; it succeeds iff the decoder of the same descriptor would accept those bytes. |
| ObjectMemory.TextLength | src/object.c:989-990 | The bounded scan finds the first zero, or the end of the member. |
| Collectors.Stream.LatchRefusal | src/include/sofab/sofab.hpp:2099-2106 | The first refusal's category is kept and the core is condemned. |
| Collectors.Stream.RefuseBound | src/include/sofab/sofab.hpp:2623-2634 | The schema bound decides alone where there is one, the receiver cap where there is none; with neither the call itself is at fault. |
| Collectors.BreachIsExact | src/include/sofab/sofab.hpp:2623-2634 | A limit is breached iff none is stated or the one that binds is exceeded, and the category names the one at fault. |
| Collectors.ObjectionIsExact | src/include/sofab/seq.hpp:269-319 | An element is taken iff index and size are within the limits that bind them; when both are not, the index is reported. |
| Collectors.NeverPastTheCeiling | src/include/sofab/seq.hpp:269-319 | No run grows a container past the schema's bound on the index, nor past the cap where the schema states none; with neither nothing is placed. |
| Collectors.Stream.Feed | src/include/sofab/sofab.hpp:2410-2418 | A latched category is what every feed reports, in place of the core's verdict. |
| Collectors.InlineVector.Resize | src/include/sofab/sofab.hpp:787-802 | Kept elements stay, entering and leaving slots become default, an excess length is clamped, no other slot changes. |
| Collectors.InlineVector.EmplaceBack | src/include/sofab/sofab.hpp:811-816 | A default element is appended; once full the last slot is reused and the length stays. |
| Collectors.InlineVector.PushBack | src/include/sofab/sofab.hpp:826-828 | A value is appended; once full it is dropped and the others stay. |
| Collectors.CollectFixed | src/include/sofab/seq.hpp:186-225 | Type first, bound next, then gaps filled and the slot read: a mistyped or over-index element changes nothing, and the fill loop ends because the bound was tested. |
| Collectors.GrowableVector.Collect | src/include/sofab/seq.hpp:269-319 | The same for a growable container, with the schema's bound or the receiver's cap and an optional ceiling on an element. |
| Collectors.PlacementIsByIndex | src/include/sofab/seq.hpp:186-225 | Over any run of elements the size is the highest accepted id plus one, each slot holds what its own accepted elements made of the default, and a slot none names is as it was. |
| Collectors.OthersLeaveNothing | src/include/sofab/seq.hpp:269-319 | Mistyped and refused elements might as well not have arrived. |
| Collectors.FirstWins | src/include/sofab/sofab.hpp:2076-2106 | Whatever arrives later, the category kept is that of the first refused element; none is kept iff every element of the declared type was accepted. |
| Collectors.FixedString.Assign | src/include/sofab/sofab.hpp:391-400 | A text that fits is kept; of a longer valid one the longest valid prefix that fits; the terminator stands behind it. |
| Collectors.FixedString.SetLen | src/include/sofab/sofab.hpp:414-418 | The length is clamped, the terminator stands behind it, and no other byte changes. |
| CollectorDecode.FieldsCollect | src/include/sofab/sofab.hpp:3884-3906 | What a message's fields do through the string collector is the placement of its strings, and it is accepted iff every string is within the ceilings and valid where checked. |
| CollectorDecode.CollectorDecodes | src/include/sofab/sofab.hpp:2410-2418 | For all bytes in all chunks a feed answers OK iff the bytes are a message of welcome strings, whose placement the container then is; a refusal is answered with the category of the first element refused, and whatever the verdict no more slots are grown than the accepted indices need, none past the ceiling on the index, and no slot is longer than the ceiling on an element. |

## Left out

- ObjectLaws.UnsizedHolderIsMispredicted: shows one input only; the exact condition for all inputs is ObjectLaws.PredictionIsExact.
- ObjectEncode.FullBufferDropsHeader: shows one input only; the exact condition for all inputs is ObjectEncode.FullBufferKeepsHeaders.
- DecoderTheorems.Completable: a state with a strict text half read is excluded, since whether it can be completed depends on the bytes already there; under a callback that binds no leaf such a state is never reached (DecoderTheorems.EveryRunIsCompletable).
- Ostream.Ostream.Drain: a sink installs fresh buffers; handing back one used before is not distinguished, since nothing of a buffer is read before it is written. That the higher writers succeed under a sink is stated for sinks that leave room, as the installation asserts (src/ostream.c:425).
- Istream.Istream.OnFixlenRaw: a strict text is validated from a copy of its payload kept beside the destination; that the copy is what lies in memory is Frames.TextIsJudgedInPlace.
- DecoderTheorems.CondemnedDestinationsDiffer: shows one input only; DecoderTheorems.ChunksDoNotMatter gives the condition under which it cannot happen.
- Collectors.Stream.Feed: takes the core's verdict as given; the latch and the decoder together are CollectorDecode.CollectorDecodes, for the string collector over the bytes of one wrapper array.
- Errors of usage: bad read widths (the E_ARGUMENT exits at src/istream.c:751 and 797), callbacks that make two reads for one field, null or zero-length destinations (asserted against at src/istream.c:1206-1208), and 8-byte members in a build with 32-bit values.
- The saturating skip counter, and rollback after "buffer full", which the code does not promise.
- Raw memory: an object is a tree of cells addressed by place, a destination is a name with byte offsets stored through the environment; alignment, padding, host byte order, and the sharing of one storage by a union's options are not modelled (ObjectStorage.ApplyAlike shows that what the other options hold is never seen).
- Floating point: floats are 4- or 8-byte bit patterns.
- The field callback as C code with its own loops and I/O: it is any deterministic function of the application state.
- Rows of native scalars in the C++ collectors, which may be refused by their own count after the outer container has grown; the append path of `read(std::vector<std::string>&)` and the deprecated `trimTail`.
- Template dispatch of the C++ `read` and `write`, ownership and moves, the hosted/freestanding split, the `SOFAB_DISABLE_*` matrix, descriptor width profiles and compile-time assertions.
- Benchmarks, start-up code, packaging and test harnesses.

# Verified model of nanopb and of Alamofire's encoding and request protocols

A Dafny 4.11 project that models the hard code vendored under `KarbantartasNaplo/Pods` and proves properties of it.
`dafny verify dfyconfig.toml` checks everything.

## What is modelled

**nanopb**, the table-driven Protocol Buffers codec. A struct is described by a field table; the model covers all
scalar kinds, bytes, strings, fixed-length bytes and submessages, as required, optional (with and without a
has-flag), repeated, fixed-count and oneof fields, statically allocated, with memory-buffer streams.

- `Bits`, `Varints`, `Scalars`: the wire format's integers and both varint decoders.
- `Fields`: tables, structs (one slot per storage location, union members share one), and what memory can hold.
- `Encoding`, `Decoding`: what the encoder emits and what the decoder makes of any input, as functions.
- `FieldIterators`, `OutputStreams`, `Encoder`, `RequiredBitmap`, `InputStreams`, `Decoder`: the code as it runs, on
  real buffers, with its loops, cursors and sizing passes. Each method is proved to compute exactly those functions,
  so every law about the functions is a law about the code.
- `WireFormat`, `Meanings`: a reader of the wire format that knows no table, what the encoder's bytes say to it, and
  what the decoder makes of payloads in any bytes.
- `Transmission`: a message through one buffer, written by `PbEncode` and read back by `PbDecode`.
- `Merging`, `MergeProof`, `Views`, `RoundTrip`, `MergeViews`, `Concatenation`, `Records`, `Packed`, `Traces`,
  `Tidiness`, `Resending`, `Strangers`, `Defaults`, `Commuting`: the laws. Structs are compared by what a caller can
  observe (`Views.View`): values behind a false has-flag, past a count, past a NUL or of an inactive union member do
  not show.

**Alamofire's URL-encoded form encoder**: `FormTrees` (path-addressed writes that build a tree) and
`FormSerialization` (flattening, escaping, sorting, and a reader that undoes it), and `FormQueries` (what the keys
spell). Text is its UTF-8 bytes; keys are compared by canonical equivalence, as Swift compares strings.

**Alamofire's request protocol**: `RequestTaskMaps` (the two-way map that two events per task dismantle) and
`RequestProtocol` (locked state changes from any thread, racing with task creation, completion and retry). A run is
any sequence of atomic steps: one step per locked section or per step of the serial root queue. Any number of
attempts may be under way at once, each in its own phase. `RequestOutcomes`: whether the processing is bound to
finish.

## Where the code falls short of a plain promise

Each of these is proved with its exact condition.

- The encoder sends a string that fills its whole buffer, and the decoder has no room for its NUL: the round trip
  holds exactly for structs whose sent strings are terminated (`RoundTrip.EncodeDecode`,
  `RoundTrip.FullStringIsRefused`).
- Messages that are concatenated do not merge when the table has exactly one fixed-count array: the completed array
  is taken for one that goes on (`Concatenation.ConcatenationMerges`, `Concatenation.TwiceOneArrayIsRefused`).
- An empty table refuses field number 0 instead of skipping it, because the table's terminator row matches
  (`Records.UnknownFieldTransparent`).
- The 32-bit varint decoder also accepts 64-bit values that are no sign extension of a 32-bit value: groups from bit
  35 on may be all zeros or all ones each, and bits 32 to 34 are never looked at (`Varints.Decoder32Accepts`,
  `Varints.OddValueAccepted`).
- A has-flag-less submessage of which nothing can be observed is still sent when a which-tag in it names no member
  of its union (`WireFormat.ZeroIsLeftOut`, `WireFormat.StrayUnionIsSent`).
- An empty array at the root of a form is encoded as an empty object instead of being refused
  (`FormTrees.RebuildsExactly`, `FormQueries.RootIsObject`).
- Associating a request that still has a task makes the two maps disagree (`RequestTaskMaps.AssociateConsistent`,
  `RequestTaskMaps.LateMetricsRun`).
- Cancellation reaches only a request's last task, and nothing stops a second attempt from starting beside the
  first: two serializers appended to a finished request run the same serializer twice, both runs may retry, and the
  first new task goes on behind the cancelled request. Cancellation is sure to reach every task exactly while at
  most one attempt is in flight (`RequestProtocol.CancelReachesExactly`, `RequestProtocol.TwoRetriesRun`).
- A task and its request's state part exactly at three steps (`RequestProtocol.TaskFollowsState`,
  `RequestProtocol.StepKeepsInLine`): a transition that misses an earlier task; a serializer appended to a finished
  request, which turns its state to resumed while a paused or cancelled task stays so
  (`RequestProtocol.StrandedRun`); and the session's end, which cancels tasks of requests that are not cancelled.
- A cancelled request that its retrier asks to retry is neither retried nor finished: its response handlers are not
  called, unless its session is closed (`RequestOutcomes.NothingIsLost`, `RequestOutcomes.LostRun`).

## Assumptions

- Tables are as the generator emits them (`Fields.TableOk`): distinct non-zero tags below 2^29, consistent sizes,
  and no default value on a field without has-flag. No fixed-count array lies inside a has-flag-less submessage,
  where `pb_check_proto3_default_value` would read its data as a count.
- The width of `pb_size_t` (8, 16 or 32 bits) is left open; everything holds for all three.
- Encoded messages that are decoded are shorter than 2^32 bytes, the decoder's length limit, and encoded lengths
  stay below 2^64.
- `DecodeMerges` and the laws built on it ask that absent submessages hold their defaults, as `pb_decode` leaves
  them.
- `CharacterSet.urlQueryAllowed` is the query set of section 3.4 of RFC 3986, and percent escapes are upper-case
  hexadecimal (section 2.1). Escaped segments are ASCII, so string order is byte order.
- A decision about a request, that is a call of `retryOrFinish`, `finish` or `processNextResponseSerializer`, ends
  in one retry or in the processing being finished: retriers and serializers answer once. A serializer that
  completes hands on to the next.
- An invalidated `URLSession` creates no task. In the protocol the session finishes its requests and is invalidated
  in either order, at any time.
- `DecodedResends` asks that string buffers are not empty, that default values can be sent and read back, and that
  the fixed-count arrays in the memory, which setting defaults does not clear, can be (`Resending.DefaultsTidy`,
  `Tidiness.Usable`). Whatever setting defaults leaves in a fixed-count array fits it and stays sendable.
- What the zero count does to the elements of a fixed-count array (`Decoding.ZERO_COUNT`), what the bytes of another
  union member mean to a new one (`Decoding.UNION_MEMORY`) and the canonical normal form of text
  (`FormTrees.NORMAL_FORM`) are left open: everything holds whatever they are.
- A `URLSessionTask` is created suspended; resuming and suspending only change a task that is suspended or running.

## Model

| member | source | states |
|---|---|---|
| `Varints.VarintLength` | KarbantartasNaplo/Pods/nanopb/pb_encode.c:574-594 | a varint has n bytes exactly when its value is below 2^(7n) and, for n > 1, not below 2^(7(n-1)) |
| `Varints.VarintAtMostTen` | KarbantartasNaplo/Pods/nanopb/pb_encode.c:574-594 | 64-bit values take 1 to 10 bytes |
| `Varints.ReadVarintOfVarint` | KarbantartasNaplo/Pods/nanopb/pb_decode.c:250-270 | the 64-bit decoder gives back every encoded value and stops right behind it |
| `Varints.DecodersAgree` | KarbantartasNaplo/Pods/nanopb/pb_decode.c:182-270 | whatever the 32-bit decoder accepts within ten bytes, the 64-bit decoder accepts from the same bytes; the values agree modulo 2^32 |
| `Varints.Decoder32Accepts` | KarbantartasNaplo/Pods/nanopb/pb_decode.c:182-242 | on every encoder output the 32-bit decoder accepts exactly the values below 2^32 and those that look like a sign extension; below 2^63 exactly the 32-bit values |
| `Varints.OddValueAccepted` | KarbantartasNaplo/Pods/nanopb/pb_decode.c:206-225 | the concrete value that is no sign extension and is taken: 2^63 + 2^31 is read as 2^31 |
| `Varints.ZigZagInverse` | KarbantartasNaplo/Pods/nanopb/pb_encode.c:596-605 | zig-zag maps n to 2n or -2n-1 and the decoder undoes it, in both directions, on all 64-bit values |
| `Scalars.ScalarRoundTrip` | KarbantartasNaplo/Pods/nanopb/pb_encode.c:734-808 | decoding undoes encoding for all five packable kinds, all data sizes and all values, whatever bytes follow |
| `Scalars.DecodersRefuseExactlyMisfits` | KarbantartasNaplo/Pods/nanopb/pb_decode.c:1289-1372 | the integer decoders refuse exactly the wire values their destination cannot hold |
| `Meanings.ReadVarintExactly` | KarbantartasNaplo/Pods/nanopb/pb_decode.c:250-270 | on any bytes the 64-bit decoder takes exactly the varints of at most ten bytes, modulo 2^64 |
| `Meanings.ReadVarint32Exactly` | KarbantartasNaplo/Pods/nanopb/pb_decode.c:182-242 | of the varints of at most ten bytes the 32-bit decoder takes exactly those whose fifth byte, if it is the last, is below 16 and whose later groups are empty or a sign extension |
| `Meanings.UnendedRefused` | KarbantartasNaplo/Pods/nanopb/pb_decode.c:182-270 | a varint that never ends is refused by both decoders |
| `Meanings.ScalarMeant` | KarbantartasNaplo/Pods/nanopb/pb_decode.c:1289-1372 | on any bytes a scalar decoder stores the two's complement, zig-zag or plain number its payload means, with a 32-bit cast for signed fields below eight bytes, and refuses exactly what its destination does not hold |
| `FieldIterators.FieldIter.Begin` | KarbantartasNaplo/Pods/nanopb/pb_common.c:8-18 | the iterator stands on the first row; false exactly for an empty table |
| `FieldIterators.FieldIter.Next` | KarbantartasNaplo/Pods/nanopb/pb_common.c:20-76 | one cyclic step; data offset and required index stay what the table says for the position, unions and arrays included, and a redirected size pointer is recomputed |
| `FieldIterators.FieldIter.Find` | KarbantartasNaplo/Pods/nanopb/pb_common.c:78-95 | finds the tag from any start exactly when some row has it, within one lap; otherwise ends where it began |
| `FieldIterators.SlotsAreDisjoint` | KarbantartasNaplo/Pods/nanopb/pb.h:393-399 | rows outside one union occupy disjoint storage, in table order |
| `FieldIterators.SameSlotSameStorage` | KarbantartasNaplo/Pods/nanopb/pb_common.c:44-50 | members of one union share data offset and which-tag offset |
| `FieldIterators.OffsetsGivenBack` | KarbantartasNaplo/Pods/nanopb/pb.h:393-399 | for a table made from the offsets of members the iterator's sums give these offsets back |
| `OutputStreams.OStream.BufWrite` | KarbantartasNaplo/Pods/nanopb/pb_encode.c:72-82 | copies the bytes to the cursor and changes no other byte |
| `OutputStreams.OStream.Write` | KarbantartasNaplo/Pods/nanopb/pb_encode.c:101-119 | succeeds exactly when the bytes fit, appends exactly them, and touches nothing before the cursor or from the stream's end on |
| `OutputStreams.OStream.EncodeVarint` | KarbantartasNaplo/Pods/nanopb/pb_encode.c:574-594 | emits exactly the varint of the value |
| `OutputStreams.OStream.EncodeSvarint` | KarbantartasNaplo/Pods/nanopb/pb_encode.c:596-605 | emits exactly the varint of the zig-zag value |
| `OutputStreams.OStream.EncodeFixed32` | KarbantartasNaplo/Pods/nanopb/pb_encode.c:607-616 | emits the four bytes, least significant first |
| `OutputStreams.OStream.EncodeFixed64` | KarbantartasNaplo/Pods/nanopb/pb_encode.c:619-632 | emits the eight bytes, least significant first |
| `OutputStreams.OStream.EncodeTag` | KarbantartasNaplo/Pods/nanopb/pb_encode.c:635-639 | emits the varint of 8 * field number + wire type |
| `OutputStreams.OStream.EncodeString` | KarbantartasNaplo/Pods/nanopb/pb_encode.c:674-680 | emits the length and then the bytes |
| `OutputStreams.SizingAgrees` | KarbantartasNaplo/Pods/nanopb/pb_encode.c:682-730 | a sizing pass and a pass into a large enough buffer agree on success and on the number of bytes |
| `Encoder.CheckProto3Default` | KarbantartasNaplo/Pods/nanopb/pb_encode.c:215-303 | decides exactly whether the field's storage is zero, submessages row by row |
| `Encoder.MeasurePacked` | KarbantartasNaplo/Pods/nanopb/pb_encode.c:145-165 | the size found beforehand is the length of the data, and it is found exactly when every element is encodable |
| `Encoder.EncodePackedArray` | KarbantartasNaplo/Pods/nanopb/pb_encode.c:140-181 | emits tag, length and elements; the measuring pass always agrees with the writing pass |
| `Encoder.EncodeArrayField` | KarbantartasNaplo/Pods/nanopb/pb_encode.c:126-211 | emits the specified bytes of an array, packed or tagged, and refuses exactly counts above array_size |
| `Encoder.EncodeTagAndValue` | KarbantartasNaplo/Pods/nanopb/pb_encode.c:641-672 | emits a field's tag and its value |
| `Encoder.EncodeBasicField` | KarbantartasNaplo/Pods/nanopb/pb_encode.c:307-392 | emits exactly the specified bytes of a required, optional, repeated or oneof field |
| `Encoder.EncodeSubmessage` | KarbantartasNaplo/Pods/nanopb/pb_encode.c:682-730 | emits length and body, or fails without harm; the size never changes between the two passes |
| `Encoder.PbEncode` | KarbantartasNaplo/Pods/nanopb/pb_encode.c:494-516 | succeeds exactly when the struct is encodable and fits, and appends exactly its encoding |
| `Encoder.PbEncodeDelimited` | KarbantartasNaplo/Pods/nanopb/pb_encode.c:518-521 | appends the encoding behind its length |
| `Encoder.PbEncodeNullterminated` | KarbantartasNaplo/Pods/nanopb/pb_encode.c:523-531 | appends the encoding and a zero byte |
| `Encoder.PbGetEncodedSize` | KarbantartasNaplo/Pods/nanopb/pb_encode.c:533-542 | returns the length of the encoding, and fails exactly when there is none |
| `WireFormat.EncodingSays` | KarbantartasNaplo/Pods/nanopb/pb_encode.c:494-516 | a reader that knows only the wire format finds in every encoding the records of the observable values, in table order, with the literal wire types 0, 1, 2 and 5 of their kinds, at every depth |
| `WireFormat.ZeroIsLeftOut` | KarbantartasNaplo/Pods/nanopb/pb_encode.c:215-303 | a proto3 field is left out exactly when its observable value is zero, a message when each of its rows is empty or zero, and no which-tag in it names a stranger; zeros of a fixed length above 0 are sent |
| `WireFormat.StrayUnionIsSent` | KarbantartasNaplo/Pods/nanopb/pb_encode.c:231-235 | the concrete struct in which nothing can be observed and which is sent |
| `WireFormat.EncodableExactly` | KarbantartasNaplo/Pods/nanopb/pb_encode.c:126-211 | a struct has an encoding exactly when no array and no byte array that is sent exceeds its storage, at any depth |
| `InputStreams.IStream.Read` | KarbantartasNaplo/Pods/nanopb/pb_decode.c:85-132 | returns the next bytes exactly when there are that many; the stream's end does not move |
| `InputStreams.IStream.DecodeVarint` | KarbantartasNaplo/Pods/nanopb/pb_decode.c:250-270 | the loop computes the specified 64-bit value or refuses |
| `InputStreams.IStream.DecodeVarint32Eof` | KarbantartasNaplo/Pods/nanopb/pb_decode.c:182-242 | the loop with its wrapping 8-bit bit position computes the specified 32-bit value or refuses |
| `InputStreams.IStream.DecodeSvarint` | KarbantartasNaplo/Pods/nanopb/pb_decode.c:1240-1252 | reads a varint and undoes zig-zag |
| `InputStreams.IStream.DecodeFixed32` | KarbantartasNaplo/Pods/nanopb/pb_decode.c:1254-1266 | puts four bytes together, least significant first |
| `InputStreams.IStream.DecodeFixed64` | KarbantartasNaplo/Pods/nanopb/pb_decode.c:1269-1286 | puts eight bytes together, least significant first |
| `InputStreams.IStream.SkipField` | KarbantartasNaplo/Pods/nanopb/pb_decode.c:316-326 | skips exactly one payload of each wire type |
| `InputStreams.IStream.DecodeTag` | KarbantartasNaplo/Pods/nanopb/pb_decode.c:293-314 | splits the tag; tells the end of input and a zero tag from a broken one |
| `InputStreams.IStream.MakeStringSubstream` | KarbantartasNaplo/Pods/nanopb/pb_decode.c:367-380 | the substream is exactly the length-prefixed block |
| `InputStreams.IStream.CloseStringSubstream` | KarbantartasNaplo/Pods/nanopb/pb_decode.c:382-395 | the parent goes on right behind the block, however much was read inside |
| `Decoder.DecVarint` | KarbantartasNaplo/Pods/nanopb/pb_decode.c:1289-1324 | decodes into a signed integer of the field's size, or refuses |
| `Decoder.DecUvarint` | KarbantartasNaplo/Pods/nanopb/pb_decode.c:1326-1348 | decodes into an unsigned integer of the field's size, or refuses |
| `Decoder.DecSvarint` | KarbantartasNaplo/Pods/nanopb/pb_decode.c:1350-1372 | decodes a zig-zag value into the field's size, or refuses |
| `Decoder.DecBytes` | KarbantartasNaplo/Pods/nanopb/pb_decode.c:1391-1426 | fills the byte array and its size, or refuses what has no room |
| `Decoder.DecString` | KarbantartasNaplo/Pods/nanopb/pb_decode.c:1428-1461 | fills the string and its NUL, or refuses what has no room, the 32-bit overflow of the length included |
| `Decoder.DecFixedLengthBytes` | KarbantartasNaplo/Pods/nanopb/pb_decode.c:1487-1508 | takes exactly the fixed length; an empty block stands for zeros |
| `Decoder.PbFieldSetToDefault` | KarbantartasNaplo/Pods/nanopb/pb_decode.c:812-882 | puts a field's default into its storage |
| `Decoder.PbMessageSetToDefaults` | KarbantartasNaplo/Pods/nanopb/pb_decode.c:884-895 | puts every row's default, recursively |
| `Decoder.DecSubmessage` | KarbantartasNaplo/Pods/nanopb/pb_decode.c:1463-1485 | decodes the block into the nested struct, with defaults first for array elements only |
| `Decoder.DecRepeated` | KarbantartasNaplo/Pods/nanopb/pb_decode.c:419-459 | one packed block or one element goes behind the elements counted; no element at or past array_size is written |
| `Decoder.DecodeStaticField` | KarbantartasNaplo/Pods/nanopb/pb_decode.c:401-475 | decodes one record's payload for the row the iterator stands on |
| `Decoder.SelectFixedCount` | KarbantartasNaplo/Pods/nanopb/pb_decode.c:964-986 | redirects the size pointer for a fixed-count array and refuses to leave one unfinished |
| `Decoder.CountRequired` | KarbantartasNaplo/Pods/nanopb/pb_decode.c:1008-1025 | counts the required rows, at most 64, by running the iterator to the end |
| `Decoder.DecodeOneRecord` | KarbantartasNaplo/Pods/nanopb/pb_decode.c:933-996 | one record: found and decoded, or skipped |
| `Decoder.DecodeRecords` | KarbantartasNaplo/Pods/nanopb/pb_decode.c:919-997 | the main loop terminates on every input and ends exactly where and with what the specified loop does |
| `Decoder.PbDecodeNoinit` | KarbantartasNaplo/Pods/nanopb/pb_decode.c:901-1049 | terminates on every input and returns exactly the specified struct, or fails exactly when there is none; the stream's end does not move |
| `Decoder.PbDecode` | KarbantartasNaplo/Pods/nanopb/pb_decode.c:1051-1063 | the same after setting all defaults |
| `Decoder.PbDecodeDelimited` | KarbantartasNaplo/Pods/nanopb/pb_decode.c:1080-1093 | decodes one length-prefixed message and stops right behind it |
| `RequiredBitmap.Mark` | KarbantartasNaplo/Pods/nanopb/pb_decode.c:988-993 | sets exactly one mark |
| `RequiredBitmap.AllMarked` | KarbantartasNaplo/Pods/nanopb/pb_decode.c:1027-1045 | the whole-word and remaining-bits checks together are set inclusion, for every count |
| `MergeProof.MessageStep` | KarbantartasNaplo/Pods/nanopb/pb_decode.c:901-1049 | pb_decode_noinit of what pb_encode wrote is exactly the merge into the old memory, byte for byte, and fails exactly when there is none |
| `RoundTrip.EncodeDecode` | KarbantartasNaplo/Pods/nanopb/pb_decode.c:1051-1063 | decoding exactly what was encoded, into any memory, shows the same struct; it fails exactly when a string that is sent has no NUL in its buffer |
| `RoundTrip.FullStringIsRefused` | KarbantartasNaplo/Pods/nanopb/pb_decode.c:1438-1461 | the concrete struct that is encoded and cannot be decoded |
| `Transmission.SendAndReceive` | KarbantartasNaplo/Pods/nanopb/pb_encode.c:494-516 | over one real buffer: sending fits exactly when there is an encoding no longer than the buffer; decoding what was written, into any memory, works exactly when the strings sent are terminated and shows the struct that was sent |
| `Resending.DecodedResends` | KarbantartasNaplo/Pods/nanopb/pb_decode.c:1051-1063 | whatever the decoder accepts from arbitrary bytes into any usable memory can be encoded again, all its strings are terminated, and below 2^32 bytes it decodes to the same struct |
| `RoundTrip.DelimitedRoundTrip` | KarbantartasNaplo/Pods/nanopb/pb_decode.c:1080-1093 | the same for one length-prefixed message, whatever follows it |
| `RoundTrip.StreamRoundTrip` | KarbantartasNaplo/Pods/nanopb/pb_encode.c:518-521 | a stream of length-prefixed messages comes back as the same list, and the cursor ends behind it |
| `MergeViews.DecodeMerges` | KarbantartasNaplo/Pods/nanopb/pb_decode.h:70-76 | pb_decode_noinit into a struct merges: scalars replaced, arrays appended, submessages merged, unions and fixed-count arrays replaced; it fails exactly on array overflow or a string without NUL |
| `Concatenation.ConcatenationMerges` | KarbantartasNaplo/Pods/nanopb/pb_decode.c:901-1049 | decoding two encodings in a row shows the merge of the two; it fails exactly on a string without NUL, an array overflow, or a table with exactly one fixed-count array |
| `Concatenation.LoneFixedCountFails` | KarbantartasNaplo/Pods/nanopb/pb_decode.c:908-913 | a completed fixed-count array that arrives again with no other one in between is refused |
| `Concatenation.TwiceOneArrayIsRefused` | KarbantartasNaplo/Pods/nanopb/pb_decode.c:908-986 | the concrete table and struct whose encoding is decoded, and refused when it comes twice |
| `Concatenation.DefaultsTwice` | KarbantartasNaplo/Pods/nanopb/pb_decode.c:884-895 | setting defaults is idempotent |
| `Records.RunThen` | KarbantartasNaplo/Pods/nanopb/pb_decode.c:919-997 | decoding may be cut at any record boundary |
| `Records.UnknownSkipped` | KarbantartasNaplo/Pods/nanopb/pb_decode.c:933-962 | any bytes the decoder reads as one record with a field number outside the table, over-long varints included, leave every state as it is, exactly unless the table is empty and the number is 0 |
| `Records.FormatIsRecord` | KarbantartasNaplo/Pods/nanopb/pb_decode.c:316-326 | every payload of the wire format behind its tag is read as one such record |
| `Records.UnknownFieldTransparent` | KarbantartasNaplo/Pods/nanopb/pb_decode.c:933-986 | such a record, inserted at any boundary before a terminator, never changes the outcome, exactly unless the table is empty and the number is 0 |
| `Strangers.StrangersAreSkipped` | KarbantartasNaplo/Pods/nanopb/pb_decode.c:933-962 | an encoding is nothing to a table that shares no field number with it: skipped anywhere, and alone decoded to the unchanged struct, exactly unless that table has a required field |
| `Strangers.TerminatorEnds` | KarbantartasNaplo/Pods/nanopb/pb_decode.c:293-314 | a zero tag ends the message, whatever follows it |
| `Strangers.TerminatedBlock` | KarbantartasNaplo/Pods/nanopb/pb_decode.c:1463-1485 | a submessage's block may go on behind a zero tag; the rest of it counts as read |
| `Strangers.NullterminatedRoundTrip` | KarbantartasNaplo/Pods/nanopb/pb_encode.c:523-531 | what pb_encode_nullterminated wrote is read back whatever follows it, and the cursor ends behind the zero byte |
| `Meanings.SkipsThePayload` | KarbantartasNaplo/Pods/nanopb/pb_decode.c:316-326 | wire types 0, 1 and 5 are skipped as far as the payload goes; 3, 4, 6 and 7 are refused |
| `Meanings.PackedMeant` | KarbantartasNaplo/Pods/nanopb/pb_decode.c:419-450 | on any bytes a packed block is refused exactly when a payload in it is malformed or the array has no room |
| `Meanings.BytesMeant` | KarbantartasNaplo/Pods/nanopb/pb_decode.c:1391-1508 | which blocks a byte array, a string and a fixed-length field take, and what they then show; an empty block makes a fixed-length field all zeros |
| `Meanings.SubmessageMeant` | KarbantartasNaplo/Pods/nanopb/pb_decode.c:1463-1485 | a submessage is its block decoded as a message, its own required fields included; an array element on defaults, any other onto what was there |
| `Meanings.WireTypeIgnored` | KarbantartasNaplo/Pods/nanopb/pb_decode.c:401-475 | the wire type of a known field is not looked at, except for type 2 at a scalar array |
| `Commuting.DifferentFieldsCommute` | KarbantartasNaplo/Pods/nanopb/pb_decode.c:919-997 | records of different fields may be swapped anywhere, unless both are of fixed-count arrays |
| `Defaults.DefaultsReady` | KarbantartasNaplo/Pods/nanopb/pb_decode.c:812-895 | setting defaults stores the table's default value, or zeros, in every row, unsets flags, counts and unions, at every depth, whatever the memory held |
| `Defaults.DefaultsArrive` | KarbantartasNaplo/Pods/nanopb/pb_decode.c:1051-1063 | after pb_decode a row that no record was for is unset and holds exactly its default value, or zeros, at every depth |
| `Defaults.NestedDefaultsArrive` | KarbantartasNaplo/Pods/nanopb/pb_decode.c:1463-1485 | the same inside an array element and a new union member; any other submessage keeps what it held |
| `Defaults.NetworkInfoDefaults` | KarbantartasNaplo/Pods/GoogleDataTransportCCTSupport/GoogleDataTransportCCTSupport/GDTCCTLibrary/Protogen/nanopb/cct.nanopb.c:43-47 | a table of the repository: nothing decoded into used memory stores the default value -1 |
| `Packed.PackedAndUnpackedAgree` | KarbantartasNaplo/Pods/nanopb/pb_decode.c:419-459 | any mix of packed blocks and single elements, fixed-count arrays included, stores the concatenation if the array may be entered and has room, and fails otherwise; no other element changes |
| `Traces.RequiredRowsReceived` | KarbantartasNaplo/Pods/nanopb/pb_decode.c:1006-1046 | decoding succeeds exactly when each of the first 64 required rows occurred in the input |
| `Traces.ElementsCounted` | KarbantartasNaplo/Pods/nanopb/pb_decode.c:419-459 | the counter grows by exactly the number of elements in the record: one, or the scalars in the packed block |
| `Traces.FixedCountRuns` | KarbantartasNaplo/Pods/nanopb/pb_decode.c:964-1004 | after a successful decode every maximal run of one fixed-count field brought exactly array_size elements in the input |
| `FormTrees.SetContext` | KarbantartasNaplo/Pods/Alamofire/Source/URLEncodedFormEncoder.swift:497-547 | the recursive write computes the specified tree |
| `FormTrees.SetThenGet` | KarbantartasNaplo/Pods/Alamofire/Source/URLEncodedFormEncoder.swift:492-547 | a write can be read back at its path exactly when every index on it is an element's or the next one |
| `FormTrees.SetKeepsDiverging` | KarbantartasNaplo/Pods/Alamofire/Source/URLEncodedFormEncoder.swift:497-547 | a write changes nothing at a diverging path, except that the other kind of key at the fork is dropped |
| `FormTrees.WritesAreClipped` | KarbantartasNaplo/Pods/Alamofire/Source/URLEncodedFormEncoder.swift:497-547 | a write whose indices lie beyond the elements is the write at the next index, and is read back there |
| `FormTrees.MemberWritten` | KarbantartasNaplo/Pods/Alamofire/Source/URLEncodedFormEncoder.swift:535-545 | a member keeps its place and takes the spelling of the written name; all other members stay |
| `FormTrees.UnkeyedContainer.NestedContainerPath` | KarbantartasNaplo/Pods/Alamofire/Source/URLEncodedFormEncoder.swift:803-868 | each element's path ends in the number of elements before it |
| `FormTrees.EncodeInto` | KarbantartasNaplo/Pods/Alamofire/Source/URLEncodedFormEncoder.swift:792-868 | the containers write the leaves in traversal order and nothing else |
| `FormTrees.RebuildsExactly` | KarbantartasNaplo/Pods/Alamofire/Source/URLEncodedFormEncoder.swift:354-363 | replaying a tree's leaves from an empty object gives the tree back exactly when keys are unique, no inner container is empty, and it is not an empty root array |
| `FormTrees.EncodeTree` | KarbantartasNaplo/Pods/Alamofire/Source/URLEncodedFormEncoder.swift:354-363 | the encoder's tree is the value's own tree under exactly that condition |
| `FormSerialization.SerializeRoot` | KarbantartasNaplo/Pods/Alamofire/Source/URLEncodedFormEncoder.swift:900-909 | the appending loop yields the specified query |
| `FormSerialization.UnescapeEscape` | KarbantartasNaplo/Pods/Alamofire/Source/URLEncodedFormEncoder.swift:939-972 | escapes are undone, with both space encodings, for all bytes |
| `FormSerialization.EscapedIsClean` | KarbantartasNaplo/Pods/Alamofire/Source/URLEncodedFormEncoder.swift:955-972 | no separator survives escaping |
| `FormSerialization.SerializationIsInvertible` | KarbantartasNaplo/Pods/Alamofire/Source/URLEncodedFormEncoder.swift:900-953 | splitting and unescaping the output gives exactly the multiset of the tree's key/value pairs, in the tree's order when nothing is sorted; for every tree and every key encoding |
| `FormQueries.KeysSpellPaths` | KarbantartasNaplo/Pods/Alamofire/Source/URLEncodedFormEncoder.swift:911-938 | the pairs of a tree are one for each leaf: the first name of its path, then [name] for each further name and [] for each element if arrays have brackets, passed through the key encoding |
| `FormQueries.KeyReadsBack` | KarbantartasNaplo/Pods/Alamofire/Source/URLEncodedFormEncoder.swift:911-938 | with brackets a key gives its path back, up to the numbers of elements, when no name holds a bracket and no inner name is empty |
| `FormSerialization.EscapeWrites` | KarbantartasNaplo/Pods/Alamofire/Source/URLEncodedFormEncoder.swift:939-972 | which bytes stay as they are, and the exact form of the space and of every other byte |
| `FormSerialization.LeqIsLexicographic` | KarbantartasNaplo/Pods/Alamofire/Source/URLEncodedFormEncoder.swift:900-936 | the order that sorts is the order of dictionaries |
| `FormSerialization.SortedSorts` | KarbantartasNaplo/Pods/Alamofire/Source/URLEncodedFormEncoder.swift:906-936 | sorted() is an increasing arrangement of the same segments |
| `FormSerialization.SerializationForgetsOrder` | KarbantartasNaplo/Pods/Alamofire/Source/URLEncodedFormEncoder.swift:303-308 | with sorting on, the output does not depend on the order of dictionary entries at any depth |
| `FormQueries.RootIsObject` | KarbantartasNaplo/Pods/Alamofire/Source/URLEncodedFormEncoder.swift:371-376 | the built root is an object exactly for objects and for values without any leaf |
| `FormQueries.EncodeQuery` | KarbantartasNaplo/Pods/Alamofire/Source/URLEncodedFormEncoder.swift:371-386 | invalidRootObject exactly for values with leaves that are no object; otherwise a buildable object's query reads back as one pair for each of its leaves, under the key that spells the leaf's path, in order when nothing is sorted |
| `RequestTaskMaps.RequestTaskMap.SetTask` | KarbantartasNaplo/Pods/Alamofire/Source/RequestTaskMap.swift:45-64 | the setter of the subscript by request; fatalError exactly when nothing is there to remove |
| `RequestTaskMaps.RequestTaskMap.SetRequest` | KarbantartasNaplo/Pods/Alamofire/Source/RequestTaskMap.swift:66-85 | the setter of the subscript by task; fatalError exactly when nothing is there to remove |
| `RequestTaskMaps.RequestTaskMap.DisassociateIfNecessaryAfterGatheringMetrics` | KarbantartasNaplo/Pods/Alamofire/Source/RequestTaskMap.swift:113-123 | records the event, or removes the pair when it is the second one; fatalError exactly on an unknown task or a repeated event |
| `RequestTaskMaps.RequestTaskMap.DisassociateIfNecessaryAfterCompleting` | KarbantartasNaplo/Pods/Alamofire/Source/RequestTaskMap.swift:125-135 | the same for completion |
| `RequestTaskMaps.RequestTaskMap.Count` | KarbantartasNaplo/Pods/Alamofire/Source/RequestTaskMap.swift:87-98 | the three dictionaries have the same size while the maps are consistent |
| `RequestTaskMaps.AssociateConsistent` | KarbantartasNaplo/Pods/Alamofire/Source/RequestTaskMap.swift:60-62 | a new pair keeps the maps consistent exactly when neither side is in use with another partner |
| `RequestTaskMaps.RunIsSound` | KarbantartasNaplo/Pods/Alamofire/Source/RequestTaskMap.swift:45-135 | a whole run stays consistent and free of fatalErrors exactly when its history is disciplined; then the maps hold exactly the pairs whose task has had fewer than two events |
| `RequestTaskMaps.EitherOrder` | KarbantartasNaplo/Pods/Alamofire/Source/RequestTaskMap.swift:113-135 | the pair goes at the second event, in either order, and nothing else changes |
| `RequestTaskMaps.LateMetricsRun` | KarbantartasNaplo/Pods/Alamofire/Source/RequestTaskMap.swift:113-123 | the concrete run: a retry gets its second task before the first one's metrics arrive, and the late event removes the entry of the request |
| `RequestProtocol.Request.Resume` | KarbantartasNaplo/Pods/Alamofire/Source/Request.swift:651-666 | from initialized, resumed or suspended the request is resumed, and its paused current task runs; otherwise nothing changes |
| `RequestProtocol.Request.Suspend` | KarbantartasNaplo/Pods/Alamofire/Source/Request.swift:630-645 | from initialized, resumed or suspended the request is suspended, and its running current task pauses; otherwise nothing changes |
| `RequestProtocol.Request.Cancel` | KarbantartasNaplo/Pods/Alamofire/Source/Request.swift:604-624 | from initialized, resumed or suspended the request is cancelled, and its uncompleted current task is canceling; finish is scheduled exactly when there is no such task |
| `RequestProtocol.Request.DidCreateTask` | KarbantartasNaplo/Pods/Alamofire/Source/Request.swift:345-349 | the new task becomes the current one, with whatever status it has |
| `RequestProtocol.Request.FinishProcessing` | KarbantartasNaplo/Pods/Alamofire/Source/Request.swift:508-533 | the state finishes if it may, and processing is marked finished for good |
| `RequestProtocol.Request.AppendResponseSerializer` | KarbantartasNaplo/Pods/Alamofire/Source/Request.swift:472-488 | a finished state turns to resumed and no task is touched; processing is scheduled exactly when it was finished once |
| `RequestProtocol.UpdateStatesForTask` | KarbantartasNaplo/Pods/Alamofire/Source/Session.swift:923-942 | brings a task in line with the state read under the lock and touches nothing else |
| `RequestProtocol.CallsTakeEffect` | KarbantartasNaplo/Pods/Alamofire/Source/Request.swift:50-63 | from every state but cancelled and finished, resume, suspend and cancel lead to their own state, with the last task; the end of the processing finishes every request that is not cancelled |
| `RequestProtocol.NoLiveTaskBehindCancel` | KarbantartasNaplo/Pods/Alamofire/Source/Session.swift:901-942 | in every interleaving in which no attempt starts while another is in flight, each task of a cancelled request is canceling or completed once updateStatesForTask has run |
| `RequestProtocol.OneAttemptAtATime` | KarbantartasNaplo/Pods/Alamofire/Source/Session.swift:998-1013 | after every step of a run at most one attempt has or may get a live task, and only the last task is live, exactly when no retry starts an attempt while another is in flight |
| `RequestProtocol.CancelReachesExactly` | KarbantartasNaplo/Pods/Alamofire/Source/Request.swift:604-624 | at any moment before cancellation: cancellation reaches every live task in every continuation without a further retry exactly when at most one attempt is in flight, with the last task |
| `RequestProtocol.OneDecisionOneAttempt` | KarbantartasNaplo/Pods/Alamofire/Source/Request.swift:441-470 | no attempt starts with another in flight as long as no serializer is appended after processing was finished once, and the session does not finish the request, while an attempt or a decision is open |
| `RequestProtocol.TwoRetriesRun` | KarbantartasNaplo/Pods/Alamofire/Source/Request.swift:472-508 | the concrete run: two serializers appended to a finished request both lead to a retry, and cancel leaves the first new task running |
| `RequestProtocol.TaskFollowsState` | KarbantartasNaplo/Pods/Alamofire/Source/Session.swift:923-942 | the status of every task that passed updateStatesForTask matches the request's state throughout a run exactly when no step of the run strands one |
| `RequestProtocol.StepKeepsInLine` | KarbantartasNaplo/Pods/Alamofire/Source/Request.swift:472-488 | the stranding steps, exactly: a transition while an earlier task is uncompleted, a serializer appended to a finished request whose task is paused or canceling, and the invalidation of the session while the state is open, for a task settled then or later |
| `RequestProtocol.InLineUntilFinish` | KarbantartasNaplo/Pods/Alamofire/Source/Request.swift:604-666 | until the request finishes or its session is closed nothing strands a task and cancellation reaches every task, in every interleaving |
| `RequestProtocol.StrandedRun` | KarbantartasNaplo/Pods/Alamofire/Source/Session.swift:196-199 | the concrete run: the session finishes a suspended request and cancels its task; a serializer appended then leaves a resumed request with a canceling task |
| `RequestProtocol.CancelIsFinal` | KarbantartasNaplo/Pods/Alamofire/Source/Request.swift:40-63 | a cancelled request stays cancelled and gets no further task beyond those whose isCancelled check came first |
| `RequestOutcomes.NothingIsLost` | KarbantartasNaplo/Pods/Alamofire/Source/Request.swift:411-470 | throughout a run the processing is finished, or a decision is open, or an attempt will end in one, exactly when no last open decision is to retry a cancelled request |
| `RequestOutcomes.LostRun` | KarbantartasNaplo/Pods/Alamofire/Source/Session.swift:998-1003 | the concrete run: a cancelled request is to be retried, and nothing is left that could finish it |

## Left out

- DefaultSlot: does not model the zero count of a fixed-count array that is shorter than a `pb_size_t`, which spills
  over the array's end into other storage.
- NoLiveTaskBehindCancel: does not include the time between the isCancelled check and updateStatesForTask, when the
  code itself has a live task behind a cancelled request; nor runs with overlapping attempts, which can go on to
  break it.
- Pointer fields, `allocate_field` and `pb_release`, and with them the "invalid union tag" error that
  `pb_release_union_field` can raise for memory whose which-tag names no member: they need a heap model.
- Cyclic descriptor graphs: a struct without pointer and callback fields cannot contain itself, so tables are finite
  trees; the decoder's recursion is still measured by the bytes left, not by the table.
- Extension fields, callback fields and custom stream callbacks: their behaviour is the user's.
- The builds with `PB_WITHOUT_64BIT`, and the meaning of floats and doubles, which are raw 4- and 8-byte values
  here.
- Wrap-around of `size_t` in `bytes_written + count`.
- Error messages and `errmsg`.
- Struct members are written through values handed back by methods, so aliasing between a message and the stream's
  buffer, and half-written structs after a failed decode, are not described.
- Form keys that carry both an integer and a string, custom allowed-character sets, and what the snake-case,
  kebab-case and other key encodings compute: the key encoding is any function from text to text.
- How dates, data, booleans and numbers become text before they are written to the tree, and `superEncoder`.
- Response serializers as such, progress, redirects, credentials and events of a request: only the state changes
  count.
- `DownloadRequest`'s cancellation that produces resume data: it takes the same transition as `cancel`, with another
  call on its `URLSessionTask`.
- The rest of Alamofire, the app's controllers and views, Firestore and BoringSSL: plumbing over system libraries.

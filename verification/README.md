# nanopb codec, LRU cache, emoji table and UTF-8 truncation, verified

This project models four parts of the repository and proves what they are for.

* **The nanopb protobuf codec** (`SelfLearning/Pods/nanopb`), the main part: descriptors and the
  structs they lay out, the circular field iterator, the encoder with its sizing and writing
  passes, the decoder with its record loop, substreams and required-field bit set.
* **The LRU cache** (`LRUCache.swift`).
* **The emoji range merger** (`emoji_ranges.py`) and the search over its output
  (`DisplayableText.swift`).
* **The prefix search** `truncated(toByteCount:)` (`String+OWS.swift`).

## How the codec is modelled

A descriptor is the sequence of its `pb_field_t` entries without the terminator. The memory of
a message struct is one `Slot` per struct member: what `pSize` points at and what `pData` points
at, at field granularity. `pb_size_t` is 32 bits wide, as the build setting `PB_FIELD_32BIT=1` of
the nanopb pod makes it.

`Contents` maps the memory of a struct to what it means (has flags, counts, which tags, live
items) and drops what no reader can reach. A count or size that points past its array or buffer is
cut off there; `StructBounded` says that none does, every decoder keeps it, `Decode` establishes it
whatever the struct held, and `SameContentsSameStruct` turns equal contents into equal memory.

On contents, `Encoding` and `Decoding` say what bytes mean a message, without streams, and the laws
are proved about these functions: the round trip, concatenation, transparency of unknown fields,
packed against unpacked. What these functions rest on is stated a second time without them: initial
memory (`StructIsInitial`), integers (`UnsignedExact`, `SignedExact`), layout (`StorageDisjoint`), wire
type numbers (`Walk`), which records an input has (`Occurs`), what adds no bytes (`SlotIsSilent`).
The C functions are methods in `Encoder` and `Decoder` on mutable streams
(`OStream`, `IStream`), a mutable iterator (`FieldIter`) and a mutable struct (`MessageStruct`).
Each is proved against the functions on contents, on success and on failure. `Exchange.Transfer`
puts the two together.

Every output operation promises `Emits`: it succeeds exactly when nothing refuses and there is
room, then adds exactly its bytes, and otherwise has changed nothing outside the free part of its
window. The same promise covers sizing streams, so that the two passes agree by construction of
the contract and "submsg size changed" is unreachable. Every input operation keeps position plus
`bytes_left` (`IStream.End`) when it succeeds.

The order of the files: `Wire`, `Descriptor`, `Integers`, `FieldIter`, `RequiredBits`, `Message`,
`Encoding`, `Decoding`, `Validity`, `RoundTrip`, `Concatenation`, `Occurrence`, `WireNumbers`,
`WireLaws`, `Merging`, `Observation`, `Accepted`, `Projection`, `OStream`, `Encoder`, `IStream`, `Refinement`, `Decoder`,
`SameStruct`, `Exchange`; then `LruCache`, `EmojiRanges`, `Truncate`.

## Where the code differs from what one might expect

* A string that fills its char array without a NUL is encoded, but the result is not decoded
  (`pb_encode.c:755`, `pb_decode.c:1308-1326`). `MessageRoundTrip` and `Transfer` are exact about
  this: decoding succeeds if and only if every live string has its NUL.
  `UnterminatedStringIsRefused` is an input.
* A record header that is cut off by the end of the input, or that overflows exactly there, ends
  the message as if nothing were there, and so does a header that reads as 0
  (`pb_decode.c:258-270`). `EndsHere` says which bytes these are, `MessageEndsEarly` what they do.
* Two records of a submessage in a oneof are not merged, also when both select the same member:
  the member is reset in between (`pb_decode.c:415-424`). The section "Last One Wins" of the
  Protocol Buffers encoding document would merge them. `SubmessageRecordsMerge` covers both cases,
  `OneofRecordsDoNotMerge` is an input where the results differ.
* The terminator of an empty descriptor answers to tag 0 (`pb_common.c:83`), and its decoder then
  rejects the record. `FieldIter.Find` and `ParseRecord` keep this case,
  `EmptyDescriptorRejectsTagZero` states it; every other descriptor skips tag 0 like any unknown tag.
* The iterator goes on behind the last member of a union, whatever the size of the others
  (`pb_common.c:44-72`). `StorageDisjoint` holds for fields with storage of their own; `NoOverlap` is
  the exact condition on the offset behind a union, and `UnionOverlaps` a descriptor that breaks it.
* The wire type of a record is not compared with the type of its field, except to tell packed
  from unpacked (`pb_decode.c:375-376`). `WireTypeIsNotChecked` states it.

## Model

| member | source | states |
|---|---|---|
| Exchange.Transfer | SelfLearning/Pods/nanopb/pb_encode.c:451-473 | Encode a struct into a buffer, decode exactly the written bytes into another struct: sending succeeds iff every live count and bytes size is legal and the buffer is large enough, receiving iff also every live string is terminated, and then every count, size, flag, tag and live item in the memory of the two structs agrees and stays within its array or buffer, whatever the destination held |
| Exchange.ContentsAreValid | SelfLearning/Pods/nanopb/pb.h:232-262 | Whatever a struct of the right layout holds, its content, with counts cut off at the capacity, is a valid message: in range and with at most one union member selected |
| Exchange.SentIsReceived | SelfLearning/Pods/nanopb/pb_decode.c:955-967 | Decoding the encoding of a struct succeeds iff every live string is terminated, reads all bytes, and gives an observably equal message |
| Exchange.UnterminatedStringIsRefused | SelfLearning/Pods/nanopb/pb_encode.c:739-763 | A struct with a char array without NUL that is encoded, and whose bytes are not decoded |
| SameStructs.SameContentsSameStruct | SelfLearning/Pods/nanopb/pb_decode.c:955-967 | For structs that the encoder accepts, equal contents mean equal counts, sizes, flags, tags and live items in memory, at any depth |
| SameStructs.BoundedIsEncodable | SelfLearning/Pods/nanopb/pb_encode.c:126-127 | A struct with all counts and sizes in bounds, as the decoder leaves it, is one that the encoder does not refuse |
| RoundTrip.MessageRoundTrip | SelfLearning/Pods/nanopb/pb_decode.c:852-967 | For every well-formed descriptor, nested to any depth, and every valid content: decode after encode succeeds iff the live strings are terminated, and gives the content with absent optional fields at their defaults |
| RoundTrip.FieldRoundTrip | SelfLearning/Pods/nanopb/pb_encode.c:271-349 | The records of one field take the decoder from the state before the field to the state after it, for any following bytes; unions, arrays and silent fields included |
| RoundTrip.PackedRecord | SelfLearning/Pods/nanopb/pb_decode.c:374-401 | A packed record appends all its items, or fails iff they do not fit the array |
| RoundTrip.ScalarRoundTrip | SelfLearning/Pods/nanopb/pb_decode.c:1165-1332 | Every scalar item is read back from the front of any input; a string only if it is terminated |
| Validity.SmallMessageFits | SelfLearning/Pods/nanopb/pb_decode.c:322-335 | A message below 4 GiB has only length prefixes that the 32-bit reader accepts, at every depth |
| Observation.DecodedMessageIsSame | SelfLearning/Pods/nanopb/pb_decode.c:955-967 | The decoded message has the has flags, counts, selections and live items of the encoded one |
| Observation.EncodingIsInjective | SelfLearning/Pods/nanopb/pb_encode.c:451-473 | Equal bytes come from messages that are equal up to absent fields |
| Observation.EncodeAgain | SelfLearning/Pods/nanopb/pb_encode.c:451-473 | Absent fields do not matter to the encoding: with their defaults filled in, as decoding does, a message encodes to the same bytes |
| Accepted.AcceptedBytesAreCanonical | SelfLearning/Pods/nanopb/pb_decode.c:955-967 | For arbitrary bytes that decode: the content is valid, its live strings are terminated, and encoding it gives bytes that decode to the very same content |
| Accepted.MessageAccepted | SelfLearning/Pods/nanopb/pb_decode.c:852-953 | The same for decoding into a struct that earlier decoding left behind |
| Concatenation.DecodeConcatenation | SelfLearning/Pods/nanopb/pb_decode.c:863-917 | After whole records a, decoding a + b is decoding b into what a left behind; success iff both loops run and together they meet the required fields |
| Concatenation.DecodeTwiceIsDecodeOnce | SelfLearning/Pods/nanopb/pb_decode.c:852-953 | Two successful decodes in a row are one decode of the concatenation |
| Concatenation.RecordsConcatenate | SelfLearning/Pods/nanopb/pb_decode.c:863-917 | The record loop on a + b is the loop on a followed by the loop on b, for every starting content |
| Concatenation.UnknownFieldsAreTransparent | SelfLearning/Pods/nanopb/pb_decode.c:877-906 | Inserting a well-formed record with an undeclared tag between records changes neither result nor success |
| Concatenation.EmptyDescriptorRejectsTagZero | SelfLearning/Pods/nanopb/pb_common.c:78-95 | Without any fields, a record with tag 0 after whole records makes decoding fail |
| Concatenation.EndsHere | SelfLearning/Pods/nanopb/pb_decode.c:251-275 | Exactly which bytes the header reader takes for the end of a message |
| Concatenation.MessageEndsEarly | SelfLearning/Pods/nanopb/pb_decode.c:863-875 | A cut-off header and a zero header after whole records end the message with the same content and success |
| Occurrence.SeenExactly | SelfLearning/Pods/nanopb/pb_decode.c:886-913 | The loop counts a field as met iff the input has, behind whole records, a header that reads as its tag |
| Occurrence.RequiredExactly | SelfLearning/Pods/nanopb/pb_decode.c:919-950 | Decoding succeeds iff the record loop gets through and the input has a record for every required field |
| Occurrence.UnnamedKept | SelfLearning/Pods/nanopb/pb_decode.c:852-917 | A field keeps its content when the input has a record neither for it nor for another member of its union |
| WireNumbers.EncodingWalks | SelfLearning/Pods/nanopb/pb_encode.c:559-590 | A reader that knows only the wire format walks through every encoded message, of any size: headers are 8 * tag + 0, 1, 2 or 5 by type, packed arrays 2, each record ends where that number says, and the tags are those of the live fields in order |
| WireNumbers.ItemTaken | SelfLearning/Pods/nanopb/pb_encode.c:652-763 | Every item that is written, submessages included, ends where the wire type number of its field says |
| WireNumbers.SkipsByNumber | SelfLearning/Pods/nanopb/pb_decode.c:277-287 | A skipped record goes through the first byte below 128 for 0, takes eight bytes for 1, a length of at most five bytes and that much for 2, four bytes for 5, and fails for other numbers |
| Merging.SubmessageRecordsMerge | SelfLearning/Pods/nanopb/pb_decode.c:1334-1356 | Two records of a submessage field, the first complete: outside a oneof they decode like one record with the joined body, in a oneof like the second record alone; the second must be complete by itself |
| Merging.OneofRecordsDoNotMerge | SelfLearning/Pods/nanopb/pb_decode.c:415-424 | An input where two records of one oneof member and one record with the joined body decode differently |
| Merging.OneofSubmessageRestarts | SelfLearning/Pods/nanopb/pb_decode.c:415-424 | Decoding into a oneof does not depend on what the union held |
| Merging.LastValueWins | SelfLearning/Pods/nanopb/pb_decode.c:402-424 | Of two records of a scalar field that is no array the last value stays, whatever the field held before, and no other member of its union |
| Projection.NarrowDecode | SelfLearning/Pods/nanopb/pb_decode.c:877-906 | Bytes encoded under a larger descriptor decode under one that lacks fields, at any depth, to the projection of the message; succeeds iff the kept live strings are terminated |
| Projection.ProjectionIsValid | SelfLearning/Pods/nanopb/pb_decode.c:877-906 | The projection of a valid message is valid, if fields that share a union in the smaller descriptor share one in the larger |
| Projection.MessageShrinks | SelfLearning/Pods/nanopb/pb_encode.c:451-473 | The projection is not longer on the wire |
| WireLaws.WireTypeIsNotChecked | SelfLearning/Pods/nanopb/pb_decode.c:356-413 | A field decodes the same under any wire type, except that a packable array distinguishes length-delimited from the others |
| WireLaws.PackedAndUnpackedAlike | SelfLearning/Pods/nanopb/pb_decode.c:374-413 | One packed record and the same elements as separate records decode alike, for arbitrary element encodings and any starting count |
| WireLaws.PackedFailsOnOverflow | SelfLearning/Pods/nanopb/pb_decode.c:385-400 | When every element decodes, a packed array appends them in order or fails exactly when the total exceeds the array |
| WireLaws.BufferTakes | SelfLearning/Pods/nanopb/pb_decode.c:1262-1379 | Which blocks a buffer takes and what it then holds: bytes up to the size minus 4, strings that leave room for the NUL, fixed-length bytes of the exact length or empty, which read as zeros |
| WireLaws.LeftoverIsSkipped | SelfLearning/Pods/nanopb/pb_decode.c:337-350 | What a message leaves unread of its block is skipped, nested and delimited |
| WireLaws.DelimitedRoundTrip | SelfLearning/Pods/nanopb/pb_decode.c:969-982 | A delimited message at the front of any input is recovered, and reading ends exactly at its boundary |
| WireLaws.StreamRoundTrip | SelfLearning/Pods/nanopb/pb_encode.c:475-478 | A list of delimited messages of any types written back to back is recovered in order, and what follows is untouched |
| OutputStream.SizingDecides | SelfLearning/Pods/nanopb/pb_encode.c:600-648 | With the same output, writing to a buffer succeeds iff sizing does and the size fits the room; both count the same bytes and nothing outside the window changes |
| OutputStream.EmitsThen | SelfLearning/Pods/nanopb/pb_encode.c:91-109 | Outputs compose: two operations in a row are one operation with the joined output, also when the second one fails |
| OutputStream.EmitsPart | SelfLearning/Pods/nanopb/pb_encode.c:116-201 | One part of a longer output: the output grows by the part, or the whole has failed |
| OutputStream.OStream.BufWrite | SelfLearning/Pods/nanopb/pb_encode.c:62-72 | The bytes land at the position, the rest of the buffer is unchanged |
| OutputStream.OStream.Write | SelfLearning/Pods/nanopb/pb_encode.c:91-109 | Succeeds iff there is room; then writes exactly the data, otherwise nothing |
| OutputStream.OStream.Skip | SelfLearning/Pods/nanopb/pb_encode.c:160-161 | A sizing stream counts without data |
| Encoder.EncodeVarint | SelfLearning/Pods/nanopb/pb_encode.c:494-514 | Emits the minimal base-128 form |
| Encoder.FillVarint | SelfLearning/Pods/nanopb/pb_encode.c:505-511 | The loop, with the last continuation bit cleared afterwards, fills the buffer with the base-128 form |
| Encoder.EncodeSvarint | SelfLearning/Pods/nanopb/pb_encode.c:516-525 | Emits the varint of the zigzag word |
| Encoder.EncodeFixed32 | SelfLearning/Pods/nanopb/pb_encode.c:527-536 | Emits four little-endian bytes |
| Encoder.EncodeFixed64 | SelfLearning/Pods/nanopb/pb_encode.c:538-551 | Emits eight little-endian bytes |
| Encoder.EncodeTagForField | SelfLearning/Pods/nanopb/pb_encode.c:559-590 | Emits 8 * tag + 0 for integers, 1 for eight-byte words, 5 for four-byte words, 2 for the others, as a varint |
| Encoder.EncodeString | SelfLearning/Pods/nanopb/pb_encode.c:592-598 | Emits the length and the data, or fails as a whole |
| Encoder.EncodeScalarCell | SelfLearning/Pods/nanopb/pb_encode.c:652-763 | The field encoders emit the item that the memory holds; only a bytes size beyond its buffer is refused |
| Encoder.PackedSize | SelfLearning/Pods/nanopb/pb_encode.c:135-155 | The products for fixed-width items and the sizing pass for the others are the size of the packed body |
| Encoder.EncodePacked | SelfLearning/Pods/nanopb/pb_encode.c:130-171 | Emits tag, size and body, to buffers and to sizing streams alike |
| Encoder.EncodeArray | SelfLearning/Pods/nanopb/pb_encode.c:116-201 | Emits the array, packed or not; refuses iff the count or a live item is illegal |
| Encoder.CheckProto3Default | SelfLearning/Pods/nanopb/pb_encode.c:205-267 | Decides whether the item in memory is the zero value |
| Encoding.SilentSlot | SelfLearning/Pods/nanopb/pb_encode.c:205-267 | A field adds no bytes iff it is an empty array, absent, not selected, or a proto3 field whose memory is zero: number 0, size word 0, first char NUL, or no bytes at all |
| Encoding.SilentMessage | SelfLearning/Pods/nanopb/pb_encode.c:451-473 | A struct is encoded as the empty message iff every field is of that kind |
| Encoder.EncodeSingle | SelfLearning/Pods/nanopb/pb_encode.c:305-345 | Emits the record of a required, optional or oneof field, if it is live |
| Encoder.EncodeBasicField | SelfLearning/Pods/nanopb/pb_encode.c:271-349 | Emits the records of a field from its memory, for all four kinds of field |
| Encoder.Encode | SelfLearning/Pods/nanopb/pb_encode.c:451-473 | Emits the encoding of the content of the struct, whose records `EncodingWalks` gives; succeeds iff nothing live is illegal and there is room |
| Encoder.GetEncodedSize | SelfLearning/Pods/nanopb/pb_encode.c:480-488 | The sizing pass returns the number of bytes that a real stream gets |
| Encoder.EncodeSubstream | SelfLearning/Pods/nanopb/pb_encode.c:623-648 | The writing pass of a submessage fills a substream of exactly the sized length, so the passes never disagree |
| Encoder.EncodeSubmessage | SelfLearning/Pods/nanopb/pb_encode.c:600-648 | Emits the length-prefixed message on buffers and on sizing streams |
| Encoder.EncodeDelimited | SelfLearning/Pods/nanopb/pb_encode.c:475-478 | Emits the length-prefixed message |
| Encoder.FixedSize | SelfLearning/Pods/nanopb/pb_encode.c:136-143 | The shortcuts 4*count and 8*count are the size of the packed body |
| InputStream.IStream.Read | SelfLearning/Pods/nanopb/pb_decode.c:91-123 | Succeeds iff the bytes are there; then exactly they are consumed |
| InputStream.IStream.DecodeVarint32 | SelfLearning/Pods/nanopb/pb_decode.c:173-207 | The shift loop is the 32-bit reader on every input, failure included |
| InputStream.IStream.DecodeVarint | SelfLearning/Pods/nanopb/pb_decode.c:209-229 | The shift loop is the 64-bit reader on every input |
| InputStream.IStream.SkipVarint | SelfLearning/Pods/nanopb/pb_decode.c:231-240 | Skips through the terminator, at any length |
| InputStream.IStream.Skip | SelfLearning/Pods/nanopb/pb_decode.c:277-287 | Skips exactly one field body: through the terminator for 0, eight bytes for 1, a block for 2, four bytes for 5; fails for every other wire type |
| InputStream.IStream.DecodeTag | SelfLearning/Pods/nanopb/pb_decode.c:251-275 | A record header, the end of the message, or an error, as the header function says; every header consumes input |
| InputStream.IStream.MakeSubstream | SelfLearning/Pods/nanopb/pb_decode.c:322-335 | The substream sees exactly the block, and the parent keeps the bytes after it |
| InputStream.IStream.CloseSubstream | SelfLearning/Pods/nanopb/pb_decode.c:337-350 | The parent goes on exactly behind the block, however much of it was read |
| InputStream.VarintLoopExact | SelfLearning/Pods/nanopb/pb_decode.c:190-202 | The shifted digits of the loop add up to the base-128 number modulo the word size |
| Wire.VarintRoundTrip | SelfLearning/Pods/nanopb/pb_encode.c:494-514 | The base-128 form of any number is read back from the front of any input |
| Wire.VarintLength | SelfLearning/Pods/nanopb/pb_encode.c:494-514 | The form is minimal: its length is the number of 7-bit groups |
| Wire.Varint64RoundTrip | SelfLearning/Pods/nanopb/pb_decode.c:209-229 | 64-bit decode inverts encode |
| Wire.Varint64Exact | SelfLearning/Pods/nanopb/pb_decode.c:209-229 | On arbitrary bytes decoding succeeds iff a terminator occurs within 10 available bytes, and gives the base-128 sum mod 2^64 |
| Wire.Varint32Exact | SelfLearning/Pods/nanopb/pb_decode.c:173-207 | The same with 5 bytes and mod 2^32 |
| Wire.Varint32AgreesWith64 | SelfLearning/Pods/nanopb/pb_decode.c:173-229 | Where the 32-bit reader succeeds the 64-bit one does, on the same bytes, and they agree mod 2^32 |
| Wire.TagRoundTrip | SelfLearning/Pods/nanopb/pb_decode.c:251-275 | Tag and wire type are read back |
| Wire.BlockRoundTrip | SelfLearning/Pods/nanopb/pb_decode.c:322-335 | A length-prefixed block is read back |
| Wire.FixedRoundTrip | SelfLearning/Pods/nanopb/pb_decode.c:1132-1163 | Little-endian bytes are read back |
| Integers.IntegerRoundTrip | SelfLearning/Pods/nanopb/pb_decode.c:1165-1248 | Integers of width 1, 2, 4 and 8, signed, unsigned and zigzag, survive encode and decode |
| Integers.FromWireExact | SelfLearning/Pods/nanopb/pb_decode.c:1165-1248 | Decoding fails exactly when the number the word stands for does not fit the struct member |
| Integers.UnsignedExact | SelfLearning/Pods/nanopb/pb_decode.c:1202-1224 | An unsigned or bool member takes the word iff it is below 256^width, as itself |
| Integers.ZigZagExact | SelfLearning/Pods/nanopb/pb_decode.c:1226-1248 | A zigzag member takes the word iff u/2, or -(u/2) - 1 for odd u, is in its signed range, as that number |
| Integers.SignedExact | SelfLearning/Pods/nanopb/pb_decode.c:1165-1200 | A signed member takes the word iff the number congruent to it modulo 2^64, or 2^32 below width 8, in the signed range of that word fits the width, as that number |
| Integers.SentWord | SelfLearning/Pods/nanopb/pb_encode.c:652-687 | The word an integer other than zigzag is sent as: n, or n plus 2^64 for a negative n |
| Integers.ShortNegativesDecodeAlike | SelfLearning/Pods/nanopb/pb_decode.c:1165-1200 | A negative int32 written in 5 bytes or sign-extended to 10 decodes alike |
| Integers.ZigZagMeaning | SelfLearning/Pods/nanopb/pb_encode.c:516-525 | The shift and complement expressions compute 2n and -2n - 1 |
| Integers.ZigZagBijection | SelfLearning/Pods/nanopb/pb_decode.c:1118-1130 | Zigzag is a bijection between the signed and the unsigned 64-bit integers |
| Descriptor.StorageIsHome | SelfLearning/Pods/nanopb/pb_common.c:40-74 | Two fields have the same pData iff they are members of one union, if every field occupies at least a byte |
| Descriptor.UnionSharesStorage | SelfLearning/Pods/nanopb/pb_common.c:44-50 | Union members share pData and pSize |
| Descriptor.UnionMembership | SelfLearning/Pods/nanopb/pb_common.c:44-50 | A field shares the storage of the one before it iff both are in a oneof and its offset is 2^32 - 1 |
| Descriptor.StorageDisjoint | SelfLearning/Pods/nanopb/pb_common.c:52-72 | A field with storage of its own, arrays with all their entries, ends before every later field with different storage |
| Descriptor.NoOverlap | SelfLearning/Pods/nanopb/pb_common.c:40-74 | For a union member the same holds iff the offset of the field behind the union makes up for what the last member is smaller |
| Descriptor.UnionOverlaps | SelfLearning/Pods/nanopb/pb_common.c:44-72 | A descriptor where the field behind a union lies inside its larger member |
| FieldIterator.FieldIter.Next | SelfLearning/Pods/nanopb/pb_common.c:20-76 | One step on the circle: pData moves by data_size, times array_size for an array, and the offset of the new field, and stays inside a union; required_field_index is a function of the position |
| FieldIterator.FieldIter.Find | SelfLearning/Pods/nanopb/pb_common.c:78-95 | From any position, within one cycle: true iff a non-extension field has the tag, and then the iterator is there |
| FieldIterator.FieldIter.FindExtension | SelfLearning/Pods/nanopb/pb_decode.c:749-760 | From any position, true iff there is an extension field |
| FieldIterator.FieldIter.CountRequired | SelfLearning/Pods/nanopb/pb_decode.c:922-935 | Running the iterator to the wrap-around from any position recovers the number of required fields |
| RequiredBits.Mark | SelfLearning/Pods/nanopb/pb_decode.c:908-913 | Sets one bit and leaves the others |
| RequiredBits.AllMarked | SelfLearning/Pods/nanopb/pb_decode.c:937-949 | The word and mask comparisons decide whether the first count bits are set |
| RequiredBits.MaskTest | SelfLearning/Pods/nanopb/pb_decode.c:946-949 | Comparison with a mask of low ones tests exactly the bits below k |
| Refinement.BitsDecideRequired | SelfLearning/Pods/nanopb/pb_decode.c:919-950 | The bits of all ranks are set iff every required field has been met |
| Refinement.StoreKeepsBounds | SelfLearning/Pods/nanopb/pb_decode.c:356-434 | Storing a bounded slot leaves every count and size of the struct in bounds, also in the rest of a union |
| Refinement.StoreIsPut | SelfLearning/Pods/nanopb/pb_decode.c:356-434 | Storing a slot in memory makes the field live and the other members of its union dead, and changes no other content |
| Decoder.SetFieldToDefault | SelfLearning/Pods/nanopb/pb_decode.c:763-833 | The memory of the field is initial, as spelled out by `SlotIsInitial`: a copy of the default value, else zeros, structs recursively, and has flag, count or which tag 0; all is in bounds, and only its own memory changes |
| Decoder.SetToDefaults | SelfLearning/Pods/nanopb/pb_decode.c:835-846 | Whatever the struct held, every field is then in that initial state, at any depth, its content is `Defaults`, and all is in bounds |
| Message.InitialContents | SelfLearning/Pods/nanopb/pb_decode.c:835-846 | What a struct in the initial state reads is `Defaults` |
| Decoder.DecodeInteger | SelfLearning/Pods/nanopb/pb_decode.c:1165-1248 | Reads the integer, or fails as the parser function says, which `UnsignedExact`, `ZigZagExact` and `SignedExact` pin down |
| Decoder.DecodeFixed | SelfLearning/Pods/nanopb/pb_decode.c:1132-1163 | Reads the little-endian word |
| Decoder.DecodeBuffer | SelfLearning/Pods/nanopb/pb_decode.c:1262-1379 | Reads bytes, strings and fixed-length bytes into their buffers; fails exactly when they do not fit; the size word stays within the buffer |
| Decoder.DecodeSubmessage | SelfLearning/Pods/nanopb/pb_decode.c:1334-1356 | Array entries start from defaults, others merge into what the struct holds; memory that no record of the body is for is initial, or as before; bounds are kept at every depth |
| Decoder.DecodePacked | SelfLearning/Pods/nanopb/pb_decode.c:374-401 | The packed branch appends the elements of the block, or fails on overflow; the count in memory stays within the array |
| Decoder.DecodeRepeated | SelfLearning/Pods/nanopb/pb_decode.c:402-413 | One item is appended; fails when the array is full; the count in memory stays within the array |
| Decoder.DecodeSingle | SelfLearning/Pods/nanopb/pb_decode.c:363-424 | A required, optional or oneof field holds the one item read, in bounds |
| Decoder.DecodeField | SelfLearning/Pods/nanopb/pb_decode.c:356-434 | The struct then has the content that the parser function gives; failure included; no other slot changes, and success keeps counts and sizes in bounds |
| Decoder.DecodeRecord | SelfLearning/Pods/nanopb/pb_decode.c:877-917 | A record is decoded into its field, skipped, or rejected, and the bit set records the required fields met; success keeps counts and sizes in bounds |
| Decoder.DecodeRecords | SelfLearning/Pods/nanopb/pb_decode.c:863-917 | The record loop ends, because every round consumes input, in the content that the parser function gives, with counts and sizes kept in bounds |
| Decoder.CheckRequired | SelfLearning/Pods/nanopb/pb_decode.c:919-950 | True iff every required field has been met |
| Decoder.DecodeNoinit | SelfLearning/Pods/nanopb/pb_decode.c:852-953 | Succeeds iff the records decode and every required tag occurred; then the struct has the parsed content, the slots of fields without a record are untouched, and counts and sizes stay in bounds |
| Decoder.Decode | SelfLearning/Pods/nanopb/pb_decode.c:955-967 | Success and resulting content are functions of the input alone, not of what the struct held; on success every field without a record is in its initial state, nested structs included, and every count and size in memory is in bounds |
| Decoder.DecodeDelimited | SelfLearning/Pods/nanopb/pb_decode.c:969-982 | One message from the front, the stream left exactly at the next boundary, fields without a record initial, counts and sizes in bounds |
| LruCache.LRUCache.Get | Signal-iOS/SignalMessaging/utils/LRUCache.swift:73-83 | Returns the value and makes the key the newest, as `HitsRenew` and `HeldExactly` state over runs; a miss changes nothing |
| LruCache.LRUCache.Set | Signal-iOS/SignalMessaging/utils/LRUCache.swift:85-98 | Stores the value and evicts oldest keys, also for a negative size |
| LruCache.LRUCache.Clear | Signal-iOS/SignalMessaging/utils/LRUCache.swift:101-104 | Empties map and order |
| LruCache.EveryRun | Signal-iOS/SignalMessaging/utils/LRUCache.swift:68-104 | After any calls the order lists the keys of the map once each within the size, and every value is the one last set |
| LruCache.Inclusion | Signal-iOS/SignalMessaging/utils/LRUCache.swift:68-104 | Of two caches given the same calls, the smaller one's order is a subsequence of the larger one's with equal values; a hit in the small one is the same hit in the large one |
| LruCache.RecentKeysStay | Signal-iOS/SignalMessaging/utils/LRUCache.swift:85-98 | A key that was set is still there, with its value, while the calls since then name fewer than maxSize other keys |
| LruCache.HeldExactly | Signal-iOS/SignalMessaging/utils/LRUCache.swift:68-104 | After any calls exactly the maxSize most recently used keys are held, sets and hits counting as uses since the last clear, each with the value last set |
| LruCache.HitsRenew | Signal-iOS/SignalMessaging/utils/LRUCache.swift:73-83 | A key that was hit is still there, with its value, while the calls since then name fewer than maxSize other keys |
| EmojiRanges.MergeSorted | Signal-iOS/Scripts/emoji_ranges.py:64-77 | Over any ranges sorted by start, the loop covers exactly their union; if no range ends before it starts, the result is ascending with a gap between neighbours |
| EmojiRanges.NewRanges | Signal-iOS/Scripts/emoji_ranges.py:59-77 | The table covers exactly the parsed ranges and the predefined ones |
| EmojiRanges.BigRangesCover | Signal-iOS/Scripts/emoji_ranges.py:14-27 | What the predefined ranges, which overlap and repeat, come to |
| EmojiRanges.MergeOneCovers | Signal-iOS/Scripts/emoji_ranges.py:65-77 | One round adds exactly the code points of its range |
| EmojiRanges.TablesAreCanonical | Signal-iOS/Scripts/emoji_ranges.py:59-77 | A set of code points has one such table, so the output depends only on the union of the input |
| EmojiRanges.IsEmoji | Signal-iOS/SignalMessaging/utils/DisplayableText.swift:96-118 | The search over any nonempty table ends and answers true iff the scalar is covered |
| EmojiRanges.SearchGenerated | Signal-iOS/SignalMessaging/utils/DisplayableText.swift:26-30 | Searching the generated table answers whether the scalar is in one of the original ranges |
| EmojiRanges.ContainsEmoji | Signal-iOS/SignalMessaging/utils/DisplayableText.swift:138-140 | True iff some scalar is covered |
| EmojiRanges.ContainsOnlyEmoji | Signal-iOS/SignalMessaging/utils/DisplayableText.swift:142-148 | True iff the string is not empty and every scalar is covered or a zero width joiner |
| Truncate.Truncated | Signal-iOS/SignalMessaging/categories/String+OWS.swift:18-55 | The search ends with the longest prefix of whole characters that fits the budget, the one a left-to-right pass keeps |
| Truncate.FitsIffKept | Signal-iOS/SignalMessaging/categories/String+OWS.swift:17-55 | A prefix fits the budget iff it is not longer than the pass keeps |
| Truncate.TruncatingTwice | Signal-iOS/SignalMessaging/categories/String+OWS.swift:17-55 | A larger budget never keeps less, and truncating to a larger budget first changes nothing |

## Left out

- Pointer fields, `PB_ENABLE_MALLOC` and `pb_release`: off in this build, and they need an allocator.
- Callback fields, custom stream callbacks and extension chains: they run code that is not in the
  repository. The search for an extension field is modelled in the iterator; descriptors that
  contain one are not.
- Error message strings: only success and failure are kept.
- CheckProto3Default: does not take submessages. The source then compares the memory of every field
  in them with zero, the first element of an array whatever its count and a union as each of its
  members in turn, so the answer does not depend on the content alone.
- EncodeBasicField: does not take singular submessage fields, whose presence is that comparison
  (`pb_encode.c:229-266`); they have no round trip. EncodeSingle shares this.
- Descriptors with 32 required fields, or 64 and more: the remaining-bits test shifts a 32-bit
  word by 32, or reads past its two words (`pb_decode.c:947`), which C does not define. Tags from
  2^29 on, which a 32-bit header cannot hold.
- Wrap-around of `size_t` in `bytes_written + count` and of sizes: messages are below 2^64 bytes
  to be encoded.
- C layout below fields: padding, and what the bytes of one union member read as in another. A
  union seen as a member that it does not hold is that member's zero value, unless the memory has
  its type. `StorageIsHome` is what justifies one slot per struct member.
- Aliasing of nested structs: a nested struct is decoded through a `MessageStruct` of its own that
  is copied in and out. A source struct is a value, since the encoder only reads it.
- Decode: the memory that a failed call leaves behind still has its layout; nothing more is claimed.
- Shifts and bitwise or of the varint loops are arithmetic on the same words; the required-field
  bit set is on bit vectors.
- Encode: what a failed call has already written into the free part of its window is not specified.
- LRUCache: the notification hooks that call `clear`, the initial size default and the main-thread
  assertions. `filter` is a function.
- emoji_ranges.py: parsing and printing; `list.sort` is a function. The literal table of
  `DisplayableText.swift`, which was edited by hand after it was generated, is a parameter.
- `glyphCount` and grapheme segmentation: a string is the sequence of its characters' bytes. The
  branches for a failing UTF-8 conversion, which Swift strings do not take.

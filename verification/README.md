# Verified models of the repository's codecs and containers

This project models, in Dafny, the parts of the repository whose correctness rests on
invariants rather than on single statements, and proves what they are for.

**The protobuf-c codec** (`protobuf-c/protobuf-c.c`). Descriptors and messages are datatypes:
a C message struct is a sequence of cells, one per plain member and one per oneof union,
followed by the unknown fields. `Enc` is the encoding of the Protocol Buffers specification
("Base 128 Varints", "Message Structure", "Packed Repeated Fields"); `Decoding.Unpack` is a
byte-level decoder. Both are characterised without their own functions: `PackMeaning` says
which records are written and what their bytes stand for, `UnpackMeaning` says from the
records of an input whether it decodes and what every member then holds, `MergeMeaning`
says what a merge leaves. On these definitions the project proves the round trip (with its
exact condition), that decoding turns concatenation into merging ("Last One Wins"), and that
accepted messages pass the library's own check. The C-shaped loops refine them: size
computation, packing into an array with its memmove fix-ups, streaming into a doubling
buffer, and the two-pass parser (scan into slabs while counting, allocate, parse) with its
range lookup, required-field bitmap and recursive merge. `EndToEnd` composes them.

**The Robin Hood table** (`Rows`, `RobinLayout`, `RobinInsert`, `RobinRemove`, `RobinHood`).
Every insertion, removal and resize keeps the items of bucket k, in insertion order, in
exactly the slots its offsets say. The proofs cut the circle open in front of a bucket with
offset 0, where nothing wraps around.

**Grisu3** (`Grisu`, `DiyFloats`, `GrisuDouble`, `GrisuExact`). Digit generation is sound,
shortest and closest, does not overflow and terminates, for every positive finite double once
a normalized cached power with the right exponent is given, and it does succeed whenever one
decimal is nearest for every point of the error range. If that power is exact within
half a unit, the decimal printed lies strictly between the midpoints to both neighbours.

**FlatBuffers sorting** (`OffsetVectors`). Heap sort over relative offsets moves the
absolute targets; binary and linear search find what they should.

**Open addressing** (`OpenAddressing`), **Murmur3** (`Murmur`, `MurmurMixing`) and the **PDU
buffer** (`Framing`) complete the set. The Murmur3 hash is the same for every division of the
data, and no block, tail, seed or length is lost on the way to it.

Where the code and its documentation disagree, the code is followed:

- A merge fails exactly when two messages that meet, at any depth, both leave some oneof
  unset, because case 0 is not a field id (`MergeSucceeds`). A singular submessage given
  twice is then rejected (`RepeatedSubmessage`, `GivenTwiceRejected`).
- Decoding a concatenation is merging exactly where the parts agree (`Agrees`).
  `merge_messages` takes the latter required value and the latter unlabeled number even if
  it is only the initial one, and it takes bytes by their data pointer, which empty bytes
  do not have.
- A packed bool may take several bytes; each of them is counted as an element.
- Some sums and counts are `unsigned` where the rest of the code has `size_t`: the length
  `pack_to_buffer` returns for an unpacked repeated field, the length `pack` returns for a
  packed one, and the number of elements an array is allocated for.
- -0.0 in an unlabeled float or double counts as zero and is not written; a bool is parsed
  whatever its wire type; a slab list holds at most 16 * (2^23 - 1) records. All of this is
  part of `RoundTrips` or of the decoder.
- `ht_unique` is announced as inserting without a check. The Robin Hood table checks and
  keeps an existing item; the open-addressing table does not check.
- The lower Grisu boundary of the smallest normal double is nearer than the midpoint.
- `GetPdu` compares with `used`, not with what is unconsumed; it is right only after `Sweep`.

Conventions: C integers are mathematical integers with wrap-around written out; shifts and
masks are the equivalent divisions and remainders, except in `Murmur`, which uses 32-bit
words. A method contract `Splice(old(out[..]), at, bytes)` says that these bytes were
written at this position and that nothing else in the buffer changed.

## Model

| member | source | states |
|---|---|---|
| EndToEnd.PackAndUnpack | protobuf-c/protobuf-c.c:1471-1523 | sizing, packing and unpacking a message gives it back if and only if `RoundTrips` holds of it |
| EndToEnd.StreamAndUnpack | protobuf-c/protobuf-c.c:1957-2010 | the same through the append buffer, whatever its initial capacity |
| EndToEnd.UnpackBothWays | protobuf-c/protobuf-c.c:2595-2627 | unpacking a concatenation, and unpacking the parts and merging: parts that unpack always merge, the whole then unpacks exactly when the record counts fit together, and the known fields are the same if and only if all cells agree |
| RoundTrip.MessageRoundTrip | protobuf-c/protobuf-c.c:3027-3321 | for every schema and every typed message, `Unpack(Enc(m)) == m` if and only if every part is in restorable form, no payload exceeds INT_MAX and the records fit the slabs |
| UnpackMeaning.UnpackIffMade | protobuf-c/protobuf-c.c:3027-3321 | an input decodes to a message if and only if it is tiled by headers and data of records that make the message: every required field without a default has one, the last record of a number, string, bytes or oneof member wins, repeated values are gathered and submessages merged in order, members without a record hold their initial value, unknown records are kept in order |
| UnpackMeaning.OneofLastWins | protobuf-c/protobuf-c.c:2632-2691 | of the records of a oneof the last one wins with what it gives on its own; nothing is selected if and only if there is none |
| UnpackMeaning.AcceptedIff | protobuf-c/protobuf-c.c:3090-3297 | the inputs accepted are exactly those that scan into records that parse and leave out no required field without a default |
| UnpackMeaning.MissingRequired | protobuf-c/protobuf-c.c:3262-3271 | an input that lacks one required field and is good otherwise decodes if and only if the field has a default, of either kind |
| UnpackMeaning.NothingDecodes | protobuf-c/protobuf-c.c:2945-2999 | the empty input decodes if and only if every required field has a default, to the message with initial values |
| PackMeaning.EncodingIs | protobuf-c/protobuf-c.c:1471-1523 | the encoding is the bytes of the records of all fields in the order of the descriptor, then those of the unknown fields |
| PackMeaning.FieldMeaning | protobuf-c/protobuf-c.c:1155-1224 | the records of a field say its value: one for a singular field, one for each element, or one with all packed elements; there is none exactly when a flag is off, a pointer is NULL or the default, another member of the oneof is selected, or an unlabeled value is zero or empty |
| MergeLaws.DecodingIsHomomorphism | protobuf-c/protobuf-c.c:2159-2345 | if A and B decode, A++B decodes exactly when the record counts fit together; its known fields are the merge of the two messages if and only if all cells agree; unknown fields are concatenated |
| MergeLaws.CellHomomorphism | protobuf-c/protobuf-c.c:2190-2340 | one cell: what B adds on top of A is the merge, except where a required value or an unlabeled number is only given by A, or bytes are empty on one side |
| MergeLaws.DefaultTakesOver | protobuf-c/protobuf-c.c:2228-2229 | an input for which decoding the concatenation and merging differ: a required number with a default that only A gives |
| MergeLaws.MergeAssociative | protobuf-c/protobuf-c.c:2173-2345 | merging never fails and is associative through nested messages, for every schema without oneofs |
| MergeMeaning.MergeMeans | protobuf-c/protobuf-c.c:2173-2345 | two messages merge to a third if and only if cell by cell it is the concatenation, the merged submessage, the latter value if it is set and the earlier one otherwise, the latter one where required; the unknown fields are those of the latter |
| MergeMeaning.OneofMerged | protobuf-c/protobuf-c.c:2226-2337 | the latter selection of a oneof wins; without one the earlier is kept if and only if it is a number, bytes of its own, a message, or a non-NULL string of a field without default, and otherwise nothing is selected |
| MergeMeaning.OneofHomomorphism | protobuf-c/protobuf-c.c:2226-2340 | at a oneof, for every schema: decoding a concatenation takes the latter selection or else the earlier; merging the parts agrees if and only if there is a latter one or the earlier is neither empty bytes nor a string with a default |
| Validity.UnpackGood | protobuf-c/protobuf-c.c:3419-3498 | every accepted message is well typed and passes `protobuf_c_message_check` at every depth |
| CheckMeaning.CheckedEverywhere | protobuf-c/protobuf-c.c:3419-3498 | a typed message passes the check if and only if every message inside it, down every path, has its required strings and messages and no bytes without data |
| MergeSuccess.MergeSucceeds | protobuf-c/protobuf-c.c:2173-2345 | merging succeeds if and only if no oneof is unset on both sides, at any depth at which messages meet |
| MergeSuccess.UnsetOneofFails | protobuf-c/protobuf-c.c:2226-2260 | two messages that both leave a oneof unset never merge |
| MergeSuccess.RepeatedSubmessage | protobuf-c/protobuf-c.c:2595-2627 | a singular submessage seen again is accepted if and only if its payload decodes and meets the message in place |
| MergeSuccess.GivenTwiceRejected | protobuf-c/protobuf-c.c:2241-2248 | an input the decoder rejects for an unset oneof: the same empty submessage given twice |
| Varints.VarintRoundTrip | protobuf-c/protobuf-c.c:776-886 | reading back a written varint gives the value, and the bytes are one terminated varint |
| Varints.VarintLength | protobuf-c/protobuf-c.c:264-278 | the number of bytes is the number of base-128 digits |
| Varints.VarintMinimal | protobuf-c/protobuf-c.c:776-886 | no shorter byte string has the same value |
| Scalars.ZigzagRoundTrip | protobuf-c/protobuf-c.c:2423-2470 | unzigzag inverts zigzag at every width, within the unsigned range |
| Scalars.ZigzagMeaning | protobuf-c/protobuf-c.c:306-321 | zigzag numbers 0, -1, 1, -2, ... in that order |
| Scalars.NumRoundTrip | protobuf-c/protobuf-c.c:2495-2560 | every number in the range of its C member survives writing and reading; a bool comes back as 0 or 1 |
| Scalars.NumBytesLength | protobuf-c/protobuf-c.c:1322-1338 | a number takes between its type's minimum size and ten bytes |
| Meaning.NumberOnWire | protobuf-c/protobuf-c.c:1089-1130 | the bytes of every number type on the wire: int32 and enum sign-extended, ten bytes when negative; zigzag counts; plain values; one byte for a bool; little-endian digits; and the wire type |
| Meaning.NumberRead | protobuf-c/protobuf-c.c:2502-2545 | the number read from any bytes of an element, type by type, from the value of the varint or the digits |
| Meaning.ValueMeaning | protobuf-c/protobuf-c.c:2495-2630 | the value a record gives on its own: the number its bytes stand for, the string up to the first NUL, the bytes, or the decoded submessage; nothing else is accepted |
| Meaning.PackedMeaning | protobuf-c/protobuf-c.c:2743-2873 | a packed payload parses to some numbers if and only if it can be cut into elements that say them, each of fixed size or a varint of at most ten bytes |
| CellMeaning.LastWins | protobuf-c/protobuf-c.c:2632-2707 | a cell that holds no plain submessage ends up with what its last record gives on its own |
| CellMeaning.LegibleFolds | protobuf-c/protobuf-c.c:2495-2707 | and can be parsed if and only if every one of its records is legible on its own |
| CellMeaning.GatheredFold | protobuf-c/protobuf-c.c:2709-2727 | a repeated cell is the elements of its records in order, packed or not, whatever the field is declared as |
| CellMeaning.DeliveredFold | protobuf-c/protobuf-c.c:2595-2627 | a singular submessage is the merge, from the left, of the messages its records hold |
| Sizes.TagSize | protobuf-c/protobuf-c.c:239-253 | the number of bytes of the record header with this tag, for every wire type |
| Sizes.Uint32Size | protobuf-c/protobuf-c.c:264-278 | the number of bytes `uint32_pack` emits |
| Sizes.Int32Size | protobuf-c/protobuf-c.c:289-305 | the number of bytes `int32_pack` emits, ten for negatives |
| Sizes.Uint64Size | protobuf-c/protobuf-c.c:348-368 | the number of bytes `uint64_pack` emits |
| Sizes.NumSize | protobuf-c/protobuf-c.c:413-461 | the number of bytes of a scalar of each type |
| Sizes.RequiredFieldSize | protobuf-c/protobuf-c.c:413-461 | exactly the length of the encoded record of the value |
| Sizes.PackedSize | protobuf-c/protobuf-c.c:1742-1796 | exactly the length of the packed payload |
| Sizes.RepeatedFieldSize | protobuf-c/protobuf-c.c:610-685 | exactly the length of the encoded records of the elements |
| Sizes.IsZeroish | protobuf-c/protobuf-c.c:527-571 | the test of unlabeled values, type by type |
| Sizes.ValueToSend | protobuf-c/protobuf-c.c:477-594 | case id, has flag, null or default pointer and zero tests, label by label, give exactly the value the encoding contains |
| Sizes.ShortFits | protobuf-c/protobuf-c.c:708-754 | in a message shorter than 2^32 bytes every count and length fits its unsigned variable |
| Sizes.FieldSize | protobuf-c/protobuf-c.c:477-594 | exactly the length of the records the field contributes, whatever its label |
| Sizes.MessageSize | protobuf-c/protobuf-c.c:708-754 | exactly the length of the encoding |
| Packing.Uint32Pack | protobuf-c/protobuf-c.c:776-800 | writes the varint of the value at the position and nothing else |
| Packing.Int32Pack | protobuf-c/protobuf-c.c:814-829 | writes the varint of the 64-bit sign extension |
| Packing.NegativeVarint | protobuf-c/protobuf-c.c:814-829 | a negative int32 is written as the ten bytes of its 64-bit sign extension |
| Packing.Uint64Pack | protobuf-c/protobuf-c.c:859-886 | writes the varint of the value, from its two 32-bit halves |
| Packing.FixedPack | protobuf-c/protobuf-c.c:916-957 | writes the little-endian word |
| Packing.BooleanPack | protobuf-c/protobuf-c.c:972-977 | writes one byte, 1 or 0 |
| Packing.NumPack | protobuf-c/protobuf-c.c:1089-1130 | writes the bytes of a scalar of each type |
| Packing.HeaderOr | protobuf-c/protobuf-c.c:1068-1075 | or-ing the wire type into a written tag gives the record header |
| Packing.TagPack | protobuf-c/protobuf-c.c:1068-1075 | writes the header of tag and wire type |
| Packing.ContentPack | protobuf-c/protobuf-c.c:994-1026 | writes length prefix and content |
| Packing.WriteLength | protobuf-c/protobuf-c.c:1046-1051 | moving the body up and writing the length in front equals writing both in order |
| Packing.PrefixedMessagePack | protobuf-c/protobuf-c.c:1039-1052 | the memmove fix-up leaves exactly length prefix and encoding |
| Packing.RequiredFieldPack | protobuf-c/protobuf-c.c:1089-1138 | writes exactly the encoded record, nothing beyond it |
| Packing.PayloadBounds | protobuf-c/protobuf-c.c:1369-1376 | a packed payload lies between the minimum element size and ten bytes times the count |
| Packing.LengthGrowth | protobuf-c/protobuf-c.c:1369-1445 | the length prefix is at most one byte longer than guessed, so the assert never fires |
| Packing.PackedFieldPack | protobuf-c/protobuf-c.c:1366-1445 | guessing the length of the length and moving the payload by the difference leaves exactly the record; the returned length is that of the record cut to 32 bits |
| Packing.RepeatedFieldPack | protobuf-c/protobuf-c.c:1355-1458 | writes exactly the records of the elements and returns their length |
| Packing.FieldPack | protobuf-c/protobuf-c.c:1155-1224 | writes exactly the records the field contributes |
| Packing.UnknownFieldPack | protobuf-c/protobuf-c.c:1460-1467 | writes the unknown field back as it was scanned |
| Packing.MessagePack | protobuf-c/protobuf-c.c:1471-1523 | returns the length of the encoding, leaves the encoding at the position and every other byte of the buffer unchanged |
| Streaming.SimpleBuffer.constructor | protobuf-c/protobuf-c.c:190-219 | an empty buffer over a caller's scratch array |
| Streaming.SimpleBuffer.Append | protobuf-c/protobuf-c.c:190-219 | appends and keeps the earlier content; reallocates exactly when the bytes do not fit, to the first doubling of the capacity that holds them |
| Streaming.RequiredFieldToBuffer | protobuf-c/protobuf-c.c:1546-1643 | appends exactly the encoded record |
| Streaming.PayloadToBuffer | protobuf-c/protobuf-c.c:1812-1904 | appends exactly the packed payload |
| Streaming.PackedToBuffer | protobuf-c/protobuf-c.c:1907-1925 | appends exactly the packed record |
| Streaming.FieldToBuffer | protobuf-c/protobuf-c.c:1659-1728 | appends exactly the records the field contributes; the returned length is cut to 32 bits where the field is repeated and not packed |
| Streaming.MessageToBuffer | protobuf-c/protobuf-c.c:1957-2010 | all appends together are byte for byte the encoding that pack writes; the same length is returned if and only if no field that is repeated and not packed takes 2^32 bytes or more |
| Streaming.ReturnedExact | protobuf-c/protobuf-c.c:1926-1938 | the sum of the cut lengths is the length of all records if and only if none was cut |
| Streaming.ReturnedLengthCut | protobuf-c/protobuf-c.c:1931-1938 | a message whose returned length is 2^32 too small: two strings of 2^31 bytes |
| Reading.ParseTagAndWiretype | protobuf-c/protobuf-c.c:2062-2094 | finds tag, wire type and header length, or rejects, exactly as the byte-level definition |
| Reading.ScanLengthPrefixedData | protobuf-c/protobuf-c.c:2109-2145 | finds prefix and total length exactly as the byte-level definition, with every error case |
| Reading.MaxB128Numbers | protobuf-c/protobuf-c.c:2147-2155 | counts the bytes that end a varint |
| Reading.CountPackedElements | protobuf-c/protobuf-c.c:2355-2397 | accepts and counts a packed payload exactly as defined |
| Reading.ParseUint32 | protobuf-c/protobuf-c.c:2399-2415 | the low 32 bits of the varint value |
| Reading.ParseUint64 | protobuf-c/protobuf-c.c:2445-2463 | the low 64 bits of the varint value, over two loops' worth of groups |
| Reading.ParseBoolean | protobuf-c/protobuf-c.c:2485-2493 | true when some group of the varint is non-zero |
| Reading.VarintEnd | protobuf-c/protobuf-c.c:3136-3150 | the extent of the varint at the front of the remaining input, at most ten bytes, or 0 |
| Reading.ScanVarint | protobuf-c/protobuf-c.c:2729-2741 | the same of a packed payload |
| Reading.ReadNumber | protobuf-c/protobuf-c.c:2502-2545 | the number of each type as the byte-level definition parses it |
| ScanLaws.HeaderScans | protobuf-c/protobuf-c.c:2062-2094 | parsing a written header gives back tag, wire type and length |
| ScanLaws.ZeroTagRejected | protobuf-c/protobuf-c.c:2072-2075 | a tag of zero in its shortest form is rejected |
| ScanLaws.RecordScans | protobuf-c/protobuf-c.c:3090-3178 | scanning a written record gives it back, whatever follows |
| ScanLaws.ScanConcat | protobuf-c/protobuf-c.c:3090-3229 | scanning a concatenation concatenates the scans |
| ScanLaws.ScanFlatten | protobuf-c/protobuf-c.c:3090-3229 | scanning written records gives them back in order |
| ScanLaws.ScanMeaning | protobuf-c/protobuf-c.c:3090-3229 | an input scans into some records if and only if it is their headers and data in order, each header a varint of at most five bytes with tag and wire type, all data delimited as the wire type says |
| Slabs.SlabList.constructor | protobuf-c/protobuf-c.c:3040-3055 | one empty slab of sixteen members |
| Slabs.SlabList.Grow | protobuf-c/protobuf-c.c:3180-3196 | the next slab is twice as large and nothing stored changes |
| Slabs.SlabList.Store | protobuf-c/protobuf-c.c:3197 | stores the member behind all earlier ones |
| Slabs.SlabList.Append | protobuf-c/protobuf-c.c:3180-3197 | appends to the flat sequence, and fails exactly when all slabs are full |
| Slabs.SlabList.Walk | protobuf-c/protobuf-c.c:3283-3297 | walking the doubling slabs visits the flat sequence in order |
| Slabs.AllRoom | protobuf-c/protobuf-c.c:3012-3020 | the slabs hold 16 * (2^23 - 1) members |
| Ranges.IntRangeLookup | protobuf-c/protobuf-c.c:2021-2060 | the index of the value among the ids, or -1 exactly when it is none of them |
| Ranges.CompressCovers | protobuf-c/protobuf-c.c:2021-2060 | the ranges made of maximal runs cover any sorted ids, with their sentinel |
| Ranges.FindField | protobuf-c/protobuf-c.c:3102-3122 | last-field cache and range search together find what a linear search by tag finds |
| TwoPass.PackedFits | protobuf-c/protobuf-c.c:2743-2873 | elements parsed from a packed payload never exceed its count, and equal it if and only if no bool takes more than one byte |
| TwoPass.StoredFits | protobuf-c/protobuf-c.c:3198-3261 | over any records, a repeated field receives at most the slots counted, and exactly those if and only if no packed record for it has a bool of more than one byte |
| TwoPass.StoredFitsRoom | protobuf-c/protobuf-c.c:3232-3254 | what is stored fits the allocated array if and only if the elements do not outnumber the count cut to 32 bits; if every counted slot is used, if and only if the count is below 2^32 |
| TwoPass.StoredFitsMidway | protobuf-c/protobuf-c.c:3198-3297 | at every moment of the second pass, what is stored and what is still to come fit the array if and only if everything does |
| TwoPass.ShortInputFits | protobuf-c/protobuf-c.c:3232-3254 | for inputs shorter than 2^32 bytes every array has room |
| AllocationCut.NoRoomForAll | protobuf-c/protobuf-c.c:3244-3254 | an input that decodes to 2^32 elements, for which no room is allocated |
| TwoPass.BoolCountIsOnlyABound | protobuf-c/protobuf-c.c:2387-2389 | a concrete packed bool whose count exceeds its elements |
| Folding.ParseByCell | protobuf-c/protobuf-c.c:2884-2935 | a successful parse is, cell by cell, the fold of the records that hit the cell; unknown records are kept in order |
| Folding.ParseFromCells | protobuf-c/protobuf-c.c:2884-2935 | when every cell folds, the parse succeeds with exactly those cells |
| Folding.ParseConcat | protobuf-c/protobuf-c.c:3283-3297 | parsing two lists of records in turn is parsing their concatenation |
| Merging.MergeField | protobuf-c/protobuf-c.c:2190-2340 | one turn of the merge loop, with the range search for the case of a oneof, computes the merged cell |
| Merging.MergeMessages | protobuf-c/protobuf-c.c:2173-2345 | the loop over fields computes the merge cell by cell, although the members of a oneof visit one cell repeatedly |
| Unpacking.ParsePackedMember | protobuf-c/protobuf-c.c:2743-2873 | appends the parsed elements, each inside the room of the array |
| Unpacking.ParseRequiredMember | protobuf-c/protobuf-c.c:2495-2630 | parses one value, merging a repeated singular message into the one in place |
| Unpacking.ParseOneofMember | protobuf-c/protobuf-c.c:2632-2691 | clears the union and stores the new member and case |
| Unpacking.ParseOptionalMember | protobuf-c/protobuf-c.c:2694-2707 | parses the value and sets the has flag if there is one |
| Unpacking.ParseRepeatedMember | protobuf-c/protobuf-c.c:2709-2727 | appends one element inside the room of the array |
| Unpacking.ParseMember | protobuf-c/protobuf-c.c:2884-2935 | is one step of the parse, stays inside all allocated room, given that the elements still to come fit it, and keeps every cell ready for what follows |
| Unpacking.ScanMember | protobuf-c/protobuf-c.c:3090-3178 | finds the next record and the field of its tag |
| Unpacking.CountMember | protobuf-c/protobuf-c.c:3124-3125 | keeps counts, required-field bitmap and unknown count in step with the records |
| Unpacking.ScanAll | protobuf-c/protobuf-c.c:3090-3229 | succeeds exactly when the input scans and can be counted; slabs, counts and bitmap then describe all records |
| Unpacking.AllRequired | protobuf-c/protobuf-c.c:3262-3271 | true exactly when every required field without default was seen |
| Unpacking.ParseMembers | protobuf-c/protobuf-c.c:3283-3297 | the loops over the slabs parse all records in order |
| Unpacking.Unpack | protobuf-c/protobuf-c.c:3027-3321 | scan, allocate and parse together compute exactly the byte-level decoder, for every input whose elements fit the arrays as they are allocated |
| Rows.InsertKeepsOrder | flatcc/external/hash/hash_table_impl_rh.h:232-247 | moving the run behind a bucket up by one keeps the linear layout |
| Rows.InsertRegions | flatcc/external/hash/hash_table_impl_rh.h:232-247 | the new item is the last of its bucket and no other bucket changes |
| Rows.RemoveKeepsOrder | flatcc/external/hash/hash_table_impl_rh.h:318-334 | moving displaced items down by one keeps the linear layout |
| Rows.RemoveRegions | flatcc/external/hash/hash_table_impl_rh.h:318-334 | the bucket loses that item and no other bucket changes |
| RobinLayout.Unroll | flatcc/external/hash/hash_table_impl_rh.h:50-62 | in front of any bucket with offset 0 the circle can be cut into a linear layout |
| RobinLayout.Reroll | flatcc/external/hash/hash_table_impl_rh.h:50-62 | and a linear layout closes to a circular one |
| RobinLayout.BucketSlots | flatcc/external/hash/hash_table_impl_rh.h:206-220 | bucket k fills, in order, exactly the cyclic slots from k + offsets[k] up to k + 1 + offsets[k+1], or is empty |
| RobinLayout.ShiftKeepsLayout | flatcc/external/hash/hash_table_impl_rh.h:232-247 | insertion keeps the circular layout, grows one bucket by one item, leaves all others, adds one item |
| RobinInsert.BumpBuckets | flatcc/external/hash/hash_table_impl_rh.h:233-237 | raises exactly the offsets after the own bucket up to its end, and reports reaching 128 |
| RobinInsert.MoveUp | flatcc/external/hash/hash_table_impl_rh.h:238-244 | moves exactly the run up to the first empty slot and raises exactly its offsets |
| RobinRemove.CloseKeepsLayout | flatcc/external/hash/hash_table_impl_rh.h:318-334 | removal keeps the circular layout, takes one item out of its bucket, leaves all others |
| RobinRemove.DropBuckets | flatcc/external/hash/hash_table_impl_rh.h:319-323 | lowers exactly the offsets after the own bucket up to the removed slot |
| RobinRemove.MoveDown | flatcc/external/hash/hash_table_impl_rh.h:324-334 | moves exactly the displaced items down and ends at the first offset 0 |
| RobinHood.HashTable.constructor | flatcc/external/hash/hash_table_impl_rh.h:123-151 | an empty valid table, the smallest from 4 slots on that has room for the wanted count |
| RobinHood.HashTable.Find | flatcc/external/hash/hash_table_impl_rh.h:263-289 | the first item stored under the key, none exactly when there is none |
| RobinHood.HashTable.InsertHere | flatcc/external/hash/hash_table_impl_rh.h:191-247 | every chain of items is as the mode says, all other chains unchanged, offsets stay below 128 unless an overflow is reported |
| RobinHood.HashTable.Insert | flatcc/external/hash/hash_table_impl_rh.h:177-247 | the same after growing the table when the load factor is reached; what is returned is the item that was first under the key, in the order the resize left |
| RobinHood.HashTable.Resize | flatcc/external/hash/hash_table_impl_rh.h:153-175 | every chain keeps its items, at most rotated; the inner insertions never resize again |
| RobinHood.HashTable.Remove | flatcc/external/hash/hash_table_impl_rh.h:291-335 | the first item under the key goes, every other chain and the order within stay |
| RobinHood.RotatedSmall | flatcc/external/hash/hash_table_impl_rh.h:153-175 | a rotated chain holds the same items, and is unchanged when it holds at most one |
| RobinHood.InsertThenFind | flatcc/external/hash/hash_table_impl_rh.h:191-247 | mode by mode, what is found first after an insertion and what else stays stored under the key |
| RobinHood.InsertOnMap | flatcc/external/hash/hash_table_impl_rh.h:177-247 | without multi mode, insertions act as on a finite map |
| RobinHood.AnswerOnMap | flatcc/external/hash/hash_table_impl_rh.h:177-247 | and return the item the map held under the key |
| RobinHood.RemoveOnMap | flatcc/external/hash/hash_table_impl_rh.h:291-335 | removals act as on a finite map |
| Grisu.LargestPow10 | flatcc/external/grisu3/grisu3_math.h:317-323 | the number of decimal digits and a power of ten below 2^bits with n < 10 * power; power <= n if the top bit is set |
| Grisu.RoundWeed | flatcc/external/grisu3/grisu3_print.h:67-82 | the last digit never drops below 0, nothing overflows; it is lowered while the next number is as near to the upper end of the error range; success if and only if the rest is inside the safe interval and no further step is nearer to the lower end, and then the number is the nearest to w |
| Grisu.UnrivalledFound | flatcc/external/grisu3/grisu3_print.h:67-82 | a number nearer than all others of the interval to every point of the error range is the one where rounding stops |
| Grisu.RemainderDecides | flatcc/external/grisu3/grisu3_print.h:84-124 | if the remainder reaches the interval width, no multiple of that power of ten lies in the interval |
| Grisu.IntegerTurn | flatcc/external/grisu3/grisu3_print.h:97-108 | one digit before the point keeps the value, the remainder bound and shortness |
| Grisu.FractionTurn | flatcc/external/grisu3/grisu3_print.h:110-123 | one digit behind the point keeps them at ten times the scale |
| Grisu.FractionBounds | flatcc/external/grisu3/grisu3_print.h:110-123 | behind the point no 64-bit value overflows and at most 18 digits follow |
| Grisu.NearestByNeighbours | flatcc/external/grisu3/grisu3_print.h:67-82 | if neither neighbour is nearer, no multiple in the interval is |
| Grisu.DigitGen | flatcc/external/grisu3/grisu3_print.h:84-124 | terminates after at most 28 digits; stops at the first power of ten with a multiple in the interval; succeeds with m if m is such a multiple, in the safe interval and nearer than every other to all points within a unit of w; on success the decimal lies strictly inside the boundaries, no shorter one does, and no other of its length is nearer to w |
| DiyFloats.MultiplyRounds | flatcc/external/grisu3/grisu3_math.h:252-265 | multiply is floor((x*y + 2^63) / 2^64) with the sum of the exponents and 64, and no partial product overflows |
| DiyFloats.Normalize | flatcc/external/grisu3/grisu3_math.h:267-273 | sets the top bit and keeps f * 2^e |
| DiyFloats.ToBits | flatcc/external/grisu3/grisu3_math.h:284-312 | for a number equal to a finite double, the bits are those of the double if and only if the exponent, once f fits 53 bits, is not below that of the denormals |
| DiyFloats.SplitAndRebuild | flatcc/external/grisu3/grisu3_math.h:275-312 | splitting and rebuilding any non-negative finite double is the identity |
| DiyFloats.DenormalLost | flatcc/external/grisu3/grisu3_math.h:297-299 | a normalized denormal for which that condition fails |
| GrisuDouble.Boundaries | flatcc/external/grisu3/grisu3_print.h:129-141 | computes the double and its two boundaries at one normalized exponent |
| GrisuDouble.UpperIsMidpoint | flatcc/external/grisu3/grisu3_print.h:132-134 | the upper boundary is the midpoint to the next double |
| GrisuDouble.LowerIsMidpoint | flatcc/external/grisu3/grisu3_print.h:138-139 | the lower boundary is the midpoint to the previous double, if and only if the double is not the smallest normal one |
| GrisuExact.DoubleValue | flatcc/external/grisu3/grisu3_math.h:275-283 | the number a bit pattern stands for in IEEE 754, normal or denormal |
| GrisuDouble.ScaledInterval | flatcc/external/grisu3/grisu3_print.h:145-147 | scaling by a normalized power of ten meets the preconditions of digit generation |
| GrisuDouble.Grisu3 | flatcc/external/grisu3/grisu3_print.h:126-153 | for every positive finite double the same of the scaled boundaries: success whenever one decimal is certain, and only with one that is sound, shortest and closest |
| GrisuExact.PrintedInside | flatcc/external/grisu3/grisu3_print.h:145-153 | if the cached power is the exact power of ten within half a unit, the printed decimal lies strictly between the exact boundaries of the double |
| GrisuExact.PrintedNearest | flatcc/external/grisu3/grisu3_print.h:126-153 | and strictly between the midpoints of the double and its neighbours |
| OffsetVectors.UoffsetSwap | examples/flatbuffers_common_reader.h:424-430 | exchanges the absolute targets of two slots, modulo 2^32 |
| OffsetVectors.ExactTarget | examples/flatbuffers_common_reader.h:119-122 | a target behind the vector is reached without wrap-around |
| OffsetVectors.TopIsLargest | examples/flatbuffers_common_reader.h:383-406 | in a heap with slot 0 above slot 1, slot 0 is largest |
| OffsetVectors.SiftDown | examples/flatbuffers_common_reader.h:383-406 | restores the heap, touches no slot outside it, keeps all targets and any upper bound |
| OffsetVectors.BuildHeap | examples/flatbuffers_common_reader.h:407-410 | the first loop makes the whole vector a heap |
| OffsetVectors.HeapSort | examples/flatbuffers_common_reader.h:407-413 | the absolute targets come out ordered by key, each of them kept |
| OffsetVectors.FindByField | examples/flatbuffers_common_reader.h:242-261 | on a sorted vector, the lowest matching index, or not found exactly when no key matches |
| OffsetVectors.ScanByField | examples/flatbuffers_common_reader.h:290-299 | the lowest matching index of the range |
| OffsetVectors.RscanByField | examples/flatbuffers_common_reader.h:300-309 | the highest matching index of the range |
| Hashing.BucketsFor | flatcc/external/hash/hash_table_impl.h:57-80 | the smallest power of two from 4 on that holds the wanted count under the load factor |
| OpenAddressing.ProbesDiffer | flatcc/external/hash/hash_table_impl.h:49-55 | distinct probes of one round hit distinct slots, linear or triangular |
| OpenAddressing.EverySlotProbed | flatcc/external/hash/hash_table_impl.h:49-55 | a round of probes visits every slot of a power-of-two table |
| OpenAddressing.ProbeMoves | flatcc/external/hash/hash_table_impl.h:49-55 | probing starts at the home slot and goes on by one slot, or by one more slot each time, around the table |
| OpenAddressing.SearchFails | flatcc/external/hash/hash_table_impl.h:172-184 | a search that ends at a missing slot shows that the key is not stored |
| OpenAddressing.FullTableNeverEnds | flatcc/external/hash/hash_table_impl.h:61-68 | without a missing slot the search for an absent key never ends |
| OpenAddressing.SearchEndsIff | flatcc/external/hash/hash_table_impl.h:126-184 | a search ends if and only if the table has a missing slot or the key is stored |
| OpenAddressing.FreeEnd | flatcc/external/hash/hash_table_impl.h:128-136 | while there are fewer items than slots, the search for a free slot ends, tombstones or not |
| OpenAddressing.HashTable.constructor | flatcc/external/hash/hash_table_impl.h:57-80 | an empty valid table without tombstones, the smallest from 4 slots on that has room for the wanted count |
| OpenAddressing.HashTable.SearchesEnd | flatcc/external/hash/hash_table_impl.h:106-161 | a table without tombstones below its size always has a slot at which searches end |
| OpenAddressing.HashTable.Locate | flatcc/external/hash/hash_table_impl.h:172-184 | the search ends at the first match on the way, or shows that the key is not stored |
| OpenAddressing.HashTable.Find | flatcc/external/hash/hash_table_impl.h:163-185 | the first item with the key on the way, none exactly when none is stored |
| OpenAddressing.HashTable.InsertHere | flatcc/external/hash/hash_table_impl.h:126-160 | the bag of items changes as the mode says; only one slot is written: that of the first match in replace mode, or the first one on the way that holds no item, tombstone or not |
| OpenAddressing.HashTable.Insert | flatcc/external/hash/hash_table_impl.h:106-161 | the same, after growing exactly when the count has reached its share of the slots; tables without tombstones stay so |
| OpenAddressing.HashTable.Remove | flatcc/external/hash/hash_table_impl.h:187-211 | the first match on the way becomes a tombstone, one item with the key leaves the bag, all chains survive |
| OpenAddressing.HashTable.Resize | flatcc/external/hash/hash_table_impl.h:82-104 | the bag is kept and all tombstones are dropped |
| OpenAddressing.InsertOnMap | flatcc/external/hash/hash_table_impl.h:106-161 | replace and keep act as on a finite map |
| OpenAddressing.RemoveOnMap | flatcc/external/hash/hash_table_impl.h:187-211 | removal acts as on a finite map |
| Murmur.AbsorbIsBlocks | flatcc/external/hash/PMurHash.c:286-291 | byte by byte, the running hash is that of the all-at-once definition by whole blocks and tail |
| Murmur.DoBytes | flatcc/external/hash/PMurHash.c:163-172 | pushing bytes through the carry absorbs them |
| Murmur.CarriedBlock | flatcc/external/hash/PMurHash.c:217-247 | joining carried bytes with the next word forms the block, for every carry count |
| Murmur.DirectWords | flatcc/external/hash/PMurHash.c:198-202 | hashing words as they are read absorbs them, when nothing is carried; with bytes carried it is right only because no whole word is left |
| Murmur.WholeWords | flatcc/external/hash/PMurHash.c:215-248 | the word loops absorb the whole words, for every carry count |
| Murmur.Lead | flatcc/external/hash/PMurHash.c:192-213 | the bytes consumed first; on machines with unaligned access, nothing is carried then or no whole word is left |
| Murmur.Process | flatcc/external/hash/PMurHash.c:178-258 | absorbs the data in both branches, at every address, from every stored carry |
| Murmur.PendingStored | flatcc/external/hash/PMurHash.c:257 | storing the count in the low byte keeps the pending bytes |
| Murmur.ResultOfPending | flatcc/external/hash/PMurHash.c:263-281 | only the pending bytes of a carry reach the result, never its stale bits |
| Murmur.Progressive | flatcc/external/hash/PMurHash.c:296-315 | for every division into chunks and every alignment the result is that of the data hashed at once |
| MurmurMixing.BlockReachesResult | flatcc/external/hash/PMurHash.c:150-158 | two inputs that differ in exactly one whole block have different results |
| MurmurMixing.TailReachesResult | flatcc/external/hash/PMurHash.c:263-281 | two inputs of one length that differ only behind the last whole block have different results |
| MurmurMixing.SeedReachesResult | flatcc/external/hash/PMurHash.c:296-315 | different seeds give different results for the same data |
| MurmurMixing.TotalReachesResult | flatcc/external/hash/PMurHash.c:263-281 | different totals give different results |
| MurmurMixing.ResultOfNothing | flatcc/external/hash/PMurHash.c:263-281 | the result of no data with seed 1 |
| MurmurMixing.ResultOfByte | flatcc/external/hash/PMurHash.c:263-281 | the result of "a" with seed 0 |
| MurmurMixing.ResultOfBlock | flatcc/external/hash/PMurHash.c:150-158 | the result of "abcd" with seed 0 |
| MurmurMixing.ResultOfBlockAndTail | flatcc/external/hash/PMurHash.c:263-281 | the result of "abcdefg" with seed 0 |
| Framing.FramesRoundTrip | ksocket/helper.hpp:91-128 | decoding the concatenated frames gives the PDUs back in order |
| Framing.FrameLayout | ksocket/helper.hpp:112-128 | a frame byte by byte: four of length, two of type, each highest first, then the payload |
| Framing.SocketBuffer.constructor | ksocket/helper.hpp:68-72 | an empty buffer of the given size |
| Framing.SocketBuffer.AddPrimitive | ksocket/helper.hpp:84-90 | appends the big-endian number exactly when it fits below the last byte |
| Framing.SocketBuffer.AddPdu | ksocket/helper.hpp:112-128 | appends the frame exactly when it fits and the announced size is right; a wrong size, larger or smaller, leaves the header behind |
| Framing.SocketBuffer.GetPdu | ksocket/helper.hpp:91-111 | verdict, fields and new positions, including when consumed bytes are still in front |
| Framing.SweptIsJudgedRightly | ksocket/helper.hpp:91-111 | GetPdu recognises whole PDUs rightly if and only if everything consumed has been swept |
| Framing.MisjudgedExactly | ksocket/helper.hpp:91-111 | for one call and one buffer, exactly when GetPdu is wrong about a whole PDU |
| Framing.SocketBuffer.Consume | ksocket/helper.hpp:130-135 | drops that many bytes, or refuses when there are fewer; a size whose sum with the position wraps around is accepted and moves the position back |
| Framing.SocketBuffer.Sweep | ksocket/helper.hpp:136-143 | moves the rest to the front unchanged |
| Framing.SocketBuffer.Drain | ksocket/helper.hpp:91-143 | GetPdu, Consume and Sweep repeated yield exactly the PDUs of the data, consumed <= used <= SIZE throughout |
| Framing.SendAndReceive | ksocket/helper.hpp:77-143 | PDUs added to one buffer come out of another in order, exactly when they fit |

## Left out

- Allocation failure, freeing and the allocator interface: every allocation succeeds.
- Submessages are values: the in-place update of a nested message through its pointer, and aliasing between messages, are not modelled.
- Input bytes are a sequence, and the required-field bitmap is a sequence of booleans.
- MergeLaws.DecodingIsHomomorphism: not stated for schemas with oneofs, whose merge may fail (`OneofHomomorphism` is about their cells), nor for required submessages of the message itself, which parsing merges and `merge_messages` replaces.
- MergeLaws.MergeAssociative: not stated for schemas with oneofs, where merging is partial.
- Unpacking.Unpack: requires that the elements fit the arrays as allocated, as they do for inputs below 2^32 bytes; what the C code does beyond the end of an array is undefined.
- Packing.MessagePack: lengths written in front of a payload, element counts and the lengths of packed records are required to fit the unsigned variables that hold them; likewise Sizes.MessageSize and Streaming.MessageToBuffer. `ShortFits` says that they do below 2^32 bytes.
- Messages start out as the generated initialisers leave them: union members of a oneof are zero.
- `memcpy` of fixed-width arrays is modelled element by element, as the big-endian branch does it.
- Services, closures, enum lookups and text-based field lookup: table searches without further structure.
- RobinHood.HashTable.Insert: offsets are unbounded numbers; reaching 128 is reported, the resize or panic that then follows is not modelled.
- RobinHood.HashTable.Resize: the order of duplicate keys may be rotated, as in the source when a bucket wraps around the end of the table.
- OpenAddressing.HashTable.Insert: a search that never ends is excluded by requirement, since nothing in the source bounds the number of tombstones; `SearchEndsIff` is the exact condition.
- Overflow of the probe arithmetic beyond 64 bits, where the masked result is the same.
- GrisuDouble.Grisu3: the cached power of ten and its exponent are parameters; the table and the floating-point estimate that selects an entry are not part of this model. `GrisuExact` assumes that the entry is the exact power rounded to its last place.
- The presentation of digits as text, `grisu3_parse.h`, and the sprintf fallback.
- OffsetVectors.HeapSort: keys are integers given by a function of the target; string comparison and table access are not modelled. Sorting of plain values uses the same loops with a plain exchange.
- FlatBuffers builders and verifiers, the lexer, MetroHash and FNV, mixer quality of the hashes.
- Framing.SocketBuffer.AddPdu: the serializer is required to stay inside the buffer.
- Framing.SocketBuffer.GetPdu: a header that is read is required to lie inside the buffer; the source reads past the end when consumed bytes leave less than six.
- Socket input and output, and the RECV_PDU and SEND_ALL macros: a receiver is filled once.

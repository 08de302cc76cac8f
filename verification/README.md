# nanopb 0.3.9.5 in Dafny

A model of the Protocol Buffers codec vendored under `IChat/Pods/nanopb`: the decoder, the
encoder, the descriptor iterator and the layout macros, with proofs about all of them.
The wire format is the one of the Protocol Buffers Encoding specification, sections "Base
128 Varints", "Message Structure", "Signed Integers", "Length-Delimited Records", "Packed
Repeated Fields", "Last One Wins" and "Field Order".

## How it is organised

The code works by changing streams, iterators and structs in place, and so does the model:
`IStream`, `OStream`, `FieldIter`, `FieldsSeen`, `Struct` and `Heap` are classes, and the C
loops are loops. Every method is proved against a specification on values. The theorems are
lemmas about that specification.

| files | content |
|---|---|
| `Common`, `Bits` | bytes, `pb_size_t`, shifts, masks and truncation |
| `Varint`, `Varint32`, `Scalars` | both varint decoders, zigzag, fixed width, range checks |
| `Descriptor` | `pb_field_t` tables, struct memory by offset, the layout macros, default values |
| `EncodeSpec`, `DecodeSpec` | the bytes `pb_encode` writes; what `pb_decode` makes of any bytes |
| `OStream`, `Encoder` | the output stream, and `pb_encode` down to the value encoders |
| `IStream`, `FieldIter`, `FieldsSeen`, `Decoder` | the input stream, the iterator, the required-field bitmap, and `pb_decode` down to the value decoders |
| `WireFormat`, `Omission`, `Refusals`, `Acceptance` | in plain numbers: what is on the wire, what is left out, what the encoder refuses and what the value decoders accept |
| `Messages`, `Records`, `RoundTrip`, `Framed`, `Merging`, `Packed`, `RequiredCheck`, `Validity`, `Contents` | the theorems about messages |
| `EndToEnd` | a message through the encoder, a buffer and the decoder |
| `DefaultWrite` | the default write for arrays without a counter, in the bytes of memory |
| `Heap`, `Ownership`, `Release`, `PointerSpec`, `PointerDecoder` | the build with PB_ENABLE_MALLOC: which blocks are allocated at every return, and what is decoded into them |
| `PointerEncode`, `PointerRoundTrip`, `PointerOmission`, `PointerPacked`, `PointerContents` | what is written for pointer fields, that it is read back, and what is left out; packed and unpacked arrays behind pointers; what a struct with pointers holds |
| `LastOneWins`, `PointerFree` | more about that build: repeated records of a pointer field, and agreement with the other build |

Assumptions, all of them preconditions in the model: tables are laid out by the macros and
have unique tags between 1 and 2^29 - 1 that fit `pb_size_t`, and every fixed count array in them
is at least as large as a `pb_size_t` (`DescOk`); a message to be
encoded holds values of its members' C types and its sizes fit `size_t` (`Encoder.Readable`,
which every valid message shorter than 2^32 bytes meets); round trips are claimed for valid
messages (`MsgOk`) whose encoding is shorter than 2^32 bytes. Decoding results hold for every
input, every struct content and every width of `pb_size_t`: PB_SIZE_MAX is left unspecified.

## What the proofs brought to light

- `bitpos` of `pb_decode_varint32_eof` is a `uint_fast8_t` and wraps around at byte 38 of an
  overlong varint; from there on `result` may be changed again. Up to 37 bytes an accepted
  varint is read as the sum of its groups mod 2^32 (`Varint32.Dec32UpTo37`), at 38 bytes it
  need not be (`Varint32.PositionWraps`), and `Varint32.Dec32Exact` says for every length when
  it is.
- An empty table's terminator has tag 0 and the type bits of a required bool.
  `pb_field_iter_find` matches it when a record with field number 0 arrives, and the record is
  then decoded as a bool instead of skipped. That is the only exception to the skipping of
  unknown records (`Records.UnknownIsSkipped`; `Records.TerminatorMisread` has an input).
- `pb_field_set_to_default` clears the counter of every repeated field. A fixed count array has
  none: `pSize` equals `pData`, and the zero lands on the first sizeof(pb_size_t) bytes of the
  array. That settles some arrays, such as one string, one bytes value, or numbers that fill
  just these bytes (`Validity.ClearedIsValid` says exactly which), and leaves others
  uninitialised. `pb_decode` does not notice when no record for such an array arrives
  (`Validity.MissingFixedArray` has an input). What a successful call leaves is a valid message
  exactly when every array not settled in this way has arrived, in the message and in the
  messages inside it (`Validity.DecodedIsValid`).
- The same zero leaves other members alone exactly when the array is at least as large as a
  `pb_size_t`, at any depth (`DefaultWrite.AllStayInsideExactly`). Where it is smaller, the zero
  reaches what follows it. In an array entry, which gets its defaults while it is decoded, that
  may be a member of the enclosing struct that was received before, and then the order of
  records decides what the struct holds (`DefaultWrite.OverrunDecides` has an input). `DescOk`
  excludes such tables.
- `pb_encode_delimited` writes any length, but `pb_decode_delimited` reads lengths as 32-bit
  numbers: between 2^32 and 2^63 bytes the message is written and cannot be read
  (`Framed.DelimitedTooLong`, with a message in `Framed.LongMessage`); below, it always can.
- Concatenation is merging only for a first part that does not end with a zero tag; otherwise
  the second part is not looked at (`Merging.ZeroTagEnds`).
- For a fixed count array a packed record without items is not the same as no record: it starts
  the array, which then has to be completed (`Packed.EmptyRecordStarts`).
- The "submsg size changed" error of `pb_encode_submessage` cannot occur.
- For an optional pointer field inside a proto3 submessage, `pb_check_proto3_default_value` compares
  `data_size` bytes at the place of the pointer with zero, and `data_size` is the size of what the
  pointer refers to: one byte of the address for a string, more than the address for a large
  struct. Whether the submessage is transmitted then depends on the address. Messages of this kind
  are not among those the round trip for pointer fields is claimed for (`PointerEncode.ChecksAddress`).

## Model

| member | source | states |
|---|---|---|
| RoundTrip.WholeMessage | IChat/Pods/nanopb/pb_encode.c:519-541 | every valid message of every static descriptor tree is encoded; decoding the bytes succeeds, consumes them all and gives the same message, which encodes to the same bytes again |
| EndToEnd.SendAndReceive | IChat/Pods/nanopb/pb_encode.c:519-541 | encoding into a buffer and decoding from it succeeds exactly when the message fits, with nothing left over and the same message |
| EndToEnd.ValidIsReadable | IChat/Pods/nanopb/pb_encode.c:519-541 | every valid message shorter than 2^32 bytes meets the precondition of the encoder |
| RoundTrip.ForwardCompatible | IChat/Pods/nanopb/pb_decode.c:957-986 | a message encoded under a newer descriptor decodes under any older one (fields or oneof members deleted at any depth, members laid out anew), consuming everything, to the message restricted to the older fields |
| RoundTrip.MessageArrives | IChat/Pods/nanopb/pb_decode.c:943-1021 | the record loop over a whole encoded message followed by anything reaches, in front of what follows, a state that holds the message with all required fields seen and the last fixed count array complete |
| RoundTrip.ValueArrives | IChat/Pods/nanopb/pb_decode.c:1503-1525 | one encoded value of any type, submessages included, is decoded to the same value, also into storage that was set to defaults before |
| RoundTrip.PackedItemsArrive | IChat/Pods/nanopb/pb_decode.c:424-453 | the items inside a packed payload are appended one by one, none lost or reordered |
| RoundTrip.ArraySkipped | IChat/Pods/nanopb/pb_decode.c:321-331 | a reader without the field skips all records of an array, in either form, and changes nothing |
| WireFormat.RecordForm | IChat/Pods/nanopb/pb_encode.c:660-698 | a record is the varint of 8 times the field number plus 0, 1, 2 or 5, by type, and the value |
| WireFormat.ArrayForm | IChat/Pods/nanopb/pb_encode.c:143-235 | arrays of numbers are one record of type 2 with the length of all entries, whatever their number; other arrays have a record for every entry |
| WireFormat.EntriesForm | IChat/Pods/nanopb/pb_encode.c:190-232 | the entries follow each other without anything between them |
| WireFormat.FieldForm | IChat/Pods/nanopb/pb_encode.c:332-417 | whatever a field writes starts with its key |
| WireFormat.MessageForm | IChat/Pods/nanopb/pb_encode.c:519-541 | the fields are written in the order of the table, each once |
| WireFormat.VarintForms | IChat/Pods/nanopb/pb_encode.c:760-824 | negative numbers as 64-bit two's complement, zigzag as 2n and -2n - 1, bool as 0 and 1 |
| WireFormat.FixedForms | IChat/Pods/nanopb/pb_encode.c:632-658 | four or eight bytes whose sum with weights 1, 256, 65536, ... is the number |
| WireFormat.DelimitedForms | IChat/Pods/nanopb/pb_encode.c:843-903 | length and content; a string ends before its first zero byte, or at the end of its array |
| WireFormat.KeyForm | IChat/Pods/nanopb/pb_decode.c:298-319 | a key is split into its three low bits and the field number; only the key 0 ends a message |
| WireFormat.FixedSkipped | IChat/Pods/nanopb/pb_decode.c:321-331 | unknown records with key type 1 and 5 are skipped with exactly 8 and 4 bytes of any content; fewer make decoding fail |
| WireFormat.VarintSkipped | IChat/Pods/nanopb/pb_decode.c:278-287 | type 0 is skipped up to the first byte below 128, and fails without one |
| WireFormat.DelimitedSkipped | IChat/Pods/nanopb/pb_decode.c:289-296 | type 2 is skipped with the length it states, and fails when fewer bytes are left |
| WireFormat.OtherTypesFail | IChat/Pods/nanopb/pb_decode.c:321-331 | key types 3, 4, 6 and 7 of unknown records make decoding fail |
| WireFormat.TypeNotChecked | IChat/Pods/nanopb/pb_decode.c:406-480 | the key type of a known field is not looked at: whatever follows is read as the field's type, except that type 2 means a packed array for a repeated field of numbers |
| WireFormat.NumberExample | IChat/Pods/nanopb/pb_encode.c:519-541 | 150 in field 1 is 08 96 01, as in the specification |
| WireFormat.TextExample | IChat/Pods/nanopb/pb_encode.c:519-541 | the string of seven characters in field 2 is 12 07 and the seven bytes, as in the specification |
| WireFormat.NestedExample | IChat/Pods/nanopb/pb_encode.c:708-756 | that message in field 3 is 1A 03 08 96 01 |
| WireFormat.NumbersExample | IChat/Pods/nanopb/pb_encode.c:159-202 | 3, 270 and 86942 in field 6 are 32 06 03 8E 02 9E A7 05 |
| Omission.SingularOmitted | IChat/Pods/nanopb/pb_encode.c:237-328 | a proto3 member is left out exactly when its number is 0, its bytes or string are empty, or its submessage has no bytes; fixed length bytes never |
| Omission.OmittedExactly | IChat/Pods/nanopb/pb_encode.c:332-417 | any member takes no bytes exactly when it is such a proto3 member, has_ is false, the count is 0, or the union is another member's |
| Omission.EmptyMessage | IChat/Pods/nanopb/pb_encode.c:519-541 | a valid message takes no bytes exactly when all its members are left out |
| Refusals.MessageEncodesExactly | IChat/Pods/nanopb/pb_encode.c:519-541 | a struct that can be read is encoded exactly when, in all members that are transmitted and at any depth, every bytes value fits its array and every count is at most the array size |
| Acceptance.StringAccepted | IChat/Pods/nanopb/pb_decode.c:1468-1501 | a string payload is stored exactly when it is shorter than its array |
| Acceptance.BytesAccepted | IChat/Pods/nanopb/pb_decode.c:1431-1466 | bytes exactly when they fit behind their length, and the length fits `pb_size_t` |
| Acceptance.FixedLengthAccepted | IChat/Pods/nanopb/pb_decode.c:1527-1548 | fixed length bytes exactly when they have this length, or none, which stores zeros |
| Acceptance.SubmessageAccepted | IChat/Pods/nanopb/pb_decode.c:1503-1525 | a submessage payload is merged into the member, or decoded from default values for an array entry |
| Acceptance.PointerBlobAccepted | IChat/Pods/nanopb/pb_decode.c:1431-1501 | behind a pointer, strings shorter than 2^32 - 1 bytes and bytes whose length fits `pb_size_t` |
| Acceptance.BoolAccepted | IChat/Pods/nanopb/pb_decode.c:1318-1327 | any 32-bit varint but 0 is stored as 1 |
| Acceptance.FixedAccepted | IChat/Pods/nanopb/pb_decode.c:1283-1314 | four and eight bytes are read back as the number; fewer are refused |
| Messages.FieldsEncode | IChat/Pods/nanopb/pb_encode.c:332-417 | a valid message always has an encoding |
| Messages.SameFieldsEncode | IChat/Pods/nanopb/pb_encode.c:332-417 | structs that hold the same message have the same encoding, whatever is in unset optionals, inactive union members and behind string terminators |
| Validity.DecodedIsValid | IChat/Pods/nanopb/pb_decode.c:1075-1087 | after success the struct is a valid message exactly when every fixed count array that the default does not initialise has arrived, in the message and in all messages inside it that count: the merged ones, the entries that are left, the last one of a oneof |
| Validity.MergedIsValid | IChat/Pods/nanopb/pb_decode.c:925-1073 | the same for any number of strings decoded into one struct, from either kind of initial storage |
| Validity.CompleteByTags | IChat/Pods/nanopb/pb_decode.c:943-1021 | without messages inside, the condition is that the tags of these arrays are among those read |
| Validity.DecodedIsCanonical | IChat/Pods/nanopb/pb_decode.c:1075-1087 | in that case it can be encoded, and decoding that gives the same message with the same encoding |
| DefaultWrite.StaysInsideExactly | IChat/Pods/nanopb/pb_decode.c:862-869 | the zero written for a fixed count array changes no byte of another member, whatever is in memory, exactly when the array is at least as large as a `pb_size_t` |
| DefaultWrite.AllStayInsideExactly | IChat/Pods/nanopb/pb_decode.c:836-919 | the same for all structs inside a struct, at any depth |
| DefaultWrite.DescOkStaysInside | IChat/Pods/nanopb/pb_decode.c:836-919 | in the tables the theorems are about, no such write reaches another member |
| DefaultWrite.OverrunDecides | IChat/Pods/nanopb/pb_decode.c:862-869 | a table that misses this by one byte, where the order of two records decides the value of a member |
| DefaultWrite.ApartNothingDecides | IChat/Pods/nanopb/pb_decode.c:943-1021 | the same six bytes in both orders, decoded with members kept apart: the value would be the same |
| Validity.LoopMatches | IChat/Pods/nanopb/pb_decode.c:943-1021 | for every input each member holds what its own records make of it: a value of its C type, no more entries than the array has, the which_ value of the last record of the union, and of a fixed count array as much as was received, untouched if nothing was |
| Validity.MissingFixedArray | IChat/Pods/nanopb/pb_decode.c:836-906 | the counterexample: without a record an array longer than the default write keeps uninitialised entries, and decoding succeeds |
| Validity.ClearedIsValid | IChat/Pods/nanopb/pb_decode.c:865-873 | clearing the first bytes of storage makes it a valid value exactly when they cover what decides: the whole number, the first byte of a string, the size of a bytes value, and so on into submessages by their members' offsets |
| StructContents.DecodedHolds | IChat/Pods/nanopb/pb_decode.c:1075-1087 | for every accepted input and at every depth each member holds the table's default value or zero if no record came for it, else the value of its last record; has_ and which_ tell whether and which came; submessages are the merge of their payloads, array entries one for each payload; untouched fixed arrays are zero as far as they were cleared |
| StructContents.MergedHolds | IChat/Pods/nanopb/pb_decode.c:925-1073 | the same for any number of strings decoded into one struct |
| StructContents.AbsentIsDefault | IChat/Pods/nanopb/pb_decode.c:871-889 | a required or optional member whose tag is not among those read holds `ptr`'s default value, or the literal zero of its type; has_ is true exactly if the tag was read |
| Merging.ConcatenationMerges | IChat/Pods/nanopb/pb_decode.c:925-1073 | decoding `a` without a zero tag and then `b` into the same struct succeeds only if decoding `a + b` does, with the same struct, rest and way of ending, for every descriptor without fixed count arrays |
| Merging.ZeroTagEnds | IChat/Pods/nanopb/pb_decode.c:310-314 | after a zero tag, appended bytes are left unread and change nothing |
| Merging.LoopAppend | IChat/Pods/nanopb/pb_decode.c:943-1021 | the record loop on `a + b` is the loop on `b` from the state after `a` |
| Merging.OrderIndependent | IChat/Pods/nanopb/pb_decode.c:943-1021 | in tables whose default writes stay inside their arrays, any permutation of records that keeps the order within a field and within a oneof has the same outcome, success or failure, and the same struct |
| Merging.SwapNeighbours | IChat/Pods/nanopb/pb_common.c:78-95 | swapping adjacent records of different fields that share no union changes nothing |
| Merging.ApplyAllSlotwise | IChat/Pods/nanopb/pb_decode.c:987-1021 | after a run of records each member is what its own records, alone and in order, make of it |
| Packed.PackedAgreesWithUnpacked | IChat/Pods/nanopb/pb_decode.c:424-464 | two ways of cutting the same items into packed and unpacked records are decoded alike, with or without a _count member: same failure, or same struct |
| Packed.EmptyRecordStarts | IChat/Pods/nanopb/pb_decode.c:988-1010 | without a _count member an empty packed record makes decoding fail where no record at all does not |
| Packed.AnyMixture | IChat/Pods/nanopb/pb_decode.c:424-464 | any mixture of packed and unpacked records is decoded as if its items came one at a time, behind those a fixed count array already has |
| Packed.ReceiveFailsOnOverflow | IChat/Pods/nanopb/pb_decode.c:424-464 | items that decode fail as a whole exactly when they exceed the array size; otherwise they are appended in order |
| Framed.StreamRoundTrip | IChat/Pods/nanopb/pb_decode.c:1104-1117 | messages written one after another by pb_encode_delimited are recovered by as many pb_decode_delimited calls, which leave exactly what follows |
| Framed.DelimitedRoundTrip | IChat/Pods/nanopb/pb_encode.c:543-546 | one delimited message is recovered in front of any suffix |
| Framed.DelimitedTooLong | IChat/Pods/nanopb/pb_decode.c:372-385 | a delimited message of 2^32 bytes or more, below 2^63, is never read back |
| Framed.LongMessage | IChat/Pods/nanopb/pb_encode.c:543-546 | with a 32-bit `pb_size_t` there is a valid message of that length |
| Framed.NullTerminatedRoundTrip | IChat/Pods/nanopb/pb_decode.c:1119-1123 | a null-terminated message in front of any suffix is recovered, leaving exactly the suffix |
| RequiredCheck.RequiredCheckMeaning | IChat/Pods/nanopb/pb_decode.c:1030-1070 | for every input, decoding succeeds exactly when the record loop does, the last fixed count array is complete, and each of the first 64 required fields has its tag among the records read |
| RequiredCheck.MarksAreTags | IChat/Pods/nanopb/pb_decode.c:1012-1017 | a bit is set after the loop exactly when it was set before or the field's tag was read |
| Records.UnknownIsSkipped | IChat/Pods/nanopb/pb_decode.c:957-986 | a record no field has the number of is skipped by its wire type and changes nothing, whatever it holds, unless the table is empty and the number 0 |
| Records.TerminatorMisread | IChat/Pods/nanopb/pb_common.c:78-95 | three bytes at which the exception makes decoding fail where skipping would succeed |
| RequiredFields.FieldsSeen.Mark | IChat/Pods/nanopb/pb_decode.c:1012-1017 | or-ing a shifted bit into one of two words adds exactly that index to the set they stand for |
| RequiredFields.FieldsSeen.Complete | IChat/Pods/nanopb/pb_decode.c:1048-1069 | the check of whole words and of the remainder passes exactly when all indices below the count are in the set |
| RequiredFields.WordFull | IChat/Pods/nanopb/pb_decode.c:1059-1068 | a word equals `allbits >> (32 - r)` exactly when its `r` low bits are set, given that the others are clear |
| RequiredFields.MarksChecked | IChat/Pods/nanopb/pb_decode.c:1012-1017 | no record sets a bit at or beyond the number of checked fields, which is why comparing for equality is right |
| Decoder.Decode | IChat/Pods/nanopb/pb_decode.c:1075-1087 | on every input and whatever the struct held, terminates, succeeds exactly when `Dec` is defined, and leaves the struct and the stream it gives; no read leaves the buffer |
| Decoder.DecodeNoinit | IChat/Pods/nanopb/pb_decode.c:925-1073 | the same for merging into a struct (`DecNoinit`), although the iterator searches from wherever it is |
| Decoder.DecodeRecord | IChat/Pods/nanopb/pb_decode.c:957-1021 | one turn of the loop finds, decodes or skips exactly one framed record and keeps the bitmap and the fixed count variables in step with the specification |
| Decoder.CheckRequired | IChat/Pods/nanopb/pb_decode.c:1030-1070 | counting required fields by walking the iterator to the end and comparing the bitmap passes exactly when all checked indices were seen |
| Decoder.DecodeStaticField | IChat/Pods/nanopb/pb_decode.c:406-480 | reads exactly the framed record and changes exactly the field's member, for required, optional, repeated and oneof fields |
| Decoder.DecodePacked | IChat/Pods/nanopb/pb_decode.c:424-453 | the loop over a packed substream ends with all items stored, or fails; the parent stream continues behind the payload |
| Decoder.DecSubmessage | IChat/Pods/nanopb/pb_decode.c:1503-1525 | the nested decoder sees exactly the payload, recurses on a shorter stream, and on success leaves the parent behind the record |
| Decoder.DecodeDelimited | IChat/Pods/nanopb/pb_decode.c:1104-1117 | reads one length-delimited message as `Framed.DecDelimited` says and stops right behind it |
| Decoder.MessageSetToDefaults | IChat/Pods/nanopb/pb_decode.c:908-919 | walking the iterator once puts every field's default in its place, on top of what was there (`StructContents.AbsentIsDefault` says which values these are); a fixed count array gets a zero over its first bytes |
| Decoder.DecVarint | IChat/Pods/nanopb/pb_decode.c:1329-1364 | stores the int64 reading or the int32 truncation and refuses what does not survive the member's width |
| Decoder.DecString | IChat/Pods/nanopb/pb_decode.c:1468-1501 | accepts exactly what fits with its terminator, with `size + 1` computed in 32 bits |
| Decoder.CombineBytes | IChat/Pods/nanopb/pb_decode.c:1283-1314 | or-ing shifted bytes is the little-endian number |
| InputStream.IStream.DecodeVarint | IChat/Pods/nanopb/pb_decode.c:255-276 | the or-and-shift loop succeeds exactly when a byte below 128 is among the first ten left, and then yields the sum of the groups mod 2^64 |
| InputStream.IStream.DecodeVarint32Eof | IChat/Pods/nanopb/pb_decode.c:187-247 | the loop is `Dec32`, with the overflow and sign-extension checks and the 8-bit `bitpos`; `eof` means that the stream was empty |
| InputStream.IStream.SkipField | IChat/Pods/nanopb/pb_decode.c:321-331 | consumes exactly the framed payload of the wire type, or fails (`WireFormat.FixedSkipped` and its neighbours have the numbers) |
| InputStream.IStream.MakeStringSubstream | IChat/Pods/nanopb/pb_decode.c:372-385 | the substream sees exactly the payload and is shorter than the parent was; the parent accounts for the payload at once |
| InputStream.IStream.CloseStringSubstream | IChat/Pods/nanopb/pb_decode.c:387-400 | after any reads inside, the parent continues exactly behind the payload, where skipping the field would leave it |
| InputStream.IStream.Read | IChat/Pods/nanopb/pb_decode.c:102-137 | copies the next bytes, or fails when too few are left; the end of the stream never moves |
| InputStream.IStream.DecodeTag | IChat/Pods/nanopb/pb_decode.c:298-319 | splits the tag varint; a zero tag and an empty stream both report the end |
| FieldIterator.FieldIter.Begin | IChat/Pods/nanopb/pb_common.c:8-18 | starts on the first field with absolute addresses |
| FieldIterator.FieldIter.Next | IChat/Pods/nanopb/pb_common.c:20-76 | moves to the next field or wraps to the first; the addresses summed up from relative offsets equal the absolute ones, unions, arrays and pointers included, and the index counts the required fields before |
| FieldIterator.FieldIter.Find | IChat/Pods/nanopb/pb_common.c:78-95 | terminates from every position, succeeds exactly when some field has the tag, stops at the first one met, and otherwise comes back to its start |
| Descriptor.OffsetsAscend | IChat/Pods/nanopb/pb.h:399-413 | in a table laid out by the macros offsets ascend, a member outside unions ends before the next one starts, and only members of one oneof share an offset |
| Varint.EncShortest | IChat/Pods/nanopb/pb_encode.c:599-619 | no other byte sequence with the same value is as short as the encoder's |
| Varint.EncLength | IChat/Pods/nanopb/pb_encode.c:599-619 | an encoding has at most k bytes exactly when the value is below 128^k |
| Varint.Dec64Enc | IChat/Pods/nanopb/pb_decode.c:255-276 | decoding undoes encoding for every 64-bit value, whatever follows |
| Acceptance.Dec64Accepts | IChat/Pods/nanopb/pb_decode.c:255-276 | a 64-bit varint is accepted exactly when a byte below 128 is among the first ten, and stands for the sum of its groups mod 2^64 |
| Varint32.Dec32AgreesWithDec64 | IChat/Pods/nanopb/pb_decode.c:187-247 | when the 32-bit decoder succeeds, the 64-bit one does exactly if at most ten bytes were read, consumes the same and agrees mod 2^32 |
| Varint32.Dec32Accepts | IChat/Pods/nanopb/pb_decode.c:187-247 | of the varints up to 37 bytes exactly those are accepted whose fifth byte, if it is the last, is below 16, and behind which only zero groups follow, or FF bytes and 01 for a number with its top bit set |
| Varint32.Dec32Enc | IChat/Pods/nanopb/pb_decode.c:187-247 | the 32-bit decoder undoes the encoder below 2^32 |
| Varint32.Dec32EncTooLarge | IChat/Pods/nanopb/pb_decode.c:187-247 | it fails on every encoding of a value from 2^32 up to 2^63 |
| Varint32.Dec32EncNegative | IChat/Pods/nanopb/pb_decode.c:187-247 | it returns the low 32 bits of a sign-extended negative int32, from ten bytes |
| Varint32.NegativeArrives | IChat/Pods/nanopb/pb_encode.c:574-597 | what the 32-bit build writes for a negative int32 is read back as the same 32-bit word |
| Varint32.Dec32Exact | IChat/Pods/nanopb/pb_decode.c:212-236 | whatever its length, an accepted varint is read as the sum of its groups mod 2^32 exactly when no group behind the fifth, shifted by its position mod 256, has a bit that the sum has not |
| Varint32.Dec32UpTo37 | IChat/Pods/nanopb/pb_decode.c:212-236 | in particular for every accepted varint of up to 37 bytes |
| Varint32.PositionWraps | IChat/Pods/nanopb/pb_decode.c:212-236 | a concrete varint of 38 bytes whose groups sum to 1 mod 2^32 is read as 9, because the 8-bit position has wrapped around |
| Scalars.ScalarRoundTrip | IChat/Pods/nanopb/pb_encode.c:760-841 | for every scalar type and width 1, 2, 4, 8, encode then decode is the identity |
| Scalars.StoredVarint | IChat/Pods/nanopb/pb_decode.c:1329-1412 | on arbitrary input exactly one number can be stored: for varints the one of the member's type congruent mod 2^64 or, for narrow members, mod 2^32; for unsigned and zigzag the number itself |
| Scalars.DecScalarInRange | IChat/Pods/nanopb/pb_decode.c:1318-1412 | whatever is stored is a value of the member's C type |
| Scalars.CastSignedFits | IChat/Pods/nanopb/pb_decode.c:1350-1361 | casting to a narrower type and comparing detects exactly the values that do not fit |
| Scalars.ZigZagMeaning | IChat/Pods/nanopb/pb_encode.c:621-630 | complement and shift number the integers 0, -1, 1, -2, ..., and the decoder's formula inverts that |
| Encoder.Encode | IChat/Pods/nanopb/pb_encode.c:519-541 | on a buffer, succeeds exactly when the message has an encoding and it fits in what is left; appends exactly that and changes nothing before or behind; on a sizing stream it counts the same bytes |
| Encoder.GetEncodedSize | IChat/Pods/nanopb/pb_encode.c:558-567 | succeeds exactly when the message has an encoding, and returns its length |
| Encoder.EncodeSubmessage | IChat/Pods/nanopb/pb_encode.c:708-756 | writes length and message or fails for lack of room; the writing pass always produces the size of the sizing pass |
| Encoder.EncodeDelimited | IChat/Pods/nanopb/pb_encode.c:543-546 | appends exactly the delimited message |
| Encoder.EncodeNullTerminated | IChat/Pods/nanopb/pb_encode.c:548-556 | appends exactly the message and a zero byte |
| Encoder.EncodeField | IChat/Pods/nanopb/pb_encode.c:332-417 | writes the records of one field, or nothing for unset, default and inactive members |
| Encoder.EncodePacked | IChat/Pods/nanopb/pb_encode.c:159-202 | the length computed by multiplication or by a sizing pass is the length of the items written |
| Encoder.CheckProto3Default | IChat/Pods/nanopb/pb_encode.c:237-328 | the recursive walk computes `IsDefault`, which `Omission.OmittedExactly` shows to be exactly what need not be written |
| Encoder.StringLength | IChat/Pods/nanopb/pb_encode.c:864-888 | the bounded search finds the content before the terminator |
| Encoder.FixedItemsSize | IChat/Pods/nanopb/pb_encode.c:166-174 | the items of a fixed width array have 4 or 8 bytes each |
| OutputStream.WritesThen | IChat/Pods/nanopb/pb_encode.c:103-121 | writing in two steps succeeds and fails like writing the concatenation at once |
| OutputStream.OStream.Write | IChat/Pods/nanopb/pb_encode.c:103-121 | appends the bytes if they fit, counts them, and leaves the rest of the buffer alone |
| OutputStream.OStream.EncodeVarint | IChat/Pods/nanopb/pb_encode.c:599-619 | writes exactly `Enc` of the value; the ten-byte local buffer is never overrun |
| OutputStream.OStream.EncodeNegativeVarint | IChat/Pods/nanopb/pb_encode.c:574-597 | writes the same bytes as the 64-bit sign extension would need |
| OutputStream.CompensatedBytes | IChat/Pods/nanopb/pb_encode.c:574-597 | the compensation loop on a 32-bit word computes the varint of the 64-bit number |
| OutputStream.ExtendedStep | IChat/Pods/nanopb/pb_encode.c:580-592 | each round takes seven bits off the extended number |
| OutputStream.OnesAreSet | IChat/Pods/nanopb/pb_encode.c:584-590 | the bits shifted in, `0xFF >> (8 - bits)`, are the lowest `bits` bits, all set |
| PointerDecoder.Decode | IChat/Pods/nanopb/pb_decode.c:1075-1087 | for every input, every allocator and every set of message types, recursive ones included: terminates; success gives exactly the struct of the specification, failure happens only if the specification fails or a request for memory was refused; after failure the heap is as before, after success the struct owns exactly the new blocks, each through one pointer, and checked required pointers are not NULL |
| PointerDecoder.DecodeNoinit | IChat/Pods/nanopb/pb_decode.c:925-1073 | at every return the blocks owned before have been exchanged for those owned now, none leaked, none owned twice; unless memory was refused the outcome is the specified merge of the records into the struct |
| PointerDecoder.DecodePointerField | IChat/Pods/nanopb/pb_decode.c:550-675 | the same for one field and one framed record; every entry, string and bytes value lies inside the number of bytes the allocator was asked for, even when allocation fails half way |
| LastOneWins.RunIsLast | IChat/Pods/nanopb/pb_decode.c:563-592 | a run of records of a pointer field that is not repeated leaves what the last one alone leaves, if all of them decode, and is refused if one of them does not, even a superseded one |
| PointerFree.DecodeSame | IChat/Pods/nanopb/pb_decode.c:1075-1087 | for message types without pointer fields, oneofs and static repeated submessages both builds decode every input alike: same success, struct and rest |
| PointerFree.MergeSame | IChat/Pods/nanopb/pb_decode.c:925-1073 | the same, for the same types, for merging into a struct that has content |
| PointerFree.EncodeSame | IChat/Pods/nanopb/pb_encode.c:332-417 | for these types the specification of the encoder with pointer fields gives the bytes of the one without, for every struct |
| PointerRoundTrip.WholeMessage | IChat/Pods/nanopb/pb_encode.c:519-541 | every valid message of recursive types with pointer fields is encoded; decoding the bytes with dynamic allocation consumes them all and gives the same message, which encodes to the same bytes again |
| PointerRoundTrip.MessageArrives | IChat/Pods/nanopb/pb_decode.c:925-1073 | the same into a struct set to defaults, whether its storage was cleared before or not |
| PointerRoundTrip.RecordArrives | IChat/Pods/nanopb/pb_decode.c:550-675 | the encoding of a number, string, bytes, fixed length bytes or submessage in a record becomes the value of a pointer field, whatever it held, or a further entry of its array |
| PointerRoundTrip.MessageEncodes | IChat/Pods/nanopb/pb_encode.c:332-417 | a valid message with pointer fields always has an encoding |
| PointerRoundTrip.SameMessageEncodes | IChat/Pods/nanopb/pb_encode.c:332-417 | the encoding does not depend on addresses, NULL for empty array entries, or what is behind string terminators |
| PointerRoundTrip.PointerForm | IChat/Pods/nanopb/pb_encode.c:332-417 | NULL is an error for a required pointer field and nothing for an optional one; numbers in an array are packed; everything else is records with the field's key |
| PointerOmission.OmittedExactly | IChat/Pods/nanopb/pb_encode.c:332-417 | a member of a valid struct with pointers takes no bytes exactly when it is NULL, an empty array, has has_ false, or is a proto3 member with nothing to transmit |
| PointerOmission.DefaultExactly | IChat/Pods/nanopb/pb_encode.c:237-328 | the recursive check finds exactly the submessages without bytes, with arrays behind pointers in them, too |
| PointerPacked.PackedAgreesWithUnpacked | IChat/Pods/nanopb/pb_decode.c:594-675 | two ways of cutting the same items into packed and unpacked records leave the same entries behind the pointer, or both fail |
| PointerPacked.AnyMixture | IChat/Pods/nanopb/pb_decode.c:594-675 | any mixture is decoded as if its items came one at a time |
| PointerPacked.ReceiveFailsOnOverflow | IChat/Pods/nanopb/pb_decode.c:608-670 | items that decode fail as a whole exactly when they exceed the counter's limit; otherwise they are appended in order |
| PointerPacked.TypeNotChecked | IChat/Pods/nanopb/pb_decode.c:550-675 | the key type of a known field is not looked at here either |
| PointerContents.DecodedHolds | IChat/Pods/nanopb/pb_decode.c:1075-1087 | for every accepted input and at every depth a pointer is NULL without a record, else refers to the value of its last record, or to one entry for each record of an array; plain members hold their default or the value of their last record |
| PointerContents.AbsentIsDefault | IChat/Pods/nanopb/pb_decode.c:836-906 | a member whose tag is not among those read is NULL, or holds the table's default value or zero |
| PointerDecoder.DecodeNewBlock | IChat/Pods/nanopb/pb_decode.c:585-592 | a block of exactly the size of the value, with default values first, and then the value |
| PointerDecoder.DecodePackedItems | IChat/Pods/nanopb/pb_decode.c:594-652 | the items of a packed record are appended in order, up to the limit of the counter; the block grows by an estimate, and every entry lies inside the size last requested for it |
| PointerDecoder.EstimateMeaning | IChat/Pods/nanopb/pb_decode.c:612-626 | room is requested for as many further entries as the remaining bytes divided by the entry size, rounded up, or for one if that would reach the counter's limit |
| PointerDecoder.DecodeNextItem | IChat/Pods/nanopb/pb_decode.c:653-670 | for an unpacked item the block is requested with exactly one entry more than there were |
| PointerDecoder.DecSubmessage | IChat/Pods/nanopb/pb_decode.c:1503-1525 | an array entry that fails to decode releases what it allocated; other members keep it for the caller |
| PointerDecoder.MessageSetToDefaults | IChat/Pods/nanopb/pb_decode.c:836-919 | descends the finite static nesting, makes every pointer NULL and every other member its default (`PointerContents.AbsentIsDefault` says which) |
| Release.ReleaseMessage | IChat/Pods/nanopb/pb_decode.c:1245-1259 | frees every block the struct owns exactly once and no other, and leaves no pointer behind |
| Release.ReleaseSlot | IChat/Pods/nanopb/pb_decode.c:1154-1243 | the same for one field: entries, nested messages, then the block |
| Allocator.AllocateField | IChat/Pods/nanopb/pb_decode.c:487-530 | on success the allocator was asked for exactly `array_size * data_size` bytes for this block, and all other blocks keep their sizes; the product never wraps; a size between 1 and 2^64 - 1 fails only if memory is refused, and then pointer and heap are as before |

## Left out

- User callbacks, custom stream functions and callback fields: foreign code without a contract.
- Extension fields: the lookup, decoding and encoding of extensions is not modelled, so `pb_decode_noinit` goes from an unknown tag straight to skipping.
- Error message strings: only the success flag is kept.
- Raw memory: struct members are typed cells at abstract offsets; packing, endianness of the host, alignment and floats are not modelled, and fixed32 and fixed64 values are unsigned integers. A cell of a shape the field does not use is refused by encoder and decoder alike, where C would read whatever bits are there.
- Uninitialised storage is the value `Garbage`, or a member without a cell; the default check of scalars compares the value with zero where the source compares its bytes.
- Nested static submessages are decoded in a struct of their own which then replaces the member's content; aliasing between a struct and its nested structs is not captured.
- The redirection of `pSize` to a local counter for fixed count arrays is two local variables in the loop.
- Failing calls: where the source leaves partial results, the model says only what stays valid (stream bounds, bytes outside the written part, heap ownership), not the partial content.
- has_ members and bool values other than 0 and 1, which `safe_read_bool` guards against.
- `size_t` has 64 bits and byte counts of streams do not wrap around; the bounds for that are part of `Encoder.Readable`.
- PB_WITHOUT_64BIT: only `pb_encode_negative_varint` is modelled. PB_ENCODE_ARRAYS_UNPACKED, PB_BUFFER_ONLY and PB_NO_ERRMSG: not modelled.
- `read_raw_value` (used by callback fields only), `pb_decode_delimited_noinit`, `pb_decode_fixed32` and `pb_decode_fixed64` as entry points of their own.
- PointerEncode.EncMsg: the encoder for pointer fields is a specification on values; the methods on streams are for static fields, and `PointerFree.EncodeSame` connects the two. Repeated static submessages and oneofs are excluded as in decoding.
- PointerRoundTrip.WholeMessage: proto3 submessages in which the check for defaults looks at the address in an optional pointer field are excluded, because the model has no bytes of addresses; encodings of 2^32 bytes or more are not covered.
- PointerRoundTrip.MessageArrives: the same messages.
- PB_ENABLE_MALLOC together with oneofs, extensions, callbacks or static repeated submessages: the ownership results are for the other kinds of field. In the last case the source increments the count before the entry is initialised, so a failure may leave the release function with uninitialised pointers.
- PointerDecoder.Decode: the minimum block size for AVR is not modelled.
- RoundTrip.WholeMessage: encodings of 2^32 bytes or more are not covered, although only nested lengths are read as 32-bit numbers.
- Merging.ConcatenationMerges: descriptors with fixed count arrays are excluded, for the reason given in the next line.
- Merging.OrderIndependent: descriptors with fixed count arrays are excluded, because `pb_decode_noinit` tracks only one such array at a time.
- Descriptor.FieldOk: tables with a fixed count array smaller than `pb_size_t` are excluded, because the default write then changes bytes of other members, and the model has no bytes of members; `DefaultWrite` shows what happens.
- Validity.DecodedIsValid: default values must be valid for their fields (`DefaultsOk`).
- Validity.MergedIsValid: the same condition on default values.
- Validity.DecodedIsCanonical: the same condition on default values.
- PointerFree.DecodeSame: the types covered are those of `Ownership.TypesOk`, so oneofs and static repeated submessages are excluded.
- PointerFree.MergeSame: the same types.
- The Swift application, Realm, GTMSessionFetcher and InputBarAccessoryView: user interface and wrappers around code that is not part of this model.

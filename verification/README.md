# RINAsense: the codec, its containers and its tables, verified

This project models the parts of RINAsense on which everything else rests, and proves what they are for:

- **The Protocol Buffers codec** (nanopb): packed descriptor tables and their iterator, the encoder with its sizing and writing passes, the decoder with its nested windows. A value-level codec (`Wire`, `Schema`, `Codec`) says what bytes a message has and what bytes mean. The classes and methods (`FieldTable`, `FieldIter`, `Tables`, `Encoder`, `InStream`, `Decoder`) follow the C code step by step and are proved equal to it. The theorems about messages (`CodecLaws`, `Merge`, `RoundTrip`) and about single fields on any bytes (`WireLaws`, `FieldLaws`, `Defaults`) are about the value level and so hold of both.
- **The neighbor lists** built on it: `Neighbor`, `NeighborSerDes`, with `ArrayList` and `DataPacker`.
- **The bounded blocking queue** as a step system of any number of threads: `BoundedQueue`.
- **Netbuf chains**: values in `NetBufChain`, linked nodes in `NetBuf`.
- **Allocators and tables**: `ResourcePool`, `NumMgr`, `Names`, `ProtocolAddress`, `ArpCache`.

`Prelude`, `BitField` and `Words` hold bytes, bits and 32-bit words.

How to read the model:

- A C structure that is decoded into is a value (`Message`) passed in and returned. A static member is one slot with its has-flag or count; a callback member is the list of items its callback gathers.
- A count in a structure is 16 bits wide, low byte first.
- Callbacks are one of three: none, the string-list callback, the message-list callback. Those are the ones the CDAP and neighbor messages use.
- `size_t` is unbounded, except that a length prefix on the wire has to be below 2^32 to be read back and below 2^64 to be written. The theorems about decoding an encoding carry that as a condition.
- Bit operations are written as arithmetic, except that descriptor rows are packed into and read from real 32-bit words.
- A predicate such as `Typed` or `Linked` says that a structure is what its table says, or a list of nodes one chain. `Fits` says that every member is within its C type and capacity. `Clean` says that no string has a zero in it and no callback item would be written as nothing. `Idle` says that the callbacks of a destination have gathered nothing yet. `WellFormed` says of a table that its tags rise and are below 2^16, its sizes are in range, and its default values decode.

Where the code does not do what its interface suggests, the code was kept and the exact condition proved:

- A queue can lose places for good. A receiver posts its place before it frees its memory, and a sender that gets in between is refused memory and keeps the place. When exactly the pool refuses is `RefusedExactly`. A queue is dead exactly when all places are lost (`DeadIffAllLost`), and that can happen exactly when more threads use it than it has places, or when the heap can fail (`WhichQueuesDie`).
- A pool that keeps freed resources stops serving once it holds as many as its maximum, however many are free (`ExhaustedForGood`, `FreeMeansServed`, `FullAtStartServesNobody`). Its low-water mark forgets that nothing was free when it starts empty and grows by more than one (`LowWaterOfNewPool`).
- The id scan never returns when all ids are taken and 1 was the last given, and it says that none is free when only the last one given is (`ScanEnds`, `AnswerIsFirst`). With no ids at all it hands out numbers (`NoIdsHandedOut`).
- A null name in a neighbor list takes the name of the neighbor before; empty DIF names, addresses and blank neighbors do not come across (`ListRoundTrip`, `ListReturned`).
- Freeing a whole chain walks over freed memory unless the last node is live (`FreeAllSafe`), and appending gives one chain only when the right one is given by its head and all live (`NetBuf.Append`).
- What an add to the address cache answers is taken for a handle, but is -1, 0 or 1: removing by it takes the add back only from row 1, clears row 0 of a full table, and leaves the table after a failed copy (`HandleIsRowOne`). Adding an address twice may leave the old answer (`AddAnswers`). An address that starts with the filler shrinks to an invalid one (`ShrinkKeeps`), and trimming an address of fillers only leaves its buffer (`ScanStops`).
- The bounds test of the array list lets every index through on an empty list (`RefusedIff`).
- The 32-bit varint reader takes some numbers that it cannot hold (`Reader32Loses`, `Dec32Short`).
- A message with a zero inside a string, or with a callback item that writes nothing, does not come back as it was (`RoundTrip`).
- A name with two delimiters that was assigned, not created, prints with a third (`PrintParsed`).

## Model

| member | source | states |
|---|---|---|
| Wire.Varint64RoundTrip | components/CdapProto/pb_decode.c:240-260 | the 64-bit reader inverts the printer on every 64-bit number, whatever follows, within ten bytes |
| Wire.Varint32RoundTrip | components/CdapProto/pb_decode.c:170-232 | the 32-bit reader inverts the printer on every 32-bit number, within five bytes |
| Wire.SignExtendedRoundTrip | components/CdapProto/pb_decode.c:170-232 | a negative int32, which travels as ten bytes of sign extension, reads back in 32 bits |
| Wire.Readers32And64Agree | components/CdapProto/pb_decode.c:170-260 | on any bytes, what the 32-bit reader accepts the 64-bit reader accepts too, over the same bytes and with the same value modulo 2^32 |
| Wire.VarintMinimal | components/CdapProto/pb_encode.c:574-624 | no other base-128 spelling of a number is shorter than the printed one |
| Wire.SVarintRoundTrip | components/CdapProto/pb_decode.c:1348-1360 | zigzag varints read back on every 64-bit integer |
| Wire.ZigZagRoundTrip | components/CdapProto/pb_encode.c:626-635 | zigzag is undone by the reader for every signed number |
| Wire.UnZigZagRoundTrip | components/CdapProto/pb_decode.c:1348-1360 | and the other way round, so zigzag is a bijection |
| Wire.TagRoundTrip | components/CdapProto/pb_encode.c:675-679 | a tag with its wire type reads back |
| Wire.LenRoundTrip | components/CdapProto/pb_encode.c:716-722 | a length-prefixed string reads back and leaves what follows |
| Wire.LittleEndianRoundTrip | components/CdapProto/pb_encode.c:637-673 | fixed-width integers read back |
| Wire.SkipAppend | components/CdapProto/pb_decode.c:305-320 | skipping a field depends on that field only, not on what follows it |
| WireLaws.Dec64Exact | components/CdapProto/pb_decode.c:240-260 | the 64-bit reader takes exactly the varints of at most ten bytes, modulo 2^64 |
| WireLaws.Dec32Short | components/CdapProto/pb_decode.c:170-232 | up to five bytes, the 32-bit reader takes exactly the numbers below 2^32 |
| WireLaws.Dec32Padded | components/CdapProto/pb_decode.c:204-218 | and numbers below 2^32 padded with zero groups up to ten bytes |
| WireLaws.Reader32Loses | components/CdapProto/pb_decode.c:204-228 | but of a longer varint it never looks at three bits: it takes a number that it cannot hold |
| WireLaws.DecLenExact | components/CdapProto/pb_decode.c:365-378 | a length-delimited field is read exactly when its length and that many bytes are there |
| WireLaws.DecTagExact | components/CdapProto/pb_decode.c:288-303 | tag and wire type are the 32-bit key divided by eight |
| WireLaws.SkipExact | components/CdapProto/pb_decode.c:305-320 | skipping passes over exactly one whole body of the wire type, payload of strings included, and refuses wire types 3, 4, 6 and 7 |
| WireLaws.RawExact | components/CdapProto/pb_decode.c:325-363 | a callback is handed exactly the bytes of the scalar, if they are at most ten |
| WireLaws.LowestFirst | components/CdapProto/pb_encode.c:637-673 | of a fixed-width integer later bytes weigh more |
| WireLaws.ZigZagIs | components/CdapProto/pb_encode.c:626-635 | zigzag puts negative numbers on the odd ones and small numbers on small ones |
| CodecLaws.StepAppend | components/CdapProto/pb_decode.c:1015-1111 | reading one field depends on its own bytes only |
| CodecLaws.RunAppend | components/CdapProto/pb_decode.c:989-1111 | a run over two windows joined is the run over the first and then over the second |
| CodecLaws.UnknownFieldIgnored | components/CdapProto/pb_decode.c:1042-1076 | a field of a tag that the table does not know, with any whole body of any wire type, inserted at any field boundary, leaves the result of the whole decode unchanged |
| FieldLaws.SkipValue | components/CdapProto/pb_decode.c:305-320 | what the encoder writes for any value of any kind is skipped as a whole, whatever follows |
| FieldLaws.SkipPacked | components/CdapProto/pb_decode.c:305-320 | and so is a packed array |
| FieldLaws.ItemOnWire | components/CdapProto/pb_encode.c:363-406 | an item is written as its tag, the wire type of its kind, and one whole body |
| FieldLaws.UnknownItemIgnored | components/CdapProto/pb_decode.c:1042-1076 | an item that some other table wrote, under a number that this one does not have, is ignored |
| FieldLaws.NegativeTakesTen | components/CdapProto/pb_encode.c:783-829 | a signed member takes ten bytes exactly when it is negative, whatever its width |
| FieldLaws.SlotOnWire | components/CdapProto/pb_encode.c:129-143 | absent members and empty arrays write nothing, and an array beyond its capacity is refused |
| FieldLaws.PackedOnWire | components/CdapProto/pb_encode.c:145-197 | an array of packable items is one length-delimited field |
| FieldLaws.EncodesIff | components/CdapProto/pb_encode.c:513-535 | a message can be encoded exactly when each of its members can |
| FieldLaws.ValueEncodesIff | components/CdapProto/pb_encode.c:856-928 | bytes are refused exactly beyond their capacity, a string exactly when it has no terminator in its array |
| FieldLaws.UIntMeans | components/CdapProto/pb_decode.c:1419-1489 | an unsigned member takes exactly the numbers that it can hold |
| FieldLaws.IntMeans | components/CdapProto/pb_decode.c:1419-1489 | a signed one takes the number modulo 2^64, or 2^32 below eight bytes, exactly if it can hold the result |
| FieldLaws.SIntMeans | components/CdapProto/pb_decode.c:1419-1489 | a zigzag one takes the number zigzag stands for, exactly if it can hold that |
| FieldLaws.BoolMeans | components/CdapProto/pb_decode.c:1338-1346 | any number but zero is true |
| FieldLaws.WrongWireType | components/CdapProto/pb_decode.c:400-469 | a static member refuses every wire type but its own, packed arrays apart |
| FieldLaws.CallbackTakes | components/CdapProto/pb_decode.c:754-795 | a callback member takes a whole body of any wire type and hands its payload on |
| FieldLaws.CallbackRefuses | components/CdapProto/pb_decode.c:754-795 | and nothing else |
| FieldLaws.BadTagFails | components/CdapProto/pb_decode.c:1021-1039 | a field with number zero or a broken tag fails the message |
| Defaults.InitialIsZero | components/CdapProto/pb_decode.c:868-987 | a table without default values initialises every flag, count, number and byte to zero |
| Defaults.CallbacksKept | components/CdapProto/pb_decode.c:868-948 | initialisation leaves callback members alone |
| Defaults.FirstByteCleared | components/CdapProto/pb_decode.c:978-979 | after default items an array keeps as many as clearing the first byte of its count leaves, so fewer than 256 are dropped |
| Defaults.DefaultsTaken | components/CdapProto/pb_decode.c:950-987 | a table that carries an encoded message as its default values initialises each member to its value there, not marked as present, and clears the others |
| CodecLaws.DecodedFits | components/CdapProto/pb_decode.c:471-523 | whatever the input bytes, a successful decode into a structure within its capacities leaves each member within its C type and each string, byte array and count within its capacity |
| RoundTrip.DecodedFitsAfresh | components/CdapProto/pb_decode.c:1153-1179 | with initialisation, the same over any old contents |
| CodecLaws.DefaultsFit | components/CdapProto/pb_decode.c:950-983 | initialising keeps all members within their capacities |
| Merge.ScalarRoundTrip | components/CdapProto/pb_decode.c:1414-1489 | every value of every scalar type and width reads back, negative and sign-extended ones included |
| Merge.PackedRoundTrip | components/CdapProto/pb_decode.c:484-512 | a packed array is appended to what the array holds, and overflows exactly when both counts together exceed the capacity |
| Merge.DecodeValue | components/CdapProto/pb_decode.c:400-469 | one encoded item of any kind, submessages included, decodes to the old item merged with it, or fails exactly when a nested array lacks room or a nested message is incomplete |
| Merge.DecodeItem | components/CdapProto/pb_decode.c:471-558 | one item at the end of a repeated member: appended, or an overflow exactly when the array is full |
| Merge.RunOnSlot | components/CdapProto/pb_decode.c:797-823 | all that the encoder writes for one member has the effect of merging that member |
| Merge.RunOnFields | components/CdapProto/pb_decode.c:1015-1111 | the field loop over the encoding of any message merges it field by field, and fails exactly when some member has no room |
| Merge.BitmapCheck | components/CdapProto/pb_decode.c:1103-1148 | after two messages have been read the required-field bitmap is complete exactly when each tracked required member was written by one of them |
| Merge.DecodeMessage | components/CdapProto/pb_decode.c:989-1151 | decoding an encoded message into any structure gives the merge of the two, and fails exactly when some array overflows or a required callback member had nothing to write |
| RoundTrip.FitsEncodes | components/CdapProto/pb_encode.c:513-535 | every message within its field sizes can be encoded |
| RoundTrip.InitForgets | components/CdapProto/pb_decode.c:868-987 | initialisation does not depend on what the structure held before |
| RoundTrip.PlainInit | components/CdapProto/pb_decode.c:950-987 | a table without default values always initialises, to an empty structure |
| RoundTrip.MergedIntoEmpty | components/CdapProto/pb_decode.c:471-562 | merging a message into an empty structure restores it, member by member, if and only if no string has a zero in it and no callback item writes nothing |
| RoundTrip.RoundTrip | components/CdapProto/pb_decode.c:1153-1179 | any message within its field sizes encodes; decoding the bytes over any old contents succeeds if and only if no required callback member was left empty, the bitmap check included; it gives back all flags, counts and values, absent members at their defaults, if and only if no string has a zero in it and no callback item writes nothing |
| RoundTrip.ConcatenationMerges | components/CdapProto/pb_decode.c:471-523 | two encodings in a row decode to the merge of the second into the first (last one wins, submessages merged recursively, arrays concatenated), and fail exactly when some array cannot hold both, a message below either is incomplete, or a required member is in neither |
| FieldTable.PackRoundTrip | components/CdapProto/include/pb.h:750-788 | a field packed by any of the four macros under its size asserts is read back exactly, from the 32-bit words themselves |
| FieldTable.RowAt | components/CdapProto/include/pb.h:750-766 | in a table of mixed widths each row is found at the sum of the widths before it |
| FieldTable.ReadRow | components/CdapProto/pb_common.c:8-72 | what the loader reads at that word index is that row, and the step to the next one stays inside the table |
| FieldIter.FieldIter.LoadDescriptorValues | components/CdapProto/pb_common.c:8-72 | loads the descriptor values of the row under the iterator and its submessage type; false at the end |
| FieldIter.FieldIter.AdvanceIterator | components/CdapProto/pb_common.c:122-154 | one row on or back to the first, with the word, required and submessage indices at their prefix sums |
| FieldIter.FieldIter.Begin | components/CdapProto/pb_common.c:156-164 | starts at row 0 in a coherent position; false for an empty table |
| FieldIter.FieldIter.Next | components/CdapProto/pb_common.c:188-193 | visits each row once and says so when it wraps |
| FieldIter.FieldIter.Find | components/CdapProto/pb_common.c:195-244 | over any table of rising tags, despite the fast check on six tag bits and the shortcut on the largest tag: succeeds if and only if the iterator stands on the tag or the tag is in the table on a row that is no extension placeholder, on that row, and otherwise is back where it started |
| FieldIter.FieldIter.FindExtension | components/CdapProto/pb_common.c:246-275 | finds an extension placeholder if and only if there is one, else is back where it started |
| FieldIter.BeyondLargest | components/CdapProto/pb_common.c:201-206 | a tag above the largest is not in the table |
| Tables.SearchAgrees | components/CdapProto/pb_common.c:195-244 | a search in the packed table agrees with a linear search through the fields of the message type |
| Tables.RequiredAgree | components/CdapProto/pb_common.c:122-154 | the required index that the iterator keeps is the number of required fields before |
| Tables.SubDescAt | components/CdapProto/pb_common.c:112-118 | the submessage index that the iterator keeps leads to the type of that very field |
| Tables.DescriptorFits | components/CdapProto/include/pb.h:510-530 | the counts in a generated descriptor are those of its message type |
| Tables.StartWalk | components/CdapProto/pb_common.c:156-164 | an iterator over a generated table starts at the first field |
| Tables.WalkOn | components/CdapProto/pb_common.c:188-193 | and moves on to the next field, or reports the end |
| Encoder.OStream.FromBuffer | components/CdapProto/pb_encode.c:64-83 | a stream over a buffer of the given size |
| Encoder.OStream.BufWrite | components/CdapProto/pb_encode.c:52-62 | the bytes go to the stream position, which moves on |
| Encoder.OStream.Write | components/CdapProto/pb_encode.c:85-106 | all bytes or, when there is no room, none; a sizing stream only counts |
| Encoder.VarintGroups | components/CdapProto/pb_encode.c:574-606 | two 32-bit halves, seven bits at a time, give the base-128 form of the 64-bit number in at most ten bytes |
| Encoder.EncodeVarint32 | components/CdapProto/pb_encode.c:574-606 | sends exactly that form |
| Encoder.EncodeVarint | components/CdapProto/pb_encode.c:608-624 | sends the base-128 form of any 64-bit number |
| Encoder.EncodeSVarint | components/CdapProto/pb_encode.c:626-635 | sends the zigzag form, by complement as the C code does it |
| Encoder.EncodeFixed32 | components/CdapProto/pb_encode.c:637-652 | sends four bytes, low byte first |
| Encoder.EncodeFixed64 | components/CdapProto/pb_encode.c:654-673 | sends eight bytes, low byte first |
| Encoder.EncodeTagForField | components/CdapProto/pb_encode.c:681-714 | sends tag and wire type of the field |
| Encoder.EncodeString | components/CdapProto/pb_encode.c:716-722 | sends length and bytes |
| Encoder.EncVarint | components/CdapProto/pb_encode.c:783-829 | sends a member of 1, 2, 4 or 8 bytes sign- or zero-extended |
| Encoder.EncString | components/CdapProto/pb_encode.c:877-928 | sends the characters before the terminator; fails exactly when there is no terminator in the array |
| Encoder.EncBytes | components/CdapProto/pb_encode.c:856-875 | sends a byte array; fails exactly when its count exceeds the array |
| Encoder.EncodeSubmessage | components/CdapProto/pb_encode.c:724-772 | sizing pass, length, writing pass on a substream of that size: the passes agree at every depth, so the branch for a changed size is never taken |
| Encoder.EncodeOnSubstream | components/CdapProto/pb_encode.c:749-771 | the writing pass fills the substream exactly, and the outer stream goes on behind it |
| Encoder.PackedSize | components/CdapProto/pb_encode.c:152-173 | the counting loop gives the size of the packed payload |
| Encoder.WritePacked | components/CdapProto/pb_encode.c:181-196 | the writing loop sends as many bytes as were counted |
| Encoder.EncodePackedArray | components/CdapProto/pb_encode.c:147-197 | tag, counted length and payload of a packed array |
| Encoder.EncodeItems | components/CdapProto/pb_encode.c:200-238 | each item with its own tag, stopping at the first that cannot be sent |
| Encoder.EncodeArray | components/CdapProto/pb_encode.c:129-241 | a whole array, packed where the type allows; fails exactly when the count exceeds the array or an item cannot be sent |
| Encoder.EncodeField | components/CdapProto/pb_encode.c:419-470 | one member: nothing when absent, else its encoding |
| Encoder.Encode | components/CdapProto/pb_encode.c:513-535 | sends exactly the encoding of the message that the value-level theorems speak of, or fails exactly when there is none or no room for it |
| Encoder.GetEncodedSize | components/CdapProto/pb_encode.c:558-567 | succeeds exactly when the message can be encoded, and the count is the number of bytes of its encoding |
| Encoder.EncodeToBuffer | components/CdapProto/pb_encode.c:513-535 | encoding into n bytes succeeds if and only if n is at least that count; nothing behind the n bytes is touched |
| InStream.IStream.FromBuffer | components/CdapProto/pb_decode.c:141-164 | a window over the given bytes |
| InStream.IStream.ReadByte | components/CdapProto/pb_decode.c:123-139 | the next byte of the window, or no change at its end |
| InStream.IStream.Read | components/CdapProto/pb_decode.c:84-119 | exactly the next bytes of the window or failure; position plus bytes left stays the window end |
| InStream.DecodeVarint32Eof | components/CdapProto/pb_decode.c:170-232 | the byte loop computes the 32-bit reader on any window: zero groups and sign extension pass, wider values fail, and end of input is told apart |
| InStream.DecodeVarint | components/CdapProto/pb_decode.c:240-260 | the byte loop computes the 64-bit reader on any window; bits above the 64th fall off |
| InStream.DecodeSVarint | components/CdapProto/pb_decode.c:1348-1360 | undoes zigzag on whatever 64-bit varint is there |
| InStream.DecodeTag | components/CdapProto/pb_decode.c:288-303 | tag and wire type, or end of input |
| InStream.SkipVarint | components/CdapProto/pb_decode.c:263-272 | passes over one varint, never beyond the window |
| InStream.SkipString | components/CdapProto/pb_decode.c:274-286 | passes over a length-delimited field, never beyond the window |
| InStream.SkipField | components/CdapProto/pb_decode.c:305-320 | passes over one field of any wire type; unknown wire types fail |
| InStream.ReadRawValue | components/CdapProto/pb_decode.c:325-363 | the raw bytes of one scalar for a callback; fails for varints of more than ten bytes |
| InStream.MakeStringSubstream | components/CdapProto/pb_decode.c:365-378 | the substream is the length-delimited window, and the rest of the parent is what follows it |
| InStream.CloseStringSubstream | components/CdapProto/pb_decode.c:380-394 | the parent goes on exactly at the end of the substream, whatever was left unread in it |
| Decoder.DecodeFixed32 | components/CdapProto/pb_decode.c:1362-1384 | four bytes, low byte first |
| Decoder.DecodeFixed64 | components/CdapProto/pb_decode.c:1386-1412 | eight bytes, low byte first |
| Decoder.DecodeBool | components/CdapProto/pb_decode.c:1338-1346 | any non-zero varint is true |
| Decoder.DecVarint | components/CdapProto/pb_decode.c:1419-1489 | a varint into a member of its width; fails exactly when the value does not fit |
| Decoder.DecBytes | components/CdapProto/pb_decode.c:1491-1529 | a byte array; fails exactly when it is longer than the member |
| Decoder.DecString | components/CdapProto/pb_decode.c:1531-1579 | a string; fails exactly when it leaves no room for the terminator |
| Decoder.DecFixedLengthBytes | components/CdapProto/pb_decode.c:1633-1655 | an array of fixed length; empty input clears it, any other length fails |
| Decoder.DecodePackedArray | components/CdapProto/pb_decode.c:484-512 | items while there are bytes and room; fails exactly when bytes are left over or an item is bad |
| Decoder.DecSubmessage | components/CdapProto/pb_decode.c:1581-1631 | a submessage is decoded inside its window, and the window is consumed |
| Decoder.DecodeStaticField | components/CdapProto/pb_decode.c:471-562 | one field of a static member, as the value-level reader says, for every wire type |
| Decoder.FieldCallback | components/SerDes/SerDesNeighbor.c:177-202 | the string-list and neighbor-list callbacks append what the substream holds; a second call on an empty substream changes nothing |
| Decoder.DecodeCallbackField | components/CdapProto/pb_decode.c:754-795 | the callback is called until its substream is used up |
| Decoder.MarkSeen | components/CdapProto/pb_decode.c:1103-1107 | setting one bit of the bitmap adds exactly that index to the set it stands for |
| Decoder.CheckSeen | components/CdapProto/pb_decode.c:1120-1148 | whole words against all ones and the rest against a mask: passes if and only if every tracked required index was seen |
| Decoder.WordFull | components/CdapProto/pb_decode.c:1131-1145 | a word equals the mask of its low bits exactly when all those indices were seen |
| Decoder.FieldSetToDefault | components/CdapProto/pb_decode.c:868-948 | clears flags and counts, and values as the C code clears them |
| Decoder.MessageSetToDefaults | components/CdapProto/pb_decode.c:950-987 | walks table and encoded defaults together; after a default value it clears the has-flag, or the first byte of a count |
| Decoder.DefaultAll | components/CdapProto/pb_decode.c:950-987 | field after field, taking from the encoded defaults those that are there, in tag order |
| Decoder.FindField | components/CdapProto/pb_decode.c:1042-1056 | the iterator stands on the field of the tag, if there is one |
| Decoder.DecodeOne | components/CdapProto/pb_decode.c:1015-1111 | one turn of the field loop is one step of the value-level reader |
| Decoder.DecodeFields | components/CdapProto/pb_decode.c:1015-1111 | the field loop, on any bytes, ends with the window consumed and computes the value-level run |
| Decoder.DecodeBody | components/CdapProto/pb_decode.c:1003-1150 | the loop and the check for missing required fields |
| Decoder.DecodeInner | components/CdapProto/pb_decode.c:989-1151 | on any bytes, the decoder answers what the value-level decode answers, terminates, stays in its window, and on success has consumed all of it |
| Neighbor.NeighborEncodes | components/SerDes/SerDesNeighbor.c:204-219 | one neighbor can be encoded exactly when its four names are shorter than their arrays |
| Neighbor.ListEncodes | components/SerDes/SerDesNeighbor.c:450-484 | a list can be encoded exactly when all names in it are shorter than their arrays |
| Neighbor.ListRoundTrip | components/SerDes/SerDesNeighbor.c:386-484 | for every list: encodes exactly when all names, the inherited ones too, are short enough; decoding then gives the neighbors with inherited names, without addresses, without empty DIF names, and without neighbors that wrote nothing |
| Neighbor.ListReturned | components/SerDes/SerDesNeighbor.c:273-297 | a list comes back as it was, addresses aside, if and only if no neighbor has a null name where the one before has a name, no DIF name is empty and no neighbor is blank |
| Neighbor.NullNameIsInherited | components/SerDes/SerDesNeighbor.c:204-219 | a null name after a neighbor with a name comes back as that name |
| Neighbor.ListOfMessages | components/SerDes/SerDesNeighbor.c:106-151 | a list that any encoder wrote, addresses included, gives records with exactly the names, addresses and DIF names of its messages, in order |
| Neighbor.RecordsAsDecoded | components/SerDes/SerDesNeighbor.c:106-151 | on any bytes, a record has a name or an address exactly when its message has one |
| NeighborSerDes.EncodePrepare | components/SerDes/SerDesNeighbor.c:204-219 | only names that are not null are written into the reused structure |
| NeighborSerDes.BuildList | components/SerDes/SerDesNeighbor.c:273-297 | over a list the structure carries names over from one neighbor to the next |
| NeighborSerDes.NeighborListEncode | components/SerDes/SerDesNeighbor.c:450-484 | succeeds exactly when all names fit and the bytes fit the buffer, which then holds the encoding |
| NeighborSerDes.GetNeighborAllocSize | components/SerDes/SerDesNeighbor.c:86-104 | the counting pass counts every string with its terminator and a pointer for each DIF |
| NeighborSerDes.ToNeighborMessage | components/SerDes/SerDesNeighbor.c:106-151 | the packing pass fills the block of the counted size to its last byte, touches nothing before the strings, and every pointer reads back its own string |
| NeighborSerDes.PackNeighbor | components/SerDes/SerDesNeighbor.c:221-271 | count, allocate, pack: the record reads as the neighbor |
| NeighborSerDes.NeighborListDecode | components/SerDes/SerDesNeighbor.c:386-448 | succeeds exactly when the value-level decode does, with one well-packed record for each neighbor in order |
| ArrayList.ArrayList.Add | components/Common/arraylist.c:33-68 | appends, doubling the array when it is full |
| ArrayList.RefusedIff | components/Common/include/common/arraylist.h:44-50 | the bounds test answers NULL exactly for indices behind the last item of a list that has one; on an empty list it lets every index through |
| ArrayList.ArrayList.Get | components/Common/include/common/arraylist.h:44-50 | NULL as that test says, the item at an index in range, and otherwise a pointer behind the items |
| DataPacker.Packer.Write | components/Common/datapacker.c:15-28 | copies the bytes to the moving position and nothing else |
| DataPacker.Packer.WriteStr | components/Common/include/common/datapacker.h:37-42 | copies a string and its terminator |
| DataPacker.NoOverlap | components/Common/include/common/datapacker.h:37-42 | packed strings follow one another without overlap, and the last ends where the area ends |
| DataPacker.ReadsBack | components/Common/include/common/datapacker.h:37-42 | a string read from its start is the one packed there |
| BoundedQueue.StepInv | components/Common/queue.c:64-157 | every step of every thread keeps: places + senders holding one + list + receivers that have not posted + lost places = max; items + announced-to-be + granted = list; pool usage; order |
| BoundedQueue.RunInv | components/Common/queue.c:64-157 | the same over every interleaving of any number of threads |
| BoundedQueue.Safety | components/Common/queue.c:64-157 | in every reachable state the list is within the maximum, a receiver that was granted an item finds one (the underflow branch is unreachable), and items are removed in the order of insertion |
| BoundedQueue.ItemsUnchanged | components/Common/queue.c:64-157 | over every run: the items inserted are, in order, those that the inserting threads came with, and the item of the k-th removal is the k-th inserted, unchanged |
| BoundedQueue.RefusedExactly | components/Common/queue.c:90-92 | in every reachable state the pool refuses if and only if as many receivers have posted their place and not yet freed their memory as there are places free, held by senders, or lost |
| BoundedQueue.RefusedOnlyBetween | components/Common/queue.c:90-92 | so a sender with a place is refused by the pool only while there is such a receiver |
| BoundedQueue.LostForGood | components/Common/queue.c:149-154 | each such refusal costs a place for ever: the list and the free places can never again reach the maximum |
| BoundedQueue.DeadIffAllLost | components/Common/queue.c:64-157 | nothing can ever be sent again if and only if all places are lost |
| BoundedQueue.FewerLostThanThreads | components/Common/queue.c:64-157 | while the heap gives, fewer places are lost than there are threads, over every run |
| BoundedQueue.WhichQueuesDie | components/Common/queue.c:90-154 | while the heap gives, a queue can lose all its places if and only if more threads use it than it has places; with a heap that can fail, if and only if any thread uses it |
| BoundedQueue.QueueCanDie | components/Common/queue.c:149-154 | with more threads than places the queue reaches that state, all threads idle, for every size and every number of threads |
| BoundedQueue.RsQueue.SendToBack | components/Common/queue.c:64-108 | the send, uninterrupted: on success the list is the old one with the very item at its end; it is a run of the step system, and its status says which branch was taken |
| BoundedQueue.RsQueue.Receive | components/Common/queue.c:110-157 | the receive, uninterrupted: it returns the oldest item and leaves the others; it is a run of the step system |
| NetBufChain.SplitWorks | components/Common/netbuf.c:82-127 | splitting succeeds exactly when some node is live and the size is within the total; the bytes stay the same and a node boundary lies at that size |
| NetBufChain.SplitCuts | components/Common/netbuf.c:82-127 | a split that changes the chain cuts one live node in two: the front keeps its type, the back has the type asked for, sizes add up, and all other nodes are as before |
| NetBufChain.FlatAt | components/Common/netbuf.c:201-210 | where the bytes of each live node stand in what the chain denotes |
| NetBufChain.SplitKeeps | components/Common/netbuf.c:82-127 | splitting keeps the invariant and adds no block |
| NetBufChain.SubConcat | components/Common/netbuf.c:227-290 | reading over a node boundary: the rest of the first, then what room is left from the second |
| NetBufChain.SubAt | components/Common/netbuf.c:227-290 | the bytes read are those of the positions asked for |
| NetBufChain.AppendKeeps | components/Common/netbuf.c:292-315 | appending a chain over other blocks concatenates the bytes and unites the blocks |
| NetBufChain.FreeKeepsInv | components/Common/netbuf.c:140-185 | a freed node keeps its pointer to a block only when it is the last one on it; freeing twice is harmless |
| NetBufChain.FreeKeepsBlocks | components/Common/netbuf.c:140-185 | freeing a node loses no block |
| NetBufChain.FreeChanges | components/Common/netbuf.c:140-185 | freeing changes that node alone, and its pointer goes exactly when another node has the same block |
| NetBufChain.FreeBytes | components/Common/netbuf.c:140-185 | and of the bytes those of that node go |
| NetBufChain.ReleasedOnce | components/Common/netbuf.c:140-185 | a chain of freed nodes releases each block with a free method exactly once |
| NetBufChain.EachBlockOnce | components/Common/netbuf.c:82-185 | over any run of splits, appends and frees, repeats included: nothing is released while some node is live, and the step that frees the last one releases each block ever brought in exactly once |
| NetBufChain.FreeAllSafe | components/Common/netbuf.c:129-138 | walking and freeing node by node stays on living nodes if and only if the last node was live |
| NetBufChain.FreeAllReleases | components/Common/netbuf.c:129-138 | freeing all at once releases each block exactly once |
| NetBuf.TotalSize | components/Common/netbuf.c:201-210 | the number of bytes that the chain denotes |
| NetBuf.Read | components/Common/netbuf.c:227-290 | exactly the bytes from the offset on, as many as there are and as fit |
| NetBuf.LastOf | components/Common/netbuf.c:292-315 | the end of the chain |
| NetBuf.SetFirst | components/Common/netbuf.c:292-315 | the live nodes from the given one on are told the new first node; nothing else changes |
| NetBuf.Append | components/Common/netbuf.c:292-315 | the nodes of the right chain follow those of the left; all of them are one chain if and only if the argument is the head of the right chain and all of that is live |
| NetBuf.Split | components/Common/netbuf.c:82-127 | the linked chain afterwards is the one the value-level split gives; on failure nothing has changed |
| NetBuf.Survey | components/Common/netbuf.c:159-164 | counts the nodes on the same block and sees whether all are freed |
| NetBuf.ReleaseAll | components/Common/netbuf.c:171-184 | visits every node and releases the blocks that are left |
| NetBuf.Free | components/Common/netbuf.c:140-185 | the linked chain afterwards is the one the value-level free gives, or it is gone and the blocks released are those of the value level |
| NetBuf.FreeAll | components/Common/netbuf.c:129-138 | with the last node live the walk survives its own frees and releases what the value level says |
| ResourcePool.InitInv | components/Common/rsrc.c:169-193 | a new pool meets the invariant, keeps what it is told, and returns resources to the heap exactly if they have no size or come one at a time |
| ResourcePool.AllocInv | components/Common/rsrc.c:213-270 | a request is met exactly when its size is right, the quota has room, and a resource is free or the heap gives more; it is counted, hands out a resource that was not in use and keeps the invariant |
| ResourcePool.AllocOrder | components/Common/rsrc.c:236-252 | the resource handed out is the one freed last, or else the last of those that the heap gave |
| ResourcePool.RemoveOrder | components/Common/rsrc.c:346-347 | the others in use keep their order |
| ResourcePool.FreeInv | components/Common/rsrc.c:321-359 | freeing takes exactly that resource out of use; freeing it again is caught if the pool keeps it |
| ResourcePool.RunInv | components/Common/rsrc.c:213-399 | over all runs: counters equal list lengths, lists are disjoint, use is within the maximum, and the total within max(initial, maximum - 1 + increment) |
| ResourcePool.HiWaterIsThePeak | components/Common/rsrc.c:251-254 | the high-water mark is the most ever in use, over any run |
| ResourcePool.LowWaterIsTheLow | components/Common/rsrc.c:246-249 | the low-water mark is the fewest ever free, over any run of a pool that keeps its resources and has some, or that grows by one |
| ResourcePool.LowWaterOfNewPool | components/Common/rsrc.c:169-399 | over every run of a new pool the low-water mark is the fewest ever free if and only if it has resources to begin with or grows by one |
| ResourcePool.ExhaustedForGood | components/Common/rsrc.c:228-235 | a pool that keeps its resources and has reached its quota turns every later request down, over every run, however many resources are free |
| ResourcePool.FreeMeansServed | components/Common/rsrc.c:228-235 | with a resource free, a well-sized request is met if and only if the quota has room |
| ResourcePool.FullAtStartServesNobody | components/Common/rsrc.c:169-235 | a pool set up with its whole quota never hands out anything |
| ResourcePool.OnlyUseCounts | components/Common/queue.c:31-31 | a pool set up as the queue sets it up refuses exactly when as many resources are in use as its maximum, which is the refusal of the queue model |
| ResourcePool.RsrcPool.constructor | components/Common/rsrc.c:169-188 | the fields of a new pool |
| ResourcePool.InitPool | components/Common/rsrc.c:169-193 | a new pool with its first resources, or a negative answer when the heap did not give them |
| ResourcePool.RsrcPool.FreeTail | components/Common/rsrc.c:300-310 | the resource becomes the first free one |
| ResourcePool.RsrcPool.Add2Pool | components/Common/rsrc.c:371-399 | the loop puts every new resource on the free list, the last one first |
| ResourcePool.RsrcPool.VarAlloc | components/Common/rsrc.c:213-270 | the pool afterwards and the answer are those of the value level |
| ResourcePool.RsrcPool.Free | components/Common/rsrc.c:321-359 | the pool afterwards is that of the value level; a double free is reported |
| NumMgr.ScanEnds | components/Common/num_mgr.c:58-85 | the scan comes to an end if and only if not all ids are taken with 1 the last one given |
| NumMgr.AnswerIsFirst | components/Common/num_mgr.c:66-82 | it answers the first free id in cyclic order after the last one, and answers none exactly when every id other than the last one is taken and the last one is not 1 |
| NumMgr.Fair | components/Common/num_mgr.c:66-82 | however ids are released in between, an id is not given again while another one stays free and is passed over |
| NumMgr.NoIdsHandedOut | components/Common/num_mgr.c:74-79 | a manager of no ids hands out 1, 2, 3 and so on |
| NumMgr.SetAt | components/Common/include/common/bit_array.h:43-48 | setting a bit adds exactly that number to the set the words stand for |
| NumMgr.ClearAt | components/Common/include/common/bit_array.h:50-55 | clearing a bit removes exactly that number |
| NumMgr.BitArray.constructor | components/Common/include/common/bit_array.h:25-36 | the words for so many bits, all clear |
| NumMgr.BitArray.SetBit | components/Common/include/common/bit_array.h:43-48 | adds the number, if it is below the number of bits |
| NumMgr.BitArray.ClearBit | components/Common/include/common/bit_array.h:50-55 | removes the number |
| NumMgr.BitArray.GetBit | components/Common/include/common/bit_array.h:57-64 | tells membership; false beyond the end |
| NumMgr.IdManager.constructor | components/Common/num_mgr.c:31-41 | no id in use |
| NumMgr.IdManager.Allocate | components/Common/num_mgr.c:58-85 | follows the scan, terminates when it does, and changes only the one bit and the last id; without any ids it hands out the next number |
| NumMgr.IdManager.Release | components/Common/num_mgr.c:87-97 | frees the id; false if it was not taken |
| NumMgr.IdManager.IsAllocated | components/Common/num_mgr.c:99-104 | tells whether the id is taken |
| BitField.BitSet | components/Common/include/common/bit_array.h:43-55 | setting or clearing one bit of a word changes that bit only |
| Names.ParsesIffTwo | components/Common/rina_name.c:30-61 | a text is a name exactly when it has two delimiters or more |
| Names.PrintParsed | components/Common/rina_name.c:265-285 | printing part by part what was parsed gives the text back, with a delimiter added exactly when the text has two |
| Names.ParsePrinted | components/Common/rina_name.c:30-61 | parsing printed parts gives them back if and only if the first three hold no delimiter |
| Names.BrokenHolds | components/Common/rina_name.c:30-61 | in the text broken down in place each pointer reads its own part |
| Names.Mended | components/Common/rina_name.c:289-299 | putting delimiters back over the gaps gives the text again |
| Names.Scan | components/Common/rina_name.c:36-48 | stops at the next delimiter or at the end |
| Names.Name.Breakdown | components/Common/rina_name.c:30-61 | succeeds exactly when the text is a name, with the delimiters overwritten and the four pointers set |
| Names.NameNewFromString | components/Common/rina_name.c:65-94 | a name exactly when the text is one, with its parts |
| Names.Name.AssignFromString | components/Common/rina_name.c:180-205 | the same into an existing structure, when it succeeds |
| Names.Name.CopyAssignParts | components/Common/rina_name.c:11-28 | the parts copied one behind the other read back |
| Names.Name.AssignFromPartsDup | components/Common/rina_name.c:151-178 | a missing part is read as empty |
| Names.Name.ToStringBuf | components/Common/rina_name.c:227-263 | prints the four parts with delimiters into a buffer that is long enough, and touches nothing behind |
| Names.Name.ToString | components/Common/rina_name.c:265-302 | gives back any parsed text exactly; without text behind the structure, the printed parts |
| ProtocolAddress.SameIsEquivalence | components/Common/rina_gpha.c:265-278 | comparing is reflexive on valid addresses, symmetric and transitive |
| ProtocolAddress.SameExactly | components/Common/rina_gpha.c:257-278 | two addresses compare equal exactly when they agree up to the first zero, or the end, of each |
| ProtocolAddress.SameMeansEqualFronts | components/Common/rina_gpha.c:257-278 | addresses without zeros are the same exactly when they are equal, however far each is padded |
| ProtocolAddress.GrowKeeps | components/Common/rina_gpha.c:126-151 | a grown address is still the same one if and only if zeros fill it, or nothing is added, or it had a zero already |
| ProtocolAddress.ShrinkKeeps | components/Common/rina_gpha.c:96-124 | a shrunk address is still the same one if and only if the filler is neither in its key nor its first byte |
| ProtocolAddress.TrimKeeps | components/Common/rina_gpha.c:166-171 | trimming trailing zeros never changes which address it is, unless all bytes are zero |
| ProtocolAddress.Gpa.Shrink | components/Common/rina_gpha.c:96-124 | leaves the front up to the first filler; an invalid address is refused |
| ProtocolAddress.Gpa.Grow | components/Common/rina_gpha.c:126-151 | has the new length, the old bytes in front and fillers behind; refuses a shorter length |
| ProtocolAddress.ScanStops | components/Common/rina_gpha.c:166-171 | the scan for trailing fillers stops inside the buffer if and only if some byte is not the filler, and then the address is trimmed |
| ProtocolAddress.Gpa.Dup | components/Common/rina_gpha.c:153-181 | a separate copy, on request without the fillers at the end and no other byte less; says when the scan left the buffer |
| ProtocolAddress.Gpa.ActualLength | components/Common/rina_gpha.c:257-263 | the position of the first zero, or the length |
| ProtocolAddress.Cmp | components/Common/rina_gpha.c:265-278 | true exactly for two valid addresses with the same key |
| ArpCache.AddAnswers | components/ShimIPCP/cache.c:117-150 | after an add with room, every padded form of the address finds the new hardware address exactly when no earlier row has the address; all other addresses find what they did |
| ArpCache.AddedRow | components/ShimIPCP/cache.c:134-146 | an add fills the first row that is not in use, with the address less its trailing zeros, and changes no other |
| ArpCache.NotAdded | components/ShimIPCP/cache.c:117-150 | without such a row, or without a valid address of either kind, it changes nothing |
| ArpCache.RemoveAnswers | components/ShimIPCP/cache.c:152-166 | after a remove every form of the address misses, and all others find what they did |
| ArpCache.RunRefines | components/ShimIPCP/cache.c:117-256 | over every run of removes and of adds of absent addresses, the table answers as a dictionary with at most as many entries as rows |
| ArpCache.RunAsEntries | components/ShimIPCP/cache.c:117-256 | over every run, repeated adds included, the table does what a list of entries with gaps does: a new entry goes to the first gap, all of a key go together, and the earliest one answers |
| ArpCache.EmptyRefines | components/ShimIPCP/cache.c:47-66 | a new table is the empty dictionary |
| ArpCache.HandleIsRowOne | components/ShimIPCP/cache.c:117-174 | for every add and every table: removing by what the add answered takes it back if and only if the copies were made and the row was row 1, or there are no rows; after a failed copy it clears memory in front of the table |
| ArpCache.Cache.Add | components/ShimIPCP/cache.c:117-150 | fills the first free row with trimmed copies and answers -1, 0 or 1; says when the trimming left the buffer |
| ArpCache.Cache.Remove | components/ShimIPCP/cache.c:152-166 | clears exactly the rows of that address |
| ArpCache.Cache.RemoveHandle | components/ShimIPCP/cache.c:168-174 | clears the row of that number, nothing for a number behind the table, and says when a negative one leads in front of it |
| ArpCache.Cache.LookupGpa | components/ShimIPCP/cache.c:194-240 | hit with the first row of the address or miss; the answer for rows that wait is never given |
| ArpCache.Cache.LookupGha | components/ShimIPCP/cache.c:242-256 | the same answer by the other lookup |

## Left out

- Oneof, extension, pointer and fixed-count array fields, proto3 singular fields, custom streams, UTF-8 validation and float conversion: compiled out or unused by these messages. The search for an extension placeholder is modelled, decoding one is not.
- The decode flags for delimited and null-terminated messages.
- RoundTrip: lengths of 2^32 and more, which the length prefix of a submessage cannot carry back.
- Encoder.EncodeSubmessage: messages whose sizes do not fit 64 bits.
- Failure of heap and pool allocations in the codec, neighbor, name, address and array-list code. In the pool and queue models it is covered.
- NeighborSerDes.NeighborListDecode: records are packed after the decode, one neighbor at a time, rather than inside the callback; an absent AE instance, whose pointer the C code leaves unset, reads as absent.
- Single-neighbor encode and decode, which the list forms contain.
- Payload bytes of netbufs do not change; freed memory is modelled as gone, not as reusable.
- `vNetBufLink` and the printing of netbufs.
- ResourcePool.RunInv: counters are unbounded; with a maximum set, its bounds keep them within 16 bits whenever max(initial, maximum - 1 + increment) is. Helpers, naming, printing and the list of all pools are not modelled.
- `xNameAssignDup` and `vNameAssignStatic` (both put the process instance in place of the entity instance), `pxNameNewFromParts` with its printing (the length it keeps leaves out the separators).
- Names.Name.AssignFromString: what is wiped on failure.
- FieldIter.FieldIter.LoadDescriptorValues: the pointers to the member, its size and its data, which the model has no memory for.
- Decoder.DecodeInner: tables with an extension placeholder, which the codec theorems leave out; the search by tag covers them.
- BoundedQueue.RsQueue.SendToBack: a send that other threads interrupt, which the step system covers. The entry points without a wait, the unbounded mode and liveness are not modelled; semaphores fail only for want of a place or an item.
- BoundedQueue.RsQueue.Receive: a receive that other threads interrupt, which the step system covers.
- NetBuf.FreeAll: a chain whose last node is freed already, on which the walk goes through freed memory (see FreeAllSafe).
- NumMgr.IdManager.Allocate: the state in which the scan has no end (see ScanEnds), and numbers that wrap around in a manager of no ids.
- Names.Name.ToStringBuf: a buffer that is too short for the joined name.
- ProtocolAddress.Gpa.Dup: what becomes of the copy when the scan has left the buffer.
- ArpCache.RunRefines: adds of an address that is there already (see RunAsEntries). `vARPCacheRefresh` and ageing are not modelled, nor an add whose copy leaves the buffer, nor what lies in front of the table.
- `vArrayListRemove`.
- EFCP, flow allocator, enrollment, RIB, RMT, IPCP event loop, network interfaces, logging and the ports to the platforms: mostly plumbing or stubs.

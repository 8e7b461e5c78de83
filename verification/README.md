# Verified models of nanopb and of Alamofire's request machinery

This project models two dependencies that the Tenon app ships with its sources and proves
properties of the models with Dafny 4.11. `dafny verify dfyconfig.toml` checks everything.

**nanopb 0.3.9.7** (`Pods/nanopb`), the table-driven Protocol Buffers codec, in the
configuration of the app's build: 32-bit field entries (`PB_FIELD_32BIT`), no packed structs,
`malloc` enabled, at most 64 tracked required fields. `Pb.dfy` holds descriptors and message
contents, `DecodeSpec.dfy` and `EncodeSpec.dfy` say what decoding and encoding mean on byte
sequences, and `IStream.dfy`, `FieldIter.dfy`, `Decoder.dfy`, `OStream.dfy`, `Encoder.dfy`
follow the C code step by step over stream and iterator objects and arrays, each method proved
equal to its meaning. On those meanings stand the main results:

- decoding what was encoded gives the message back and consumes exactly its bytes
  (`RoundTrip`, `Messages`), and encoding the result again gives the same bytes (`Canonical`);
- whatever bytes the decoder accepts, the struct then holds a valid message, which can be
  encoded again (`DecodedMessages`); it accepts exactly those whose records can be decoded and
  include one for each of the first 64 required fields, and a field without a record holds its
  declared default (`Presence`);
- which fields an encoder leaves out, and which structs it refuses (`Omission`, `Messages`);
- concatenation is merge, with the exact condition for descriptors that have fixed-count
  arrays (`Merge`, `FixedArrays`); unknown fields are transparent, the last value wins,
  embedded messages merge, packed and unpacked records agree (`WireLaws`);
- the sizing pass and the writing pass produce the same bytes, so "submsg size changed" cannot
  happen, and a buffer suffices exactly when the reported size fits (`Encoder`);
- the iterator's incremental walk is a table lookup (`FieldIteration`, `Layout`), the
  required-field bitmap is a set (`RequiredBits`), and a growing array holds what was decoded
  exactly while its offsets stay below 2^32 (`PointerArray`);
- default initialisation stays inside a struct exactly when no clearing of a count reaches
  beyond its end, members overrun inside it are initialised afterwards (`DefaultStores`), and the
  initialised bytes are the default message (`DefaultMemory`); a sender and a receiver that share a buffer
  exchange any valid message (`Exchange`);
- varints, zig-zag numbers and little-endian words round-trip, in the 64-bit, the 32-bit and
  the sign-extending variants (`Wire`, `Numbers`, `NegativeVarint`).

**Alamofire** (`Pods/Alamofire`): the `Request` lifecycle and its response-serializer queue
(`RequestLifecycle`, and `RequestDelivery` for the runs that the source itself can cause),
`RequestTaskMap` with the session callbacks that empty it (`TaskMap`), and the two encoders of
`MultipartFormData` with a reference parser (`Multipart`, `MultipartStreams`).

## Where the code does not do what is promised for it

Each of these is proved, with an input that fails and the exact condition under which the code
keeps its promise.

- Initialising a static repeated field clears a count of `sizeof(pb_size_t)` bytes at the place
  of its count member (`Pods/nanopb/pb_decode.c:865-872`). A fixed-count array has no such
  member, and the store goes to the array itself. With 4-byte sizes an array of fewer than 4
  bytes is overrun, and only then is another member written to
  (`DefaultStores.DefaultsKeepOthersIff`). Inside a struct that does no harm, because the members
  behind are initialised afterwards (`DefaultStores.MembersInitialised`,
  `DefaultStores.ShortArrayRepaired`). What lies behind the struct is changed exactly when the
  clearing reaches beyond its end (`DefaultStores.StaysInsideIff`), and that matters for array
  entries and union members, which are initialised while a message is being decoded: a two-entry
  fixed-count bool array in a repeated submessage turns the absent
  `optional bool h = 2 [default = true]` behind it into false
  (`DefaultStores.ShortArrayErasesNeighbour`). `WellFormed` asks that the initialisation of such
  entries and members stays inside them, and the round trips are stated for those descriptors.
- The offset of an array entry is `data_size * index` in 32-bit arithmetic
  (`Pods/nanopb/pb_decode.c:438`, `458` and `641`). The growing array holds the old entries
  followed by the decoded ones exactly when the offset of the last one is below 2^32
  (`PointerArray.GrownArrayIff`); the entry number 2^29 + 1 of an int64 array is stored over the
  first one, and decoding succeeds (`PointerArray.LongArrayLosesFirst`). For static arrays
  `WellFormed` asks that no offset wraps around (`Pb.ItemsInPlaceIff`).
- `pb_decode_noinit` is documented as usable for merging (`Pods/nanopb/pb_decode.h:74-76`). Two
  messages laid end to end decode like one after the other exactly when the second does not
  begin its fixed-count arrays with the array the first one ended in; otherwise the
  concatenation overflows that array (`FixedArrays.ConcatIsMergeIff`,
  `FixedArrays.SecondWordOverflows`).
- `pb_decode_varint32` looks at bits 32 to 34 only when the varint ends with its fifth byte
  (`Wire.Varint32AcceptsIff`), so six bytes for 0x7_0000_0000 decode to zero
  (`Wire.Varint32Truncates`).
- A string that fills its buffer is encoded and then refused by the decoder
  (`Records.StringSurvives`).
- The iterator finds every member where the compiler put it exactly when every step fits into
  a descriptor entry (`Layout.OffsetsCorrectIff`): the first offset, the padding in front of a
  member, and the sizes of a member that others follow are below 2^32, and the padding between
  two unions is not `PB_SIZE_MAX`, where `PB_DATAOFFSET_OTHER` coincides with
  `PB_DATAOFFSET_UNION`. The count, has and which members are then found exactly when their
  distances fit 32 signed bits (`Layout.CompanionsCorrectIff`). Breaking this takes structs of
  2 GiB and more (`Layout.FarUnionsCollide`, `Layout.BigBytesTruncated`, `Layout.FarCountMissed`).
- A cancelled request skips the retries that were scheduled for it, and `Request.finish()` is
  ignored while `isFinishing` is set. Two kinds of requests therefore never call their
  completions: one that is cancelled after a serializer has asked for a retry and before the
  retry is made (`RequestDelivery.CancelBeforeRetryLoses`), and one that is cancelled while its
  task is alive, when the retrier then answers the task's error with a retry
  (`RequestDelivery.RetryAfterCancelLoses`). A request can still deliver exactly when it is not
  lost in one of these ways (`RequestDelivery.CanStillDeliverIff`), and a run that comes to rest
  without a dropped retry has delivered (`RequestDelivery.Delivery`), also when the request was
  cancelled before its task existed and its attempt returned at one of the session's guards
  (`RequestDelivery.CancelledEarlyDelivers`).
- The partial-write loop of `MultipartFormData` drops the rest of a buffer, without an error,
  when the stream reports no space: the file equals `encode()` exactly when that never happened
  (`MultipartStreams.MultipartFormData.WriteEncodedData`).
- Associating a request or a task that is associated otherwise breaks the two-way map
  (`TaskMap.AssociateConsistentIff`).

## What delivery rests on

`RequestLifecycle.ExactlyOnce` assumes that no retry is performed while a serializer is in
flight, and `RequestLifecycle.RetrySafeIff` shows that the assumption is needed: otherwise a
completion can run twice. No call in the source violates it. `finish()` would have to be called
while a retry is scheduled (`RequestDelivery.FinishWhileRetrying`). Its callers are
`retryOrFinish` (`Pods/Alamofire/Source/Request.swift:479-486`), at most once for each attempt and
before a retry is scheduled; the two `cancel` methods (`Request.swift:661` and `1316`), after
which retries are skipped; and the session, on deinitialisation and invalidation
(`Pods/Alamofire/Source/Session.swift:970` and `1065`), for requests in the task map, which a
request with a scheduled retry has left. `RequestDelivery` states this discipline as
`SourcedRun` and proves the assumption from it (`RequestDelivery.SourcedBehaves`). What it takes
from outside is that a URL session reports nothing more about a task after its invalidation.

## Modelling choices

- A C struct is a sequence of typed slots, one per field; the members of a union share the slot
  of the first one. `Layout.SlotIsAddress` proves that slots are addresses. Decoder methods take
  the struct's contents and return the new contents.
- C integers are unbounded numbers with the width, cast or wrap-around written out where the
  code depends on it: varint accumulation, the 8-bit bit position, casts in the field decoders,
  `size + 1` in the string decoder, `pb_size_t` bounds.
- Every lemma switches automatic induction off, and proofs by induction call themselves. The
  induction hypothesis that Dafny 4.11 adds by itself speaks of sequences without regard to their
  element type, so that it can hold of nothing when a lemma has sequences of two datatypes.
- `x << k`, `|`, `^` are multiplication by `Pow2(k)`, `BitOr` and `BitXor` over naturals.
- Texts in `Multipart` are the bytes of their UTF-8 encodings.
- Address arithmetic of array entries is done modulo 2^32 as in the source; the static decoder's
  index is the one that this offset leads to.
- In `RequestLifecycle` every method body is one step. Blocks handed to a dispatch queue, started
  serializers, questions to the retrier and scheduled retries are part of the state and run as
  later steps in any order, which includes the order the queues would choose. The completion of
  the run of a serializer is named by the serializer and the number of retries before it.

## Model

| member | source | states |
|---|---|---|
| Wire.OrDisjoint | Pods/nanopb/pb_decode.c:231-234 | OR-ing a shifted group into a result that ends below it adds it |
| Wire.VarintRoundTrip | Pods/nanopb/pb_encode.c:608-628 | for every 64-bit value and any trailing bytes, decode of encode returns the value and leaves exactly the trailing bytes; 1 to 10 bytes are written |
| Wire.VarintOf | Pods/nanopb/pb_decode.c:255-276 | any varint of at most ten bytes, minimal or not, decodes to its value modulo 2^64 |
| Wire.Varint32Sound | Pods/nanopb/pb_decode.c:187-247 | whatever the 32-bit decoder accepts within ten bytes agrees with the 64-bit one on the low 32 bits and on the bytes consumed |
| Wire.Varint32Complete | Pods/nanopb/pb_decode.c:187-247 | every varint of at most ten bytes whose value fits 32 bits is decoded exactly |
| Wire.Varint32AcceptsIff | Pods/nanopb/pb_decode.c:210-243 | exactly which varints are accepted: the upper groups are empty or sign extension, and bits 32 to 34 matter only in a five-byte varint |
| Wire.Varint32Truncates | Pods/nanopb/pb_decode.c:210-243 | the six-byte varint of 0x7_0000_0000 decodes to 0 |
| Wire.Varint32Refuses | Pods/nanopb/pb_decode.c:238-242 | its five-byte form is refused |
| Wire.Varint32RoundTrip | Pods/nanopb/pb_decode.c:187-253 | values below 2^32 survive the encoder and the 32-bit decoder |
| Wire.Varint32SignExtended | Pods/nanopb/pb_decode.c:221-230 | the ten bytes of a sign-extended negative int32 decode to its low 32 bits |
| Numbers.ZigZagInverse | Pods/nanopb/pb_encode.c:630-639 | zig-zag encoding and decoding are inverse in both directions, and int64 maps onto uint64 |
| Numbers.SignedRoundTrip | Pods/nanopb/pb_decode.c:1332-1367 | every signed field value of 1, 2, 4 or 8 bytes survives the 64-bit varint and the decoder's casts, plain and zig-zag |
| Numbers.UnsignedRoundTrip | Pods/nanopb/pb_decode.c:1369-1391 | every unsigned field value survives the decoder's clamp |
| Numbers.LittleEndianRoundTrip | Pods/nanopb/pb_encode.c:641-667 | a fixed word of k bytes is recovered from its little-endian bytes |
| Records.TagNumbers | Pods/nanopb/pb_encode.c:669-707 | a tag is the varint of 8 times the field number plus 0, 1, 2 or 5, by the type of the field; 2 for a packed array |
| Records.LengthNumber | Pods/nanopb/pb_encode.c:709-715 | a length is the varint of the number of bytes, of 64 bits |
| Records.VarintGroup | Pods/nanopb/pb_encode.c:608-628 | byte i of a varint is bits 7i to 7i+6 of the number, with the top bit set in every byte but the last |
| Records.WordByte | Pods/nanopb/pb_encode.c:641-667 | byte i of a fixed word is bits 8i to 8i+7 of the number |
| Records.UnsignedAcceptedIff | Pods/nanopb/pb_decode.c:1369-1391 | an unsigned field takes a varint if and only if its number is below 2 to the width of the field, and then holds that number |
| Records.ZigZagAcceptedIff | Pods/nanopb/pb_decode.c:1393-1413 | a zig-zag field takes a varint if and only if the number it stands for is in range |
| Records.SignedAcceptedIff | Pods/nanopb/pb_decode.c:1332-1367 | a signed field comes to hold n exactly when n is in range and differs from the varint by a multiple of 2^32, or 2^64 in fields of 8 bytes |
| Records.InvalidSizeRefused | Pods/nanopb/pb_decode.c:1353-1366 | an integer field of any other size takes nothing |
| Records.BoolAccepted | Pods/nanopb/pb_decode.c:1321-1330 | a bool is true exactly when the number is not zero |
| Records.BlobAcceptedIff | Pods/nanopb/pb_decode.c:1434-1551 | bytes are accepted if and only if they leave 4 bytes for the size, a string if and only if it leaves one for the NUL, inline bytes if and only if there are none or exactly data_size; no inline bytes stand for zeros |
| NegativeVarint.XorDisjoint | Pods/nanopb/pb_encode.c:597-599 | XOR-ing vacated bits adds them |
| NegativeVarint.ShiftExtended | Pods/nanopb/pb_encode.c:589-602 | one turn of the loop divides the sign-extended value by 128, although only 32 bits of it are held |
| NegativeVarint.Groups | Pods/nanopb/pb_encode.c:583-606 | the buffer receives the varint of the value extended with 32 ones |
| NegativeVarint.TenBytes | Pods/nanopb/pb_encode.c:583-606 | for a negative int32 that is the ten-byte varint of the sign-extended value |
| NegativeVarint.WriteNegativeVarint | Pods/nanopb/pb_encode.c:583-606 | the 32-bit-only encoder puts the same bytes on the stream as the 64-bit one |
| Pb.Home | Pods/nanopb/pb_common.c:44-50 | the first member of the union a field belongs to: it does not share storage with the one before it, and every field from there on does |
| Pb.HomeKind | Pods/nanopb/pb_common.c:44-50 | union members have union members as their homes, and every other field is its own home |
| Pb.ItemsInPlaceIff | Pods/nanopb/pb_decode.c:436-461 | every entry of an array is stored at its own offset if and only if the 32-bit offset of the last one does not wrap around |
| IStreams.IStream.Read | Pods/nanopb/pb_decode.c:102-137 | succeeds exactly when enough bytes are left, delivers them or skips them in 16-byte chunks, and keeps state + bytes_left |
| IStreams.IStream.ReadByte | Pods/nanopb/pb_decode.c:141-157 | delivers the next byte if there is one |
| IStreams.IStream.DecodeVarint32Eof | Pods/nanopb/pb_decode.c:187-247 | the loop computes DecodeVarint32, reports end of input only on empty input, and keeps the end of the stream |
| IStreams.IStream.DecodeVarint64 | Pods/nanopb/pb_decode.c:255-276 | the loop computes DecodeVarint |
| IStreams.IStream.DecodeTagAndType | Pods/nanopb/pb_decode.c:298-319 | tag, wire type and end of message as DecodeTag says |
| IStreams.IStream.SkipVarintBytes | Pods/nanopb/pb_decode.c:278-287 | consumes up to and including the first byte below 128 |
| IStreams.IStream.SkipField | Pods/nanopb/pb_decode.c:289-331 | consumes what Skip consumes for every wire type, or fails |
| IStreams.IStream.MakeSubstream | Pods/nanopb/pb_decode.c:372-385 | the substream holds exactly the declared bytes and the parent continues after them |
| IStreams.IStream.CloseSubstream | Pods/nanopb/pb_decode.c:387-400 | the parent skips what the substream left |
| IStreams.IStream.DecodeSVarint | Pods/nanopb/pb_decode.c:1272-1284 | zig-zag decoding of a 64-bit varint |
| IStreams.IStream.DecodeFixedWord | Pods/nanopb/pb_decode.c:1286-1318 | the little-endian word of the next 4 or 8 bytes |
| FieldIteration.FieldIter.constructor | Pods/nanopb/pb_common.c:8-18 | a fresh iterator stands at the first field |
| FieldIteration.FieldIter.Begin | Pods/nanopb/pb_common.c:8-18 | offsets and required rank of field 0; false exactly for an empty descriptor |
| FieldIteration.FieldIter.Next | Pods/nanopb/pb_common.c:20-76 | the incremental offsets and the required rank stay those of the table lookup, wrapping around at the end |
| FieldIteration.FieldIter.Find | Pods/nanopb/pb_common.c:78-95 | from any position the search terminates, succeeds exactly when a field has the tag, and stops on such a field |
| Layout.WalkIsLookup | Pods/nanopb/pb.h:395-409 | as long as every step fits into the 32-bit entries, the walk computes offsetof of every member, and of its count, has or which companion exactly when the distance fits |
| Layout.MisfitMisplaces | Pods/nanopb/pb_common.c:20-76 | from the first step that does not fit on, every member is looked for too early |
| Layout.OffsetsCorrectIff | Pods/nanopb/pb_common.c:20-76 | every member is found where the compiler put it if and only if every step fits: sizes and padding below 2^32, and no two unions a PB_SIZE_MAX apart |
| Layout.CompanionsCorrectIff | Pods/nanopb/pb.h:395-395 | then every companion is found if and only if its distance fits pb_ssize_t |
| Layout.FarUnionsCollide | Pods/nanopb/pb.h:399-405 | two unions PB_SIZE_MAX bytes apart do collide, and the second is looked for at the first |
| Layout.BigBytesTruncated | Pods/nanopb/pb.h:239-251 | a bool behind inline bytes of 2^32 + 8 bytes is looked for at offset 8 |
| Layout.FarCountMissed | Pods/nanopb/pb.h:239-251 | the count of an array at offset 0x8000_0001 is not found at offset 0 |
| Layout.SlotIsAddress | Pods/nanopb/pb_common.c:44-50 | two fields have the same data address exactly when they share a slot |
| DefaultStores.FieldInside | Pods/nanopb/pb_decode.c:839-909 | initialising a field, with every struct in it, changes no byte of another member when there is room for the counts |
| DefaultStores.MessageInside | Pods/nanopb/pb_decode.c:911-922 | initialising a struct changes no byte outside it |
| DefaultStores.ShortArrayOverrun | Pods/nanopb/pb_decode.c:865-872 | a fixed-count array shorter than a count is overrun |
| DefaultStores.DefaultsKeepOthersIff | Pods/nanopb/pb_decode.c:839-922 | initialisation stays inside the members it is for, at every level, if and only if no fixed-count array is shorter than a count |
| DefaultStores.MessageBehind | Pods/nanopb/pb_decode.c:911-922 | a byte behind the struct is cleared if a clearing of a count reaches it, and kept otherwise |
| DefaultStores.StaysInsideIff | Pods/nanopb/pb_decode.c:839-922 | initialising a struct changes no byte outside it, wherever it is, if and only if no clearing reaches beyond its end |
| DefaultStores.MembersInitialised | Pods/nanopb/pb_decode.c:911-922 | after initialisation every byte of a member is what initialising that member made it, whatever an earlier member has overrun |
| DefaultStores.EntriesStayInside | Pods/nanopb/pb_decode.c:466-477 | in a well-formed descriptor the initialisation of an array entry or a union member during decoding changes nothing else |
| DefaultStores.ShortArrayRepaired | Pods/nanopb/pb_decode.c:911-922 | a well-formed struct in which a short array is overrun and the field behind it still ends up at its default |
| DefaultStores.ShortArrayErasesNeighbour | Pods/nanopb/pb_decode.c:1516-1522 | a struct in which initialising an entry clears the has_ flag and the default of the field behind it |
| DefaultMemory.DefaultsInMemory | Pods/nanopb/pb_decode.c:839-922 | after pb_message_set_to_defaults the bytes of the struct, at every level, are the default message: has_ and counts zero, declared defaults in their C representation, zeros elsewhere |
| DefaultMemory.FlagInMemory | Pods/nanopb/pb_decode.c:839-922 | so they are behind a short array that has overrun a flag and its default |
| RequiredBits.BitOfOr | Pods/nanopb/pb_decode.c:1018-1019 | bit i of an OR is the OR of the bits |
| RequiredBits.MarkAdds | Pods/nanopb/pb_decode.c:1015-1020 | setting the bit of a rank adds that rank to the set the words represent |
| RequiredBits.WordTest | Pods/nanopb/pb_decode.c:1056-1071 | a whole or partial word passes exactly when all its ranks have been seen |
| RequiredBits.BitmapTest | Pods/nanopb/pb_decode.c:1054-1072 | both tests together pass exactly when every rank below the count has been seen |
| RequiredBits.SeenAllRanks | Pods/nanopb/pb_decode.c:1034-1053 | all tracked required fields seen, said by rank |
| RequiredBits.RankReached | Pods/nanopb/pb_decode.c:1034-1053 | every rank below the number of required fields belongs to one |
| RequiredBits.CheckRequired | Pods/nanopb/pb_decode.c:1033-1073 | from any final iterator position the checks pass exactly when each of the first 64 required fields was seen |
| Decoder.SetFieldToDefault | Pods/nanopb/pb_decode.c:839-909 | the field's slot becomes its default and other slots stay; a member that is overrun in memory is one that is initialised later |
| Decoder.SetToDefaults | Pods/nanopb/pb_decode.c:911-922 | every slot is at its default |
| Decoder.DecBool | Pods/nanopb/pb_decode.c:1321-1330 | as DecodeBool, keeping the end of the stream |
| Decoder.DecInteger | Pods/nanopb/pb_decode.c:1332-1415 | as DecodeInteger, with the overflow test after the cast |
| Decoder.DecFixed | Pods/nanopb/pb_decode.c:1417-1432 | as DecodeFixed |
| Decoder.DecBytes | Pods/nanopb/pb_decode.c:1434-1469 | as DecodeBytes, with both overflow tests |
| Decoder.DecString | Pods/nanopb/pb_decode.c:1471-1504 | as DecodeString, with room for the terminator |
| Decoder.DecFixedLengthBytes | Pods/nanopb/pb_decode.c:1530-1551 | as DecodeFixedLength |
| Decoder.DecScalar | Pods/nanopb/pb_decode.c:65-81 | the table of field decoders |
| Decoder.DecSubmessage | Pods/nanopb/pb_decode.c:1506-1528 | the payload is decoded inside its declared length, over defaults in a repeated field and over the old contents otherwise |
| Decoder.DecValue | Pods/nanopb/pb_decode.c:406-422 | one value of any type, as DecodeValue |
| Decoder.DecodePackedItems | Pods/nanopb/pb_decode.c:436-448 | the packed loop stores each entry at its 32-bit offset, fills the array from its count on, and fails exactly when DecodePacked overflows |
| Decoder.DecodeRepeatedField | Pods/nanopb/pb_decode.c:424-464 | packed and unpacked entries, as DecodeRepeated |
| Decoder.ReleaseUnionField | Pods/nanopb/pb_decode.c:1131-1155 | fails exactly when the old which value names no field |
| Decoder.DecodeOneOfField | Pods/nanopb/pb_decode.c:466-478 | a union member is decoded over defaults when it was not the active one |
| Decoder.DecodeStaticField | Pods/nanopb/pb_decode.c:406-483 | as DecodeStatic for the iterator's field |
| Decoder.EnterFixedCount | Pods/nanopb/pb_decode.c:992-1013 | starting another fixed-count array requires the previous one to be complete |
| Decoder.MarkRequired | Pods/nanopb/pb_decode.c:1015-1020 | the bitmap gains the rank of a required field below 64 and nothing else |
| Decoder.DecodeField | Pods/nanopb/pb_decode.c:960-1024 | one record, known or unknown, as DecodeRecord |
| Decoder.DecodeRecords | Pods/nanopb/pb_decode.c:946-1025 | the loop is DecodeLoop; it terminates because every turn shrinks bytes_left, and keeps state + bytes_left |
| Decoder.CheckComplete | Pods/nanopb/pb_decode.c:1027-1073 | the checks after the loop are Accepts |
| Decoder.DecodeMessageNoInit | Pods/nanopb/pb_decode.c:928-1076 | pb_decode_noinit computes DecodeNoInit and keeps the end of the stream |
| Decoder.DecodeMessage | Pods/nanopb/pb_decode.c:1078-1090 | pb_decode starts from defaults |
| Decoder.DecodeDelimited | Pods/nanopb/pb_decode.c:1107-1120 | a message inside its declared length; the stream continues right after it |
| OStreams.OStream.constructor | Pods/nanopb/pb_encode.c:86-101 | a stream limited to the buffer, or a sizing stream |
| OStreams.OStream.Write | Pods/nanopb/pb_encode.c:103-124 | succeeds exactly when the bytes fit, appends them, and touches nothing outside the limits |
| OStreams.OStream.CopyIn | Pods/nanopb/pb_encode.c:74-84 | the bytes replace those at the write position |
| OStreams.OStream.WriteVarint | Pods/nanopb/pb_encode.c:608-628 | emits EncodeVarint |
| OStreams.VarintGroups | Pods/nanopb/pb_encode.c:619-625 | the loop's buffer holds EncodeVarint of the value |
| OStreams.OStream.WriteSVarint | Pods/nanopb/pb_encode.c:630-639 | emits the varint of the zig-zag value of every int64 |
| OStreams.OStream.WriteFixed32 | Pods/nanopb/pb_encode.c:641-651 | emits the four little-endian bytes |
| OStreams.OStream.WriteFixed64 | Pods/nanopb/pb_encode.c:653-667 | emits the eight little-endian bytes |
| OStreams.OStream.WriteString | Pods/nanopb/pb_encode.c:709-715 | emits the length and the bytes |
| OStreams.OStream.WriteTag | Pods/nanopb/pb_encode.c:669-673 | emits the varint of tag and wire type |
| Encoder.WriteTagForField | Pods/nanopb/pb_encode.c:675-707 | emits the tag with the wire type of the field's type |
| Encoder.EncInteger | Pods/nanopb/pb_encode.c:769-833 | every value of the C type is emitted as its varint, and an invalid data_size is refused |
| Encoder.EncFixed | Pods/nanopb/pb_encode.c:835-850 | fixed words |
| Encoder.EncBlob | Pods/nanopb/pb_encode.c:852-899 | bytes that exceed their array are refused, strings end at the NUL |
| Encoder.StringLength | Pods/nanopb/pb_encode.c:888-896 | the length of the characters before the first NUL, at most the buffer's size |
| Encoder.EncValue | Pods/nanopb/pb_encode.c:52-68 | the table of field encoders |
| Encoder.CheckZeroItem | Pods/nanopb/pb_encode.c:269-337 | true exactly for the zero contents of a proto3 singular field |
| Encoder.CheckAllDefault | Pods/nanopb/pb_encode.c:289-308 | true exactly when every field of the submessage is at its default |
| Encoder.CheckDefaultField | Pods/nanopb/pb_encode.c:240-267 | presence by rule: required, repeated, oneof, optional, singular |
| Encoder.PackedPayloadSize | Pods/nanopb/pb_encode.c:169-192 | multiplication or sizing stream, the size is the length of the payload |
| Encoder.EncodePacked | Pods/nanopb/pb_encode.c:162-205 | tag, payload size and payload |
| Encoder.EncodeArrayField | Pods/nanopb/pb_encode.c:147-236 | an array within array_size is packed when its type allows, otherwise one record per entry; a longer one is refused |
| Encoder.EncodeSingular | Pods/nanopb/pb_encode.c:376-419 | tag and value when present |
| Encoder.EncodeFieldAt | Pods/nanopb/pb_encode.c:341-465 | one field by its rule |
| Encoder.WritePass | Pods/nanopb/pb_encode.c:742-765 | the writing pass on a substream of the counted size succeeds and emits exactly that many bytes: the size cannot have changed |
| Encoder.EncodeSubmessage | Pods/nanopb/pb_encode.c:717-766 | sizing pass, length and writing pass together emit the length-delimited encoding |
| Encoder.EncodeMessage | Pods/nanopb/pb_encode.c:528-550 | sizing and writing streams alike: succeeds exactly when there is an encoding and room for it, and emits it |
| Encoder.GetEncodedSize | Pods/nanopb/pb_encode.c:567-577 | the size is the number of bytes that writing would emit |
| Encoder.EncodeToBuffer | Pods/nanopb/pb_encode.c:86-124 | a buffer of n bytes suffices exactly when the size is at most n, and, whether it succeeds or not, no byte beyond bytes_written changes |
| Encoder.EncodeDelimited | Pods/nanopb/pb_encode.c:552-555 | the length-delimited encoding |
| Encoder.EncodeNullTerminated | Pods/nanopb/pb_encode.c:557-565 | the encoding followed by a zero byte |
| Records.TagRoundTrip | Pods/nanopb/pb_decode.c:298-319 | a written tag is read back for every field number below 2^29 |
| Records.SubstreamRoundTrip | Pods/nanopb/pb_decode.c:372-385 | a length-prefixed payload is read back |
| Records.ScalarRoundTrip | Pods/nanopb/pb_decode.c:1321-1551 | every scalar content survives its field encoder and decoder, whatever follows it |
| Records.StringSurvives | Pods/nanopb/pb_decode.c:1497-1503 | a string survives exactly when its characters leave room for the NUL |
| RoundTrip.ZeroItemIsDefault | Pods/nanopb/pb_encode.c:240-335 | a proto3 singular item that is not emitted decodes to what it held |
| RoundTrip.SingularRecord | Pods/nanopb/pb_decode.c:414-478 | a required, optional or oneof record stores its value, has flag and which tag |
| RoundTrip.PackedRecord | Pods/nanopb/pb_decode.c:425-453 | a packed record fills the array with the encoded items and leaves what follows |
| RoundTrip.UnpackedTrip | Pods/nanopb/pb_decode.c:454-464 | one record per entry fills the array with the encoded items |
| RoundTrip.FieldTrip | Pods/nanopb/pb_encode.c:341-465 | decoding the bytes of one field brings its slot to the normalized contents and leaves the others |
| RoundTrip.MessageTrip | Pods/nanopb/pb_encode.c:528-550 | message round trip at every nesting depth: success, all bytes consumed, the same message with absent fields at their defaults |
| Messages.DecodeEncode | Pods/nanopb/pb_decode.c:1078-1090 | pb_decode of pb_encode, for every well-formed static descriptor and valid message |
| Messages.ValidTyped | Pods/nanopb/pb_encode.c:528-550 | every valid message is one that the encoder's contract accepts |
| Messages.EncodingDetermines | Pods/nanopb/pb_encode.c:528-550 | equal encodings carry equal messages |
| Messages.DelimitedRoundTrip | Pods/nanopb/pb_decode.c:1107-1120 | a delimited message decodes and leaves exactly what follows it |
| Messages.FramesRoundTrip | Pods/nanopb/pb_decode.c:1107-1120 | any number of delimited messages laid end to end decode one by one |
| Messages.NullTerminatedRoundTrip | Pods/nanopb/pb_encode.c:557-565 | the zero byte ends the message and what follows it stays on the stream |
| Exchange.SendAndReceive | Pods/nanopb/pb_encode.h:58-67 | encoding into a buffer and decoding what was written gives the message back, and touches no byte behind it |
| Canonical.FieldNormEncodes | Pods/nanopb/pb_encode.c:341-465 | normalized contents of a field encode to the same bytes |
| Canonical.ReencodeStable | Pods/nanopb/pb_encode.c:528-550 | encoding what was decoded gives the original bytes again |
| DecodedMessages.DefaultsSound | Pods/nanopb/pb_decode.c:839-922 | initialisation with valid defaults leaves a valid message, absent submessages included |
| DecodedMessages.StaticSound | Pods/nanopb/pb_decode.c:406-488 | decoding one field, on any bytes, keeps the struct valid: counts, sizes, ranges, terminators, which_ members |
| DecodedMessages.DecodedIsValid | Pods/nanopb/pb_decode.c:928-1090 | whatever bytes pb_decode accepts, the struct then holds a valid message, for descriptors with valid defaults and no fixed-count arrays |
| DecodedMessages.AcceptedReencodes | Pods/nanopb/pb_decode.c:1078-1090 | such a message can be encoded, and decoding that gives its normal form |
| Presence.RecordEnds | Pods/nanopb/pb_decode.c:406-488 | a record that is decoded ends where a walk of its own over types and lengths says |
| Presence.AcceptedIff | Pods/nanopb/pb_decode.c:928-1076 | bytes are accepted if and only if their records can be decoded, each of the first 64 required fields has one among them, and the last fixed-count array is complete |
| Presence.MissingRequired | Pods/nanopb/pb_decode.c:1033-1073 | a message without a record for one of its first 64 required fields is refused |
| Presence.KeptWithoutRecord | Pods/nanopb/pb_decode.c:928-1030 | decoding leaves the contents of every field, or union, that has no record |
| Presence.DefaultsInitial | Pods/nanopb/pb_decode.c:839-922 | initialised fields hold what the descriptor points to, or zero, at every level; has_ flags are false, counted arrays empty and unions without a member |
| Presence.AbsentHoldsDefault | Pods/nanopb/pb_decode.c:1078-1090 | so after pb_decode does every field that the bytes have no record for |
| Presence.EntryHoldsDefaults | Pods/nanopb/pb_decode.c:1506-1528 | and every field of an array entry that its payload has no record for |
| Omission.ScalarOmittedIff | Pods/nanopb/pb_encode.c:240-335 | a singular scalar without has_ takes no bytes if and only if it is the number 0, no bytes or characters, or inline bytes of size 0 |
| Omission.SubmessageOmittedIff | Pods/nanopb/pb_encode.c:289-308 | a singular submessage without has_ takes no bytes if and only if no field in it does, and none of them is required or a fixed-count array |
| Omission.FieldOmittedIff | Pods/nanopb/pb_encode.c:341-428 | a required field is always emitted, an optional one when it has a value, a union member when it is the active one, an array when it is not empty |
| Messages.EncodesIff | Pods/nanopb/pb_encode.c:147-236 | a struct of the right types is encoded if and only if no array that is emitted has more entries, and no bytes array more bytes, than it can hold, at any level |
| Messages.DelimitedIs | Pods/nanopb/pb_decode.c:1107-1120 | a delimited message is what its payload decodes to, and the stream goes on behind the payload wherever the message ended |
| Merge.LoopConcat | Pods/nanopb/pb_decode.c:946-1025 | the record loop on a ++ b is the loop on b from the state that a leaves |
| Merge.SeenFrame | Pods/nanopb/pb_decode.c:1015-1020 | the required-field set never influences decoding |
| Merge.ConcatIsMerge | Pods/nanopb/pb_decode.h:74-76 | concatenation is merge for descriptors without fixed-count arrays |
| FixedArrays.OtherFirst | Pods/nanopb/pb_decode.c:992-1013 | a complete array makes no difference as long as another one is entered first |
| FixedArrays.FullOverflows | Pods/nanopb/pb_decode.c:436-463 | bytes that fill an array overflow it when it is full already |
| FixedArrays.ConcatMerges | Pods/nanopb/pb_decode.h:74-76 | concatenation is merge, recursively usable for submessage payloads, when the second message begins its fixed-count arrays elsewhere than the first ended |
| FixedArrays.ConcatIsMergeIff | Pods/nanopb/pb_decode.h:74-76 | with fixed-count arrays concatenation is merge if and only if the second message does not begin its arrays with the one the first ended in |
| FixedArrays.SecondWordOverflows | Pods/nanopb/pb_decode.c:992-1013 | two messages with one fixed-count word decode one over the other and not end to end |
| WireLaws.SkipsOneValue | Pods/nanopb/pb_decode.c:321-331 | skipping consumes all of some bytes exactly when they are one value of the wire type, and never more |
| WireLaws.UnknownTransparent | Pods/nanopb/pb_decode.c:960-989 | records with unknown tags, inserted anywhere between records, leave the outcome unchanged |
| WireLaws.UnknownFieldsIgnored | Pods/nanopb/pb_decode.c:928-1076 | the same for whole messages |
| WireLaws.EmbeddedMerge | Pods/nanopb/pb_decode.c:1506-1528 | two records of one embedded message decode like one record with both payloads, whenever the payloads merge |
| WireLaws.LastOneWins | Pods/nanopb/pb_decode.c:406-483 | of two values for a singular scalar field only the last has an effect |
| WireLaws.UnionSwitch | Pods/nanopb/pb_decode.c:466-483 | what a union holds in another member makes no difference to a record of a member |
| WireLaws.LastMemberWins | Pods/nanopb/pb_decode.c:466-483 | of two records of scalar members of one union only the last has an effect |
| WireLaws.StaleUnionRefused | Pods/nanopb/pb_decode.c:1131-1162 | a union whose which_ member names no field is not decoded into |
| WireLaws.ChunksAgree | Pods/nanopb/pb_decode.c:424-464 | however entries are split over packed and unpacked records, the array gets the same contents and count |
| WireLaws.ChunksAppend | Pods/nanopb/pb_decode.c:424-464 | for a counted array these are the old entries followed by the new ones |
| WireLaws.SplitIrrelevant | Pods/nanopb/pb_decode.c:424-464 | two splits of one list have the same outcome |
| WireLaws.ChunksOverflow | Pods/nanopb/pb_decode.c:436-463 | lists that exceed array_size are rejected, however they are split |
| PointerArray.SizeTooLarge | Pods/nanopb/pb_decode.c:507-522 | refuses exactly the sizes whose product exceeds size_t |
| PointerArray.AllocateField | Pods/nanopb/pb_decode.c:490-533 | refuses exactly the sizes that are zero or whose product exceeds size_t; on success there is room for the asked number of entries and the old ones that fit are kept, on failure nothing changes |
| PointerArray.GrowthBounds | Pods/nanopb/pb_decode.c:618-629 | growing adds room for the remaining bytes at one entry per data_size bytes and no more, or for one entry, within PB_SIZE_MAX |
| PointerArray.EnsureRoom | Pods/nanopb/pb_decode.c:622-638 | room for one more entry inside the current allocation |
| PointerArray.WrappedIndex | Pods/nanopb/pb_decode.c:641 | the place that the 32-bit offset leads to is the index modulo 2^32 / data_size |
| PointerArray.StoreItem | Pods/nanopb/pb_decode.c:641-649 | one more entry, stored where its offset says, inside the allocation |
| PointerArray.DecodeEntry | Pods/nanopb/pb_decode.c:611-650 | one turn of the loop: room, value and store, or the reason for its end |
| PointerArray.OverlayIff | Pods/nanopb/pb_decode.c:641-649 | entries stored at wrapped places follow the old ones if and only if there are enough places |
| PointerArray.DecodePackedPointer | Pods/nanopb/pb_decode.c:597-655 | size stays at most the allocated size and PB_SIZE_MAX, every store is inside the allocation, and each entry decoded is stored at its 32-bit offset |
| PointerArray.GrownArrayIff | Pods/nanopb/pb_decode.c:597-655 | the result is the old entries followed by the decoded ones if and only if the offset of the last one is below 2^32 |
| PointerArray.LongArrayLosesFirst | Pods/nanopb/pb_decode.c:641-649 | 2^29 + 1 int64 entries are decoded, and the last is stored over the first |
| RequestLifecycle.TransitionsIff | Pods/Alamofire/Source/Request.swift:50-64 | the transition relation: initialized may go anywhere, cancelled and finished nowhere, and nothing returns to initialized or stays |
| RequestLifecycle.Request.constructor | Pods/Alamofire/Source/Request.swift:84-119 | the initial mutable state |
| RequestLifecycle.Request.Resume | Pods/Alamofire/Source/Request.swift:698-714 | initialized and suspended become resumed, every other state stays |
| RequestLifecycle.Request.Suspend | Pods/Alamofire/Source/Request.swift:678-693 | initialized and resumed become suspended, every other state stays |
| RequestLifecycle.Request.Cancel | Pods/Alamofire/Source/Request.swift:652-672 | to cancelled where allowed, with a finish enqueued when no task is left to complete |
| RequestLifecycle.Request.AppendResponseSerializer | Pods/Alamofire/Source/Request.swift:516-532 | finished becomes resumed, and processing restarts after a flush |
| RequestLifecycle.Request.NextResponseSerializer | Pods/Alamofire/Source/Request.swift:537-549 | the serializer whose index is the number of completions |
| RequestLifecycle.Request.ProcessNextResponseSerializer | Pods/Alamofire/Source/Request.swift:552-584 | starts the next serializer, or flushes: every completion is called, both lists are cleared, the state becomes finished where allowed |
| RequestLifecycle.Request.CallEach | Pods/Alamofire/Source/Request.swift:575 | all completions, in order |
| RequestLifecycle.Request.Finish | Pods/Alamofire/Source/Request.swift:496-509 | ignored while finishing |
| RequestLifecycle.Request.ResponseSerializerDidComplete | Pods/Alamofire/Source/Request.swift:590-593 | the completion is appended and processing goes on |
| RequestLifecycle.Request.SerializerReported | Pods/Alamofire/Source/ResponseSerialization.swift:240-273 | completes, or after a failure does what the retrier answers |
| RequestLifecycle.Request.RetryOrFinish | Pods/Alamofire/Source/Request.swift:476-491 | finishes without an error or a delegate, otherwise asks the retrier |
| RequestLifecycle.Request.RetryAnswered | Pods/Alamofire/Source/Request.swift:481-490 | finishes or has the delegate retry |
| RequestLifecycle.Request.PerformRetry | Pods/Alamofire/Source/Session.swift:1005-1019 | a cancelled request skips the retry |
| RequestLifecycle.Request.PrepareForRetry | Pods/Alamofire/Source/Request.swift:462-470 | finishing is undone and the completions are dropped |
| RequestLifecycle.ReportActs | Pods/Alamofire/Source/Request.swift:476-491 | a report without an error, or without a delegate, starts the next serializer or flushes at once and asks nothing; any other one asks once |
| RequestLifecycle.AnswerActs | Pods/Alamofire/Source/Request.swift:481-490 | both retry answers schedule one retry, the others finish the request |
| RequestLifecycle.SerializerActs | Pods/Alamofire/Source/ResponseSerialization.swift:246-275 | a serializer that ends completes, and the next is started or everything called; only a failed one whose answer is a retry schedules it instead |
| RequestLifecycle.ControlActs | Pods/Alamofire/Source/Request.swift:615-714 | resuming leads from initialized and suspended to resumed, suspending from initialized and resumed to suspended, and nothing else changes |
| RequestLifecycle.LateSerializerCalled | Pods/Alamofire/Source/Request.swift:511-534 | a serializer appended after the flush is called once its block has run and it has reported |
| RequestLifecycle.RunCounts | Pods/Alamofire/Source/Request.swift:462-470 | over every run retryCount is the number of retries performed, and cleanup has been called exactly when the request has flushed |
| RequestLifecycle.StepStates | Pods/Alamofire/Source/Request.swift:652-714 | every single step is safe; every flush ends in finished or cancelled |
| RequestLifecycle.RunStates | Pods/Alamofire/Source/Request.swift:50-64 | over every run cancelled is never left, initialized never re-entered, finished left only by an append |
| RequestLifecycle.ProcessInv | Pods/Alamofire/Source/Request.swift:552-584 | the delivery invariant when processing goes on |
| RequestLifecycle.RunInv | Pods/Alamofire/Source/Request.swift:496-608 | at every moment of every well-behaved run the request is collecting or has delivered |
| RequestLifecycle.ExactlyOnce | Pods/Alamofire/Source/Request.swift:552-593 | before the first flush no completion has been called, after it each exactly once, in the order of appending and all from the attempt that flushed; never two serializers in flight; the index is the completion count |
| RequestLifecycle.Drain | Pods/Alamofire/Source/Request.swift:552-593 | from a started serializer the remaining ones complete one by one up to the flush |
| RequestLifecycle.StuckForever | Pods/Alamofire/Source/Session.swift:1005-1019 | a request cancelled between a serializer's retry answer and the retry never calls a completion, whatever follows |
| RequestLifecycle.WayOutDelivers | Pods/Alamofire/Source/Request.swift:552-608 | from every other collecting state a well-behaved run delivers everything |
| RequestLifecycle.CanDeliverIff | Pods/Alamofire/Source/Request.swift:496-608 | by steps of any kind, a finish() from outside included, a collecting request can still deliver if and only if it is not stuck |
| RequestLifecycle.StrayRetryRepeats | Pods/Alamofire/Source/Request.swift:596-608 | the run after a retry with a serializer in flight calls its completion twice |
| RequestLifecycle.RetrySafeIff | Pods/Alamofire/Source/Request.swift:462-470 | performing a retry can lead to no surplus call if and only if no serializer is in flight |
| RequestDelivery.TokenStep | Pods/Alamofire/Source/Request.swift:476-509 | a request that is not cancelled has exactly one of an attempt, a question, a scheduled retry and a serializer in flight, until it has flushed; one cancelled before its task exists is finishing or will be finished |
| RequestDelivery.SourcedBehaves | Pods/Alamofire/Source/Request.swift:476-491 | in the runs that the source causes no retry is performed with a serializer in flight |
| RequestDelivery.RunAlive | Pods/Alamofire/Source/Request.swift:652-672 | a cancelled request that drops no retry goes on until it has flushed, by its live task, a question, or the block that cancelling enqueued |
| RequestDelivery.Delivery | Pods/Alamofire/Source/Request.swift:496-608 | in every such run the completions are called once, in order and by one attempt, or not at all; at rest, with no attempt under way, they have been called unless a retry was dropped |
| RequestDelivery.CancelledEarlyDelivers | Pods/Alamofire/Source/Session.swift:901-914 | a request cancelled before its task exists, whose attempt returns at a guard, comes to rest with its completion called |
| RequestDelivery.LostForever | Pods/Alamofire/Source/Session.swift:1005-1019 | a lost request never calls a completion |
| RequestDelivery.CanStillDeliverIff | Pods/Alamofire/Source/Request.swift:496-608 | the completions can still be called, by the source's own steps, if and only if the request is not lost |
| RequestDelivery.CancelBeforeRetryLoses | Pods/Alamofire/Source/Session.swift:1005-1019 | a run that loses them: cancelled between a serializer's retry answer and the retry |
| RequestDelivery.RetryAfterCancelLoses | Pods/Alamofire/Source/Session.swift:1005-1019 | another: the task of a cancelled request fails and the retrier answers with a retry |
| RequestDelivery.FinishWhileRetrying | Pods/Alamofire/Source/Request.swift:496-509 | after a run that the source can cause, a finish() outside its discipline would put a serializer in flight while a retry is scheduled |
| TaskMap.RequestTaskMap.constructor | Pods/Alamofire/Source/RequestTaskMap.swift:37-43 | the empty map is consistent |
| TaskMap.RequestTaskMap.SetForRequest | Pods/Alamofire/Source/RequestTaskMap.swift:45-64 | associates in all three dictionaries, or removes from all three |
| TaskMap.RequestTaskMap.SetForTask | Pods/Alamofire/Source/RequestTaskMap.swift:66-85 | the same from the task's side |
| TaskMap.RequestTaskMap.EventCount | Pods/Alamofire/Source/RequestTaskMap.swift:87-98 | the three counts agree |
| TaskMap.RequestTaskMap.DisassociateAfterMetrics | Pods/Alamofire/Source/RequestTaskMap.swift:113-123 | removes and returns true exactly when the task had completed |
| TaskMap.RequestTaskMap.DisassociateAfterCompletion | Pods/Alamofire/Source/RequestTaskMap.swift:125-139 | removes and returns true exactly when metrics had been gathered |
| TaskMap.Session.DidCreateTask | Pods/Alamofire/Source/Session.swift:904-914 | the association of a new task |
| TaskMap.Session.DidGatherMetricsForTask | Pods/Alamofire/Source/Session.swift:1032-1041 | runs the waiting completion of a task that leaves the map |
| TaskMap.Session.DidCompleteTask | Pods/Alamofire/Source/Session.swift:1043-1053 | runs the completion at once or lets it wait for the metrics |
| TaskMap.CountsAgree | Pods/Alamofire/Source/RequestTaskMap.swift:87-111 | in a consistent map no count precondition fails |
| TaskMap.AssociateConsistentIff | Pods/Alamofire/Source/RequestTaskMap.swift:45-85 | an association keeps the map one-to-one if and only if neither end is associated, or both are with each other |
| TaskMap.StepConsistent | Pods/Alamofire/Source/RequestTaskMap.swift:113-139 | each callback keeps the map consistent; it is fatal exactly for an absent task or a repeated event |
| TaskMap.CreateAssociates | Pods/Alamofire/Source/RequestTaskMap.swift:45-64 | a new task is associated with its request both ways, with no event yet, and every other entry stays |
| TaskMap.InMapIff | Pods/Alamofire/Source/RequestTaskMap.swift:45-139 | after every run a task is in the map if and only if it has been created and has had fewer than two final events since, and then with the request it was created for |
| TaskMap.RunConsistent | Pods/Alamofire/Source/RequestTaskMap.swift:45-139 | over every run the dictionaries stay mutual inverses, and completions wait exactly for tasks without metrics |
| TaskMap.TwoEventRemoval | Pods/Alamofire/Source/RequestTaskMap.swift:113-139 | a task leaves the map exactly at the second of its two events, in either order, and its completion runs exactly once |
| Multipart.EncodeSnoc | Pods/Alamofire/Source/MultipartFormData.swift:317-333 | the parts' bytes follow one another |
| Multipart.MarkEnds | Pods/Alamofire/Source/MultipartFormData.swift:324-325 | the first part gets the initial and the last the final boundary, and nothing else changes |
| Multipart.Boundaries | Pods/Alamofire/Source/MultipartFormData.swift:61-74 | the three boundary texts are one delimiter line in its three forms |
| Multipart.Find | Pods/Alamofire/Source/MultipartFormData.swift:61-74 | the reference parser's search: the first occurrence of a delimiter |
| Multipart.FindFollowing | Pods/Alamofire/Source/MultipartFormData.swift:61-74 | a delimiter cannot straddle the end of a text that it follows |
| Multipart.FirstEncoding | Pods/Alamofire/Source/MultipartFormData.swift:317-333 | the framing of a first encode() |
| Multipart.TextsRecoveredIff | Pods/Alamofire/Source/MultipartFormData.swift:370-387 | the parser gives the texts back if and only if none of them holds the delimiter |
| Multipart.HeaderRecoveredIff | Pods/Alamofire/Source/MultipartFormData.swift:389-395 | the parser reads name and value back from a header line if and only if the name holds no colon |
| Multipart.PartRecoveredIff | Pods/Alamofire/Source/MultipartFormData.swift:389-395 | names, values and body come back if and only if no header line holds a CRLF and no name a colon |
| Multipart.CutOffShort | Pods/Alamofire/Source/MultipartFormData.swift:389-395 | a text cut off anywhere is not read as the part it came from |
| Multipart.PartsDecodeIff | Pods/Alamofire/Source/MultipartFormData.swift:317-395 | unique decodability: the parser following section 5.1.1 of RFC 2046 recovers exactly the names and values of the headers and the bodies if and only if there is a part, no text holds the delimiter, no header line a CRLF and no header name a colon |
| Multipart.EncodingInjective | Pods/Alamofire/Source/MultipartFormData.swift:317-395 | two such lists of parts with the same bytes have the same headers and bodies, the empty one included |
| MultipartStreams.MultipartFormData.Append | Pods/Alamofire/Source/MultipartFormData.swift:302-305 | one new, unmarked part at the end |
| MultipartStreams.SnapshotAppend | Pods/Alamofire/Source/MultipartFormData.swift:302-305 | a further part leaves what the others will be encoded as, and has an empty body if its stream is already in use |
| MultipartStreams.StreamDeliversOnce | Pods/Alamofire/Source/MultipartFormData.swift:397-420 | however many parts share a stream, their bodies together are what it holds, each byte once |
| MultipartStreams.MultipartFormData.MarkFirstAndLast | Pods/Alamofire/Source/MultipartFormData.swift:324-325 | marks the ends and nothing else |
| MultipartStreams.MultipartFormData.Encode | Pods/Alamofire/Source/MultipartFormData.swift:317-333 | for every schedule of partial reads the bytes of the parts as they stood, marked at the ends, and every stream read to its end; or an error exactly when there was one |
| MultipartStreams.MultipartFormData.EncodeBodyPart | Pods/Alamofire/Source/MultipartFormData.swift:370-387 | boundary, headers, body and final boundary |
| MultipartStreams.MultipartFormData.EncodeBodyStream | Pods/Alamofire/Source/MultipartFormData.swift:397-420 | all that remained on the stream; the loop terminates |
| MultipartStreams.MultipartFormData.WriteEncodedData | Pods/Alamofire/Source/MultipartFormData.swift:342-366 | for every schedule of partial reads and writes the same bytes as encode(), if and only if the stream always had space |
| MultipartStreams.MultipartFormData.WriteBodyPart | Pods/Alamofire/Source/MultipartFormData.swift:424-473 | the same for one part |
| MultipartStreams.MultipartFormData.WriteBodyStream | Pods/Alamofire/Source/MultipartFormData.swift:441-465 | the same for one body |
| MultipartStreams.MultipartFormData.WriteBuffer | Pods/Alamofire/Source/MultipartFormData.swift:482-498 | the partial-write loop terminates, and writes everything or stops at missing space |

## Left out

- Structs are passed to the decoder methods by value and returned: aliasing between a struct and other memory, and writing through pointers, are not captured. Stream, iterator, bitmap and growing array are updated in place.
- After a failed decode the contents of the struct are not specified; in particular the count of an array may then be one too large.
- nanopb callback fields, custom stream callbacks, extensions, pointer fields other than the growing packed array, and `pb_release`.
- nanopb error messages, `PB_OLD_CALLBACK_STYLE`, and float bit patterns: floats are fixed32 and fixed64 words.
- The test `bytes_written + count < bytes_written` in `pb_write`: byte counts are unbounded, so a sum never wraps around.
- PointerArray.DecodePackedPointer: for a failed decode says only that the old entries are kept, while no offset has wrapped around; it is about integer, fixed and bool entries of 1, 2, 4 or 8 bytes.
- Messages.DecodeEncode: asks for array entries and union members whose initialisation stays inside them and for arrays whose offsets stay below 2^32, because of the stores listed above (an overrun of an entry could still hit padding only), for zero defaults of proto3 singular fields, for NUL-terminated strings and for encodings below 4 GB, because the length decoder reads 32 bits.
- DecodedMessages.DecodedIsValid: is about descriptors without fixed-count arrays, at any level, because the entries of such an array that no record fills keep what was in memory.
- RequestLifecycle.ExactlyOnce: makes no claim for serializers appended after the first flush, because each of them restarts processing.
- The watchOS branch of `RequestTaskMap`, which removes a task at its completion.
- Interleavings finer than whole method bodies of `Request`, which reads and writes its protected state in several lock sections.
- The contents of responses, progress, credentials, redirects, event monitors and the URL session itself.
- Multipart.PartsDecodeIff: is about a first `encode()`; the boundary marks are sticky, so parts appended after it would be encoded behind a final boundary.
- File checks, MIME types and header construction of `MultipartFormData`; opening and closing of streams; streams whose end is not known to `hasBytesAvailable`.
- `Multipart.SkipPadding` accepts spaces and tabs after a boundary, not folded lines.
- RetryPolicy, Interceptor, HTTPHeaders, the app's user interface, VPN and packet tunnel code.

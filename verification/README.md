# nanopb codec and Realm index iterators, in Dafny

This project models the nanopb 0.3.9.5 Protocol Buffers codec (PDFScanner/Pods/nanopb) and the
chunked range iterators of Realm's `IndexSet` (PDFScanner/Pods/Realm/include/index_set.hpp), and
proves what they are for. `dafny verify dfyconfig.toml` checks everything.

Three layers describe the codec:

- **What it means**, as functions from bytes to messages and back: `Varint`, `Scalars`,
  `Encoding`, `Decoding`, over the descriptors and messages of `Descriptors`. The laws are proved
  here, for all inputs: round trips (`RoundTrip`, and exactly when they hold, `ExactRoundTrip`),
  canonical encodings (`Canonical`), what can be sent (`Sending`), record boundaries (`Framing`),
  unknown, swapped and repeated records (`WireRecords`), joined inputs (`Merging`), required
  fields (`Presence`), packed arrays (`Packing`), type safety (`TypeSafety`). `Messages` says which
  messages these are about: those a structure can hold (storable), those whose strings and payloads
  a receiver takes (readable), those in which zero stands for the default (faithful), and all three
  (valid).
- **What the standard and the documentation ask for**, written without the codec, in literal numbers:
  which number a varint stands for and which a field takes (`Integers`), a message as a list of
  records and its bytes (`WireForm`), an input as a list of whole records and what each field holds
  after them, with the defaults of those that did not arrive (`Contents`), what others make of an
  encoding (`Interchange`), and the blocks that following pointers leads to (`Ownership`). The
  functions above are proved to agree with these.
- **What the C code does**, step by step: streams over byte arrays with cursor, limit and count
  (`InputStream`, `OutputStream`), the layout of a structure and the cyclic field iterator
  (`FieldIterator`), the two-pass encoder (`Encoder`), the decoder's loop with its bitmap and
  fixed-count cursor (`Decoder`, `RequiredBitmap`), growing arrays (`Growable`), and `pb_release`
  over a heap of blocks (`HeapMessages`, `Release`). Each method is proved to succeed exactly when
  its function does and to give the same result; `Transfer` puts the two layers together.

Memory the code leaves without a determined value is written `VStale` in a message: the items of
a fixed-count array after a reset, the data of a union with no current member, and new room in a
growing array.

`IndexSet` stands by itself.

Configuration: the library is modelled as the pod is built (PDFScanner/Pods/Target Support
Files/nanopb/nanopb.release.xcconfig), with `PB_FIELD_32BIT` and `PB_ENABLE_MALLOC`: `pb_size_t`
has 32 bits and `size_t` 64. The wire format is that of the Protocol Buffers "Encoding" document,
sections "Base 128 Varints", "Signed Integers", "Length-Delimited Records", "Packed Repeated
Fields" and "Last One Wins".

Points where the code differs from what its comments or the standard suggest; the model follows
the code:

- A string that fills its buffer is encoded without complaint and then refused by the decoder
  (`Scalars.StringReadBack`, `ExactRoundTrip.FullStringLost`).
- A proto3 singular field with a non-zero default does not survive a round trip when it is zero
  (`ExactRoundTrip.DefaultLost`).
- Resetting a fixed-count array stores a zero count over its data (pb_decode.c:862-868), since
  pSize and pData are the same. An array of fewer than four bytes does not take it, and the fields
  behind it are overwritten (`FieldIterator.ResetInside`, `FieldIterator.SmallArrayOverwrites`).
  Descriptors are therefore required to have no such array (`Descriptors.ArrayFits`), where what
  is claimed depends on it.
- A fixed-count array that does not arrive is left as it was found, but for those four bytes. What
  is then sent for it is not determined, and whether the encoder accepts it depends on the sizes of
  bytes and the counts in submessages that happen to be there (`Sending.FilledEncodes`,
  `Sending.UnarrivedNumberSent`, `Sending.UnarrivedRunSent`).
- An empty packed record starts a fixed-count array, which is then incomplete and makes the decode
  fail; leaving the record out does not (`Packing.PackedEqualsUnpacked`, `Packing.EmptyPackedRefused`).
- The encoder writes submessages and packed arrays of 4 GiB and more, whose length the decoder does
  not read (`Scalars.DelimitExact`, `ExactRoundTrip.RoundTripExact`).
- The offset of an item in an array is computed in 32 bits (pb_decode.c:438, 458, 638, 665). Growing
  arrays of 4 GiB and more overwrite their own items (`Growable.AppendedExact`,
  `Growable.LargePayloadWraps`); static arrays are required to be smaller.
- Joined inputs do not decode like the two in turn when the second resumes the fixed-count array
  the first ended with: the counter lives outside the structure (`Merging.MergeLaw`,
  `Merging.JoinedRefused`).
- A submessage in a union is reset on every occurrence instead of being merged
  (pb_decode.c:466-475, `WireRecords.LastOneWins`), although the comment at pb_decode.c:1137 and
  the standard speak of merging.
- The 32-bit varint decoder is stricter than truncation (`Varint.Varint32Agrees`), and it counts
  bits in 8 bits, so that the agreement is stated for varints of at most 10 bytes.
- Searching an empty message type for tag 0 matches its terminator; `Decoding.DecKeyed` has this
  case, and unlisted tags of an empty type are therefore required to be non-zero.
- `IndexIterator` compares ranges and not offsets, so two iterators at different indices of one
  range are equal (`IndexSet.IndexIterator.Equals`).

## Model

| member | source | states |
|---|---|---|
| ExactRoundTrip.RoundTripExact | PDFScanner/Pods/nanopb/pb_encode.c:519-541 | For every well-formed static descriptor, nested to any depth, and every message its structure can hold: the encoder succeeds; `pb_decode` of its output succeeds if and only if every string that is sent leaves room for a terminator and every payload is below 4 GiB; it then consumes all of it, and gives the same message, up to the data of unset fields, if and only if every proto3 singular field left out as zero has a zero default |
| ExactRoundTrip.MessageRefused | PDFScanner/Pods/nanopb/pb_decode.c:1468-1501 | A message with a string that fills its buffer, or with a submessage or packed array of 4 GiB or more, at any depth, is encoded and then refused, whatever follows it |
| ExactRoundTrip.DefaultLost | PDFScanner/Pods/nanopb/pb_encode.c:341-355 | A proto3 singular field with the default 5: every value survives except 0 |
| ExactRoundTrip.FullStringLost | PDFScanner/Pods/nanopb/pb_decode.c:1468-1501 | A string of two characters in a buffer of two bytes is encoded and not read back |
| RoundTrip.MessageRoundTrip | PDFScanner/Pods/nanopb/pb_encode.c:519-541 | Every valid message survives: the decode consumes exactly the encoding and gives the same message |
| RoundTrip.NullTerminatedRoundTrip | PDFScanner/Pods/nanopb/pb_encode.c:548-556 | A readable message in front of a zero byte is received, the zero byte consumed and nothing behind it read; it is the same message if and only if zero is the default wherever it is left out |
| RoundTrip.DelimitedRoundTrip | PDFScanner/Pods/nanopb/pb_encode.c:543-546 | The same for the delimited form: the payload read back is exactly the encoding and the frame exactly the bytes taken |
| RoundTrip.ZeroIsDefault | PDFScanner/Pods/nanopb/pb_encode.c:237-328 | A submessage that the proto3 check finds all-default is the same message as the defaults a receiver starts from, if and only if zero is the default of every field zero stands for |
| Messages.GotMsgSame | PDFScanner/Pods/nanopb/pb_decode.c:836-919 | What a receiver gets, with every field left out as zero at its default, is what was sent if and only if those defaults are zero, recursively |
| Transfer.SendAndReceive | PDFScanner/Pods/nanopb/pb_encode.c:86-101 | Both together, as code: encoding to a buffer and decoding what was written succeeds if and only if it fits, every sent string is terminated and every payload is below 4 GiB; the structure then holds the same message if and only if zero is the default wherever it is left out |
| Canonical.EncodingDetermines | PDFScanner/Pods/nanopb/pb_encode.c:519-541 | Two readable messages have equal encodings if and only if they are the same message, whatever the defaults of the descriptor |
| Canonical.EncodingStable | PDFScanner/Pods/nanopb/pb_encode.c:519-541 | Encoding what was decoded from the encoding of a valid message gives the same bytes again |
| Sending.EncodesExactly | PDFScanner/Pods/nanopb/pb_encode.c:519-541 | Whatever typed contents a structure has: the encoder accepts it if and only if every run of bytes it sends is inside its buffer and every count it sends is at most array_size; numbers and strings never make it fail |
| Sending.DecodedEncodes | PDFScanner/Pods/nanopb/pb_decode.c:1075-1087 | Whatever bytes a decode accepts, the structure is within the bounds of its fields, and the encoder accepts it if nothing undetermined would be sent |
| Sending.FilledEncodes | PDFScanner/Pods/nanopb/pb_decode.c:862-868 | Where a fixed-count array did not arrive, the structure holds whatever was in memory: with that filled in, the encoder accepts it if and only if the bytes and counts that happen to be there, and are sent, are within bounds |
| Sending.UnarrivedNumberSent | PDFScanner/Pods/nanopb/pb_encode.c:388-398 | A fixed-count array of one number that does not arrive: the decode succeeds, and any number in its place is encoded |
| Sending.UnarrivedRunSent | PDFScanner/Pods/nanopb/pb_encode.c:843-862 | The same for a run of at most four bytes: encoded if and only if the size in its place is at most four |
| Sending.PlainSendable | PDFScanner/Pods/nanopb/pb_decode.c:1075-1087 | Without fixed-count arrays nothing that would be sent is undetermined |
| Sending.StorableSendable | PDFScanner/Pods/nanopb/pb_encode.c:519-541 | Every message a structure can hold meets what the encoder asks of its callers, lengths within size_t included |
| WireForm.EncodesAsRecords | PDFScanner/Pods/nanopb/pb_encode.c:519-541 | Every storable message is sent as exactly the records of the standard, in the order of the descriptor: keys are 8 times the tag plus 0, 1, 2 or 5 by type, arrays of numbers are one packed record, other arrays a record for each item, and singular fields without a flag are left out when there is nothing in them |
| WireForm.OmittedExactly | PDFScanner/Pods/nanopb/pb_encode.c:237-328 | The recursive proto3 check finds a message all default if and only if it has no records to send |
| WireForm.ScalarSent | PDFScanner/Pods/nanopb/pb_encode.c:760-901 | What each scalar field type sends, byte by byte |
| WireForm.CStringEnds | PDFScanner/Pods/nanopb/pb_encode.c:864-888 | Of a string, what is in front of the first zero byte, or all of it |
| WireForm.OneNumberExample | PDFScanner/Pods/nanopb/pb_encode.c:660-698 | 150 in field 1 is sent as 08 96 01 |
| Interchange.EncodingSplits | PDFScanner/Pods/nanopb/pb_decode.c:943-1021 | The decoder takes the encoding of a readable message apart into exactly those records |
| Interchange.StrangerSkips | PDFScanner/Pods/nanopb/pb_decode.c:957-985 | A receiver that knows none of the fields, and requires none, reads the whole message and keeps its structure as it was |
| Varint.VarintRoundTrip | PDFScanner/Pods/nanopb/pb_encode.c:599-619 | `pb_decode_varint` reads back every 64-bit value from what `pb_encode_varint` wrote, in front of anything, taking exactly those bytes, at most 10 |
| Varint.VarintBytesMinimal | PDFScanner/Pods/nanopb/pb_encode.c:599-619 | A varint of at most k + 1 bytes is used exactly for the values below 2^(7(k+1)): the length is minimal |
| Varint.DecVarintLocal | PDFScanner/Pods/nanopb/pb_decode.c:255-275 | A 64-bit varint is decoded from its own bytes alone |
| Varint.Low64Step | PDFScanner/Pods/nanopb/pb_decode.c:255-275 | OR-ing one group into the 64-bit accumulator keeps it equal to the number read so far modulo 2^64, including the tenth group that is partly shifted out |
| Varint.Varint32Agrees | PDFScanner/Pods/nanopb/pb_decode.c:187-247 | On varints of at most 10 bytes the 32-bit decoder succeeds if and only if every group beyond bit 31 is empty or a sign extension, and then gives the low 32 bits of the 64-bit decoder and takes the same bytes |
| Varint.Varint32ReadsUnsigned | PDFScanner/Pods/nanopb/pb_decode.c:187-247 | The 32-bit decoder reads every encoded value below 2^32 |
| Varint.Varint32ReadsNegative | PDFScanner/Pods/nanopb/pb_decode.c:187-247 | The 32-bit decoder reads every sign-extended negative 32-bit value as its low 32 bits |
| Varint.Varint32Refuses | PDFScanner/Pods/nanopb/pb_decode.c:187-247 | The 32-bit decoder reads the encoding of no value from 2^32 up to 2^63 |
| Scalars.ZigZagBijection | PDFScanner/Pods/nanopb/pb_encode.c:621-630 | Zigzag maps int64 onto uint64 one to one, and the decoder of signed varints inverts it both ways |
| Scalars.IntegerFieldRoundTrip | PDFScanner/Pods/nanopb/pb_decode.c:1329-1412 | For widths 1, 2, 4 and 8 each of the varint, uvarint and svarint field codecs reads back every value of the width |
| Integers.IntegerRead | PDFScanner/Pods/nanopb/pb_decode.c:1329-1412 | An integer field takes a varint if and only if the number it stands for fits the variable (for a plain signed field of less than 64 bits, the low 32 bits of it), and then holds that number: one too large is refused and not cut off |
| Integers.IntegerSent | PDFScanner/Pods/nanopb/pb_encode.c:767-824 | The varint sent for a number, by arithmetic alone: a negative one as the two's complement of 64 bits, whatever the width of the field, or as -2n - 1 in a zigzag field |
| Integers.WidthsInterchange | PDFScanner/Pods/nanopb/pb_encode.c:767-824 | int32 and int64 are the same on the wire: fields of different widths send a number both can hold alike, and each reads it from the other |
| Integers.NegativeTakesTen | PDFScanner/Pods/nanopb/pb_encode.c:767-788 | A negative number in a plain field of any width takes ten bytes |
| Integers.ModulusIs | PDFScanner/Pods/nanopb/pb_decode.c:1329-1412 | An integer of k bytes takes 256^k values |
| Integers.BoolRead | PDFScanner/Pods/nanopb/pb_decode.c:1318-1327 | A bool field is true for every number but zero that the 32-bit varint decoder reads |
| Integers.FixedRead | PDFScanner/Pods/nanopb/pb_decode.c:1283-1315 | A 32-bit field is read from four bytes, and a 64-bit one from eight, least significant first |
| Integers.RunRead | PDFScanner/Pods/nanopb/pb_decode.c:1431-1548 | Bytes are read if and only if they and their length word fit, a string if and only if it leaves room for a terminator, a fixed-length field if and only if the run has its length or none, which stands for zeros; and all of the run is there |
| Integers.VarintExact | PDFScanner/Pods/nanopb/pb_decode.c:255-275 | A varint is read if and only if it ends within ten bytes, as the number its groups spell modulo 2^64 |
| Integers.VarintUnended | PDFScanner/Pods/nanopb/pb_decode.c:187-247 | Neither decoder reads a varint that the input ends in |
| Integers.VarintGroup | PDFScanner/Pods/nanopb/pb_encode.c:599-619 | Byte i of a varint holds bits 7i to 7i + 6 of the number, and its top bit says whether more follow |
| Integers.LittleEndianByte | PDFScanner/Pods/nanopb/pb_encode.c:632-658 | Byte i of a fixed-width number holds bits 8i to 8i + 7 |
| Scalars.FixedRoundTrip | PDFScanner/Pods/nanopb/pb_decode.c:1283-1315 | Little-endian 32- and 64-bit fields are read back in exactly 4 and 8 bytes |
| Scalars.LittleEndianRoundTrip | PDFScanner/Pods/nanopb/pb_encode.c:632-658 | k bytes hold every number below 256^k |
| Scalars.RunRoundTrip | PDFScanner/Pods/nanopb/pb_decode.c:1431-1501 | Bytes, string and fixed-length fields are read back; of a string, the part in front of its terminator |
| Scalars.StringReadBack | PDFScanner/Pods/nanopb/pb_decode.c:1468-1501 | The encoder accepts a string that fills its buffer; the decoder reads it back if and only if there was room for a terminator |
| Scalars.ScalarRoundTrip | PDFScanner/Pods/nanopb/pb_encode.c:760-901 | Every scalar field codec reads back every value its field can hold, taking exactly the bytes written |
| Scalars.DelimitRoundTrip | PDFScanner/Pods/nanopb/pb_decode.c:372-400 | A length-prefixed payload below 4 GiB is read back exactly |
| Scalars.DelimitExact | PDFScanner/Pods/nanopb/pb_decode.c:372-385 | A payload below 2^63 bytes is read back if and only if it is below 4 GiB |
| Scalars.DecScalarLocal | PDFScanner/Pods/nanopb/pb_decode.c:1318-1548 | A scalar is decoded from its own bytes alone |
| Framing.DecStepLocal | PDFScanner/Pods/nanopb/pb_decode.c:943-1021 | One turn of the main loop, nested messages included, reads no further than the record it handles |
| Framing.RunAfterRecords | PDFScanner/Pods/nanopb/pb_decode.c:943-1021 | After any run of accepted whole records the loop goes on as if it had started in the state they leave, with the byte counts adding up |
| WireRecords.SlotExact | PDFScanner/Pods/nanopb/pb_decode.c:406-480 | A well-typed record with a well-formed payload is decoded from its payload alone; when accepted, exactly the payload is consumed, however much of it an inner decode used |
| WireRecords.UnknownSkipped | PDFScanner/Pods/nanopb/pb_decode.c:278-331 | In any state of the loop, also in the middle of a fixed-count array, a well-formed record with an unlisted tag is skipped exactly |
| WireRecords.UnknownTransparent | PDFScanner/Pods/nanopb/pb_decode.c:957-985 | Inserting such a record at a record boundary changes neither verdict nor message; only the bytes consumed |
| Contents.SkipExact | PDFScanner/Pods/nanopb/pb_decode.c:321-331 | Exactly one payload is skipped: wire type 0 a varint, 1 eight bytes, 5 four bytes, 2 a length and that many bytes; the others, and what is cut short, are refused |
| Contents.StepWhole | PDFScanner/Pods/nanopb/pb_decode.c:957-1021 | Whatever one turn of the loop accepts is a whole record: a key, and a payload as long as the type of the field, or else the wire type, says |
| Contents.WireTypeIgnored | PDFScanner/Pods/nanopb/pb_decode.c:406-480 | The wire type of a record of a known field makes no difference, except that it tells packed arrays |
| Contents.AcceptedExactly | PDFScanner/Pods/nanopb/pb_decode.c:925-1073 | A decode succeeds if and only if the input consists of whole records, up to its end or a zero key, each is accepted in its turn, the last fixed-count array is complete, and every tracked required field was seen |
| Contents.LastValue | PDFScanner/Pods/nanopb/pb_decode.c:406-480 | A scalar field, or a union, holds the value in the payload of the last record for it |
| Contents.SingularStored | PDFScanner/Pods/nanopb/pb_decode.c:414-420 | A required or optional field takes a record if and only if its payload decodes, into what is stored there; the flag is set and no other field changes |
| Contents.UnionStored | PDFScanner/Pods/nanopb/pb_decode.c:1128-1152 | A union takes a record if and only if its payload decodes into the blank member and the union holds nothing or a member the descriptor lists |
| Contents.BlankIsUnset | PDFScanner/Pods/nanopb/pb_decode.c:466-475 | A submessage in a union or an array is decoded into its own defaults |
| Contents.SubmessageRecordsMerge | PDFScanner/Pods/nanopb/pb_decode.c:1503-1525 | Two records of a singular submessage, the first without a zero key in it, leave what one with their payloads joined leaves, if no fixed-count array in it is resumed |
| Contents.ArrayContents | PDFScanner/Pods/nanopb/pb_decode.c:422-464 | A counted array holds what it held and then all items that arrived, packed or not, in order, and never more than array_size |
| Contents.FixedFilled | PDFScanner/Pods/nanopb/pb_decode.c:988-1010 | A decode never leaves a fixed-count array incomplete: what arrives for it is a whole number of times its length |
| Contents.AbsentKept | PDFScanner/Pods/nanopb/pb_decode.c:925-1073 | A field that no record is for stays as it was, whatever else arrives |
| Contents.AbsentUnset | PDFScanner/Pods/nanopb/pb_decode.c:854-885 | After `pb_decode` a field that no record was for has its declared default, with or without a flag, and the zero of its type if none is declared; arrays are empty, unions hold nothing, and submessages have their own defaults throughout |
| Contents.DefaultMessage | PDFScanner/Pods/nanopb/pb_decode.c:836-919 | The default structure, field by field: flags cleared, declared defaults or zeros in place, counts zero, no union member, recursively |
| Merging.MergeWithoutFixed | PDFScanner/Pods/nanopb/pb_decode.c:925-1073 | Without fixed-count arrays the joined decode always succeeds, with the same structure |
| Merging.SubmessagesMerge | PDFScanner/Pods/nanopb/pb_decode.c:1503-1525 | Two occurrences of a singular submessage read like one whose payload is the two joined, with the same exception |
| Presence.SeenIffOccurring | PDFScanner/Pods/nanopb/pb_decode.c:1012-1017 | The index of a required field is marked if and only if its tag occurred among the records |
| Presence.RequiredCheck | PDFScanner/Pods/nanopb/pb_decode.c:1030-1070 | When all records and fixed counts are accepted, the decode succeeds if and only if each of the first 64 required fields occurred at least once |
| Presence.RequiredBeforeIs | PDFScanner/Pods/nanopb/pb_common.c:65-70 | The index the iterator counts is the number of required fields before the entry |
| Contents.RequiredArrive | PDFScanner/Pods/nanopb/pb_decode.c:1030-1070 | When all records and fixed counts are accepted, the decode succeeds if and only if there is a record for each required field with fewer than 64 others before it |
| Packing.PackedEqualsUnpacked | PDFScanner/Pods/nanopb/pb_decode.c:424-464 | For a static array with k entries, one packed record of n elements and n single records are both accepted if and only if k + n is at most array_size, and leave the same array, count and loop state, for n > 0. An empty packed record is like no record if and only if it does not start a fixed-count array |
| Packing.EmptyPackedRefused | PDFScanner/Pods/nanopb/pb_decode.c:991-1010 | An empty packed record for a fixed-count array of one number is refused at the end; no record is not |
| TypeSafety.DefaultsShape | PDFScanner/Pods/nanopb/pb_decode.c:836-919 | The structure reset to defaults has the type and bounds of its descriptor |
| WireRecords.FieldsCommute | PDFScanner/Pods/nanopb/pb_decode.c:1012-1021 | The payloads of two entries that share no storage, not both fixed-count arrays, can be handled in either order: both refuse or both lead to one state; on descriptors whose fixed-count arrays take the count a reset stores |
| WireRecords.RecordsCommute | PDFScanner/Pods/nanopb/pb_decode.c:943-1021 | Swapping two adjacent well-typed records of such entries changes neither success, nor message, nor bytes consumed, in any state of the loop and before any input; on the same descriptors |
| WireRecords.LastOneWins | PDFScanner/Pods/nanopb/pb_decode.c:406-480 | A record of a singular scalar field, or of a union member, makes an accepted earlier record of that field, or of any member of that union, as if it had not been there; on the same descriptors |
| Merging.MergeLaw | PDFScanner/Pods/nanopb/pb_decode.c:925-1073 | When a run of whole records and then a second input decode into the same structure, decoding them joined succeeds if and only if the first fixed-count array the second addresses is not the last one the first does; it then gives the same structure and consumes the sum |
| Merging.FixedIsLast | PDFScanner/Pods/nanopb/pb_decode.c:991-1010 | The fixed-count array the loop is filling is the last one the records addressed |
| Merging.JoinedRefused | PDFScanner/Pods/nanopb/pb_decode.c:991-1010 | An array of one number: a record decodes, and decodes again into the same structure, but the two joined are refused |
| TypeSafety.MsgKept | PDFScanner/Pods/nanopb/pb_decode.c:925-1073 | Type safety: decoding any accepted bytes keeps every slot of its field's type and within its bounds, counts within array_size; only fixed-count arrays may be without a value |
| FieldIterator.ResetInside | PDFScanner/Pods/nanopb/pb_decode.c:862-868 | A fixed-count array has its data where other arrays have a count, and resetting it stores a count there: no byte outside the array changes, whatever the memory, if and only if the array has at least four bytes |
| FieldIterator.SmallArrayOverwrites | PDFScanner/Pods/nanopb/pb_decode.c:862-868 | A smaller array, on an actual layout: resetting the array item it is in clears the field behind it, so that the order of the two records matters |
| FieldIterator.ItemInside | PDFScanner/Pods/nanopb/pb_decode.c:438-438 | The 32-bit offset of an item of a static array does not wrap, and the item lies inside the array |
| FieldIterator.OffsetsTelescope | PDFScanner/Pods/nanopb/pb.h:399-405 | For every layout, the deltas of the data-offset macros add up to the true offset and size-field address of each entry; union members share one |
| FieldIterator.FieldIter.Next | PDFScanner/Pods/nanopb/pb_common.c:20-76 | From any canonical state the iterator moves to the next entry, or wraps to the first, with pData, pSize and required_field_index those of the new position |
| FieldIterator.FieldIter.Find | PDFScanner/Pods/nanopb/pb_common.c:78-95 | From any position it finds the tag if and only if the descriptor has it; otherwise it makes one full turn and is back where it was |
| FieldIterator.FieldIter.Begin | PDFScanner/Pods/nanopb/pb_common.c:8-18 | Starts at the first entry in canonical state; false exactly for the empty message type |
| OutputStream.OStream.Write | PDFScanner/Pods/nanopb/pb_encode.c:103-121 | Succeeds if and only if the bytes fit; writes exactly them, or only counts on a sizing stream; no other byte changes |
| OutputStream.OStream.BufWrite | PDFScanner/Pods/nanopb/pb_encode.c:74-84 | The buffer is the old one with the bytes spliced in at the cursor |
| Encoder.EncodeVarint | PDFScanner/Pods/nanopb/pb_encode.c:599-619 | Writes exactly the varint of the value; the 10-byte buffer is never overrun |
| Encoder.EncodeSubmessage | PDFScanner/Pods/nanopb/pb_encode.c:708-756 | The sizing pass and the writing pass agree: the length prefix equals the body and the branch "submsg size changed" is unreachable; succeeds if and only if prefix and body fit |
| Encoder.EncodeArray | PDFScanner/Pods/nanopb/pb_encode.c:144-233 | Refuses exactly what is too long or does not encode or fit; packed length prefixes equal what follows |
| Encoder.CheckAllDefault | PDFScanner/Pods/nanopb/pb_encode.c:237-328 | The recursive proto3 check walks every field and finds whether all are at their zero value |
| Encoder.GetEncodedSize | PDFScanner/Pods/nanopb/pb_encode.c:558-567 | The size is the length of the encoding, and there is one if and only if the message encodes |
| Encoder.EncodeToBuffer | PDFScanner/Pods/nanopb/pb_encode.c:86-101 | Exact capacity: encoding to a buffer succeeds if and only if the encoded size is at most the capacity; the written prefix is the encoding and the rest is untouched |
| Encoder.EncodeNullTerminated | PDFScanner/Pods/nanopb/pb_encode.c:548-556 | The encoding followed by one zero byte |
| Encoder.EncodeDelimited | PDFScanner/Pods/nanopb/pb_encode.c:543-546 | The encoding behind its length, which is right, if and only if both fit |
| Encoder.EncodeMsg | PDFScanner/Pods/nanopb/pb_encode.c:519-541 | On both kinds of stream, given a message with nothing undetermined in what it sends: succeeds if and only if the message has an encoding and it fits; emits exactly it, which is the records of the message (`WireForm.EncodesAsRecords`); changes no byte outside what it wrote, even when it fails |
| InputStream.IStream.Read | PDFScanner/Pods/nanopb/pb_decode.c:102-137 | Succeeds exactly when enough bytes are left, gives them and moves past them |
| InputStream.IStream.MakeSubstream | PDFScanner/Pods/nanopb/pb_decode.c:372-385 | A window on exactly the next length-prefixed payload, which the parent gives away |
| InputStream.IStream.CloseSubstream | PDFScanner/Pods/nanopb/pb_decode.c:387-400 | The parent moves past the payload, whatever the reader of the window left over |
| InputStream.IStream.DecodeVarint32Eof | PDFScanner/Pods/nanopb/pb_decode.c:187-247 | The loop with its 8-bit shift counter, early exits and sign-extension checks reads what the 32-bit varint specification does; eof exactly at the end of the stream |
| InputStream.IStream.DecodeVarint | PDFScanner/Pods/nanopb/pb_decode.c:255-275 | The loop reads the number its groups spell modulo 2^64, and refuses exactly the varints that do not end in 10 bytes or in the stream |
| InputStream.IStream.SkipField | PDFScanner/Pods/nanopb/pb_decode.c:321-331 | Skips exactly one payload of the wire type, or refuses (`Contents.SkipExact`) |
| InputStream.IStream.DecodeScalar | PDFScanner/Pods/nanopb/pb_decode.c:1318-1548 | The decoders of the scalar field types, against their specification, of which `Integers` says which payloads they take and what they read |
| RequiredBitmap.OrBit | PDFScanner/Pods/nanopb/pb_decode.c:1012-1017 | OR-ing a shifted bit into a word adds exactly that element to the set of fields it stands for |
| RequiredBitmap.WordAllOnes | PDFScanner/Pods/nanopb/pb_decode.c:1051-1069 | A word equals its low r bits all set if and only if all r fields of its range were seen |
| Decoder.CountRequired | PDFScanner/Pods/nanopb/pb_decode.c:1030-1046 | From any position of the iterator, the number of required fields of the descriptor, at most 64 |
| Decoder.CheckRequired | PDFScanner/Pods/nanopb/pb_decode.c:1048-1070 | The word-wise check of the bitmap succeeds if and only if every tracked required field was seen |
| Decoder.PackedNext | PDFScanner/Pods/nanopb/pb_decode.c:424-450 | One element more of a packed array: what is left to read still decides the whole array |
| Decoder.DecodeSubmessage | PDFScanner/Pods/nanopb/pb_decode.c:1503-1525 | A nested decode on a window; the parent ends exactly behind the payload, whatever the inner decode used |
| Decoder.ReleaseUnionField | PDFScanner/Pods/nanopb/pb_decode.c:1128-1152 | Refuses exactly a union that holds a tag the descriptor does not know, and brings the iterator back to the new member |
| Decoder.DecodeRecord | PDFScanner/Pods/nanopb/pb_decode.c:957-1021 | One turn after the key, wherever the iterator was, is one step of the specification |
| Decoder.TrackNext | PDFScanner/Pods/nanopb/pb_decode.c:943-1021 | The loop invariant survives a record: what is left to read and the state reached still decide what the whole input comes to |
| Decoder.DecodeLoop | PDFScanner/Pods/nanopb/pb_decode.c:943-1021 | The main loop computes the fold of the specification over its input: same verdict, message, fixed-count state and bitmap, same bytes; the bytes left are its termination measure |
| Decoder.DecodeMsg | PDFScanner/Pods/nanopb/pb_decode.c:925-1073 | `pb_decode_noinit` with its bitmap, fixed-count cursor and cyclic search succeeds exactly when the specification does, with the same structure, consuming the same bytes, and never reads past the limit |
| Decoder.DecodeDelimited | PDFScanner/Pods/nanopb/pb_decode.c:1104-1117 | Decodes exactly the payload and moves exactly past length and payload |
| Decoder.DecodeStaticField | PDFScanner/Pods/nanopb/pb_decode.c:406-480 | Required, optional, repeated, packed and union fields, against their specification, with exact consumption |
| Decoder.SetToDefaults | PDFScanner/Pods/nanopb/pb_decode.c:836-919 | The structure is the default message whatever it held before: nothing set, every field at its declared default or the zero of its type, recursively; the data of fixed-count arrays, of which C overwrites the first four bytes and keeps the rest, is left undetermined |
| Decoder.DecodeInto | PDFScanner/Pods/nanopb/pb_decode.c:1075-1087 | `pb_decode`, into a structure of any contents, with the same proviso for fixed-count arrays that do not arrive |
| HeapMessages.MsgFrame | PDFScanner/Pods/nanopb/pb_decode.c:1154-1259 | A heap message depends on no block but those it owns |
| Ownership.MessageOwned | PDFScanner/Pods/nanopb/pb_decode.c:1154-1243 | The blocks a message owns are exactly those its pointers lead to: the block of every pointer that is not NULL, every string or bytes entry below the count of an array, and all that submessages below the count lead to; they are all allocated |
| Release.ReleaseMsg | PDFScanner/Pods/nanopb/pb_decode.c:1245-1259 | On any tree-shaped heap message, of recursive types too, frees exactly the blocks that following its pointers leads to, each once and while allocated, touches no other block, and leaves the cleared structure |
| Release.ReleaseSingleField | PDFScanner/Pods/nanopb/pb_decode.c:1154-1243 | The same for one field: exactly the blocks it leads to, a union only through the member it holds |
| Release.ReleaseEntries | PDFScanner/Pods/nanopb/pb_decode.c:1219-1231 | Every string or bytes entry of an array is freed once and set to NULL |
| Release.ClearedOwnsNothing | PDFScanner/Pods/nanopb/pb_decode.c:1245-1259 | What a release leaves is well-formed in any heap and owns nothing, so that a second release frees nothing |
| Release.PointersNull | PDFScanner/Pods/nanopb/pb_decode.c:1217-1242 | After a release each pointer field is NULL, dynamic counts are zero and unions hold the member they held |
| Release.NothingElse | PDFScanner/Pods/nanopb/pb_decode.c:1217-1242 | A release changes nothing in the structure but pointers, which become NULL, and the counts beside them; static counts, union tags and data stay |
| Release.NextField | PDFScanner/Pods/nanopb/pb_decode.c:1253-1258 | Releasing earlier fields leaves what later fields own as it was |
| Growable.AllocationCheck | PDFScanner/Pods/nanopb/pb_decode.c:504-519 | The half-width fast path and the division let non-zero sizes through if and only if their product is a size_t |
| Growable.AllocateField | PDFScanner/Pods/nanopb/pb_decode.c:487-530 | One request for exactly the product, unless that is zero or no size_t; succeeds if and only if it is met |
| Growable.DynamicArray.Allocate | PDFScanner/Pods/nanopb/pb_decode.c:487-530 | The block is resized to exactly the items asked for and keeps those it holds; nothing changes on failure |
| Growable.DynamicArray.Append | PDFScanner/Pods/nanopb/pb_decode.c:638-646 | The item goes where its 32-bit offset leads, which is inside the block, and is counted |
| Growable.AppendedExact | PDFScanner/Pods/nanopb/pb_decode.c:638-646 | An item is appended if and only if its offset fits in 32 bits; otherwise its own place is left without a value |
| Growable.AppendedAllExact | PDFScanner/Pods/nanopb/pb_decode.c:608-647 | The elements stored one after another are appended if and only if the offset of the last one fits in 32 bits |
| Growable.PackedAppended | PDFScanner/Pods/nanopb/pb_decode.c:608-647 | The same for the elements of a packed payload |
| Growable.LargePayloadWraps | PDFScanner/Pods/nanopb/pb_decode.c:638-638 | 2^29 + 1 one-byte varints for eight-byte elements: the last one overwrites the first, though every allocation was met |
| Growable.Guess | PDFScanner/Pods/nanopb/pb_decode.c:619-628 | Room for the least number of items that take all the bytes left, at dataSize each; one item more than before where a count could not hold so many |
| Growable.Reserve | PDFScanner/Pods/nanopb/pb_decode.c:617-635 | Memory is asked for when there is no room for one more item, and only then, in one request for the guessed number |
| Growable.RequestsBounded | PDFScanner/Pods/nanopb/pb_decode.c:608-647 | A request comes only after the earlier ones were met, and is for at most the items there were plus one for each byte of the payload |
| Growable.OneRequest | PDFScanner/Pods/nanopb/pb_decode.c:619-628 | A payload of whole fixed-width elements is allocated in a single request for exactly the final number of items |
| Growable.DecodeElements | PDFScanner/Pods/nanopb/pb_decode.c:608-647 | The loop makes exactly the requests `Requests` lists, and succeeds if and only if the payload is good, the count can hold all its elements and every request is met; size <= allocated_size <= PB_SIZE_MAX throughout |
| Growable.DecodePackedPointer | PDFScanner/Pods/nanopb/pb_decode.c:595-652 | The same for the whole record, with the stream exactly past the payload |
| Growable.DecodeRunPointer | PDFScanner/Pods/nanopb/pb_decode.c:1431-1501 | Strings and bytes with a block of their own: succeeds if and only if the size is good, that block is granted and the bytes are there |
| Growable.RunPointerRead | PDFScanner/Pods/nanopb/pb_decode.c:1431-1501 | A string or bytes entry is read if and only if all of it is there and one block is granted, for the size and the length word or for the size and a terminator |
| Growable.DecodeOnePointer | PDFScanner/Pods/nanopb/pb_decode.c:653-668 | One more item, scalar, submessage, string or bytes: succeeds if and only if the count can hold it, the block can grow by one item and the item is good |
| Release.ReleaseTwice | PDFScanner/Pods/nanopb/pb_decode.c:1245-1259 | Releasing a message twice frees exactly what releasing it once does |
| IndexSet.PositionUnique | PDFScanner/Pods/Realm/include/index_set.hpp:263-268 | Iterators are equal exactly if they are at the same position |
| IndexSet.ForthAndBack | PDFScanner/Pods/Realm/include/index_set.hpp:277-305 | ++ and then -- restores every iterator that is not at the end |
| IndexSet.BackAndForth | PDFScanner/Pods/Realm/include/index_set.hpp:277-305 | -- and then ++ restores every iterator that is not at the beginning |
| IndexSet.RangeIterator.Increment | PDFScanner/Pods/Realm/include/index_set.hpp:277-284 | One position further, also across a chunk boundary and onto the end |
| IndexSet.RangeIterator.Decrement | PDFScanner/Pods/Realm/include/index_set.hpp:294-305 | One position back, also across a chunk boundary and from the end |
| IndexSet.RangeIterator.NextChunk | PDFScanner/Pods/Realm/include/index_set.hpp:315-320 | At the position of the first range of the next chunk, or at the end |
| IndexSet.RangeAt | PDFScanner/Pods/Realm/include/index_set.hpp:47-48 | The range an iterator points at is the one at its position in the flat list of ranges |
| IndexSet.FlatMembers | PDFScanner/Pods/Realm/include/index_set.hpp:47-48 | The flat list has the ranges of all chunks and no others |
| IndexSet.IndexIterator.Increment | PDFScanner/Pods/Realm/include/index_set.hpp:199-207 | One index further, into the next range when the current one is used up |
| IndexSet.IndexIterator.Equals | PDFScanner/Pods/Realm/include/index_set.hpp:196-197 | Compares the ranges, not the offsets: it tells reliably whether the end is reached |
| IndexSet.IndicesMembers | PDFScanner/Pods/Realm/include/index_set.hpp:192-219 | An index is yielded if and only if some range contains it |
| IndexSet.IndicesAscending | PDFScanner/Pods/Realm/include/index_set.hpp:192-219 | The indices yielded are strictly ascending |
| IndexSet.AllIndexes | PDFScanner/Pods/Realm/include/index_set.hpp:221-235 | A traversal from begin to end yields every index of the ranges of all chunks once, in ascending order |

## Left out

- Callback fields, custom stream callbacks and the extension list: they run code that is not in the repository. Streams are memory buffers and the sizing stream.
- Pointer fields inside the codec proper: `Encoder` and `Decoder` cover static fields; heap arrays and the release of heap messages have modules of their own, which share descriptors, streams and items but not the message store.
- The release of a partly decoded message after a failed `pb_decode`.
- Build variants (`PB_WITHOUT_64BIT`, `PB_OLD_CALLBACK_STYLE`, `PB_ENCODE_ARRAYS_UNPACKED`, `PB_BUFFER_ONLY`, AVR).
- Recursive message types in the codec: descriptors are finite trees, since a static submessage cannot contain itself; the decoder's functions nevertheless terminate by the bytes left alone. `Release` does cover recursive types.
- Raw memory layout beyond offsets, `const` casts and floats: messages are slots per field, and floating-point fields are fixed-width bit patterns.
- Error message texts; every failure is `false`.
- Contents of the destination structure after a failed decode.
- Encoder.EncodeMsg: requires every length in what is sent to be below 2^64 (`MsgAddressable`), where C would wrap a `size_t`, and nothing undetermined in it (`SendableMsg`); both hold of every storable message (`Sending.StorableSendable`). Stream positions and counts are unbounded.
- ExactRoundTrip.RoundTripExact: payloads of submessages and packed arrays are below 2^63 bytes, the most an object can have; tags are below 2^29 as the wire format has it.
- Decoder.SetToDefaults: the data of fixed-count arrays is undetermined afterwards (`VStale`), where C zeroes its first four bytes and keeps the rest, and in a union member zeroes all of it. What lies beyond a count or behind a terminator is not part of a message.
- Decoding.DecSlot: a slot of the wrong shape is refused, so that the functions are total; `TypeSafety.MsgKept` shows that it does not arise.
- Decoder.DecodeRecord: in an empty message type, tag 0 reads a bool into storage that does not exist; the model consumes the bool and stores nothing, and does not set the bit C sets in a bitmap that is then not looked at.
- Release.ReleaseMsg: the depth to which the message is nested is a ghost parameter; structures inside a block are cleared before the block is freed and stored back once per block. A NULL destination is the caller's case of a NULL pointer.
- Growable.DecodePackedPointer: which requests the system allocator meets is a parameter, by size. The four-byte and wrapped-offset effects are modelled on items: one that is partly overwritten has no value.
- Declared-only `IndexSet` operations (`add_shifted`, `shift`, `insert_at`, `erase_at` and the rest): their bodies are not in the repository. The begin, end and count fields of a chunk are not used by the iterators.
- Realm `List::assign` and `Object::create`, and all other headers and application files.

# Verification model of the SodaqOne device firmware

This project models five parts of the firmware under `nodes/SodaqOneDevice` and proves
properties of them.

**The nanopb codec** (`pb_encode.c`, `pb_decode.c`, `pb_common.c`, `sensor.pb.c`). `Schema`
holds descriptor tables and the struct memory they describe, a map from member offsets to
contents. `EncodeSpec` and `DecodeSpec` say, as functions on byte sequences, what is written
for a struct and what is read from bytes. `Encoder`, `Decoder`, `Iterator` and `Bitmap` are
the imperative code: streams over byte arrays, substreams, the two-pass encoder, the
wrap-around field iterator and the bitmap of required fields, each method specified by those
functions. `ScalarCodec`, `RoundTrip`, `Canonical`, `Safety`, `Merge`, `Concat`, `Merged` and
`Transparent` prove the laws: the codec's round trip for every table, bounds on every input,
merging, unknown fields, required fields. `WireFormat` gives the bytes of every kind of field,
and the words and lengths that are accepted, in numbers. `Sensor` and `Alive` instantiate them
with the tables of `sensor.pb.c` and the alive message of `SodaqOneDevice.ino`. The wire format
is that of the Protocol Buffers Encoding guide, sections "Base 128 Varints", "Signed Integers",
"Message Structure", "Length-Delimited Records" and "Last One Wins".

**Calendar and daylight saving time** (`MyTime.cpp`). `Calendar` has a calendar that counts
days and the closed formulas of the code, with their unsigned wrap-around and truncating
division; `Clock` has `mktime` and the inverse formulas; `Dst` has the class `Time`.

**UBX framing** (`ublox.cpp`). `Ubx` has the sender, the receiving state machine and the
8-bit Fletcher checksum (RFC 1145, Appendix I, with sums modulo 256 as the code computes them).

**Stored configuration** (`Config.cpp`). `Crc` has the checksum and polynomial long division,
`Config` the class `ConfigParams` and its image in flash.

**The event scheduler** (`RTCTimer.cpp`). `Timer` has the events, the timer and whole runs.

`EndToEnd` puts the classes together: size, encode and decode; send and receive. `Bits` holds
machine words and arithmetic shared by all parts, `Wrappers` the option type.

## Where the code does something unexpected

- A string that fills its whole array is encoded, but the result never decodes
  (`RoundTrip.FullString`; `RoundTrip.MessageOk` says exactly when a round trip succeeds).
- A zero tag inside a submessage leaves the parent stream behind, because closing a substream
  does not skip what is left of it (`Concat.EarlyEnd`; `Concat.InStep` says exactly when).
- A tag that is cut off at the end of the input counts as a clean end; so does one of five
  bytes with continuation bits when they are the last ones (`Merge.CutOffKey` says exactly
  when).
- On an empty table a nonzero wire type with tag 0 meets the terminator, which the iterator
  takes for a field; decoding fails (`Merge.TagZero`).
- A union that directly follows another union is looked for at the wrong place
  (`Iterator.TwoUnions`; `Iterator.AllOffsetsIff` says exactly when the iterator is right).
- The wire type of a known field is looked at only when the field is a NULL callback, which is
  skipped by it, or a static array of scalars; any other field is read as its own type, even
  under a key that announces another one (`Sensor.WrongWireType`; `Merge.WireTypeIff` says
  exactly which fields look).
- Rules less than two hours apart, or with the end before the start, give no daylight saving
  time at all (`Dst.GapOnlyWhen`, `Dst.SouthernRules`).
- A stray 0xb5 in front of a message makes the receiver miss it, two of them do not, and
  neither does one that another byte follows (`Ubx.SyncRuns`): messages are missed exactly when
  the bytes before them end in an odd run of 0xb5 (`Ubx.StraySync`).
- A header with length 0, or one that is too large, makes the receiver write behind its payload
  buffer (`Ubx.OverrunIff` says exactly when).
- An event whose last time becomes 0 forgets its phase (`Timer.ZeroLosesPhase`;
  `Timer.UpdateNoticed` and `Timer.AdjustNoticed` say exactly when it shows).

## Model

| member | source | states |
|---|---|---|
| Varint.RoundTrip64 | nodes/SodaqOneDevice/pb_encode.c:414-434 | every 64-bit value is encoded in at most ten bytes, and decoding them, whatever follows, gives the value back and reads nothing more |
| Varint.EncodeLength | nodes/SodaqOneDevice/pb_encode.c:414-434 | an encoding has at most k bytes if and only if the value is below 2^(7k) |
| Varint.EncodeMinimal | nodes/SodaqOneDevice/pb_encode.c:414-434 | no varint with the same value is shorter than the one the encoder writes |
| Varint.DecodersAgree | nodes/SodaqOneDevice/pb_decode.c:171-238 | whenever the 32-bit decoder succeeds it returns the 64-bit decoder's value modulo 2^32 and reads the same bytes; the skipping loop reads exactly what a successful 64-bit decode reads |
| WireFormat.VarintBytes | nodes/SodaqOneDevice/pb_encode.c:414-434 | byte i of a varint holds bits 7i to 7i + 6 of the value, and the continuation bit unless it is the last |
| WireFormat.VarintsAccepted | nodes/SodaqOneDevice/pb_decode.c:171-238 | the 64-bit decoder succeeds if and only if one of the first ten bytes has no continuation bit, the 32-bit one if and only if one of the first five has none, and skipping if and only if any has none |
| Encoder.OStream.BufWrite | nodes/SodaqOneDevice/pb_encode.c:59-68 | the bytes are copied to the stream's place in the buffer, the rest of the buffer is unchanged and the place advances |
| Encoder.OStream.Write | nodes/SodaqOneDevice/pb_encode.c:87-105 | succeeds if and only if the data fits below max_size (always on a sizing stream), and then appends exactly the data; nothing outside the stream's window changes |
| Encoder.EncodeVarint | nodes/SodaqOneDevice/pb_encode.c:414-434 | appends the base 128 encoding of the value, or fails because it does not fit |
| Encoder.EncodeGroups | nodes/SodaqOneDevice/pb_encode.c:422-433 | the loop produces the groups of seven bits, least significant first, and ten bytes of buffer are enough |
| Encoder.ZigzagWord | nodes/SodaqOneDevice/pb_encode.c:436-445 | shifting and complementing the 64-bit word is the zigzag map on the signed value |
| Encoder.EncodeSvarint | nodes/SodaqOneDevice/pb_encode.c:436-445 | appends the varint of the zigzag value |
| Encoder.EncodeFixed32 | nodes/SodaqOneDevice/pb_encode.c:447-456 | appends the four bytes of the word, least significant first |
| Encoder.EncodeFixed64 | nodes/SodaqOneDevice/pb_encode.c:458-471 | appends the eight bytes of the word, least significant first |
| Encoder.EncodeTag | nodes/SodaqOneDevice/pb_encode.c:473-477 | the shifted and OR-ed key is tag times 8 plus wire type, and its varint is appended |
| Encoder.EncodeTagForField | nodes/SodaqOneDevice/pb_encode.c:479-509 | appends the key with the wire type of the field's type; fails for a type without one |
| WireFormat.KeyNumbers | nodes/SodaqOneDevice/pb_encode.c:473-509 | a key is the varint of tag times 8 plus 0 for a varint, 1 for 64 bits, 2 for a length-delimited payload and 5 for 32 bits |
| Encoder.EncodeString | nodes/SodaqOneDevice/pb_encode.c:511-517 | appends the length and the bytes |
| Encoder.EncScalar | nodes/SodaqOneDevice/pb_encode.c:571-635 | appends the value's payload at every data size that is supported, and fails for the others |
| WireFormat.ScalarNumbers | nodes/SodaqOneDevice/pb_encode.c:571-635 | the payload of every scalar type as a varint or as four or eight bytes, least significant first, with negative values in two's complement or zigzag |
| Encoder.EncBytes | nodes/SodaqOneDevice/pb_encode.c:637-654 | appends length and bytes if they fit data_size, and fails otherwise |
| Encoder.EncString | nodes/SodaqOneDevice/pb_encode.c:656-680 | appends the characters before the first NUL, or all of the array when there is none |
| Encoder.EncodeSubmessage | nodes/SodaqOneDevice/pb_encode.c:519-567 | measuring first and writing afterwards appends exactly the length and the nested message: the sizes of the two passes agree, and the nested stream ends where the parent continues |
| WireFormat.PayloadNumbers | nodes/SodaqOneDevice/pb_encode.c:511-680 | bytes, strings up to their NUL and submessages are their length as a varint and then themselves; bytes that do not fit data_size are an error |
| Encoder.EncodeMeasured | nodes/SodaqOneDevice/pb_encode.c:535-566 | the second pass writes exactly as many bytes as the first one counted |
| Encoder.EncodeArray | nodes/SodaqOneDevice/pb_encode.c:112-197 | packed and unpacked arrays: appends all items in order, fails if there are more than array_size |
| WireFormat.ArrayNumbers | nodes/SodaqOneDevice/pb_encode.c:112-197 | an array of scalars is one length-delimited record with all payloads in order, any other array one record an item |
| WireFormat.ArrayLimits | nodes/SodaqOneDevice/pb_encode.c:117-121 | an empty array writes nothing, and more than array_size entries are an error |
| Encoder.PackedSize | nodes/SodaqOneDevice/pb_encode.c:130-152 | the sizing pass over a packed array, with the shortcut for fixed-width items, gives the length of the items |
| Encoder.EncodePackedBody | nodes/SodaqOneDevice/pb_encode.c:154-178 | the length that was measured is followed by exactly that many bytes |
| Encoder.EncodeCallbackField | nodes/SodaqOneDevice/pb_encode.c:273-290 | a NULL callback writes nothing; a callback that encodes a submessage appends key, length and message |
| WireFormat.CallbackNumbers | nodes/SodaqOneDevice/pb_encode.c:273-290 | the bytes of the two callbacks, in numbers |
| Encoder.EncodeBasicField | nodes/SodaqOneDevice/pb_encode.c:201-269 | required, optional, repeated and oneof fields append what they hold and absent ones nothing |
| WireFormat.SingleNumbers | nodes/SodaqOneDevice/pb_encode.c:201-269 | a field with one value is written as its key and payload if it is present, and as nothing otherwise |
| Encoder.EncodeMessage | nodes/SodaqOneDevice/pb_encode.c:371-393 | pb_encode succeeds if and only if every field can be encoded and the bytes fit; it then has appended the bytes of all fields in table order and changed nothing else in the buffer; if it fails nothing outside its window has changed |
| WireFormat.MessageNumbers | nodes/SodaqOneDevice/pb_encode.c:371-393 | the bytes of a message are those of its fields in table order, and there are none if and only if one of its fields cannot be encoded |
| Encoder.GetEncodedSize | nodes/SodaqOneDevice/pb_encode.c:400-409 | the sizing run reports exactly the number of bytes the writing run appends, so that a buffer is large enough if and only if it has that many bytes |
| EndToEnd.SizeThenEncode | nodes/SodaqOneDevice/pb_encode.c:371-409 | on a buffer pb_encode succeeds if and only if its capacity is at least what pb_get_encoded_size reports, and fills exactly that many bytes |
| Decoder.IStream.Read | nodes/SodaqOneDevice/pb_decode.c:89-121 | takes the next bytes, or leaves the stream alone when there are fewer |
| Decoder.IStream.DecodeVarint32 | nodes/SodaqOneDevice/pb_decode.c:171-205 | value modulo 2^32 of at most five groups; five that all continue are an error, and so is running out of input |
| Decoder.IStream.DecodeVarint | nodes/SodaqOneDevice/pb_decode.c:207-227 | value modulo 2^64 of at most ten groups |
| Decoder.IStream.SkipVarint | nodes/SodaqOneDevice/pb_decode.c:229-238 | reads up to and including the first byte without continuation bit |
| Decoder.IStream.SkipString | nodes/SodaqOneDevice/pb_decode.c:240-247 | reads a length and that many bytes |
| Decoder.IStream.SkipField | nodes/SodaqOneDevice/pb_decode.c:275-285 | reads exactly the payload of wire type 0, 1, 2 or 5, and fails for any other |
| Decoder.IStream.DecodeTag | nodes/SodaqOneDevice/pb_decode.c:249-273 | number and wire type of the next key; a zero key ends the message, and so does input that runs out inside the key |
| Decoder.IStream.MakeSubstream | nodes/SodaqOneDevice/pb_decode.c:320-333 | the substream holds exactly the delimited bytes, the parent keeps its position and loses them from its budget |
| Decoder.DecFixed | nodes/SodaqOneDevice/pb_decode.c:1117-1148 | the OR of shifted bytes is the little-endian value of the word |
| Decoder.DecScalar | nodes/SodaqOneDevice/pb_decode.c:1150-1245 | succeeds if and only if the value fits the field; the destination stays a value of the field even when it does not |
| Decoder.DecBytes | nodes/SodaqOneDevice/pb_decode.c:1247-1282 | reads at most data_size bytes including the size member, at most 255 |
| Decoder.DecString | nodes/SodaqOneDevice/pb_decode.c:1284-1317 | reads a string only if its terminator fits too |
| Decoder.DecSubmessage | nodes/SodaqOneDevice/pb_decode.c:1319-1340 | decodes the nested message from the substream; the parent continues where the substream stopped |
| Decoder.DecodePackedField | nodes/SodaqOneDevice/pb_decode.c:362-382 | appends the packed items; items left over after the array is full are an error |
| Decoder.DecodeArray | nodes/SodaqOneDevice/pb_decode.c:359-396 | an array never grows beyond array_size, packed or not |
| Decoder.DecodeField | nodes/SodaqOneDevice/pb_decode.c:348-419 | the slot of the field becomes what the wire type and the field's rule say, and is within its bounds even after an error |
| Decoder.SetToDefaults | nodes/SodaqOneDevice/pb_decode.c:750-833 | every member is set to its default: the value its descriptor declares or zero, at every depth; optional ones absent, arrays empty, unions not set |
| Decoder.CountRequired | nodes/SodaqOneDevice/pb_decode.c:910-920 | walking the iterator to its end counts the required fields |
| Decoder.DecodeRound | nodes/SodaqOneDevice/pb_decode.c:855-904 | one round of the loop is one step of the specification, whatever the iterator's position and extension_range_start; it reads at least one byte |
| Decoder.DecodeNoInit | nodes/SodaqOneDevice/pb_decode.c:839-940 | agrees with the recursive specification on every byte string, ends, never moves past the budget's end, and keeps the struct within its bounds on success and on failure |
| Decoder.DecodeMessage | nodes/SodaqOneDevice/pb_decode.c:942-954 | the same from a struct that holds the defaults |
| Bitmap.FieldsSeen.Mark | nodes/SodaqOneDevice/pb_decode.c:895-901 | sets the bit of one required field and no other |
| Bitmap.FieldsSeen.AllOf | nodes/SodaqOneDevice/pb_decode.c:907-937 | the word and mask comparisons hold if and only if all of the required fields were met |
| Bitmap.LowBits | nodes/SodaqOneDevice/pb_decode.c:922-937 | a word has exactly its k low bits set if and only if the first k of its fields were met |
| Iterator.FieldIter.Next | nodes/SodaqOneDevice/pb_common.c:20-76 | keeps pData, pSize and required_field_index equal to direct functions of the table prefix; wraps to the first field after the last |
| Iterator.FieldIter.Find | nodes/SodaqOneDevice/pb_common.c:78-95 | succeeds if and only if some entry that is no extension has the tag, at the first such entry in circular order and within one lap; otherwise the position is unchanged |
| Iterator.OffsetIsOffsetof | nodes/SodaqOneDevice/pb_common.c:46-75 | for descriptors generated from a struct layout the incremental pointer is the member's offset: plain fields, arrays, pointers and unions, up to the first union that directly follows another one |
| Iterator.AllOffsetsIff | nodes/SodaqOneDevice/pb_common.c:44-73 | the pointer is right for every member if and only if no union directly follows another |
| Iterator.SecondUnionMisplaced | nodes/SodaqOneDevice/pb_common.c:46-52 | at the first such union the pointer is too low by the previous member's size and data_offset |
| Iterator.TwoUnions | nodes/SodaqOneDevice/pb.h:504-517 | a table of two unions in a row, whose second member is at 12 while the iterator looks at 4 |
| Schema.RequiredSteps | nodes/SodaqOneDevice/pb_common.c:65-70 | the index of a required field is smaller than every later count of required fields |
| ScalarCodec.ZigzagBijection | nodes/SodaqOneDevice/pb_encode.c:436-445 | zigzag and its inverse undo each other on all of int64 and uint64, and int32 is exactly what it maps into 32 bits |
| ScalarCodec.ScalarRoundTrip | nodes/SodaqOneDevice/pb_encode.c:571-635 | every value of every scalar type at widths 1, 2, 4 and 8 is read back from what is written for it |
| ScalarCodec.AcceptedWords | nodes/SodaqOneDevice/pb_decode.c:1187-1233 | unsigned and zigzag fields accept a word if and only if it is below the modulus of the field's width |
| ScalarCodec.ShortNegative | nodes/SodaqOneDevice/pb_decode.c:1150-1185 | a plain signed field of up to 32 bits reads a negative value from a 32-bit word as well as from a 64-bit one |
| ScalarCodec.LowBitsOnly | nodes/SodaqOneDevice/pb_decode.c:1150-1185 | such a field looks only at the low 32 bits of the word |
| WireFormat.LengthsAccepted | nodes/SodaqOneDevice/pb_decode.c:1247-1317 | a bytes field accepts at most 255 bytes that fit data_size with their size member, a string one that fits with its terminator, and nothing longer |
| WireFormat.WordsAccepted | nodes/SodaqOneDevice/pb_decode.c:1150-1233 | a varint field of 1, 2, 4 or 8 bytes accepts exactly the words whose value its type can hold at that width, and stores that value |
| WireFormat.Ranges | nodes/SodaqOneDevice/pb_decode.c:1150-1233 | the values of the signed, unsigned and zigzag types at widths 1, 2, 4 and 8, which the round trip covers |
| Decoder.AssembleIs | nodes/SodaqOneDevice/pb_decode.c:1117-1148 | assembling bytes by shift and OR gives their little-endian value |
| RoundTrip.MessageOk | nodes/SodaqOneDevice/pb_decode.c:839-954 | decoding what pb_encode wrote consumes every byte and yields the struct's normal form if and only if every string that was written leaves room for its terminator; otherwise it fails |
| RoundTrip.FullString | nodes/SodaqOneDevice/pb_decode.c:1284-1317 | a two-character string in a char array of two is encoded, and the four bytes do not decode |
| RoundTrip.FieldRound | nodes/SodaqOneDevice/pb_decode.c:348-419 | the records a field wrote are decoded into its normal form, with any bytes after them left unread |
| RoundTrip.UnpackedOk | nodes/SodaqOneDevice/pb_encode.c:180-194 | the records of an array that is not packed are decoded back into its items, in order |
| RoundTrip.PackedOk | nodes/SodaqOneDevice/pb_encode.c:125-178 | so is the body of a packed array |
| Canonical.ExactRoundTrip | nodes/SodaqOneDevice/pb_decode.c:942-954 | a struct within its bounds whose absent members are at their defaults can be encoded, and comes back unchanged with every byte consumed |
| Canonical.NormCanonical | nodes/SodaqOneDevice/pb_decode.c:750-833 | the normal form of such a struct, at every depth, is the struct itself |
| EndToEnd.EncodeThenDecode | nodes/SodaqOneDevice/pb_decode.c:942-954 | the two streams in a row: a struct within its bounds comes back unchanged unless the buffer is too small |
| Safety.DecodeSafe | nodes/SodaqOneDevice/pb_decode.c:348-419 | whatever bytes are decoded, a result has no array above array_size and no bytes or string above data_size, at any depth |
| Safety.LoopSafe | nodes/SodaqOneDevice/pb_decode.c:850-904 | every round of the loop keeps those bounds |
| Merge.MergeLaw | nodes/SodaqOneDevice/pb_decode.c:839-904 | for a table without required fields and A made of complete fields, decoding A followed by B equals decoding A and then B into the same struct, errors included |
| Merge.CompleteConsumed | nodes/SodaqOneDevice/pb_decode.c:850-904 | a stream of complete fields is read to its end or is an error |
| Merge.UnknownTransparent | nodes/SodaqOneDevice/pb_decode.c:864-893 | inserting a whole unknown field at a field boundary does not change the outcome |
| Transparent.UnknownAtAnyDepth | nodes/SodaqOneDevice/pb_decode.c:864-893 | so does inserting it inside a submessage, at any depth, when every enclosing length counts it |
| Transparent.InsideAlike | nodes/SodaqOneDevice/pb_decode.c:1319-1340 | two submessage contents that decode alike, with the same bytes left unread, make no difference to the enclosing message either, whatever follows and whatever it is decoded into |
| Merge.SkipConsumes | nodes/SodaqOneDevice/pb_decode.c:275-285 | skipping reads exactly the payload of wire types 0, 1, 2 and 5, and fails for every other |
| Merge.LastOneWins | nodes/SodaqOneDevice/pb_decode.c:356-419 | a second record of a scalar, bytes, string or union field erases the first |
| Merge.RepeatedAppends | nodes/SodaqOneDevice/pb_decode.c:359-396 | a record of an array appends to what is there, packed or not, as long as there is room |
| Merge.RequiredIff | nodes/SodaqOneDevice/pb_decode.c:895-937 | on decodable complete fields pb_decode_noinit succeeds if and only if every required tag occurs, in any order and number |
| Merge.CutOffKey | nodes/SodaqOneDevice/pb_decode.c:249-273 | a key ends the message if and only if it is zero or the input is one to five continuation bytes, which are dropped; it is an error if and only if the input is longer and its first five bytes all continue |
| Merge.TagZero | nodes/SodaqOneDevice/pb_decode.c:855-893 | tag 0 with a nonzero wire type is an error on an empty table and an unknown field on any other |
| Merge.WireTypeIff | nodes/SodaqOneDevice/pb_decode.c:348-419 | two wire types can give different results if and only if the field is a NULL callback or a static array of scalars |
| Merge.WireTypeIgnored | nodes/SodaqOneDevice/pb_decode.c:348-419 | any other field decodes the same bytes to the same result under every wire type |
| Sensor.WrongWireType | nodes/SodaqOneDevice/sensor.pb.c:13-16 | a varint for the id of a SensorReading is accepted under the wire type of a 32-bit word |
| Concat.MessageComplete | nodes/SodaqOneDevice/pb_encode.c:371-393 | what pb_encode writes is a stream of complete fields for the same table |
| Merged.EncodingsMerge | nodes/SodaqOneDevice/pb_decode.c:839-954 | decoding two encodings in a row yields the second struct merged into the first: later values win, arrays grow, submessages merge; it fails if and only if the merge does not fit |
| Merged.MergeOk | nodes/SodaqOneDevice/pb_decode.c:839-904 | decoding an encoding without initialising the destination merges the struct into it, for every destination and every table with required fields too |
| Merged.MergedAt | nodes/SodaqOneDevice/pb_decode.c:348-419 | a field outside unions holds the merge of its two slots if the second message has it, and is unchanged otherwise |
| Merged.ArraysAppend | nodes/SodaqOneDevice/pb_decode.c:359-396 | arrays of scalars and bytes are appended as long as array_size allows |
| Merged.MergedIntoDefaults | nodes/SodaqOneDevice/pb_decode.c:942-954 | merging into the defaults is the normal form of the round trip |
| Concat.EarlyEnd | nodes/SodaqOneDevice/pb_decode.c:335-342 | a zero tag inside a submessage makes the parent read on inside it, and as many bytes at the parent's end are never read |
| Concat.InStep | nodes/SodaqOneDevice/pb_decode.c:335-342 | the parent of a submessage that decodes is in step behind it if and only if the submessage consists of whole fields, at any depth, with no zero or cut-off key before its end |
| Concat.WholeIff | nodes/SodaqOneDevice/pb_decode.c:850-904 | the decoding loop reads its input to the end in step if and only if the input is such a stream, whatever the destination holds |
| Concat.CompleteWhole | nodes/SodaqOneDevice/pb_decode.c:850-904 | streams of complete fields are such streams |
| Sensor.ReadingLayout | nodes/SodaqOneDevice/sensor.pb.c:13-27 | the SensorReading table finds the members of its struct and their has_ variables |
| Sensor.ReadingRecord | nodes/SodaqOneDevice/sensor.pb.c:13-27 | member i of a SensorReading is written as the byte 8 (i + 1) and a varint: of the value for id and error, of the zigzag value for the ten others |
| Sensor.ReadingSize | nodes/SodaqOneDevice/sensor.pb.c:13-27 | every SensorReading can be encoded, in at most 97 bytes |
| Sensor.ReadingSizeReached | nodes/SodaqOneDevice/sensor.pb.h:79 | the bound 97 is reached |
| Sensor.ReadingRoundTrip | nodes/SodaqOneDevice/sensor.pb.c:13-27 | a SensorReading with absent members at zero comes back unchanged |
| Alive.StructBytes | nodes/SodaqOneDevice/SodaqOneDevice.ino:1566-1594 | the struct a sensor callback fills in is encoded as the id and either the value or the error flag, in at most eight bytes |
| Alive.StructSays | nodes/SodaqOneDevice/SodaqOneDevice.ino:1566-1594 | that struct has the id, and either the value or an error of 1, at the members id, value1 and error, and nothing in the other nine |
| Alive.NodeBytes | nodes/SodaqOneDevice/SodaqOneDevice.ino:1585-1593 | a callback contributes one length-delimited field 1 |
| Alive.Sender.Append | nodes/SodaqOneDevice/SodaqOneDevice.ino:449-463 | each pb_encode on the shared stream succeeds, appends its reading behind the earlier ones and updates the size |
| Alive.Sender.UpdateAliveSendBuffer | nodes/SodaqOneDevice/SodaqOneDevice.ino:421-538 | for every combination of valid and invalid sensors, values and retries, the encodings succeed and the buffer starts with at most 60 bytes that decode to five readings, or six if there were retries: ids 2, 3, 4, 5, 6 and 8 with temperature, humidity, voltage, current, charge and retries, each a value or, from an invalid sensor, an error of 1; the rest of the buffer is unchanged |
| Alive.AliveReceived | nodes/SodaqOneDevice/SodaqOneDevice.ino:421-538 | the same of the message for any receiver with room for six readings, and that its struct is exactly the one with these readings |
| Alive.ReadingsReceived | nodes/SodaqOneDevice/sensor.pb.c:29-32 | a receiver whose NodeMessage has a static array of readings in place of the callback receives any number up to its capacity, in order |
| Alive.ReadingsTold | nodes/SodaqOneDevice/SodaqOneDevice.ino:1566-1780 | different readings are received as different structs |
| Calendar.DayByDay | nodes/SodaqOneDevice/MyTime.cpp:39-47 | the reference calendar counts the days one by one, from 1 January 1970 |
| Calendar.YearClosed | nodes/SodaqOneDevice/MyTime.cpp:39-47 | counting year by year, forwards or backwards, equals the divisions by 4, 100 and 400 |
| Calendar.DayClosed | nodes/SodaqOneDevice/MyTime.cpp:39-47 | the 153-day rule for months that start in March equals adding up month lengths |
| Calendar.EraFloor | nodes/SodaqOneDevice/MyTime.cpp:41-42 | the adjustment for negative years makes the truncating division a floor |
| Calendar.DaysFromCivilCorrect | nodes/SodaqOneDevice/MyTime.cpp:39-47 | whenever no signed operation overflows, days_from_civil is the plain day count as a uint32_t, for negative years and any day of the month |
| Calendar.WeekdayCorrect | nodes/SodaqOneDevice/MyTime.cpp:49-51 | the weekday of a day number, negative ones included: weekdays follow each other from Thursday, 1 January 1970 |
| Calendar.WeekdayDifferenceCorrect | nodes/SodaqOneDevice/MyTime.cpp:53-56 | the wrapped difference is the number of days from one weekday to the next occurrence of the other |
| Calendar.LastDayCorrect | nodes/SodaqOneDevice/MyTime.cpp:62-69 | length of each month |
| Calendar.NthWeekdayCorrect | nodes/SodaqOneDevice/MyTime.cpp:71-76 | a day of the month on the wanted weekday: the nth such day for n up to 4, the last one for n = 5 |
| Clock.MkTimeCorrect | nodes/SodaqOneDevice/MyTime.cpp:109-117 | whenever no signed operation overflows, mktime is the plain count of seconds as a uint32_t; day 0 is the last day of the month before |
| Clock.SecondBySecond | nodes/SodaqOneDevice/MyTime.cpp:109-117 | that count goes up by one from each second of a day to the next, over minutes, hours and days, from 00:00:00 on 1 January 1970 |
| Clock.MkTimeDefined | nodes/SodaqOneDevice/MyTime.cpp:109-117 | none overflows while the seconds fit a signed 32-bit word |
| Clock.EraYearCorrect | nodes/SodaqOneDevice/MyTime.cpp:133-137 | the corrected division gives the year of the era that contains the day |
| Clock.CivilFromDays | nodes/SodaqOneDevice/MyTime.cpp:129-143 | year, month, day and day of the year are those of the day number |
| Clock.DayNumberInjective | nodes/SodaqOneDevice/MyTime.cpp:129-147 | two valid dates with the same day number are equal |
| Dst.GetDstTime | nodes/SodaqOneDevice/MyTime.cpp:71-89 | the instant at which a clock, the given hours ahead, shows the rule's full hour on the day that the rule names: the week-th of its weekdays in its month, or the last one for week 5; the borrowed hour included |
| Dst.TakesEffectOnce | nodes/SodaqOneDevice/MyTime.cpp:71-89 | the rule names one day, so that is one instant in a year |
| Dst.Time.DstWindow | nodes/SodaqOneDevice/MyTime.cpp:91-99 | after the call the window runs from the instant at which the first rule takes effect in standard time to the one at which the second does in summer time, computed or cached |
| Dst.Time.LocalTime | nodes/SodaqOneDevice/MyTime.cpp:119-154 | the fields show the instant plus offset as a uint32_t, and an hour more exactly when the object has rules and the instant is inside its window |
| Dst.MkTimeOfLocal | nodes/SodaqOneDevice/MyTime.cpp:109-154 | mktime takes what localtime shows at any instant in 31 bits back to that instant |
| Dst.LocalOfMkTime | nodes/SodaqOneDevice/MyTime.cpp:109-154 | localtime shows the date and time of day from which mktime computed an instant |
| Dst.GapAndOverlap | nodes/SodaqOneDevice/MyTime.cpp:78-128 | of all 2^32 instants none shows a reading in the hour after the start rule's time, exactly two show each reading in the hour before the end rule's time, and exactly one shows any other |
| Dst.FieldsTell | nodes/SodaqOneDevice/MyTime.cpp:119-154 | the fields of localtime name a date and time of day if and only if the instant shows that reading |
| Dst.GapOnlyWhen | nodes/SodaqOneDevice/MyTime.cpp:91-128 | there is daylight saving time, and the gap, if and only if the end comes at least two hours after the start; otherwise every instant shows standard time |
| Dst.SummerRules | nodes/SodaqOneDevice/MyTime.cpp:78-99 | rules with at least a month between them are that far apart in every year |
| Dst.SouthernRules | nodes/SodaqOneDevice/MyTime.cpp:78-99 | rules whose end comes in an earlier month than their start never give daylight saving time |
| Ubx.Send | nodes/SodaqOneDevice/ublox.cpp:228-244 | what goes on the wire is 0xb5 0x62, the data and its Fletcher checksum modulo 256 |
| Ubx.PollBytes | nodes/SodaqOneDevice/ublox.cpp:228-244 | the bytes that are sent for the poll of message 0x0107 |
| Ubx.UBlox.Process | nodes/SodaqOneDevice/ublox.cpp:110-171 | the object follows the nine-state machine, byte by byte; it synchronises on 0xb5 0x62, and returns the message's id or minus its state |
| Ubx.HeaderBytes | nodes/SodaqOneDevice/ublox.cpp:110-146 | the four bytes behind 0xb5 0x62 are class and number of the message and its length, low byte first, and a length is in range from 1 to 256, or to 2 for 0x0500 and 0x0501 |
| Ubx.Running | nodes/SodaqOneDevice/ublox.cpp:228-235 | the running 8-bit sums are the plain and the weighted sum modulo 256 |
| Ubx.RunFollows | nodes/SodaqOneDevice/ublox.cpp:110-171 | at every moment of a run with headers in range, state, sums and stored data are those of the bytes since the last synchronisation |
| Ubx.NeverOverrun | nodes/SodaqOneDevice/ublox.cpp:136-153 | with headers in range no byte is stored outside the payload buffer or AckedId_ |
| Ubx.OverrunIff | nodes/SodaqOneDevice/ublox.cpp:130-153 | after a header any payload of the announced length can be stored if and only if that length is in range; otherwise exactly as many bytes as there is room for, a length of 0 counting as 65536 |
| Ubx.SentIsDelivered | nodes/SodaqOneDevice/ublox.cpp:110-171 | a sent message of 1 to 256 payload bytes leads from state 0 to state 0; the id is returned at the last byte, nothing positive before, and the payload is stored intact |
| Ubx.StreamDelivered | nodes/SodaqOneDevice/ublox.cpp:110-171 | for any sequence of messages sent to a receiver in state 0 the positive results are exactly their ids, in order, and it ends in state 0 |
| Ubx.NoiseThenStream | nodes/SodaqOneDevice/ublox.cpp:110-119 | behind any bytes in which no 0x62 comes while one is awaited, all messages are reported in order, except those that come while the receiver is waiting; it ends in state 0 unless it is left waiting |
| Ubx.StraySync | nodes/SodaqOneDevice/ublox.cpp:110-119 | such bytes lose a message if and only if they end in an odd run of 0xb5; then only the next message is lost, unless that one leaves the receiver waiting again |
| Ubx.NoiseState | nodes/SodaqOneDevice/ublox.cpp:110-119 | behind such bytes the receiver is in state 1 if and only if they end in an odd run of 0xb5, in state 0 otherwise, and has reported nothing |
| Ubx.SyncRuns | nodes/SodaqOneDevice/ublox.cpp:110-119 | one 0xb5 leaves the receiver waiting; two of them do not, and neither does one followed by another byte |
| Ubx.NoSyncQuiet | nodes/SodaqOneDevice/ublox.cpp:110-119 | a message without a second 0xb5 does not leave it waiting, nor does it look as if another message began in it |
| Ubx.PositiveMeansFrame | nodes/SodaqOneDevice/ublox.cpp:154-170 | a positive return means that the bytes just received end in a frame with a right checksum, whose message is stored |
| Ubx.ChecksumDecides | nodes/SodaqOneDevice/ublox.cpp:154-170 | after the head of a message its id is returned if and only if the next two bytes are its checksum |
| Ubx.DamageRejected | nodes/SodaqOneDevice/ublox.cpp:110-171 | a message with one payload byte changed, or two unequal neighbours swapped, is never accepted |
| EndToEnd.SendThenProcess | nodes/SodaqOneDevice/ublox.cpp:110-171 | feeding process with what send emits returns the id at the last byte and leaves the payload in the buffer, or the acknowledged id in AckedId_ for an ACK or NAK |
| Crc.Crc16 | nodes/SodaqOneDevice/Config.cpp:44-59 | the loops compute the register that is fed byte by byte, and the result is the remainder of the data, as a polynomial over GF(2) times x^16, by x^16 + x^12 + x^5 + 1 |
| Crc.CrcIsRemainder | nodes/SodaqOneDevice/Config.cpp:44-59 | the register is that remainder, by long division with the 17 coefficients of the divisor |
| Crc.OnlyCrc | nodes/SodaqOneDevice/Config.cpp:44-59 | no other 16-bit word is |
| Crc.CrcOfOne | nodes/SodaqOneDevice/Config.cpp:51 | the single byte 1 has the CRC 0x1021 |
| Crc.AdjacentChangeDetected | nodes/SodaqOneDevice/Config.cpp:44-59 | a change confined to two adjacent bytes alters the result |
| Crc.OwnCrc | nodes/SodaqOneDevice/Config.cpp:44-59 | data followed by its own result, high byte first, gives 0 |
| Config.SettingsOfImage | nodes/SodaqOneDevice/Config.cpp:61-70 | the fields survive the copy to memory and back |
| Config.AcceptedCommitted | nodes/SodaqOneDevice/Config.cpp:61-70 | read accepts stored bytes if and only if they are what commit writes for the settings they hold |
| Config.AcceptedOnFlash | nodes/SodaqOneDevice/Config.cpp:61-70 | read accepts stored bytes if and only if they are, for some settings, 0xBEEF, the members at their places with the least significant byte first, and the remainder of all that; the settings are then these |
| Config.DamageNoticed | nodes/SodaqOneDevice/Config.cpp:61-70 | damage to any one or two adjacent covered bytes makes read reset |
| Config.OneByteNoticed | nodes/SodaqOneDevice/Config.cpp:61-70 | so does damage to any single stored byte, the CRC included |
| Config.ConfigParams.Read | nodes/SodaqOneDevice/Config.cpp:61-70 | the settings become those stored if such bytes are on flash; otherwise they are reset to the factory settings, and a commit is needed |
| Config.ConfigParams.Reset | nodes/SodaqOneDevice/Config.cpp:72-107 | every member gets its factory value: interval 15, timeout 120, upload count 1, repeat count 5, keys of characters 0, zero elsewhere; the frame counters stay, and the callback is applied to the result |
| Config.ConfigParams.Commit | nodes/SodaqOneDevice/Config.cpp:112-124 | writes 0xBEEF, the members at their places and the CRC if forced or needed, and nothing otherwise |
| Config.ConfigParams.CommitThenRead | nodes/SodaqOneDevice/Config.cpp:61-124 | settings that were committed are read back unchanged |
| Timer.DueIff | nodes/SodaqOneDevice/RTCTimer.cpp:48 | the signed comparison holds if and only if a period has passed and the clock is not half its range beyond that |
| Timer.PhaseKept | nodes/SodaqOneDevice/RTCTimer.cpp:45-73 | an update leaves the last time less than a period behind the clock and on the same grid of times |
| Timer.RTCTimer.CatchUp | nodes/SodaqOneDevice/RTCTimer.cpp:54-57 | the loop ends, with the last time moved by the whole number of periods that have passed |
| Timer.RTCTimer.UpdateEvent | nodes/SodaqOneDevice/RTCTimer.cpp:45-73 | at most one call of the callback, made with the time now if and only if the event is due; the event counts and is freed as specified |
| Timer.RepeatsExactly | nodes/SodaqOneDevice/RTCTimer.cpp:45-73 | over any run with other events, additions, clock changes and either mode: an event with repeat count n that was called k times keeps its slot and count before the nth call, and is freed for good at the nth; without noMultipleEvents it is called exactly as often as updates find it due, but n - k times at most |
| Timer.CalledWhenDue | nodes/SodaqOneDevice/RTCTimer.cpp:45-73 | the calls of an event, with or without a limit: at exactly the times of those updates, in order |
| Timer.OncePerPeriod | nodes/SodaqOneDevice/RTCTimer.cpp:45-73 | while the clock is not set and runs for less than half its range, the updates that find an event due are exactly the first ones in each period of its grid |
| Timer.CalledEveryPeriod | nodes/SodaqOneDevice/RTCTimer.cpp:45-90 | in such a run a callback that is added at some time with a period is called at exactly the first update in each interval of that length from one period later on, as often as its repeat count allows |
| Timer.AddedStarts | nodes/SodaqOneDevice/RTCTimer.cpp:75-90 | an event that is added starts so in the slot that every returns, with no calls |
| Timer.RTCTimer.Every | nodes/SodaqOneDevice/RTCTimer.cpp:75-90 | the first free slot holds the new event with the given period, callback and repeat count, no calls yet and now as its last time, and the other slots are unchanged; nothing changes when there is no free slot |
| Timer.RTCTimer.ResetAll | nodes/SodaqOneDevice/RTCTimer.cpp:98-105 | the last time of every active event becomes now |
| Timer.RTCTimer.ClearAllEvents | nodes/SodaqOneDevice/RTCTimer.cpp:107-112 | all events are freed |
| Timer.RTCTimer.Adjust | nodes/SodaqOneDevice/RTCTimer.cpp:114-130 | the last time of every active event moves with the clock |
| Timer.RTCTimer.Update | nodes/SodaqOneDevice/RTCTimer.cpp:140-152 | one round over all events in order, which ends at the first due one when only one is allowed |
| Timer.RTCTimer.UpdateFromClock | nodes/SodaqOneDevice/RTCTimer.cpp:132-138 | a clock reading of 0 does nothing, any other one is a round of updates |
| Timer.TickEach | nodes/SodaqOneDevice/RTCTimer.cpp:140-152 | a round updates every active event once and calls exactly the due ones in order; with noMultipleEvents only the first due one changes and only its callback is called |
| Timer.JumpsNotNoticed | nodes/SodaqOneDevice/RTCTimer.cpp:114-152 | over any run whose times do not decrease, with any number of clock changes that are told to adjust, the same callbacks are called in the same order as if the clock had never been set, each with the time the set clock then shows, as long as no clock that is set shows 0 or wraps around from the oldest last time on |
| Timer.SameCalls | nodes/SodaqOneDevice/RTCTimer.cpp:114-152 | the same for runs in any order of times that never meet a time 0 |
| Timer.UpdateNoticed | nodes/SodaqOneDevice/RTCTimer.cpp:48-58 | one update tells two clocks apart if and only if the event is due and stays, exactly one last time is 0, and no whole number of periods has passed |
| Timer.AdjustNoticed | nodes/SodaqOneDevice/RTCTimer.cpp:114-130 | one clock change is exact if and only if neither the old clock nor the last time is 0, or the last time is now |
| Timer.ZeroKeepsGrid | nodes/SodaqOneDevice/RTCTimer.cpp:50-58 | a due event with last time 0 keeps its grid of times if and only if now lies on it |
| Timer.ZeroLosesPhase | nodes/SodaqOneDevice/RTCTimer.cpp:50-52 | a run in which a last time has become 0 and a call is lost |

## Left out

- Pointer fields, `PB_ENABLE_MALLOC`, extensions and `PB_OLD_CALLBACK_STYLE`: not compiled or not used on this device.
- Encoder.EncodeCallbackField: callbacks that do anything other than write their field's key and a submessage, which is what all callbacks of this firmware do; on decoding, a callback field is skipped as with a NULL callback.
- Decoder.SetToDefaults: a callback member becomes NULL in the model, whereas the code leaves it alone, because a callback that is called while decoding is not modelled.
- Alive.ReadingsReceived: the receiver's table, with a static array in place of the callback, is the model's own; the device has no decoding callback.
- Message tables that contain themselves: a table is a finite tree here, although decoding ends by its number of bytes and not by the depth of the table.
- Tables whose number of required fields is 64 or more, or a nonzero multiple of 32: the final check shifts a 32-bit word by 32 there, which C leaves undefined (`nodes/SodaqOneDevice/pb_decode.c:934`).
- Overflow of `size_t`: sizes are natural numbers; messages whose bytes number 2^32 or more are outside the round trip because lengths are read as 32-bit words.
- Error message strings: an error is a flag.
- Nested structs are decoded in a copy that is written back, not in place inside the parent; array entries beyond the count, the data of a union that is not set, and the bytes of a bytes field or string that could not be read completely are not tracked (the model only says that they stay within their bounds).
- A callback or function pointer is what it does: for encoding, the struct it encodes; for the configuration, what it makes of the settings; for the timer, a name in a log. A timer callback that changes the timer itself is not modelled.
- The debug output and the float arithmetic of the sensor drivers: the values after the cast to `int32_t` are inputs.
- `Time::dstfirst`, `Time::dstlast`, rule names and rule minutes, which the code does not use.
- The window that `Time` uses before `dstwindow` has been called for a year: `xdst` is uninitialised until then, and 0 in the model.
- Ubx.SentIsDelivered: lengths from 1 to 256 only (1 to 2 for ACK and NAK); any other header makes the receiver leave the buffer (`Ubx.OverrunIff`), so such headers are outside `Ubx.Good`, and what the stray writes do is not modelled.
- Ubx.NoiseThenStream: bytes in which 0xb5 0x62 occurs may start a message of their own; for those only `Ubx.RunFollows` and `Ubx.PositiveMeansFrame` hold.
- Timer.RTCTimer.UpdateEvent: periods from 1 to 2^31 - 1 only; with period 0 the catching-up loop does not end. Other periods can be stored, but such a timer is not updated.
- The checksum variables that `UBlox::process` keeps in static storage are fields of the receiver: two receivers that share them are not modelled.
- The events embedded in an `RTCTimer` are values in its array, and `RTCEvent::update` is a method of the timer on an index.
- The two bytes of padding behind the stored CRC, and erasing and page writes of the flash: flash is a byte array.
- The I2C transport, polling and dispatch of the GPS receiver, the RN2483 module, LEDs, watchdog, RTC and sleep: hardware and I/O.
- Ring buffer, data records, boot menu and command tables, and everything outside `nodes/SodaqOneDevice`: they would only add easy members or wiring.

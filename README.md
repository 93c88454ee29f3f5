# CTE codec core in Dafny

This project models the core of the Compact Transaction Encoding (CTE) library from
LEA-Blockchain's cte-core repository. A CTE transaction is a version byte (0xF1) followed by
fields. Each field starts with a header byte:

- bits 7..6 are a 2-bit tag;
- bits 5..2 are a 4-bit count or detail code;
- bits 1..0 are a 2-bit crypto type or IxData sub-type.

There are four kinds of field:

- public-key lists and signature lists: 1..15 items of a size fixed by the crypto type;
- IxData fields: a legacy index, a zero/ULEB128/SLEB128 varint, a fixed-width little-endian
  value, or a boolean constant;
- command data: a payload of up to 1197 bytes behind a 1-byte (short) or 2-byte (extended)
  length header.

The model follows the three C files of the core and the revision of the format they implement:
the crypto-type, legacy-index and command-data revision.

- `cte.dfy` (module `Cte`): the constants of cte.h, the integer widths, and an `Error` value for
  every distinct `lea_abort` of the C code. `lea_abort` becomes an `Err`/`Failed` outcome.
- `size_table.dfy` (`SizeTable`): the two item-size tables of cte.c.
- `fields.dfy` (`Fields`): how header bytes are packed and taken apart, the peek classifier's
  switch, and the command-data length header, both written and parsed.
- `fixed_width.dfy` (`FixedWidth`): little-endian two's-complement payloads of 1, 2, 4 and 8
  bytes.
- `varint.dfy` (`Varint`): the LEB128 byte strings `_encode_uleb128` and `_encode_sleb128`
  emit, and the functions that specify `_decode_uleb128` and `_decode_sleb128` byte by byte.
  These include the 10-byte cap and the overflow checks.
- `bits.dfy` (`Bits`): powers of two and the C code's 64-bit left shifts, wrap-around included.
- `encoder.dfy` (`CteEncoder`): `cte_encoder_t` as a class with a `buffer` array, a `capacity` and
  a `position`.
  - Every writer is a method whose `ensures` give the new contents: the old data plus the field's
    bytes.
  - Each writer also states exactly when it succeeds, which error it reports, and the position
    and bytes after a failure.
  - The LEB128 loops are `while` loops with invariants.
- `decoder.dfy` (`CteDecoder`): `cte_decoder_t` as a class with `data`, `size`, `position`,
  `lastListCount` and `lastCmdLen`.
  - Each reader is a method proved equal to a pure reader function on the data.
  - Those functions are proved to read back what the encoder writes.
  - The LEB128 decoding loops are `while` loops proved against `Varint.DecodeULeb128` and
    `Varint.DecodeSLeb128`.
- `transaction.dfy` (`Transaction`): a transaction as a sequence of `Field` values, with their
  bytes (`Encode`) and the decoder read field by field by header kind (`Decode`).
  - The main theorem is `Decode(Encode(fields)) == Ok(fields)` for every transaction the
    writers accept that fits the size cap.
  - A second theorem instantiates it on the 13-field transaction of test.c.
- `writer.dfy` (`FieldWriter`): the caller's side of the encoder, as test.c drives it. One field
  at a time goes through its encoder call, and the caller copies list items and command payloads
  into the region that call reserves. Writing a whole transaction is proved to leave
  `Encode(fields)` in the encoder.

Returned addresses are offsets into the buffer. Float fields carry their IEEE 754 bytes unchanged.

## Model

| member | source | states |
|---|---|---|
| SizeTable.PublicKeySize | cte.c:10-26 | defined exactly for codes 0..3; sizes lie between 32 and 64 (48 for SLH-DSA-192f); any other code gives InvalidTypeCode |
| SizeTable.SignatureItemSize | cte.c:38-52 | 64 for Ed25519 and the same 32-byte hash for all three SLH-DSA codes; any other code gives InvalidTypeCode |
| SizeTable.ListPayloadFits | cte.c:10-52 | every valid type has non-empty items in both tables, and the largest list of either kind fits a transaction |
| Fields.ListItemSize | encoder.c:138 | a list's item size exists exactly for crypto types 0..3, otherwise InvalidTypeCode, and lies between 32 and 64 bytes for either list kind |
| Fields.ListHeaderFields | encoder.c:143 | a list header built from a valid tag, count and type gives back that tag, count and type |
| Fields.IxDataHeaderFields | encoder.c:192 | an IxData header built from a detail code and sub-type gives back the IxData tag, the detail and the sub-type |
| Fields.Packed | cte.h:31-35 | a 2 + 4 + 2 bit packing fits a byte, and the field extractors invert it |
| Fields.HeaderFromFields | decoder.c:363-461 | every list or IxData byte is the header its own fields describe, so the decoder's view of a header loses nothing |
| Fields.VarintHeaderBytes | encoder.c:205 | the ULEB128 and SLEB128 headers are 0x85 and 0x89 |
| Fields.ConstantHeaderBytes | encoder.c:280-296 | true is 0x87 and false is 0x83 |
| Fields.FixedHeaderByte | encoder.c:53-72 | the header of fixed type code c is 0x82 + 4c |
| Fields.Classify | decoder.c:363-461 | list tags map to the id of their crypto code; tag 11 maps to short or extended by bit 0x20; the result is -1 exactly for a reserved IxData code (varint ≥ 3, fixed ≥ 10, constant ≥ 2); otherwise it is the IxData kind's id |
| Fields.ClassifyWrittenHeaders | decoder.c:363-461 | every header the encoder writes is classified as the kind it was written as, never as -1 |
| Fields.CommandDataHeader | encoder.c:298-334 | a header exists exactly for lengths ≤ 1197, otherwise CommandLengthOutOfRange; it is 1 byte up to 31 and 2 bytes beyond |
| Fields.ExtendedHeaderByteFields | encoder.c:320-326 | the first extended byte has the command tag, the extended flag, zero padding and the length's bits 10..8 |
| Fields.ExtendedHeaderByteCanonical | decoder.c:232-245 | every first byte with the extended prefix and zero padding is one the encoder writes |
| Fields.ShortHeaderByteFields | encoder.c:310-318 | a short header has the command tag, a clear flag and the length in its low 5 bits |
| Fields.ShortHeaderByteCanonical | decoder.c:226-230 | every short header byte is the one the encoder writes for its length |
| Fields.ParseCommandDataHeader | decoder.c:216-263 | the header size is within the data and is 1 exactly for lengths ≤ 31, else 2; the length is ≤ 1197; a missing header happens only for empty data or a lone extended first byte; the errors are tag, padding and extended length |
| Fields.CommandHeaderRoundTrip | decoder.c:216-263 | the parser reads back the length and header size the encoder wrote, whatever follows |
| Fields.ShortHeaderRoundTrip | decoder.c:226-230 | a short header parses as its length with a 1-byte header |
| Fields.ExtendedHeaderRoundTrip | decoder.c:232-260 | an extended header parses as its length with a 2-byte header |
| Fields.CommandHeaderCanonical | decoder.c:216-263 | a header the parser accepts is the encoder's header for that length, so each length has one encoding |
| Fields.ExtendedHeaderForShortLengthRejected | decoder.c:247-255 | an extended header for length 31 or 2047 is refused with InvalidExtendedLength, and set padding with NonZeroPadding |
| FixedWidth.FromLittleEndianOfLittleEndian | decoder.c:186-207 | reading back the little-endian bytes of a value that fits gives the value |
| FixedWidth.LittleEndianOfFromLittleEndian | encoder.c:53-72 | the little-endian form of a value is unique |
| FixedWidth.TwosComplement | encoder.c:229-248 | the pattern fits the width; it equals x for x ≥ 0 and has its top bit set for x < 0 |
| FixedWidth.FromTwosComplement | decoder.c:638-683 | the value is in the signed range and is negative exactly when the top bit is set |
| FixedWidth.TwosComplementRoundTrip | decoder.c:638-683 | two's complement and back gives the signed value |
| FixedWidth.FromTwosComplementRoundTrip | encoder.c:229-248 | signed value and back gives the bit pattern |
| FixedWidth.FixedTypeWidth | encoder.h:125-215 | width 0 exactly for reserved codes ≥ 10; otherwise 1, 2, 4 or 8 |
| FixedWidth.LittleEndian | encoder.c:70-71 | the payload of a fixed field has exactly `width` bytes |
| FixedWidth.FromLittleEndian | decoder.c:204-206 | the value of `width` little-endian bytes is below 256^width |
| FixedWidth.SignedBytes | encoder.c:229-248 | a signed value that fits takes exactly `width` bytes |
| FixedWidth.SignedValue | decoder.c:638-683 | the signed value of n bytes is in the n-byte signed range |
| FixedWidth.SignedRoundTrip | decoder.c:638-683 | a signed fixed payload reads back as the value written |
| FixedWidth.SignedBytesInjective | encoder.c:229-248 | two signed values with the same bytes are equal |
| FixedWidth.ExampleBytes | encoder.h:135-141 | -1 in two bytes is FF FF; 0x1234 is 34 12, least significant first |
| Varint.SLeb128EndsIff | encoder.c:40 | the encoder's stop test holds exactly for values in -64..63 |
| Varint.ULeb128Shape | encoder.c:10-26 | every ULEB128 encoding is continuation bytes closed by one byte with bit 7 clear |
| Varint.SLeb128Shape | encoder.c:28-51 | every SLEB128 encoding has the same shape |
| Varint.ULeb128Length | encoder.c:10-26 | a value below 2^(7k) takes at most k bytes, so a uint64 takes at most 10 |
| Varint.SLeb128Length | encoder.c:28-51 | a value in [-2^(7k-1), 2^(7k-1)) takes at most k bytes, so an int64 takes at most 10 |
| Varint.ULeb128Group | decoder.c:113-139 | the loop body at byte i: it fails exactly on a tenth byte ≥ 2 (ULeb128Overflow); a last group is the byte's low 7 bits and fits the remaining bits; a continuation carries its 7 bits |
| Varint.SLeb128Group | decoder.c:147-176 | the loop body at byte i: it fails exactly on a tenth continuation byte (SLeb128Overflow); a last group is sign-extended within the remaining signed range |
| Varint.SLeb128LastValue | decoder.c:160-170 | a last group is sign-extended from bit 6; at the tenth byte only its bit 0 survives, as the sign |
| Varint.ULeb128From | decoder.c:113-139 | a successful read takes 1 to 10 - i bytes of the data and gives a value within the remaining bits; the only errors are ReadPastEnd and ULeb128Overflow |
| Varint.SLeb128From | decoder.c:147-176 | the same for the signed read, within the signed range; the errors are ReadPastEnd and SLeb128Overflow |
| Varint.ULeb128FromTakesRun | decoder.c:113-139 | the bytes a successful read takes are exactly one run of continuation bytes closed by a last byte |
| Varint.SLeb128FromTakesRun | decoder.c:147-176 | the same for the signed read |
| Varint.DecodeULeb128 | decoder.c:113-139 | the value is a uint64 and the read takes 1..10 bytes |
| Varint.DecodeSLeb128 | decoder.c:147-176 | the value is an int64 and the read takes 1..10 bytes |
| Varint.ULeb128PassResume | decoder.c:118-138 | one pass of the loop agrees with the whole read: its abort is the read's error, its return is the read's value, and going on keeps the outcome |
| Varint.SLeb128PassResume | decoder.c:152-175 | the same for the signed loop |
| Varint.ULeb128PassGroup | decoder.c:118-138 | the checks of one unsigned pass are the cases of ULeb128Group, with the group or-ed in at shift 7i |
| Varint.SLeb128PassGroup | decoder.c:152-175 | the checks of one signed pass are the cases of SLeb128Group, with sign extension while the shift is below 64 |
| Varint.ULeb128FirstGroup | decoder.c:113-139 | the decoder's loop body reads the encoder's first byte as the last group or as the low 7 bits followed by the encoding of v / 128 |
| Varint.SLeb128FirstGroup | decoder.c:147-176 | the same for SLEB128 and arithmetic shift |
| Varint.ULeb128FromEncoding | decoder.c:113-139 | from byte i, the encoding of any value that fits decodes to that value and takes exactly its length |
| Varint.SLeb128FromEncoding | decoder.c:147-176 | the same for SLEB128 |
| Varint.ULeb128RoundTrip | encoder.c:10-26 | decoding `_encode_uleb128`'s bytes for any uint64, whatever follows, gives the value and consumes exactly those bytes |
| Varint.SLeb128RoundTrip | encoder.c:28-51 | decoding `_encode_sleb128`'s bytes for any int64 gives the value and consumes exactly those bytes |
| Varint.NonMinimalULeb128Accepted | decoder.c:113-139 | the decoder accepts the padded zero 80 00, which the encoder never writes |
| Varint.ULeb128TenthByteOverflow | decoder.c:126-130 | after nine continuation bytes, a tenth byte other than 00 or 01 is an overflow |
| Varint.SLeb128TenContinuationsOverflow | decoder.c:165-170 | ten continuation bytes are an SLEB128 overflow |
| Varint.TenContinuationBytesRejected | decoder.c:113-176 | ten 0x80 bytes fail both decoders |
| Varint.ReferenceVarints | test.c:57-63 | 123456 is C0 C4 07 and -78910 is C2 97 7B, and both decode back |
| Bits.ShiftLeft64 | decoder.c:131 | `(uint64_t)x << s` is below 2^64 |
| Bits.ShiftLeft64Signed | decoder.c:158 | `(int64_t)x << s` is in the int64 range |
| Bits.ShiftLeft64Fits | decoder.c:131 | a shift whose result stays below 2^64 loses no bit |
| Bits.ShiftLeft64NoWrap | decoder.c:158 | a shift whose result stays below 2^63 loses no bit and keeps the sign |
| Bits.ShiftLeft64Top | decoder.c:158 | a 7-bit group shifted by 63 keeps only its bit 0, which lands on the sign bit |
| CteEncoder.Encoder.constructor | encoder.c:74-90 | a new encoder of the given capacity holds the version byte at position 1 |
| CteEncoder.Encoder.Init | encoder.c:74-90 | it succeeds exactly for capacity ≥ 1 (otherwise InvalidCapacity), and the data is then the version byte alone |
| CteEncoder.Encoder.Reset | encoder.c:92-103 | the data is the version byte alone; the capacity and the bytes after index 0 are unchanged |
| CteEncoder.Encoder.GetData | encoder.c:105-113 | the data has get_size bytes and starts with the version byte |
| CteEncoder.Encoder.GetSize | encoder.c:115-123 | the size is between 1 and the capacity |
| CteEncoder.Encoder.BeginList | encoder.c:125-177 | the count 1..15, then the type code, then the capacity are checked before any write; on success the header goes at the old position, N·size bytes are reserved, and the offset after the header is returned |
| CteEncoder.Encoder.BeginPublicKeyList | encoder.c:125-150 | BeginList's promise for tag 00 and the public-key table |
| CteEncoder.Encoder.BeginSignatureList | encoder.c:152-177 | BeginList's promise for tag 01 and the signature table |
| CteEncoder.Encoder.WriteIxDataIndexReference | encoder.c:179-194 | an index above 15 is IndexOutOfRange before the capacity is checked; otherwise the one byte 0x80 \| index << 2 is appended if it fits |
| CteEncoder.Encoder.PutHeaderByte | encoder.c:191-193 | one byte is appended exactly when it fits; otherwise CapacityExceeded and nothing changes |
| CteEncoder.Encoder.WriteIxDataBoolean | encoder.c:279-296 | 0x87 or 0x83 is appended exactly when one byte fits |
| CteEncoder.Encoder.WriteFixedData | encoder.c:53-72 | a type code ≥ 10 is ReservedFixedType; otherwise header and payload are appended exactly when both fit, and nothing changes on failure |
| CteEncoder.Encoder.WriteSigned | encoder.c:229-248 | the header and the value's two's-complement bytes are appended exactly when 1 + width bytes fit; otherwise CapacityExceeded and nothing changes |
| CteEncoder.Encoder.WriteUnsigned | encoder.c:249-268 | the header and the value's little-endian bytes are appended exactly when 1 + width bytes fit; otherwise CapacityExceeded and nothing changes |
| CteEncoder.Encoder.WriteIxDataInt8 | encoder.c:229-233 | succeeds exactly when 2 bytes fit, appending 0x82 and the value's byte; otherwise CapacityExceeded with the position and bytes unchanged |
| CteEncoder.Encoder.WriteIxDataInt16 | encoder.c:234-238 | succeeds exactly when 3 bytes fit, appending 0x86 and the 2 little-endian bytes; otherwise CapacityExceeded with the position and bytes unchanged |
| CteEncoder.Encoder.WriteIxDataInt32 | encoder.c:239-243 | succeeds exactly when 5 bytes fit, appending 0x8A and 4 bytes; otherwise CapacityExceeded with the position and bytes unchanged |
| CteEncoder.Encoder.WriteIxDataInt64 | encoder.c:244-248 | succeeds exactly when 9 bytes fit, appending 0x8E and 8 bytes; otherwise CapacityExceeded with the position and bytes unchanged |
| CteEncoder.Encoder.WriteIxDataUint8 | encoder.c:249-253 | succeeds exactly when 2 bytes fit, appending 0x92 and the byte; otherwise CapacityExceeded with the position and bytes unchanged |
| CteEncoder.Encoder.WriteIxDataUint16 | encoder.c:254-258 | succeeds exactly when 3 bytes fit, appending 0x96 and 2 bytes; otherwise CapacityExceeded with the position and bytes unchanged |
| CteEncoder.Encoder.WriteIxDataUint32 | encoder.c:259-263 | succeeds exactly when 5 bytes fit, appending 0x9A and 4 bytes; otherwise CapacityExceeded with the position and bytes unchanged |
| CteEncoder.Encoder.WriteIxDataUint64 | encoder.c:264-268 | succeeds exactly when 9 bytes fit, appending 0x9E and 8 bytes; otherwise CapacityExceeded with the position and bytes unchanged |
| CteEncoder.Encoder.WriteIxDataFloat32 | encoder.c:269-273 | succeeds exactly when 5 bytes fit, appending 0xA2 and the 4 float bytes; otherwise CapacityExceeded with the position and bytes unchanged |
| CteEncoder.Encoder.WriteIxDataFloat64 | encoder.c:274-278 | succeeds exactly when 9 bytes fit, appending 0xA6 and the 8 double bytes; otherwise CapacityExceeded with the position and bytes unchanged |
| CteEncoder.Encoder.EmitULeb128 | encoder.c:10-26 | the loop writes the value's ULEB128 bytes at the offset and returns their count, exactly when the check before each byte passes; it never writes at or past the capacity |
| CteEncoder.Encoder.EmitSLeb128 | encoder.c:28-51 | the same for SLEB128 |
| CteEncoder.Encoder.WriteIxDataULeb128 | encoder.c:196-210 | with the intended check, 0x85 and the ULEB128 bytes are appended exactly when they fit |
| CteEncoder.Encoder.WriteIxDataULeb128AsWritten | encoder.c:196-210 | with the check as written, the field is appended exactly when it fits with the position counted twice |
| CteEncoder.Encoder.WriteIxDataSLeb128 | encoder.c:212-226 | with the intended check, 0x89 and the SLEB128 bytes are appended exactly when they fit |
| CteEncoder.Encoder.WriteIxDataSLeb128AsWritten | encoder.c:212-226 | with the check as written, the position is counted twice |
| CteEncoder.Encoder.WriteULeb128Field | encoder.c:196-210 | with the capacity check taking `base` extra bytes, 0x85 and the ULEB128 bytes are appended exactly when that check passes |
| CteEncoder.Encoder.WriteSLeb128Field | encoder.c:212-226 | the same for 0x89 and the SLEB128 bytes |
| CteEncoder.Encoder.BeginCommandData | encoder.c:297-334 | it succeeds exactly for length ≤ 1197 with header and payload within capacity; otherwise CommandLengthOutOfRange or CapacityExceeded with nothing changed; the header goes at the old position, and the returned offset is right after it, length bytes before the new position |
| CteEncoder.VarintCheckCountsPositionTwice | encoder.c:16 | at capacity 10 and position 5, a zero fits, but the check as written refuses it |
| CteEncoder.VarintCheckAsWrittenStricter | encoder.c:35 | whatever the check as written accepts, the intended check accepts too; a field that fits but ends within the last `position` bytes is refused by the check as written only |
| CteDecoder.IxDataHeaderAt | decoder.c:90-105 | success means a byte was left, with the IxData tag and the expected sub-type, and the read moves one byte |
| CteDecoder.ListAt | decoder.c:473-548 | success means tag, count 1..15 and known type; the items start at p + 1; header and N·size items end within the data; the errors are ReadPastEnd, UnexpectedTag and InvalidListLength |
| CteDecoder.IndexReferenceAt | decoder.c:557-569 | the index is ≤ 15 and the read takes one byte |
| CteDecoder.ULeb128FieldAt | decoder.c:578-600 | a uint64 whose field takes at least 2 bytes within the data, or one of the listed errors |
| CteDecoder.SLeb128FieldAt | decoder.c:609-631 | an int64 whose field takes at least 2 bytes within the data, or one of the listed errors |
| CteDecoder.FixedFieldAt | decoder.c:186-207 | the payload is the width bytes right after the header, and the read ends after them |
| CteDecoder.SignedFieldAt | decoder.c:638-683 | the value is in the width's signed range, and the read takes 1 + width bytes |
| CteDecoder.UnsignedFieldAt | decoder.c:690-735 | the value is below 256^width, and the read takes 1 + width bytes |
| CteDecoder.BooleanAt | decoder.c:770-793 | the read takes one byte; the errors include ReservedConstant |
| CteDecoder.VarintZeroAt | decoder.c:831-845 | the read takes one byte, with scheme 0 checked |
| CteDecoder.CommandPayloadAt | decoder.c:804-829 | the payload is ≤ 1197 bytes, starts after the header and ends within the data |
| CteDecoder.PeekTypeAt | decoder.c:342-462 | it fails exactly at position 0 with a wrong version byte; it moves only from 0 to 1; it returns 0xFF exactly at the end; otherwise it returns the classification of the byte there |
| CteDecoder.ListRoundTrip | decoder.c:473-548 | a list header the encoder writes, followed by its items, reads back as that count with the items right after it |
| CteDecoder.ListAtHeader | decoder.c:473-505 | a valid list header whose items fit reads as its count and offset |
| CteDecoder.IndexReferenceRoundTrip | decoder.c:557-569 | a legacy index reads back as itself in one byte |
| CteDecoder.ULeb128FieldRoundTrip | decoder.c:578-600 | a ULEB128 field reads back as its value and ends right after its bytes |
| CteDecoder.SLeb128FieldRoundTrip | decoder.c:609-631 | an SLEB128 field reads back as its value, e.g. the -78910 of test.c |
| CteDecoder.FixedFieldRoundTrip | decoder.c:186-207 | a fixed field reads back as its payload |
| CteDecoder.SignedFieldRoundTrip | decoder.c:638-683 | a signed fixed field reads back as its value |
| CteDecoder.UnsignedFieldRoundTrip | decoder.c:690-735 | an unsigned fixed field reads back as its value |
| CteDecoder.BooleanRoundTrip | decoder.c:770-793 | a boolean reads back as itself |
| CteDecoder.VarintZeroOnly | decoder.c:831-845 | the zero-varint reader accepts exactly the byte 0x81 |
| CteDecoder.BooleanOnly | decoder.c:770-793 | the boolean reader accepts exactly 0x83 and 0x87, reads 0x87 as true, and refuses a constant header of code ≥ 2 with ReservedConstant |
| CteDecoder.FixedFieldOnly | decoder.c:186-207 | the fixed reader accepts exactly the header of the expected type code ≤ 9 with its payload in bounds; a header of another code is UnexpectedFixedType, and a reserved code asked for is ReservedFixedType |
| CteDecoder.CommandPayloadRoundTrip | decoder.c:804-829 | a payload after the encoder's header for its length reads back with its offset and length |
| CteDecoder.ReadersAtEnd | decoder.c:10-14 | at the end of the data every reader fails: ReadPastEnd, or no command header |
| CteDecoder.ReadersCheckTag | decoder.c:30-34 | a header of another tag is refused with UnexpectedTag |
| CteDecoder.PeekWrittenHeader | decoder.c:342-462 | past the version byte the peek reports the kind of the IxData header the encoder wrote and consumes nothing |
| CteDecoder.Decoder.constructor | decoder.c:276-296 | a new decoder of an accepted size is at position 0 with both last values 0 |
| CteDecoder.Decoder.Init | decoder.c:276-296 | it succeeds exactly for sizes 1..1232; size 0 gives ZeroSize and a larger size gives SizeTooLarge |
| CteDecoder.Decoder.Load | decoder.c:307-311 | the buffer holds the caller's bytes |
| CteDecoder.Decoder.Reset | decoder.c:322-330 | the position is 1, and the data and size are unchanged |
| CteDecoder.Decoder.PeekHeaderByte | decoder.c:70-81 | -1 exactly at the end, otherwise a byte |
| CteDecoder.Decoder.PeekType | decoder.c:342-462 | the result and new position are PeekTypeAt's; an error leaves the position where it was |
| CteDecoder.Decoder.ConsumeIxDataHeader | decoder.c:90-105 | the result is IxDataHeaderAt's; success moves one byte, and an error leaves the position where it was |
| CteDecoder.Decoder.ReadList | decoder.c:473-548 | the result is ListAt's; on success the position moves past the list and lastListCount is N; on failure nothing changes |
| CteDecoder.Decoder.ReadPublicKeyListData | decoder.c:473-505 | ReadList for tag 00 |
| CteDecoder.Decoder.ReadSignatureListData | decoder.c:516-548 | ReadList for tag 01 |
| CteDecoder.Decoder.ReadIxDataIndexReference | decoder.c:557-569 | the result and new position are IndexReferenceAt's; an error leaves the position where it was |
| CteDecoder.Decoder.ReadIxDataBoolean | decoder.c:770-793 | the result and new position are BooleanAt's; after an error the position is one past an accepted header, otherwise unchanged |
| CteDecoder.Decoder.ReadIxDataVarintZero | decoder.c:831-845 | the result and new position are VarintZeroAt's; after an error the position is one past an accepted header, otherwise unchanged |
| CteDecoder.Decoder.DecodeULeb128 | decoder.c:113-139 | the loop's result and final position are those of `Varint.DecodeULeb128` on the bytes from the position; after an error it has moved at most 10 bytes |
| CteDecoder.Decoder.DecodeSLeb128 | decoder.c:147-176 | the loop's result and final position are those of `Varint.DecodeSLeb128`; after an error it has moved at most 10 bytes |
| CteDecoder.Decoder.ReadIxDataULeb128 | decoder.c:578-600 | the result and new position are ULeb128FieldAt's; after an error the position is unchanged exactly when the header was refused, and at most 11 bytes on |
| CteDecoder.Decoder.ReadIxDataSLeb128 | decoder.c:609-631 | the result and new position are SLeb128FieldAt's; after an error the position is unchanged exactly when the header was refused, and at most 11 bytes on |
| CteDecoder.Decoder.ReadFixedData | decoder.c:186-207 | the result and new position are FixedFieldAt's; after an error the position is one past an accepted header, otherwise unchanged |
| CteDecoder.Decoder.ReadSigned | decoder.c:638-683 | the result and new position are SignedFieldAt's; after an error the position is one past an accepted header, otherwise unchanged |
| CteDecoder.Decoder.ReadUnsigned | decoder.c:690-735 | the result and new position are UnsignedFieldAt's; after an error the position is one past an accepted header, otherwise unchanged |
| CteDecoder.Decoder.ReadIxDataInt8 | decoder.c:638-644 | an int8 and a 2-byte advance, as SignedFieldAt; after an error the position is one past an accepted header, otherwise unchanged |
| CteDecoder.Decoder.ReadIxDataInt16 | decoder.c:651-657 | an int16 and a 3-byte advance; after an error the position is one past an accepted header, otherwise unchanged |
| CteDecoder.Decoder.ReadIxDataInt32 | decoder.c:664-670 | an int32 and a 5-byte advance; after an error the position is one past an accepted header, otherwise unchanged |
| CteDecoder.Decoder.ReadIxDataInt64 | decoder.c:677-683 | an int64 and a 9-byte advance; after an error the position is one past an accepted header, otherwise unchanged |
| CteDecoder.Decoder.ReadIxDataUint8 | decoder.c:690-696 | a uint8 and a 2-byte advance, as UnsignedFieldAt; after an error the position is one past an accepted header, otherwise unchanged |
| CteDecoder.Decoder.ReadIxDataUint16 | decoder.c:703-709 | a uint16 and a 3-byte advance; after an error the position is one past an accepted header, otherwise unchanged |
| CteDecoder.Decoder.ReadIxDataUint32 | decoder.c:716-722 | a uint32 and a 5-byte advance; after an error the position is one past an accepted header, otherwise unchanged |
| CteDecoder.Decoder.ReadIxDataUint64 | decoder.c:729-735 | a uint64 and a 9-byte advance; after an error the position is one past an accepted header, otherwise unchanged |
| CteDecoder.Decoder.ReadIxDataFloat32 | decoder.c:742-748 | 4 payload bytes and a 5-byte advance; after an error the position is one past an accepted header, otherwise unchanged |
| CteDecoder.Decoder.ReadIxDataFloat64 | decoder.c:755-761 | 8 payload bytes and a 9-byte advance; after an error the position is one past an accepted header, otherwise unchanged |
| CteDecoder.Decoder.ReadCommandDataPayload | decoder.c:804-829 | the result is CommandPayloadAt's; on success the position moves past the payload and lastCmdLen is its length; on failure nothing changes |
| CteDecoder.Decoder.GetLastListCount | decoder.c:847-855 | the remembered count is at most 15 |
| CteDecoder.Decoder.GetLastCommandPayloadLength | decoder.c:857-865 | the remembered length is at most 1197 |
| Transaction.Encoding | encoder.c:125-334 | every field takes at least its header byte |
| Transaction.Encode | encoder.c:74-90 | a transaction starts with the version byte |
| Transaction.ReadFieldAt | decoder.c:342-462 | a field read by its header's kind is one the writers accept, takes at least one byte and ends within the data |
| Transaction.ReadIxDataAt | decoder.c:578-845 | an IxData field read by sub-type and code is well formed and ends within the data |
| Transaction.DecodeFields | decoder.c:473-845 | every field read is one the writers accept |
| Transaction.Decode | decoder.c:276-362 | empty data is ZeroSize, over 1232 bytes SizeTooLarge, a wrong first byte InvalidVersion; the fields read are well formed |
| Transaction.FieldAt | decoder.c:473-845 | every field the writers accept reads back as itself, ending right after its bytes, wherever it is placed |
| Transaction.ListPlacedAt | decoder.c:473-548 | a placed list reads back as itself |
| Transaction.OneBytePlacedAt | decoder.c:557-569 | a placed index, zero varint or boolean reads back as itself |
| Transaction.ULeb128At | decoder.c:578-600 | a placed ULEB128 field reads back as itself |
| Transaction.SLeb128At | decoder.c:609-631 | a placed SLEB128 field reads back as itself |
| Transaction.FixedPlacedAt | decoder.c:186-207 | a placed fixed field reads back as itself |
| Transaction.CommandPlacedAt | decoder.c:804-829 | a placed command reads back as itself |
| Transaction.FieldsAt | decoder.c:342-845 | fields placed one after another up to the end of the data read back as the same fields |
| Transaction.TransactionRoundTrip | test.c:27-235 | every transaction the writers accept within 1232 bytes decodes to the fields it was written from |
| Transaction.ReferenceFields | test.c:36-95 | the reference transaction has 13 fields |
| Transaction.ReferenceTransaction | test.c:27-235 | test.c's transaction is accepted by the writers, takes 296 bytes, and reads back field for field |
| Transaction.ReferenceSize | test.c:36-95 | its fields take 295 bytes after the version byte |
| FieldWriter.CopyInto | test.c:41-90 | the caller's memcpy (test.c lines 41, 53, 82 and 90) puts the items at the offset and changes no other byte |
| FieldWriter.WriteField | encoder.c:125-334 | one field is written exactly when its bytes fit; then the data grows by its encoding; otherwise CapacityExceeded and the data unchanged |
| FieldWriter.WriteIndex | encoder.c:179-194 | WriteField's promise for an index |
| FieldWriter.WriteULeb128 | encoder.c:196-210 | WriteField's promise for a ULEB128 value |
| FieldWriter.WriteSLeb128 | encoder.c:212-226 | WriteField's promise for an SLEB128 value |
| FieldWriter.WriteFixed | encoder.c:228-278 | WriteField's promise for a fixed-width value |
| FieldWriter.WriteBoolean | encoder.c:279-296 | WriteField's promise for a boolean |
| FieldWriter.WriteList | encoder.c:125-177 | WriteField's promise for a list, header and items |
| FieldWriter.WritePublicKeyList | encoder.c:125-150 | WriteField's promise for a public-key list |
| FieldWriter.WriteSignatureList | encoder.c:152-177 | WriteField's promise for a signature list |
| FieldWriter.WriteItems | encoder.c:125-177 | a list header and its items are appended exactly when they fit |
| FieldWriter.WriteCommand | encoder.c:297-334 | WriteField's promise for command data, header and payload |
| FieldWriter.WriteTransaction | test.c:36-95 | the fields are written exactly when the whole transaction fits; the encoder then holds `Encode(fields)`, which decodes back to the fields within 1232 bytes; on failure it holds the transaction up to a field boundary, and the next field would overflow it |
| FieldWriter.WrittenRoundTrip | test.c:97-235 | data written field by field within the size cap decodes to those fields |

## Left out

- ctetool.c is not part of this model: argument parsing, text conversion, file I/O and printing.
- The header-only peeks that decoder.h declares but decoder.c does not define are not modelled:
  `cte_decoder_peek_tag`, `peek_public_key_list_count/type`, `peek_signature_list_count/type` and
  `peek_command_data_length`. `Fields.TagOf`, `Fields.DetailOf`, `Fields.CryptoTypeOf` and
  `Fields.ParseCommandDataHeader` state what they would read.
- `lea_abort` ends the process. The model returns a distinct `Error` instead and states the
  state at that point. Every encoder writer states the position and the bytes after a failure.
  Every decoder reader states its position after an error: unchanged, or one past an IxData
  header it had accepted. The exception is the LEB128 readers listed below. A NULL handle
  cannot occur with Dafny references.
- CteDecoder.Decoder.ReadIxDataULeb128: after a decoding error inside the LEB128 bytes the
  position is only bounded (at most 11 bytes on), not given exactly. The same holds for
  `ReadIxDataSLeb128`, `DecodeULeb128` and `DecodeSLeb128`. The process ends at that point
  in the C code, so the cursor is never used again.
- Allocation (`malloc`) is a fresh array, and the Wasm bump allocator is not modelled.
- Returned addresses are offsets into the buffer. The caller's `memcpy` into a reserved region is
  `FieldWriter.CopyInto`. Writing through such an address elsewhere is outside the model.
- `cte_decoder_load` returns the address of a writable buffer. The model's `Load` is the copy the caller then
  makes, of exactly `size` bytes.
- Fixed-width payloads are little-endian, as encoder.h and decoder.h document. encoder.c:70 and
  decoder.c:205 copy the host's native integer bytes, so the model is the little-endian host;
  a big-endian host is not modelled.
- Floating point is not modelled: float32 and float64 fields carry 4 and 8 opaque bytes, and
  values are compared as bytes.
- Integer arithmetic is unbounded, with the C code's 64-bit shifts written out in `Bits`. The
  signed left shift of decoder.c:158 and the arithmetic right shift of encoder.c:38 are taken as
  two's-complement wrap-around and arithmetic shift.
- encoder.c has no writer for the zero varint, so `FieldWriter.WriteField` excludes
  `VarintZero`. The decoder's reader for it is modelled (`CteDecoder.Decoder.ReadIxDataVarintZero`).
- The vector revision of cte.h (cte.h:38-63, 176-188 names, size codes 32/64/128/29792) is not
  what encoder.c, decoder.c and cte.c implement. The model uses their crypto-type revision: type
  codes 0..3 with public keys of 32/32/48/64 bytes, an Ed25519 signature of 64 bytes and a
  post-quantum signature hash of 32 bytes.
- The `cte_decoder_t` of decoder.h:17-22 lacks the `last_list_count` and `last_cmd_len` fields
  that decoder.c:292-293 sets. The model includes them.
- `Transaction.Decode` reads fields in the kind their header announces. That is one way to drive
  the readers; the library itself leaves the order of calls to its caller.
- Varint.DecodeULeb128: the decoder accepts non-minimal LEB128 (for example 80 00 for zero), so the
  round trip is stated from encoding to decoding only, not the reverse.

## Findings

| source | as written | input that shows it | evidently intended | confidence | as-written member | corrected member |
|---|---|---|---|---|---|---|
| encoder.c:16, encoder.c:35 | `CHECK_CAPACITY(handle, write_offset + i + 1)` adds `handle->position` to `write_offset`, which already includes the position (`handle->position + 1` at encoder.c:208 and 224), so the position is counted twice | capacity 10, position 5, value 0: the field needs bytes 5 and 6, but the check computes 5 + (6 + 0 + 1) = 12 > 10 and aborts | check `write_offset + i + 1 <= capacity` (the position once), so a varint is written exactly when it fits | not executed | CteEncoder.Encoder.WriteIxDataULeb128AsWritten, CteEncoder.Encoder.WriteIxDataSLeb128AsWritten, CteEncoder.VarintCheckCountsPositionTwice | CteEncoder.Encoder.WriteIxDataULeb128, CteEncoder.Encoder.WriteIxDataSLeb128, CteEncoder.VarintCheckAsWrittenStricter |

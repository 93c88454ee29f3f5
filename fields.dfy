/** The field header bytes: how the encoder packs them and how the decoder takes them apart. */
module Fields {
  import opened Cte
  import SizeTable

  // ---------------------------------------------------------------------------------------
  // Bit fields of a header byte
  // ---------------------------------------------------------------------------------------

  /** Bits 7..6, the field kind: `header & CTE_TAG_MASK`. */
  function TagOf(header: u8): u8
  {
    header / 64 * 64
  }

  /** Bits 5..2, the item count of a list or the detail code of an IxData field:
      `(header >> 2) & 0x0F`. */
  function DetailOf(header: u8): u8
  {
    (header / 4) % 16
  }

  /** Bits 1..0 of a list header, the crypto type: `header & CTE_CRYPTO_TYPE_MASK`. */
  function CryptoTypeOf(header: u8): u8
  {
    header % 4
  }

  /** Bits 1..0 of an IxData header, the sub-type: `header & CTE_IXDATA_SUBTYPE_MASK`. */
  function SubtypeOf(header: u8): u8
  {
    header % 4
  }

  /** The header of a list of `count` items of one crypto type, as both list writers build
      it: `tag | ((count & 0x0F) << 2) | (type_code & CTE_CRYPTO_TYPE_MASK)`. The three parts
      occupy disjoint bits, so the or is their sum. */
  function ListHeader(tag: u8, count: u8, typeCode: u8): u8
    requires tag % 64 == 0
  {
    var detail := if count < 16 then count else count % 16;  // count & 0x0F
    tag + detail * 4 + typeCode % 4
  }

  /** The header of an IxData field with a detail code and a sub-type:
      `CTE_TAG_IXDATA_FIELD | ((detail & 0x0F) << 2) | subtype`. */
  function IxDataHeader(detail: u8, subtype: u8): u8
    requires subtype <= IXDATA_SUBTYPE_MASK
  {
    var code := if detail < 16 then detail else detail % 16;  // detail & 0x0F
    TAG_IXDATA_FIELD + code * 4 + subtype
  }

  /** The item size of a list kind, by its tag: defined for the four crypto types only, and
      between a 32-byte key or hash and a 64-byte key or signature. */
  function ListItemSize(tag: u8, typeCode: u8): (r: Result<nat>)
    ensures r.Ok? <==> typeCode <= CRYPTO_TYPE_SLH_DSA_256F
    ensures r.Err? ==> r.error == InvalidTypeCode
    ensures r.Ok? ==> 32 <= r.value <= 64
  {
    if tag == TAG_PUBLIC_KEY_LIST then SizeTable.PublicKeySize(typeCode)
    else SizeTable.SignatureItemSize(typeCode)
  }

  /** A list header written for valid arguments gives them back to the decoder. */
  lemma ListHeaderFields(tag: u8, count: u8, typeCode: u8)
    requires tag == TAG_PUBLIC_KEY_LIST || tag == TAG_SIGNATURE_LIST
    requires count <= LIST_MAX_LEN && typeCode <= CRYPTO_TYPE_SLH_DSA_256F
    ensures TagOf(ListHeader(tag, count, typeCode)) == tag
    ensures DetailOf(ListHeader(tag, count, typeCode)) == count
    ensures CryptoTypeOf(ListHeader(tag, count, typeCode)) == typeCode
  {
    var h := ListHeader(tag, count, typeCode);
    if tag == TAG_PUBLIC_KEY_LIST {
      Packed(h, 0, count, typeCode);
    } else {
      Packed(h, 1, count, typeCode);
    }
  }

  /** An IxData header written for a valid detail code and sub-type gives them back. */
  lemma IxDataHeaderFields(detail: u8, subtype: u8)
    requires detail <= 0x0F && subtype <= IXDATA_SUBTYPE_CONSTANT
    ensures TagOf(IxDataHeader(detail, subtype)) == TAG_IXDATA_FIELD
    ensures DetailOf(IxDataHeader(detail, subtype)) == detail
    ensures SubtypeOf(IxDataHeader(detail, subtype)) == subtype
  {
    Packed(IxDataHeader(detail, subtype), 2, detail, subtype);
  }

  /** The three parts of a header byte, 2 + 4 + 2 bits, are what the field functions take
      apart again. */
  lemma Packed(h: nat, kind: nat, detail: nat, low: nat)
    requires kind < 4 && detail < 16 && low < 4 && h == kind * 64 + detail * 4 + low
    ensures h < 256 && h / 64 * 64 == kind * 64 && (h / 4) % 16 == detail && h % 4 == low
  {
    assert h == 4 * (16 * kind + detail) + low;
    assert h / 4 == 16 * kind + detail;
    assert h / 64 == (h / 4) / 16;
  }

  /** Conversely, every byte is the header its own fields describe: the decoder's view of a
      header loses nothing. */
  lemma HeaderFromFields(header: u8)
    ensures TagOf(header) == TAG_PUBLIC_KEY_LIST || TagOf(header) == TAG_SIGNATURE_LIST ==>
      header == ListHeader(TagOf(header), DetailOf(header), CryptoTypeOf(header))
    ensures TagOf(header) == TAG_IXDATA_FIELD ==> header == IxDataHeader(DetailOf(header), SubtypeOf(header))
  {
  }

  /** The header bytes of the two varint fields the encoder writes. */
  lemma VarintHeaderBytes()
    ensures IxDataHeader(IXDATA_VARINT_ENC_ULEB128, IXDATA_SUBTYPE_VARINT) == 0x85
    ensures IxDataHeader(IXDATA_VARINT_ENC_SLEB128, IXDATA_SUBTYPE_VARINT) == 0x89
  {
  }

  /** The header bytes of the two boolean constants. */
  lemma ConstantHeaderBytes()
    ensures IxDataHeader(IXDATA_CONST_VAL_TRUE, IXDATA_SUBTYPE_CONSTANT) == 0x87
    ensures IxDataHeader(IXDATA_CONST_VAL_FALSE, IXDATA_SUBTYPE_CONSTANT) == 0x83
  {
  }

  /** The header byte of a fixed-width field of type code `code`. */
  lemma FixedHeaderByte(code: u8)
    requires code <= IXDATA_FIXED_TYPE_FLOAT64
    ensures IxDataHeader(code, IXDATA_SUBTYPE_FIXED) == 0x82 + 4 * code
  {
  }

  // ---------------------------------------------------------------------------------------
  // Classification (cte_decoder_peek_type)
  // ---------------------------------------------------------------------------------------

  /** Detail codes no encoder writes: varint schemes above 2, fixed types above 9,
      constants above 1. */
  predicate IxDataReserved(subtype: u8, detail: u8)
  {
    (subtype == IXDATA_SUBTYPE_VARINT && detail > IXDATA_VARINT_ENC_SLEB128) ||
    (subtype == IXDATA_SUBTYPE_FIXED && detail > IXDATA_FIXED_TYPE_FLOAT64) ||
    (subtype == IXDATA_SUBTYPE_CONSTANT && detail > IXDATA_CONST_VAL_TRUE)
  }

  /** The field type identifier cte_decoder_peek_type returns for a header byte. */
  function Classify(header: u8): (id: int)
    ensures id == PEEK_INVALID || PEEK_TYPE_PK_LIST_ED25519 <= id <= PEEK_TYPE_CMD_EXTENDED
    ensures TagOf(header) == TAG_PUBLIC_KEY_LIST ==> id == CryptoTypeOf(header)
    ensures TagOf(header) == TAG_SIGNATURE_LIST ==> id == PEEK_TYPE_SIG_LIST_ED25519 + CryptoTypeOf(header)
    ensures TagOf(header) == TAG_COMMAND_DATA ==>
      id == (if FormatOf(header) != COMMAND_FORMAT_SHORT then PEEK_TYPE_CMD_EXTENDED else PEEK_TYPE_CMD_SHORT)
    ensures id == PEEK_INVALID <==> TagOf(header) == TAG_IXDATA_FIELD && IxDataReserved(SubtypeOf(header), DetailOf(header))
    ensures TagOf(header) == TAG_IXDATA_FIELD && !IxDataReserved(SubtypeOf(header), DetailOf(header)) ==>
      id == IxDataPeekId(SubtypeOf(header), DetailOf(header))
  {
    var tag := TagOf(header);
    if tag == TAG_PUBLIC_KEY_LIST then
      match CryptoTypeOf(header)
      case 0 => PEEK_TYPE_PK_LIST_ED25519
      case 1 => PEEK_TYPE_PK_LIST_SLH_128F
      case 2 => PEEK_TYPE_PK_LIST_SLH_192F
      case _ => PEEK_TYPE_PK_LIST_SLH_256F       // code 3
    else if tag == TAG_SIGNATURE_LIST then
      match CryptoTypeOf(header)
      case 0 => PEEK_TYPE_SIG_LIST_ED25519
      case 1 => PEEK_TYPE_SIG_LIST_SLH_128F
      case 2 => PEEK_TYPE_SIG_LIST_SLH_192F
      case _ => PEEK_TYPE_SIG_LIST_SLH_256F      // code 3
    else if tag == TAG_IXDATA_FIELD then
      var detail := DetailOf(header);
      match SubtypeOf(header)
      case 0 => PEEK_TYPE_IXDATA_LEGACY_INDEX
      case 1 =>
        (match detail
         case 0 => PEEK_TYPE_IXDATA_VARINT_ZERO
         case 1 => PEEK_TYPE_IXDATA_ULEB128
         case 2 => PEEK_TYPE_IXDATA_SLEB128
         case _ => PEEK_INVALID)
      case 2 =>
        (match detail
         case 0 => PEEK_TYPE_IXDATA_INT8
         case 1 => PEEK_TYPE_IXDATA_INT16
         case 2 => PEEK_TYPE_IXDATA_INT32
         case 3 => PEEK_TYPE_IXDATA_INT64
         case 4 => PEEK_TYPE_IXDATA_UINT8
         case 5 => PEEK_TYPE_IXDATA_UINT16
         case 6 => PEEK_TYPE_IXDATA_UINT32
         case 7 => PEEK_TYPE_IXDATA_UINT64
         case 8 => PEEK_TYPE_IXDATA_FLOAT32
         case 9 => PEEK_TYPE_IXDATA_FLOAT64
         case _ => PEEK_INVALID)
      case _ =>                                  // sub-type 3
        (match detail
         case 0 => PEEK_TYPE_IXDATA_CONST_FALSE
         case 1 => PEEK_TYPE_IXDATA_CONST_TRUE
         case _ => PEEK_INVALID)
    else
      if FormatOf(header) != COMMAND_FORMAT_SHORT then PEEK_TYPE_CMD_EXTENDED else PEEK_TYPE_CMD_SHORT
  }

  /** The identifiers of the IxData kinds are laid out by sub-type, then by detail code. */
  function IxDataPeekId(subtype: u8, detail: u8): int
  {
    if subtype == IXDATA_SUBTYPE_LEGACY_INDEX then PEEK_TYPE_IXDATA_LEGACY_INDEX
    else if subtype == IXDATA_SUBTYPE_VARINT then PEEK_TYPE_IXDATA_VARINT_ZERO + detail
    else if subtype == IXDATA_SUBTYPE_FIXED then PEEK_TYPE_IXDATA_INT8 + detail
    else PEEK_TYPE_IXDATA_CONST_FALSE + detail
  }

  /** Every header the encoder writes is classified as the kind it was written as. */
  lemma ClassifyWrittenHeaders(tag: u8, count: u8, typeCode: u8, detail: u8, subtype: u8)
    requires tag == TAG_PUBLIC_KEY_LIST || tag == TAG_SIGNATURE_LIST
    requires 1 <= count <= LIST_MAX_LEN && typeCode <= CRYPTO_TYPE_SLH_DSA_256F
    requires subtype <= IXDATA_SUBTYPE_CONSTANT && detail <= 0x0F && !IxDataReserved(subtype, detail)
    ensures Classify(ListHeader(tag, count, typeCode)) ==
      (if tag == TAG_PUBLIC_KEY_LIST then 0 else PEEK_TYPE_SIG_LIST_ED25519) + typeCode
    ensures Classify(IxDataHeader(detail, subtype)) == IxDataPeekId(subtype, detail)
    ensures Classify(IxDataHeader(detail, subtype)) != PEEK_INVALID
  {
    ListHeaderFields(tag, count, typeCode);
    IxDataHeaderFields(detail, subtype);
  }

  // ---------------------------------------------------------------------------------------
  // Command data headers
  // ---------------------------------------------------------------------------------------

  /** Bit 5 of a command header, the format flag: `header & CTE_COMMAND_FORMAT_FLAG_MASK`. */
  function FormatOf(header: u8): u8
  {
    (header / 32) % 2 * 32
  }

  /** Bits 4..0 of a short command header, the length: `header & CTE_COMMAND_SHORT_MAX_LEN`. */
  function ShortLengthOf(header: u8): nat
  {
    header % 32
  }

  /** Bits 1..0 of an extended command header, the padding: `header & 0x03`. */
  function PaddingOf(header: u8): u8
  {
    header % 4
  }

  /** Bits 4..2 of an extended command header, bits 10..8 of the payload length:
      `(header1 >> 2) & 0x07`. */
  function ExtendedHighBits(header1: u8): (high: nat)
    ensures high < 8
  {
    (header1 / 4) % 8
  }

  /** The header cte_encoder_begin_command_data writes for a payload of `length` bytes:
      one byte up to 31, two bytes from 32 to 1197, an abort beyond. The short byte is
      `CTE_TAG_COMMAND_DATA | CTE_COMMAND_FORMAT_SHORT | (length & CTE_COMMAND_SHORT_MAX_LEN)`;
      the extended form carries bits 10..8 of the length (`(length >> 8) & 0x07`, here
      `length / 256` since the length is below 2048) in bits 4..2 of its first byte and
      bits 7..0 (`length & 0xFF`) in its second. */
  function CommandDataHeader(length: nat): (r: Result<seq<u8>>)
    ensures r.Ok? <==> length <= COMMAND_EXTENDED_MAX_LEN
    ensures r.Err? ==> r.error == CommandLengthOutOfRange
    ensures r.Ok? ==> |r.value| == (if length <= COMMAND_SHORT_MAX_LEN then 1 else 2)
  {
    if length <= COMMAND_SHORT_MAX_LEN then
      Ok([TAG_COMMAND_DATA + COMMAND_FORMAT_SHORT + length % 32])
    else if COMMAND_EXTENDED_MIN_LEN <= length <= COMMAND_EXTENDED_MAX_LEN then
      Ok([ExtendedHeaderByte(length / 256), length % 256])
    else
      Err(CommandLengthOutOfRange)
  }

  /** The first byte of an extended command header whose length has `high` as bits 10..8:
      `CTE_TAG_COMMAND_DATA | CTE_COMMAND_FORMAT_EXTENDED | (LH << 2)`. */
  function ExtendedHeaderByte(high: nat): u8
    requires high < 8
  {
    TAG_COMMAND_DATA + COMMAND_FORMAT_EXTENDED + high * 4
  }

  /** The tag, flag and padding of an extended header byte, and its length bits. */
  lemma ExtendedHeaderByteFields(high: nat)
    requires high < 8
    ensures var h := ExtendedHeaderByte(high);
      TagOf(h) == TAG_COMMAND_DATA && FormatOf(h) == COMMAND_FORMAT_EXTENDED && PaddingOf(h) == 0 &&
      ExtendedHighBits(h) == high
  {
  }

  /** Conversely, every extended header byte with its padding clear is one the encoder writes. */
  lemma ExtendedHeaderByteCanonical(h: u8)
    requires ExtendedPrefix(h)
    ensures h == ExtendedHeaderByte(ExtendedHighBits(h))
  {
  }

  /** A short header byte: its tag and flag, and the length in its low five bits. */
  lemma ShortHeaderByteFields(length: nat)
    requires length <= COMMAND_SHORT_MAX_LEN
    ensures var h := CommandDataHeader(length).value[0];
      TagOf(h) == TAG_COMMAND_DATA && FormatOf(h) == COMMAND_FORMAT_SHORT && ShortLengthOf(h) == length
  {
  }

  /** Conversely, every short header byte is the one the encoder writes for its length. */
  lemma ShortHeaderByteCanonical(h: u8)
    requires TagOf(h) == TAG_COMMAND_DATA && FormatOf(h) == COMMAND_FORMAT_SHORT
    ensures ShortLengthOf(h) <= COMMAND_SHORT_MAX_LEN && CommandDataHeader(ShortLengthOf(h)) == Ok([h])
  {
  }

  /** What _parse_command_data_header finds at the start of s. */
  datatype CommandHeader =
    | HeaderAt(length: nat, headerSize: nat)   // a payload length and the header's size
    | NoHeader                                 // the header runs past the data: SIZE_MAX
    | BadHeader(error: Error)                  // an abort

  /** An extended header is present when the first byte has the command tag and the
      format flag and its padding is clear. */
  predicate ExtendedPrefix(header1: u8)
  {
    TagOf(header1) == TAG_COMMAND_DATA && FormatOf(header1) == COMMAND_FORMAT_EXTENDED && PaddingOf(header1) == 0
  }

  function ParseCommandDataHeader(s: seq<u8>): (r: CommandHeader)
    ensures r.HeaderAt? ==> r.headerSize <= |s|
    ensures r.HeaderAt? ==> r.length <= COMMAND_EXTENDED_MAX_LEN
    ensures r.HeaderAt? ==> (r.headerSize == 1 <==> r.length <= COMMAND_SHORT_MAX_LEN)
    ensures r.HeaderAt? ==> r.headerSize == 1 || r.headerSize == 2
    ensures r.NoHeader? <==> |s| == 0 || (|s| == 1 && ExtendedPrefix(s[0]))
    ensures r.BadHeader? ==> r.error in {UnexpectedTag, NonZeroPadding, InvalidExtendedLength}
  {
    if |s| < 1 then NoHeader
    else
      var header1 := s[0];
      if TagOf(header1) != TAG_COMMAND_DATA then BadHeader(UnexpectedTag)
      else if FormatOf(header1) == COMMAND_FORMAT_SHORT then HeaderAt(ShortLengthOf(header1), 1)
      else if PaddingOf(header1) != 0 then BadHeader(NonZeroPadding)
      else if |s| < 2 then NoHeader
      else
        // (LH << 8) | LL: LL is a byte, so the or is a sum.
        var length := ExtendedHighBits(header1) * 256 + s[1];
        if length < COMMAND_EXTENDED_MIN_LEN || length > COMMAND_EXTENDED_MAX_LEN then
          BadHeader(InvalidExtendedLength)
        else
          HeaderAt(length, 2)
  }

  /** The decoder reads back the length the encoder wrote, whatever follows the header. */
  lemma CommandHeaderRoundTrip(length: nat, rest: seq<u8>)
    requires length <= COMMAND_EXTENDED_MAX_LEN
    ensures ParseCommandDataHeader(CommandDataHeader(length).value + rest) ==
      HeaderAt(length, |CommandDataHeader(length).value|)
  {
    if length > COMMAND_SHORT_MAX_LEN {
      ExtendedHeaderRoundTrip(length, rest);
    } else {
      ShortHeaderRoundTrip(length, rest);
    }
  }

  lemma ShortHeaderRoundTrip(length: nat, rest: seq<u8>)
    requires length <= COMMAND_SHORT_MAX_LEN
    ensures ParseCommandDataHeader(CommandDataHeader(length).value + rest) == HeaderAt(length, 1)
  {
    var h := CommandDataHeader(length).value;
    assert (h + rest)[0] == h[0];
    ShortHeaderByteFields(length);
  }

  lemma ExtendedHeaderRoundTrip(length: nat, rest: seq<u8>)
    requires COMMAND_EXTENDED_MIN_LEN <= length <= COMMAND_EXTENDED_MAX_LEN
    ensures ParseCommandDataHeader(CommandDataHeader(length).value + rest) == HeaderAt(length, 2)
  {
    var h := CommandDataHeader(length).value;
    var s := h + rest;
    assert s[0] == ExtendedHeaderByte(length / 256);
    assert s[1] == length % 256;
    ExtendedHeaderByteFields(length / 256);
  }

  /** A header the decoder accepts is the one the encoder writes for that length: each length
      has exactly one encoding. */
  lemma CommandHeaderCanonical(s: seq<u8>)
    requires ParseCommandDataHeader(s).HeaderAt?
    ensures var r := ParseCommandDataHeader(s);
      CommandDataHeader(r.length) == Ok(s[..r.headerSize])
  {
    var r := ParseCommandDataHeader(s);
    if r.headerSize == 1 {
      ShortHeaderByteCanonical(s[0]);
      assert s[..1] == [s[0]];
    } else {
      ExtendedHeaderByteCanonical(s[0]);
      var high := ExtendedHighBits(s[0]);
      assert r.length == high * 256 + s[1];
      assert r.length / 256 == high && r.length % 256 == s[1];
      assert s[..2] == [s[0], s[1]];
    }
  }

  /** An extended header may not carry a length that fits the short form. */
  lemma ExtendedHeaderForShortLengthRejected()
    ensures ParseCommandDataHeader([0xE0, 31]) == BadHeader(InvalidExtendedLength)
    ensures ParseCommandDataHeader([0xFC, 0xFF]) == BadHeader(InvalidExtendedLength)
    ensures ParseCommandDataHeader([0xE1, 0x20]) == BadHeader(NonZeroPadding)
  {
  }
}

/** Constants and shared types of the Compact Transaction Encoding (CTE).
    The values are those of cte.h and decoder.h for the crypto-type / legacy-index /
    command-data revision of the wire format, which encoder.c, decoder.c and cte.c
    implement. */
module Cte {

  /** Unsigned and signed machine integers of the C interface. A byte of the wire format is
      a u8; the C code's masks and shifts on a byte are written as the arithmetic they
      amount to (`b & 0x7F` is `b % 128`, `(b >> 2) & 0x0F` is `(b / 4) % 16`). */
  type u64 = x: int | 0 <= x < 0x1_0000_0000_0000_0000
  type i64 = x: int | -0x8000_0000_0000_0000 <= x < 0x8000_0000_0000_0000
  type u32 = x: int | 0 <= x < 0x1_0000_0000
  type i32 = x: int | -0x8000_0000 <= x < 0x8000_0000
  type u16 = x: int | 0 <= x < 0x1_0000
  type i16 = x: int | -0x8000 <= x < 0x8000
  type u8 = x: int | 0 <= x < 0x100
  type i8 = x: int | -0x80 <= x < 0x80

  /** The required first byte of every transaction, and the size cap. */
  const VERSION_BYTE: u8 := 0xF1
  const MAX_TRANSACTION_SIZE: nat := 1232

  /** The 2-bit field tags in bits 7..6 of a header byte. */
  const TAG_PUBLIC_KEY_LIST: u8 := 0x00
  const TAG_SIGNATURE_LIST: u8 := 0x40
  const TAG_IXDATA_FIELD: u8 := 0x80
  const TAG_COMMAND_DATA: u8 := 0xC0
  const TAG_MASK: u8 := 0xC0

  /** The 2-bit crypto-type codes in bits 1..0 of a list header. */
  const CRYPTO_TYPE_ED25519: u8 := 0
  const CRYPTO_TYPE_SLH_DSA_128F: u8 := 1
  const CRYPTO_TYPE_SLH_DSA_192F: u8 := 2
  const CRYPTO_TYPE_SLH_DSA_256F: u8 := 3
  const CRYPTO_TYPE_MASK: u8 := 0x03

  /** Item sizes, in bytes, per crypto type. */
  const PUBKEY_SIZE_ED25519: nat := 32
  const PUBKEY_SIZE_SLH_128F: nat := 32
  const PUBKEY_SIZE_SLH_192F: nat := 48
  const PUBKEY_SIZE_SLH_256F: nat := 64
  const SIGNATURE_SIZE_ED25519: nat := 64
  const SIGNATURE_HASH_SIZE_PQC: nat := 32

  /** Largest item count of a list: the largest value of its 4-bit count field. */
  const LIST_MAX_LEN: u8 := 15

  /** IxData sub-types, bits 1..0 of an IxData header. */
  const IXDATA_SUBTYPE_LEGACY_INDEX: u8 := 0x00
  const IXDATA_SUBTYPE_VARINT: u8 := 0x01
  const IXDATA_SUBTYPE_FIXED: u8 := 0x02
  const IXDATA_SUBTYPE_CONSTANT: u8 := 0x03
  const IXDATA_SUBTYPE_MASK: u8 := 0x03

  /** Varint encoding schemes, the detail code of sub-type 01. */
  const IXDATA_VARINT_ENC_ZERO: u8 := 0x00
  const IXDATA_VARINT_ENC_ULEB128: u8 := 0x01
  const IXDATA_VARINT_ENC_SLEB128: u8 := 0x02

  /** Fixed data type codes, the detail code of sub-type 10. */
  const IXDATA_FIXED_TYPE_INT8: u8 := 0x00
  const IXDATA_FIXED_TYPE_INT16: u8 := 0x01
  const IXDATA_FIXED_TYPE_INT32: u8 := 0x02
  const IXDATA_FIXED_TYPE_INT64: u8 := 0x03
  const IXDATA_FIXED_TYPE_UINT8: u8 := 0x04
  const IXDATA_FIXED_TYPE_UINT16: u8 := 0x05
  const IXDATA_FIXED_TYPE_UINT32: u8 := 0x06
  const IXDATA_FIXED_TYPE_UINT64: u8 := 0x07
  const IXDATA_FIXED_TYPE_FLOAT32: u8 := 0x08
  const IXDATA_FIXED_TYPE_FLOAT64: u8 := 0x09

  /** All fixed type codes, in the order cte.h lists them. */
  const FIXED_TYPES: seq<u8> := [
    IXDATA_FIXED_TYPE_INT8, IXDATA_FIXED_TYPE_INT16, IXDATA_FIXED_TYPE_INT32, IXDATA_FIXED_TYPE_INT64,
    IXDATA_FIXED_TYPE_UINT8, IXDATA_FIXED_TYPE_UINT16, IXDATA_FIXED_TYPE_UINT32, IXDATA_FIXED_TYPE_UINT64,
    IXDATA_FIXED_TYPE_FLOAT32, IXDATA_FIXED_TYPE_FLOAT64]

  /** Constant value codes, the detail code of sub-type 11. */
  const IXDATA_CONST_VAL_FALSE: u8 := 0x00
  const IXDATA_CONST_VAL_TRUE: u8 := 0x01

  /** Largest legacy index, the largest value of the 4-bit detail field. */
  const LEGACY_INDEX_MAX_VALUE: u8 := 15

  /** Command data: format flag (bit 5) and length limits. */
  const COMMAND_FORMAT_FLAG_MASK: u8 := 0x20
  const COMMAND_FORMAT_SHORT: u8 := 0x00
  const COMMAND_FORMAT_EXTENDED: u8 := 0x20
  const COMMAND_SHORT_MAX_LEN: nat := 31
  const COMMAND_EXTENDED_MIN_LEN: nat := 32
  const COMMAND_EXTENDED_MAX_LEN: nat := 1197

  /** Identifiers returned by the decoder's peek; they are API values, not wire bytes. */
  const PEEK_TYPE_PK_LIST_ED25519: int := 0
  const PEEK_TYPE_PK_LIST_SLH_128F: int := 1
  const PEEK_TYPE_PK_LIST_SLH_192F: int := 2
  const PEEK_TYPE_PK_LIST_SLH_256F: int := 3
  const PEEK_TYPE_SIG_LIST_ED25519: int := 4
  const PEEK_TYPE_SIG_LIST_SLH_128F: int := 5
  const PEEK_TYPE_SIG_LIST_SLH_192F: int := 6
  const PEEK_TYPE_SIG_LIST_SLH_256F: int := 7
  const PEEK_TYPE_IXDATA_LEGACY_INDEX: int := 8
  const PEEK_TYPE_IXDATA_VARINT_ZERO: int := 9
  const PEEK_TYPE_IXDATA_ULEB128: int := 10
  const PEEK_TYPE_IXDATA_SLEB128: int := 11
  const PEEK_TYPE_IXDATA_INT8: int := 12
  const PEEK_TYPE_IXDATA_INT16: int := 13
  const PEEK_TYPE_IXDATA_INT32: int := 14
  const PEEK_TYPE_IXDATA_INT64: int := 15
  const PEEK_TYPE_IXDATA_UINT8: int := 16
  const PEEK_TYPE_IXDATA_UINT16: int := 17
  const PEEK_TYPE_IXDATA_UINT32: int := 18
  const PEEK_TYPE_IXDATA_UINT64: int := 19
  const PEEK_TYPE_IXDATA_FLOAT32: int := 20
  const PEEK_TYPE_IXDATA_FLOAT64: int := 21
  const PEEK_TYPE_IXDATA_CONST_FALSE: int := 22
  const PEEK_TYPE_IXDATA_CONST_TRUE: int := 23
  const PEEK_TYPE_CMD_SHORT: int := 24
  const PEEK_TYPE_CMD_EXTENDED: int := 25
  /** What a peek returns at the end of the buffer (decoder.h). */
  const PEEK_EOF: int := 0xFF
  /** What the peek returns for a header byte with a reserved code. */
  const PEEK_INVALID: int := -1

  /** All peek identifiers, in the order cte.h lists them. */
  const PEEK_IDS: seq<int> := [
    PEEK_TYPE_PK_LIST_ED25519, PEEK_TYPE_PK_LIST_SLH_128F, PEEK_TYPE_PK_LIST_SLH_192F, PEEK_TYPE_PK_LIST_SLH_256F,
    PEEK_TYPE_SIG_LIST_ED25519, PEEK_TYPE_SIG_LIST_SLH_128F, PEEK_TYPE_SIG_LIST_SLH_192F, PEEK_TYPE_SIG_LIST_SLH_256F,
    PEEK_TYPE_IXDATA_LEGACY_INDEX, PEEK_TYPE_IXDATA_VARINT_ZERO, PEEK_TYPE_IXDATA_ULEB128, PEEK_TYPE_IXDATA_SLEB128,
    PEEK_TYPE_IXDATA_INT8, PEEK_TYPE_IXDATA_INT16, PEEK_TYPE_IXDATA_INT32, PEEK_TYPE_IXDATA_INT64,
    PEEK_TYPE_IXDATA_UINT8, PEEK_TYPE_IXDATA_UINT16, PEEK_TYPE_IXDATA_UINT32, PEEK_TYPE_IXDATA_UINT64,
    PEEK_TYPE_IXDATA_FLOAT32, PEEK_TYPE_IXDATA_FLOAT64, PEEK_TYPE_IXDATA_CONST_FALSE, PEEK_TYPE_IXDATA_CONST_TRUE,
    PEEK_TYPE_CMD_SHORT, PEEK_TYPE_CMD_EXTENDED]

  /** Every distinct abort of the C code, as an inspectable value. */
  datatype Error =
    | InvalidCapacity          // encoder init with capacity 0
    | CapacityExceeded         // a write would pass the encoder's capacity
    | InvalidListLength        // list count outside 1..15
    | InvalidTypeCode          // crypto type code without an item size
    | IndexOutOfRange          // legacy index above 15
    | ReservedFixedType        // fixed type code 10..15
    | CommandLengthOutOfRange  // command data length above 1197
    | ZeroSize                 // decoder init with size 0
    | SizeTooLarge             // decoder init with size above 1232
    | InvalidVersion           // first byte is not the version byte
    | ReadPastEnd              // a read would pass the declared size
    | UnexpectedTag            // header tag is not the one the reader expects
    | UnexpectedSubtype        // IxData sub-type is not the one the reader expects
    | UnexpectedScheme         // varint scheme is not the one the reader expects
    | UnexpectedFixedType      // fixed type code is not the one the reader expects
    | ReservedConstant         // constant value code 2..15
    | ULeb128Overflow          // ULEB128 value does not fit 64 bits
    | ULeb128Unterminated      // ULEB128 sequence longer than 10 bytes
    | SLeb128Overflow          // SLEB128 continuation past 64 bits
    | SLeb128Unterminated      // SLEB128 sequence longer than 10 bytes
    | NonZeroPadding           // padding bits of an extended command header set
    | InvalidExtendedLength    // extended command length outside 32..1197
    | CommandHeaderUnavailable // no complete command data header before the end

  /** The outcome of an operation that returns a value, or of one that returns nothing. */
  datatype Result<+T> = Ok(value: T) | Err(error: Error)
  datatype Outcome = Done | Failed(error: Error)

  /** The four tags are pairwise distinct and each is its own tag part: for a byte,
      `x & 0xC0` keeps bits 7..6, that is (x / 64) * 64. */
  lemma TagConstants()
    ensures TAG_PUBLIC_KEY_LIST != TAG_SIGNATURE_LIST && TAG_PUBLIC_KEY_LIST != TAG_IXDATA_FIELD
    ensures TAG_PUBLIC_KEY_LIST != TAG_COMMAND_DATA && TAG_SIGNATURE_LIST != TAG_IXDATA_FIELD
    ensures TAG_SIGNATURE_LIST != TAG_COMMAND_DATA && TAG_IXDATA_FIELD != TAG_COMMAND_DATA
    ensures TAG_MASK == 3 * 64
    ensures TAG_PUBLIC_KEY_LIST / 64 * 64 == TAG_PUBLIC_KEY_LIST
    ensures TAG_SIGNATURE_LIST / 64 * 64 == TAG_SIGNATURE_LIST
    ensures TAG_IXDATA_FIELD / 64 * 64 == TAG_IXDATA_FIELD
    ensures TAG_COMMAND_DATA / 64 * 64 == TAG_COMMAND_DATA
  {
  }

  /** Short and extended command lengths are disjoint and adjacent, and the largest
      extended length fits the 11-bit length field (3 high bits + 8 low bits). */
  lemma CommandLengthConstants()
    ensures COMMAND_SHORT_MAX_LEN + 1 == COMMAND_EXTENDED_MIN_LEN
    ensures COMMAND_EXTENDED_MIN_LEN <= COMMAND_EXTENDED_MAX_LEN < 0x800
    ensures COMMAND_EXTENDED_MAX_LEN / 0x100 <= 7
    ensures COMMAND_SHORT_MAX_LEN < 0x20
  {
  }

  /** The peek identifiers are 0..25 in order, pairwise distinct, and none is the end marker. */
  lemma PeekIdConstants()
    ensures |PEEK_IDS| == 26
    ensures forall k :: 0 <= k < |PEEK_IDS| ==> PEEK_IDS[k] == k
    ensures forall j, k :: 0 <= j < k < |PEEK_IDS| ==> PEEK_IDS[j] != PEEK_IDS[k]
    ensures PEEK_EOF !in PEEK_IDS && PEEK_INVALID !in PEEK_IDS
  {
  }

  /** The fixed type codes are 0..9, pairwise distinct, and fit the 4-bit detail field;
      the varint schemes are exactly 0, 1, 2 and the constant codes exactly 0 and 1. */
  lemma DetailCodeConstants()
    ensures |FIXED_TYPES| == 10
    ensures forall k :: 0 <= k < |FIXED_TYPES| ==> FIXED_TYPES[k] == k < 16
    ensures forall j, k :: 0 <= j < k < |FIXED_TYPES| ==> FIXED_TYPES[j] != FIXED_TYPES[k]
    ensures [IXDATA_VARINT_ENC_ZERO, IXDATA_VARINT_ENC_ULEB128, IXDATA_VARINT_ENC_SLEB128] == [0, 1, 2]
    ensures [IXDATA_CONST_VAL_FALSE, IXDATA_CONST_VAL_TRUE] == [0, 1]
  {
  }

  /** Version byte, size cap, and the two 4-bit maxima. */
  lemma LimitConstants()
    ensures VERSION_BYTE == 0xF1 && MAX_TRANSACTION_SIZE == 1232
    ensures LIST_MAX_LEN == LEGACY_INDEX_MAX_VALUE == 0x0F
    ensures LIST_MAX_LEN + 1 == 16
  {
  }
}

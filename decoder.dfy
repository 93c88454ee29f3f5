/** The read cursor of decoder.c: a transaction of a declared size, loaded once, read field by
    field from the position on. Every reader checks the header at the position, consumes the
    field and returns its value; a failed check aborts the program, here an Err result after
    which the decoder is not used again. */
module CteDecoder {
  import opened Cte
  import Bits
  import Varint
  import Fields
  import FixedWidth

  // ---------------------------------------------------------------------------------------
  // The readers on the loaded bytes
  // ---------------------------------------------------------------------------------------

  /** A value read at a position of the data, and the position after it. */
  datatype Read<+T> = Read(value: T, next: nat)

  /** Where the items of a list lie: the count from its header and the offset of the first. */
  datatype ListData = ListData(count: nat, offset: nat)

  /** Where a command payload lies: its length and the offset of its first byte. */
  datatype Payload = Payload(length: nat, offset: nat)

  /** The value of a read, without the position after it. */
  function ValueOf<T>(r: Result<Read<T>>): Result<T>
  {
    match r
    case Ok(x) => Ok(x.value)
    case Err(e) => Err(e)
  }

  /** A varint decoding of the bytes from offset `from` on, as a read in the whole buffer. */
  function ReadFrom(d: Result<Varint.Decoded>, from: nat): Result<Read<int>>
  {
    match d
    case Ok(x) => Ok(Read(x.value, from + x.length))
    case Err(e) => Err(e)
  }

  /** A method's result r and final position agree with the read `spec`: the same error, or
      the same value with the position right after it. */
  ghost predicate Agrees(r: Result<int>, spec: Result<Read<int>>, position: nat)
  {
    (r.Ok? <==> spec.Ok?) && (r.Err? ==> r.error == spec.error) &&
    (r.Ok? ==> r.value == spec.value.value && position == spec.value.next)
  }

  /** A varint decoding that fails agrees with returning its error, wherever the cursor is. */
  lemma FailedAgrees(whole: Result<Varint.Decoded>, e: Error, from: nat, position: nat)
    requires whole == Err(e)
    ensures Agrees(Err(e), ReadFrom(whole, from), position)
  {
  }

  /** A varint decoding of n bytes agrees with returning its value with the cursor n on. */
  lemma FinishedAgrees(whole: Result<Varint.Decoded>, value: int, n: nat, from: nat)
    requires whole == Ok(Varint.Decoded(value, n))
    ensures Agrees(Ok(value), ReadFrom(whole, from), from + n)
  {
  }

  /** Where the cursor stands after _consume_ixdata_header at p: it moves past the header only
      once the bounds, tag and sub-type checks have passed. */
  function AfterHeader(s: seq<u8>, p: nat, subtype: u8): nat
  {
    if IxDataHeaderAt(s, p, subtype).Ok? then p + 1 else p
  }

  /** _consume_ixdata_header at p: a byte must be left, with the IxData tag and the sub-type. */
  function IxDataHeaderAt(s: seq<u8>, p: nat, subtype: u8): (r: Result<Read<u8>>)
    ensures r.Ok? ==> r.value.next == p + 1 <= |s| && r.value.value == s[p]
    ensures r.Ok? ==> Fields.TagOf(s[p]) == TAG_IXDATA_FIELD && Fields.SubtypeOf(s[p]) == subtype
  {
    if p + 1 > |s| then Err(ReadPastEnd)
    else
      var header := s[p];
      if Fields.TagOf(header) != TAG_IXDATA_FIELD then Err(UnexpectedTag)
      else if Fields.SubtypeOf(header) != subtype then Err(UnexpectedSubtype)
      else Ok(Read(header, p + 1))
  }

  /** The body of both list readers at p: header in bounds, tag, count 1..15, then the header
      and all N items in bounds; the items are not copied, their offset is returned. */
  function ListAt(s: seq<u8>, p: nat, tag: u8): (r: Result<Read<ListData>>)
    requires tag == TAG_PUBLIC_KEY_LIST || tag == TAG_SIGNATURE_LIST
    ensures r.Ok? ==> 1 <= r.value.value.count <= LIST_MAX_LEN
    ensures r.Ok? ==> r.value.value.offset == p + 1 && p < r.value.next <= |s|
    ensures r.Ok? ==> Fields.TagOf(s[p]) == tag && r.value.value.count == Fields.DetailOf(s[p])
    ensures r.Ok? ==> var itemSize := Fields.ListItemSize(tag, Fields.CryptoTypeOf(s[p]));
      itemSize.Ok? && r.value.next == p + 1 + r.value.value.count * itemSize.value
    ensures r.Err? ==> r.error in {ReadPastEnd, UnexpectedTag, InvalidListLength}
  {
    if p + 1 > |s| then Err(ReadPastEnd)
    else
      var header := s[p];
      if Fields.TagOf(header) != tag then Err(UnexpectedTag)
      else
        var n := Fields.DetailOf(header);
        if n == 0 || n > LIST_MAX_LEN then Err(InvalidListLength)
        else
          // A two-bit crypto type always has an item size: the size tables' abort cannot happen.
          var itemSize := Fields.ListItemSize(tag, Fields.CryptoTypeOf(header)).value;
          if p + 1 + n * itemSize > |s| then Err(ReadPastEnd)
          else Ok(Read(ListData(n, p + 1), p + 1 + n * itemSize))
  }

  /** cte_decoder_read_ixdata_index_reference at p: the detail code is the index. */
  function IndexReferenceAt(s: seq<u8>, p: nat): (r: Result<Read<nat>>)
    ensures r.Ok? ==> r.value.value <= LEGACY_INDEX_MAX_VALUE && r.value.next == p + 1 <= |s|
    ensures r.Err? ==> r.error in {ReadPastEnd, UnexpectedTag, UnexpectedSubtype}
  {
    match IxDataHeaderAt(s, p, IXDATA_SUBTYPE_LEGACY_INDEX)
    case Err(e) => Err(e)
    case Ok(h) => Ok(Read(Fields.DetailOf(h.value), h.next))
  }

  /** cte_decoder_read_ixdata_uleb128 at p: a varint header of scheme 1, then _decode_uleb128.
      (The check for a scheme of 3 or more that follows cannot fail once the scheme is 1.) */
  function ULeb128FieldAt(s: seq<u8>, p: nat): (r: Result<Read<int>>)
    ensures r.Ok? ==> 0 <= r.value.value < Bits.TWO_64 && p + 2 <= r.value.next <= |s|
    ensures r.Err? ==> r.error in {ReadPastEnd, UnexpectedTag, UnexpectedSubtype, UnexpectedScheme, ULeb128Overflow}
  {
    match IxDataHeaderAt(s, p, IXDATA_SUBTYPE_VARINT)
    case Err(e) => Err(e)
    case Ok(h) =>
      if Fields.DetailOf(h.value) != IXDATA_VARINT_ENC_ULEB128 then Err(UnexpectedScheme)
      else
        ReadFrom(Varint.DecodeULeb128(s[p + 1..]), p + 1)
  }

  /** cte_decoder_read_ixdata_sleb128 at p: a varint header of scheme 2, then _decode_sleb128. */
  function SLeb128FieldAt(s: seq<u8>, p: nat): (r: Result<Read<int>>)
    ensures r.Ok? ==> -(Bits.TWO_63 as int) <= r.value.value < Bits.TWO_63 && p + 2 <= r.value.next <= |s|
    ensures r.Err? ==> r.error in {ReadPastEnd, UnexpectedTag, UnexpectedSubtype, UnexpectedScheme, SLeb128Overflow}
  {
    match IxDataHeaderAt(s, p, IXDATA_SUBTYPE_VARINT)
    case Err(e) => Err(e)
    case Ok(h) =>
      if Fields.DetailOf(h.value) != IXDATA_VARINT_ENC_SLEB128 then Err(UnexpectedScheme)
      else
        ReadFrom(Varint.DecodeSLeb128(s[p + 1..]), p + 1)
  }

  /** _read_fixed_data at p: a fixed header of the expected type code, then `width` payload
      bytes in bounds, copied out. */
  function FixedFieldAt(s: seq<u8>, p: nat, typeCode: u8, width: nat): (r: Result<Read<seq<u8>>>)
    ensures r.Ok? ==> |r.value.value| == width && r.value.next == p + 1 + width <= |s|
    ensures r.Ok? ==> s[p + 1..r.value.next] == r.value.value
    ensures r.Err? ==> r.error in {ReadPastEnd, UnexpectedTag, UnexpectedSubtype, UnexpectedFixedType, ReservedFixedType}
  {
    match IxDataHeaderAt(s, p, IXDATA_SUBTYPE_FIXED)
    case Err(e) => Err(e)
    case Ok(h) =>
      var code := Fields.DetailOf(h.value);
      if code != typeCode then Err(UnexpectedFixedType)
      else if code >= 0x0A then Err(ReservedFixedType)
      else if h.next + width > |s| then Err(ReadPastEnd)
      else Ok(Read(s[h.next..h.next + width], h.next + width))
  }

  /** A signed fixed field: its payload read as two's complement, little-endian. */
  function SignedFieldAt(s: seq<u8>, p: nat, typeCode: u8, width: nat): (r: Result<Read<int>>)
    ensures r.Ok? ==> FixedWidth.SignedFits(r.value.value, width) && r.value.next == p + 1 + width <= |s|
  {
    match FixedFieldAt(s, p, typeCode, width)
    case Err(e) => Err(e)
    case Ok(b) => Ok(Read(FixedWidth.SignedValue(b.value), b.next))
  }

  /** An unsigned fixed field: its payload read little-endian. */
  function UnsignedFieldAt(s: seq<u8>, p: nat, typeCode: u8, width: nat): (r: Result<Read<nat>>)
    ensures r.Ok? ==> r.value.value < FixedWidth.Pow256(width) && r.value.next == p + 1 + width <= |s|
  {
    match FixedFieldAt(s, p, typeCode, width)
    case Err(e) => Err(e)
    case Ok(b) => Ok(Read(FixedWidth.FromLittleEndian(b.value), b.next))
  }

  /** cte_decoder_read_ixdata_boolean at p: constant code 0 is false, 1 is true, the others
      are reserved. */
  function BooleanAt(s: seq<u8>, p: nat): (r: Result<Read<bool>>)
    ensures r.Ok? ==> r.value.next == p + 1 <= |s|
    ensures r.Err? ==> r.error in {ReadPastEnd, UnexpectedTag, UnexpectedSubtype, ReservedConstant}
  {
    match IxDataHeaderAt(s, p, IXDATA_SUBTYPE_CONSTANT)
    case Err(e) => Err(e)
    case Ok(h) =>
      var code := Fields.DetailOf(h.value);
      if code == IXDATA_CONST_VAL_FALSE then Ok(Read(false, h.next))
      else if code == IXDATA_CONST_VAL_TRUE then Ok(Read(true, h.next))
      else Err(ReservedConstant)
  }

  /** cte_decoder_read_ixdata_varint_zero at p: a varint header of scheme 0, nothing after it. */
  function VarintZeroAt(s: seq<u8>, p: nat): (r: Result<Read<()>>)
    ensures r.Ok? ==> r.value.next == p + 1 <= |s|
    ensures r.Err? ==> r.error in {ReadPastEnd, UnexpectedTag, UnexpectedSubtype, UnexpectedScheme}
  {
    match IxDataHeaderAt(s, p, IXDATA_SUBTYPE_VARINT)
    case Err(e) => Err(e)
    case Ok(h) =>
      if Fields.DetailOf(h.value) != IXDATA_VARINT_ENC_ZERO then Err(UnexpectedScheme)
      else Ok(Read((), h.next))
  }

  /** cte_decoder_read_command_data_payload at p: the header parsed within the data, then the
      header and the payload in bounds; the payload is not copied, its offset is returned. */
  function CommandPayloadAt(s: seq<u8>, p: nat): (r: Result<Read<Payload>>)
    requires p <= |s|
    ensures r.Ok? ==> r.value.value.length <= COMMAND_EXTENDED_MAX_LEN
    ensures r.Ok? ==> p < r.value.value.offset && r.value.value.offset + r.value.value.length == r.value.next <= |s|
    ensures r.Err? ==> r.error in {ReadPastEnd, UnexpectedTag, NonZeroPadding, InvalidExtendedLength, CommandHeaderUnavailable}
  {
    match Fields.ParseCommandDataHeader(s[p..])
    case NoHeader => Err(CommandHeaderUnavailable)
    case BadHeader(e) => Err(e)
    case HeaderAt(length, headerSize) =>
      if p + headerSize + length > |s| then Err(ReadPastEnd)
      else Ok(Read(Payload(length, p + headerSize), p + headerSize + length))
  }

  /** cte_decoder_peek_type at p: at position 0 the version byte is checked and skipped;
      then the end of the data, or the kind of the header there. */
  function PeekTypeAt(s: seq<u8>, p: nat): (r: Result<Read<int>>)
    requires 1 <= |s| && p <= |s|
    ensures r.Err? <==> p == 0 && s[0] != VERSION_BYTE
    ensures r.Err? ==> r.error == InvalidVersion
    ensures r.Ok? ==> r.value.next == (if p == 0 then 1 else p)
    ensures r.Ok? ==> (r.value.value == PEEK_EOF <==> r.value.next == |s|)
    ensures r.Ok? && r.value.next < |s| ==> r.value.value == Fields.Classify(s[r.value.next])
  {
    if p == 0 && s[0] != VERSION_BYTE then Err(InvalidVersion)
    else
      var q := if p == 0 then 1 else p;
      if q + 1 > |s| then Ok(Read(PEEK_EOF, q))
      else Ok(Read(Fields.Classify(s[q]), q))
  }

  // ---------------------------------------------------------------------------------------
  // Reading back what the encoder writes
  // ---------------------------------------------------------------------------------------

  /** A list header for valid arguments, followed by its items, reads back as that count
      with the items just after the header. */
  lemma ListRoundTrip(pre: seq<u8>, tag: u8, count: u8, typeCode: u8, items: seq<u8>, rest: seq<u8>)
    requires tag == TAG_PUBLIC_KEY_LIST || tag == TAG_SIGNATURE_LIST
    requires 1 <= count <= LIST_MAX_LEN && typeCode <= CRYPTO_TYPE_SLH_DSA_256F
    requires |items| == count * Fields.ListItemSize(tag, typeCode).value
    ensures ListAt(pre + [Fields.ListHeader(tag, count, typeCode)] + items + rest, |pre|, tag) ==
      Ok(Read(ListData(count, |pre| + 1), |pre| + 1 + |items|))
  {
    var s := pre + [Fields.ListHeader(tag, count, typeCode)] + items + rest;
    assert s[|pre|] == Fields.ListHeader(tag, count, typeCode);
    Fields.ListHeaderFields(tag, count, typeCode);
    ListAtHeader(s, |pre|, tag, count, typeCode, |items|);
  }

  /** A list header at p whose items all fit reads as its count, the items starting after it. */
  lemma ListAtHeader(s: seq<u8>, p: nat, tag: u8, count: u8, typeCode: u8, size: nat)
    requires tag == TAG_PUBLIC_KEY_LIST || tag == TAG_SIGNATURE_LIST
    requires p < |s| && Fields.TagOf(s[p]) == tag && Fields.DetailOf(s[p]) == count
    requires Fields.CryptoTypeOf(s[p]) == typeCode && 1 <= count <= LIST_MAX_LEN
    requires Fields.ListItemSize(tag, typeCode).Ok? && size == count * Fields.ListItemSize(tag, typeCode).value
    requires p + 1 + size <= |s|
    ensures ListAt(s, p, tag) == Ok(Read(ListData(count, p + 1), p + 1 + size))
  {
  }

  /** A legacy index reads back as itself. */
  lemma IndexReferenceRoundTrip(pre: seq<u8>, index: u8, rest: seq<u8>)
    requires index <= LEGACY_INDEX_MAX_VALUE
    ensures IndexReferenceAt(pre + [Fields.IxDataHeader(index, IXDATA_SUBTYPE_LEGACY_INDEX)] + rest, |pre|) ==
      Ok(Read(index, |pre| + 1))
  {
    var s := pre + [Fields.IxDataHeader(index, IXDATA_SUBTYPE_LEGACY_INDEX)] + rest;
    assert s[|pre|] == Fields.IxDataHeader(index, IXDATA_SUBTYPE_LEGACY_INDEX);
    Fields.IxDataHeaderFields(index, IXDATA_SUBTYPE_LEGACY_INDEX);
  }

  /** A ULEB128 field reads back as its value, and the read ends right after its bytes. */
  lemma {:induction false} ULeb128FieldRoundTrip(s: seq<u8>, p: nat, value: u64, rest: seq<u8>)
    requires p < |s| && s[p] == 0x85 && s[p + 1..] == Varint.ULeb128(value) + rest
    ensures ULeb128FieldAt(s, p) == Ok(Read(value, p + 1 + |Varint.ULeb128(value)|))
  {
    ULeb128BodyAt(s, p, value, rest);
    ULeb128FieldFromBody(s, p, value, |Varint.ULeb128(value)|);
  }

  /** A field whose body decodes to `value` reads as that value, ending after the body. */
  lemma {:induction false} ULeb128FieldFromBody(s: seq<u8>, p: nat, value: u64, n: nat)
    requires p < |s| && s[p] == 0x85
    requires Varint.DecodeULeb128(s[p + 1..]) == Ok(Varint.Decoded(value, n))
    ensures ULeb128FieldAt(s, p) == Ok(Read(value, p + 1 + n))
  {
    ULeb128FieldAfterHeader(s, p);
    var d := Varint.DecodeULeb128(s[p + 1..]);
    assert ReadFrom(d, p + 1) == Ok(Read(value, p + 1 + n));
  }

  /** The bytes after the header decode to the value. */
  lemma {:induction false} ULeb128BodyAt(s: seq<u8>, p: nat, value: u64, rest: seq<u8>)
    requires p < |s| && s[p + 1..] == Varint.ULeb128(value) + rest
    ensures Varint.DecodeULeb128(s[p + 1..]) == Ok(Varint.Decoded(value, |Varint.ULeb128(value)|))
  {
    Varint.ULeb128RoundTrip(value, rest);
  }

  /** An SLEB128 field reads back as its value, and the read ends right after its bytes. */
  lemma {:induction false} SLeb128FieldRoundTrip(s: seq<u8>, p: nat, value: i64, rest: seq<u8>)
    requires p < |s| && s[p] == 0x89 && s[p + 1..] == Varint.SLeb128(value) + rest
    ensures SLeb128FieldAt(s, p) == Ok(Read(value, p + 1 + |Varint.SLeb128(value)|))
  {
    SLeb128BodyAt(s, p, value, rest);
    SLeb128FieldFromBody(s, p, value);
  }

  /** A field whose body decodes to `value` reads as that value, ending after the body. */
  lemma {:induction false} SLeb128FieldFromBody(s: seq<u8>, p: nat, value: i64)
    requires p < |s| && s[p] == 0x89
    requires Varint.DecodeSLeb128(s[p + 1..]) == Ok(Varint.Decoded(value, |Varint.SLeb128(value)|))
    ensures SLeb128FieldAt(s, p) == Ok(Read(value, p + 1 + |Varint.SLeb128(value)|))
  {
    SLeb128FieldAfterHeader(s, p);
  }

  /** The bytes after the header decode to the value. */
  lemma {:induction false} SLeb128BodyAt(s: seq<u8>, p: nat, value: i64, rest: seq<u8>)
    requires p < |s| && s[p + 1..] == Varint.SLeb128(value) + rest
    ensures Varint.DecodeSLeb128(s[p + 1..]) == Ok(Varint.Decoded(value, |Varint.SLeb128(value)|))
  {
    Varint.SLeb128RoundTrip(value, rest);
  }

  /** After a ULEB128 header, the field is the decoding of the bytes that follow it. */
  lemma ULeb128FieldAfterHeader(s: seq<u8>, p: nat)
    requires p < |s| && s[p] == 0x85
    ensures ULeb128FieldAt(s, p) == ReadFrom(Varint.DecodeULeb128(s[p + 1..]), p + 1)
  {
    assert IxDataHeaderAt(s, p, IXDATA_SUBTYPE_VARINT) == Ok(Read(0x85, p + 1));
    assert Fields.DetailOf(0x85) == IXDATA_VARINT_ENC_ULEB128;
  }

  /** After an SLEB128 header, the field is the decoding of the bytes that follow it. */
  lemma SLeb128FieldAfterHeader(s: seq<u8>, p: nat)
    requires p < |s| && s[p] == 0x89
    ensures SLeb128FieldAt(s, p) == ReadFrom(Varint.DecodeSLeb128(s[p + 1..]), p + 1)
  {
    assert IxDataHeaderAt(s, p, IXDATA_SUBTYPE_VARINT) == Ok(Read(0x89, p + 1));
    assert Fields.DetailOf(0x89) == IXDATA_VARINT_ENC_SLEB128;
  }

  /** A fixed field reads back as the payload written after its header. */
  lemma FixedFieldRoundTrip(pre: seq<u8>, typeCode: u8, payload: seq<u8>, rest: seq<u8>)
    requires typeCode <= IXDATA_FIXED_TYPE_FLOAT64
    ensures FixedFieldAt(pre + [Fields.IxDataHeader(typeCode, IXDATA_SUBTYPE_FIXED)] + payload + rest, |pre|, typeCode, |payload|) ==
      Ok(Read(payload, |pre| + 1 + |payload|))
  {
    var s := pre + [Fields.IxDataHeader(typeCode, IXDATA_SUBTYPE_FIXED)] + payload + rest;
    assert s[|pre|] == Fields.IxDataHeader(typeCode, IXDATA_SUBTYPE_FIXED);
    assert s[|pre| + 1..|pre| + 1 + |payload|] == payload;
    Fields.IxDataHeaderFields(typeCode, IXDATA_SUBTYPE_FIXED);
  }

  /** A signed fixed field reads back as its value. */
  lemma SignedFieldRoundTrip(pre: seq<u8>, typeCode: u8, value: int, width: nat, rest: seq<u8>)
    requires typeCode <= IXDATA_FIXED_TYPE_FLOAT64 && FixedWidth.SignedFits(value, width)
    ensures SignedFieldAt(pre + [Fields.IxDataHeader(typeCode, IXDATA_SUBTYPE_FIXED)] + FixedWidth.SignedBytes(value, width) + rest,
                          |pre|, typeCode, width) ==
      Ok(Read(value, |pre| + 1 + width))
  {
    FixedFieldRoundTrip(pre, typeCode, FixedWidth.SignedBytes(value, width), rest);
    FixedWidth.SignedRoundTrip(value, width);
  }

  /** An unsigned fixed field reads back as its value. */
  lemma {:induction false} UnsignedFieldRoundTrip(pre: seq<u8>, typeCode: u8, value: nat, width: nat, rest: seq<u8>)
    requires typeCode <= IXDATA_FIXED_TYPE_FLOAT64 && value < FixedWidth.Pow256(width)
    ensures UnsignedFieldAt(pre + [Fields.IxDataHeader(typeCode, IXDATA_SUBTYPE_FIXED)] + FixedWidth.LittleEndian(value, width) + rest,
                            |pre|, typeCode, width) ==
      Ok(Read(value, |pre| + 1 + width))
  {
    FixedFieldRoundTrip(pre, typeCode, FixedWidth.LittleEndian(value, width), rest);
    FixedWidth.FromLittleEndianOfLittleEndian(value, width);
  }

  /** A boolean reads back as itself. */
  lemma BooleanRoundTrip(pre: seq<u8>, value: bool, rest: seq<u8>)
    ensures BooleanAt(pre + [if value then 0x87 else 0x83] + rest, |pre|) == Ok(Read(value, |pre| + 1))
  {
    var s := pre + [if value then 0x87 else 0x83] + rest;
    assert s[|pre|] == if value then 0x87 else 0x83;
  }

  /** The zero varint is exactly the header byte 0x81. */
  lemma VarintZeroOnly(s: seq<u8>, p: nat)
    ensures VarintZeroAt(s, p).Ok? <==> p < |s| && s[p] == 0x81
  {
    if p < |s| {
      Fields.HeaderFromFields(s[p]);
    }
  }

  /** The boolean reader accepts exactly the two constant headers 0x83 and 0x87, reads 0x87 as
      true, and refuses a constant header of a reserved code. */
  lemma BooleanOnly(s: seq<u8>, p: nat)
    ensures BooleanAt(s, p).Ok? <==> p < |s| && (s[p] == 0x83 || s[p] == 0x87)
    ensures BooleanAt(s, p).Ok? ==> BooleanAt(s, p).value.value == (s[p] == 0x87)
    ensures (p < |s| && Fields.TagOf(s[p]) == TAG_IXDATA_FIELD &&
             Fields.SubtypeOf(s[p]) == IXDATA_SUBTYPE_CONSTANT && Fields.DetailOf(s[p]) > IXDATA_CONST_VAL_TRUE) ==>
      BooleanAt(s, p) == Err(ReservedConstant)
  {
    if p < |s| {
      Fields.HeaderFromFields(s[p]);
    }
  }

  /** The fixed reader accepts exactly the header of the expected, non-reserved type code with
      its payload in bounds; another code is UnexpectedFixedType, and a reserved code asked for
      is ReservedFixedType. */
  lemma FixedFieldOnly(s: seq<u8>, p: nat, typeCode: u8, width: nat)
    ensures FixedFieldAt(s, p, typeCode, width).Ok? <==>
      p < |s| && typeCode <= IXDATA_FIXED_TYPE_FLOAT64 &&
      s[p] == Fields.IxDataHeader(typeCode, IXDATA_SUBTYPE_FIXED) && p + 1 + width <= |s|
    ensures p < |s| && Fields.TagOf(s[p]) == TAG_IXDATA_FIELD && Fields.SubtypeOf(s[p]) == IXDATA_SUBTYPE_FIXED ==>
      (Fields.DetailOf(s[p]) != typeCode ==> FixedFieldAt(s, p, typeCode, width) == Err(UnexpectedFixedType)) &&
      (Fields.DetailOf(s[p]) == typeCode > IXDATA_FIXED_TYPE_FLOAT64 ==>
        FixedFieldAt(s, p, typeCode, width) == Err(ReservedFixedType))
  {
    if p < |s| {
      Fields.HeaderFromFields(s[p]);
    }
  }

  /** A command payload after the header the encoder writes for its length reads back as that
      payload, found right after the header. */
  lemma CommandPayloadRoundTrip(pre: seq<u8>, payload: seq<u8>, rest: seq<u8>)
    requires |payload| <= COMMAND_EXTENDED_MAX_LEN
    ensures var header := Fields.CommandDataHeader(|payload|).value;
      var s := pre + header + payload + rest;
      CommandPayloadAt(s, |pre|) ==
        Ok(Read(Payload(|payload|, |pre| + |header|), |pre| + |header| + |payload|)) &&
      s[|pre| + |header|..|pre| + |header| + |payload|] == payload
  {
    var header := Fields.CommandDataHeader(|payload|).value;
    var s := pre + header + payload + rest;
    assert s[|pre|..] == header + (payload + rest);
    Fields.CommandHeaderRoundTrip(|payload|, payload + rest);
    assert s[|pre| + |header|..|pre| + |header| + |payload|] == payload;
  }

  /** At the end of the data every reader fails: a read past the end, or no command header. */
  lemma ReadersAtEnd(s: seq<u8>, tag: u8, subtype: u8, typeCode: u8, width: nat)
    requires tag == TAG_PUBLIC_KEY_LIST || tag == TAG_SIGNATURE_LIST
    ensures ListAt(s, |s|, tag) == Err(ReadPastEnd)
    ensures IxDataHeaderAt(s, |s|, subtype) == Err(ReadPastEnd)
    ensures ULeb128FieldAt(s, |s|) == Err(ReadPastEnd) && SLeb128FieldAt(s, |s|) == Err(ReadPastEnd)
    ensures FixedFieldAt(s, |s|, typeCode, width) == Err(ReadPastEnd)
    ensures BooleanAt(s, |s|) == Err(ReadPastEnd) && VarintZeroAt(s, |s|) == Err(ReadPastEnd)
    ensures CommandPayloadAt(s, |s|) == Err(CommandHeaderUnavailable)
  {
  }

  /** A header of another kind than the reader expects is refused by its tag. */
  lemma ReadersCheckTag(s: seq<u8>, p: nat)
    requires p < |s|
    ensures Fields.TagOf(s[p]) != TAG_IXDATA_FIELD ==>
      IndexReferenceAt(s, p) == Err(UnexpectedTag) && ULeb128FieldAt(s, p) == Err(UnexpectedTag) &&
      BooleanAt(s, p) == Err(UnexpectedTag)
    ensures Fields.TagOf(s[p]) != TAG_PUBLIC_KEY_LIST ==> ListAt(s, p, TAG_PUBLIC_KEY_LIST) == Err(UnexpectedTag)
    ensures Fields.TagOf(s[p]) != TAG_COMMAND_DATA ==> CommandPayloadAt(s, p) == Err(UnexpectedTag)
  {
    assert s[p..][0] == s[p];
  }

  /** Past the version byte the peek consumes nothing, and what it reports for a header the
      encoder writes is the kind it was written as. */
  lemma PeekWrittenHeader(pre: seq<u8>, detail: u8, subtype: u8, rest: seq<u8>)
    requires 1 <= |pre|
    requires subtype <= IXDATA_SUBTYPE_CONSTANT && detail <= 0x0F && !Fields.IxDataReserved(subtype, detail)
    ensures PeekTypeAt(pre + [Fields.IxDataHeader(detail, subtype)] + rest, |pre|) ==
      Ok(Read(Fields.IxDataPeekId(subtype, detail), |pre|))
  {
    var s := pre + [Fields.IxDataHeader(detail, subtype)] + rest;
    assert s[|pre|] == Fields.IxDataHeader(detail, subtype);
    Fields.ClassifyWrittenHeaders(TAG_PUBLIC_KEY_LIST, 1, 0, detail, subtype);
  }

  // ---------------------------------------------------------------------------------------
  // The decoder context
  // ---------------------------------------------------------------------------------------

  class Decoder {
    /** The buffer of the declared size, filled by the caller through Load. */
    const data: array<u8>
    const size: nat
    var position: nat
    /** The count read by the last list reader (cte_decoder_get_last_list_count). */
    var lastListCount: nat
    /** The length read by the last command payload reader. */
    var lastCmdLen: nat

    /** The size is one of init's accepted sizes, the position in the data, and the two
        remembered values within what a header can hold. */
    ghost predicate Valid()
      reads this
    {
      data.Length == size && 1 <= size <= MAX_TRANSACTION_SIZE && position <= size &&
      lastListCount <= LIST_MAX_LEN && lastCmdLen <= COMMAND_EXTENDED_MAX_LEN
    }

    /** cte_decoder_init for a size it accepts: position 0, nothing read yet. */
    constructor (size: nat)
      requires 1 <= size <= MAX_TRANSACTION_SIZE
      ensures Valid() && fresh(data)
      ensures this.size == size && position == 0 && lastListCount == 0 && lastCmdLen == 0
    {
      this.size := size;
      data := new u8[size];
      position := 0;
      lastListCount := 0;
      lastCmdLen := 0;
    }

    /** cte_decoder_init: a zero size, then a size above the transaction limit, is refused. */
    static method Init(size: nat) returns (r: Result<Decoder>)
      ensures r.Ok? <==> 1 <= size <= MAX_TRANSACTION_SIZE
      ensures r.Err? ==> r.error == (if size == 0 then ZeroSize else SizeTooLarge)
      ensures r.Ok? ==> fresh(r.value) && fresh(r.value.data) && r.value.Valid()
      ensures r.Ok? ==> r.value.size == size && r.value.position == 0
    {
      if size == 0 {
        return Err(ZeroSize);
      }
      if size > MAX_TRANSACTION_SIZE {
        return Err(SizeTooLarge);
      }
      var d := new Decoder(size);
      return Ok(d);
    }

    /** cte_decoder_load with the caller's copy into the buffer it returns. */
    method Load(bytes: seq<u8>)
      requires Valid() && |bytes| == size
      modifies data
      ensures Valid() && data[..] == bytes
    {
      forall k | 0 <= k < size {
        data[k] := bytes[k];
      }
    }

    /** cte_decoder_reset: back to the first field after the version byte. */
    method Reset()
      requires Valid()
      modifies this`position
      ensures Valid() && position == 1
    {
      position := 1;
    }

    /** _cte_decoder_peek_header_byte: the byte at the position, or -1 at the end. */
    function PeekHeaderByte(): (r: int)
      reads this, data
      requires Valid()
      ensures r == -1 || 0 <= r < 256
      ensures r == -1 <==> position == size
    {
      if position + 1 > size then -1 else data[position]
    }

    /** cte_decoder_peek_type. */
    method PeekType() returns (r: Result<int>)
      requires Valid()
      modifies this`position
      ensures Valid()
      ensures r == ValueOf(PeekTypeAt(data[..], old(position)))
      ensures r.Ok? ==> position == PeekTypeAt(data[..], old(position)).value.next
      ensures r.Err? ==> position == old(position)
    {
      if position == 0 {
        if data[0] != VERSION_BYTE {
          return Err(InvalidVersion);
        }
        position := position + 1;
      }
      var headerByte := PeekHeaderByte();
      if headerByte == -1 {
        return Ok(PEEK_EOF);
      }
      return Ok(Fields.Classify(headerByte));
    }

    /** _consume_ixdata_header. */
    method ConsumeIxDataHeader(subtype: u8) returns (r: Result<u8>)
      requires Valid()
      modifies this`position
      ensures Valid()
      ensures r == ValueOf(IxDataHeaderAt(data[..], old(position), subtype))
      ensures r.Ok? ==> position == old(position) + 1
      ensures r.Err? ==> position == old(position)
    {
      if position + 1 > size {
        return Err(ReadPastEnd);
      }
      var header := data[position];
      if Fields.TagOf(header) != TAG_IXDATA_FIELD {
        return Err(UnexpectedTag);
      }
      if Fields.SubtypeOf(header) != subtype {
        return Err(UnexpectedSubtype);
      }
      position := position + 1;
      return Ok(header);
    }

    // -------------------------------------------------------------------------------------
    // Lists
    // -------------------------------------------------------------------------------------

    /** The common body of the two list readers; the result is the offset of the items. */
    method ReadList(tag: u8) returns (r: Result<nat>)
      requires Valid() && (tag == TAG_PUBLIC_KEY_LIST || tag == TAG_SIGNATURE_LIST)
      modifies this`position, this`lastListCount
      ensures Valid()
      ensures r.Err? ==> position == old(position) && lastListCount == old(lastListCount)
      ensures var spec := ListAt(data[..], old(position), tag);
        (r.Ok? <==> spec.Ok?) && (r.Err? ==> r.error == spec.error) &&
        (r.Ok? ==> r.value == spec.value.value.offset && position == spec.value.next &&
                   lastListCount == spec.value.value.count)
    {
      if position + 1 > size {
        return Err(ReadPastEnd);
      }
      var header := data[position];
      if Fields.TagOf(header) != tag {
        return Err(UnexpectedTag);
      }
      var n := Fields.DetailOf(header);
      if n == 0 || n > LIST_MAX_LEN {
        return Err(InvalidListLength);
      }
      // get_public_key_size and get_signature_item_size cannot abort on a two-bit type code.
      var itemSize := Fields.ListItemSize(tag, Fields.CryptoTypeOf(header)).value;
      var totalDataSize := n * itemSize;
      if position + 1 + totalDataSize > size {
        return Err(ReadPastEnd);
      }
      position := position + 1;
      lastListCount := n;
      r := Ok(position);
      position := position + totalDataSize;
    }

    /** cte_decoder_read_public_key_list_data. */
    method ReadPublicKeyListData() returns (r: Result<nat>)
      requires Valid()
      modifies this`position, this`lastListCount
      ensures Valid()
      ensures r.Err? ==> position == old(position) && lastListCount == old(lastListCount)
      ensures var spec := ListAt(data[..], old(position), TAG_PUBLIC_KEY_LIST);
        (r.Ok? <==> spec.Ok?) && (r.Err? ==> r.error == spec.error) &&
        (r.Ok? ==> r.value == spec.value.value.offset && position == spec.value.next &&
                   lastListCount == spec.value.value.count)
    {
      r := ReadList(TAG_PUBLIC_KEY_LIST);
    }

    /** cte_decoder_read_signature_list_data. */
    method ReadSignatureListData() returns (r: Result<nat>)
      requires Valid()
      modifies this`position, this`lastListCount
      ensures Valid()
      ensures r.Err? ==> position == old(position) && lastListCount == old(lastListCount)
      ensures var spec := ListAt(data[..], old(position), TAG_SIGNATURE_LIST);
        (r.Ok? <==> spec.Ok?) && (r.Err? ==> r.error == spec.error) &&
        (r.Ok? ==> r.value == spec.value.value.offset && position == spec.value.next &&
                   lastListCount == spec.value.value.count)
    {
      r := ReadList(TAG_SIGNATURE_LIST);
    }

    // -------------------------------------------------------------------------------------
    // One-byte IxData fields
    // -------------------------------------------------------------------------------------

    /** cte_decoder_read_ixdata_index_reference. */
    method ReadIxDataIndexReference() returns (r: Result<u8>)
      requires Valid()
      modifies this`position
      ensures Valid()
      ensures r == ValueOf(IndexReferenceAt(data[..], old(position)))
      ensures r.Ok? ==> position == IndexReferenceAt(data[..], old(position)).value.next
      ensures r.Err? ==> position == old(position)
    {
      var header := ConsumeIxDataHeader(IXDATA_SUBTYPE_LEGACY_INDEX);
      if header.Err? {
        return Err(header.error);
      }
      return Ok(Fields.DetailOf(header.value));
    }

    /** cte_decoder_read_ixdata_boolean. */
    method ReadIxDataBoolean() returns (r: Result<bool>)
      requires Valid()
      modifies this`position
      ensures Valid()
      ensures r == ValueOf(BooleanAt(data[..], old(position)))
      ensures r.Ok? ==> position == BooleanAt(data[..], old(position)).value.next
      ensures r.Err? ==> position == AfterHeader(data[..], old(position), IXDATA_SUBTYPE_CONSTANT)
    {
      var header := ConsumeIxDataHeader(IXDATA_SUBTYPE_CONSTANT);
      if header.Err? {
        return Err(header.error);
      }
      var code := Fields.DetailOf(header.value);
      if code == IXDATA_CONST_VAL_FALSE {
        return Ok(false);
      } else if code == IXDATA_CONST_VAL_TRUE {
        return Ok(true);
      } else {
        return Err(ReservedConstant);
      }
    }

    /** cte_decoder_read_ixdata_varint_zero. */
    method ReadIxDataVarintZero() returns (r: Outcome)
      requires Valid()
      modifies this`position
      ensures Valid()
      ensures var spec := VarintZeroAt(data[..], old(position));
        (r.Done? <==> spec.Ok?) && (r.Failed? ==> r.error == spec.error) &&
        (r.Done? ==> position == spec.value.next)
      ensures r.Failed? ==> position == AfterHeader(data[..], old(position), IXDATA_SUBTYPE_VARINT)
    {
      var header := ConsumeIxDataHeader(IXDATA_SUBTYPE_VARINT);
      if header.Err? {
        return Failed(header.error);
      }
      if Fields.DetailOf(header.value) != IXDATA_VARINT_ENC_ZERO {
        return Failed(UnexpectedScheme);
      }
      return Done;
    }

    // -------------------------------------------------------------------------------------
    // Varint IxData fields
    // -------------------------------------------------------------------------------------

    /** _decode_uleb128: up to ten bytes, each checked in bounds, then one pass of the loop
        body on it (Varint.ULeb128Pass: the overflow check at shift 7 * i, the seven low bits
        or-ed in, the stop on a byte without the continuation bit). */
    method DecodeULeb128() returns (r: Result<u64>)
      requires Valid()
      modifies this`position
      ensures Valid()
      ensures Agrees(r, ReadFrom(Varint.DecodeULeb128(data[old(position)..]), old(position)), position)
      ensures r.Err? ==> old(position) <= position <= old(position) + 10
    {
      ghost var s0 := data[position..];
      ghost var p0 := position;
      ghost var whole := Varint.DecodeULeb128(s0);
      Varint.DecodeULeb128Start(s0);
      var result: nat := 0;
      var i: nat := 0;
      while true
        invariant Valid()
        invariant i < 10 && position == p0 + i
        invariant result < Bits.Pow2(7 * i)
        invariant whole.Ok? ==> whole.value.value < Bits.TWO_64
        invariant whole == Varint.Resume(result, i, Varint.ULeb128From(s0[i..], i))
        decreases 10 - i
      {
        ghost var rest := s0[i..];
        if position + 1 > size {
          Varint.ULeb128ResumeStop(rest, i, result);
          FailedAgrees(whole, ReadPastEnd, p0, position);
          return Err(ReadPastEnd);
        }
        var byte := data[position];
        position := position + 1;
        assert rest[0] == byte && rest[1..] == s0[i + 1..];
        Varint.ULeb128PassResume(rest, i, result);
        match Varint.ULeb128Pass(result, i, byte)
        case Stop(e) =>
          FailedAgrees(whole, e, p0, position);
          return Err(e);
        case Finish(value) =>
          FinishedAgrees(whole, value, i + 1, p0);
          return Ok(value);
        case Continue(acc) => result := acc;
        i := i + 1;
      }
    }

    /** _decode_sleb128: up to ten bytes, each checked in bounds, then one pass of the loop
        body on it (Varint.SLeb128Pass: the seven low bits or-ed in at shift 7 * i, the sign
        extension of a last byte, the overflow of a continuation byte at shift 63). */
    method DecodeSLeb128() returns (r: Result<i64>)
      requires Valid()
      modifies this`position
      ensures Valid()
      ensures Agrees(r, ReadFrom(Varint.DecodeSLeb128(data[old(position)..]), old(position)), position)
      ensures r.Err? ==> old(position) <= position <= old(position) + 10
    {
      ghost var s0 := data[position..];
      ghost var p0 := position;
      ghost var whole := Varint.DecodeSLeb128(s0);
      Varint.DecodeSLeb128Start(s0);
      var result: int := 0;
      var i: nat := 0;
      while true
        invariant Valid()
        invariant i < 10 && position == p0 + i
        invariant 0 <= result < Bits.Pow2(7 * i)
        invariant whole == Varint.Resume(result, i, Varint.SLeb128From(s0[i..], i))
        decreases 10 - i
      {
        ghost var rest := s0[i..];
        if position + 1 > size {
          Varint.SLeb128ResumeStop(rest, i, result);
          FailedAgrees(whole, ReadPastEnd, p0, position);
          return Err(ReadPastEnd);
        }
        var byte := data[position];
        position := position + 1;
        assert rest[0] == byte && rest[1..] == s0[i + 1..];
        Varint.SLeb128PassResume(rest, i, result);
        match Varint.SLeb128Pass(result, i, byte)
        case Stop(e) =>
          FailedAgrees(whole, e, p0, position);
          return Err(e);
        case Finish(value) =>
          FinishedAgrees(whole, value, i + 1, p0);
          return Ok(value);
        case Continue(acc) => result := acc;
        i := i + 1;
      }
    }

    /** cte_decoder_read_ixdata_uleb128. */
    method ReadIxDataULeb128() returns (r: Result<u64>)
      requires Valid()
      modifies this`position
      ensures Valid()
      ensures Agrees(r, ULeb128FieldAt(data[..], old(position)), position)
      ensures r.Err? ==> (position == old(position) <==> IxDataHeaderAt(data[..], old(position), IXDATA_SUBTYPE_VARINT).Err?)
      ensures r.Err? ==> old(position) <= position <= old(position) + 11
    {
      ghost var p := position;
      var header := ConsumeIxDataHeader(IXDATA_SUBTYPE_VARINT);
      if header.Err? {
        return Err(header.error);
      }
      if Fields.DetailOf(header.value) != IXDATA_VARINT_ENC_ULEB128 {
        return Err(UnexpectedScheme);
      }
      Fields.HeaderFromFields(header.value);
      Fields.VarintHeaderBytes();
      ULeb128FieldAfterHeader(data[..], p);
      assert data[..][p + 1..] == data[position..];
      r := DecodeULeb128();
    }

    /** cte_decoder_read_ixdata_sleb128. */
    method ReadIxDataSLeb128() returns (r: Result<i64>)
      requires Valid()
      modifies this`position
      ensures Valid()
      ensures Agrees(r, SLeb128FieldAt(data[..], old(position)), position)
      ensures r.Err? ==> (position == old(position) <==> IxDataHeaderAt(data[..], old(position), IXDATA_SUBTYPE_VARINT).Err?)
      ensures r.Err? ==> old(position) <= position <= old(position) + 11
    {
      ghost var p := position;
      var header := ConsumeIxDataHeader(IXDATA_SUBTYPE_VARINT);
      if header.Err? {
        return Err(header.error);
      }
      if Fields.DetailOf(header.value) != IXDATA_VARINT_ENC_SLEB128 {
        return Err(UnexpectedScheme);
      }
      Fields.HeaderFromFields(header.value);
      Fields.VarintHeaderBytes();
      SLeb128FieldAfterHeader(data[..], p);
      assert data[..][p + 1..] == data[position..];
      r := DecodeSLeb128();
    }

    // -------------------------------------------------------------------------------------
    // Fixed-width IxData fields
    // -------------------------------------------------------------------------------------

    /** _read_fixed_data: the payload bytes are copied out. */
    method ReadFixedData(typeCode: u8, width: nat) returns (r: Result<seq<u8>>)
      requires Valid()
      modifies this`position
      ensures Valid()
      ensures r == ValueOf(FixedFieldAt(data[..], old(position), typeCode, width))
      ensures r.Ok? ==> position == FixedFieldAt(data[..], old(position), typeCode, width).value.next
      ensures r.Err? ==> position == AfterHeader(data[..], old(position), IXDATA_SUBTYPE_FIXED)
    {
      var header := ConsumeIxDataHeader(IXDATA_SUBTYPE_FIXED);
      if header.Err? {
        return Err(header.error);
      }
      var code := Fields.DetailOf(header.value);
      if code != typeCode {
        return Err(UnexpectedFixedType);
      }
      if code >= 0x0A {
        return Err(ReservedFixedType);
      }
      if position + width > size {
        return Err(ReadPastEnd);
      }
      r := Ok(data[position..position + width]);
      position := position + width;
    }

    /** The reader of one signed fixed type. */
    method ReadSigned(typeCode: u8, width: nat) returns (r: Result<int>)
      requires Valid()
      modifies this`position
      ensures Valid()
      ensures r == ValueOf(SignedFieldAt(data[..], old(position), typeCode, width))
      ensures r.Ok? ==> position == SignedFieldAt(data[..], old(position), typeCode, width).value.next
      ensures r.Err? ==> position == AfterHeader(data[..], old(position), IXDATA_SUBTYPE_FIXED)
    {
      var bytes := ReadFixedData(typeCode, width);
      if bytes.Err? {
        return Err(bytes.error);
      }
      return Ok(FixedWidth.SignedValue(bytes.value));
    }

    /** The reader of one unsigned fixed type. */
    method ReadUnsigned(typeCode: u8, width: nat) returns (r: Result<nat>)
      requires Valid()
      modifies this`position
      ensures Valid()
      ensures r == ValueOf(UnsignedFieldAt(data[..], old(position), typeCode, width))
      ensures r.Ok? ==> position == UnsignedFieldAt(data[..], old(position), typeCode, width).value.next
      ensures r.Err? ==> position == AfterHeader(data[..], old(position), IXDATA_SUBTYPE_FIXED)
    {
      var bytes := ReadFixedData(typeCode, width);
      if bytes.Err? {
        return Err(bytes.error);
      }
      return Ok(FixedWidth.FromLittleEndian(bytes.value));
    }

    method ReadIxDataInt8() returns (r: Result<int>)
      requires Valid()
      modifies this`position
      ensures Valid() && r == ValueOf(SignedFieldAt(data[..], old(position), IXDATA_FIXED_TYPE_INT8, 1))
      ensures r.Err? ==> position == AfterHeader(data[..], old(position), IXDATA_SUBTYPE_FIXED)
      ensures r.Ok? ==> -0x80 <= r.value < 0x80
      ensures r.Ok? ==> position == old(position) + 2
    {
      FixedWidth.WidthBounds();
      r := ReadSigned(IXDATA_FIXED_TYPE_INT8, 1);
    }

    method ReadIxDataInt16() returns (r: Result<int>)
      requires Valid()
      modifies this`position
      ensures Valid() && r == ValueOf(SignedFieldAt(data[..], old(position), IXDATA_FIXED_TYPE_INT16, 2))
      ensures r.Err? ==> position == AfterHeader(data[..], old(position), IXDATA_SUBTYPE_FIXED)
      ensures r.Ok? ==> -0x8000 <= r.value < 0x8000
      ensures r.Ok? ==> position == old(position) + 3
    {
      FixedWidth.WidthBounds();
      r := ReadSigned(IXDATA_FIXED_TYPE_INT16, 2);
    }

    method ReadIxDataInt32() returns (r: Result<int>)
      requires Valid()
      modifies this`position
      ensures Valid() && r == ValueOf(SignedFieldAt(data[..], old(position), IXDATA_FIXED_TYPE_INT32, 4))
      ensures r.Err? ==> position == AfterHeader(data[..], old(position), IXDATA_SUBTYPE_FIXED)
      ensures r.Ok? ==> -0x8000_0000 <= r.value < 0x8000_0000
      ensures r.Ok? ==> position == old(position) + 5
    {
      FixedWidth.WidthBounds();
      r := ReadSigned(IXDATA_FIXED_TYPE_INT32, 4);
    }

    method ReadIxDataInt64() returns (r: Result<int>)
      requires Valid()
      modifies this`position
      ensures Valid() && r == ValueOf(SignedFieldAt(data[..], old(position), IXDATA_FIXED_TYPE_INT64, 8))
      ensures r.Err? ==> position == AfterHeader(data[..], old(position), IXDATA_SUBTYPE_FIXED)
      ensures r.Ok? ==> -0x8000_0000_0000_0000 <= r.value < 0x8000_0000_0000_0000
      ensures r.Ok? ==> position == old(position) + 9
    {
      FixedWidth.WidthBounds();
      r := ReadSigned(IXDATA_FIXED_TYPE_INT64, 8);
    }

    method ReadIxDataUint8() returns (r: Result<nat>)
      requires Valid()
      modifies this`position
      ensures Valid() && r == ValueOf(UnsignedFieldAt(data[..], old(position), IXDATA_FIXED_TYPE_UINT8, 1))
      ensures r.Err? ==> position == AfterHeader(data[..], old(position), IXDATA_SUBTYPE_FIXED)
      ensures r.Ok? ==> r.value < 0x100
      ensures r.Ok? ==> position == old(position) + 2
    {
      FixedWidth.WidthBounds();
      r := ReadUnsigned(IXDATA_FIXED_TYPE_UINT8, 1);
    }

    method ReadIxDataUint16() returns (r: Result<nat>)
      requires Valid()
      modifies this`position
      ensures Valid() && r == ValueOf(UnsignedFieldAt(data[..], old(position), IXDATA_FIXED_TYPE_UINT16, 2))
      ensures r.Err? ==> position == AfterHeader(data[..], old(position), IXDATA_SUBTYPE_FIXED)
      ensures r.Ok? ==> r.value < 0x1_0000
      ensures r.Ok? ==> position == old(position) + 3
    {
      FixedWidth.WidthBounds();
      r := ReadUnsigned(IXDATA_FIXED_TYPE_UINT16, 2);
    }

    method ReadIxDataUint32() returns (r: Result<nat>)
      requires Valid()
      modifies this`position
      ensures Valid() && r == ValueOf(UnsignedFieldAt(data[..], old(position), IXDATA_FIXED_TYPE_UINT32, 4))
      ensures r.Err? ==> position == AfterHeader(data[..], old(position), IXDATA_SUBTYPE_FIXED)
      ensures r.Ok? ==> r.value < 0x1_0000_0000
      ensures r.Ok? ==> position == old(position) + 5
    {
      FixedWidth.WidthBounds();
      r := ReadUnsigned(IXDATA_FIXED_TYPE_UINT32, 4);
    }

    method ReadIxDataUint64() returns (r: Result<nat>)
      requires Valid()
      modifies this`position
      ensures Valid() && r == ValueOf(UnsignedFieldAt(data[..], old(position), IXDATA_FIXED_TYPE_UINT64, 8))
      ensures r.Err? ==> position == AfterHeader(data[..], old(position), IXDATA_SUBTYPE_FIXED)
      ensures r.Ok? ==> r.value < 0x1_0000_0000_0000_0000
      ensures r.Ok? ==> position == old(position) + 9
    {
      FixedWidth.WidthBounds();
      r := ReadUnsigned(IXDATA_FIXED_TYPE_UINT64, 8);
    }

    /** A float32 field: its four IEEE 754 bytes, as they are. */
    method ReadIxDataFloat32() returns (r: Result<seq<u8>>)
      requires Valid()
      modifies this`position
      ensures Valid() && r == ValueOf(FixedFieldAt(data[..], old(position), IXDATA_FIXED_TYPE_FLOAT32, 4))
      ensures r.Err? ==> position == AfterHeader(data[..], old(position), IXDATA_SUBTYPE_FIXED)
      ensures r.Ok? ==> |r.value| == 4 && position == old(position) + 5
    {
      r := ReadFixedData(IXDATA_FIXED_TYPE_FLOAT32, 4);
    }

    /** A float64 field: its eight IEEE 754 bytes, as they are. */
    method ReadIxDataFloat64() returns (r: Result<seq<u8>>)
      requires Valid()
      modifies this`position
      ensures Valid() && r == ValueOf(FixedFieldAt(data[..], old(position), IXDATA_FIXED_TYPE_FLOAT64, 8))
      ensures r.Err? ==> position == AfterHeader(data[..], old(position), IXDATA_SUBTYPE_FIXED)
      ensures r.Ok? ==> |r.value| == 8 && position == old(position) + 9
    {
      r := ReadFixedData(IXDATA_FIXED_TYPE_FLOAT64, 8);
    }

    // -------------------------------------------------------------------------------------
    // Command data
    // -------------------------------------------------------------------------------------

    /** cte_decoder_read_command_data_payload; the result is the offset of the payload. */
    method ReadCommandDataPayload() returns (r: Result<nat>)
      requires Valid()
      modifies this`position, this`lastCmdLen
      ensures Valid()
      ensures r.Err? ==> position == old(position) && lastCmdLen == old(lastCmdLen)
      ensures var spec := CommandPayloadAt(data[..], old(position));
        (r.Ok? <==> spec.Ok?) && (r.Err? ==> r.error == spec.error) &&
        (r.Ok? ==> r.value == spec.value.value.offset && position == spec.value.next &&
                   lastCmdLen == spec.value.value.length)
    {
      assert data[..][position..] == data[position..];
      var header := Fields.ParseCommandDataHeader(data[position..]);
      if header.NoHeader? {
        return Err(CommandHeaderUnavailable);
      }
      if header.BadHeader? {
        return Err(header.error);
      }
      if position + header.headerSize + header.length > size {
        return Err(ReadPastEnd);
      }
      position := position + header.headerSize;
      lastCmdLen := header.length;
      r := Ok(position);
      position := position + header.length;
    }

    /** cte_decoder_get_last_list_count: 0 before any list, then the count of the last one. */
    function GetLastListCount(): (n: nat)
      reads this
      requires Valid()
      ensures n <= LIST_MAX_LEN
    {
      lastListCount
    }

    /** cte_decoder_get_last_command_payload_length. */
    function GetLastCommandPayloadLength(): (n: nat)
      reads this
      requires Valid()
      ensures n <= COMMAND_EXTENDED_MAX_LEN
    {
      lastCmdLen
    }
  }
}

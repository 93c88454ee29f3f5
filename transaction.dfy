/** A transaction as a sequence of fields after the version byte: the bytes the encoder writes
    for each kind of field, a reader that takes the next field back by the kind its header
    announces (the readers of decoder.c, chosen by tag, sub-type and code), and the round trip
    over a whole transaction that test.c walks through by hand. */
module Transaction {
  import opened Cte
  import Varint
  import Fields
  import FixedWidth
  import SizeTable
  import CteDecoder

  /** One field of a transaction, by the values its writer takes. List items, fixed-width
      payloads and command payloads are bytes; the typed fixed writers put their value's
      little-endian bytes in `payload`. */
  datatype Field =
    | PublicKeyList(keyType: u8, keyCount: u8, keys: seq<u8>)
    | SignatureList(sigType: u8, sigCount: u8, signatures: seq<u8>)
    | IndexReference(index: u8)
    | VarintZero
    | ULeb128Value(unsigned: u64)
    | SLeb128Value(signed: i64)
    | Fixed(fixedType: u8, payload: seq<u8>)
    | Boolean(value: bool)
    | CommandData(command: seq<u8>)

  /** The arguments each writer accepts: a count of 1..15 with a known crypto type and the
      items that fill the reserved bytes, an index up to 15, a fixed type code below 10 with
      a payload of its width, and a command payload of at most 1197 bytes. */
  predicate WellFormed(f: Field)
  {
    match f
    case PublicKeyList(t, n, keys) =>
      1 <= n <= LIST_MAX_LEN && t <= CRYPTO_TYPE_SLH_DSA_256F &&
      |keys| == n * SizeTable.PublicKeySize(t).value
    case SignatureList(t, n, sigs) =>
      1 <= n <= LIST_MAX_LEN && t <= CRYPTO_TYPE_SLH_DSA_256F &&
      |sigs| == n * SizeTable.SignatureItemSize(t).value
    case IndexReference(index) => index <= LEGACY_INDEX_MAX_VALUE
    case Fixed(code, payload) =>
      code <= IXDATA_FIXED_TYPE_FLOAT64 && |payload| == FixedWidth.FixedTypeWidth(code)
    case CommandData(payload) => |payload| <= COMMAND_EXTENDED_MAX_LEN
    case _ => true
  }

  /** The bytes a field takes in a transaction: its header, then its body. For a list and a
      command this is the header the encoder writes followed by the bytes the caller copies
      into the region it reserves. */
  function Encoding(f: Field): (r: seq<u8>)
    requires WellFormed(f)
    ensures 1 <= |r|
  {
    match f
    case PublicKeyList(t, n, keys) => [Fields.ListHeader(TAG_PUBLIC_KEY_LIST, n, t)] + keys
    case SignatureList(t, n, sigs) => [Fields.ListHeader(TAG_SIGNATURE_LIST, n, t)] + sigs
    case IndexReference(index) => [Fields.IxDataHeader(index, IXDATA_SUBTYPE_LEGACY_INDEX)]
    case VarintZero => [Fields.IxDataHeader(IXDATA_VARINT_ENC_ZERO, IXDATA_SUBTYPE_VARINT)]
    case ULeb128Value(v) => [0x85] + Varint.ULeb128(v)
    case SLeb128Value(v) => [0x89] + Varint.SLeb128(v)
    case Fixed(code, payload) => [Fields.IxDataHeader(code, IXDATA_SUBTYPE_FIXED)] + payload
    case Boolean(value) => [if value then 0x87 else 0x83]
    case CommandData(payload) => Fields.CommandDataHeader(|payload|).value + payload
  }

  ghost predicate AllWellFormed(fields: seq<Field>)
  {
    forall i :: 0 <= i < |fields| ==> WellFormed(fields[i])
  }

  /** The fields one after the other. */
  function EncodeFields(fields: seq<Field>): seq<u8>
    requires AllWellFormed(fields)
  {
    if |fields| == 0 then [] else Encoding(fields[0]) + EncodeFields(fields[1..])
  }

  /** A whole transaction: the version byte, then the fields. */
  function Encode(fields: seq<Field>): (r: seq<u8>)
    requires AllWellFormed(fields)
    ensures 1 <= |r| && r[0] == VERSION_BYTE
  {
    [VERSION_BYTE] + EncodeFields(fields)
  }

  /** The next field at p, read by the reader its header's tag, sub-type and code call for;
      a header of a reserved code is refused with that reader's error. The result is a field
      its writer accepts, taking at least its header byte and no byte past the data. */
  function ReadFieldAt(s: seq<u8>, p: nat): (r: Result<CteDecoder.Read<Field>>)
    ensures r.Ok? ==> p < r.value.next <= |s| && WellFormed(r.value.value)
  {
    if p >= |s| then Err(ReadPastEnd)
    else
      var h := s[p];
      var tag := Fields.TagOf(h);
      if tag == TAG_PUBLIC_KEY_LIST then
        match CteDecoder.ListAt(s, p, TAG_PUBLIC_KEY_LIST)
        case Err(e) => Err(e)
        case Ok(l) =>
          Ok(CteDecoder.Read(PublicKeyList(Fields.CryptoTypeOf(h), l.value.count, s[p + 1..l.next]), l.next))
      else if tag == TAG_SIGNATURE_LIST then
        match CteDecoder.ListAt(s, p, TAG_SIGNATURE_LIST)
        case Err(e) => Err(e)
        case Ok(l) =>
          Ok(CteDecoder.Read(SignatureList(Fields.CryptoTypeOf(h), l.value.count, s[p + 1..l.next]), l.next))
      else if tag == TAG_IXDATA_FIELD then
        ReadIxDataAt(s, p)
      else
        match CteDecoder.CommandPayloadAt(s, p)
        case Err(e) => Err(e)
        case Ok(c) => Ok(CteDecoder.Read(CommandData(s[c.value.offset..c.next]), c.next))
  }

  /** An IxData field at p, by its sub-type and detail code. */
  function ReadIxDataAt(s: seq<u8>, p: nat): (r: Result<CteDecoder.Read<Field>>)
    requires p < |s|
    ensures r.Ok? ==> p < r.value.next <= |s| && WellFormed(r.value.value)
  {
    var h := s[p];
    var code := Fields.DetailOf(h);
    var subtype := Fields.SubtypeOf(h);
    if subtype == IXDATA_SUBTYPE_LEGACY_INDEX then
      match CteDecoder.IndexReferenceAt(s, p)
      case Err(e) => Err(e)
      case Ok(x) => Ok(CteDecoder.Read(IndexReference(x.value), x.next))
    else if subtype == IXDATA_SUBTYPE_VARINT then
      if code == IXDATA_VARINT_ENC_ZERO then
        match CteDecoder.VarintZeroAt(s, p)
        case Err(e) => Err(e)
        case Ok(x) => Ok(CteDecoder.Read(VarintZero, x.next))
      else if code == IXDATA_VARINT_ENC_ULEB128 then
        match CteDecoder.ULeb128FieldAt(s, p)
        case Err(e) => Err(e)
        case Ok(x) => Ok(CteDecoder.Read(ULeb128Value(x.value), x.next))
      else if code == IXDATA_VARINT_ENC_SLEB128 then
        match CteDecoder.SLeb128FieldAt(s, p)
        case Err(e) => Err(e)
        case Ok(x) => Ok(CteDecoder.Read(SLeb128Value(x.value), x.next))
      else Err(UnexpectedScheme)
    else if subtype == IXDATA_SUBTYPE_FIXED then
      match CteDecoder.FixedFieldAt(s, p, code, FixedWidth.FixedTypeWidth(code))
      case Err(e) => Err(e)
      case Ok(x) => Ok(CteDecoder.Read(Fixed(code, x.value), x.next))
    else
      match CteDecoder.BooleanAt(s, p)
      case Err(e) => Err(e)
      case Ok(x) => Ok(CteDecoder.Read(Boolean(x.value), x.next))
  }

  /** The fields from p to the end of the data, or the first reader's error. */
  function DecodeFields(s: seq<u8>, p: nat): (r: Result<seq<Field>>)
    requires p <= |s|
    ensures r.Ok? ==> AllWellFormed(r.value)
    decreases |s| - p, 1
  {
    if p == |s| then Ok([]) else FieldsFrom(s, p)
  }

  /** The field at p, then the fields from where it ends. */
  function FieldsFrom(s: seq<u8>, p: nat): (r: Result<seq<Field>>)
    requires p < |s|
    ensures r.Ok? ==> AllWellFormed(r.value)
    decreases |s| - p, 0
  {
    match ReadFieldAt(s, p)
    case Err(e) => Err(e)
    case Ok(x) =>
      match DecodeFields(s, x.next)
      case Err(e) => Err(e)
      case Ok(rest) => Ok([x.value] + rest)
  }

  /** The fields reader, started at p, returns exactly `fields`. */
  ghost predicate DecodesTo(s: seq<u8>, p: nat, fields: seq<Field>)
  {
    p <= |s| && DecodeFields(s, p) == Ok(fields)
  }

  /** A whole transaction as the decoder takes it: the sizes cte_decoder_init accepts, the
      version byte cte_decoder_peek_type checks at position 0, then the fields. */
  function Decode(s: seq<u8>): (r: Result<seq<Field>>)
    ensures |s| == 0 ==> r == Err(ZeroSize)
    ensures |s| > MAX_TRANSACTION_SIZE ==> r == Err(SizeTooLarge)
    ensures 1 <= |s| <= MAX_TRANSACTION_SIZE && s[0] != VERSION_BYTE ==> r == Err(InvalidVersion)
    ensures r.Ok? ==> AllWellFormed(r.value)
  {
    if |s| == 0 then Err(ZeroSize)
    else if |s| > MAX_TRANSACTION_SIZE then Err(SizeTooLarge)
    else if s[0] != VERSION_BYTE then Err(InvalidVersion)
    else DecodeFields(s, 1)
  }

  // ---------------------------------------------------------------------------------------
  // The round trip
  // ---------------------------------------------------------------------------------------

  /** From position p on, s holds the bytes e and then the bytes rest. */
  ghost predicate PlacedAt(s: seq<u8>, p: nat, e: seq<u8>, rest: seq<u8>)
  {
    p <= |s| && s[p..] == e + rest
  }

  /** Bytes placed as two consecutive parts: the first part is placed with the second in front
      of the rest. */
  lemma PlacedFront(s: seq<u8>, p: nat, a: seq<u8>, b: seq<u8>, rest: seq<u8>)
    requires PlacedAt(s, p, a + b, rest)
    ensures PlacedAt(s, p, a, b + rest)
  {
    assert a + b + rest == a + (b + rest);
  }

  /** Placed bytes are followed, where they end, by the rest. */
  lemma PlacedAfter(s: seq<u8>, p: nat, e: seq<u8>, rest: seq<u8>)
    requires PlacedAt(s, p, e, rest)
    ensures p + |e| <= |s| && s[p + |e|..] == rest
  {
    assert s[p + |e|..] == s[p..][|e|..];
    assert (e + rest)[|e|..] == rest;
  }

  /** Placed bytes are the slice of s they cover. */
  lemma PlacedSlice(s: seq<u8>, p: nat, e: seq<u8>, rest: seq<u8>)
    requires PlacedAt(s, p, e, rest)
    ensures p + |e| <= |s| && s[p..p + |e|] == e
  {
    assert s[p..p + |e|] == s[p..][..|e|];
    assert (e + rest)[..|e|] == e;
  }

  /** The first of the placed bytes is the byte at p. */
  lemma PlacedFirst(s: seq<u8>, p: nat, e: seq<u8>, rest: seq<u8>)
    requires PlacedAt(s, p, e, rest) && |e| >= 1
    ensures p < |s| && s[p] == e[0]
  {
    assert s[p] == s[p..][0] == (e + rest)[0];
  }

  /** A header byte placed with a body after it: the byte at p, then the body placed at p + 1. */
  lemma HeadedAt(s: seq<u8>, p: nat, header: u8, body: seq<u8>, rest: seq<u8>)
    requires PlacedAt(s, p, [header] + body, rest)
    ensures p < |s| && s[p] == header && PlacedAt(s, p + 1, body, rest)
  {
    PlacedFirst(s, p, [header] + body, rest);
    PlacedFront(s, p, [header], body, rest);
    PlacedAfter(s, p, [header], body + rest);
  }

  /** Every field the writers accept reads back as itself, ending right after its bytes,
      wherever it is placed. */
  lemma FieldAt(s: seq<u8>, p: nat, f: Field, rest: seq<u8>)
    requires WellFormed(f) && PlacedAt(s, p, Encoding(f), rest)
    ensures ReadFieldAt(s, p) == Ok(CteDecoder.Read(f, p + |Encoding(f)|))
  {
    if f.PublicKeyList? || f.SignatureList? {
      ListPlacedAt(s, p, f, rest);
    } else if f.IndexReference? || f.VarintZero? || f.Boolean? {
      OneBytePlacedAt(s, p, f, rest);
    } else if f.ULeb128Value? {
      ULeb128At(s, p, f, rest);
    } else if f.SLeb128Value? {
      SLeb128At(s, p, f, rest);
    } else if f.Fixed? {
      FixedPlacedAt(s, p, f, rest);
    } else {
      CommandPlacedAt(s, p, f, rest);
    }
  }

  /** A placed list reads back as itself. */
  lemma ListPlacedAt(s: seq<u8>, p: nat, f: Field, rest: seq<u8>)
    requires (f.PublicKeyList? || f.SignatureList?) && WellFormed(f) && PlacedAt(s, p, Encoding(f), rest)
    ensures ReadFieldAt(s, p) == Ok(CteDecoder.Read(f, p + |Encoding(f)|))
  {
    var tag, t, n, items := ListBytesAt(s, p, f, rest);
    ListFieldAt(s, p, f, tag, t, n, items, p + |Encoding(f)|);
  }

  /** The header of a placed list carries its tag, count and crypto type, and its items
      follow it. */
  lemma ListBytesAt(s: seq<u8>, p: nat, f: Field, rest: seq<u8>) returns (tag: u8, t: u8, n: u8, items: seq<u8>)
    requires (f.PublicKeyList? || f.SignatureList?) && WellFormed(f) && PlacedAt(s, p, Encoding(f), rest)
    ensures tag == (if f.PublicKeyList? then TAG_PUBLIC_KEY_LIST else TAG_SIGNATURE_LIST)
    ensures f == (if f.PublicKeyList? then PublicKeyList(t, n, items) else SignatureList(t, n, items))
    ensures 1 <= n <= LIST_MAX_LEN && Fields.ListItemSize(tag, t).Ok?
    ensures |items| == n * Fields.ListItemSize(tag, t).value
    ensures p + |Encoding(f)| == p + 1 + |items| <= |s|
    ensures Fields.TagOf(s[p]) == tag && Fields.DetailOf(s[p]) == n && Fields.CryptoTypeOf(s[p]) == t
    ensures s[p + 1..p + 1 + |items|] == items
  {
    if f.PublicKeyList? {
      tag, t, n, items := TAG_PUBLIC_KEY_LIST, f.keyType, f.keyCount, f.keys;
    } else {
      tag, t, n, items := TAG_SIGNATURE_LIST, f.sigType, f.sigCount, f.signatures;
    }
    var h := Fields.ListHeader(tag, n, t);
    assert Encoding(f) == [h] + items;
    HeadedAt(s, p, h, items, rest);
    PlacedSlice(s, p + 1, items, rest);
    Fields.ListHeaderFields(tag, n, t);
  }

  /** A list header of the field's tag, count and crypto type at p, followed by the field's
      items, is the field read there. */
  lemma ListFieldAt(s: seq<u8>, p: nat, f: Field, tag: u8, t: u8, n: u8, items: seq<u8>, next: nat)
    requires tag == (if f.PublicKeyList? then TAG_PUBLIC_KEY_LIST else TAG_SIGNATURE_LIST)
    requires f == (if f.PublicKeyList? then PublicKeyList(t, n, items) else SignatureList(t, n, items))
    requires 1 <= n <= LIST_MAX_LEN && Fields.ListItemSize(tag, t).Ok?
    requires |items| == n * Fields.ListItemSize(tag, t).value && next == p + 1 + |items| <= |s|
    requires Fields.TagOf(s[p]) == tag && Fields.DetailOf(s[p]) == n && Fields.CryptoTypeOf(s[p]) == t
    requires s[p + 1..next] == items
    ensures ReadFieldAt(s, p) == Ok(CteDecoder.Read(f, next))
  {
    CteDecoder.ListAtHeader(s, p, tag, n, t, |items|);
  }

  /** A placed one-byte field (an index, the zero varint or a boolean) reads back as itself. */
  lemma OneBytePlacedAt(s: seq<u8>, p: nat, f: Field, rest: seq<u8>)
    requires (f.IndexReference? || f.VarintZero? || f.Boolean?) && WellFormed(f) && PlacedAt(s, p, Encoding(f), rest)
    ensures ReadFieldAt(s, p) == Ok(CteDecoder.Read(f, p + |Encoding(f)|))
  {
    PlacedFirst(s, p, Encoding(f), rest);
    if f.IndexReference? {
      IndexHeaderAt(s, p, f);
      IndexReferenceFieldAt(s, p, f, p + |Encoding(f)|);
    } else if f.VarintZero? {
      VarintZeroFieldAt(s, p, f, p + |Encoding(f)|);
    } else {
      BooleanFieldAt(s, p, f, p + |Encoding(f)|);
    }
  }

  /** The header byte of an index carries the IxData tag, the legacy-index sub-type and the
      index. */
  lemma IndexHeaderAt(s: seq<u8>, p: nat, f: Field)
    requires f.IndexReference? && WellFormed(f) && p < |s| && s[p] == Encoding(f)[0]
    ensures Fields.TagOf(s[p]) == TAG_IXDATA_FIELD && Fields.DetailOf(s[p]) == f.index
    ensures Fields.SubtypeOf(s[p]) == IXDATA_SUBTYPE_LEGACY_INDEX
  {
    Fields.IxDataHeaderFields(f.index, IXDATA_SUBTYPE_LEGACY_INDEX);
  }

  /** An index header is the field read there. */
  lemma IndexReferenceFieldAt(s: seq<u8>, p: nat, f: Field, next: nat)
    requires f.IndexReference? && f.index <= LEGACY_INDEX_MAX_VALUE && p < |s| && next == p + 1
    requires Fields.TagOf(s[p]) == TAG_IXDATA_FIELD && Fields.DetailOf(s[p]) == f.index
    requires Fields.SubtypeOf(s[p]) == IXDATA_SUBTYPE_LEGACY_INDEX
    ensures ReadFieldAt(s, p) == Ok(CteDecoder.Read(f, next))
  {
    assert ReadFieldAt(s, p) == ReadIxDataAt(s, p);
  }

  /** The header 0x81 is the zero varint. */
  lemma VarintZeroFieldAt(s: seq<u8>, p: nat, f: Field, next: nat)
    requires f.VarintZero? && p < |s| && s[p] == 0x81 && next == p + 1
    ensures ReadFieldAt(s, p) == Ok(CteDecoder.Read(f, next))
  {
    assert Fields.TagOf(0x81) == TAG_IXDATA_FIELD && Fields.SubtypeOf(0x81) == IXDATA_SUBTYPE_VARINT;
    assert Fields.DetailOf(0x81) == IXDATA_VARINT_ENC_ZERO;
    assert CteDecoder.VarintZeroAt(s, p) == Ok(CteDecoder.Read((), next));
    assert ReadFieldAt(s, p) == ReadIxDataAt(s, p);
  }

  /** The headers 0x87 and 0x83 are the booleans true and false. */
  lemma BooleanFieldAt(s: seq<u8>, p: nat, f: Field, next: nat)
    requires f.Boolean? && p < |s| && s[p] == (if f.value then 0x87 else 0x83) && next == p + 1
    ensures ReadFieldAt(s, p) == Ok(CteDecoder.Read(f, next))
  {
    assert Fields.TagOf(s[p]) == TAG_IXDATA_FIELD && Fields.SubtypeOf(s[p]) == IXDATA_SUBTYPE_CONSTANT;
    assert CteDecoder.BooleanAt(s, p) == Ok(CteDecoder.Read(f.value, next));
    assert ReadFieldAt(s, p) == ReadIxDataAt(s, p);
  }

  /** A ULEB128 field is its header followed by the value's ULEB128 bytes. */
  lemma ULeb128Encoding(f: Field)
    requires f.ULeb128Value?
    ensures Encoding(f) == [0x85] + Varint.ULeb128(f.unsigned)
  {
  }

  /** A placed ULEB128 field reads back as itself. */
  lemma ULeb128At(s: seq<u8>, p: nat, f: Field, rest: seq<u8>)
    requires f.ULeb128Value? && PlacedAt(s, p, Encoding(f), rest)
    ensures ReadFieldAt(s, p) == Ok(CteDecoder.Read(f, p + |Encoding(f)|))
  {
    ULeb128BytesAt(s, p, f, rest);
    ULeb128FieldAt(s, p, f, rest, p + |Encoding(f)|);
  }

  /** A placed ULEB128 field starts with its header, and its value's bytes follow. */
  lemma ULeb128BytesAt(s: seq<u8>, p: nat, f: Field, rest: seq<u8>)
    requires f.ULeb128Value? && PlacedAt(s, p, Encoding(f), rest)
    ensures p < |s| && s[p] == 0x85 && s[p + 1..] == Varint.ULeb128(f.unsigned) + rest
    ensures |Encoding(f)| == 1 + |Varint.ULeb128(f.unsigned)|
  {
    ULeb128Encoding(f);
    HeadedAt(s, p, 0x85, Varint.ULeb128(f.unsigned), rest);
  }

  /** A ULEB128 header followed by the value's bytes is read as the field. */
  lemma ULeb128FieldAt(s: seq<u8>, p: nat, f: Field, rest: seq<u8>, next: nat)
    requires f.ULeb128Value? && p < |s| && s[p] == 0x85
    requires s[p + 1..] == Varint.ULeb128(f.unsigned) + rest && next == p + 1 + |Varint.ULeb128(f.unsigned)|
    ensures ReadFieldAt(s, p) == Ok(CteDecoder.Read(f, next))
  {
    ULeb128Decoded(s, p, f.unsigned, rest, next);
    ULeb128ValueAt(s, p, f, next);
  }

  /** The decoder's ULEB128 reader takes the value back from its bytes after the header. */
  lemma {:induction false} ULeb128Decoded(s: seq<u8>, p: nat, v: u64, rest: seq<u8>, next: nat)
    requires p < |s| && s[p] == 0x85
    requires s[p + 1..] == Varint.ULeb128(v) + rest && next == p + 1 + |Varint.ULeb128(v)|
    ensures CteDecoder.ULeb128FieldAt(s, p) == Ok(CteDecoder.Read(v as int, next))
  {
    CteDecoder.ULeb128FieldRoundTrip(s, p, v, rest);
  }

  /** A ULEB128 field the decoder's reader accepts at a 0x85 header is the field read there. */
  lemma ULeb128ValueAt(s: seq<u8>, p: nat, f: Field, next: nat)
    requires f.ULeb128Value? && p < |s| && s[p] == 0x85
    requires CteDecoder.ULeb128FieldAt(s, p) == Ok(CteDecoder.Read(f.unsigned as int, next))
    ensures ReadFieldAt(s, p) == Ok(CteDecoder.Read(f, next))
  {
    assert ReadFieldAt(s, p) == ReadIxDataAt(s, p);
  }

  /** A SLEB128 field is its header followed by the value's SLEB128 bytes. */
  lemma SLeb128Encoding(f: Field)
    requires f.SLeb128Value?
    ensures Encoding(f) == [0x89] + Varint.SLeb128(f.signed)
  {
  }

  /** A placed SLEB128 field reads back as itself. */
  lemma SLeb128At(s: seq<u8>, p: nat, f: Field, rest: seq<u8>)
    requires f.SLeb128Value? && PlacedAt(s, p, Encoding(f), rest)
    ensures ReadFieldAt(s, p) == Ok(CteDecoder.Read(f, p + |Encoding(f)|))
  {
    SLeb128BytesAt(s, p, f, rest);
    SLeb128FieldAt(s, p, f, rest, p + |Encoding(f)|);
  }

  /** A placed SLEB128 field starts with its header, and its value's bytes follow. */
  lemma SLeb128BytesAt(s: seq<u8>, p: nat, f: Field, rest: seq<u8>)
    requires f.SLeb128Value? && PlacedAt(s, p, Encoding(f), rest)
    ensures p < |s| && s[p] == 0x89 && s[p + 1..] == Varint.SLeb128(f.signed) + rest
    ensures |Encoding(f)| == 1 + |Varint.SLeb128(f.signed)|
  {
    SLeb128Encoding(f);
    HeadedAt(s, p, 0x89, Varint.SLeb128(f.signed), rest);
  }

  /** A SLEB128 header followed by the value's bytes is read as the field. */
  lemma SLeb128FieldAt(s: seq<u8>, p: nat, f: Field, rest: seq<u8>, next: nat)
    requires f.SLeb128Value? && p < |s| && s[p] == 0x89
    requires s[p + 1..] == Varint.SLeb128(f.signed) + rest && next == p + 1 + |Varint.SLeb128(f.signed)|
    ensures ReadFieldAt(s, p) == Ok(CteDecoder.Read(f, next))
  {
    SLeb128Decoded(s, p, f.signed, rest, next);
    SLeb128ValueAt(s, p, f, next);
  }

  /** The decoder's SLEB128 reader takes the value back from its bytes after the header. */
  lemma {:induction false} SLeb128Decoded(s: seq<u8>, p: nat, v: i64, rest: seq<u8>, next: nat)
    requires p < |s| && s[p] == 0x89
    requires s[p + 1..] == Varint.SLeb128(v) + rest && next == p + 1 + |Varint.SLeb128(v)|
    ensures CteDecoder.SLeb128FieldAt(s, p) == Ok(CteDecoder.Read(v as int, next))
  {
    CteDecoder.SLeb128FieldRoundTrip(s, p, v, rest);
  }

  /** A SLEB128 field the decoder's reader accepts at a 0x89 header is the field read there. */
  lemma SLeb128ValueAt(s: seq<u8>, p: nat, f: Field, next: nat)
    requires f.SLeb128Value? && p < |s| && s[p] == 0x89
    requires CteDecoder.SLeb128FieldAt(s, p) == Ok(CteDecoder.Read(f.signed as int, next))
    ensures ReadFieldAt(s, p) == Ok(CteDecoder.Read(f, next))
  {
    assert ReadFieldAt(s, p) == ReadIxDataAt(s, p);
  }

  /** A placed fixed-width field reads back as itself. */
  lemma FixedPlacedAt(s: seq<u8>, p: nat, f: Field, rest: seq<u8>)
    requires f.Fixed? && WellFormed(f) && PlacedAt(s, p, Encoding(f), rest)
    ensures ReadFieldAt(s, p) == Ok(CteDecoder.Read(f, p + |Encoding(f)|))
  {
    FixedBytesAt(s, p, f, rest);
    FixedFieldAt(s, p, f, p + |Encoding(f)|);
  }

  /** The header of a placed fixed field carries the IxData tag, the fixed sub-type and the
      type code, and its payload follows it. */
  lemma FixedBytesAt(s: seq<u8>, p: nat, f: Field, rest: seq<u8>)
    requires f.Fixed? && WellFormed(f) && PlacedAt(s, p, Encoding(f), rest)
    ensures p + |Encoding(f)| == p + 1 + |f.payload| <= |s|
    ensures Fields.TagOf(s[p]) == TAG_IXDATA_FIELD && Fields.SubtypeOf(s[p]) == IXDATA_SUBTYPE_FIXED
    ensures Fields.DetailOf(s[p]) == f.fixedType && s[p + 1..p + 1 + |f.payload|] == f.payload
  {
    var h := Fields.IxDataHeader(f.fixedType, IXDATA_SUBTYPE_FIXED);
    assert Encoding(f) == [h] + f.payload;
    HeadedAt(s, p, h, f.payload, rest);
    PlacedSlice(s, p + 1, f.payload, rest);
    FixedHeaderAt(s[p], f.fixedType);
  }

  /** The header byte of a fixed field carries the IxData tag, the fixed sub-type and the
      type code. */
  lemma FixedHeaderAt(b: u8, code: u8)
    requires code <= IXDATA_FIXED_TYPE_FLOAT64 && b == Fields.IxDataHeader(code, IXDATA_SUBTYPE_FIXED)
    ensures Fields.TagOf(b) == TAG_IXDATA_FIELD && Fields.SubtypeOf(b) == IXDATA_SUBTYPE_FIXED
    ensures Fields.DetailOf(b) == code
  {
    Fields.IxDataHeaderFields(code, IXDATA_SUBTYPE_FIXED);
  }

  /** A fixed field of a type code below 10, followed by a payload of its width, is the field
      read there. */
  lemma FixedFieldAt(s: seq<u8>, p: nat, f: Field, next: nat)
    requires f.Fixed? && WellFormed(f) && next == p + 1 + |f.payload| <= |s|
    requires Fields.TagOf(s[p]) == TAG_IXDATA_FIELD && Fields.SubtypeOf(s[p]) == IXDATA_SUBTYPE_FIXED
    requires Fields.DetailOf(s[p]) == f.fixedType && s[p + 1..next] == f.payload
    ensures ReadFieldAt(s, p) == Ok(CteDecoder.Read(f, next))
  {
    assert ReadFieldAt(s, p) == ReadIxDataAt(s, p);
  }

  /** A placed command field reads back as itself. */
  lemma CommandPlacedAt(s: seq<u8>, p: nat, f: Field, rest: seq<u8>)
    requires f.CommandData? && WellFormed(f) && PlacedAt(s, p, Encoding(f), rest)
    ensures ReadFieldAt(s, p) == Ok(CteDecoder.Read(f, p + |Encoding(f)|))
  {
    var headerSize := CommandBytesAt(s, p, f, rest);
    CommandFieldAt(s, p, f, headerSize, p + |Encoding(f)|);
  }

  /** A placed command field is a header the command parser reads as the payload's length,
      followed by the payload. */
  lemma CommandBytesAt(s: seq<u8>, p: nat, f: Field, rest: seq<u8>) returns (headerSize: nat)
    requires f.CommandData? && WellFormed(f) && PlacedAt(s, p, Encoding(f), rest)
    ensures p < |s| && Fields.TagOf(s[p]) == TAG_COMMAND_DATA
    ensures Fields.ParseCommandDataHeader(s[p..]) == Fields.HeaderAt(|f.command|, headerSize)
    ensures p + |Encoding(f)| == p + headerSize + |f.command| <= |s|
    ensures s[p + headerSize..p + headerSize + |f.command|] == f.command
  {
    var payload := f.command;
    var header := Fields.CommandDataHeader(|payload|).value;
    headerSize := |header|;
    PlacedFront(s, p, header, payload, rest);
    PlacedFirst(s, p, header, payload + rest);
    PlacedAfter(s, p, header, payload + rest);
    PlacedSlice(s, p + |header|, payload, rest);
    if |payload| <= COMMAND_SHORT_MAX_LEN {
      Fields.ShortHeaderByteFields(|payload|);
    } else {
      Fields.ExtendedHeaderByteFields(|payload| / 256);
    }
    CommandHeaderAt(s, p, header, payload, payload + rest);
  }

  /** The command parser reads a placed command header back. */
  lemma CommandHeaderAt(s: seq<u8>, p: nat, header: seq<u8>, payload: seq<u8>, rest: seq<u8>)
    requires |payload| <= COMMAND_EXTENDED_MAX_LEN && header == Fields.CommandDataHeader(|payload|).value
    requires PlacedAt(s, p, header, rest)
    ensures Fields.ParseCommandDataHeader(s[p..]) == Fields.HeaderAt(|payload|, |header|)
  {
    Fields.CommandHeaderRoundTrip(|payload|, rest);
  }

  /** A command header the parser accepts, followed by the whole payload, is the field read
      there. */
  lemma CommandFieldAt(s: seq<u8>, p: nat, f: Field, headerSize: nat, next: nat)
    requires f.CommandData? && p < |s| && Fields.TagOf(s[p]) == TAG_COMMAND_DATA
    requires Fields.ParseCommandDataHeader(s[p..]) == Fields.HeaderAt(|f.command|, headerSize)
    requires next == p + headerSize + |f.command| <= |s| && s[p + headerSize..next] == f.command
    ensures ReadFieldAt(s, p) == Ok(CteDecoder.Read(f, next))
  {
  }

  /** Fields placed one after the other up to the end of the data read back as the same
      fields. */
  lemma {:induction false} FieldsAt(s: seq<u8>, p: nat, fields: seq<Field>)
    requires AllWellFormed(fields) && PlacedAt(s, p, EncodeFields(fields), [])
    ensures DecodesTo(s, p, fields)
    decreases |fields|
  {
    if |fields| == 0 {
      assert s[p..] == [];
    } else {
      var next := FirstPlaced(s, p, fields);
      FieldsAt(s, next, fields[1..]);
      FieldThenFields(s, p, fields, next);
    }
  }

  /** The first of the placed fields is placed at p, and the others from where it ends. */
  lemma {:induction false} FirstPlaced(s: seq<u8>, p: nat, fields: seq<Field>) returns (next: nat)
    requires |fields| > 0 && AllWellFormed(fields) && PlacedAt(s, p, EncodeFields(fields), [])
    ensures WellFormed(fields[0]) && PlacedAt(s, p, Encoding(fields[0]), EncodeFields(fields[1..]))
    ensures next == p + |Encoding(fields[0])| && |fields[1..]| < |fields|
    ensures AllWellFormed(fields[1..]) && PlacedAt(s, next, EncodeFields(fields[1..]), [])
  {
    SuffixStep(fields, 0);
    assert fields[0..] == fields;
    PlacedFront(s, p, Encoding(fields[0]), EncodeFields(fields[1..]), []);
    var tail := EncodeFields(fields[1..]);
    assert tail + [] == tail;
    PlacedAfter(s, p, Encoding(fields[0]), tail);
    next := p + |Encoding(fields[0])|;
    assert s[next..] == tail + [];
  }

  /** A placed field followed by the fields read from where it ends is what the fields reader
      returns at p. */
  lemma {:induction false} FieldThenFields(s: seq<u8>, p: nat, fields: seq<Field>, next: nat)
    requires |fields| > 0 && WellFormed(fields[0]) && AllWellFormed(fields[1..])
    requires PlacedAt(s, p, Encoding(fields[0]), EncodeFields(fields[1..]))
    requires next == p + |Encoding(fields[0])| && DecodesTo(s, next, fields[1..])
    ensures DecodesTo(s, p, fields)
  {
    FieldAt(s, p, fields[0], EncodeFields(fields[1..]));
    ReadThenFields(s, p, fields, next);
  }

  /** A field read at p followed by the fields read from where it ends is what the fields
      reader returns at p. */
  lemma ReadThenFields(s: seq<u8>, p: nat, fields: seq<Field>, next: nat)
    requires p < |s| && |fields| > 0 && ReadFieldAt(s, p) == Ok(CteDecoder.Read(fields[0], next))
    requires DecodesTo(s, next, fields[1..])
    ensures DecodesTo(s, p, fields)
  {
    assert DecodeFields(s, p) == FieldsFrom(s, p);
    assert [fields[0]] + fields[1..] == fields;
  }

  /** A transaction the encoder writes within the size the decoder accepts decodes to the
      fields it was written from. */
  lemma TransactionRoundTrip(fields: seq<Field>)
    requires AllWellFormed(fields) && |Encode(fields)| <= MAX_TRANSACTION_SIZE
    ensures Decode(Encode(fields)) == Ok(fields)
  {
    var s := Encode(fields);
    assert s[1..] == EncodeFields(fields) + [];
    FieldsAt(s, 1, fields);
  }

  /** The fields of the reference transaction in test.c, in its order: two Ed25519 keys, index
      1, one SLH-DSA-128f signature hash, index 0, the ULEB128 value 123456, the SLEB128 value
      -78910, the int32 -1000, the uint64 9876543210, a float32 (its bits 0x40490FD0, least
      significant byte first), true, false, the 13-byte short command "Short payload" and a
      150-byte extended command. test.c fills the keys with 0xAA.., the hash with 0xBB.. and
      the long command with 'L'; the round trip holds for any bytes of those lengths. */
  function ReferenceFields(keys: seq<u8>, sigHash: seq<u8>, longCommand: seq<u8>): (fields: seq<Field>)
    ensures |fields| == 13
  {
    [PublicKeyList(CRYPTO_TYPE_ED25519, 2, keys),
     IndexReference(1),
     SignatureList(CRYPTO_TYPE_SLH_DSA_128F, 1, sigHash),
     IndexReference(0),
     ULeb128Value(123456),
     SLeb128Value(-78910),
     Fixed(IXDATA_FIXED_TYPE_INT32, FixedWidth.SignedBytes(-1000, 4)),
     Fixed(IXDATA_FIXED_TYPE_UINT64, FixedWidth.LittleEndian(9876543210, 8)),
     Fixed(IXDATA_FIXED_TYPE_FLOAT32, [0xD0, 0x0F, 0x49, 0x40]),
     Boolean(true),
     Boolean(false),
     CommandData([0x53, 0x68, 0x6F, 0x72, 0x74, 0x20, 0x70, 0x61, 0x79, 0x6C, 0x6F, 0x61, 0x64]),
     CommandData(longCommand)]
  }

  /** The reference transaction is one the writers accept, takes 296 bytes with its version
      byte, and reads back field for field. */
  lemma ReferenceTransaction(keys: seq<u8>, sigHash: seq<u8>, longCommand: seq<u8>)
    requires |keys| == 64 && |sigHash| == 32 && |longCommand| == 150
    ensures AllWellFormed(ReferenceFields(keys, sigHash, longCommand))
    ensures |Encode(ReferenceFields(keys, sigHash, longCommand))| == 296
    ensures Decode(Encode(ReferenceFields(keys, sigHash, longCommand))) == Ok(ReferenceFields(keys, sigHash, longCommand))
  {
    ReferenceWellFormed(keys, sigHash, longCommand);
    ReferenceSize(keys, sigHash, longCommand);
    TransactionRoundTrip(ReferenceFields(keys, sigHash, longCommand));
  }

  /** Every field of the reference transaction is one its writer accepts. */
  lemma ReferenceWellFormed(keys: seq<u8>, sigHash: seq<u8>, longCommand: seq<u8>)
    requires |keys| == 64 && |sigHash| == 32 && |longCommand| == 150
    ensures AllWellFormed(ReferenceFields(keys, sigHash, longCommand))
  {
    var fs := ReferenceFields(keys, sigHash, longCommand);
    ReferenceFieldSizes(keys, sigHash, longCommand);
    forall i | 0 <= i < |fs| ensures WellFormed(fs[i]) {
      if i < 4 {
        assert i == 0 || i == 1 || i == 2 || i == 3;
      } else if i < 9 {
        assert i == 4 || i == 5 || i == 6 || i == 7 || i == 8;
      } else {
        assert i == 9 || i == 10 || i == 11 || i == 12;
      }
    }
  }

  /** The fields of the reference transaction take 295 bytes, field by field. */
  lemma ReferenceSize(keys: seq<u8>, sigHash: seq<u8>, longCommand: seq<u8>)
    requires |keys| == 64 && |sigHash| == 32 && |longCommand| == 150
    requires AllWellFormed(ReferenceFields(keys, sigHash, longCommand))
    ensures |EncodeFields(ReferenceFields(keys, sigHash, longCommand))| == 295
  {
    var fs := ReferenceFields(keys, sigHash, longCommand);
    ReferenceFieldSizes(keys, sigHash, longCommand);
    SuffixSize(fs, ReferenceSizes(), 0);
    assert fs[0..] == fs;
    assert Sum(ReferenceSizes()[0..]) == 295 by {
      assert ReferenceSizes()[0..] == ReferenceSizes();
    }
  }

  /** The fields from k on take the sum of their sizes. */
  lemma {:induction false} SuffixSize(fields: seq<Field>, sizes: seq<nat>, k: nat)
    requires AllWellFormed(fields) && |sizes| == |fields| && k <= |fields|
    requires forall i :: 0 <= i < |fields| ==> |Encoding(fields[i])| == sizes[i]
    ensures AllWellFormed(fields[k..]) && |EncodeFields(fields[k..])| == Sum(sizes[k..])
    decreases |fields| - k
  {
    if k == |fields| {
      assert fields[k..] == [] && sizes[k..] == [];
    } else {
      SuffixStep(fields, k);
      SuffixSize(fields, sizes, k + 1);
      assert sizes[k..][1..] == sizes[k + 1..];
    }
  }

  function Sum(sizes: seq<nat>): nat
  {
    if |sizes| == 0 then 0 else sizes[0] + Sum(sizes[1..])
  }

  /** Each field of the reference transaction is accepted by its writer and takes its size. */
  lemma ReferenceFieldSizes(keys: seq<u8>, sigHash: seq<u8>, longCommand: seq<u8>)
    requires |keys| == 64 && |sigHash| == 32 && |longCommand| == 150
    ensures var fs := ReferenceFields(keys, sigHash, longCommand);
      forall i :: 0 <= i < 13 ==> WellFormed(fs[i]) && |Encoding(fs[i])| == ReferenceSizes()[i]
  {
    ReferenceListRange(keys, sigHash, longCommand);
    ReferenceVarintRange(keys, sigHash, longCommand);
    ReferenceFixedRange(keys, sigHash, longCommand);
    ReferenceCommandRange(keys, sigHash, longCommand);
    var fs := ReferenceFields(keys, sigHash, longCommand);
    forall i | 0 <= i < 13 ensures WellFormed(fs[i]) && |Encoding(fs[i])| == ReferenceSizes()[i] {
      assert SizedAt(fs, ReferenceSizes(), i);
    }
  }

  predicate SizedAt(fs: seq<Field>, sizes: seq<nat>, i: nat)
  {
    i < |fs| && i < |sizes| && WellFormed(fs[i]) && |Encoding(fs[i])| == sizes[i]
  }

  lemma ReferenceListRange(keys: seq<u8>, sigHash: seq<u8>, longCommand: seq<u8>)
    requires |keys| == 64 && |sigHash| == 32 && |longCommand| == 150
    ensures forall i :: 0 <= i < 4 ==> SizedAt(ReferenceFields(keys, sigHash, longCommand), ReferenceSizes(), i)
  {
    var fs := ReferenceFields(keys, sigHash, longCommand);
    forall i | 0 <= i < 4 ensures SizedAt(fs, ReferenceSizes(), i) {
      ListSizes(keys, sigHash);
      assert i == 0 || i == 1 || i == 2 || i == 3;
    }
  }

  lemma ReferenceVarintRange(keys: seq<u8>, sigHash: seq<u8>, longCommand: seq<u8>)
    requires |keys| == 64 && |sigHash| == 32 && |longCommand| == 150
    ensures forall i :: 4 <= i < 6 ==> SizedAt(ReferenceFields(keys, sigHash, longCommand), ReferenceSizes(), i)
  {
    var fs := ReferenceFields(keys, sigHash, longCommand);
    forall i | 4 <= i < 6 ensures SizedAt(fs, ReferenceSizes(), i) {
      VarintSizes();
      assert i == 4 || i == 5;
    }
  }

  lemma ReferenceFixedRange(keys: seq<u8>, sigHash: seq<u8>, longCommand: seq<u8>)
    requires |keys| == 64 && |sigHash| == 32 && |longCommand| == 150
    ensures forall i :: 6 <= i < 11 ==> SizedAt(ReferenceFields(keys, sigHash, longCommand), ReferenceSizes(), i)
  {
    var fs := ReferenceFields(keys, sigHash, longCommand);
    forall i | 6 <= i < 11 ensures SizedAt(fs, ReferenceSizes(), i) {
      FixedSizes();
      assert i == 6 || i == 7 || i == 8 || i == 9 || i == 10;
    }
  }

  lemma ReferenceCommandRange(keys: seq<u8>, sigHash: seq<u8>, longCommand: seq<u8>)
    requires |keys| == 64 && |sigHash| == 32 && |longCommand| == 150
    ensures forall i :: 11 <= i < 13 ==> SizedAt(ReferenceFields(keys, sigHash, longCommand), ReferenceSizes(), i)
  {
    var fs := ReferenceFields(keys, sigHash, longCommand);
    forall i | 11 <= i < 13 ensures SizedAt(fs, ReferenceSizes(), i) {
      CommandSizes(longCommand);
      assert i == 11 || i == 12;
    }
  }

  function ReferenceSizes(): seq<nat>
  {
    [65, 1, 33, 1, 4, 4, 5, 9, 5, 1, 1, 14, 152]
  }

  /** The two lists take a header and 64 and 32 bytes; each index one byte. */
  lemma ListSizes(keys: seq<u8>, sigHash: seq<u8>)
    requires |keys| == 64 && |sigHash| == 32
    ensures WellFormed(PublicKeyList(CRYPTO_TYPE_ED25519, 2, keys)) && |Encoding(PublicKeyList(CRYPTO_TYPE_ED25519, 2, keys))| == 65
    ensures WellFormed(IndexReference(1)) && |Encoding(IndexReference(1))| == 1
    ensures WellFormed(SignatureList(CRYPTO_TYPE_SLH_DSA_128F, 1, sigHash)) && |Encoding(SignatureList(CRYPTO_TYPE_SLH_DSA_128F, 1, sigHash))| == 33
    ensures WellFormed(IndexReference(0)) && |Encoding(IndexReference(0))| == 1
  {
  }

  /** Each varint takes its header and three bytes. */
  lemma VarintSizes()
    ensures WellFormed(ULeb128Value(123456)) && |Encoding(ULeb128Value(123456))| == 4
    ensures WellFormed(SLeb128Value(-78910)) && |Encoding(SLeb128Value(-78910))| == 4
  {
    Varint.ReferenceVarints();
  }

  /** The int32, uint64 and float32 take a header and their width; each boolean one byte. */
  lemma FixedSizes()
    ensures WellFormed(Fixed(IXDATA_FIXED_TYPE_INT32, FixedWidth.SignedBytes(-1000, 4))) && |Encoding(Fixed(IXDATA_FIXED_TYPE_INT32, FixedWidth.SignedBytes(-1000, 4)))| == 5
    ensures WellFormed(Fixed(IXDATA_FIXED_TYPE_UINT64, FixedWidth.LittleEndian(9876543210, 8))) && |Encoding(Fixed(IXDATA_FIXED_TYPE_UINT64, FixedWidth.LittleEndian(9876543210, 8)))| == 9
    ensures WellFormed(Fixed(IXDATA_FIXED_TYPE_FLOAT32, [0xD0, 0x0F, 0x49, 0x40])) && |Encoding(Fixed(IXDATA_FIXED_TYPE_FLOAT32, [0xD0, 0x0F, 0x49, 0x40]))| == 5
    ensures WellFormed(Boolean(true)) && |Encoding(Boolean(true))| == 1
    ensures WellFormed(Boolean(false)) && |Encoding(Boolean(false))| == 1
  {
    FixedWidth.WidthBounds();
  }

  /** The short command takes one header byte, the extended one two. */
  lemma CommandSizes(longCommand: seq<u8>)
    requires |longCommand| == 150
    ensures WellFormed(CommandData([0x53, 0x68, 0x6F, 0x72, 0x74, 0x20, 0x70, 0x61, 0x79, 0x6C, 0x6F, 0x61, 0x64])) && |Encoding(CommandData([0x53, 0x68, 0x6F, 0x72, 0x74, 0x20, 0x70, 0x61, 0x79, 0x6C, 0x6F, 0x61, 0x64]))| == 14
    ensures WellFormed(CommandData(longCommand)) && |Encoding(CommandData(longCommand))| == 152
  {
  }

  /** The bytes of the fields from k on: the k-th field's, then those of the fields after it. */
  lemma SuffixStep(fields: seq<Field>, k: nat)
    requires AllWellFormed(fields) && k < |fields|
    ensures WellFormed(fields[k]) && AllWellFormed(fields[k..]) && AllWellFormed(fields[k + 1..])
    ensures EncodeFields(fields[k..]) == Encoding(fields[k]) + EncodeFields(fields[k + 1..])
  {
    SuffixWellFormed(fields, k);
    SuffixWellFormed(fields, k + 1);
    assert fields[k..][0] == fields[k] && fields[k..][1..] == fields[k + 1..];
  }

  lemma SuffixWellFormed(fields: seq<Field>, k: nat)
    requires AllWellFormed(fields) && k <= |fields|
    ensures AllWellFormed(fields[k..])
  {
    forall i | 0 <= i < |fields[k..]| ensures WellFormed(fields[k..][i]) {
      assert fields[k..][i] == fields[k + i];
    }
  }
}

/** The caller's side of the encoder, as test.c drives it: one field of a transaction written
    through the encoder call its kind needs, with the items of a list and the payload of a
    command copied into the bytes that call reserves. What the encoder holds afterwards is
    the field's bytes in the transaction format, so the round trip of the Transaction module
    covers what the encoder methods write. */
module FieldWriter {
  import opened Cte
  import Fields
  import SizeTable
  import CteEncoder
  import opened Transaction

  /** The caller's memcpy into a reserved region: `items` at `offset`, nothing else moves. */
  method CopyInto(e: CteEncoder.Encoder, offset: nat, items: seq<u8>)
    requires e.Valid() && 1 <= offset && offset + |items| <= e.capacity
    modifies e.buffer
    ensures e.Valid()
    ensures e.buffer[..] == old(e.buffer[..offset]) + items + old(e.buffer[offset + |items|..])
  {
    forall i | 0 <= i < |items| {
      e.buffer[offset + i] := items[i];
    }
    assert e.buffer[..] == old(e.buffer[..offset]) + items + old(e.buffer[offset + |items|..]) by {
      forall j | 0 <= j < e.buffer.Length
        ensures e.buffer[..][j] == (old(e.buffer[..offset]) + items + old(e.buffer[offset + |items|..]))[j]
      {
        if j < offset {
        } else if j < offset + |items| {
          assert e.buffer[j] == items[j - offset];
        }
      }
    }
  }

  /** The bytes before the position after a list or command whose header went at `at` and
      whose reserved bytes were then filled with `items`. */
  lemma FilledRegion(before: seq<u8>, reserved: seq<u8>, after: seq<u8>, at: nat, header: seq<u8>, items: seq<u8>)
    requires at + |header| + |items| <= |before| == |reserved|
    requires reserved[..at + |header|] == before[..at] + header
    requires after == reserved[..at + |header|] + items + reserved[at + |header| + |items|..]
    ensures after[..at + |header| + |items|] == before[..at] + header + items
  {
    assert after[..at + |header| + |items|] == reserved[..at + |header|] + items;
  }

  /** One field written at the end of the encoder's data: it is written exactly when its bytes
      fit in the capacity left, and then the data grows by the field's encoding; a field that
      does not fit leaves the data as it was. encoder.c has no writer for the zero varint. */
  method WriteField(e: CteEncoder.Encoder, f: Field) returns (r: Outcome)
    requires e.Valid() && WellFormed(f) && !f.VarintZero?
    modifies e, e.buffer
    ensures e.Valid()
    ensures r.Done? <==> old(e.position) + |Encoding(f)| <= e.capacity
    ensures r.Failed? ==> r.error == CapacityExceeded && e.GetData() == old(e.GetData())
    ensures r.Done? ==> e.GetData() == old(e.GetData()) + Encoding(f)
  {
    match f
    case PublicKeyList(_, _, _) => r := WriteList(e, f);
    case SignatureList(_, _, _) => r := WriteList(e, f);
    case CommandData(_) => r := WriteCommand(e, f);
    case IndexReference(_) => r := WriteIndex(e, f);
    case ULeb128Value(_) => r := WriteULeb128(e, f);
    case SLeb128Value(_) => r := WriteSLeb128(e, f);
    case Fixed(_, _) => r := WriteFixed(e, f);
    case Boolean(_) => r := WriteBoolean(e, f);
  }

  /** An index reference, through cte_encoder_write_ixdata_index_reference. */
  method WriteIndex(e: CteEncoder.Encoder, f: Field) returns (r: Outcome)
    requires e.Valid() && WellFormed(f) && f.IndexReference?
    modifies e, e.buffer
    ensures e.Valid()
    ensures r.Done? <==> old(e.position) + |Encoding(f)| <= e.capacity
    ensures r.Failed? ==> r.error == CapacityExceeded && e.GetData() == old(e.GetData())
    ensures r.Done? ==> e.GetData() == old(e.GetData()) + Encoding(f)
  {
    r := e.WriteIxDataIndexReference(f.index);
  }

  /** A ULEB128 varint, through cte_encoder_write_ixdata_uleb128 with the capacity check corrected. */
  method WriteULeb128(e: CteEncoder.Encoder, f: Field) returns (r: Outcome)
    requires e.Valid() && WellFormed(f) && f.ULeb128Value?
    modifies e, e.buffer
    ensures e.Valid()
    ensures r.Done? <==> old(e.position) + |Encoding(f)| <= e.capacity
    ensures r.Failed? ==> r.error == CapacityExceeded && e.GetData() == old(e.GetData())
    ensures r.Done? ==> e.GetData() == old(e.GetData()) + Encoding(f)
  {
    r := e.WriteIxDataULeb128(f.unsigned);
  }

  /** A SLEB128 varint, through cte_encoder_write_ixdata_sleb128 with the capacity check corrected. */
  method WriteSLeb128(e: CteEncoder.Encoder, f: Field) returns (r: Outcome)
    requires e.Valid() && WellFormed(f) && f.SLeb128Value?
    modifies e, e.buffer
    ensures e.Valid()
    ensures r.Done? <==> old(e.position) + |Encoding(f)| <= e.capacity
    ensures r.Failed? ==> r.error == CapacityExceeded && e.GetData() == old(e.GetData())
    ensures r.Done? ==> e.GetData() == old(e.GetData()) + Encoding(f)
  {
    r := e.WriteIxDataSLeb128(f.signed);
  }

  /** A fixed-width value, through the shared body of the cte_encoder_write_ixdata_int*, uint* and float* writers. */
  method WriteFixed(e: CteEncoder.Encoder, f: Field) returns (r: Outcome)
    requires e.Valid() && WellFormed(f) && f.Fixed?
    modifies e, e.buffer
    ensures e.Valid()
    ensures r.Done? <==> old(e.position) + |Encoding(f)| <= e.capacity
    ensures r.Failed? ==> r.error == CapacityExceeded && e.GetData() == old(e.GetData())
    ensures r.Done? ==> e.GetData() == old(e.GetData()) + Encoding(f)
  {
    r := e.WriteFixedData(f.fixedType, f.payload);
  }

  /** A boolean, through cte_encoder_write_ixdata_boolean. */
  method WriteBoolean(e: CteEncoder.Encoder, f: Field) returns (r: Outcome)
    requires e.Valid() && WellFormed(f) && f.Boolean?
    modifies e, e.buffer
    ensures e.Valid()
    ensures r.Done? <==> old(e.position) + |Encoding(f)| <= e.capacity
    ensures r.Failed? ==> r.error == CapacityExceeded && e.GetData() == old(e.GetData())
    ensures r.Done? ==> e.GetData() == old(e.GetData()) + Encoding(f)
  {
    r := e.WriteIxDataBoolean(f.value);
  }

  /** A list: its header through cte_encoder_begin_*_list, then its items into the bytes that
      call reserves. */
  method WriteList(e: CteEncoder.Encoder, f: Field) returns (r: Outcome)
    requires e.Valid() && WellFormed(f) && (f.PublicKeyList? || f.SignatureList?)
    modifies e, e.buffer
    ensures e.Valid()
    ensures r.Done? <==> old(e.position) + |Encoding(f)| <= e.capacity
    ensures r.Failed? ==> r.error == CapacityExceeded && e.GetData() == old(e.GetData())
    ensures r.Done? ==> e.GetData() == old(e.GetData()) + Encoding(f)
  {
    if f.PublicKeyList? {
      r := WritePublicKeyList(e, f);
    } else {
      r := WriteSignatureList(e, f);
    }
  }

  /** A public-key list, through cte_encoder_begin_public_key_list. */
  method WritePublicKeyList(e: CteEncoder.Encoder, f: Field) returns (r: Outcome)
    requires e.Valid() && WellFormed(f) && f.PublicKeyList?
    modifies e, e.buffer
    ensures e.Valid()
    ensures r.Done? <==> old(e.position) + |Encoding(f)| <= e.capacity
    ensures r.Failed? ==> r.error == CapacityExceeded && e.GetData() == old(e.GetData())
    ensures r.Done? ==> e.GetData() == old(e.GetData()) + Encoding(f)
  {
    ListShape(f, TAG_PUBLIC_KEY_LIST, f.keyCount, f.keyType, f.keys);
    r := WriteItems(e, TAG_PUBLIC_KEY_LIST, f.keyCount, f.keyType, f.keys);
  }

  /** A signature list, through cte_encoder_begin_signature_list. */
  method WriteSignatureList(e: CteEncoder.Encoder, f: Field) returns (r: Outcome)
    requires e.Valid() && WellFormed(f) && f.SignatureList?
    modifies e, e.buffer
    ensures e.Valid()
    ensures r.Done? <==> old(e.position) + |Encoding(f)| <= e.capacity
    ensures r.Failed? ==> r.error == CapacityExceeded && e.GetData() == old(e.GetData())
    ensures r.Done? ==> e.GetData() == old(e.GetData()) + Encoding(f)
  {
    ListShape(f, TAG_SIGNATURE_LIST, f.sigCount, f.sigType, f.signatures);
    r := WriteItems(e, TAG_SIGNATURE_LIST, f.sigCount, f.sigType, f.signatures);
  }

  /** A well-formed list field meets what WriteItems asks of its arguments, and its encoding
      is the header WriteItems writes followed by the items. */
  lemma ListShape(f: Field, tag: u8, count: u8, typeCode: u8, items: seq<u8>)
    requires WellFormed(f)
    requires f.PublicKeyList? ==> f == PublicKeyList(typeCode, count, items) && tag == TAG_PUBLIC_KEY_LIST
    requires f.SignatureList? ==> f == SignatureList(typeCode, count, items) && tag == TAG_SIGNATURE_LIST
    requires f.PublicKeyList? || f.SignatureList?
    ensures 1 <= count <= LIST_MAX_LEN && Fields.ListItemSize(tag, typeCode).Ok?
    ensures |items| == count * Fields.ListItemSize(tag, typeCode).value
    ensures Encoding(f) == [Fields.ListHeader(tag, count, typeCode)] + items
  {
  }

  /** The list header, then the items into the reserved bytes. */
  method WriteItems(e: CteEncoder.Encoder, tag: u8, count: u8, typeCode: u8, items: seq<u8>) returns (r: Outcome)
    requires e.Valid() && (tag == TAG_PUBLIC_KEY_LIST || tag == TAG_SIGNATURE_LIST)
    requires 1 <= count <= LIST_MAX_LEN && Fields.ListItemSize(tag, typeCode).Ok?
    requires |items| == count * Fields.ListItemSize(tag, typeCode).value
    modifies e, e.buffer
    ensures e.Valid()
    ensures r.Done? <==> old(e.position) + 1 + |items| <= e.capacity
    ensures r.Failed? ==> r.error == CapacityExceeded && e.GetData() == old(e.GetData())
    ensures r.Done? ==> e.GetData() == old(e.GetData()) + [Fields.ListHeader(tag, count, typeCode)] + items
  {
    var at := e.position;
    ghost var before := e.buffer[..];
    var offset := e.BeginList(tag, count, typeCode);
    if offset.Err? {
      return Failed(offset.error);
    }
    ghost var reserved := e.buffer[..];
    CopyInto(e, offset.value, items);
    FilledRegion(before, reserved, e.buffer[..], at, [Fields.ListHeader(tag, count, typeCode)], items);
    return Done;
  }

  /** A command: its header through cte_encoder_begin_command_data, then its payload into the
      bytes that call reserves. */
  method WriteCommand(e: CteEncoder.Encoder, f: Field) returns (r: Outcome)
    requires e.Valid() && WellFormed(f) && f.CommandData?
    modifies e, e.buffer
    ensures e.Valid()
    ensures r.Done? <==> old(e.position) + |Encoding(f)| <= e.capacity
    ensures r.Failed? ==> r.error == CapacityExceeded && e.GetData() == old(e.GetData())
    ensures r.Done? ==> e.GetData() == old(e.GetData()) + Encoding(f)
  {
    var at := e.position;
    ghost var before := e.buffer[..];
    var offset := e.BeginCommandData(|f.command|);
    if offset.Err? {
      return Failed(offset.error);
    }
    ghost var reserved := e.buffer[..];
    ghost var header := Fields.CommandDataHeader(|f.command|).value;
    CteEncoder.OverwrittenPrefix(reserved, before, at, header);
    CopyInto(e, offset.value, f.command);
    FilledRegion(before, reserved, e.buffer[..], at, header, f.command);
    return Done;
  }

  /** A whole transaction written into a fresh encoder field by field, as test.c writes its
      own: it is written exactly when all of it fits in the capacity, and then the encoder
      holds the transaction's bytes, which the decoder reads back as the same fields when
      they are within the transaction size limit. On the first field that does not fit the
      writing stops with the fields before it in the data: what the encoder holds then is
      the transaction up to a field boundary, and the next field would overflow it. */
  method WriteTransaction(e: CteEncoder.Encoder, fields: seq<Field>) returns (r: Outcome)
    requires e.Valid() && e.GetData() == [VERSION_BYTE]
    requires AllWellFormed(fields) && forall i :: 0 <= i < |fields| ==> !fields[i].VarintZero?
    modifies e, e.buffer
    ensures e.Valid()
    ensures r.Done? <==> |Encode(fields)| <= e.capacity
    ensures r.Failed? ==> r.error == CapacityExceeded
    ensures r.Failed? ==>
      exists k :: 0 <= k < |fields| && AllWellFormed(fields[k..]) &&
        e.GetData() + EncodeFields(fields[k..]) == Encode(fields) &&
        e.GetSize() + |Encoding(fields[k])| > e.capacity
    ensures r.Done? ==> e.GetData() == Encode(fields)
    ensures r.Done? && e.GetSize() <= MAX_TRANSACTION_SIZE ==> Decode(e.GetData()) == Ok(fields)
  {
    var i := 0;
    assert fields[0..] == fields;
    while i < |fields|
      invariant 0 <= i <= |fields| && e.Valid() && AllWellFormed(fields[i..])
      invariant e.GetData() + EncodeFields(fields[i..]) == Encode(fields)
      modifies e, e.buffer
    {
      SuffixStep(fields, i);
      ghost var data := e.GetData();
      r := WriteField(e, fields[i]);
      if r.Failed? {
        WholeLength(data, Encoding(fields[i]), EncodeFields(fields[i + 1..]), Encode(fields));
        assert e.GetData() + EncodeFields(fields[i..]) == Encode(fields);
        return;
      }
      Regrouped(data, Encoding(fields[i]), EncodeFields(fields[i + 1..]), Encode(fields));
      i := i + 1;
    }
    assert EncodeFields(fields[i..]) == [];
    r := Done;
    WrittenRoundTrip(fields, e.GetData());
  }

  /** What the encoder holds after the last field decodes to the fields, within the limit. */
  lemma WrittenRoundTrip(fields: seq<Field>, data: seq<u8>)
    requires AllWellFormed(fields) && data == Encode(fields)
    ensures |data| <= MAX_TRANSACTION_SIZE ==> Decode(data) == Ok(fields)
  {
    if |data| <= MAX_TRANSACTION_SIZE {
      TransactionRoundTrip(fields);
    }
  }

  lemma Regrouped(data: seq<u8>, field: seq<u8>, rest: seq<u8>, whole: seq<u8>)
    requires data + (field + rest) == whole
    ensures (data + field) + rest == whole
  {
  }

  lemma WholeLength(data: seq<u8>, field: seq<u8>, rest: seq<u8>, whole: seq<u8>)
    requires data + (field + rest) == whole
    ensures |data| + |field| <= |whole|
  {
  }
}

/** The write cursor of encoder.c: a fixed-capacity buffer that starts with the version byte
    and grows by one field per call, every write checked against the capacity. */
module CteEncoder {
  import opened Cte
  import Varint
  import Fields
  import FixedWidth

  /** `after` is `before` with `field` written at offset `at`, and nothing else changed. */
  ghost predicate Overwritten(after: seq<u8>, before: seq<u8>, at: nat, field: seq<u8>)
  {
    |after| == |before| && at + |field| <= |before| &&
    forall k :: 0 <= k < |after| ==> after[k] == (if at <= k < at + |field| then field[k - at] else before[k])
  }

  /** Writing a field at `at` appends it to the bytes before `at`. */
  lemma OverwrittenPrefix(after: seq<u8>, before: seq<u8>, at: nat, field: seq<u8>)
    requires Overwritten(after, before, at, field)
    ensures after[..at + |field|] == before[..at] + field
  {
    assert forall k :: 0 <= k < at + |field| ==> after[..at + |field|][k] == (before[..at] + field)[k];
  }

  /** A header byte at `at`, then a field right after it, write the two together. */
  lemma OverwrittenAfterHeader(before: seq<u8>, middle: seq<u8>, after: seq<u8>, at: nat, header: u8, field: seq<u8>)
    requires at < |before| && middle == before[at := header]
    requires Overwritten(after, middle, at + 1, field)
    ensures Overwritten(after, before, at, [header] + field)
  {
  }

  /** Writing field[i] after field[..i] writes field[..i + 1]. */
  lemma OverwrittenStep(after: seq<u8>, before: seq<u8>, at: nat, field: seq<u8>, i: nat)
    requires i < |field| && Overwritten(after, before, at, field[..i]) && at + i < |before|
    ensures Overwritten(after[at + i := field[i]], before, at, field[..i + 1])
  {
  }

  /** A write at `at` or beyond leaves the bytes before `at` alone. */
  lemma OverwrittenKeepsPrefix(after: seq<u8>, before: seq<u8>, at: nat, field: seq<u8>)
    requires Overwritten(after, before, at, field)
    ensures after[..at] == before[..at]
  {
  }

  /** One pass of _encode_uleb128's loop emits the next byte of the encoding. */
  lemma {:induction false} ULeb128Step(v: nat, enc: seq<u8>, i: nat)
    requires i < |enc| && enc[i..] == Varint.ULeb128(v)
    ensures var byte := if v / 128 != 0 then v % 128 + 128 else v % 128;
      enc[i] == byte
    ensures v / 128 != 0 ==> i + 1 < |enc| && enc[i + 1..] == Varint.ULeb128(v / 128)
    ensures v / 128 == 0 ==> i + 1 == |enc|
  {
    assert enc[i] == enc[i..][0];
    assert enc[i + 1..] == enc[i..][1..];
  }

  /** One pass of _encode_sleb128's loop emits the next byte of the encoding. */
  lemma {:induction false} SLeb128Step(v: int, enc: seq<u8>, i: nat)
    requires i < |enc| && enc[i..] == Varint.SLeb128(v)
    ensures var byte := if Varint.SLeb128Ends(v) then v % 128 else v % 128 + 128;
      enc[i] == byte
    ensures !Varint.SLeb128Ends(v) ==> i + 1 < |enc| && enc[i + 1..] == Varint.SLeb128(v / 128)
    ensures Varint.SLeb128Ends(v) ==> i + 1 == |enc|
  {
    assert enc[i] == enc[i..][0];
    assert enc[i + 1..] == enc[i..][1..];
  }

  /** The capacity checks a varint field passes, for an encoding of n bytes at `at`: the
      header's, then one per byte of `base + (write offset + i + 1) <= capacity`. In encoder.c
      `base` is the position itself, counted a second time; 0 is the intended check. */
  predicate VarintFieldFits(capacity: nat, at: nat, n: nat, base: nat)
  {
    at + 1 <= capacity && base + at + 1 + n <= capacity
  }

  class Encoder {
    /** The fixed-capacity buffer; buffer[..position] is the encoded transaction. */
    const buffer: array<u8>
    const capacity: nat
    var position: nat

    ghost predicate Valid()
      reads this, buffer
    {
      buffer.Length == capacity && 1 <= position <= capacity && buffer[0] == VERSION_BYTE
    }

    /** cte_encoder_init for a capacity it accepts: the version byte, then nothing. */
    constructor (capacity: nat)
      requires capacity >= 1
      ensures Valid() && fresh(buffer)
      ensures this.capacity == capacity && position == 1
    {
      this.capacity := capacity;
      buffer := new u8[capacity];
      position := 1;
      new;
      buffer[0] := VERSION_BYTE;
    }

    /** cte_encoder_init: a capacity below one byte is refused. */
    static method Init(capacity: nat) returns (r: Result<Encoder>)
      ensures r.Ok? <==> capacity >= 1
      ensures r.Err? ==> r.error == InvalidCapacity
      ensures r.Ok? ==> fresh(r.value) && fresh(r.value.buffer) && r.value.Valid()
      ensures r.Ok? ==> r.value.capacity == capacity && r.value.GetData() == [VERSION_BYTE]
    {
      if capacity < 1 {
        return Err(InvalidCapacity);
      }
      var e := new Encoder(capacity);
      return Ok(e);
    }

    /** cte_encoder_reset: back to the version byte alone; the bytes after it stay as they were. */
    method Reset()
      requires Valid()
      modifies this, buffer
      ensures Valid() && GetData() == [VERSION_BYTE]
      ensures buffer[1..] == old(buffer[1..])
    {
      position := 0;
      // CHECK_CAPACITY(1) cannot fail: the capacity is at least one byte.
      buffer[position] := VERSION_BYTE;
      position := position + 1;
    }

    /** cte_encoder_get_data with cte_encoder_get_size: the bytes written so far. */
    function GetData(): (r: seq<u8>)
      reads this, buffer
      requires Valid()
      ensures |r| == GetSize() && r[0] == VERSION_BYTE
    {
      buffer[..position]
    }

    /** cte_encoder_get_size: the count of bytes written, the version byte included. */
    function GetSize(): (n: nat)
      reads this, buffer
      requires Valid()
      ensures 1 <= n <= capacity
    {
      position
    }

    /** CHECK_CAPACITY: `needed` more bytes fit after the position. */
    predicate Fits(needed: nat)
      reads this
    {
      position + needed <= capacity
    }

    /** The state after a call that appends `field` at `at` or fails with `r`: on success the
        field follows the old contents and the position moves past it; on failure the
        position stays and the bytes written before are kept. */
    ghost predicate Appended(at: nat, before: seq<u8>, field: seq<u8>, r: Outcome)
      reads this, buffer
    {
      (r.Done? ==> position == at + |field| && Overwritten(buffer[..], before, at, field)) &&
      (r.Failed? ==> position == at && |before| == buffer.Length && at <= |before| &&
                     buffer[..at] == before[..at])
    }

    // -------------------------------------------------------------------------------------
    // Lists
    // -------------------------------------------------------------------------------------

    /** The common body of the two list writers: count, then item size, then capacity are
        checked before anything is written; the header is written and the N items' bytes
        are reserved, not written. The result is the offset of the reserved bytes. */
    method BeginList(tag: u8, count: u8, typeCode: u8) returns (r: Result<nat>)
      requires Valid() && (tag == TAG_PUBLIC_KEY_LIST || tag == TAG_SIGNATURE_LIST)
      modifies this, buffer
      ensures Valid()
      ensures ListBegun(tag, count, typeCode, old(position), old(buffer[..]), r)
    {
      if count == 0 || count > LIST_MAX_LEN {
        return Err(InvalidListLength);
      }
      var itemSize := Fields.ListItemSize(tag, typeCode);
      if itemSize.Err? {
        return Err(itemSize.error);
      }
      var totalFieldSize := 1 + count * itemSize.value;
      if !Fits(totalFieldSize) {
        return Err(CapacityExceeded);
      }
      buffer[position] := Fields.ListHeader(tag, count, typeCode);
      r := Ok(position + 1);
      position := position + totalFieldSize;
    }

    /** What a list writer promises, for the position and bytes it started from. */
    ghost predicate ListBegun(tag: u8, count: u8, typeCode: u8, at: nat, before: seq<u8>, r: Result<nat>)
      requires tag == TAG_PUBLIC_KEY_LIST || tag == TAG_SIGNATURE_LIST
      reads this, buffer
    {
      var itemSize := Fields.ListItemSize(tag, typeCode);
      (r.Ok? <==> 1 <= count <= LIST_MAX_LEN && itemSize.Ok? && at + 1 + count * itemSize.value <= capacity) &&
      (r.Err? ==> position == at && buffer[..] == before &&
                  r.error == (if count == 0 || count > LIST_MAX_LEN then InvalidListLength
                              else if itemSize.Err? then InvalidTypeCode else CapacityExceeded)) &&
      (r.Ok? ==> r.value == at + 1 && position == at + 1 + count * itemSize.value &&
                 at < |before| && buffer[..] == before[at := Fields.ListHeader(tag, count, typeCode)])
    }

    /** cte_encoder_begin_public_key_list. */
    method BeginPublicKeyList(keyCount: u8, typeCode: u8) returns (r: Result<nat>)
      requires Valid()
      modifies this, buffer
      ensures Valid()
      ensures ListBegun(TAG_PUBLIC_KEY_LIST, keyCount, typeCode, old(position), old(buffer[..]), r)
    {
      r := BeginList(TAG_PUBLIC_KEY_LIST, keyCount, typeCode);
    }

    /** cte_encoder_begin_signature_list. */
    method BeginSignatureList(sigCount: u8, typeCode: u8) returns (r: Result<nat>)
      requires Valid()
      modifies this, buffer
      ensures Valid()
      ensures ListBegun(TAG_SIGNATURE_LIST, sigCount, typeCode, old(position), old(buffer[..]), r)
    {
      r := BeginList(TAG_SIGNATURE_LIST, sigCount, typeCode);
    }

    // -------------------------------------------------------------------------------------
    // One-byte IxData fields
    // -------------------------------------------------------------------------------------

    /** Writes one header byte if it fits. */
    method PutHeaderByte(header: u8) returns (r: Outcome)
      requires Valid()
      modifies this, buffer
      ensures Valid()
      ensures r.Done? <==> old(position) + 1 <= capacity
      ensures r.Failed? ==> r.error == CapacityExceeded && buffer[..] == old(buffer[..])
      ensures Appended(old(position), old(buffer[..]), [header], r)
      ensures r.Done? ==> GetData() == old(GetData()) + [header]
    {
      if !Fits(1) {
        return Failed(CapacityExceeded);
      }
      buffer[position] := header;
      position := position + 1;
      OverwrittenPrefix(buffer[..], old(buffer[..]), old(position), [header]);
      return Done;
    }

    /** cte_encoder_write_ixdata_index_reference: an index above 15 is refused before the
        capacity is checked. */
    method WriteIxDataIndexReference(index: u8) returns (r: Outcome)
      requires Valid()
      modifies this, buffer
      ensures Valid()
      ensures r.Done? <==> index <= LEGACY_INDEX_MAX_VALUE && old(position) + 1 <= capacity
      ensures r.Failed? ==> (buffer[..] == old(buffer[..]) &&
        r.error == (if index > LEGACY_INDEX_MAX_VALUE then IndexOutOfRange else CapacityExceeded))
      ensures Appended(old(position), old(buffer[..]), [Fields.IxDataHeader(index, IXDATA_SUBTYPE_LEGACY_INDEX)], r)
      ensures r.Done? ==> GetData() == old(GetData()) + [Fields.IxDataHeader(index, IXDATA_SUBTYPE_LEGACY_INDEX)]
    {
      if index > LEGACY_INDEX_MAX_VALUE {
        return Failed(IndexOutOfRange);
      }
      r := PutHeaderByte(Fields.IxDataHeader(index, IXDATA_SUBTYPE_LEGACY_INDEX));
    }

    /** cte_encoder_write_ixdata_boolean: 0x87 for true, 0x83 for false. */
    method WriteIxDataBoolean(value: bool) returns (r: Outcome)
      requires Valid()
      modifies this, buffer
      ensures Valid()
      ensures r.Done? <==> old(position) + 1 <= capacity
      ensures r.Failed? ==> r.error == CapacityExceeded && buffer[..] == old(buffer[..])
      ensures Appended(old(position), old(buffer[..]), [if value then 0x87 else 0x83], r)
      ensures r.Done? ==> GetData() == old(GetData()) + [if value then 0x87 else 0x83]
    {
      if !Fits(1) {
        return Failed(CapacityExceeded);
      }
      var valueCode := if value then IXDATA_CONST_VAL_TRUE else IXDATA_CONST_VAL_FALSE;
      // The check for a constant code of 2 or more cannot fail: the code is 0 or 1.
      Fields.ConstantHeaderBytes();
      r := PutHeaderByte(Fields.IxDataHeader(valueCode, IXDATA_SUBTYPE_CONSTANT));
    }

    // -------------------------------------------------------------------------------------
    // Fixed-width IxData fields
    // -------------------------------------------------------------------------------------

    /** write_fixed_data_internal: a reserved type code is refused, then the header and the
        payload are written if both fit. */
    method WriteFixedData(typeCode: u8, payload: seq<u8>) returns (r: Outcome)
      requires Valid()
      modifies this, buffer
      ensures Valid()
      ensures r.Done? <==> typeCode <= IXDATA_FIXED_TYPE_FLOAT64 && old(position) + 1 + |payload| <= capacity
      ensures r.Failed? ==> (buffer[..] == old(buffer[..]) &&
        r.error == (if typeCode > IXDATA_FIXED_TYPE_FLOAT64 then ReservedFixedType else CapacityExceeded))
      ensures Appended(old(position), old(buffer[..]), [Fields.IxDataHeader(typeCode, IXDATA_SUBTYPE_FIXED)] + payload, r)
      ensures r.Done? ==> GetData() == old(GetData()) + [Fields.IxDataHeader(typeCode, IXDATA_SUBTYPE_FIXED)] + payload
    {
      if typeCode >= 0x0A {
        return Failed(ReservedFixedType);
      }
      var totalSize := 1 + |payload|;
      if !Fits(totalSize) {
        return Failed(CapacityExceeded);
      }
      var header := Fields.IxDataHeader(typeCode, IXDATA_SUBTYPE_FIXED);
      ghost var middle := buffer[..][position := header];
      buffer[position] := header;
      position := position + 1;
      // memcpy of the payload
      forall k | 0 <= k < |payload| {
        buffer[position + k] := payload[k];
      }
      ghost var at := position - 1;
      assert Overwritten(buffer[..], middle, position, payload);
      OverwrittenAfterHeader(old(buffer[..]), middle, buffer[..], at, header, payload);
      position := position + |payload|;
      OverwrittenPrefix(buffer[..], old(buffer[..]), at, [header] + payload);
      return Done;
    }

    /** The writer of one signed fixed type: the value's two's-complement bytes, little-endian. */
    method WriteSigned(typeCode: u8, value: int, width: nat) returns (r: Outcome)
      requires Valid() && typeCode <= IXDATA_FIXED_TYPE_FLOAT64 && FixedWidth.SignedFits(value, width)
      modifies this, buffer
      ensures Valid()
      ensures r.Done? <==> old(position) + 1 + width <= capacity
      ensures r.Failed? ==> r.error == CapacityExceeded && buffer[..] == old(buffer[..])
      ensures r.Done? ==>
        GetData() == old(GetData()) + [Fields.IxDataHeader(typeCode, IXDATA_SUBTYPE_FIXED)] + FixedWidth.SignedBytes(value, width)
      ensures Appended(old(position), old(buffer[..]),
        [Fields.IxDataHeader(typeCode, IXDATA_SUBTYPE_FIXED)] + FixedWidth.SignedBytes(value, width), r)
    {
      r := WriteFixedData(typeCode, FixedWidth.SignedBytes(value, width));
    }

    /** The writer of one unsigned fixed type: the value's bytes, little-endian. */
    method WriteUnsigned(typeCode: u8, value: nat, width: nat) returns (r: Outcome)
      requires Valid() && typeCode <= IXDATA_FIXED_TYPE_FLOAT64 && value < FixedWidth.Pow256(width)
      modifies this, buffer
      ensures Valid()
      ensures r.Done? <==> old(position) + 1 + width <= capacity
      ensures r.Failed? ==> r.error == CapacityExceeded && buffer[..] == old(buffer[..])
      ensures r.Done? ==>
        GetData() == old(GetData()) + [Fields.IxDataHeader(typeCode, IXDATA_SUBTYPE_FIXED)] + FixedWidth.LittleEndian(value, width)
      ensures Appended(old(position), old(buffer[..]),
        [Fields.IxDataHeader(typeCode, IXDATA_SUBTYPE_FIXED)] + FixedWidth.LittleEndian(value, width), r)
    {
      r := WriteFixedData(typeCode, FixedWidth.LittleEndian(value, width));
    }

    method WriteIxDataInt8(value: i8) returns (r: Outcome)
      requires Valid()
      modifies this, buffer
      ensures Valid() && (r.Done? <==> old(position) + 2 <= capacity)
      ensures r.Done? ==> GetData() == old(GetData()) + [0x82] + FixedWidth.SignedBytes(value, 1)
      ensures r.Failed? ==> r.error == CapacityExceeded && position == old(position) && buffer[..] == old(buffer[..])
    {
      FixedWidth.WidthBounds();
      Fields.FixedHeaderByte(IXDATA_FIXED_TYPE_INT8);
      r := WriteSigned(IXDATA_FIXED_TYPE_INT8, value, 1);
    }

    method WriteIxDataInt16(value: i16) returns (r: Outcome)
      requires Valid()
      modifies this, buffer
      ensures Valid() && (r.Done? <==> old(position) + 3 <= capacity)
      ensures r.Done? ==> GetData() == old(GetData()) + [0x86] + FixedWidth.SignedBytes(value, 2)
      ensures r.Failed? ==> r.error == CapacityExceeded && position == old(position) && buffer[..] == old(buffer[..])
    {
      FixedWidth.WidthBounds();
      Fields.FixedHeaderByte(IXDATA_FIXED_TYPE_INT16);
      r := WriteSigned(IXDATA_FIXED_TYPE_INT16, value, 2);
    }

    method WriteIxDataInt32(value: i32) returns (r: Outcome)
      requires Valid()
      modifies this, buffer
      ensures Valid() && (r.Done? <==> old(position) + 5 <= capacity)
      ensures r.Done? ==> GetData() == old(GetData()) + [0x8A] + FixedWidth.SignedBytes(value, 4)
      ensures r.Failed? ==> r.error == CapacityExceeded && position == old(position) && buffer[..] == old(buffer[..])
    {
      FixedWidth.WidthBounds();
      Fields.FixedHeaderByte(IXDATA_FIXED_TYPE_INT32);
      r := WriteSigned(IXDATA_FIXED_TYPE_INT32, value, 4);
    }

    method WriteIxDataInt64(value: i64) returns (r: Outcome)
      requires Valid()
      modifies this, buffer
      ensures Valid() && (r.Done? <==> old(position) + 9 <= capacity)
      ensures r.Done? ==> GetData() == old(GetData()) + [0x8E] + FixedWidth.SignedBytes(value, 8)
      ensures r.Failed? ==> r.error == CapacityExceeded && position == old(position) && buffer[..] == old(buffer[..])
    {
      FixedWidth.WidthBounds();
      Fields.FixedHeaderByte(IXDATA_FIXED_TYPE_INT64);
      r := WriteSigned(IXDATA_FIXED_TYPE_INT64, value, 8);
    }

    method WriteIxDataUint8(value: u8) returns (r: Outcome)
      requires Valid()
      modifies this, buffer
      ensures Valid() && (r.Done? <==> old(position) + 2 <= capacity)
      ensures r.Done? ==> GetData() == old(GetData()) + [0x92] + FixedWidth.LittleEndian(value, 1)
      ensures r.Failed? ==> r.error == CapacityExceeded && position == old(position) && buffer[..] == old(buffer[..])
    {
      FixedWidth.WidthBounds();
      Fields.FixedHeaderByte(IXDATA_FIXED_TYPE_UINT8);
      r := WriteUnsigned(IXDATA_FIXED_TYPE_UINT8, value, 1);
    }

    method WriteIxDataUint16(value: u16) returns (r: Outcome)
      requires Valid()
      modifies this, buffer
      ensures Valid() && (r.Done? <==> old(position) + 3 <= capacity)
      ensures r.Done? ==> GetData() == old(GetData()) + [0x96] + FixedWidth.LittleEndian(value, 2)
      ensures r.Failed? ==> r.error == CapacityExceeded && position == old(position) && buffer[..] == old(buffer[..])
    {
      FixedWidth.WidthBounds();
      Fields.FixedHeaderByte(IXDATA_FIXED_TYPE_UINT16);
      r := WriteUnsigned(IXDATA_FIXED_TYPE_UINT16, value, 2);
    }

    method WriteIxDataUint32(value: u32) returns (r: Outcome)
      requires Valid()
      modifies this, buffer
      ensures Valid() && (r.Done? <==> old(position) + 5 <= capacity)
      ensures r.Done? ==> GetData() == old(GetData()) + [0x9A] + FixedWidth.LittleEndian(value, 4)
      ensures r.Failed? ==> r.error == CapacityExceeded && position == old(position) && buffer[..] == old(buffer[..])
    {
      FixedWidth.WidthBounds();
      Fields.FixedHeaderByte(IXDATA_FIXED_TYPE_UINT32);
      r := WriteUnsigned(IXDATA_FIXED_TYPE_UINT32, value, 4);
    }

    method WriteIxDataUint64(value: u64) returns (r: Outcome)
      requires Valid()
      modifies this, buffer
      ensures Valid() && (r.Done? <==> old(position) + 9 <= capacity)
      ensures r.Done? ==> GetData() == old(GetData()) + [0x9E] + FixedWidth.LittleEndian(value, 8)
      ensures r.Failed? ==> r.error == CapacityExceeded && position == old(position) && buffer[..] == old(buffer[..])
    {
      FixedWidth.WidthBounds();
      Fields.FixedHeaderByte(IXDATA_FIXED_TYPE_UINT64);
      r := WriteUnsigned(IXDATA_FIXED_TYPE_UINT64, value, 8);
    }

    /** A float32 field: its four IEEE 754 bytes, taken as they are. */
    method WriteIxDataFloat32(bits: seq<u8>) returns (r: Outcome)
      requires Valid() && |bits| == 4
      modifies this, buffer
      ensures Valid() && (r.Done? <==> old(position) + 5 <= capacity)
      ensures r.Done? ==> GetData() == old(GetData()) + [0xA2] + bits
      ensures r.Failed? ==> r.error == CapacityExceeded && position == old(position) && buffer[..] == old(buffer[..])
    {
      Fields.FixedHeaderByte(IXDATA_FIXED_TYPE_FLOAT32);
      r := WriteFixedData(IXDATA_FIXED_TYPE_FLOAT32, bits);
    }

    /** A float64 field: its eight IEEE 754 bytes, taken as they are. */
    method WriteIxDataFloat64(bits: seq<u8>) returns (r: Outcome)
      requires Valid() && |bits| == 8
      modifies this, buffer
      ensures Valid() && (r.Done? <==> old(position) + 9 <= capacity)
      ensures r.Done? ==> GetData() == old(GetData()) + [0xA6] + bits
      ensures r.Failed? ==> r.error == CapacityExceeded && position == old(position) && buffer[..] == old(buffer[..])
    {
      Fields.FixedHeaderByte(IXDATA_FIXED_TYPE_FLOAT64);
      r := WriteFixedData(IXDATA_FIXED_TYPE_FLOAT64, bits);
    }

    // -------------------------------------------------------------------------------------
    // Varint IxData fields
    // -------------------------------------------------------------------------------------

    /** _encode_uleb128 at `writeOffset`; before each byte i it checks
        `base + writeOffset + i + 1 <= capacity`. */
    method EmitULeb128(writeOffset: nat, value: u64, base: nat) returns (r: Result<nat>)
      requires Valid() && 1 <= writeOffset <= capacity
      modifies buffer
      ensures Valid()
      ensures r.Ok? <==> base + writeOffset + |Varint.ULeb128(value)| <= capacity
      ensures r.Err? ==> r.error == CapacityExceeded && buffer[..writeOffset] == old(buffer[..writeOffset])
      ensures r.Ok? ==> (r.value == |Varint.ULeb128(value)| &&
        Overwritten(buffer[..], old(buffer[..]), writeOffset, Varint.ULeb128(value)))
    {
      ghost var enc := Varint.ULeb128(value);
      ghost var before := buffer[..];
      var v: nat := value;
      var i := 0;
      var more := true;
      while more
        invariant buffer.Length == capacity && buffer[0] == VERSION_BYTE
        invariant 0 <= i <= |enc|
        invariant more ==> i < |enc| && enc[i..] == Varint.ULeb128(v)
        invariant !more ==> i == |enc| && i > 0
        invariant i > 0 ==> base + writeOffset + i <= capacity
        invariant Overwritten(buffer[..], before, writeOffset, enc[..i])
        decreases |enc| - i
      {
        if base + writeOffset + i + 1 > capacity {
          OverwrittenKeepsPrefix(buffer[..], before, writeOffset, enc[..i]);
          return Err(CapacityExceeded);
        }
        ghost var current := v;
        var byte: u8 := v % 128;             // value & 0x7f
        v := v / 128;
        if v != 0 {
          byte := byte + 128;                // byte |= 0x80
        }
        ULeb128Step(current, enc, i);
        assert byte == enc[i];
        ghost var written := buffer[..];
        buffer[writeOffset + i] := byte;
        assert buffer[..] == written[writeOffset + i := byte];
        OverwrittenStep(written, before, writeOffset, enc, i);
        i := i + 1;
        more := v != 0;
      }
      assert enc[..i] == enc;
      return Ok(i);
    }

    /** _encode_sleb128 at `writeOffset`, with the same checks as EmitULeb128. */
    method EmitSLeb128(writeOffset: nat, value: i64, base: nat) returns (r: Result<nat>)
      requires Valid() && 1 <= writeOffset <= capacity
      modifies buffer
      ensures Valid()
      ensures r.Ok? <==> base + writeOffset + |Varint.SLeb128(value)| <= capacity
      ensures r.Err? ==> r.error == CapacityExceeded && buffer[..writeOffset] == old(buffer[..writeOffset])
      ensures r.Ok? ==> (r.value == |Varint.SLeb128(value)| &&
        Overwritten(buffer[..], old(buffer[..]), writeOffset, Varint.SLeb128(value)))
    {
      ghost var enc := Varint.SLeb128(value);
      ghost var before := buffer[..];
      var v: int := value;
      var i := 0;
      var more := true;
      while more
        invariant buffer.Length == capacity && buffer[0] == VERSION_BYTE
        invariant 0 <= i <= |enc|
        invariant more ==> i < |enc| && enc[i..] == Varint.SLeb128(v)
        invariant !more ==> i == |enc| && i > 0
        invariant i > 0 ==> base + writeOffset + i <= capacity
        invariant Overwritten(buffer[..], before, writeOffset, enc[..i])
        decreases |enc| - i
      {
        if base + writeOffset + i + 1 > capacity {
          OverwrittenKeepsPrefix(buffer[..], before, writeOffset, enc[..i]);
          return Err(CapacityExceeded);
        }
        ghost var current := v;
        var byte: u8 := v % 128;             // value & 0x7f
        var signBit := byte >= 64;           // byte & 0x40
        v := v / 128;                        // value >>= 7, an arithmetic shift
        if (v == 0 && !signBit) || (v == -1 && signBit) {
          more := false;
        } else {
          byte := byte + 128;                // byte |= 0x80
        }
        SLeb128Step(current, enc, i);
        ghost var written := buffer[..];
        buffer[writeOffset + i] := byte;
        assert buffer[..] == written[writeOffset + i := byte];
        OverwrittenStep(written, before, writeOffset, enc, i);
        i := i + 1;
      }
      assert enc[..i] == enc;
      return Ok(i);
    }

    /** cte_encoder_write_ixdata_uleb128 with the intended capacity check: the field is written
        exactly when header and encoding fit. */
    method WriteIxDataULeb128(value: u64) returns (r: Outcome)
      requires Valid()
      modifies this, buffer
      ensures Valid()
      ensures r.Done? <==> VarintFieldFits(capacity, old(position), |Varint.ULeb128(value)|, 0)
      ensures r.Failed? ==> r.error == CapacityExceeded
      ensures Appended(old(position), old(buffer[..]), [0x85] + Varint.ULeb128(value), r)
      ensures r.Done? ==> GetData() == old(GetData()) + [0x85] + Varint.ULeb128(value)
    {
      r := WriteULeb128Field(value, 0);
    }

    /** cte_encoder_write_ixdata_uleb128 as written: the field is refused unless the position,
        counted twice, plus header and encoding fit. */
    method WriteIxDataULeb128AsWritten(value: u64) returns (r: Outcome)
      requires Valid()
      modifies this, buffer
      ensures Valid()
      ensures r.Done? <==> VarintFieldFits(capacity, old(position), |Varint.ULeb128(value)|, old(position))
      ensures r.Failed? ==> r.error == CapacityExceeded
      ensures Appended(old(position), old(buffer[..]), [0x85] + Varint.ULeb128(value), r)
    {
      r := WriteULeb128Field(value, position);
    }

    method WriteULeb128Field(value: u64, base: nat) returns (r: Outcome)
      requires Valid()
      modifies this, buffer
      ensures Valid()
      ensures r.Done? <==> VarintFieldFits(capacity, old(position), |Varint.ULeb128(value)|, base)
      ensures r.Failed? ==> r.error == CapacityExceeded
      ensures Appended(old(position), old(buffer[..]), [0x85] + Varint.ULeb128(value), r)
      ensures r.Done? ==> GetData() == old(GetData()) + [0x85] + Varint.ULeb128(value)
    {
      if !Fits(1) {
        return Failed(CapacityExceeded);
      }
      Fields.VarintHeaderBytes();
      var header := Fields.IxDataHeader(IXDATA_VARINT_ENC_ULEB128, IXDATA_SUBTYPE_VARINT);
      ghost var middle := buffer[..][position := header];
      buffer[position] := header;
      var bytesWritten := EmitULeb128(position + 1, value, base);
      if bytesWritten.Err? {
        return Failed(bytesWritten.error);
      }
      OverwrittenAfterHeader(old(buffer[..]), middle, buffer[..], position, header, Varint.ULeb128(value));
      position := position + 1 + bytesWritten.value;
      OverwrittenPrefix(buffer[..], old(buffer[..]), old(position), [header] + Varint.ULeb128(value));
      return Done;
    }

    /** cte_encoder_write_ixdata_sleb128 with the intended capacity check. */
    method WriteIxDataSLeb128(value: i64) returns (r: Outcome)
      requires Valid()
      modifies this, buffer
      ensures Valid()
      ensures r.Done? <==> VarintFieldFits(capacity, old(position), |Varint.SLeb128(value)|, 0)
      ensures r.Failed? ==> r.error == CapacityExceeded
      ensures Appended(old(position), old(buffer[..]), [0x89] + Varint.SLeb128(value), r)
      ensures r.Done? ==> GetData() == old(GetData()) + [0x89] + Varint.SLeb128(value)
    {
      r := WriteSLeb128Field(value, 0);
    }

    /** cte_encoder_write_ixdata_sleb128 as written, the position counted twice. */
    method WriteIxDataSLeb128AsWritten(value: i64) returns (r: Outcome)
      requires Valid()
      modifies this, buffer
      ensures Valid()
      ensures r.Done? <==> VarintFieldFits(capacity, old(position), |Varint.SLeb128(value)|, old(position))
      ensures r.Failed? ==> r.error == CapacityExceeded
      ensures Appended(old(position), old(buffer[..]), [0x89] + Varint.SLeb128(value), r)
    {
      r := WriteSLeb128Field(value, position);
    }

    method WriteSLeb128Field(value: i64, base: nat) returns (r: Outcome)
      requires Valid()
      modifies this, buffer
      ensures Valid()
      ensures r.Done? <==> VarintFieldFits(capacity, old(position), |Varint.SLeb128(value)|, base)
      ensures r.Failed? ==> r.error == CapacityExceeded
      ensures Appended(old(position), old(buffer[..]), [0x89] + Varint.SLeb128(value), r)
      ensures r.Done? ==> GetData() == old(GetData()) + [0x89] + Varint.SLeb128(value)
    {
      if !Fits(1) {
        return Failed(CapacityExceeded);
      }
      Fields.VarintHeaderBytes();
      var header := Fields.IxDataHeader(IXDATA_VARINT_ENC_SLEB128, IXDATA_SUBTYPE_VARINT);
      ghost var middle := buffer[..][position := header];
      buffer[position] := header;
      var bytesWritten := EmitSLeb128(position + 1, value, base);
      if bytesWritten.Err? {
        return Failed(bytesWritten.error);
      }
      OverwrittenAfterHeader(old(buffer[..]), middle, buffer[..], position, header, Varint.SLeb128(value));
      position := position + 1 + bytesWritten.value;
      OverwrittenPrefix(buffer[..], old(buffer[..]), old(position), [header] + Varint.SLeb128(value));
      return Done;
    }

    // -------------------------------------------------------------------------------------
    // Command data
    // -------------------------------------------------------------------------------------

    /** cte_encoder_begin_command_data: the short or extended header by length, then the
        payload's bytes reserved. The result is the offset of the reserved bytes. */
    method BeginCommandData(length: nat) returns (r: Result<nat>)
      requires Valid()
      modifies this, buffer
      ensures Valid()
      ensures var header := Fields.CommandDataHeader(length);
        r.Ok? <==> header.Ok? && old(position) + |header.value| + length <= capacity
      ensures r.Err? ==> (position == old(position) && buffer[..] == old(buffer[..]) &&
        r.error == (if length > COMMAND_EXTENDED_MAX_LEN then CommandLengthOutOfRange else CapacityExceeded))
      ensures r.Ok? ==> var header := Fields.CommandDataHeader(length).value;
        r.value == old(position) + |header| && position == r.value + length &&
        Overwritten(buffer[..], old(buffer[..]), old(position), header)
    {
      var header := Fields.CommandDataHeader(length);
      if header.Err? {
        return Err(header.error);
      }
      var headerSize := |header.value|;
      if !Fits(headerSize + length) {
        return Err(CapacityExceeded);
      }
      buffer[position] := header.value[0];
      if headerSize == 2 {
        buffer[position + 1] := header.value[1];
      }
      assert Overwritten(buffer[..], old(buffer[..]), position, header.value);
      r := Ok(position + headerSize);
      position := position + headerSize + length;
    }
  }

  /** At capacity 10 and position 5 a zero needs bytes 5 and 6 only: the intended check
      accepts it, the check as written refuses it. */
  lemma VarintCheckCountsPositionTwice()
    ensures |Varint.ULeb128(0)| == 1 && |Varint.SLeb128(0)| == 1
    ensures VarintFieldFits(10, 5, 1, 0)
    ensures !VarintFieldFits(10, 5, 1, 5)
  {
  }

  /** The check as written accepts only what the intended check accepts, and refuses every
      field that fits but ends within the last `at` bytes of the buffer. */
  lemma VarintCheckAsWrittenStricter(capacity: nat, at: nat, n: nat)
    ensures VarintFieldFits(capacity, at, n, at) ==> VarintFieldFits(capacity, at, n, 0)
    ensures 1 <= at && at + 1 + n <= capacity < 2 * at + 1 + n ==>
      VarintFieldFits(capacity, at, n, 0) && !VarintFieldFits(capacity, at, n, at)
  {
  }
}

/** LEB128 varints: the byte strings the encoder emits, and what the decoder reads back. */
module Varint {
  import opened Cte
  import opened Bits

  // ---------------------------------------------------------------------------------------
  // Encoding
  // ---------------------------------------------------------------------------------------

  /** The bytes _encode_uleb128 emits for v: 7-bit groups, least significant first, with
      bit 7 set on every byte but the last. */
  function ULeb128(v: nat): (r: seq<u8>)
    decreases v
  {
    var group := v % 128;                 // value & 0x7f
    if v / 128 == 0 then [group]
    else [group + 128] + ULeb128(v / 128)  // byte |= 0x80 on a group below 0x80
  }

  /** _encode_sleb128's stop test: the rest after the shift is pure sign extension of the
      group's bit 6. */
  predicate SLeb128Ends(v: int)
  {
    var group := v % 128;            // value & 0x7f, Euclidean like the two's-complement mask
    var signBit := group >= 64;      // byte & 0x40
    var rest := v / 128;             // value >>= 7, rounding toward minus infinity
    (rest == 0 && !signBit) || (rest == -1 && signBit)
  }

  /** The bytes _encode_sleb128 emits for v: arithmetic shifts by 7 until the stop test holds. */
  function SLeb128(v: int): (r: seq<u8>)
    decreases if v < 0 then -v else v
  {
    var group := v % 128;
    if SLeb128Ends(v) then [group]
    else
      assert v != 0 && v != -1;
      [group + 128] + SLeb128(v / 128)
  }

  /** The stop test holds exactly for the values one 7-bit signed group can hold. */
  lemma SLeb128EndsIff(v: int)
    ensures SLeb128Ends(v) <==> -64 <= v < 64
  {
  }

  /** Every encoding is a run of continuation bytes closed by one terminal byte. */
  predicate WellTerminated(s: seq<u8>)
  {
    |s| >= 1 && !Continues(s[|s| - 1]) && forall k :: 0 <= k < |s| - 1 ==> Continues(s[k])
  }

  lemma {:induction false} ULeb128Shape(v: nat)
    ensures WellTerminated(ULeb128(v))
    decreases v
  {
    if v / 128 != 0 {
      ULeb128Shape(v / 128);
    }
  }

  lemma {:induction false} SLeb128Shape(v: int)
    ensures WellTerminated(SLeb128(v))
    decreases if v < 0 then -v else v
  {
    if !SLeb128Ends(v) {
      SLeb128Shape(v / 128);
    }
  }

  /** A value below 2^(7k) takes at most k bytes; a uint64 at most 10. */
  lemma {:induction false} ULeb128Length(v: nat, k: nat)
    requires 1 <= k && v < Pow2(7 * k)
    ensures |ULeb128(v)| <= k
    decreases k
  {
    if v / 128 != 0 {
      Pow2Add(7, 7 * (k - 1));
      Pow2Values();
      if k == 1 {
        assert false;
      }
      ULeb128Length(v / 128, k - 1);
    }
  }

  /** A value in [-2^(7k-1), 2^(7k-1)) takes at most k bytes; an int64 at most 10. */
  lemma {:induction false} SLeb128Length(v: int, k: nat)
    requires 1 <= k && -(Pow2(7 * k - 1) as int) <= v < Pow2(7 * k - 1)
    ensures |SLeb128(v)| <= k
    decreases k
  {
    SLeb128EndsIff(v);
    if k == 1 {
      assert Pow2(6) == 64;
    } else if !SLeb128Ends(v) {
      Pow2Step(7 * (k - 1) - 1);
      SLeb128Length(v / 128, k - 1);
    }
  }

  // ---------------------------------------------------------------------------------------
  // Decoding
  // ---------------------------------------------------------------------------------------

  /** A decoded value and the number of bytes it took. */
  datatype Decoded = Decoded(value: int, length: nat)

  /** Bit 7 of a byte: another group follows. */
  predicate Continues(b: u8)
  {
    b >= 128   // b & 0x80
  }

  /** A successful read of the bytes s, begun at the decoder's i-th byte, takes at least one
      byte of s and stays within ten bytes in all (which bytes it takes: ULeb128FromTakesRun). */
  ghost predicate ReadGroups(s: seq<u8>, i: nat, r: Result<Decoded>)
  {
    r.Ok? ==> 1 <= r.value.length <= 10 - i && r.value.length <= |s|
  }

  /** What one pass of a decoder loop makes of its i-th byte: the last group's value (to be
      shifted by 7 * i), a further 7-bit group, or an abort. */
  datatype Group = Last(value: int) | More(group: nat) | Bad(error: Error)

  /** The loop body of _decode_uleb128 at its i-th byte (shift 7 * i). */
  function ULeb128Group(b: u8, i: nat): (g: Group)
    requires i < 10
    ensures g.Bad? <==> i == 9 && b >= 2
    ensures g.Bad? ==> g.error == ULeb128Overflow
    ensures g.Last? ==> !Continues(b) && g.value == b % 128 && g.value < Pow2(64 - 7 * i)
    ensures g.More? ==> Continues(b) && i < 9 && g.group == b % 128 && g.group < 128
  {
    var shift := 7 * i;
    if shift >= 64 || (shift == 63 && b >= 2) then Bad(ULeb128Overflow)   // byte & 0xFE
    else if b < 128 then
      assert b % 128 < Pow2(64 - 7 * i) by {
        if i == 9 {
          assert Pow2(64 - 7 * i) == 2;
        } else {
          Pow2AtLeast128(64 - 7 * i);
        }
      }
      Last(b % 128)
    else More(b % 128)
  }

  /** The loop body of _decode_sleb128 at its i-th byte: after shift += 7, a last group's bit 6
      extends to the sign (result |= -((int64_t)1 << shift)) while the shift is below 64; the
      tenth group was shifted by 63, so only its bit 0 survives, as the sign bit. */
  function SLeb128Group(b: u8, i: nat): (g: Group)
    requires i < 10
    ensures g.Bad? <==> i == 9 && Continues(b)
    ensures g.Bad? ==> g.error == SLeb128Overflow
    ensures g.Last? ==> !Continues(b) && -(Pow2(63 - 7 * i) as int) <= g.value < Pow2(63 - 7 * i)
    ensures g.More? ==> Continues(b) && i < 9 && g.group == b % 128 && g.group < 128
  {
    var group := b % 128;
    var shift := 7 * (i + 1);
    if b < 128 then
      if shift < 64 then
        Pow2AtLeast128(63 - 7 * i);
        if b % 128 >= 64 then Last(group - 128) else Last(group)
      else
        assert Pow2(63 - 7 * i) == 1;
        Last(-(group % 2))
    else if shift >= 64 then Bad(SLeb128Overflow)
    else More(group)
  }

  /** The value of a last SLEB128 group: sign-extended from bit 6, or at the tenth byte the sign
      bit alone. */
  lemma SLeb128LastValue(b: u8, i: nat)
    requires i < 10 && SLeb128Group(b, i).Last?
    ensures i < 9 ==> SLeb128Group(b, i).value == b % 128 - (if b % 128 >= 64 then 128 else 0)
    ensures i == 9 ==> SLeb128Group(b, i).value == -(b % 128 % 2)
  {
  }

  /** The bound of ULeb128From at byte i + 1 gives the bound at byte i. */
  lemma UnsignedGroupsBelow(group: int, rest: int, i: nat)
    requires i < 9 && 0 <= group < 128 && 0 <= rest < Pow2(64 - 7 * (i + 1))
    ensures 0 <= group + 128 * rest < Pow2(64 - 7 * i)
  {
    AppendGroupUnsigned(group, rest, 57 - 7 * i);
  }

  /** The bound of SLeb128From at byte i + 1 gives the bound at byte i. */
  lemma SignedGroupsBelow(group: int, rest: int, i: nat)
    requires i < 9 && 0 <= group < 128
    requires -(Pow2(63 - 7 * (i + 1)) as int) <= rest < Pow2(63 - 7 * (i + 1))
    ensures -(Pow2(63 - 7 * i) as int) <= group + 128 * rest < Pow2(63 - 7 * i)
  {
    AppendGroupSigned(group, rest, 56 - 7 * i);
  }

  /** _decode_uleb128 from its i-th byte on, reading the bytes s: the value of the groups still
      to come, as a number to be shifted left by 7 * i. */
  function ULeb128From(s: seq<u8>, i: nat): (r: Result<Decoded>)
    requires i < 10
    ensures ReadGroups(s, i, r)
    ensures r.Ok? ==> 0 <= r.value.value < Pow2(64 - 7 * i)
    ensures r.Err? ==> r.error == ReadPastEnd || r.error == ULeb128Overflow
    decreases |s|
  {
    if |s| < 1 then Err(ReadPastEnd)
    else
      match ULeb128Group(s[0], i)
      case Bad(e) => Err(e)
      case Last(v) => Ok(Decoded(v, 1))
      case More(group) =>
        match ULeb128From(s[1..], i + 1)
        case Err(e) => Err(e)
        case Ok(d) =>
          UnsignedGroupsBelow(group, d.value, i);
          Ok(Decoded(group + 128 * d.value, d.length + 1))
  }

  /** _decode_sleb128 from its i-th byte on, as a signed number to be shifted left by 7 * i. */
  function SLeb128From(s: seq<u8>, i: nat): (r: Result<Decoded>)
    requires i < 10
    ensures ReadGroups(s, i, r)
    ensures r.Ok? ==> -(Pow2(63 - 7 * i) as int) <= r.value.value < Pow2(63 - 7 * i)
    ensures r.Err? ==> r.error == ReadPastEnd || r.error == SLeb128Overflow
    decreases |s|
  {
    if |s| < 1 then Err(ReadPastEnd)
    else
      match SLeb128Group(s[0], i)
      case Bad(e) => Err(e)
      case Last(v) => Ok(Decoded(v, 1))
      case More(group) =>
        match SLeb128From(s[1..], i + 1)
        case Err(e) => Err(e)
        case Ok(d) =>
          SignedGroupsBelow(group, d.value, i);
          Ok(Decoded(group + 128 * d.value, d.length + 1))
  }

  /** The bytes a successful read takes are exactly one well-terminated run. */
  lemma {:induction false} ULeb128FromTakesRun(s: seq<u8>, i: nat)
    requires i < 10 && ULeb128From(s, i).Ok?
    ensures WellTerminated(s[..ULeb128From(s, i).value.length])
    decreases 10 - i
  {
    var len := ULeb128From(s, i).value.length;
    if ULeb128Group(s[0], i).More? {
      ULeb128FromTakesRun(s[1..], i + 1);
      assert s[..len] == [s[0]] + s[1..][..len - 1];
    }
  }

  lemma {:induction false} SLeb128FromTakesRun(s: seq<u8>, i: nat)
    requires i < 10 && SLeb128From(s, i).Ok?
    ensures WellTerminated(s[..SLeb128From(s, i).value.length])
    decreases 10 - i
  {
    var len := SLeb128From(s, i).value.length;
    if SLeb128Group(s[0], i).More? {
      SLeb128FromTakesRun(s[1..], i + 1);
      assert s[..len] == [s[0]] + s[1..][..len - 1];
    }
  }

  /** The uint64 _decode_uleb128 reads from the start of s, and the bytes it takes. */
  function DecodeULeb128(s: seq<u8>): (r: Result<Decoded>)
    ensures ReadGroups(s, 0, r)
    ensures r.Ok? ==> 0 <= r.value.value < TWO_64
  {
    Pow2Of64();
    ULeb128From(s, 0)
  }

  /** The int64 _decode_sleb128 reads from the start of s, and the bytes it takes. */
  function DecodeSLeb128(s: seq<u8>): (r: Result<Decoded>)
    ensures ReadGroups(s, 0, r)
    ensures r.Ok? ==> -(TWO_63 as int) <= r.value.value < TWO_63
  {
    Pow2Of64();
    SLeb128From(s, 0)
  }

  // ---------------------------------------------------------------------------------------
  // The decoders' loops
  // ---------------------------------------------------------------------------------------

  /** The outcome of a whole read, seen from its i-th byte after groups worth `acc` were
      accumulated: the rest r is shifted into place behind them. */
  function Resume(acc: int, i: nat, r: Result<Decoded>): Result<Decoded>
  {
    match r
    case Ok(d) => Ok(Decoded(acc + Pow2(7 * i) * d.value, i + d.length))
    case Err(e) => Err(e)
  }

  /** Before the first byte nothing has been accumulated. */
  lemma ResumeStart(r: Result<Decoded>)
    ensures Resume(0, 0, r) == r
  {
  }

  /** Before the first byte, the decoders' loops stand at the start of the whole read. */
  lemma {:induction false} DecodeULeb128Start(s: seq<u8>)
    ensures DecodeULeb128(s) == Resume(0, 0, ULeb128From(s, 0))
  {
    ResumeStart(ULeb128From(s, 0));
  }

  lemma {:induction false} DecodeSLeb128Start(s: seq<u8>)
    ensures DecodeSLeb128(s) == Resume(0, 0, SLeb128From(s, 0))
  {
    ResumeStart(SLeb128From(s, 0));
  }

  /** A further group is accumulated at its place, 7 * i bits up. */
  lemma ULeb128ResumeMore(s: seq<u8>, i: nat, acc: int)
    requires 1 <= |s| && i < 10 && ULeb128Group(s[0], i).More?
    ensures i < 9
    ensures Resume(acc, i, ULeb128From(s, i)) ==
      Resume(acc + ULeb128Group(s[0], i).group * Pow2(7 * i), i + 1, ULeb128From(s[1..], i + 1))
  {
    ULeb128FromMore(s, i);
    ResumeGroup(acc, i, ULeb128Group(s[0], i).group, ULeb128From(s, i), ULeb128From(s[1..], i + 1));
  }

  /** One step of ULeb128From on a continuation byte. */
  lemma ULeb128FromMore(s: seq<u8>, i: nat)
    requires 1 <= |s| && i < 10 && ULeb128Group(s[0], i).More?
    ensures i < 9
    ensures var g := ULeb128Group(s[0], i).group;
      ULeb128From(s, i) == match ULeb128From(s[1..], i + 1)
        case Ok(d) => Ok(Decoded(g + 128 * d.value, d.length + 1))
        case Err(e) => Err(e)
  {
  }

  lemma SLeb128ResumeMore(s: seq<u8>, i: nat, acc: int)
    requires 1 <= |s| && i < 10 && SLeb128Group(s[0], i).More?
    ensures i < 9
    ensures Resume(acc, i, SLeb128From(s, i)) ==
      Resume(acc + SLeb128Group(s[0], i).group * Pow2(7 * i), i + 1, SLeb128From(s[1..], i + 1))
  {
    SLeb128FromMore(s, i);
    ResumeGroup(acc, i, SLeb128Group(s[0], i).group, SLeb128From(s, i), SLeb128From(s[1..], i + 1));
  }

  /** One step of SLeb128From on a continuation byte. */
  lemma SLeb128FromMore(s: seq<u8>, i: nat)
    requires 1 <= |s| && i < 10 && SLeb128Group(s[0], i).More?
    ensures i < 9
    ensures var g := SLeb128Group(s[0], i).group;
      SLeb128From(s, i) == match SLeb128From(s[1..], i + 1)
        case Ok(d) => Ok(Decoded(g + 128 * d.value, d.length + 1))
        case Err(e) => Err(e)
  {
  }

  /** Resuming after one more group g, whatever the bytes were. */
  lemma {:induction false} ResumeGroup(acc: int, i: nat, g: nat, whole: Result<Decoded>, rest: Result<Decoded>)
    requires whole == match rest
      case Ok(d) => Ok(Decoded(g + 128 * d.value, d.length + 1))
      case Err(e) => Err(e)
    ensures Resume(acc, i, whole) == Resume(acc + g * Pow2(7 * i), i + 1, rest)
  {
    if rest.Ok? {
      ShiftedGroups(acc, i, g, rest.value.value);
    }
  }

  /** A last group completes the unsigned read: it is or-ed in at shift 7 * i. */
  lemma {:induction false} ULeb128ResumeLast(s: seq<u8>, i: nat, acc: int)
    requires 1 <= |s| && i < 10 && ULeb128Group(s[0], i).Last?
    ensures Resume(acc, i, ULeb128From(s, i)) == Ok(Decoded(acc + ShiftLeft64(s[0] % 128, 7 * i), i + 1))
  {
    ULeb128GroupShift(s[0], i);
  }

  /** The unsigned read fails at the end of the data, or on a tenth byte above 1. */
  lemma {:induction false} ULeb128ResumeStop(s: seq<u8>, i: nat, acc: int)
    requires i < 10 && (|s| == 0 || ULeb128Group(s[0], i).Bad?)
    ensures Resume(acc, i, ULeb128From(s, i)) == Err(if |s| == 0 then ReadPastEnd else ULeb128Overflow)
  {
  }

  /** A last group completes the signed read: or-ed in at shift 7 * i, then sign-extended
      from bit 6 while the new shift 7 * (i + 1) is below 64. */
  lemma {:induction false} SLeb128ResumeLast(s: seq<u8>, i: nat, acc: int)
    requires 1 <= |s| && i < 10 && !Continues(s[0])
    ensures Resume(acc, i, SLeb128From(s, i)) ==
      Ok(Decoded(acc + ShiftLeft64Signed(s[0] % 128, 7 * i)
                 - (if 7 * (i + 1) < 64 && s[0] % 128 >= 64 then Pow2(7 * (i + 1)) else 0), i + 1))
  {
    assert SLeb128From(s, i) == Ok(Decoded(SLeb128Group(s[0], i).value, 1));
    SLeb128LastShift(s[0], i);
  }

  /** The value of a last signed group, placed at shift 7 * i, as the C code computes it. */
  lemma {:induction false} SLeb128LastShift(b: u8, i: nat)
    requires i < 10 && !Continues(b)
    ensures Pow2(7 * i) * SLeb128Group(b, i).value ==
      ShiftLeft64Signed(b % 128, 7 * i) - (if 7 * (i + 1) < 64 && b % 128 >= 64 then Pow2(7 * (i + 1)) else 0)
  {
    if i < 9 {
      SLeb128LastShiftLow(b, i);
    } else {
      SLeb128LastShiftTop(b);
    }
  }

  lemma {:induction false} SLeb128LastShiftLow(b: u8, i: nat)
    requires i < 9 && !Continues(b)
    ensures Pow2(7 * i) * SLeb128Group(b, i).value ==
      ShiftLeft64Signed(b % 128, 7 * i) - (if b % 128 >= 64 then Pow2(7 * (i + 1)) else 0)
  {
    SLeb128LastValue(b, i);
    SLeb128GroupShift(b, i);
    SignExtended(b % 128, b % 128 >= 64, i);
  }

  /** At the tenth byte only bit 0 of the group is kept, as the sign bit. */
  lemma SLeb128LastShiftTop(b: u8)
    requires !Continues(b)
    ensures Pow2(63) * SLeb128Group(b, 9).value == ShiftLeft64Signed(b % 128, 63)
  {
    SLeb128LastValue(b, 9);
    SLeb128GroupShift(b, 9);
    Pow2Of64();
  }

  /** Sign extension from bit 6 of the group at shift 7 * i subtracts 2^(7 * (i + 1)). */
  lemma {:induction false} SignExtended(g: int, negative: bool, i: nat)
    ensures Pow2(7 * i) * (g - (if negative then 128 else 0)) ==
      g * Pow2(7 * i) - (if negative then Pow2(7 * (i + 1)) else 0)
  {
    var p := Pow2(7 * i);
    Pow2Step(7 * i);
    assert Pow2(7 * (i + 1)) == 128 * p;
    assert p * (g - 128) == g * p - 128 * p;
  }

  /** The signed read fails at the end of the data, or on a tenth continuation byte. */
  lemma {:induction false} SLeb128ResumeStop(s: seq<u8>, i: nat, acc: int)
    requires i < 10 && (|s| == 0 || (i == 9 && Continues(s[0])))
    ensures Resume(acc, i, SLeb128From(s, i)) == Err(if |s| == 0 then ReadPastEnd else SLeb128Overflow)
  {
  }

  /** The groups read so far and one more stay below 2^(7 * (i + 1)), so or-ing a group in at
      shift 7 * i adds it. */
  lemma {:induction false} GroupsBelow(acc: int, g: nat, i: nat)
    requires 0 <= acc < Pow2(7 * i) && g < 128
    ensures 0 <= acc + g * Pow2(7 * i) < Pow2(7 * (i + 1))
  {
    Pow2Step(7 * i);
    GroupBelowNext(acc, g, Pow2(7 * i), Pow2(7 * (i + 1)));
  }

  /** The arithmetic of GroupsBelow, for p = 2^(7 * i) and q = 2^(7 * (i + 1)). */
  lemma GroupBelowNext(acc: int, g: nat, p: nat, q: nat)
    requires 0 <= acc < p && g < 128 && q == 128 * p
    ensures 0 <= acc + g * p < q
  {
    MulMonotone(g, 127, p);
  }

  /** What one pass of a decoder loop does with the byte it reads: abort, return the value,
      or go on with a new accumulated value. */
  datatype Pass = Stop(error: Error) | Finish(value: int) | Continue(acc: int)

  /** One pass of _decode_uleb128's loop at shift 7 * i, after the groups worth `acc`. */
  function ULeb128Pass(acc: int, i: nat, b: u8): Pass
  {
    var shift := 7 * i;
    if shift >= 64 || (shift == 63 && b >= 2) then Stop(ULeb128Overflow)
    else
      var next := acc + ShiftLeft64(b % 128, shift);
      if b < 128 then Finish(next) else Continue(next)
  }

  /** One pass of _decode_sleb128's loop at shift 7 * i, after the groups worth `acc`. */
  function SLeb128Pass(acc: int, i: nat, b: u8): Pass
  {
    var shift := 7 * i;
    var next := acc + ShiftLeft64Signed(b % 128, shift);
    var shift2 := shift + 7;
    if b < 128 then
      Finish(if shift2 < 64 && b % 128 >= 64 then next - Pow2(shift2) else next)
    else if shift2 >= 64 then Stop(SLeb128Overflow)
    else Continue(next)
  }

  /** The loop's pass agrees with the read of the rest: an abort is the read's error, a
      returned value its value, and going on leaves the outcome of the whole read unchanged. */
  lemma ULeb128PassResume(s: seq<u8>, i: nat, acc: int)
    requires 1 <= |s| && i < 10 && 0 <= acc < Pow2(7 * i)
    ensures ULeb128Pass(acc, i, s[0]).Stop? ==>
      Resume(acc, i, ULeb128From(s, i)) == Err(ULeb128Pass(acc, i, s[0]).error)
    ensures ULeb128Pass(acc, i, s[0]).Finish? ==>
      Resume(acc, i, ULeb128From(s, i)) == Ok(Decoded(ULeb128Pass(acc, i, s[0]).value, i + 1))
    ensures ULeb128Pass(acc, i, s[0]).Continue? ==> ContinuesRead(Resume(acc, i, ULeb128From(s, i)),
      ULeb128Pass(acc, i, s[0]).acc, i, ULeb128From(s[1..], i + 1))
  {
    var b := s[0];
    ULeb128PassGroup(acc, i, b);
    var group := ULeb128Group(b, i);
    if group.Bad? {
      ULeb128ResumeStop(s, i, acc);
    } else if group.Last? {
      ULeb128ResumeLast(s, i, acc);
    } else {
      ULeb128ResumeMore(s, i, acc);
      ULeb128GroupShift(b, i);
      GroupsBelow(acc, group.group, i);
    }
  }

  /** Going on after pass i with `next` accumulated gives the outcome `whole`. */
  predicate ContinuesRead(whole: Result<Decoded>, next: int, i: nat, rest: Result<Decoded>)
  {
    i < 9 && 0 <= next < Pow2(7 * (i + 1)) && whole == Resume(next, i + 1, rest)
  }

  /** The checks of a pass of the unsigned loop are the cases of ULeb128Group. */
  lemma ULeb128PassGroup(acc: int, i: nat, b: u8)
    requires i < 10
    ensures ULeb128Pass(acc, i, b).Stop? <==> ULeb128Group(b, i).Bad?
    ensures ULeb128Pass(acc, i, b).Stop? ==> ULeb128Pass(acc, i, b).error == ULeb128Overflow
    ensures ULeb128Pass(acc, i, b).Finish? <==> ULeb128Group(b, i).Last?
    ensures ULeb128Pass(acc, i, b).Finish? ==> ULeb128Pass(acc, i, b).value == acc + ShiftLeft64(b % 128, 7 * i)
    ensures ULeb128Pass(acc, i, b).Continue? ==>
      ULeb128Pass(acc, i, b).acc == acc + ShiftLeft64(b % 128, 7 * i) &&
      ULeb128Group(b, i) == More(b % 128)
  {
  }

  lemma SLeb128PassResume(s: seq<u8>, i: nat, acc: int)
    requires 1 <= |s| && i < 10 && 0 <= acc < Pow2(7 * i)
    ensures SLeb128Pass(acc, i, s[0]).Stop? ==>
      Resume(acc, i, SLeb128From(s, i)) == Err(SLeb128Pass(acc, i, s[0]).error)
    ensures SLeb128Pass(acc, i, s[0]).Finish? ==>
      Resume(acc, i, SLeb128From(s, i)) == Ok(Decoded(SLeb128Pass(acc, i, s[0]).value, i + 1))
    ensures SLeb128Pass(acc, i, s[0]).Continue? ==> ContinuesRead(Resume(acc, i, SLeb128From(s, i)),
      SLeb128Pass(acc, i, s[0]).acc, i, SLeb128From(s[1..], i + 1))
  {
    var b := s[0];
    SLeb128PassGroup(acc, i, b);
    if !Continues(b) {
      SLeb128ResumeLast(s, i, acc);
    } else if i == 9 {
      SLeb128ResumeStop(s, i, acc);
    } else {
      SLeb128ResumeMore(s, i, acc);
      SLeb128GroupShift(b, i);
      GroupsBelow(acc, b % 128, i);
    }
  }

  /** The checks of a pass of the signed loop are the cases of SLeb128Group. */
  lemma {:induction false} SLeb128PassGroup(acc: int, i: nat, b: u8)
    requires i < 10
    ensures SLeb128Pass(acc, i, b).Finish? <==> !Continues(b)
    ensures SLeb128Pass(acc, i, b).Finish? ==> (SLeb128Pass(acc, i, b).value ==
      acc + ShiftLeft64Signed(b % 128, 7 * i)
          - (if 7 * (i + 1) < 64 && b % 128 >= 64 then Pow2(7 * (i + 1)) else 0))
    ensures SLeb128Pass(acc, i, b).Stop? <==> Continues(b) && i == 9
    ensures SLeb128Pass(acc, i, b).Stop? ==> SLeb128Pass(acc, i, b).error == SLeb128Overflow
    ensures SLeb128Pass(acc, i, b).Continue? ==>
      SLeb128Pass(acc, i, b).acc == acc + ShiftLeft64Signed(b % 128, 7 * i) &&
      SLeb128Group(b, i) == More(b % 128)
  {
  }

  /** acc + 2^(7i) * (g + 128 * v) == (acc + g * 2^(7i)) + 2^(7(i + 1)) * v. */
  lemma {:induction false} ShiftedGroups(acc: int, i: nat, g: int, v: int)
    ensures acc + Pow2(7 * i) * (g + 128 * v) == (acc + g * Pow2(7 * i)) + Pow2(7 * (i + 1)) * v
  {
    var p := Pow2(7 * i);
    Pow2Step(7 * i);
    assert Pow2(7 * (i + 1)) == 128 * p;
    assert p * (g + 128 * v) == g * p + (128 * p) * v;
  }

  /** `(uint64_t)group << 7 * i` for the groups the unsigned loop lets through: no bit is lost. */
  lemma {:induction false} ULeb128GroupShift(b: u8, i: nat)
    requires i < 10 && !ULeb128Group(b, i).Bad?
    ensures ShiftLeft64(b % 128, 7 * i) == b % 128 * Pow2(7 * i)
  {
    var g := b % 128;
    if i == 9 {
      assert g < 2;
      GroupBelow64(g, 7 * i, 1);
    } else {
      GroupBelow64(g, 7 * i, 7);
    }
    ShiftLeft64Fits(g, 7 * i);
  }

  /** `(int64_t)group << 7 * i`: exact up to the ninth group (it stays below 2^63); the tenth,
      shifted by 63, keeps only its bit 0, now the sign bit. */
  lemma {:induction false} SLeb128GroupShift(b: u8, i: nat)
    requires i < 10
    ensures i < 9 ==> ShiftLeft64Signed(b % 128, 7 * i) == b % 128 * Pow2(7 * i)
    ensures i == 9 ==> ShiftLeft64Signed(b % 128, 7 * i) == -(b % 128 % 2) * TWO_63
  {
    var g := b % 128;
    if i == 9 {
      ShiftLeft64Top(g);
    } else {
      GroupBelow63(g, 7 * i, 7);
      ShiftLeft64NoWrap(g, 7 * i);
    }
  }

  // ---------------------------------------------------------------------------------------
  // Round trips
  // ---------------------------------------------------------------------------------------

  /** How the decoder's loop body reads the first byte the encoder emits for w. */
  lemma {:induction false} ULeb128FirstGroup(w: nat, i: nat)
    requires i < 10 && w < Pow2(64 - 7 * i)
    ensures w / 128 == 0 ==> ULeb128Group(ULeb128(w)[0], i) == Last(w) && |ULeb128(w)| == 1
    ensures w / 128 != 0 ==> i < 9 && w / 128 < Pow2(57 - 7 * i)
    ensures w / 128 != 0 ==> ULeb128Group(ULeb128(w)[0], i) == More(w % 128)
    ensures w / 128 != 0 ==> ULeb128(w)[1..] == ULeb128(w / 128)
  {
    var x := w % 128;
    if i == 9 {
      assert Pow2(64 - 7 * i) == 2;
    } else {
      Pow2Step(57 - 7 * i);
    }
    if w / 128 == 0 {
      assert ULeb128(w) == [x];
      TerminalByteGroup(x, i);
    } else {
      assert ULeb128(w)[0] == x + 128;
      ContinuationByteGroup(x, i);
    }
  }

  /** A byte without the continuation bit ends an unsigned read with its own value. */
  lemma TerminalByteGroup(x: nat, i: nat)
    requires x < 128 && i < 10 && (i == 9 ==> x < 2)
    ensures ULeb128Group(x, i) == Last(x)
  {
  }

  /** A byte with the continuation bit carries its low seven bits as one more group. */
  lemma ContinuationByteGroup(x: nat, i: nat)
    requires x < 128 && i < 9
    ensures ULeb128Group(x + 128, i) == More(x)
  {
  }

  lemma {:induction false} ULeb128FromEncoding(s: seq<u8>, i: nat, w: nat, rest: seq<u8>)
    requires i < 10 && w < Pow2(64 - 7 * i)
    requires s == ULeb128(w) + rest
    ensures ULeb128From(s, i) == Ok(Decoded(w, |ULeb128(w)|))
    decreases 10 - i
  {
    var enc := ULeb128(w);
    ULeb128FirstGroup(w, i);
    assert s[0] == enc[0];
    if w / 128 != 0 {
      assert s[1..] == enc[1..] + rest;
      ULeb128FromEncoding(s[1..], i + 1, w / 128, rest);
    }
  }

  /** How the decoder's loop body reads the first byte the encoder emits for w. */
  lemma {:induction false} SLeb128FirstGroup(w: int, i: nat)
    requires i < 10 && -(Pow2(63 - 7 * i) as int) <= w < Pow2(63 - 7 * i)
    ensures SLeb128Ends(w) ==> SLeb128Group(SLeb128(w)[0], i) == Last(w) && |SLeb128(w)| == 1
    ensures !SLeb128Ends(w) ==> i < 9 && -(Pow2(56 - 7 * i) as int) <= w / 128 < Pow2(56 - 7 * i)
    ensures !SLeb128Ends(w) ==> SLeb128Group(SLeb128(w)[0], i) == More(w % 128)
    ensures !SLeb128Ends(w) ==> SLeb128(w)[1..] == SLeb128(w / 128)
  {
    SLeb128EndsIff(w);
    var b := SLeb128(w)[0];
    if i == 9 {
      assert Pow2(63 - 7 * i) == 1;
      SLeb128LastValue(b, i);
    } else {
      Pow2Step(56 - 7 * i);
      if SLeb128Ends(w) {
        SLeb128LastValue(b, i);
      }
    }
  }

  lemma {:induction false} SLeb128FromEncoding(s: seq<u8>, i: nat, w: int, rest: seq<u8>)
    requires i < 10 && -(Pow2(63 - 7 * i) as int) <= w < Pow2(63 - 7 * i)
    requires s == SLeb128(w) + rest
    ensures SLeb128From(s, i) == Ok(Decoded(w, |SLeb128(w)|))
    decreases 10 - i
  {
    var enc := SLeb128(w);
    SLeb128FirstGroup(w, i);
    assert s[0] == enc[0];
    if !SLeb128Ends(w) {
      assert s[1..] == enc[1..] + rest;
      SLeb128FromEncoding(s[1..], i + 1, w / 128, rest);
    }
  }

  /** Decoding the bytes the encoder emits for a uint64, whatever follows them, gives the value
      back and consumes exactly those bytes. */
  lemma {:induction false} ULeb128RoundTrip(v: u64, rest: seq<u8>)
    ensures DecodeULeb128(ULeb128(v) + rest) == Ok(Decoded(v, |ULeb128(v)|))
  {
    Pow2Of64();
    ULeb128FromEncoding(ULeb128(v) + rest, 0, v, rest);
  }

  /** The same for an int64 and its SLEB128 bytes. */
  lemma {:induction false} SLeb128RoundTrip(v: i64, rest: seq<u8>)
    ensures DecodeSLeb128(SLeb128(v) + rest) == Ok(Decoded(v, |SLeb128(v)|))
  {
    Pow2Of64();
    SLeb128FromEncoding(SLeb128(v) + rest, 0, v, rest);
  }

  /** The decoder does not insist on the shortest form: a padded zero is accepted. */
  lemma NonMinimalULeb128Accepted()
    ensures DecodeULeb128([0x80, 0x00]) == Ok(Decoded(0, 2))
    ensures ULeb128(0) == [0x00]
  {
    var s: seq<u8> := [0x80, 0x00];
    assert ULeb128From(s[1..], 1) == Ok(Decoded(0, 1));
  }

  /** After nine continuation bytes the tenth byte, at shift 63, may only be 0x00 or 0x01:
      any other is an overflow. */
  lemma ULeb128TenthByteOverflow(s: seq<u8>)
    requires |s| >= 10 && (forall k :: 0 <= k < 9 ==> Continues(s[k])) && s[9] >= 2
    ensures DecodeULeb128(s) == Err(ULeb128Overflow)
  {
    ULeb128RunOverflow(s, 0);
  }

  lemma {:induction false} ULeb128RunOverflow(s: seq<u8>, i: nat)
    requires i <= 9 && |s| >= 10 - i
    requires (forall k :: 0 <= k < 9 - i ==> Continues(s[k])) && s[9 - i] >= 2
    ensures ULeb128From(s, i) == Err(ULeb128Overflow)
    decreases 9 - i
  {
    if i < 9 {
      assert Continues(s[0]);
      assert forall k :: 0 <= k < 9 - (i + 1) ==> s[1..][k] == s[k + 1];
      ULeb128RunOverflow(s[1..], i + 1);
    }
  }

  /** Ten continuation bytes are an SLEB128 overflow: no eleventh group is read. */
  lemma SLeb128TenContinuationsOverflow(s: seq<u8>)
    requires |s| >= 10 && forall k :: 0 <= k < 10 ==> Continues(s[k])
    ensures DecodeSLeb128(s) == Err(SLeb128Overflow)
  {
    SLeb128RunOverflow(s, 0);
  }

  lemma {:induction false} SLeb128RunOverflow(s: seq<u8>, i: nat)
    requires i <= 9 && |s| >= 10 - i
    requires forall k :: 0 <= k < 10 - i ==> Continues(s[k])
    ensures SLeb128From(s, i) == Err(SLeb128Overflow)
    decreases 9 - i
  {
    if i < 9 {
      assert Continues(s[0]);
      assert forall k :: 0 <= k < 10 - (i + 1) ==> s[1..][k] == s[k + 1];
      SLeb128RunOverflow(s[1..], i + 1);
    }
  }

  /** The ten-byte cap on a concrete input: ten 0x80 bytes fail both decoders. */
  lemma TenContinuationBytesRejected(s: seq<u8>)
    requires |s| >= 10 && forall k :: 0 <= k < 10 ==> s[k] == 0x80
    ensures DecodeULeb128(s) == Err(ULeb128Overflow)
    ensures DecodeSLeb128(s) == Err(SLeb128Overflow)
  {
    ULeb128TenthByteOverflow(s);
    SLeb128TenContinuationsOverflow(s);
  }

  /** The two varints of the reference transaction: 123456 takes three ULEB128 bytes and
      -78910 three SLEB128 bytes, and both read back. */
  lemma ReferenceVarints()
    ensures ULeb128(123456) == [0xC0, 0xC4, 0x07]
    ensures SLeb128(-78910) == [0xC2, 0x97, 0x7B]
    ensures DecodeULeb128([0xC0, 0xC4, 0x07]) == Ok(Decoded(123456, 3))
    ensures DecodeSLeb128([0xC2, 0x97, 0x7B]) == Ok(Decoded(-78910, 3))
  {
    ReferenceULeb128();
    ReferenceSLeb128();
  }

  lemma ReferenceULeb128()
    ensures ULeb128(123456) == [0xC0, 0xC4, 0x07]
    ensures DecodeULeb128([0xC0, 0xC4, 0x07]) == Ok(Decoded(123456, 3))
  {
    assert ULeb128(7) == [0x07];
    assert ULeb128(964) == [0xC4] + ULeb128(7);
    assert ULeb128(123456) == [0xC0] + ULeb128(964);
    ULeb128RoundTrip(123456, []);
    assert ULeb128(123456) + [] == [0xC0, 0xC4, 0x07];
  }

  lemma ReferenceSLeb128()
    ensures SLeb128(-78910) == [0xC2, 0x97, 0x7B]
    ensures DecodeSLeb128([0xC2, 0x97, 0x7B]) == Ok(Decoded(-78910, 3))
  {
    assert SLeb128(-5) == [0x7B];
    assert SLeb128(-617) == [0x97] + SLeb128(-5);
    assert SLeb128(-78910) == [0xC2] + SLeb128(-617);
    SLeb128RoundTrip(-78910, []);
    assert SLeb128(-78910) + [] == [0xC2, 0x97, 0x7B];
  }
}

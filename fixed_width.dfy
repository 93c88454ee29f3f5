/** The payloads of the fixed-width IxData fields: little-endian bytes of a two's-complement
    value of 1, 2, 4 or 8 bytes. */
module FixedWidth {
  import opened Cte

  /** 256 to the power `width`: one more than the largest value `width` bytes hold. */
  function Pow256(width: nat): (r: nat)
    ensures r >= 1
  {
    if width == 0 then 1 else 256 * Pow256(width - 1)
  }

  /** The `width` bytes of x, least significant first (its low `width` bytes when x is larger). */
  function LittleEndian(x: nat, width: nat): (r: seq<u8>)
    ensures |r| == width
  {
    if width == 0 then [] else [x % 256] + LittleEndian(x / 256, width - 1)
  }

  /** The unsigned value of little-endian bytes. */
  function FromLittleEndian(b: seq<u8>): (r: nat)
    ensures r < Pow256(|b|)
  {
    if |b| == 0 then 0 else b[0] + 256 * FromLittleEndian(b[1..])
  }

  /** Reading back the bytes of a value that fits gives the value. */
  lemma {:induction false} FromLittleEndianOfLittleEndian(x: nat, width: nat)
    requires x < Pow256(width)
    ensures FromLittleEndian(LittleEndian(x, width)) == x
  {
    if width > 0 {
      var b := LittleEndian(x, width);
      assert b[1..] == LittleEndian(x / 256, width - 1);
      FromLittleEndianOfLittleEndian(x / 256, width - 1);
      assert b[0] == x % 256;
    }
  }

  /** Writing out the value of some bytes gives the same bytes: the little-endian form of a
      value is unique. */
  lemma {:induction false} LittleEndianOfFromLittleEndian(b: seq<u8>)
    ensures LittleEndian(FromLittleEndian(b), |b|) == b
  {
    if |b| > 0 {
      var low := b[0];
      var rest := FromLittleEndian(b[1..]);
      var x := FromLittleEndian(b);
      assert x == low + 256 * rest;
      DigitSplit(low, rest);
      LittleEndianOfFromLittleEndian(b[1..]);
      assert LittleEndian(x, |b|) == [low] + LittleEndian(rest, |b| - 1);
      assert b == [b[0]] + b[1..];
    }
  }

  lemma DigitSplit(low: int, rest: nat)
    requires 0 <= low < 256
    ensures (low + 256 * rest) % 256 == low && (low + 256 * rest) / 256 == rest
  {
  }

  /** The signed range of `width` bytes. */
  predicate SignedFits(x: int, width: nat)
  {
    -(Pow256(width) as int) <= 2 * x < Pow256(width)
  }

  /** The two's-complement bit pattern of x in `width` bytes, as an unsigned value: what a
      signed integer's bytes hold in memory. */
  function TwosComplement(x: int, width: nat): (u: nat)
    requires SignedFits(x, width)
    ensures u < Pow256(width)
    ensures x >= 0 ==> u == x
    ensures x < 0 ==> 2 * u >= Pow256(width)
  {
    if x < 0 then x + Pow256(width) else x
  }

  /** The signed value of a `width`-byte two's-complement bit pattern. */
  function FromTwosComplement(u: nat, width: nat): (x: int)
    requires u < Pow256(width)
    ensures SignedFits(x, width)
    ensures (x < 0) == (2 * u >= Pow256(width))
  {
    if 2 * u >= Pow256(width) then u - Pow256(width) else u
  }

  lemma TwosComplementRoundTrip(x: int, width: nat)
    requires SignedFits(x, width)
    ensures FromTwosComplement(TwosComplement(x, width), width) == x
  {
  }

  lemma {:induction false} FromTwosComplementRoundTrip(u: nat, width: nat)
    requires u < Pow256(width)
    ensures TwosComplement(FromTwosComplement(u, width), width) == u
  {
  }

  /** The sizes of the widths the fixed types use, against the integer types of the model. */
  lemma WidthBounds()
    ensures Pow256(1) == 0x100 && Pow256(2) == 0x1_0000 && Pow256(4) == 0x1_0000_0000
    ensures Pow256(8) == 0x1_0000_0000_0000_0000
  {
  }

  /** The payload width in bytes of each fixed type code, or 0 for a reserved code. */
  function FixedTypeWidth(typeCode: u8): (w: nat)
    ensures w == 0 <==> typeCode > IXDATA_FIXED_TYPE_FLOAT64
    ensures w in {0, 1, 2, 4, 8}
  {
    match typeCode
    case 0 => 1 case 1 => 2 case 2 => 4 case 3 => 8
    case 4 => 1 case 5 => 2 case 6 => 4 case 7 => 8
    case 8 => 4 case 9 => 8
    case _ => 0
  }

  /** The little-endian bytes of a signed value of `width` bytes. */
  function SignedBytes(x: int, width: nat): (r: seq<u8>)
    requires SignedFits(x, width)
    ensures |r| == width
  {
    LittleEndian(TwosComplement(x, width), width)
  }

  /** The signed value of little-endian bytes. */
  function SignedValue(b: seq<u8>): (x: int)
    ensures SignedFits(x, |b|)
  {
    FromTwosComplement(FromLittleEndian(b), |b|)
  }

  lemma SignedRoundTrip(x: int, width: nat)
    requires SignedFits(x, width)
    ensures SignedValue(SignedBytes(x, width)) == x
  {
    FromLittleEndianOfLittleEndian(TwosComplement(x, width), width);
  }

  /** Two values with the same bytes are equal: the signed encoding is injective. */
  lemma SignedBytesInjective(x: int, y: int, width: nat)
    requires SignedFits(x, width) && SignedFits(y, width)
    requires SignedBytes(x, width) == SignedBytes(y, width)
    ensures x == y
  {
    SignedRoundTrip(x, width);
    SignedRoundTrip(y, width);
  }

  /** The bytes of -1 in two bytes, and of 0x1234 in two bytes, least significant first. */
  lemma ExampleBytes()
    ensures SignedBytes(-1, 2) == [0xFF, 0xFF]
    ensures LittleEndian(0x1234, 2) == [0x34, 0x12]
  {
    assert TwosComplement(-1, 2) == 0xFFFF;
    assert LittleEndian(0xFF, 1) == [0xFF];
    assert LittleEndian(0x12, 1) == [0x12];
  }
}

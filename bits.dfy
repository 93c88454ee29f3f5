/** Powers of two and the 64-bit left shifts of the C code. */
module Bits {

  function Pow2(n: nat): (r: nat)
    ensures r >= 1
  {
    if n == 0 then 1 else 2 * Pow2(n - 1)
  }

  lemma {:induction false} Pow2Add(a: nat, b: nat)
    ensures Pow2(a + b) == Pow2(a) * Pow2(b)
  {
    if a > 0 {
      Pow2Add(a - 1, b);
    }
  }

  const TWO_63: nat := 0x8000_0000_0000_0000
  const TWO_64: nat := 0x1_0000_0000_0000_0000

  /** Seven more bits: one more LEB128 group. */
  lemma Pow2Step(n: nat)
    ensures Pow2(n + 7) == 128 * Pow2(n)
  {
    Pow2Add(7, n);
    assert Pow2(7) == 128;
  }

  lemma {:induction false} Pow2Monotone(a: nat, b: nat)
    requires a <= b
    ensures Pow2(a) <= Pow2(b)
    decreases b
  {
    if a < b {
      Pow2Monotone(a, b - 1);
    }
  }

  lemma {:induction false} Pow2AtLeast128(n: nat)
    requires n >= 7
    ensures Pow2(n) >= 128
  {
    Pow2Monotone(7, n);
    assert Pow2(7) == 128;
  }

  /** A 7-bit group below a number of at most n bits makes a number of at most n + 7 bits. */
  lemma AppendGroupUnsigned(group: int, rest: int, n: nat)
    requires 0 <= group < 128 && 0 <= rest < Pow2(n)
    ensures 0 <= group + 128 * rest < Pow2(n + 7)
  {
    Pow2Step(n);
  }

  /** The same for a signed number of n + 1 bits. */
  lemma AppendGroupSigned(group: int, rest: int, n: nat)
    requires 0 <= group < 128 && -(Pow2(n) as int) <= rest < Pow2(n)
    ensures -(Pow2(n + 7) as int) <= group + 128 * rest < Pow2(n + 7)
  {
    Pow2Step(n);
  }

  lemma Pow2Of64()
    ensures Pow2(64) == TWO_64 && Pow2(63) == TWO_63
  {
    Pow2Values();
  }

  lemma Pow2Values()
    ensures Pow2(0) == 1 && Pow2(1) == 2 && Pow2(7) == 128 && Pow2(8) == 256
    ensures Pow2(16) == 0x1_0000 && Pow2(32) == 0x1_0000_0000
    ensures Pow2(63) == TWO_63 && Pow2(64) == TWO_64
  {
    assert Pow2(1) == 2;
    assert Pow2(2) == 4;
    assert Pow2(4) == 16 by { Pow2Add(2, 2); }
    assert Pow2(7) == 128 by { Pow2Add(4, 3); }
    assert Pow2(8) == 256 by { Pow2Add(4, 4); }
    assert Pow2(16) == 0x1_0000 by { Pow2Add(8, 8); }
    assert Pow2(32) == 0x1_0000_0000 by { Pow2Add(16, 16); }
    assert Pow2(64) == 0x1_0000_0000_0000_0000 by { Pow2Add(32, 32); }
    assert Pow2(64) == 2 * Pow2(63);
  }

  /** A group of k bits shifted by s stays below 2^n when s + k <= n (n is 63 or 64). */
  lemma {:induction false} GroupBelow(g: nat, s: nat, k: nat, n: nat)
    requires g < Pow2(k) && s + k <= n
    ensures g * Pow2(s) < Pow2(n)
  {
    Pow2Add(s, k);
    Pow2Monotone(s + k, n);
    ProductBelow(g, Pow2(k), Pow2(s), Pow2(n));
  }

  /** g * p < m when g < q and p * q <= m. */
  lemma ProductBelow(g: nat, q: nat, p: nat, m: nat)
    requires g < q && 1 <= p && p * q <= m
    ensures g * p < m
  {
    MulStrict(g, q, p);
    assert q * p == p * q;
  }

  /** A group of k bits placed s bits up stays below 2^64 when s + k <= 64. */
  lemma {:induction false} GroupBelow64(g: nat, s: nat, k: nat)
    requires g < Pow2(k) && s + k <= 64
    ensures g * Pow2(s) < TWO_64
  {
    GroupBelow(g, s, k, 64);
    Pow2Of64();
  }

  /** The same below 2^63 when s + k <= 63. */
  lemma {:induction false} GroupBelow63(g: nat, s: nat, k: nat)
    requires g < Pow2(k) && s + k <= 63
    ensures g * Pow2(s) < TWO_63
  {
    GroupBelow(g, s, k, 63);
    Pow2Of64();
  }

  lemma MulMonotone(a: nat, b: nat, c: nat)
    requires a <= b
    ensures a * c <= b * c
  {
  }

  lemma MulStrict(a: nat, b: nat, c: nat)
    requires a < b && c >= 1
    ensures a * c < b * c
  {
  }

  /** `(uint64_t)x << s`: the low 64 bits of x * 2^s. */
  function ShiftLeft64(x: nat, s: nat): (r: nat)
    ensures r < TWO_64
  {
    (x * Pow2(s)) % TWO_64
  }

  /** `(int64_t)x << s` with two's-complement wrap-around: the signed value of those 64 bits. */
  function ShiftLeft64Signed(x: nat, s: nat): (r: int)
    ensures -(TWO_63 as int) <= r < TWO_63
  {
    var m := ShiftLeft64(x, s);
    if m < TWO_63 then m else m - TWO_64
  }

  /** A shift whose result stays below 2^64 loses no bit. */
  lemma {:induction false} ShiftLeft64Fits(x: nat, s: nat)
    requires x * Pow2(s) < TWO_64
    ensures ShiftLeft64(x, s) == x * Pow2(s)
  {
    var a := x * Pow2(s);
    ModSmall(a, TWO_64);
  }

  /** A shift whose result stays below 2^63 loses no bit and keeps its sign. */
  lemma {:induction false} ShiftLeft64NoWrap(x: nat, s: nat)
    requires x * Pow2(s) < TWO_63
    ensures ShiftLeft64(x, s) == x * Pow2(s)
    ensures ShiftLeft64Signed(x, s) == x * Pow2(s)
  {
    ShiftLeft64Fits(x, s);
  }

  lemma ModSmall(a: nat, m: nat)
    requires a < m
    ensures a % m == a
  {
  }

  /** Shifting a 7-bit group by 63 keeps only its lowest bit, which lands on the sign bit. */
  lemma ShiftLeft64Top(x: nat)
    requires x < 128
    ensures ShiftLeft64(x, 63) == (x % 2) * TWO_63
    ensures ShiftLeft64Signed(x, 63) == -(x % 2) * TWO_63
  {
    Pow2Values();
    var q, r := x / 2, x % 2;
    assert x * TWO_63 == q * TWO_64 + r * TWO_63;
    ModMultiple(q, r * TWO_63, TWO_64);
  }

  lemma ModMultiple(q: nat, r: nat, m: nat)
    requires 0 <= r < m
    ensures (q * m + r) % m == r
  {
    var a := q * m + r;
    var d, k := a / m, a % m;
    assert (q - d) * m == k - r;
    if q > d {
      MulAtLeast(q - d, m);
    } else if q < d {
      MulAtLeast(d - q, m);
    }
  }

  lemma MulAtLeast(c: int, m: nat)
    requires c >= 1
    ensures c * m >= m
  {
  }
}

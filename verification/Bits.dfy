/** Bitwise conjunction on naturals, and the masks of the ring buffer in arithmetic terms. */
module Bits {

  function BitAnd(x: nat, y: nat): nat {
    if x == 0 || y == 0 then 0
    else 2 * BitAnd(x / 2, y / 2) + (if x % 2 == 1 && y % 2 == 1 then 1 else 0)
  }

  function Pow2(k: nat): (p: nat)
    ensures p >= 1
  {
    if k == 0 then 1 else 2 * Pow2(k - 1)
  }

  predicate IsPowerOfTwo(n: nat) {
    n > 0 && (n == 1 || (n % 2 == 0 && IsPowerOfTwo(n / 2)))
  }

  lemma {:induction false} PowerOfTwoExponent(n: nat) returns (k: nat)
    requires IsPowerOfTwo(n)
    ensures n == Pow2(k)
  {
    if n == 1 {
      k := 0;
    } else {
      var j := PowerOfTwoExponent(n / 2);
      k := j + 1;
    }
  }

  lemma {:induction false} Pow2IsPowerOfTwo(k: nat)
    ensures IsPowerOfTwo(Pow2(k))
  {
    if k > 0 {
      Pow2IsPowerOfTwo(k - 1);
    }
  }

  /** The check halves the number down to 1 exactly when it is some 2^k. */
  lemma PowerOfTwoIff(n: nat)
    ensures IsPowerOfTwo(n) <==> exists k: nat :: n == Pow2(k)
  {
    if IsPowerOfTwo(n) {
      var k := PowerOfTwoExponent(n);
    }
    if k: nat :| n == Pow2(k) {
      Pow2IsPowerOfTwo(k);
    }
  }

  lemma BigMultiple(d: int, m: int)
    requires m > 0 && d != 0
    ensures d * m >= m || d * m <= -m
  {}

  lemma RemainderIs(x: int, m: int, q: int, r: int)
    requires m > 0 && x == q * m + r && 0 <= r < m
    ensures x % m == r && x / m == q
  {
    var d := q - x / m;
    assert d * m == x % m - r;
    if d != 0 {
      BigMultiple(d, m);
    }
  }

  lemma HalvedRemainder(x: nat, p: nat)
    requires p > 0
    ensures x % (2 * p) == 2 * ((x / 2) % p) + x % 2
  {
    var q, r := (x / 2) / p, (x / 2) % p;
    assert x / 2 == q * p + r;
    assert x == q * (2 * p) + (2 * r + x % 2);
    RemainderIs(x, 2 * p, q, 2 * r + x % 2);
  }

  /** A trailing one of the mask keeps the last bit. */
  lemma {:induction false} MaskOdd(x: nat, y: nat)
    ensures BitAnd(x, 2 * y + 1) == 2 * BitAnd(x / 2, y) + x % 2
  {
    assert (2 * y + 1) / 2 == y && (2 * y + 1) % 2 == 1;
  }

  lemma MaskLowStep(x: nat, p: nat, m: nat)
    requires p > 0 && m == 2 * p && BitAnd(x / 2, p - 1) == (x / 2) % p
    ensures BitAnd(x, m - 1) == x % m
  {
    hide BitAnd;
    MaskOdd(x, p - 1);
    HalvedRemainder(x, p);
  }

  /** A mask of ones takes the remainder. */
  lemma {:induction false} MaskLow(x: nat, k: nat)
    ensures BitAnd(x, Pow2(k) - 1) == x % Pow2(k)
  {
    if k > 0 {
      hide BitAnd;
      MaskLow(x / 2, k - 1);
      MaskLowStep(x, Pow2(k - 1), Pow2(k));
    }
  }

  /** For a power of two n, masking with n - 1 is the remainder by n. */
  lemma MaskPowerOfTwo(x: nat, n: nat)
    requires IsPowerOfTwo(n)
    ensures BitAnd(x, n - 1) == x % n
  {
    var k := PowerOfTwoExponent(n);
    MaskLow(x, k);
  }

  lemma DoubledQuotient(x: nat, p: nat)
    requires p > 0
    ensures (x / 2) / p == x / (2 * p)
  {
    var q, r := (x / 2) / p, (x / 2) % p;
    assert x / 2 == q * p + r;
    assert x == q * (2 * p) + (2 * r + x % 2);
    RemainderIs(x, 2 * p, q, 2 * r + x % 2);
  }

  /** A trailing zero of the mask shifts the operand. */
  lemma {:induction false} MaskShift(x: nat, y: nat)
    ensures BitAnd(x, 2 * y) == 2 * BitAnd(x / 2, y)
  {
    assert (2 * y) / 2 == y && (2 * y) % 2 == 0;
  }

  /** A mask of a single bit tests it. */
  lemma {:induction false} MaskBit(x: nat, k: nat)
    ensures BitAnd(x, Pow2(k)) == if (x / Pow2(k)) % 2 == 1 then Pow2(k) else 0
  {
    if k > 0 {
      MaskShift(x, Pow2(k - 1));
      MaskBit(x / 2, k - 1);
      DoubledQuotient(x, Pow2(k - 1));
    } else {
      assert BitAnd(x / 2, 0) == 0;
    }
  }

  lemma Pow2Values()
    ensures Pow2(30) == 0x4000_0000 && Pow2(31) == 0x8000_0000 && Pow2(61) == 0x2000_0000_0000_0000
  {
    assert Pow2(10) == 0x400;
    assert Pow2(20) == 0x10_0000;
    assert Pow2(30) == 0x4000_0000;
    assert Pow2(40) == 0x100_0000_0000;
    assert Pow2(50) == 0x4_0000_0000_0000;
  }

  /** Clearing the three low bits of a 64-bit number rounds it down to a multiple of 8. */
  lemma MaskMultipleOf8(x: nat)
    requires x < 0x1_0000_0000_0000_0000
    ensures BitAnd(x, 0xFFFF_FFFF_FFFF_FFF8) == x - x % 8
  {
    hide BitAnd;
    hide Pow2;
    MaskShift(x, 0x7FFF_FFFF_FFFF_FFFC);
    MaskShift(x / 2, 0x3FFF_FFFF_FFFF_FFFE);
    MaskShift(x / 2 / 2, 0x1FFF_FFFF_FFFF_FFFF);
    MaskLow(x / 2 / 2 / 2, 61);
    Pow2Values();
  }

  /** The bytes of a 32-bit little-endian word can be read off it. */
  lemma FourBytes(b0: int, b1: int, b2: int, b3: int, w: int)
    requires 0 <= b0 < 0x100 && 0 <= b1 < 0x100 && 0 <= b2 < 0x100 && 0 <= b3 < 0x100
    requires w == b0 + 0x100 * b1 + 0x1_0000 * b2 + 0x100_0000 * b3
    ensures w % 0x100 == b0 && (w / 0x100) % 0x100 == b1
    ensures (w / 0x1_0000) % 0x100 == b2 && w / 0x100_0000 == b3
  {
    assert w / 0x100 == b1 + 0x100 * b2 + 0x1_0000 * b3;
    assert w / 0x1_0000 == b2 + 0x100 * b3;
  }
}

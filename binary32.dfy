// The single-precision (IEEE 754 binary32) arithmetic getSecondsLeft
// performs (SDLGame/Board.h:207-211): round to nearest, ties to even. Every
// value it meets is a non-negative integer multiple of a power of two and
// far from the subnormal and overflow ranges, so a float is modelled by its
// integer numerator over a fixed power of two, and rounding to binary32 is
// rounding that numerator to Precision significant bits.
module Binary32 {

  /** A binary32 significand has 24 bits, the hidden bit included: it is below 2^24, and at least 2^23 when normalised. */
  const SignificandLimit: nat := 0x100_0000
  const SignificandHalf: nat := 0x80_0000

  function Pow2(k: nat): (p: nat)
    ensures p >= 1
  {
    if k == 0 then 1 else 2 * Pow2(k - 1)
  }

  lemma {:induction false} Pow2Monotone(a: nat, b: nat)
    requires a <= b
    ensures Pow2(a) <= Pow2(b)
    decreases b
  {
    if a < b {
      Pow2Monotone(a, b - 1);
    }
  }

  /**
   * The exponent of the unit in the last place of n, in units of the
   * numerator: 0 while n fits a significand, one more for each bit beyond.
   */
  function UlpExp(n: nat): (k: nat)
    decreases n
  {
    if n < SignificandLimit then 0 else 1 + UlpExp(n / 2)
  }

  /** n lies below 2^24 ulps, and at or above 2^23 ulps once it has more than 24 bits. */
  lemma {:induction false} UlpExpBounds(n: nat)
    ensures n < SignificandLimit * Pow2(UlpExp(n))
    ensures UlpExp(n) > 0 ==> SignificandHalf * Pow2(UlpExp(n)) <= n
    decreases n
  {
    if n >= SignificandLimit {
      UlpExpBounds(n / 2);
    }
  }

  /** A numerator between 2^23 and 2^24 ulps of 2^k has its ulp at 2^k. */
  lemma {:induction false} UlpExpOf(n: nat, k: nat)
    requires k == 0 ==> n < SignificandLimit
    requires k > 0 ==> SignificandHalf * Pow2(k) <= n < SignificandLimit * Pow2(k)
    ensures UlpExp(n) == k
    decreases k
  {
    if k > 0 {
      UlpExpOf(n / 2, k - 1);
    }
  }

  /** The two ulps the clock of getSecondsLeft meets, 2^14 and 2^15. */
  lemma Pow2Table()
    ensures Pow2(14) == 16384 && Pow2(15) == 32768
  {
    assert Pow2(1) == 2; assert Pow2(2) == 4; assert Pow2(3) == 8; assert Pow2(4) == 16;
    assert Pow2(5) == 32; assert Pow2(6) == 64; assert Pow2(7) == 128; assert Pow2(8) == 256;
    assert Pow2(9) == 512; assert Pow2(10) == 1024; assert Pow2(11) == 2048; assert Pow2(12) == 4096;
    assert Pow2(13) == 8192;
  }

  /** A larger numerator never has a finer ulp. */
  lemma {:induction false} UlpExpMonotone(n1: nat, n2: nat)
    requires n1 <= n2
    ensures UlpExp(n1) <= UlpExp(n2)
    decreases n2
  {
    if n1 >= SignificandLimit {
      UlpExpMonotone(n1 / 2, n2 / 2);
    }
  }

  /** Multiplying both sides by the same factor keeps their order. */
  lemma MulLe(a: nat, b: nat, p: nat)
    ensures a <= b ==> a * p <= b * p
  {
  }

  lemma MulSucc(a: nat, p: nat)
    ensures (a + 1) * p == a * p + p
  {
  }

  /** Taking the remainder away leaves the multiple of p at or below n. */
  lemma DivMul(n: nat, p: nat)
    requires p > 0
    ensures n - n % p == n / p * p
  {
  }

  lemma DivMonotone(n1: nat, n2: nat, p: nat)
    requires p > 0 && n1 <= n2
    ensures n1 / p <= n2 / p
  {
    DivMul(n1, p);
    DivMul(n2, p);
    MulLe(n2 / p + 1, n1 / p, p);
    MulSucc(n2 / p, p);
  }

  /** Division by p bounds the quotient from both sides of n. */
  lemma QuotientBounds(n: nat, p: nat, lo: nat, hi: nat)
    requires p > 0 && lo * p <= n < hi * p
    ensures lo <= n / p < hi
  {
    QuotientBelow(n, p, hi);
    QuotientAbove(n, p, lo);
  }

  lemma QuotientBelow(n: nat, p: nat, hi: nat)
    requires p > 0 && n < hi * p
    ensures n / p < hi
  {
    DivMul(n, p);
    MulLe(hi, n / p, p);
  }

  lemma QuotientAbove(n: nat, p: nat, lo: nat)
    requires p > 0 && lo * p <= n
    ensures lo <= n / p
  {
    DivMul(n, p);
    MulLe(n / p + 1, lo, p);
    MulSucc(n / p, p);
  }

  /** A multiple of p divides exactly. */
  lemma DivExact(a: nat, p: nat)
    requires p > 0
    ensures (a * p) / p == a && (a * p) % p == 0
  {
    QuotientBounds(a * p, p, a, a + 1);
  }

  /** n rounded to a multiple of p, to nearest with ties to the even multiple. */
  function RoundToUlp(n: nat, p: nat): (r: nat)
    requires p > 0
  {
    var rem := n % p;
    if 2 * rem > p || (2 * rem == p && (n / p) % 2 == 1) then n - rem + p else n - rem
  }

  /** The rounded value is the multiple of p at or below n or the next one, within half of p from n. */
  lemma RoundToUlpNearest(n: nat, p: nat)
    requires p > 0
    ensures RoundToUlp(n, p) == n / p * p || RoundToUlp(n, p) == n / p * p + p
    ensures 2 * (if RoundToUlp(n, p) >= n then RoundToUlp(n, p) - n else n - RoundToUlp(n, p)) <= p
  {
    DivMul(n, p);
  }

  /** The rounded value is a multiple of p. */
  lemma RoundToUlpIsMultiple(n: nat, p: nat)
    requires p > 0
    ensures RoundToUlp(n, p) % p == 0
  {
    RoundToUlpNearest(n, p);
    MulSucc(n / p, p);
    DivExact(n / p, p);
    DivExact(n / p + 1, p);
  }

  lemma RoundToUlpMonotone(n1: nat, n2: nat, p: nat)
    requires p > 0 && n1 <= n2
    ensures RoundToUlp(n1, p) <= RoundToUlp(n2, p)
  {
    DivMul(n1, p);
    DivMul(n2, p);
    DivMonotone(n1, n2, p);
    if n1 / p < n2 / p {
      MulLe(n1 / p + 1, n2 / p, p);
    }
  }

  /** n rounded to a 24-bit significand, to nearest with ties to even: to the nearest multiple of its ulp. */
  function RoundSignificand(n: nat): (r: nat)
  {
    RoundToUlp(n, Pow2(UlpExp(n)))
  }

  /** The rounded value is a multiple of the ulp of n, within half an ulp of n. */
  lemma RoundNearest(n: nat)
    ensures RoundSignificand(n) % Pow2(UlpExp(n)) == 0
    ensures 2 * (if RoundSignificand(n) >= n then RoundSignificand(n) - n else n - RoundSignificand(n)) <= Pow2(UlpExp(n))
  {
    RoundToUlpNearest(n, Pow2(UlpExp(n)));
    RoundToUlpIsMultiple(n, Pow2(UlpExp(n)));
  }

  /** A numerator that fits a significand is already a float. */
  lemma RoundSmall(n: nat)
    requires n < SignificandLimit
    ensures RoundSignificand(n) == n
  {
    assert UlpExp(n) == 0;
  }

  /** The rounded numerator stays within the binade of n: at most 2^24 ulps, and at least 2^23 ulps once n has more than 24 bits. */
  lemma RoundedRange(n: nat)
    ensures RoundSignificand(n) <= SignificandLimit * Pow2(UlpExp(n))
    ensures UlpExp(n) > 0 ==> SignificandHalf * Pow2(UlpExp(n)) <= RoundSignificand(n)
  {
    var p := Pow2(UlpExp(n));
    UlpExpBounds(n);
    QuotientBounds(n, p, 0, SignificandLimit);
    MulLe(n / p + 1, SignificandLimit, p);
    MulSucc(n / p, p);
    RoundToUlpNearest(n, p);
    if UlpExp(n) > 0 {
      QuotientBounds(n, p, SignificandHalf, SignificandLimit);
      MulLe(SignificandHalf, n / p, p);
      MulLe(SignificandHalf, n / p + 1, p);
    }
  }

  /** Rounding is monotone: a larger numerator never rounds to a smaller float. */
  lemma RoundMonotone(n1: nat, n2: nat)
    requires n1 <= n2
    ensures RoundSignificand(n1) <= RoundSignificand(n2)
  {
    var k1, k2 := UlpExp(n1), UlpExp(n2);
    UlpExpMonotone(n1, n2);
    if k1 == k2 {
      RoundToUlpMonotone(n1, n2, Pow2(k1));
    } else {
      RoundedRange(n1);
      RoundedRange(n2);
      Pow2Monotone(k1 + 1, k2);
    }
  }
}

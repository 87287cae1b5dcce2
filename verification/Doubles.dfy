/**
 Double-precision numbers as the real numbers they stand for (binary64 of IEEE 754-2019), and
 rounding to nearest as a relation, whichever way ties are broken.
 */
module Doubles {

  function Pow2(n: nat): (p: real)
    ensures p >= 1.0
  {
    if n == 0 then 1.0 else 2.0 * Pow2(n - 1)
  }

  const TWO_53: int := 0x20_0000_0000_0000
  const TWO_52: int := 0x10_0000_0000_0000

  /** m * 2^e */
  function Scaled(m: int, e: int): real {
    if e >= 0 then m as real * Pow2(e) else m as real / Pow2(-e)
  }

  ghost predicate IsDouble(x: real) {
    exists m, e :: -TWO_53 < m < TWO_53 && -1074 <= e <= 971 && x == Scaled(m, e)
  }

  function Distance(x: real, y: real): real {
    if x <= y then y - x else x - y
  }

  /** `y` is a double nearest to `x`. */
  ghost predicate IsRounded(x: real, y: real) {
    IsDouble(y) && forall z :: IsDouble(z) ==> Distance(y, x) <= Distance(z, x)
  }

  lemma IntIsDouble(n: int)
    requires -TWO_53 < n < TWO_53
    ensures IsDouble(n as real)
  {
    assert Scaled(n, 0) == n as real;
  }

  lemma ExactIntStays(n: int, y: real)
    requires -TWO_53 < n < TWO_53 && IsRounded(n as real, y)
    ensures y == n as real
  {
    IntIsDouble(n);
  }

  lemma {:induction false} PowAdd(a: nat, b: nat)
    ensures Pow2(a + b) == Pow2(a) * Pow2(b)
  {
    if a > 0 {
      PowAdd(a - 1, b);
    }
  }

  lemma Pow16()
    ensures Pow2(1) == 2.0 && Pow2(4) == 16.0 && Pow2(16) == 65536.0
  {
    PowAdd(1, 1);
    PowAdd(2, 2);
    PowAdd(4, 4);
    PowAdd(8, 8);
  }

  lemma PowConstants()
    ensures Pow2(1) == 2.0 && Pow2(52) == TWO_52 as real && Pow2(53) == TWO_53 as real
  {
    Pow16();
    PowAdd(16, 16);
    PowAdd(32, 16);
    PowAdd(48, 4);
    PowAdd(52, 1);
  }

  /** How far to scale up so that 53 bits stand before the point. */
  lemma {:induction false} Exponent(x: real, n: nat) returns (k: nat)
    requires 0.0 < x < TWO_53 as real && TWO_52 as real <= x * Pow2(n)
    ensures k <= n && TWO_52 as real <= x * Pow2(k) < TWO_53 as real
    decreases n
  {
    if x >= TWO_52 as real {
      k := 0;
    } else {
      assert n > 0;
      assert (2.0 * x) * Pow2(n - 1) == x * Pow2(n);
      k := Exponent(2.0 * x, n - 1);
      assert (2.0 * x) * Pow2(k) == x * Pow2(k + 1);
      k := k + 1;
    }
  }

  lemma PositiveFactor(a: real, p: real)
    requires p > 0.0 && a * p >= 0.0
    ensures a >= 0.0
  {
  }

  /** Half a unit after scaling by `p` is half a unit in the 53rd place. */
  lemma HalfUlp(t: real, x: real, p: real)
    requires p >= 1.0 && t * p <= 0.5 && TWO_52 as real <= x * p
    ensures t * TWO_53 as real <= x
  {
    var a := x - t * TWO_53 as real;
    assert a * p == x * p - (t * p) * TWO_53 as real;
    PositiveFactor(a, p);
  }

  lemma Quotient(m: real, p: real)
    requires p >= 1.0
    ensures (m / p) * p == m
  {
  }

  lemma {:induction false} ScaledIsDouble(m: int, k: int)
    requires 0 <= m <= TWO_53 && 0 <= k <= 1074
    ensures IsDouble(m as real / Pow2(k))
  {
    if m < TWO_53 {
      ScaledDown(m, k);
      MantissaIsDouble(m, -k);
    } else if k == 0 {
      assert Scaled(TWO_52, 1) == TWO_53 as real by {
        assert Pow2(1) == 2.0 * Pow2(0);
      }
      MantissaIsDouble(TWO_52, 1);
    } else {
      HalfBoth(Pow2(k - 1));
      ScaledDown(TWO_52, k - 1);
      MantissaIsDouble(TWO_52, 1 - k);
    }
  }

  lemma {:induction false} ScaledDown(m: int, k: int)
    requires k >= 0
    ensures Scaled(m, -k) == m as real / Pow2(k)
  {
  }

  lemma MantissaIsDouble(m: int, e: int)
    requires -TWO_53 < m < TWO_53 && -1074 <= e <= 971
    ensures IsDouble(Scaled(m, e))
  {
  }

  lemma HalfBoth(p: real)
    requires p >= 1.0
    ensures TWO_53 as real / (2.0 * p) == TWO_52 as real / p
  {
    Quotient(TWO_52 as real, p);
    Quotient(TWO_53 as real, 2.0 * p);
    var a := TWO_53 as real / (2.0 * p) - TWO_52 as real / p;
    assert a * (2.0 * p) == 0.0;
    PositiveFactor(a, 2.0 * p);
    PositiveFactor(-a, 2.0 * p);
  }

  /** Some double lies within half a unit in the 53rd place. */
  lemma NearbyDouble(x: real, n: nat) returns (d: real)
    requires 0.0 < x < TWO_53 as real && n <= 1074 && TWO_52 as real <= x * Pow2(n)
    ensures IsDouble(d) && Distance(d, x) * TWO_53 as real <= x
  {
    var k := Exponent(x, n);
    d := NearbyAt(x, k);
  }

  lemma NearbyAt(x: real, k: nat) returns (d: real)
    requires k <= 1074 && TWO_52 as real <= x * Pow2(k) < TWO_53 as real
    ensures IsDouble(d) && Distance(d, x) * TWO_53 as real <= x
  {
    var m := NearestQuotient(x, Pow2(k));
    d := m as real / Pow2(k);
    ScaledIsDouble(m, k);
  }

  lemma NearestQuotient(x: real, p: real) returns (m: int)
    requires p >= 1.0 && TWO_52 as real <= x * p < TWO_53 as real
    ensures 0 <= m <= TWO_53 && Distance(m as real / p, x) * TWO_53 as real <= x
  {
    m := NearestInt(x * p);
    RoundedQuotient(x, m as real, p);
  }

  lemma NearestInt(y: real) returns (m: int)
    requires 0.0 <= y < TWO_53 as real
    ensures 0 <= m <= TWO_53 && -0.5 <= m as real - y <= 0.5
  {
    m := (y + 0.5).Floor;
  }

  lemma RoundedQuotient(x: real, m: real, p: real)
    requires p >= 1.0 && TWO_52 as real <= x * p && -0.5 <= m - x * p <= 0.5
    ensures Distance(m / p, x) * TWO_53 as real <= x
  {
    Quotient(m, p);
    QuotientNear(x, m / p, m, p);
  }

  lemma QuotientNear(x: real, d: real, m: real, p: real)
    requires p >= 1.0 && d * p == m && TWO_52 as real <= x * p && -0.5 <= m - x * p <= 0.5
    ensures Distance(d, x) * TWO_53 as real <= x
  {
    Distribute(d, x, p);
    Distribute(x, d, p);
    HalfUlp(d - x, x, p);
    HalfUlp(x - d, x, p);
  }

  lemma Distribute(a: real, b: real, p: real)
    ensures (a - b) * p == a * p - b * p
  {
  }

  /** The relative rounding error is at most 2^-53. */
  lemma {:induction false} RelativeError(x: real, y: real, n: nat)
    requires 0.0 < x < TWO_53 as real && n <= 1074 && TWO_52 as real <= x * Pow2(n)
    requires IsRounded(x, y)
    ensures Distance(y, x) * TWO_53 as real <= x
  {
    var d := NearbyDouble(x, n);
    assert Distance(y, x) <= Distance(d, x);
  }

  lemma ProductOfIntegers(a: real, b: real) returns (i: int)
    requires a == a.Floor as real && b == b.Floor as real
    ensures i as real == a * b
  {
    i := a.Floor * b.Floor;
  }

  lemma CancelLeft(m: real, a: real, b: real, p: real)
    requires a >= 1.0 && p == a * b
    ensures (m / a) * p == m * b
  {
    var q := m / a;
    Quotient(m, a);
    Regroup(q, a, b);
  }

  lemma Regroup(x: real, a: real, b: real)
    ensures x * (a * b) == (x * a) * b
  {
  }

  lemma ShiftDown(m: int, e: int, k: nat)
    requires e < 0 <= e + k
    ensures Scaled(m, e) * Pow2(k) == m as real * Pow2(k + e)
  {
    PowAdd(-e, k + e);
    CancelLeft(m as real, Pow2(-e), Pow2(k + e), Pow2(k));
  }

  /** m * 2^e scaled up by 2^k is an integer once the point has moved past the last bit. */
  lemma ScaledUp(m: int, e: int, k: nat) returns (i: int)
    requires e + k >= 0
    ensures Scaled(m, e) * Pow2(k) == i as real
  {
    if e >= 0 {
      PowInteger(e);
      PowInteger(k);
      i := ProductOfThree(m, Pow2(e), Pow2(k));
    } else {
      i := ShiftedUp(m, e, k);
    }
  }

  lemma ShiftedUp(m: int, e: int, k: nat) returns (i: int)
    requires e < 0 <= e + k
    ensures Scaled(m, e) * Pow2(k) == i as real
  {
    PowInteger(k + e);
    ShiftDown(m, e, k);
    i := ProductOfIntegers(m as real, Pow2(k + e));
  }

  lemma ProductOfThree(m: int, a: real, b: real) returns (i: int)
    requires a == a.Floor as real && b == b.Floor as real
    ensures i as real == m as real * a * b
  {
    var j := ProductOfIntegers(m as real, a);
    i := ProductOfIntegers(j as real, b);
  }

  /** Above 2^(52-k) every double is a multiple of 2^-k. */
  lemma OnGrid(z: real, k: nat) returns (i: int)
    requires IsDouble(z) && TWO_52 as real <= z * Pow2(k)
    ensures z * Pow2(k) == i as real
  {
    var m, e :| -TWO_53 < m < TWO_53 && -1074 <= e <= 971 && z == Scaled(m, e);
    i := MantissaOnGrid(m, e, k);
  }

  lemma MantissaOnGrid(m: int, e: int, k: nat) returns (i: int)
    requires m < TWO_53 && TWO_52 as real <= Scaled(m, e) * Pow2(k)
    ensures Scaled(m, e) * Pow2(k) == i as real
  {
    if e + k < 0 {
      ScaledTimes(m, e);
      BelowGrid(Scaled(m, e), m, e, k);
    }
    i := ScaledUp(m, e, k);
  }

  lemma {:induction false} ScaledTimes(m: int, e: int)
    requires e < 0
    ensures Scaled(m, e) * Pow2(-e) == m as real
  {
    Quotient(m as real, Pow2(-e));
  }

  lemma BelowGrid(x: real, m: int, e: int, k: nat)
    requires m < TWO_53 && e < 0 && e + k < 0 && x * Pow2(-e) == m as real
    ensures x * Pow2(k) < TWO_52 as real
  {
    PowAdd(k, -e - k);
    PowAtLeastTwo(-e - k);
    TooFine(x, m as real, Pow2(k), Pow2(-e - k), Pow2(-e));
  }

  lemma TooFine(x: real, m: real, a: real, b: real, p: real)
    requires m < TWO_53 as real && a >= 1.0 && b >= 2.0 && p == a * b && x * p == m
    ensures x * a < TWO_52 as real
  {
    Regroup(x, a, b);
    if x * a >= TWO_52 as real {
      AtLeastDouble(x * a, b);
    }
  }

  lemma {:induction false} PowAtLeastTwo(n: nat)
    requires n >= 1
    ensures Pow2(n) >= 2.0
  {
  }

  lemma PositiveProduct(a: real, b: real)
    requires a >= 0.0 && b >= 0.0
    ensures a * b >= 0.0
  {
  }

  lemma AtLeastDouble(y: real, b: real)
    requires y >= 0.0 && b >= 2.0
    ensures y * b >= 2.0 * y
  {
    PositiveProduct(y, b - 2.0);
    assert y * b == y * (b - 2.0) + 2.0 * y;
  }

  lemma {:induction false} PowInteger(n: nat)
    ensures Pow2(n) == Pow2(n).Floor as real
  {
    if n > 0 {
      PowInteger(n - 1);
      assert Pow2(n) == (2 * Pow2(n - 1).Floor) as real;
    }
  }

  /** The smallest positive double is 2^-1074. */
  function FinestScale(): nat {
    1074
  }

  /** Every double is a multiple of the smallest positive one. */
  lemma FinestGrid(z: real) returns (i: int)
    requires IsDouble(z)
    ensures z * Pow2(FinestScale()) == i as real
  {
    var m, e :| -TWO_53 < m < TWO_53 && -1074 <= e <= 971 && z == Scaled(m, e);
    i := ScaledUp(m, e, FinestScale());
  }
}

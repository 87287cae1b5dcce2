/** Flat indices of multi-dimensional data: bounds and uniqueness of digits. */
module MixedRadix {

  lemma {:induction false} MulMonotone(x: nat, y: nat, d: nat)
    requires x <= y
    ensures x * d <= y * d
    decreases y - x
  {
    if x < y {
      MulMonotone(x, y - 1, d);
      assert y * d == (y - 1) * d + d;
    }
  }

  lemma LessFactor(x: nat, y: nat, d: nat)
    requires x * d < y * d
    ensures x < y
  {
    if y <= x {
      MulMonotone(y, x, d);
    }
  }

  lemma BelowOne(e: int, d: nat)
    requires e * d < d
    ensures e < 1
  {
    if e > 0 {
      LessFactor(e, 1, d);
    }
  }

  /** Quotient and remainder are determined by the number. */
  lemma SameDigits(x: int, r: int, x': int, r': int, d: nat)
    requires 0 <= r < d && 0 <= r' < d && x * d + r == x' * d + r'
    ensures x == x' && r == r'
  {
    var e := x - x';
    assert e * d == x * d - x' * d;
    BelowOne(e, d);
    assert -e * d == x' * d - x * d;
    BelowOne(-e, d);
  }

  /** The same, two levels deep. */
  lemma SameTwoDigits(q: int, h: int, v: int, q': int, h': int, v': int, d: nat, e: nat)
    requires 0 <= v < e && 0 <= v' < e && 0 <= h * e + v < d && 0 <= h' * e + v' < d
    requires q * d + (h * e + v) == q' * d + (h' * e + v')
    ensures q == q' && h == h' && v == v'
  {
    SameDigits(q, h * e + v, q', h' * e + v', d);
    SameDigits(h, v, h', v', e);
  }

  /** Digit `i` of `n` over a remainder below `d`. */
  lemma Packed(i: nat, n: nat, r: nat, d: nat)
    requires i < n && r < d
    ensures i * d + r < n * d
  {
    MulMonotone(i + 1, n, d);
    assert (i + 1) * d == i * d + d;
  }

  lemma QuotientUnique(n: nat, d: nat, u: nat)
    requires d > 0 && u * d <= n < u * d + d
    ensures u == n / d
  {
    assert n == n / d * d + n % d;
    SameDigits(u, n - u * d, n / d, n % d, d);
  }

  lemma MultipleHasNoRemainder(q: nat, d: nat)
    requires d > 0
    ensures q * d % d == 0
  {
    var x := q * d;
    assert x == x / d * d + x % d;
    SameDigits(q, 0, x / d, x % d, d);
  }
}

/**
 * Exact rounding of a rational number to an integer, ties to the even neighbour: what
 * Python's `round` and numpy's `.round()` do to a mean or a percentage. Means and
 * percentages are kept as exact fractions `num / den`, so no floating point is involved.
 */
module Rounding {

  function Abs(x: int): nat
  {
    if x < 0 then -x else x
  }

  /**
   * `r` is the integer nearest to num / den, and when num / den lies exactly halfway
   * between two integers, `r` is the even one.
   */
  ghost predicate IsRoundHalfEven(num: int, den: int, r: int)
    requires den != 0
  {
    var dist := Abs(num - r * den);
    2 * dist <= Abs(den) && (2 * dist == Abs(den) ==> r % 2 == 0)
  }

  function RoundHalfEven(num: int, den: int): (r: int)
    requires den != 0
    ensures IsRoundHalfEven(num, den, r)
  {
    if den < 0 then
      var r := RoundPositive(-num, -den);
      assert -num - r * -den == -(num - r * den);
      r
    else
      RoundPositive(num, den)
  }

  /** Euclidean division: the distances from num to the multiples of den around it. */
  lemma QuotientRemainder(num: int, den: int)
    requires den > 0
    ensures 0 <= num % den < den
    ensures num - (num / den) * den == num % den
    ensures num - (num / den + 1) * den == num % den - den
  {
  }

  /** Rounding for a positive divisor, from the quotient and the remainder. */
  function RoundPositive(num: int, den: int): (r: int)
    requires den > 0
    ensures IsRoundHalfEven(num, den, r)
  {
    var q := num / den;
    var m := num % den;
    QuotientRemainder(num, den);
    if 2 * m < den then
      assert Abs(num - q * den) == m;
      q
    else if 2 * m > den then
      assert Abs(num - (q + 1) * den) == den - m;
      q + 1
    else if q % 2 == 0 then
      assert Abs(num - q * den) == m;
      q
    else
      assert Abs(num - (q + 1) * den) == den - m;
      q + 1
  }

  /** A positive multiple of d is at least d. */
  lemma {:induction false} MulAtLeast(k: nat, d: nat)
    requires k >= 1
    ensures k * d >= d
  {
    if k > 1 {
      MulAtLeast(k - 1, d);
      assert k * d == (k - 1) * d + d;
    }
  }

  lemma AbsMul(k: int, d: int)
    ensures Abs(k * d) == Abs(k) * Abs(d)
  {
    if k < 0 && d < 0 {
      assert k * d == (-k) * (-d);
    } else if k < 0 {
      assert k * d == -((-k) * d);
    } else if d < 0 {
      assert k * d == -(k * (-d));
    }
  }

  lemma Distributes(a: int, b: int, d: int)
    ensures a * d - b * d == (a - b) * d
  {
  }

  /** Two integers that differ by at least 1, times a non-zero factor, differ by at least the factor. */
  lemma ScaledGap(a: int, b: int, den: int)
    requires den != 0 && a != b
    ensures Abs(a * den - b * den) >= Abs(den)
  {
    Distributes(a, b, den);
    AbsMul(a - b, den);
    MulAtLeast(Abs(a - b), Abs(den));
  }

  /** The rounding is well defined: at most one integer meets the half-even specification. */
  lemma RoundHalfEvenUnique(num: int, den: int, r1: int, r2: int)
    requires den != 0
    requires IsRoundHalfEven(num, den, r1) && IsRoundHalfEven(num, den, r2)
    ensures r1 == r2
  {
    if r1 != r2 {
      ScaledGap(r1, r2, den);
      var d1 := num - r1 * den;
      var d2 := num - r2 * den;
      assert d2 - d1 == r1 * den - r2 * den;
      assert 2 * Abs(d1) == Abs(den) && 2 * Abs(d2) == Abs(den);
      if r1 < r2 - 1 || r2 < r1 - 1 {
        ScaledGap(r1, r2 + (if r1 < r2 then -1 else 1), den);
        assert false;
      }
      assert false;
    }
  }

  /** An exact quotient is its own rounding. */
  lemma RoundExact(q: int, den: int)
    requires den != 0
    ensures RoundHalfEven(q * den, den) == q
  {
    assert IsRoundHalfEven(q * den, den, q);
    RoundHalfEvenUnique(q * den, den, q, RoundHalfEven(q * den, den));
  }
}

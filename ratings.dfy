/** Document ratings: the integer average that `ComputeAverageRating` stores, with the
    C++ division that truncates toward zero. */
module Ratings {

  /** `std::accumulate(ratings.begin(), ratings.end(), 0)` over unbounded integers. */
  function Sum(xs: seq<int>): int
  {
    if xs == [] then 0 else Sum(xs[..|xs| - 1]) + xs[|xs| - 1]
  }

  /** C++ `a / b` for a positive divisor: the quotient rounded toward zero, so the
      remainder takes the sign of `a` (Dafny's own `/` rounds toward minus infinity for
      a negative `a`). */
  function TruncDiv(a: int, b: int): (q: int)
    requires b > 0
    ensures a >= 0 ==> q >= 0 && 0 <= a - q * b < b
    ensures a < 0 ==> q <= 0 && -b < a - q * b <= 0
  {
    if a >= 0 then
      EuclidBounds(a, b);
      a / b
    else
      EuclidBounds(-a, b);
      NegatedQuotient(a, (-a) / b, b);
      -((-a) / b)
  }

  lemma EuclidBounds(a: nat, b: int)
    requires b > 0
    ensures a / b >= 0 && 0 <= a - (a / b) * b < b
  {
    assert a == (a / b) * b + a % b;
  }

  lemma NegatedQuotient(a: int, q: int, b: int)
    requires 0 <= -a - q * b < b
    ensures -b < a - (-q) * b <= 0
  {
    assert (-q) * b == -(q * b);
  }

  /** `ComputeAverageRating` of the current server: the sum divided by the count. The
      source divides by `ratings.size()` without checking it, so an empty list is a
      division by zero that callers must not cause. */
  function AverageRating(ratings: seq<int>): int
    requires |ratings| > 0
  {
    TruncDiv(Sum(ratings), |ratings|)
  }

  lemma {:induction false} SumBounds(xs: seq<int>, lo: int, hi: int)
    requires forall i :: 0 <= i < |xs| ==> lo <= xs[i] <= hi
    ensures |xs| * lo <= Sum(xs) <= |xs| * hi
  {
    if xs != [] {
      var init := xs[..|xs| - 1];
      SumBounds(init, lo, hi);
      Distribute(|init|, lo);
      Distribute(|init|, hi);
    }
  }

  lemma Distribute(k: int, x: int)
    ensures (k + 1) * x == k * x + x
  {
  }

  /** Multiplying by a positive number keeps the order. */
  lemma CancelFactor(x: int, y: int, n: int)
    requires n > 0 && x * n <= y * n
    ensures x <= y
  {
    assert (y - x) * n == y * n - x * n;
  }

  /** The average lies between the smallest and the largest rating. */
  lemma AverageWithinBounds(ratings: seq<int>, lo: int, hi: int)
    requires |ratings| > 0
    requires forall i :: 0 <= i < |ratings| ==> lo <= ratings[i] <= hi
    ensures lo <= AverageRating(ratings) <= hi
  {
    var n := |ratings|;
    var s := Sum(ratings);
    var q := TruncDiv(s, n);
    SumBounds(ratings, lo, hi);
    assert lo * n <= s <= hi * n;
    if s >= 0 {
      // q * n <= s < q * n + n
      Distribute(q, n);
      CancelFactor(q, hi, n);
      CancelFactor(lo, q + 1, n) by {
        assert lo * n <= s < (q + 1) * n;
      }
    } else {
      // q * n - n < s <= q * n
      Distribute(q - 1, n);
      CancelFactor(lo, q, n);
      CancelFactor(q, hi + 1, n) by {
        Distribute(hi, n);
        assert (q - 1) * n < s <= hi * n;
      }
    }
  }

  /** Rounding toward zero is symmetric in the sign of the dividend, which Euclidean
      division is not. */
  lemma TruncDivOdd(a: int, b: int)
    requires b > 0
    ensures TruncDiv(-a, b) == -TruncDiv(a, b)
  {
  }
}

/** Facts about multiples and quotients. */
module Arithmetic {
  lemma MultiplesInOrder(a: int, b: int, m: int)
    requires m > 0
    ensures a < b ==> a * m + m <= b * m
  {
    assert b * m - a * m - m == (b - a - 1) * m;
  }

  /** A quotient is the one multiple that brackets its dividend. */
  lemma QuotientIs(a: int, m: int, k: int)
    requires m > 0
    ensures a / m == k <==> k * m <= a < k * m + m
  {
    MultiplesInOrder(a / m, k, m);
    MultiplesInOrder(k, a / m, m);
  }
}

/** Division with remainder. */
module Arithmetic {

  /** Quotient and remainder are the only ones there are. */
  lemma DivMod(a: int, n: int, q: int, r: int)
    requires 0 <= r < n && a == n * q + r
    ensures a / n == q && a % n == r
  {
    var d := a / n - q;
    assert n * d == r - a % n;
    assert d >= 1 ==> n * d >= n;
    assert d <= -1 ==> n * (d + 1) <= 0;
  }
}

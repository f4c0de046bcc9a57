/** Products and quotients by a variable. */
module Arithmetic {

  lemma MultiplyLess(a: nat, b: nat, p: nat)
    requires a <= b && p > 0
    ensures a * p <= b * p && (a < b ==> a * p < b * p)
  {
  }

  lemma MulBound(d: int, n: int)
    requires n > 0
    ensures d >= 1 ==> d * n >= n
    ensures d <= -1 ==> d * n <= -n
  {
  }

  /** Quotient and remainder are unique. */
  lemma DivUnique(x: int, n: int, q: int, r: int)
    requires n > 0 && 0 <= r < n && x == q * n + r
    ensures x / n == q && x % n == r
  {
    var d := x / n - q;
    assert x == x / n * n + x % n;
    assert d * n == r - x % n;
    MulBound(d, n);
  }
}

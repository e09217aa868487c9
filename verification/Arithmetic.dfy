/** Division and products of integers, as far as several modules need them. */
module Arithmetic {

  /** A multiple of `m` that is not zero is at least `m` away from it. */
  lemma NoSmallMultiple(x: int, m: nat)
    ensures (x >= 1 ==> x * m >= m) && (x <= -1 ==> x * m + m <= 0)
  {
  }

  /** Quotient and remainder are determined. */
  lemma DivisionIs(a: int, m: int, q: int, r: int)
    requires a == q * m + r && 0 <= r < m
    ensures a / m == q && a % m == r
  {
    var k, s := a / m, a % m;
    assert a == m * k + s && (k - q) * m == r - s;
    NoSmallMultiple(k - q, m);
  }

  lemma ProductAtMost(m: nat, n: nat, k: nat)
    requires m <= n
    ensures m * k <= n * k
  {
  }
}

/** The few facts about Euclidean division that the models share. */
module Arithmetic {

  lemma MulMonotone(a: int, b: int, m: nat)
    requires a <= b
    ensures a * m <= b * m
  {
    assert (b - a) * m >= 0;
  }

  lemma QuotientUnique(n: int, m: nat, q: int, r: nat)
    requires m > 0 && n == q * m + r && r < m
    ensures n % m == r && n / m == q
  {
    var p, s := n / m, n % m;
    assert p * m + s == q * m + r;
    assert (p - q) * m == r - s;
    if p > q {
      MulMonotone(1, p - q, m);
    } else if p < q {
      MulMonotone(p - q, -1, m);
    }
  }

  ghost function Pow2(n: nat): (p: nat)
    ensures p > 0
    decreases n
  {
    if n == 0 then 1 else 2 * Pow2(n - 1)
  }
}

/** Division facts shared by the models. */
module Arith {

  lemma DivModUnique(x: int, p: int, q: int, r: int)
    requires 0 <= r < p && x == q * p + r
    ensures x / p == q && x % p == r
  {
    var d := x / p - q;
    assert d * p == r - x % p;
    assert d >= 1 ==> d * p >= p;
    assert d <= -1 ==> d * p <= -p;
  }

  /** A quotient bound is a bound on the dividend. */
  lemma FloorBound(n: int, w: int, m: int)
    requires w > 0
    ensures n / w < m <==> n < m * w
  {
    var q := n / w;
    assert n == q * w + n % w;
    assert q < m ==> (q + 1) * w <= m * w;
    assert q >= m ==> q * w >= m * w;
  }

  lemma MulMonotone(a: int, b: int, c: int)
    requires a <= b && 0 <= c
    ensures a * c <= b * c
  {
  }

  lemma DivMod(x: int, p: nat)
    requires p > 0
    ensures x == x / p * p + x % p && 0 <= x % p < p
  {
  }

  lemma QuotientShrinks(x: nat, p: nat)
    requires p >= 2 && x > 0
    ensures x / p < x && 2 * (x / p) <= x
  {
    DivMod(x, p);
    MulMonotone(2, p, x / p);
  }
}

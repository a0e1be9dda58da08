/** Quotients, for the positional notations below. */
module Division {
  /** Multiples of m are m apart. */
  lemma {:induction false} MultiplesApart(a: nat, b: nat, m: nat)
    ensures a < b ==> a * m + m <= b * m
    decreases b
  {
    if a < b {
      assert b * m == (b - 1) * m + m;
      MultiplesApart(a, b - 1, m);
    }
  }

  lemma QuotientIsUnique(n: nat, m: nat, q: nat, r: nat)
    requires r < m && n == q * m + r
    ensures n / m == q && n % m == r
  {
    MultiplesApart(n / m, q, m);
    MultiplesApart(q, n / m, m);
    assert n == n / m * m + n % m;
  }

  lemma Distribute(q: nat, p: nat, r: nat, d: nat)
    ensures (q * p + r) * d == q * (d * p) + r * d
  {
  }

  /** Dividing twice is dividing once by the product. */
  lemma DividedTwice(n: nat, d: nat, p: nat)
    requires d > 0 && p > 0
    ensures d * p > 0 && n / d / p == n / (d * p)
  {
    var q, r := n / d / p, n / d % p;
    MultiplesApart(r, p, d);
    assert d * p == p * d;
    assert n / d == q * p + r;
    assert n == n / d * d + n % d;
    Distribute(q, p, r, d);
    QuotientIsUnique(n, d * p, q, r * d + n % d);
  }
}

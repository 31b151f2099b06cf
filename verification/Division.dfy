/** Facts about quotients and multiples. */
module Division {
  lemma DivModIs(x: nat, d: nat, q: nat, r: nat)
    requires d > 0 && x == d * q + r && r < d
    ensures x / d == q && x % d == r
  {
    var q', r' := x / d, x % d;
    assert x == d * q' + r';
    if q' < q {
      StepUp(d, q', q);
    } else if q < q' {
      StepUp(d, q, q');
    }
  }

  lemma StepUp(d: nat, a: int, b: int)
    requires a < b
    ensures d * a + d <= d * b
  {
    assert d * (a + 1) <= d * b;
  }

  lemma NestedQuotient(x: nat, m: nat, p: nat)
    requires m >= 1 && p >= 1
    ensures m * p >= 1 && x / (m * p) == x / m / p
  {
    var a, b := x / m, x % m;
    NestedIs(x, m, p, a, b, a / p, a % p);
  }

  lemma NestedIs(x: nat, m: nat, p: nat, a: nat, b: nat, q: nat, r: nat)
    requires b < m && r < p && x == m * a + b && a == p * q + r
    ensures m * p >= 1 && x / (m * p) == q
  {
    SmallRest(m, p, r, b);
    Regroup(m, p, q, r);
    DivModIs(x, m * p, q, m * r + b);
  }

  lemma Regroup(m: nat, p: nat, q: nat, r: nat)
    ensures m * (p * q + r) == m * p * q + m * r
  {
  }

  lemma SmallRest(m: nat, p: nat, r: nat, b: nat)
    requires r < p && b < m
    ensures 0 <= m * r + b < m * p
  {
    StepUp(m, r, p);
  }
}

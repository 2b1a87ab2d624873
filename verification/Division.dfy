/** Dividing by a product is dividing by its factors, one after the other. */
module Division {

  lemma {:induction false} AtLeastOnce(d: int, k: int)
    requires d > 0 && k >= 1
    ensures d * k >= d
    decreases k
  {
    if k > 1 {
      AtLeastOnce(d, k - 1);
      assert d * k == d * (k - 1) + d;
    }
  }

  lemma OneQuotient(d: int, t: int, q: int, r: int, u: int)
    requires d > 0 && 0 <= r < d && 0 <= u < d && d * t + r == d * q + u
    ensures t == q
  {
    assert d * (q - t) == d * q - d * t && d * (t - q) == d * t - d * q;
    if q > t {
      AtLeastOnce(d, q - t);
    } else if t > q {
      AtLeastOnce(d, t - q);
    }
  }

  lemma QuotientIs(v: nat, d: nat, t: nat, r: nat)
    requires v == d * t + r && r < d
    ensures v / d == t
  {
    OneQuotient(d, t, v / d, r, v % d);
  }

  lemma Regroup(c: nat, p: nat, t: nat, u: nat, r: nat)
    ensures c * (p * t + u) + r == (c * p) * t + (c * u + r)
  {
  }

  lemma BelowProduct(c: nat, p: nat, u: nat, r: nat)
    requires u < p && r < c
    ensures c * u + r < c * p
  {
    AtMost(c, u + 1, p);
  }

  lemma AtMost(c: nat, a: nat, b: nat)
    requires a <= b
    ensures c * a <= c * b
  {
    assert c * b == c * a + c * (b - a);
  }

  lemma Quotients(v: nat, c: nat, p: nat, q: nat, r: nat, t: nat, u: nat, d: nat)
    requires v == c * q + r && r < c && q == p * t + u && u < p && d == c * p
    ensures d >= 1 && v / d == t
  {
    BelowProduct(c, p, u, r);
    Regroup(c, p, t, u, r);
    QuotientIs(v, d, t, c * u + r);
  }

  lemma DivideTwice(v: nat, c: nat, p: nat)
    requires c >= 1 && p >= 1
    ensures c * p >= 1 && v / (c * p) == v / c / p
  {
    var q := v / c;
    Quotients(v, c, p, q, v % c, q / p, q % p, c * p);
  }
}

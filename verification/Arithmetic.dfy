/** Facts about products, quotients and remainders. */
module Arithmetic {
  lemma NotNegative(a: nat, b: nat)
    ensures a * b >= 0
  {
  }

  lemma TimesAtLeast(d: nat, p: nat)
    requires d > 0
    ensures d * p >= p
  {
    assert d * p == (d - 1) * p + p;
    NotNegative(d - 1, p);
  }

  lemma MultipleWithin(n: int, q: nat, r: nat, p: nat)
    requires r < p
    ensures n * p == q * p + r <==> n == q && r == 0
  {
    assert (n - q) * p == n * p - q * p;
    if n > q {
      TimesAtLeast(n - q, p);
    } else if n < q {
      TimesAtLeast(q - n, p);
      assert (q - n) * p == q * p - n * p;
    }
  }

  lemma QuotientIff(n: int, p: nat, m: nat)
    requires p > 0
    ensures n * p == m <==> n >= 0 && m % p == 0 && m / p == n
  {
    var q, r := m / p, m % p;
    assert m == q * p + r;
    MultipleWithin(n, q, r, p);
  }

  lemma Cancels(a: int, b: int, p: nat)
    requires p > 0
    ensures a * p == b * p <==> a == b
  {
    assert (a - b) * p == a * p - b * p;
    if a > b {
      TimesAtLeast(a - b, p);
    } else if a < b {
      TimesAtLeast(b - a, p);
      assert (b - a) * p == b * p - a * p;
    }
  }

  lemma TimesTwice(a: int, b: int, c: int)
    ensures a * b * c == a * (b * c)
  {
  }

  /** A remainder is what is left of any multiple. */
  lemma RemainderIs(q: nat, r: nat, p: nat)
    requires r < p
    ensures (q * p + r) % p == r
  {
    var x := q * p + r;
    var high, low := x / p, x % p;
    assert x == high * p + low;
    if r >= low {
      MultipleWithin(high, q, r - low, p);
    } else {
      MultipleWithin(q, high, low - r, p);
    }
  }
}

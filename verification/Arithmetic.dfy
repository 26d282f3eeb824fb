/** Products, quotients and remainders of integers. */
module Arithmetic {

  lemma MulMonotone(x: int, y: int, k: int)
    requires x <= y && k >= 0
    ensures x * k <= y * k
  {
  }

  lemma QuotientSign(x: int, p: int)
    requires p > 0
    ensures x >= 0 ==> 0 <= x / p
    ensures x < 0 ==> x / p < 0
  {
    var q := x / p;
    assert x == p * q + x % p;
    if x >= 0 && q < 0 {
      MulMonotone(q, -1, p);
      assert false;
    }
    if x < 0 && q >= 0 {
      MulMonotone(0, q, p);
      assert false;
    }
  }

  lemma HalveQuotient(x: int, p: int)
    requires p > 0
    ensures x / (2 * p) == (x / p) / 2
  {
    var q, r := x / p, x % p;
    var h, t := q / 2, q % 2;
    assert x == p * q + r && q == 2 * h + t;
    assert x == 2 * p * h + (p * t + r) by {
      assert p * q == p * (2 * h + t);
      assert p * (2 * h + t) == 2 * p * h + p * t;
    }
    assert 0 <= p * t <= p;
    QuotientIs(x, 2 * p, h, p * t + r);
  }

  lemma QuotientIs(x: int, m: int, q: int, r: int)
    requires m > 0 && 0 <= r < m && x == m * q + r
    ensures x / m == q
  {
    var q1, r1 := x / m, x % m;
    assert x == m * q1 + r1;
    assert m * (q - q1) == r1 - r;
    if q > q1 {
      MulMonotone(1, q - q1, m);
      assert false;
    }
    if q < q1 {
      MulMonotone(1, q1 - q, m);
      assert false;
    }
  }

  lemma QuotientMonotone(x: int, y: int, p: int)
    requires x <= y && p > 0
    ensures x / p <= y / p
  {
    var a, b := x / p, y / p;
    assert x == p * a + x % p && y == p * b + y % p;
    if a > b {
      MulMonotone(b + 1, a, p);
      assert false;
    }
  }

  lemma Division(x: int, l: nat)
    requires l > 0
    ensures x == l * (x / l) + x % l
  {
  }

  lemma ModIs(x: int, m: int, q: int, r: int)
    requires m > 0 && 0 <= r < m && x == m * q + r
    ensures x % m == r && x / m == q
  {
    QuotientIs(x, m, q, r);
    Division(x, m);
  }

  // Two numbers less than a multiple apart have different remainders.
  lemma RemaindersDiffer(i: nat, j: nat, m: nat)
    requires m > 0 && i < j < i + m
    ensures i % m != j % m
  {
    Division(i, m);
    Division(j, m);
    var a, b := i / m, j / m;
    if a < b {
      MulMonotone(a + 1, b, m);
      if b > a + 1 {
        MulMonotone(a + 2, b, m);
      }
    } else {
      MulMonotone(b, a, m);
    }
  }

  lemma NextRemainder(i: nat, m: nat)
    requires m > 0
    ensures (i % m + 1) % m == (i + 1) % m
  {
    var q, r := i / m, i % m;
    Division(i, m);
    if r + 1 < m {
      ModIs(i + 1, m, q, r + 1);
    } else {
      assert m * (q + 1) == m * q + m;
      ModIs(i + 1, m, q + 1, 0);
    }
  }
}

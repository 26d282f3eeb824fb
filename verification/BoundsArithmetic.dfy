/** The corner rules of interval arithmetic (LibKernelExpr/src/IndexExpr/IndexExpr.cpp, computeBinopBounds). */
module BoundsArithmetic {
  import opened Arithmetic
  import opened IndexExprs
  import opened Bounds

  // x * k lies between the two end products.
  lemma MulBetween(x: int, lo: int, hi: int, k: int)
    requires lo <= x <= hi
    ensures MinOf(lo * k, hi * k) <= x * k <= MaxOf(lo * k, hi * k)
  {
    if k >= 0 {
      MulMonotone(lo, x, k);
      MulMonotone(x, hi, k);
    } else {
      MulMonotone(lo, x, -k);
      MulMonotone(x, hi, -k);
    }
  }

  lemma MulCorners(a: int, b: int, l1: int, h1: int, l2: int, h2: int)
    requires l1 <= a <= h1 && l2 <= b <= h2
    ensures Corners(l1, h1, l2, h2).0 <= a * b <= Corners(l1, h1, l2, h2).1
  {
    MulBetween(b, l2, h2, a);
    MulBetween(a, l1, h1, l2);
    MulBetween(a, l1, h1, h2);
    BetweenCorners(b * a, l2 * a, h2 * a, l1 * l2, l1 * h2, h1 * l2, h1 * h2);
  }

  lemma BetweenCorners(x: int, y: int, z: int, c1: int, c2: int, c3: int, c4: int)
    requires MinOf(y, z) <= x <= MaxOf(y, z)
    requires MinOf(c1, c3) <= y <= MaxOf(c1, c3) && MinOf(c2, c4) <= z <= MaxOf(c2, c4)
    ensures Min4(c1, c2, c3, c4) <= x <= Max4(c1, c2, c3, c4)
  {
  }

  lemma RealBetweenCorners(x: real, y: real, z: real, c1: real, c2: real, c3: real, c4: real)
    requires RMin(y, z) <= x <= RMax(y, z)
    requires RMin(c1, c3) <= y <= RMax(c1, c3) && RMin(c2, c4) <= z <= RMax(c2, c4)
    ensures RMin4(c1, c2, c3, c4) <= x <= RMax4(c1, c2, c3, c4)
  {
  }

  lemma RealMulMonotone(x: real, y: real, k: real)
    requires x <= y && k >= 0.0
    ensures x * k <= y * k
  {
  }

  lemma RealMulBetween(x: real, lo: real, hi: real, k: real)
    requires lo <= x <= hi
    ensures RMin(lo * k, hi * k) <= x * k <= RMax(lo * k, hi * k)
  {
    if k >= 0.0 {
      RealMulMonotone(lo, x, k);
      RealMulMonotone(x, hi, k);
    } else {
      RealMulMonotone(lo, x, -k);
      RealMulMonotone(x, hi, -k);
    }
  }

  lemma RealMulCorners(a: real, b: real, l1: real, h1: real, l2: real, h2: real)
    requires l1 <= a <= h1 && l2 <= b <= h2
    ensures RealCorners(l1, h1, l2, h2).0 <= a * b <= RealCorners(l1, h1, l2, h2).1
  {
    RealMulBetween(b, l2, h2, a);
    RealMulBetween(a, l1, h1, l2);
    RealMulBetween(a, l1, h1, h2);
    RealBetweenCorners(b * a, l2 * a, h2 * a, l1 * l2, l1 * h2, h1 * l2, h1 * h2);
  }

  lemma DivAsMul(a: real, b: real)
    requires b != 0.0
    ensures a / b == a * (1.0 / b)
  {
  }

  lemma InverseAntitone(x: real, y: real)
    requires x <= y && (x > 0.0 || y < 0.0)
    ensures 1.0 / y <= 1.0 / x
  {
    var p := x * y;
    if x > 0.0 {
      RealMulMonotone(0.0, y, x);
      assert p > 0.0;
    }
    assert p > 0.0;
    assert 1.0 / y == x / p;
    assert 1.0 / x == y / p;
    DivMonotone(x, y, p);
  }

  lemma DivMonotone(x: real, y: real, p: real)
    requires x <= y && p > 0.0
    ensures x / p <= y / p
  {
  }

  // A quotient by a divisor from an interval without zero lies between the corners.
  lemma DivInCorners(a: real, b: real, l1: real, h1: real, l2: real, h2: real)
    requires l1 <= a <= h1 && l2 <= b <= h2 && (l2 > 0.0 || h2 < 0.0)
    ensures DivCorners(l1, h1, l2, h2).0 <= a / b <= DivCorners(l1, h1, l2, h2).1
  {
    InverseAntitone(l2, b);
    InverseAntitone(b, h2);
    DivAsMul(a, b);
    var v := 1.0 / b;
    assert a / b == a * v;
    RealMulCorners(a, v, l1, h1, 1.0 / h2, 1.0 / l2);
  }

  lemma TruncMonotone(x: real, y: real)
    requires x <= y
    ensures Trunc(x) <= Trunc(y)
  {
  }

  lemma QuotInCorners(a: int, b: int, l1: int, h1: int, l2: int, h2: int)
    requires l1 <= a <= h1 && l2 <= b <= h2 && (l2 > 0 || h2 < 0)
    ensures var (lo, hi) := DivCorners(l1 as real, h1 as real, l2 as real, h2 as real);
            Trunc(lo) <= Quot(a, b) <= Trunc(hi)
  {
    DivInCorners(a as real, b as real, l1 as real, h1 as real, l2 as real, h2 as real);
    var (lo, hi) := DivCorners(l1 as real, h1 as real, l2 as real, h2 as real);
    TruncMonotone(lo, a as real / b as real);
    TruncMonotone(a as real / b as real, hi);
  }

  lemma FloorQuotient(a: int, b: int)
    requires b > 0
    ensures var k := (a as real / b as real).Floor; k * b <= a < k * b + b
  {
    var q := a as real / b as real;
    var k := q.Floor;
    DivTimes(a as real, b as real);
    RealOfProduct(k, b);
    TimesAbove(k as real, q, b as real, a as real, (k * b) as real);
    TimesBelow(k as real, q, b as real, a as real, (k * b) as real);
    FromReals(a, b, k * b);
  }

  lemma FromReals(a: int, b: int, p: int)
    requires p as real <= a as real < p as real + b as real
    ensures p <= a < p + b
  {
    assert p as real + b as real == (p + b) as real;
  }

  lemma RealOfProduct(k: int, b: int)
    ensures (k * b) as real == k as real * b as real
  {
  }

  lemma TimesAbove(f: real, q: real, b: real, a: real, y: real)
    requires f <= q && b > 0.0 && q * b == a && y == f * b
    ensures y <= a
  {
    RealMulMonotone(f, q, b);
  }

  lemma TimesBelow(f: real, q: real, b: real, a: real, y: real)
    requires q < f + 1.0 && b > 0.0 && q * b == a && y == f * b
    ensures a < y + b
  {
    var d := f + 1.0 - q;
    assert d > 0.0;
    var p := d * b;
    assert p > 0.0;
    assert p == y + b - a;
  }

  lemma DivTimes(a: real, b: real)
    requires b != 0.0
    ensures (a / b) * b == a
  {
  }

  lemma {:induction false} Pow2Monotone(a: nat, b: nat)
    requires a <= b
    ensures Pow2(a) <= Pow2(b)
    decreases b
  {
    if a == b {
    } else {
      Pow2Monotone(a, b - 1);
    }
  }

  // Shifting right by more moves a number towards 0 or -1.
  lemma {:induction false} ShiftRightBetween(x: int, l: nat, s: nat, h: nat)
    requires l <= s <= h
    ensures MinOf(x / Pow2(l), x / Pow2(h)) <= x / Pow2(s) <= MaxOf(x / Pow2(l), x / Pow2(h))
  {
    ShiftRightOrder(x, l, s);
    ShiftRightOrder(x, s, h);
  }

  lemma {:induction false} ShiftRightOrder(x: int, l: nat, s: nat)
    requires l <= s
    ensures x >= 0 ==> 0 <= x / Pow2(s) <= x / Pow2(l)
    ensures x < 0 ==> x / Pow2(l) <= x / Pow2(s) < 0
    decreases s
  {
    if l < s {
      ShiftRightOrder(x, l, s - 1);
      HalveQuotient(x, Pow2(s - 1));
    } else {
      QuotientSign(x, Pow2(s));
    }
  }

  lemma ShiftRightCorners(a: int, s: nat, l1: int, h1: int, l2: nat, h2: nat)
    requires l1 <= a <= h1 && l2 <= s <= h2
    ensures ShiftCorners(l1, h1, l2, h2).0 <= a / Pow2(s) <= ShiftCorners(l1, h1, l2, h2).1
  {
    ShiftRightBetween(l1, l2, s, h2);
    ShiftRightBetween(h1, l2, s, h2);
    QuotientMonotone(l1, a, Pow2(s));
    QuotientMonotone(a, h1, Pow2(s));
  }

  lemma ShiftLeftCorners(a: int, s: nat, l1: int, h1: int, l2: nat, h2: nat)
    requires l1 <= a <= h1 && l2 <= s <= h2
    ensures Corners(l1, h1, Pow2(l2), Pow2(h2)).0 <= a * Pow2(s) <= Corners(l1, h1, Pow2(l2), Pow2(h2)).1
  {
    Pow2Monotone(l2, s);
    Pow2Monotone(s, h2);
    MulCorners(a, Pow2(s), l1, h1, Pow2(l2), Pow2(h2));
  }
}

/** Truncating quotients and remainders by magnitude, and when the Mod rule of interval arithmetic is a bound
    (LibKernelExpr/src/IndexExpr/IndexExpr.cpp, computeBinopBounds). */
module RemainderBounds {
  import opened Arithmetic
  import opened IndexExprs
  import opened Bounds
  import opened BoundsArithmetic

  function Mag(a: int): nat {
    if a >= 0 then a else -a
  }

  lemma QuotOfNat(a: int, b: int)
    requires a >= 0 && b > 0
    ensures Quot(a, b) == a / b && Rem(a, b) == a % b
  {
    FloorQuotient(a, b);
    var k := Quot(a, b);
    assert k * b == b * k;
    QuotientIs(a, b, k, a - b * k);
    assert a == b * (a / b) + a % b;
  }

  lemma TruncOdd(x: real)
    ensures Trunc(-x) == -Trunc(x)
  {
  }

  lemma NegatedDividend(x: real, y: real)
    requires y != 0.0
    ensures (-x) / y == -(x / y) && x / (-y) == -(x / y)
  {
  }

  lemma QuotSigns(a: int, b: int)
    requires b != 0
    ensures Quot(-a, b) == -Quot(a, b) && Quot(a, -b) == -Quot(a, b)
  {
    var x, y := a as real, b as real;
    assert (-a) as real == -x && (-b) as real == -y;
    NegatedDividend(x, y);
    TruncOdd(x / y);
  }

  // The quotient of the magnitudes, negative when exactly one operand is.
  lemma QuotByMag(a: int, b: int)
    requires b != 0
    ensures Quot(a, b) == if a >= 0 <==> b > 0 then Mag(a) / Mag(b) else -(Mag(a) / Mag(b))
  {
    QuotOfNat(Mag(a), Mag(b));
    QuotSigns(Mag(a), Mag(b));
    QuotSigns(Mag(a), b);
  }

  // The remainder of the magnitudes, with the sign of the dividend.
  lemma RemByMag(a: int, b: int)
    requires b != 0
    ensures Rem(a, b) == if a >= 0 then Mag(a) % Mag(b) else -(Mag(a) % Mag(b))
  {
    QuotByMag(a, b);
    Division(Mag(a), Mag(b));
    var q := Mag(a) / Mag(b);
    assert b * q == if b > 0 then Mag(b) * q else -(Mag(b) * q);
    assert b * -q == -(b * q);
  }

  // How far a remainder can be from zero.
  lemma RemSpan(a: int, b: int)
    requires b != 0
    ensures a >= 0 ==> 0 <= Rem(a, b) <= a && Rem(a, b) < Mag(b)
    ensures a < 0 ==> a <= Rem(a, b) <= 0 && 0 < Rem(a, b) + Mag(b)
    ensures Mag(a) < Mag(b) ==> Rem(a, b) == a
  {
    RemByMag(a, b);
    ModSmall(Mag(a), Mag(b));
  }

  lemma ModSmall(x: nat, m: nat)
    requires m > 0
    ensures x % m <= x && x % m < m && (x < m ==> x % m == x)
  {
    if x < m {
      ModIs(x, m, 0, x);
    }
  }

  // ---- The Mod rule ----

  // The rule gives bounds, and this remainder lies within them.
  predicate ModInside(a: int, b: int, l1: int, h1: int, l2: int, h2: int)
    requires b != 0
  {
    var r := LongBounds(Mod, l1, h1, l2, h2);
    r.Some? && r.value.0 <= Rem(a, b) <= r.value.1
  }

  // The same for a remainder r, without the evaluation.
  predicate RuleCovers(r: int, l1: int, h1: int, l2: int, h2: int) {
    var lo, hi := if h1 >= l2 then 0 else l1, if h1 >= h2 then h2 - 1 else h1;
    lo <= r <= hi
  }

  lemma InsideIsCovered(a: int, b: int, l1: int, h1: int, l2: int, h2: int)
    requires b != 0 && l1 <= h1 && l2 <= h2
    ensures ModInside(a, b, l1, h1, l2, h2) <==> RuleCovers(Rem(a, b), l1, h1, l2, h2)
  {
  }

  // Modulo d the numbers of [l1, h1] do not wrap around, and stay below h2.
  predicate OnePeriod(l1: int, h1: int, d: int, h2: int)
    requires d > 0
  {
    l1 / d == h1 / d && h1 % d < h2
  }

  // What a caller can test of the two intervals.
  predicate ModApplies(l1: int, h1: int, l2: int, h2: int) {
    if l2 > 0 then l1 >= 0 || 0 <= h1 < l2 || (h1 < 0 && -l1 < l2) || (h1 >= l2 && h2 == 1)
    else if h2 <= 0 then false
    else if h2 == 1 && l2 >= -1 then h1 >= 0
    else l1 >= 0 && forall d: int :: h2 < d <= -l2 ==> OnePeriod(l1, h1, d, h2)
  }

  /** The Mod rule bounds all remainders of two intervals exactly when ModApplies says so. */
  lemma ModCornersExact(l1: int, h1: int, l2: int, h2: int)
    requires l1 <= h1 && l2 <= h2 && (l2 != 0 || h2 != 0)
    ensures (forall a: int, b: int :: l1 <= a <= h1 && l2 <= b <= h2 && b != 0 ==> ModInside(a, b, l1, h1, l2, h2))
      <==> ModApplies(l1, h1, l2, h2)
  {
    if ModApplies(l1, h1, l2, h2) {
      forall a: int, b: int | l1 <= a <= h1 && l2 <= b <= h2 && b != 0
        ensures ModInside(a, b, l1, h1, l2, h2)
      {
        ModIsBound(a, b, l1, h1, l2, h2);
      }
    } else {
      var a, b := ModWitness(l1, h1, l2, h2);
      assert !ModInside(a, b, l1, h1, l2, h2);
    }
  }

  lemma ModIsBound(a: int, b: int, l1: int, h1: int, l2: int, h2: int)
    requires l1 <= a <= h1 && l2 <= b <= h2 && b != 0 && ModApplies(l1, h1, l2, h2)
    ensures ModInside(a, b, l1, h1, l2, h2)
  {
    InsideIsCovered(a, b, l1, h1, l2, h2);
    RemSpan(a, b);
    var r := Rem(a, b);
    if l2 <= 0 && l1 >= 0 && Mag(b) > h2 && !(h2 == 1 && l2 >= -1) {
      assert OnePeriod(l1, h1, Mag(b), h2);
      WithinPeriod(a, l1, h1, Mag(b));
      RemByMag(a, b);
    }
    Covered(a, b, r, l1, h1, l2, h2);
  }

  lemma Covered(a: int, b: int, r: int, l1: int, h1: int, l2: int, h2: int)
    requires l1 <= a <= h1 && l2 <= b <= h2 && b != 0 && ModApplies(l1, h1, l2, h2)
    requires if a >= 0 then 0 <= r <= a && r < Mag(b) else a <= r <= 0 && 0 < r + Mag(b)
    requires Mag(a) < Mag(b) ==> r == a
    requires l2 <= 0 && l1 >= 0 && Mag(b) > h2 && !(h2 == 1 && l2 >= -1) ==> r < h2
    ensures RuleCovers(r, l1, h1, l2, h2)
  {
  }

  lemma WithinPeriod(a: int, l: int, h: int, d: int)
    requires d > 0 && l <= a <= h && l / d == h / d
    ensures a % d <= h % d
  {
    QuotientMonotone(l, a, d);
    QuotientMonotone(a, h, d);
    Division(a, d);
    Division(h, d);
  }

  // Operands of the intervals whose remainder the rule misses.
  lemma ModWitness(l1: int, h1: int, l2: int, h2: int) returns (a: int, b: int)
    requires l1 <= h1 && l2 <= h2 && (l2 != 0 || h2 != 0) && !ModApplies(l1, h1, l2, h2)
    ensures l1 <= a <= h1 && l2 <= b <= h2 && b != 0 && !ModInside(a, b, l1, h1, l2, h2)
  {
    if l2 > 0 {
      a, b := PositiveDivisorWitness(l1, h1, l2, h2);
    } else {
      a, b := MixedDivisorWitness(l1, h1, l2, h2);
    }
    InsideIsCovered(a, b, l1, h1, l2, h2);
  }

  lemma PositiveDivisorWitness(l1: int, h1: int, l2: int, h2: int) returns (a: int, b: int)
    requires l1 <= h1 && 0 < l2 <= h2 && !ModApplies(l1, h1, l2, h2)
    ensures l1 <= a <= h1 && l2 <= b <= h2 && !RuleCovers(Rem(a, b), l1, h1, l2, h2)
  {
    if h1 >= l2 {
      a, b := -1, h2;
      RemSpan(a, b);
    } else if -l2 <= h1 {
      a, b := -l2, l2;
      RemByMag(a, b);
      ModIs(l2, l2, 1, 0);
    } else {
      a, b := h1, l2;
      RemSpan(a, b);
    }
  }

  lemma MixedDivisorWitness(l1: int, h1: int, l2: int, h2: int) returns (a: int, b: int)
    requires l1 <= h1 && l2 <= 0 && l2 <= h2 && (l2 != 0 || h2 != 0) && !ModApplies(l1, h1, l2, h2)
    ensures l1 <= a <= h1 && l2 <= b <= h2 && b != 0 && !RuleCovers(Rem(a, b), l1, h1, l2, h2)
  {
    if h2 <= 0 {
      a, b := h1, l2;
      RemSpan(a, b);
    } else if l1 < 0 {
      if h1 < 0 {
        a, b := h1, 1;
      } else {
        a, b := -1, if h2 >= 2 then h2 else l2;
      }
      RemSpan(a, b);
    } else {
      var d: int :| h2 < d <= -l2 && !OnePeriod(l1, h1, d, h2);
      a := PeriodWitness(l1, h1, d, h2);
      b := -d;
      RemByMag(a, b);
    }
  }

  lemma PeriodWitness(l: int, h: int, d: int, h2: int) returns (a: int)
    requires 0 <= l <= h && 0 < h2 < d && !OnePeriod(l, h, d, h2)
    ensures l <= a <= h && a % d >= h2 && h >= h2
  {
    Division(l, d);
    Division(h, d);
    QuotientMonotone(l, h, d);
    ModSmall(h, d);
    if h % d >= h2 {
      a := h;
    } else {
      a := d * (h / d) - 1;
      MulMonotone(l / d + 1, h / d, d);
      assert d * (h / d - 1) == d * (h / d) - d;
      ModIs(a, d, h / d - 1, d - 1);
    }
  }
}

/** When a comparison keeps its truth as a factor, a divisor or a dividend moves from the side of the id to the
    other one (AnalysisPass/src/ConditionBuilder.cpp, the Mul and Div cases of normalizeOCLCondition). */
module ScaledConditions {
  import opened Arithmetic
  import opened IndexExprs
  import opened Bounds
  import opened RemainderBounds

  // ---- x * m compared with e becomes x compared with e / m ----

  predicate MulAgrees(p: Predicate, e: int, m: int, x: int)
    requires m != 0
  {
    Compare(p, x * m, e) <==> Compare(p, x, Quot(e, m))
  }

  predicate MulKept(p: Predicate, e: int, m: int)
    requires m != 0
  {
    if m > 0 then Rem(e, m) == 0 || (p in {LT, GE} && e <= 0) || (p in {LE, GT} && e >= 0)
    else p in {EQ, NEQ} && Rem(e, m) == 0
  }

  /** Dividing both sides by m keeps the truth for every id exactly when MulKept says so. */
  lemma MulExact(p: Predicate, e: int, m: int)
    requires m != 0
    ensures (forall x: int :: MulAgrees(p, e, m, x)) <==> MulKept(p, e, m)
  {
    if MulKept(p, e, m) {
      forall x: int ensures MulAgrees(p, e, m, x) {
        MulAgreement(p, e, m, x);
      }
    } else {
      var q := Quot(e, m);
      if m < 0 && p !in {EQ, NEQ} {
        var x := Mag(q) + Mag(e) + 1;
        MulMonotone(m, -1, x);
        assert !MulAgrees(p, e, m, x);
      } else {
        RemSpan(e, m);
        assert !MulAgrees(p, e, m, q);
      }
    }
  }

  lemma MulAgreement(p: Predicate, e: int, m: int, x: int)
    requires m != 0 && MulKept(p, e, m)
    ensures MulAgrees(p, e, m, x)
  {
    RemSpan(e, m);
    var q := Quot(e, m);
    Products(x, q, m);
  }

  lemma Products(x: int, q: int, m: int)
    requires m != 0
    ensures m > 0 && x < q ==> x * m <= q * m - m
    ensures m > 0 && x > q ==> x * m >= q * m + m
    ensures x * m == q * m <==> x == q
  {
    var d := x - q;
    assert x * m == q * m + d * m;
    if d > 0 && m > 0 {
      MulMonotone(1, d, m);
    }
    if d < 0 && m > 0 {
      MulMonotone(1, -d, m);
    }
  }

  // ---- x / m compared with e becomes x compared with e * m ----

  predicate DivAgrees(p: Predicate, e: int, m: int, x: int)
    requires m != 0
  {
    Compare(p, Quot(x, m), e) <==> Compare(p, x, e * m)
  }

  predicate DivKept(p: Predicate, e: int, m: int) {
    m == 1 || (m > 0 && p in {LT, GE} && e > 0) || (m > 0 && p in {LE, GT} && e < 0) || (m == -1 && p in {EQ, NEQ})
  }

  /** Multiplying both sides by m keeps the truth for every id exactly when DivKept says so. */
  lemma DivExact(p: Predicate, e: int, m: int)
    requires m != 0
    ensures (forall x: int :: DivAgrees(p, e, m, x)) <==> DivKept(p, e, m)
  {
    if DivKept(p, e, m) {
      forall x: int ensures DivAgrees(p, e, m, x) {
        DivAgreement(p, e, m, x);
      }
    } else {
      var x := DivWitness(p, e, m);
      assert !DivAgrees(p, e, m, x);
    }
  }

  lemma DivAgreement(p: Predicate, e: int, m: int, x: int)
    requires m != 0 && DivKept(p, e, m)
    ensures DivAgrees(p, e, m, x)
  {
    if m in {1, -1} {
      UnitDivisor(e, m, x);
    } else {
      DivOrder(e, m, x);
    }
  }

  lemma DivOrder(e: int, m: int, x: int)
    requires m > 0
    ensures e > 0 ==> (Quot(x, m) < e <==> x < e * m)
    ensures e < 0 ==> (Quot(x, m) <= e <==> x <= e * m)
  {
    var k, r := Quot(x, m), Rem(x, m);
    RemSpan(x, m);
    Products(k, e, m);
    Products(k, 0, m);
    QuotientOrder(x, k, r, m, e, k * m, e * m);
  }

  lemma UnitDivisor(e: int, m: int, x: int)
    requires m in {1, -1}
    ensures Quot(x, m) == (if m == 1 then x else -x) && e * m == if m == 1 then e else -e
  {
  }

  // Comparing a truncated quotient k of x with e, against comparing x with the multiple em of the divisor m.
  lemma QuotientOrder(x: int, k: int, r: int, m: int, e: int, km: int, em: int)
    requires m > 0 && x == km + r && -m < r < m && (x >= 0 ==> r >= 0) && (x < 0 ==> r <= 0)
    requires (k < e ==> km <= em - m) && (k > e ==> km >= em + m) && (k == e ==> km == em)
    requires (k > 0 ==> km >= m) && (k < 0 ==> km <= -m)
    ensures e > 0 ==> (k < e <==> x < em)
    ensures e < 0 ==> (k <= e <==> x <= em)
  {
  }

  lemma DivWitness(p: Predicate, e: int, m: int) returns (x: int)
    requires m != 0 && !DivKept(p, e, m)
    ensures !DivAgrees(p, e, m, x)
  {
    if m < 0 && p !in {EQ, NEQ} {
      x := (Mag(e) + 1) * -m;
      QuotOfMultiple(Mag(e) + 1, -m, 0);
      QuotSigns(x, -m);
      Magnified(e, m);
    } else {
      var s := if p in {LT, GE} then -1 else if p in {LE, GT} then 1 else if e * m < 0 then -1 else 1;
      x := e * m + s;
      BesideMultiple(e, m, s);
    }
  }

  lemma Magnified(e: int, m: int)
    requires m < 0
    ensures (Mag(e) + 1) * -m > e * m
  {
    MulMonotone(-e, Mag(e), -m);
    assert -e * -m == e * m;
    assert (Mag(e) + 1) * -m == Mag(e) * -m - m;
  }

  lemma QuotOfMultiple(e: nat, m: nat, s: nat)
    requires s < m
    ensures Quot(e * m + s, m) == e
  {
    assert e * m == m * e;
    QuotOfNat(e * m + s, m);
    QuotientIs(e * m + s, m, e, s);
  }

  // One further from zero than a multiple of m the quotient is still the same.
  lemma BesideMultiple(e: int, m: int, s: int)
    requires Mag(m) > 1 && s in {-1, 1} && (s > 0 ==> e * m >= 0) && (s < 0 ==> e * m <= 0)
    ensures Quot(e * m + s, m) == e
  {
    MagProduct(e, m);
    var em := e * m;
    var x := em + s;
    assert Mag(x) == Mag(em) + 1;
    MagQuotient(e, m);
    QuotByMag(x, m);
  }

  lemma MagQuotient(e: int, m: int)
    requires Mag(m) > 1
    ensures (Mag(e) * Mag(m) + 1) / Mag(m) == Mag(e)
  {
    assert Mag(e) * Mag(m) == Mag(m) * Mag(e);
    QuotientIs(Mag(e) * Mag(m) + 1, Mag(m), Mag(e), 1);
  }

  lemma MagProduct(a: int, b: int)
    ensures Mag(a * b) == Mag(a) * Mag(b)
    ensures b != 0 ==> (a * b > 0 <==> (a > 0 && b > 0) || (a < 0 && b < 0)) && (a * b == 0 <==> a == 0)
  {
    if a > 0 && b > 0 { MulMonotone(1, a, b); }
    if a > 0 && b < 0 { MulMonotone(1, a, -b); }
    if a < 0 && b > 0 { MulMonotone(1, -a, b); }
    if a < 0 && b < 0 { MulMonotone(1, -a, -b); }
  }

  // ---- c / x compared with e becomes c / e compared with x ----

  predicate DividendAgrees(p: Predicate, c: int, e: int, x: int)
    requires e != 0 && x != 0
  {
    Compare(p, Quot(c, x), e) <==> Compare(p, Quot(c, e), x)
  }

  // Only equalities can be kept: when no id gives the quotient e, or exactly one does.
  predicate DividendKept(p: Predicate, c: int, e: int)
    requires e != 0
  {
    p in {EQ, NEQ} && (Mag(c) < Mag(e) || Mag(c) / Mag(e) == Mag(c) / (Mag(e) + 1) + 1)
  }

  /** Moving a dividend keeps the truth for every id but zero exactly when DividendKept says so. */
  lemma DividendExact(p: Predicate, c: int, e: int)
    requires e != 0
    ensures (forall x: int :: x != 0 ==> DividendAgrees(p, c, e, x)) <==> DividendKept(p, c, e)
  {
    if DividendKept(p, c, e) {
      forall x: int | x != 0 ensures DividendAgrees(p, c, e, x) {
        DividendAgreement(p, c, e, x);
      }
    } else {
      var x := DividendWitness(p, c, e);
      assert !DividendAgrees(p, c, e, x);
    }
  }

  // How often x goes into a, and how often its quotient does.
  lemma Swap(a: nat, x: nat, e: nat)
    requires x > 0 && e > 0
    ensures a / x >= e <==> a / e >= x
  {
    Division(a, x);
    Division(a, e);
    if a / x >= e {
      MulMonotone(e, a / x, x);
      QuotientMonotone(x * e, a, e);
      QuotientIs(x * e, e, x, 0);
    }
    if a / e >= x {
      MulMonotone(x, a / e, e);
      QuotientMonotone(e * x, a, x);
      QuotientIs(e * x, x, e, 0);
    }
  }

  // The ids with quotient e, by magnitude.
  lemma QuotientEqual(c: int, e: int, x: int)
    requires e != 0 && x != 0
    ensures Quot(c, x) == e <==>
      Mag(c) / (Mag(e) + 1) < Mag(x) <= Mag(c) / Mag(e) && (e > 0 <==> (c >= 0 <==> x > 0))
  {
    QuotByMag(c, x);
    Swap(Mag(c), Mag(x), Mag(e));
    Swap(Mag(c), Mag(x), Mag(e) + 1);
  }

  lemma DividendAgreement(p: Predicate, c: int, e: int, x: int)
    requires e != 0 && x != 0 && DividendKept(p, c, e)
    ensures DividendAgrees(p, c, e, x)
  {
    QuotientEqual(c, e, x);
    QuotByMag(c, e);
    QuotientSign(Mag(c), Mag(e) + 1);
    if Mag(c) < Mag(e) {
      QuotientIs(Mag(c), Mag(e), 0, Mag(c));
    }
  }

  lemma DividendWitness(p: Predicate, c: int, e: int) returns (x: int)
    requires e != 0 && !DividendKept(p, c, e)
    ensures x != 0 && !DividendAgrees(p, c, e, x)
  {
    var q := Quot(c, e);
    if p !in {EQ, NEQ} {
      x := Mag(c) + Mag(q) + 1;
      QuotByMag(c, x);
      QuotByMag(c, -x);
      QuotientIs(Mag(c), x, 0, Mag(c));
      if DividendAgrees(p, c, e, x) {
        x := -x;
      }
    } else {
      DividendEqualities(c, e);
      QuotByMag(c, e);
      x := if Mag(c) / Mag(e) == Mag(c) / (Mag(e) + 1) then q else if q > 0 then q - 1 else q + 1;
      QuotientEqual(c, e, x);
    }
  }

  // With at least one, and not exactly one, quotient between, the ends are not one apart.
  lemma DividendEqualities(c: int, e: int)
    requires e != 0 && Mag(c) >= Mag(e)
    ensures Mag(c) / Mag(e) >= 1 && 0 <= Mag(c) / (Mag(e) + 1) <= Mag(c) / Mag(e)
  {
    var a, m := Mag(c), Mag(e);
    QuotientMonotone(m, a, m);
    QuotientIs(m, m, 1, 0);
    QuotientSign(a, m + 1);
    Division(a, m + 1);
    var k := a / (m + 1);
    assert (m + 1) * k == m * k + k;
    QuotientMonotone(m * k, a, m);
    QuotientIs(m * k, m, k, 0);
  }
}

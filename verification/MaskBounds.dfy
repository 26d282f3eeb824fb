/** The And, Or and Xor rules of the interval evaluation on non-negative operands and a constant mask 2^k - 1
    (LibKernelExpr/src/IndexExpr/IndexExpr.cpp): what they bound, and exactly when. */
module MaskBounds {
  import opened IndexExprs
  import opened Bounds
  import opened Arithmetic
  import opened KernelExprs
  import opened KernelExprsSoundness

  // ---- The operators on a mask ----

  lemma {:induction false} OpZero(x: int)
    requires x >= 0
    ensures BitOp(And, x, 0) == 0 && BitOp(Or, x, 0) == x && BitOp(Xor, x, 0) == x
    decreases x
  {
    if x > 0 {
      OpZero(x / 2);
    }
  }

  // The low half of an even modulus.
  lemma RemHalf(x: nat, n: nat)
    requires n > 0
    ensures x % (2 * n) == 2 * (x / 2 % n) + x % 2
  {
    var q, r := x / 2 / n, x / 2 % n;
    Division(x / 2, n);
    assert 2 * n * q == 2 * (n * q);
    ModIs(x, 2 * n, q, 2 * r + x % 2);
  }

  // What a mask m - 1 does to x: it keeps, sets or complements the remainder.
  function Masked(op: BinOp, x: nat, m: nat): int
    requires m > 0
  {
    match op
    case And => x % m
    case Or => x - x % m + (m - 1)
    case _ => x - x % m + (m - 1 - x % m)
  }

  lemma MaskedHalf(op: BinOp, x: nat, n: nat)
    requires op in {And, Or, Xor} && n > 0
    ensures Masked(op, x, 2 * n) == 2 * Masked(op, x / 2, n) + Bit(op, x % 2, 1)
  {
    RemHalf(x, n);
  }

  lemma MaskStep(op: BinOp, x: nat, n: nat)
    requires op in {And, Or, Xor} && n > 0
    ensures BitOp(op, x, 2 * n - 1) == 2 * BitOp(op, x / 2, n - 1) + Bit(op, x % 2, 1)
  {
    assert (2 * n - 1) / 2 == n - 1 && (2 * n - 1) % 2 == 1;
  }

  lemma {:induction false} OpMask(op: BinOp, k: nat, x: nat)
    requires op in {And, Or, Xor}
    ensures BitOp(op, x, Pow2(k) - 1) == Masked(op, x, Pow2(k))
    decreases k
  {
    if k == 0 {
      OpZero(x);
    } else {
      OpMask(op, k - 1, x / 2);
      MaskDoubles(op, x, Pow2(k - 1));
    }
  }

  lemma MaskDoubles(op: BinOp, x: nat, n: nat)
    requires op in {And, Or, Xor} && n > 0 && BitOp(op, x / 2, n - 1) == Masked(op, x / 2, n)
    ensures BitOp(op, x, 2 * n - 1) == Masked(op, x, 2 * n)
  {
    MaskedHalf(op, x, n);
    MaskStep(op, x, n);
  }

  // ---- The rules ----

  predicate Between(op: BinOp, l: nat, x: nat, h: nat, mask: int)
    requires op in {And, Or, Xor}
  {
    BitOp(op, l, mask) <= BitOp(op, x, mask) <= BitOp(op, h, mask)
  }

  // The values of the ends bound all values, as the rule has it.
  ghost predicate EndsBound(op: BinOp, l: nat, h: nat, mask: int)
    requires op in {And, Or, Xor}
  {
    forall x: nat :: l <= x <= h ==> Between(op, l, x, h, mask)
  }

  predicate Inside(op: BinOp, x: nat, mask: int, b: (int, int))
    requires op in {And, Or, Xor}
  {
    b.0 <= BitOp(op, x, mask) <= b.1
  }

  // The interval evaluation gives bounds, and they hold every value.
  ghost predicate RuleHolds(op: BinOp, l: nat, h: nat, mask: int)
    requires op in {And, Or, Xor}
  {
    var b := LongBounds(op, l, h, mask, mask);
    b.Some? && forall x: nat :: l <= x <= h ==> Inside(op, x, mask, b.value)
  }

  lemma RuleIsEnds(op: BinOp, l: nat, h: nat, mask: int)
    requires op in {And, Or, Xor} && l <= h
    ensures RuleHolds(op, l, h, mask) <==> EndsBound(op, l, h, mask)
  {
    var b := (BitOp(op, l, mask), BitOp(op, h, mask));
    forall x: nat ensures Inside(op, x, mask, b) <==> Between(op, l, x, h, mask) {
    }
    assert EndsBound(op, l, h, mask) ==> Between(op, l, l, h, mask);
  }

  lemma BetweenMasked(op: BinOp, k: nat, l: nat, x: nat, h: nat)
    requires op in {And, Or, Xor}
    ensures Between(op, l, x, h, Pow2(k) - 1) <==>
      Masked(op, l, Pow2(k)) <= Masked(op, x, Pow2(k)) <= Masked(op, h, Pow2(k))
  {
    OpMask(op, k, l);
    OpMask(op, k, x);
    OpMask(op, k, h);
  }

  /** And with a mask: the rule is a bound exactly when the operand stays within one block of 2^k or is made of whole
      ones. */
  lemma AndMaskExact(k: nat, l: nat, h: nat)
    requires l <= h
    ensures RuleHolds(And, l, h, Pow2(k) - 1) <==> LocalsInOrder(Span(l, h), Pow2(k))
  {
    var mask := Pow2(k) - 1;
    RuleIsEnds(And, l, h, mask);
    if LocalsInOrder(Span(l, h), Pow2(k)) {
      forall x: nat | l <= x <= h ensures Between(And, l, x, h, mask) {
        LocalInOrder(Span(l, h), Pow2(k), x);
        BetweenMasked(And, k, l, x, h);
      }
    } else {
      AndMissed(k, l, h, mask);
    }
  }

  lemma AndMissed(k: nat, l: nat, h: nat, mask: int)
    requires l <= h && mask == Pow2(k) - 1 && !LocalsInOrder(Span(l, h), Pow2(k))
    ensures exists x: nat :: l <= x <= h && !Between(And, l, x, h, mask)
  {
    LocalOutOfOrder(Span(l, h), Pow2(k));
    var x: int :| In(x, Span(l, h)) && !(l % Pow2(k) <= x % Pow2(k) <= h % Pow2(k));
    BetweenMasked(And, k, l, x, h);
    assert !Between(And, l, x, h, mask);
  }

  // The block of m numbers that holds x starts no later than that of y.
  lemma BlockGrows(x: nat, y: nat, m: nat)
    requires m > 0 && x <= y
    ensures x - x % m <= y - y % m
  {
    Division(x, m);
    Division(y, m);
    QuotientMonotone(x, y, m);
    MulMonotone(x / m, y / m, m);
  }

  /** Or with a mask: the rule is always a bound. */
  lemma OrMaskBound(k: nat, l: nat, h: nat)
    requires l <= h
    ensures RuleHolds(Or, l, h, Pow2(k) - 1)
  {
    var mask := Pow2(k) - 1;
    RuleIsEnds(Or, l, h, mask);
    forall x: nat | l <= x <= h ensures Between(Or, l, x, h, mask) {
      BetweenMasked(Or, k, l, x, h);
      BlockGrows(l, x, Pow2(k));
      BlockGrows(x, h, Pow2(k));
    }
  }

  /** Xor with a mask: the rule is a bound exactly for a single value, and from the last of one block to the first of
      another. */
  lemma XorMaskExact(k: nat, l: nat, h: nat)
    requires l <= h
    ensures RuleHolds(Xor, l, h, Pow2(k) - 1) <==> l == h || (l % Pow2(k) == Pow2(k) - 1 && h % Pow2(k) == 0)
  {
    var m, mask := Pow2(k), Pow2(k) - 1;
    RuleIsEnds(Xor, l, h, mask);
    if l % m == m - 1 && h % m == 0 {
      forall x: nat | l <= x <= h ensures Between(Xor, l, x, h, mask) {
        BetweenMasked(Xor, k, l, x, h);
        BlockGrows(l, x, m);
        BlockGrows(x, h, m);
      }
    } else if l < h {
      XorMissed(k, l, h, mask);
    }
  }

  lemma XorMissed(k: nat, l: nat, h: nat, mask: int)
    requires l < h && mask == Pow2(k) - 1 && (l % Pow2(k) != mask || h % Pow2(k) != 0)
    ensures exists x: nat :: l <= x <= h && !Between(Xor, l, x, h, mask)
  {
    var m := Pow2(k);
    if l % m != mask {
      XorNext(l, m);
      BetweenMasked(Xor, k, l, l + 1, h);
      assert !Between(Xor, l, l + 1, h, mask);
    } else {
      XorNext(h - 1, m);
      BetweenMasked(Xor, k, l, h - 1, h);
      assert !Between(Xor, l, h - 1, h, mask);
    }
  }

  // From one value to the next within a block the result goes down.
  lemma XorNext(x: nat, m: nat)
    requires m > 0
    ensures x % m != m - 1 ==> Masked(Xor, x + 1, m) < Masked(Xor, x, m) && (x + 1) % m != 0
    ensures x % m == m - 1 ==> (x + 1) % m == 0
  {
    Division(x, m);
    if x % m == m - 1 {
      assert m * (x / m + 1) == m * (x / m) + m;
      ModIs(x + 1, m, x / m + 1, 0);
    } else {
      ModIs(x + 1, m, x / m, x % m + 1);
    }
  }
}

/** Interval evaluation is no wider than it has to be: the ends of the computed bounds are values of the expression
    (LibKernelExpr/src/IndexExpr/IndexExpr.cpp, computeBinopBounds and computeBoundsRec). */
module BoundsTightness {
  import opened Arithmetic
  import opened IndexExprs
  import opened Bounds
  import opened BoundsArithmetic
  import opened RemainderBounds
  import opened BoundsSoundness
  import opened Evaluation

  // ---- One operator ----

  // v is the value for an end of each interval.
  predicate AtEnds(op: BinOp, v: int, l1: int, h1: int, l2: int, h2: int) {
    || LongOp(op, l1, l2) == Some(v) || LongOp(op, l1, h2) == Some(v)
    || LongOp(op, h1, l2) == Some(v) || LongOp(op, h1, h2) == Some(v)
  }

  predicate RealAtEnds(op: BinOp, v: real, l1: real, h1: real, l2: real, h2: real) {
    || RealOp(op, l1, l2) == Some(v) || RealOp(op, l1, h2) == Some(v)
    || RealOp(op, h1, l2) == Some(v) || RealOp(op, h1, h2) == Some(v)
  }

  // The least and the greatest of four numbers are among them.
  lemma OneOfFour(c1: int, c2: int, c3: int, c4: int)
    ensures Min4(c1, c2, c3, c4) in {c1, c2, c3, c4} && Max4(c1, c2, c3, c4) in {c1, c2, c3, c4}
  {
  }

  lemma OneOfFourReals(c1: real, c2: real, c3: real, c4: real)
    ensures RMin4(c1, c2, c3, c4) in {c1, c2, c3, c4} && RMax4(c1, c2, c3, c4) in {c1, c2, c3, c4}
  {
  }

  lemma MulTight(l1: int, h1: int, l2: int, h2: int)
    ensures var (lo, hi) := Corners(l1, h1, l2, h2);
            && lo in {l1 * l2, l1 * h2, h1 * l2, h1 * h2}
            && hi in {l1 * l2, l1 * h2, h1 * l2, h1 * h2}
  {
    OneOfFour(l1 * l2, l1 * h2, h1 * l2, h1 * h2);
  }

  lemma RealMulTight(l1: real, h1: real, l2: real, h2: real)
    ensures var (lo, hi) := RealCorners(l1, h1, l2, h2);
            && lo in {l1 * l2, l1 * h2, h1 * l2, h1 * h2}
            && hi in {l1 * l2, l1 * h2, h1 * l2, h1 * h2}
  {
    OneOfFourReals(l1 * l2, l1 * h2, h1 * l2, h1 * h2);
  }

  lemma RealMulEnds(l1: real, h1: real, l2: real, h2: real)
    ensures var (lo, hi) := RealCorners(l1, h1, l2, h2); RealAtEnds(Mul, lo, l1, h1, l2, h2) && RealAtEnds(Mul, hi, l1, h1, l2, h2)
  {
    RealMulTight(l1, h1, l2, h2);
  }

  lemma RealDivEnds(l1: real, h1: real, l2: real, h2: real)
    requires l2 != 0.0 && h2 != 0.0
    ensures var (lo, hi) := DivCorners(l1, h1, l2, h2); RealAtEnds(Div, lo, l1, h1, l2, h2) && RealAtEnds(Div, hi, l1, h1, l2, h2)
  {
    var i, j := 1.0 / h2, 1.0 / l2;
    assert l1 / h2 == l1 * i && h1 / h2 == h1 * i by {
      DivAsMul(l1, h2);
      DivAsMul(h1, h2);
    }
    assert l1 / l2 == l1 * j && h1 / l2 == h1 * j by {
      DivAsMul(l1, l2);
      DivAsMul(h1, l2);
    }
    RealMulTight(l1, h1, i, j);
    assert DivCorners(l1, h1, l2, h2) == RealCorners(l1, h1, i, j);
  }

  // The truncated end of a real division is an integer quotient of two ends.
  lemma DivEnds(l1: int, h1: int, l2: int, h2: int)
    requires l1 <= h1 && l2 <= h2 && l2 != 0 && h2 != 0
    ensures var (lo, hi) := DivCorners(l1 as real, h1 as real, l2 as real, h2 as real);
            AtEnds(Div, Trunc(lo), l1, h1, l2, h2) && AtEnds(Div, Trunc(hi), l1, h1, l2, h2)
  {
    RealDivEnds(l1 as real, h1 as real, l2 as real, h2 as real);
  }

  /** Both ends of the bounds are values the operator takes on the operand intervals. */
  lemma LongBoundsTight(op: BinOp, l1: int, h1: int, l2: int, h2: int)
    requires op != Mod && LongBounds(op, l1, h1, l2, h2).Some?
    ensures AtEnds(op, LongBounds(op, l1, h1, l2, h2).value.0, l1, h1, l2, h2)
    ensures AtEnds(op, LongBounds(op, l1, h1, l2, h2).value.1, l1, h1, l2, h2)
  {
    match op
    case Mul => MulTight(l1, h1, l2, h2);
    case Div => DivEnds(l1, h1, l2, h2);
    case Shl => MulTight(l1, h1, Pow2(l2), Pow2(h2));
    case _ =>
  }

  lemma RealBoundsTight(op: BinOp, l1: real, h1: real, l2: real, h2: real)
    requires op != Mod && RealBounds(op, l1, h1, l2, h2).Some?
    ensures RealAtEnds(op, RealBounds(op, l1, h1, l2, h2).value.0, l1, h1, l2, h2)
    ensures RealAtEnds(op, RealBounds(op, l1, h1, l2, h2).value.1, l1, h1, l2, h2)
  {
    match op
    case Mul =>
      RealMulEnds(l1, h1, l2, h2);
      assert RealBounds(Mul, l1, h1, l2, h2).value == RealCorners(l1, h1, l2, h2);
    case Div =>
      RealDivEnds(l1, h1, l2, h2);
      assert RealBounds(Div, l1, h1, l2, h2).value == DivCorners(l1, h1, l2, h2);
    case _ =>
  }

  // ---- The Mod rule ----

  // r is the remainder of some operands of the intervals.
  ghost predicate Remains(r: int, l1: int, h1: int, l2: int, h2: int) {
    exists a: int, b: int :: l1 <= a <= h1 && l2 <= b <= h2 && b != 0 && Rem(a, b) == r
  }

  // The last multiple of b up to h.
  function LastMultiple(h: nat, b: nat): int
    requires b > 0
  {
    h / b * b
  }

  lemma LastMultipleIs(h: nat, b: nat, a: nat)
    requires b > 0
    ensures 0 <= LastMultiple(h, b) <= h && LastMultiple(h, b) % b == 0
    ensures a <= h && a % b == 0 ==> a <= LastMultiple(h, b)
  {
    Division(h, b);
    ModIs(LastMultiple(h, b), b, h / b, 0);
    if a <= h && a % b == 0 {
      Division(a, b);
      QuotientMonotone(a, h, b);
      MulMonotone(a / b, h / b, b);
    }
  }

  // The lower end is a remainder when no operand wraps around, or some divisor divides a dividend.
  predicate ModLowReached(l1: nat, h1: nat, l2: nat, h2: nat)
    requires 0 < l2
  {
    h1 < l2 || exists b :: l2 <= b <= h2 && l1 <= LastMultiple(h1, b)
  }

  // The upper end is a remainder when the greatest divisor is out of reach, or a dividend stands just before one of
  // its multiples.
  predicate ModHighReached(l1: nat, h1: nat, h2: nat)
    requires 0 < h2
  {
    h1 < h2 || l1 < LastMultiple(h1 + 1, h2)
  }

  /** For natural dividends and positive divisors, exactly when the ends of the Mod rule are remainders themselves. */
  lemma ModTightExact(l1: nat, h1: nat, l2: nat, h2: nat)
    requires l1 <= h1 && 0 < l2 <= h2
    ensures LongBounds(Mod, l1, h1, l2, h2).Some?
    ensures var (lo, hi) := LongBounds(Mod, l1, h1, l2, h2).value;
            && (Remains(lo, l1, h1, l2, h2) <==> ModLowReached(l1, h1, l2, h2))
            && (Remains(hi, l1, h1, l2, h2) <==> ModHighReached(l1, h1, h2))
  {
    ModLowExact(l1, h1, l2, h2);
    ModHighExact(l1, h1, l2, h2);
  }

  lemma ModLowExact(l1: nat, h1: nat, l2: nat, h2: nat)
    requires l1 <= h1 && 0 < l2 <= h2
    ensures Remains(if h1 >= l2 then 0 else l1, l1, h1, l2, h2) <==> ModLowReached(l1, h1, l2, h2)
  {
    if h1 < l2 {
      RemSpan(l1, l2);
      assert Remains(l1, l1, h1, l2, h2);
    } else {
      if b :| l2 <= b <= h2 && l1 <= LastMultiple(h1, b) {
        LastMultipleIs(h1, b, 0);
        QuotOfNat(LastMultiple(h1, b), b);
        assert Remains(0, l1, h1, l2, h2);
      }
      if Remains(0, l1, h1, l2, h2) {
        var a: int, b: int :| l1 <= a <= h1 && l2 <= b <= h2 && b != 0 && Rem(a, b) == 0;
        QuotOfNat(a, b);
        LastMultipleIs(h1, b, a);
      }
    }
  }

  lemma BeforeMultiple(a: nat, b: nat)
    requires b > 0
    ensures a % b == b - 1 <==> (a + 1) % b == 0
  {
    NextRemainder(a, b);
    ModSmall(a % b + 1, b);
    if a % b == b - 1 {
      ModIs(b, b, 1, 0);
    }
  }

  lemma ModHighExact(l1: nat, h1: nat, l2: nat, h2: nat)
    requires l1 <= h1 && 0 < l2 <= h2
    ensures Remains(if h1 >= h2 then h2 - 1 else h1, l1, h1, l2, h2) <==> ModHighReached(l1, h1, h2)
  {
    if h1 < h2 {
      RemSpan(h1, h2);
      assert Remains(h1, l1, h1, l2, h2);
    } else {
      LastMultipleIs(h1 + 1, h2, h2);
      ModIs(h2, h2, 1, 0);
      if l1 < LastMultiple(h1 + 1, h2) {
        var a := LastMultiple(h1 + 1, h2) - 1;
        BeforeMultiple(a, h2);
        QuotOfNat(a, h2);
        assert Remains(h2 - 1, l1, h1, l2, h2);
      }
      if Remains(h2 - 1, l1, h1, l2, h2) {
        var a: int, b: int :| l1 <= a <= h1 && l2 <= b <= h2 && b != 0 && Rem(a, b) == h2 - 1;
        RemSpan(a, b);
        QuotOfNat(a, h2);
        BeforeMultiple(a, h2);
        LastMultipleIs(h1 + 1, h2, a + 1);
      }
    }
  }

  /** On two numbers the Mod rule gives their remainder, and nothing else, exactly in these cases. */
  lemma ModPointExact(a: int, b: int)
    requires b != 0
    ensures LongBounds(Mod, a, a, b, b) == Some((Rem(a, b), Rem(a, b)))
       <==> (a < b && Mag(a) < Mag(b)) || (b == 1 && a >= 1)
  {
    RemSpan(a, b);
  }

  // ---- Operators on values ----

  // v is the value for an end of each range.
  predicate BinopReaches(op: BinOp, b1: Bounds, b2: Bounds, v: Num)
    requires b1.Range? && b2.Range?
  {
    || BinopValue(op, b1.lb, b2.lb) == Some(v) || BinopValue(op, b1.lb, b2.hb) == Some(v)
    || BinopValue(op, b1.hb, b2.lb) == Some(v) || BinopValue(op, b1.hb, b2.hb) == Some(v)
  }

  lemma BinopTight(op: BinOp, b1: Bounds, b2: Bounds)
    requires op != Mod && b1.Range? && b2.Range? && BinopBounds(op, b1, b2).Range?
    ensures BinopReaches(op, b1, b2, BinopBounds(op, b1, b2).lb) && BinopReaches(op, b1, b2, BinopBounds(op, b1, b2).hb)
  {
    match (b1.lb, b2.lb)
    case (Long(l1), Long(l2)) => LongBoundsTight(op, l1, b1.hb.n, l2, b2.hb.n);
    case (Float(l1), Float(l2)) => RealBoundsTight(op, l1, b1.hb.f, l2, b2.hb.f);
    case (Double(l1), Double(l2)) => RealBoundsTight(op, l1, b1.hb.d, l2, b2.hb.d);
  }

  /** A cast to an integer drops the fraction, FLOOR rounds down, and an integer survives the way to a floating-point type
      and back. */
  lemma CastsRound(r: real, n: int)
    ensures forall x :: x in {CastValue(F2I, Float(r)), CastValue(D2I, Double(r))} ==>
      x.Some? && x.value.Long? && WithoutFraction(r, x.value.n)
    ensures forall x :: x in {CastValue(FLOOR, Float(r)), CastValue(FLOOR, Double(r))} ==>
      x.Some? && x.value.Long? && RoundedDown(r, x.value.n)
    ensures CastValue(F2I, CastValue(I2F, Long(n)).value) == Some(Long(n)) == CastValue(D2I, CastValue(I2D, Long(n)).value)
    ensures CastValue(D2F, CastValue(F2D, Float(r)).value) == Some(Float(r))
  {
    assert WithoutFraction(r, Trunc(r));
  }

  // k is r without its fraction.
  predicate WithoutFraction(r: real, k: int) {
    if r >= 0.0 then k >= 0 && k as real <= r < k as real + 1.0 else k <= 0 && k as real - 1.0 < r <= k as real
  }

  predicate RoundedDown(r: real, k: int) {
    k as real <= r < k as real + 1.0
  }

  // ---- Whole trees ----

  // A tree without remainders, end nodes and indirections.
  predicate Plain(e: Tree)
    decreases e
  {
    match e
    case Binop(op, e1, e2) => op != Mod && Plain(e1) && Plain(e2)
    case Interval(lo, hi) => Plain(lo) && Plain(hi)
    case Cast(_, e1) => Plain(e1)
    case Min(es) => forall i :: 0 <= i < |es| ==> Plain(es[i])
    case Max(es) => forall i :: 0 <= i < |es| ==> Plain(es[i])
    case Lb(_) => false
    case Hb(_) => false
    case Indir(_, _, _) => false
    case _ => true
  }

  ghost predicate EndsTaken(e: Tree, env: Env, b: Bounds) {
    b.Range? ==> Evals(e, env, b.lb) && Evals(e, env, b.hb)
  }

  /** Whatever the work-item, both ends of the computed bounds of an expression are values it can evaluate to. */
  lemma {:induction false} BoundsTight(e: Tree, env: Env)
    requires Plain(e)
    ensures EndsTaken(e, env, ComputeBounds(e))
    decreases e
  {
    if ComputeBounds(e).Range? {
      match e
      case Binop(op, e1, e2) =>
        BoundsTight(e1, env);
        BoundsTight(e2, env);
        BinopTight(op, ComputeBounds(e1), ComputeBounds(e2));
      case Interval(lo, hi) =>
        BoundsTight(lo, env);
        BoundsTight(hi, env);
        HullTight(lo, hi, env);
      case Cast(_, e1) => BoundsTight(e1, env);
      case Min(es) => FoldsTight(true, es, env);
      case Max(es) => FoldsTight(false, es, env);
      case _ =>
    }
  }

  lemma HullTight(lo: Tree, hi: Tree, env: Env)
    requires EndsTaken(lo, env, ComputeBounds(lo)) && EndsTaken(hi, env, ComputeBounds(hi))
    ensures EndsTaken(Interval(lo, hi), env, ComputeBounds(Interval(lo, hi)))
  {
    var b1, b2, b := ComputeBounds(lo), ComputeBounds(hi), ComputeBounds(Interval(lo, hi));
    if b.Range? {
      assert Between(b.lb, b1.lb, b2.lb);
      assert Between(b.hb, b1.hb, b2.hb);
    }
  }

  lemma {:induction false} FoldsTight(least: bool, es: seq<Tree>, env: Env)
    requires forall i :: 0 <= i < |es| ==> Plain(es[i])
    requires ComputeOperands(es).Ranges? && FoldRanges(least, ComputeOperands(es).bs).Range?
    ensures var b := FoldRanges(least, ComputeOperands(es).bs);
            EvalsFold(least, es, env, b.lb) && EvalsFold(least, es, env, b.hb)
    decreases es
  {
    InitOperands(es);
    var last := es[|es| - 1];
    BoundsTight(last, env);
    if |es| == 1 {
      assert ComputeOperands(es[..0]) == Ranges([]);
    } else {
      var init := es[..|es| - 1];
      var bs := ComputeOperands(init).bs;
      assert ComputeOperands(es).bs[..|bs|] == bs;
      FoldsTight(least, init, env);
      FoldTight(least, init, last, FoldRanges(least, bs), ComputeBounds(last), env);
    }
  }

  lemma FoldTight(least: bool, init: seq<Tree>, last: Tree, b1: Bounds, b2: Bounds, env: Env)
    requires b1.Range? && b2.Range? && FoldBounds(least, b1, b2).Range? && |init| > 0
    requires EvalsFold(least, init, env, b1.lb) && EvalsFold(least, init, env, b1.hb)
    requires Evals(last, env, b2.lb) && Evals(last, env, b2.hb)
    ensures var b := FoldBounds(least, b1, b2);
            EvalsFold(least, init + [last], env, b.lb) && EvalsFold(least, init + [last], env, b.hb)
  {
    assert (init + [last])[..|init|] == init;
  }

  lemma {:induction false} PlainIndirs(e: Tree, env: Env)
    requires Plain(e)
    ensures IndirsWithin(e, env)
    decreases e
  {
    match e
    case Binop(_, e1, e2) =>
      PlainIndirs(e1, env);
      PlainIndirs(e2, env);
    case Interval(lo, hi) =>
      PlainIndirs(lo, env);
      PlainIndirs(hi, env);
    case Cast(_, e1) => PlainIndirs(e1, env);
    case Min(es) => forall i | 0 <= i < |es| ensures IndirsWithin(es[i], env) { PlainIndirs(es[i], env); }
    case Max(es) => forall i | 0 <= i < |es| ensures IndirsWithin(es[i], env) { PlainIndirs(es[i], env); }
    case _ =>
  }

  /** A range contains every value of an expression exactly when it contains the computed bounds: they are the best
      ones. */
  lemma BoundsExact(e: Tree, env: Env, b: Bounds)
    requires Plain(e) && CornersApply(e) && ComputeBounds(e).Range? && b.Range?
    ensures (forall v: Num :: Evals(e, env, v) ==> InRange(v, b))
       <==> Le(b.lb, ComputeBounds(e).lb) && Le(ComputeBounds(e).hb, b.hb)
  {
    BoundsTight(e, env);
    PlainIndirs(e, env);
    var l, h := ComputeBounds(e).lb, ComputeBounds(e).hb;
    assert Evals(e, env, l) && Evals(e, env, h);
    BoundsSound(e, env, l);
    if forall v: Num :: Evals(e, env, v) ==> InRange(v, b) {
      assert InRange(l, b) && InRange(h, b);
    }
    if Le(b.lb, l) && Le(h, b.hb) {
      forall v: Num | Evals(e, env, v) ensures InRange(v, b) {
        BoundsSound(e, env, v);
      }
    }
  }

  // ---- End nodes and indirections ----

  // The ranges are single values of the expression, the first one below v and the second one above it.
  ghost predicate EndsAround(e: Tree, env: Env, l: Bounds, h: Bounds, v: Num) {
    && l.Range? && l.lb == l.hb && Evals(e, env, l.lb) && Le(l.lb, v)
    && h.Range? && h.lb == h.hb && Evals(e, env, h.lb) && Le(v, h.lb)
  }

  /** Lb is the least value of its operand and Hb the greatest. */
  lemma EndNodes(e: Tree, env: Env, v: Num)
    requires Plain(e) && CornersApply(e) && ComputeBounds(e).Range? && Evals(e, env, v)
    ensures EndsAround(e, env, ComputeBounds(Lb(e)), ComputeBounds(Hb(e)), v)
  {
    PlainIndirs(e, env);
    BoundsTight(e, env);
    BoundsSound(e, env, v);
    BoundsSound(e, env, ComputeBounds(e).lb);
  }

  /** An indirection has the values read back for it as bounds, whichever of them is the lower one. */
  lemma IndirTight(no: nat, x: Num, y: Num)
    requires SameType(x, y)
    ensures var b := ComputeBounds(Indir(no, Value(x), Value(y)));
            b == if Le(x, y) then Range(x, y) else Range(y, x)
  {
  }
}

/** Soundness of interval evaluation (LibKernelExpr/src/IndexExpr/IndexExpr.cpp, computeBoundsRec). */
module BoundsSoundness {
  import opened IndexExprs
  import opened Bounds
  import opened BoundsArithmetic
  import opened RemainderBounds
  import opened Evaluation

  predicate InRange(v: Num, b: Bounds)
    requires b.Range?
  {
    Le(b.lb, v) && Le(v, b.hb)
  }

  // The operand ranges for which the corner rule of an operator bounds its values.
  predicate CornersBound(op: BinOp, b1: Bounds, b2: Bounds)
    requires b1.Range? && b2.Range?
  {
    match op
    case Add => true
    case Sub => true
    case Mul => true
    case Div => DivApplies(b2)
    case Mod => AllLong(b1) && AllLong(b2) && !(b2.lb.n == b2.hb.n == 0) && ModApplies(b1.lb.n, b1.hb.n, b2.lb.n, b2.hb.n)
    case Shl => b2.lb.Long? && b2.lb.n >= 0
    case Shr => b2.lb.Long? && b2.lb.n >= 0
    case _ => b1.lb == b1.hb && b2.lb == b2.hb
  }

  predicate AllLong(b: Bounds)
    requires b.Range?
  {
    b.lb.Long? && b.hb.Long?
  }

  predicate DivApplies(b: Bounds)
    requires b.Range?
  {
    match (b.lb, b.hb)
    case (Long(l), Long(h)) => l > 0 || h < 0 || (l == -1 && h == 1)
    case (Float(l), Float(h)) => l > 0.0 || h < 0.0
    case (Double(l), Double(h)) => l > 0.0 || h < 0.0
    case _ => false
  }

  // Every operator of the tree is applied to ranges its corner rule handles.
  ghost predicate CornersApply(e: Tree)
    decreases e
  {
    match e
    case Binop(op, e1, e2) =>
      && CornersApply(e1) && CornersApply(e2)
      && (ComputeBounds(e1).Range? && ComputeBounds(e2).Range?
          ==> CornersBound(op, ComputeBounds(e1), ComputeBounds(e2)))
    case Interval(lo, hi) => CornersApply(lo) && CornersApply(hi)
    case Cast(_, e1) => CornersApply(e1)
    case Min(es) => forall i :: 0 <= i < |es| ==> CornersApply(es[i])
    case Max(es) => forall i :: 0 <= i < |es| ==> CornersApply(es[i])
    case Lb(e1) => CornersApply(e1)
    case Hb(e1) => CornersApply(e1)
    case Indir(_, lo, hi) => CornersApply(lo) && CornersApply(hi)
    case _ => true
  }

  // Every indirection that has bounds stays within them.
  ghost predicate IndirsWithin(e: Tree, env: Env)
    decreases e
  {
    match e
    case Binop(op, e1, e2) => IndirsWithin(e1, env) && IndirsWithin(e2, env)
    case Interval(lo, hi) => IndirsWithin(lo, env) && IndirsWithin(hi, env)
    case Cast(_, e1) => IndirsWithin(e1, env)
    case Min(es) => forall i :: 0 <= i < |es| ==> IndirsWithin(es[i], env)
    case Max(es) => forall i :: 0 <= i < |es| ==> IndirsWithin(es[i], env)
    case Indir(no, lo, hi) =>
      !ComputeBounds(e).Missing? ==> ComputeBounds(e).Range? && InRange(env.indir(no), ComputeBounds(e))
    case _ => true
  }

  // ---- One operator ----

  lemma LongBoundsSound(op: BinOp, a: int, b: int, l1: int, h1: int, l2: int, h2: int)
    requires l1 <= a <= h1 && l2 <= b <= h2
    requires CornersBound(op, Range(Long(l1), Long(h1)), Range(Long(l2), Long(h2)))
    requires LongOp(op, a, b).Some?
    ensures LongBounds(op, l1, h1, l2, h2).Some?
    ensures var r := LongBounds(op, l1, h1, l2, h2).value; r.0 <= LongOp(op, a, b).value <= r.1
  {
    match op
    case Mul => MulCorners(a, b, l1, h1, l2, h2);
    case Div =>
      if l2 == -1 && h2 == 1 {
        UnitDivisor(a, b, l1, h1);
      } else {
        QuotInCorners(a, b, l1, h1, l2, h2);
      }
    case Mod => ModIsBound(a, b, l1, h1, l2, h2);
    case Shl => ShiftLeftCorners(a, b, l1, h1, l2, h2);
    case Shr => ShiftRightCorners(a, b, l1, h1, l2, h2);
    case _ =>
  }

  lemma RealBoundsSound(op: BinOp, a: real, b: real, l1: real, h1: real, l2: real, h2: real)
    requires l1 <= a <= h1 && l2 <= b <= h2
    requires CornersBound(op, Range(Float(l1), Float(h1)), Range(Float(l2), Float(h2)))
    requires RealOp(op, a, b).Some?
    ensures RealBounds(op, l1, h1, l2, h2).Some?
    ensures var r := RealBounds(op, l1, h1, l2, h2).value; r.0 <= RealOp(op, a, b).value <= r.1
  {
    match op
    case Mul => RealMulCorners(a, b, l1, h1, l2, h2);
    case Div => DivInCorners(a, b, l1, h1, l2, h2);
    case _ =>
  }

  lemma BinopSound(op: BinOp, x: Num, y: Num, v: Num, b1: Bounds, b2: Bounds)
    requires b1.Range? && b2.Range? && InRange(x, b1) && InRange(y, b2) && CornersBound(op, b1, b2)
    requires BinopValue(op, x, y) == Some(v)
    ensures BinopBounds(op, b1, b2).Range? && InRange(v, BinopBounds(op, b1, b2))
  {
    match (x, y)
    case (Long(a), Long(b)) => LongBoundsSound(op, a, b, b1.lb.n, b1.hb.n, b2.lb.n, b2.hb.n);
    case (Float(a), Float(b)) => RealBoundsSound(op, a, b, b1.lb.f, b1.hb.f, b2.lb.f, b2.hb.f);
    case (Double(a), Double(b)) => RealBoundsSound(op, a, b, b1.lb.d, b1.hb.d, b2.lb.d, b2.hb.d);
  }

  lemma CastSound(c: CastOp, x: Num, v: Num, b: Bounds)
    requires b.Range? && InRange(x, b) && CastValue(c, x) == Some(v)
    ensures CastBounds(c, b).Range? && InRange(v, CastBounds(c, b))
  {
    match x
    case Float(r) => TruncMonotone(b.lb.f, r); TruncMonotone(r, b.hb.f);
    case Double(r) => TruncMonotone(b.lb.d, r); TruncMonotone(r, b.hb.d);
    case _ =>
  }

  lemma HullSound(x: Num, y: Num, v: Num, b1: Bounds, b2: Bounds)
    requires b1.Range? && b2.Range? && InRange(x, b1) && InRange(y, b2) && Between(v, x, y)
    ensures HullBounds(b1, b2).Range? && InRange(v, HullBounds(b1, b2))
  {
  }

  lemma FoldSound(least: bool, x: Num, y: Num, b1: Bounds, b2: Bounds)
    requires b1.Range? && b2.Range? && InRange(x, b1) && InRange(y, b2) && SameType(x, y)
    ensures FoldBounds(least, b1, b2).Range?
    ensures InRange(if least then Least(x, y) else Greatest(x, y), FoldBounds(least, b1, b2))
  {
  }

  // ---- Whole trees ----

  /** Every value an expression can take in a work-item lies within its computed bounds. */
  lemma {:induction false} BoundsSound(e: Tree, env: Env, v: Num)
    requires CornersApply(e) && IndirsWithin(e, env) && Evals(e, env, v) && !ComputeBounds(e).Missing?
    ensures ComputeBounds(e).Range? && InRange(v, ComputeBounds(e))
    decreases e
  {
    match e
    case Binop(op, e1, e2) =>
      var x: Num, y: Num :| Evals(e1, env, x) && Evals(e2, env, y) && BinopValue(op, x, y) == Some(v);
      BoundsSound(e1, env, x);
      BoundsSound(e2, env, y);
      BinopSound(op, x, y, v, ComputeBounds(e1), ComputeBounds(e2));
    case Interval(lo, hi) =>
      var x: Num, y: Num :| Evals(lo, env, x) && Evals(hi, env, y) && Between(v, x, y);
      BoundsSound(lo, env, x);
      BoundsSound(hi, env, y);
      HullSound(x, y, v, ComputeBounds(lo), ComputeBounds(hi));
    case Cast(c, e1) =>
      var x: Num :| Evals(e1, env, x) && CastValue(c, x) == Some(v);
      BoundsSound(e1, env, x);
      CastSound(c, x, v, ComputeBounds(e1));
    case Min(es) => FoldsSound(true, es, env, v);
    case Max(es) => FoldsSound(false, es, env, v);
    case _ =>
  }

  lemma {:induction false} FoldsSound(least: bool, es: seq<Tree>, env: Env, v: Num)
    requires forall i :: 0 <= i < |es| ==> CornersApply(es[i]) && IndirsWithin(es[i], env)
    requires EvalsFold(least, es, env, v)
    requires var o := ComputeOperands(es); o.Stopped? ==> !o.b.Missing?
    ensures ComputeOperands(es).Ranges?
    ensures var b := FoldRanges(least, ComputeOperands(es).bs); b.Range? && InRange(v, b)
    decreases es
  {
    var last := es[|es| - 1];
    if |es| == 1 {
      BoundsSound(last, env, v);
      SingleRange(least, es);
    } else {
      var init := es[..|es| - 1];
      var x: Num, y: Num :|
        && EvalsFold(least, init, env, x) && Evals(last, env, y)
        && SameType(x, y) && v == if least then Least(x, y) else Greatest(x, y);
      InitOperands(es);
      FoldsSound(least, init, env, x);
      BoundsSound(last, env, y);
      var bs := ComputeOperands(init).bs;
      FoldSound(least, x, y, FoldRanges(least, bs), ComputeBounds(last));
      FoldRangesSnoc(least, bs, ComputeBounds(last));
    }
  }

  lemma SingleRange(least: bool, es: seq<Tree>)
    requires |es| == 1 && ComputeBounds(es[0]).Range? && Le(ComputeBounds(es[0]).lb, ComputeBounds(es[0]).hb)
    ensures ComputeOperands(es) == Ranges([ComputeBounds(es[0])])
    ensures FoldRanges(least, [ComputeBounds(es[0])]) == ComputeBounds(es[0])
  {
    assert ComputeOperands(es[..0]) == Ranges([]);
    assert [] + [ComputeBounds(es[0])] == [ComputeBounds(es[0])];
  }

  lemma InitOperands(es: seq<Tree>)
    requires |es| > 0
    ensures var o, init, b := ComputeOperands(es), ComputeOperands(es[..|es| - 1]), ComputeBounds(es[|es| - 1]);
            o == if init.Stopped? then init else if !b.Range? then Stopped(b) else Ranges(init.bs + [b])
  {
  }

  lemma FoldRangesSnoc(least: bool, bs: seq<Bounds>, b: Bounds)
    requires |bs| > 0 && b.Range? && forall i :: 0 <= i < |bs| ==> bs[i].Range?
    requires FoldRanges(least, bs).Range?
    ensures FoldRanges(least, bs + [b]) == FoldBounds(least, FoldRanges(least, bs), b)
  {
    assert (bs + [b])[..|bs|] == bs;
  }

  // ---- Computed bounds are ordered ----

  datatype Kind = LongKind | FloatKind | DoubleKind

  function KindOf(v: Num): Kind {
    match v
    case Long(_) => LongKind
    case Float(_) => FloatKind
    case Double(_) => DoubleKind
  }

  predicate CastsFrom(c: CastOp, from: Kind, to: Kind) {
    match c
    case F2D => from == FloatKind && to == DoubleKind
    case D2F => from == DoubleKind && to == FloatKind
    case I2F => from == LongKind && to == FloatKind
    case F2I => from == FloatKind && to == LongKind
    case I2D => from == LongKind && to == DoubleKind
    case D2I => from == DoubleKind && to == LongKind
    case FLOOR => from != LongKind && to == LongKind
  }

  // Every operator is applied to operands of one type, and every cast to its source type.
  predicate HasKind(e: Tree, k: Kind)
    decreases e
  {
    match e
    case Value(v) => KindOf(v) == k
    case Arg(_, _, value) => value.Some? ==> KindOf(value.value) == k
    case Binop(op, e1, e2) => HasKind(e1, k) && HasKind(e2, k) && (op in {Mod, Or, Xor, And, Shl, Shr} ==> k == LongKind)
    case Interval(lo, hi) => HasKind(lo, k) && HasKind(hi, k)
    case Indir(_, lo, hi) => HasKind(lo, k) && HasKind(hi, k)
    case Min(es) => |es| > 0 && forall i :: 0 <= i < |es| ==> HasKind(es[i], k)
    case Max(es) => |es| > 0 && forall i :: 0 <= i < |es| ==> HasKind(es[i], k)
    case Lb(e1) => HasKind(e1, k)
    case Hb(e1) => HasKind(e1, k)
    case Cast(c, e1) => exists from :: CastsFrom(c, from, k) && HasKind(e1, from)
    case _ => true
  }

  predicate Ordered(b: Bounds, k: Kind) {
    b.Missing? || (b.Range? && Le(b.lb, b.hb) && KindOf(b.lb) == k)
  }

  lemma BinopOrdered(op: BinOp, b1: Bounds, b2: Bounds, k: Kind)
    requires b1.Range? && b2.Range? && Ordered(b1, k) && Ordered(b2, k) && CornersBound(op, b1, b2)
    requires op in {Mod, Or, Xor, And, Shl, Shr} ==> k == LongKind
    ensures BinopBounds(op, b1, b2).Range? && Ordered(BinopBounds(op, b1, b2), k)
  {
    var y := if b2.lb == Long(0) then b2.hb else b2.lb;
    BinopDefined(op, b1.lb, y, k, b1, b2);
    BinopSound(op, b1.lb, y, BinopValue(op, b1.lb, y).value, b1, b2);
  }

  lemma BinopDefined(op: BinOp, x: Num, y: Num, k: Kind, b1: Bounds, b2: Bounds)
    requires b1.Range? && b2.Range? && Ordered(b1, k) && Ordered(b2, k) && CornersBound(op, b1, b2)
    requires op in {Mod, Or, Xor, And, Shl, Shr} ==> k == LongKind
    requires x == b1.lb && y == if b2.lb == Long(0) then b2.hb else b2.lb
    ensures BinopValue(op, x, y).Some?
  {
  }

  lemma CastOrdered(c: CastOp, b: Bounds, from: Kind, to: Kind)
    requires b.Range? && Ordered(b, from)
    requires CastValue(c, b.lb).Some? && KindOf(CastValue(c, b.lb).value) == to
    ensures CastBounds(c, b).Range? && Ordered(CastBounds(c, b), to)
  {
    match b.lb
    case Float(l) => TruncMonotone(l, b.hb.f);
    case Double(l) => TruncMonotone(l, b.hb.d);
    case _ =>
  }

  /** On a well-typed tree whose corner rules apply, no assertion fails and the bounds are ordered. */
  lemma {:induction false} BoundsOrdered(e: Tree, k: Kind)
    requires CornersApply(e) && HasKind(e, k)
    ensures Ordered(ComputeBounds(e), k)
    decreases e
  {
    match e
    case Binop(op, e1, e2) =>
      BoundsOrdered(e1, k);
      BoundsOrdered(e2, k);
      if ComputeBounds(e1).Range? && ComputeBounds(e2).Range? {
        BinopOrdered(op, ComputeBounds(e1), ComputeBounds(e2), k);
      }
    case Interval(lo, hi) =>
      BoundsOrdered(lo, k);
      BoundsOrdered(hi, k);
    case Indir(_, lo, hi) =>
      BoundsOrdered(lo, k);
      BoundsOrdered(hi, k);
    case Lb(e1) => BoundsOrdered(e1, k);
    case Hb(e1) => BoundsOrdered(e1, k);
    case Cast(c, e1) =>
      var from :| CastsFrom(c, from, k) && HasKind(e1, from);
      BoundsOrdered(e1, from);
      if ComputeBounds(e1).Range? {
        CastOrdered(c, ComputeBounds(e1), from, k);
      }
    case Min(es) => FoldsOrdered(true, es, k);
    case Max(es) => FoldsOrdered(false, es, k);
    case _ =>
  }

  lemma {:induction false} FoldsOrdered(least: bool, es: seq<Tree>, k: Kind)
    requires |es| > 0 && forall i :: 0 <= i < |es| ==> CornersApply(es[i]) && HasKind(es[i], k)
    ensures var o := ComputeOperands(es);
            if o.Stopped? then o.b.Missing? else Ordered(FoldRanges(least, o.bs), k)
    decreases es
  {
    var last := es[|es| - 1];
    BoundsOrdered(last, k);
    InitOperands(es);
    if |es| == 1 {
      assert ComputeOperands(es[..0]) == Ranges([]);
      if ComputeBounds(last).Range? {
        SingleRange(least, es);
      }
    } else {
      var init := es[..|es| - 1];
      FoldsOrdered(least, init, k);
      var o := ComputeOperands(init);
      if o.Ranges? && ComputeBounds(last).Range? {
        FoldRangesSnoc(least, o.bs, ComputeBounds(last));
      }
    }
  }

  // ---- Where the corner rules are not bounds ----

  lemma OrCornersFail()
    ensures LongBounds(Or, 0, 4, 0, 4) == Some((0, 4)) && LongOp(Or, 3, 4) == Some(7)
  {
    assert BitOp(Or, 0, 1) == 1 && BitOp(Or, 1, 2) == 3 && BitOp(Or, 3, 4) == 7;
    assert BitOp(Or, 1, 1) == 1 && BitOp(Or, 2, 2) == 2 && BitOp(Or, 4, 4) == 4;
  }

  lemma AndCornersFail()
    ensures LongBounds(And, 1, 2, 1, 2) == Some((1, 2)) && LongOp(And, 1, 2) == Some(0)
  {
    assert BitOp(And, 1, 1) == 1 && BitOp(And, 2, 2) == 2;
    assert BitOp(And, 0, 1) == 0 && BitOp(And, 1, 2) == 0;
  }

  lemma XorCornersFail()
    ensures LongBounds(Xor, 0, 4, 0, 4) == Some((0, 0)) && LongOp(Xor, 1, 2) == Some(3)
  {
    assert BitOp(Xor, 1, 1) == 0 && BitOp(Xor, 2, 2) == 0 && BitOp(Xor, 4, 4) == 0;
    assert BitOp(Xor, 0, 1) == 1 && BitOp(Xor, 1, 2) == 3;
  }

  // The Div rule bounds the quotients of every dividend interval by this divisor interval.
  ghost predicate DivRuleHolds(l2: int, h2: int)
    requires l2 != 0 && h2 != 0
  {
    forall l1: int, h1: int, a: int, b: int :: l1 <= a <= h1 && l2 <= b <= h2 && b != 0 ==> DivInside(a, b, l1, h1, l2, h2)
  }

  predicate DivInside(a: int, b: int, l1: int, h1: int, l2: int, h2: int)
    requires l2 != 0 && h2 != 0 && b != 0
  {
    var (lo, hi) := DivCorners(l1 as real, h1 as real, l2 as real, h2 as real);
    Trunc(lo) <= Quot(a, b) <= Trunc(hi)
  }

  /** The Div rule is a bound exactly when the divisor interval excludes zero, or is [-1, 1]. */
  lemma DivCornersExact(l2: int, h2: int)
    requires l2 <= h2 && l2 != 0 && h2 != 0
    ensures DivRuleHolds(l2, h2) <==> (l2 > 0 || h2 < 0 || (l2 == -1 && h2 == 1))
  {
    if l2 > 0 || h2 < 0 {
      forall l1: int, h1: int, a: int, b: int | l1 <= a <= h1 && l2 <= b <= h2 && b != 0
        ensures DivInside(a, b, l1, h1, l2, h2)
      {
        QuotInCorners(a, b, l1, h1, l2, h2);
      }
    } else if l2 == -1 && h2 == 1 {
      forall l1: int, h1: int, a: int, b: int | l1 <= a <= h1 && l2 <= b <= h2 && b != 0
        ensures DivInside(a, b, l1, h1, l2, h2)
      {
        UnitDivisor(a, b, l1, h1);
      }
    } else if h2 >= 2 {
      assert !DivInside(h2, 1, h2, h2, l2, h2) by { PositiveWitness(l2, h2); }
    } else {
      assert !DivInside(-l2, -1, -l2, -l2, l2, h2) by { NegativeWitness(l2); }
    }
  }

  lemma UnitDivisor(a: int, b: int, l1: int, h1: int)
    requires l1 <= a <= h1 && b in {-1, 1}
    ensures DivInside(a, b, l1, h1, -1, 1)
  {
    UnitCorners(l1 as real, h1 as real);
    var (lo, hi) := DivCorners(l1 as real, h1 as real, -1.0, 1.0);
    if b == 1 {
      TruncMonotone(lo, a as real);
      TruncMonotone(a as real, hi);
    } else {
      NegatedQuotient(a);
      TruncMonotone(lo, -(a as real));
      TruncMonotone(-(a as real), hi);
    }
  }

  lemma NegatedQuotient(a: int)
    ensures a as real / (-1) as real == -(a as real)
  {
  }

  lemma UnitCorners(l: real, h: real)
    requires l <= h
    ensures var (lo, hi) := DivCorners(l, h, -1.0, 1.0); lo <= l && h <= hi && lo <= -h && -l <= hi
  {
    assert 1.0 / -1.0 == -1.0 && 1.0 / 1.0 == 1.0;
    assert l * -1.0 == -l && h * -1.0 == -h;
  }

  lemma PositiveWitness(l2: int, h2: int)
    requires l2 < 0 && h2 >= 2
    ensures !DivInside(h2, 1, h2, h2, l2, h2)
  {
    var h, l := h2 as real, l2 as real;
    assert h * (1.0 / h) == 1.0;
    assert 1.0 / l < 0.0;
    assert h * (1.0 / l) < 0.0;
    assert DivCorners(h, h, l, h).1 == 1.0;
    assert h / 1.0 == h;
  }

  lemma NegativeWitness(l2: int)
    requires l2 <= -2
    ensures !DivInside(-l2, -1, -l2, -l2, l2, 1)
  {
    var l := l2 as real;
    var d := -l;
    assert d * (1.0 / l) == -1.0;
    assert d * (1.0 / 1.0) == d;
    assert DivCorners(d, d, l, 1.0).0 == -1.0;
    assert d / -1.0 == l;
  }

  // A negative dividend; RemainderBounds.ModCornersExact says when the rule is a bound.
  lemma ModCornersFail()
    ensures LongBounds(Mod, -1, 2, 2, 2) == Some((0, 1)) && LongOp(Mod, -1, 2) == Some(-1)
  {
  }
}

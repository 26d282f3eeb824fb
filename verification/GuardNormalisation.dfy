/** From a branch condition to a guard on one work-item id (AnalysisPass/src/ConditionBuilder.cpp,
    LibKernelExpr/src/GuardExpr.cpp). */
module GuardNormalisation {
  import opened IndexExprs
  import opened Bounds
  import opened Evaluation
  import opened WorkItems
  import opened ScaledConditions
  import opened Words

  // ---- Counting ids ----

  predicate IsId(e: Tree) {
    e.Ocl? && e.fun in {GlobalId, LocalId, GroupId}
  }

  // computeExprNumOclCalls: ids below Min, Cast and Indir nodes are not counted.
  function CountIds(e: Tree): nat
    decreases e
  {
    match e
    case Ocl(_, _) => if IsId(e) then 1 else 0
    case Binop(_, e1, e2) => CountIds(e1) + CountIds(e2)
    case Interval(lo, hi) => CountIds(lo) + CountIds(hi)
    case Max(es) => CountAll(es)
    case Lb(e1) => CountIds(e1)
    case Hb(e1) => CountIds(e1)
    case _ => 0
  }

  function CountAll(es: seq<Tree>): nat
    decreases es
  {
    if |es| == 0 then 0 else CountAll(es[..|es| - 1]) + CountIds(es[|es| - 1])
  }

  // x is a node of e, outside the nodes that are not looked into.
  ghost predicate NodeOf(x: Tree, e: Tree)
    decreases e
  {
    x == e ||
      match e
      case Binop(_, e1, e2) => NodeOf(x, e1) || NodeOf(x, e2)
      case Interval(lo, hi) => NodeOf(x, lo) || NodeOf(x, hi)
      case Max(es) => exists i :: 0 <= i < |es| && NodeOf(x, es[i])
      case Lb(e1) => NodeOf(x, e1)
      case Hb(e1) => NodeOf(x, e1)
      case _ => false
  }

  /** Something is counted exactly when an id is a node of the expression. */
  lemma {:induction false} CountedExact(e: Tree)
    ensures CountIds(e) > 0 <==> exists x :: IsId(x) && NodeOf(x, e)
    decreases e
  {
    match e
    case Ocl(_, _) => assert NodeOf(e, e);
    case Binop(_, e1, e2) =>
      CountedExact(e1);
      CountedExact(e2);
    case Interval(lo, hi) =>
      CountedExact(lo);
      CountedExact(hi);
    case Lb(e1) => CountedExact(e1);
    case Hb(e1) => CountedExact(e1);
    case Max(es) => CountedAllExact(es);
    case _ =>
  }

  lemma {:induction false} CountedAllExact(es: seq<Tree>)
    ensures CountAll(es) > 0 <==> exists x, i :: 0 <= i < |es| && IsId(x) && NodeOf(x, es[i])
    decreases es
  {
    if es != [] {
      var init, last := es[..|es| - 1], es[|es| - 1];
      CountedAllExact(init);
      CountedExact(last);
      if x, i :| 0 <= i < |es| && IsId(x) && NodeOf(x, es[i]) {
        assert i < |init| ==> init[i] == es[i];
      }
    }
  }

  // Nothing is left out of the count.
  predicate CountsAll(e: Tree)
    decreases e
  {
    match e
    case Ocl(_, dim) => dim.Value?
    case Binop(_, e1, e2) => CountsAll(e1) && CountsAll(e2)
    case Interval(lo, hi) => CountsAll(lo) && CountsAll(hi)
    case Max(es) => forall i :: 0 <= i < |es| ==> CountsAll(es[i])
    case Lb(_) => true
    case Hb(_) => true
    case Min(_) => false
    case Cast(_, _) => false
    case Indir(_, _, _) => false
    case _ => true
  }

  // The work-items differ in their ids only.
  ghost predicate SameSizes(env1: Env, env2: Env) {
    forall f: OclFunction, d: int :: f !in {GlobalId, LocalId, GroupId} ==> env1.ocl(f, d) == env2.ocl(f, d)
  }

  /** An expression without counted ids has the same values in all work-items, so a guard may compare with it. */
  lemma {:induction false} UncountedUniform(e: Tree, env1: Env, env2: Env, v: Num)
    requires CountIds(e) == 0 && CountsAll(e) && SameSizes(env1, env2)
    ensures Evals(e, env1, v) ==> Evals(e, env2, v)
    decreases e
  {
    if Evals(e, env1, v) {
      match e
      case Binop(op, e1, e2) =>
        var x: Num, y: Num :| Evals(e1, env1, x) && Evals(e2, env1, y) && BinopValue(op, x, y) == Some(v);
        UncountedUniform(e1, env1, env2, x);
        UncountedUniform(e2, env1, env2, y);
      case Interval(lo, hi) =>
        var x: Num, y: Num :| Evals(lo, env1, x) && Evals(hi, env1, y) && Between(v, x, y);
        UncountedUniform(lo, env1, env2, x);
        UncountedUniform(hi, env1, env2, y);
      case Max(es) => UncountedFold(es, env1, env2, v);
      case Ocl(fun, dim) =>
        var x: Num :| Evals(dim, env1, x) && v == Long(env1.ocl(fun, DimIndex(x)));
        assert x == dim.v && Evals(dim, env2, x);
        assert env1.ocl(fun, DimIndex(x)) == env2.ocl(fun, DimIndex(x));
      case _ =>
    }
  }

  lemma {:induction false} UncountedFold(es: seq<Tree>, env1: Env, env2: Env, v: Num)
    requires CountAll(es) == 0 && (forall i :: 0 <= i < |es| ==> CountsAll(es[i])) && SameSizes(env1, env2)
    ensures EvalsFold(false, es, env1, v) ==> EvalsFold(false, es, env2, v)
    decreases es
  {
    if EvalsFold(false, es, env1, v) {
      var last := es[|es| - 1];
      if |es| == 1 {
        UncountedUniform(last, env1, env2, v);
      } else {
        var init := es[..|es| - 1];
        var x: Num, y: Num :| EvalsFold(false, init, env1, x) && Evals(last, env1, y) && SameType(x, y) && v == Greatest(x, y);
        UncountedFold(init, env1, env2, x);
        UncountedUniform(last, env1, env2, y);
      }
    }
  }

  // Below Min, Cast and Indir an id is not counted, though the value depends on it.
  lemma CastHidesId(dim: int)
    ensures var id := Ocl(GlobalId, Value(Long(dim)));
      CountIds(Cast(I2D, id)) == 0 && CountIds(Min([id])) == 0 && NodeOf(id, id) && CountIds(id) == 1
  {
  }

  // ---- Moving everything but the id to the other side ----

  datatype Normal = Failed | Normal(id: Tree, expr: Tree, switched: bool)

  // One operand of the id side moves to the other side.
  function Move(id: Tree, expr: Tree, switched: bool): (r: Normal)
    ensures r.Normal? ==> r.id < id
  {
    match id
    case Binop(Add, e1, e2) =>
      if CountIds(e1) > 0 then Normal(e1, Binop(Sub, expr, e2), switched)
      else Normal(e2, Binop(Sub, expr, e1), switched)
    case Binop(Sub, e1, e2) =>
      if CountIds(e1) > 0 then Normal(e1, Binop(Add, expr, e2), switched)
      else Normal(e2, Binop(Sub, e1, expr), !switched)
    case Binop(Mul, e1, e2) =>
      if CountIds(e1) > 0 then Normal(e1, Binop(Div, expr, e2), switched)
      else Normal(e2, Binop(Div, expr, e1), switched)
    case Binop(Div, e1, e2) =>
      if CountIds(e1) > 0 then Normal(e1, Binop(Mul, expr, e2), switched)
      else Normal(e2, Binop(Div, e1, expr), !switched)
    case _ => Failed
  }

  function Normalize(id: Tree, expr: Tree, switched: bool): Normal
    decreases id
  {
    if IsId(id) then Normal(id, expr, switched)
    else
      var n := Move(id, expr, switched);
      if n.Failed? then Failed else Normalize(n.id, n.expr, n.switched)
  }

  /** normalizeOCLCondition */
  method NormalizeOCLCondition(exprId: Tree, expr: Tree) returns (ok: bool, id: Tree, other: Tree, operandSwitched: bool)
    ensures ok <==> Normalize(exprId, expr, false).Normal?
    ensures ok ==> Normalize(exprId, expr, false) == Normal(id, other, operandSwitched)
  {
    id, other, operandSwitched := exprId, expr, false;
    while !IsId(id)
      invariant Normalize(exprId, expr, false) == Normalize(id, other, operandSwitched)
      decreases id
    {
      if !id.Binop? {
        return false, id, other, operandSwitched;
      }
      var e1, e2 := id.e1, id.e2;
      match id.op
      case Add =>
        if CountIds(e1) > 0 {
          id, other := e1, Binop(Sub, other, e2);
        } else {
          id, other := e2, Binop(Sub, other, e1);
        }
      case Sub =>
        if CountIds(e1) > 0 {
          id, other := e1, Binop(Add, other, e2);
        } else {
          id, other := e2, Binop(Sub, e1, other);
          operandSwitched := !operandSwitched;
        }
      case Mul =>
        if CountIds(e1) > 0 {
          id, other := e1, Binop(Div, other, e2);
        } else {
          id, other := e2, Binop(Div, other, e1);
        }
      case Div =>
        if CountIds(e1) > 0 {
          id, other := e1, Binop(Mul, other, e2);
        } else {
          id, other := e2, Binop(Div, e1, other);
          operandSwitched := !operandSwitched;
        }
      case _ =>
        return false, id, other, operandSwitched;
    }
    ok := true;
  }

  // ---- Values ----

  // Arithmetic on leaves that have some integer value each; a quotient by zero counts as zero.
  function ValueOf(e: Tree, leaf: Tree -> int): int {
    match e
    case Binop(Add, e1, e2) => ValueOf(e1, leaf) + ValueOf(e2, leaf)
    case Binop(Sub, e1, e2) => ValueOf(e1, leaf) - ValueOf(e2, leaf)
    case Binop(Mul, e1, e2) => ValueOf(e1, leaf) * ValueOf(e2, leaf)
    case Binop(Div, e1, e2) =>
      (var d := ValueOf(e2, leaf); if d == 0 then 0 else Quot(ValueOf(e1, leaf), d))
    case _ => leaf(e)
  }

  // The path to the id only crosses additions and subtractions.
  predicate SumPath(e: Tree) {
    IsId(e) || (e.Binop? && e.op in {Add, Sub} && if CountIds(e.e1) > 0 then SumPath(e.e1) else SumPath(e.e2))
  }

  // The predicate as it reads with the id side on the left.
  function Oriented(p: Predicate, switched: bool): Predicate {
    if switched then Flip(p) else p
  }

  // Along the path to the id every factor, divisor and dividend may change sides.
  predicate KeptPath(id: Tree, expr: Tree, switched: bool, p: Predicate, leaf: Tree -> int)
    decreases id
  {
    if IsId(id) then true
    else
      var n := Move(id, expr, switched);
      n.Normal? && MoveKept(id, expr, switched, p, leaf) && KeptPath(n.id, n.expr, n.switched, p, leaf)
  }

  predicate MoveKept(id: Tree, expr: Tree, switched: bool, p: Predicate, leaf: Tree -> int) {
    match id
    case Binop(Mul, e1, e2) => FactorKept(expr, if CountIds(e1) > 0 then e2 else e1, switched, p, leaf)
    case Binop(Div, e1, e2) =>
      if CountIds(e1) > 0 then DivisorKept(expr, e2, switched, p, leaf)
      else DividendMoves(expr, e1, e2, switched, p, leaf)
    case _ => true
  }

  predicate FactorKept(expr: Tree, factor: Tree, switched: bool, p: Predicate, leaf: Tree -> int) {
    var m := ValueOf(factor, leaf);
    m != 0 && MulKept(Oriented(p, switched), ValueOf(expr, leaf), m)
  }

  predicate DivisorKept(expr: Tree, divisor: Tree, switched: bool, p: Predicate, leaf: Tree -> int) {
    var m := ValueOf(divisor, leaf);
    m != 0 && DivKept(Oriented(p, switched), ValueOf(expr, leaf), m)
  }

  predicate DividendMoves(expr: Tree, dividend: Tree, divisor: Tree, switched: bool, p: Predicate, leaf: Tree -> int) {
    var e := ValueOf(expr, leaf);
    e != 0 && ValueOf(divisor, leaf) != 0 && DividendKept(Oriented(p, switched), ValueOf(dividend, leaf), e)
  }

  lemma {:induction false} SumPathKept(id: Tree, expr: Tree, switched: bool, p: Predicate, leaf: Tree -> int)
    requires SumPath(id)
    ensures KeptPath(id, expr, switched, p, leaf)
    decreases id
  {
    if IsId(id) {
    } else {
      var n := Move(id, expr, switched);
      SumPathKept(n.id, n.expr, n.switched, p, leaf);
    }
  }

  // The condition with the id side on the left, or on the right once the operands are switched.
  predicate Condition(p: Predicate, id: int, other: int, switched: bool) {
    if switched then Compare(p, other, id) else Compare(p, id, other)
  }

  // The truth before and after one move, with the operands switched when the move switches them.
  lemma OrientedCondition(p: Predicate, id: int, other: int, switched: bool)
    ensures Condition(p, id, other, switched) <==> Compare(Oriented(p, switched), id, other)
    ensures Condition(p, id, other, !switched) <==> Compare(Oriented(p, switched), other, id)
  {
  }

  /** Where every factor, divisor and dividend on the path may change sides, and so along all sums, the normalisation
      succeeds and keeps the truth of the condition. */
  lemma {:induction false} NormalizeKeepsTruth(id: Tree, expr: Tree, switched: bool, p: Predicate, leaf: Tree -> int)
    requires KeptPath(id, expr, switched, p, leaf)
    ensures var n := Normalize(id, expr, switched);
      && n.Normal? && IsId(n.id)
      && (Condition(p, ValueOf(id, leaf), ValueOf(expr, leaf), switched)
          <==> Condition(p, leaf(n.id), ValueOf(n.expr, leaf), n.switched))
    decreases id
  {
    if IsId(id) {
    } else {
      var n := Move(id, expr, switched);
      MoveKeepsTruth(id, expr, switched, p, leaf);
      NormalizeKeepsTruth(n.id, n.expr, n.switched, p, leaf);
    }
  }

  // One move.
  lemma MoveKeepsTruth(id: Tree, expr: Tree, switched: bool, p: Predicate, leaf: Tree -> int)
    requires var n := Move(id, expr, switched); n.Normal? && MoveKept(id, expr, switched, p, leaf)
    ensures var n := Move(id, expr, switched);
      Condition(p, ValueOf(id, leaf), ValueOf(expr, leaf), switched)
      <==> Condition(p, ValueOf(n.id, leaf), ValueOf(n.expr, leaf), n.switched)
  {
    var e1, e2 := id.e1, id.e2;
    match id.op
    case Mul =>
      if CountIds(e1) > 0 {
        FactorMoves(e1, e2, expr, switched, p, leaf);
      } else {
        FactorMoves(e2, e1, expr, switched, p, leaf);
        assert ValueOf(e2, leaf) * ValueOf(e1, leaf) == ValueOf(id, leaf);
      }
    case Div =>
      if CountIds(e1) > 0 {
        DivisorMoves(e1, e2, expr, switched, p, leaf);
      } else {
        DividendMovesTruth(e1, e2, expr, switched, p, leaf);
      }
    case _ =>
  }

  lemma FactorMoves(side: Tree, factor: Tree, expr: Tree, switched: bool, p: Predicate, leaf: Tree -> int)
    requires FactorKept(expr, factor, switched, p, leaf)
    ensures Condition(p, ValueOf(side, leaf) * ValueOf(factor, leaf), ValueOf(expr, leaf), switched)
      <==> Condition(p, ValueOf(side, leaf), ValueOf(Binop(Div, expr, factor), leaf), switched)
  {
    var x, m, e := ValueOf(side, leaf), ValueOf(factor, leaf), ValueOf(expr, leaf);
    MulAgreement(Oriented(p, switched), e, m, x);
    OrientedCondition(p, x * m, e, switched);
    OrientedCondition(p, x, Quot(e, m), switched);
  }

  lemma DivisorMoves(side: Tree, divisor: Tree, expr: Tree, switched: bool, p: Predicate, leaf: Tree -> int)
    requires DivisorKept(expr, divisor, switched, p, leaf)
    ensures Condition(p, ValueOf(Binop(Div, side, divisor), leaf), ValueOf(expr, leaf), switched)
      <==> Condition(p, ValueOf(side, leaf), ValueOf(Binop(Mul, expr, divisor), leaf), switched)
  {
    var x, m, e := ValueOf(side, leaf), ValueOf(divisor, leaf), ValueOf(expr, leaf);
    DivAgreement(Oriented(p, switched), e, m, x);
    OrientedCondition(p, Quot(x, m), e, switched);
    OrientedCondition(p, x, e * m, switched);
  }

  lemma DividendMovesTruth(dividend: Tree, side: Tree, expr: Tree, switched: bool, p: Predicate, leaf: Tree -> int)
    requires DividendMoves(expr, dividend, side, switched, p, leaf)
    ensures Condition(p, ValueOf(Binop(Div, dividend, side), leaf), ValueOf(expr, leaf), switched)
      <==> Condition(p, ValueOf(side, leaf), ValueOf(Binop(Div, dividend, expr), leaf), !switched)
  {
    var x, c, e := ValueOf(side, leaf), ValueOf(dividend, leaf), ValueOf(expr, leaf);
    DividendAgreement(Oriented(p, switched), c, e, x);
    OrientedCondition(p, Quot(c, x), e, switched);
    OrientedCondition(p, x, Quot(c, e), switched);
  }

  // ---- Where it does not: ScaledConditions gives the exact conditions ----

  // id * 2 < 3 becomes id < 3 / 2: true and false for id 1.
  lemma MulChangesTruth(dim: Tree)
    ensures var id := Ocl(GlobalId, dim);
      && Normalize(Binop(Mul, id, Value(Long(2))), Value(Long(3)), false) == Normal(id, Binop(Div, Value(Long(3)), Value(Long(2))), false)
      && Compare(LT, 1 * 2, 3) && !Compare(LT, 1, Quot(3, 2))
  {
  }

  // id / 2 > 2 becomes id > 2 * 2: false and true for id 5.
  lemma DivChangesTruth(dim: Tree)
    ensures var id := Ocl(GlobalId, dim);
      && Normalize(Binop(Div, id, Value(Long(2))), Value(Long(2)), false) == Normal(id, Binop(Mul, Value(Long(2)), Value(Long(2))), false)
      && !Compare(GT, Quot(5, 2), 2) && Compare(GT, 5, 2 * 2)
  {
  }

  // ---- Guards ----

  // GuardExpr::GuardExpr: a guard whose condition must be false gets the opposite predicate.
  function Negate(p: Predicate): Predicate {
    match p
    case LT => GE
    case LE => GT
    case GE => LT
    case GT => LE
    case EQ => NEQ
    case NEQ => EQ
  }

  // pushGuardExprRight: the predicate read from the right operand.
  function Flip(p: Predicate): Predicate {
    match p
    case GT => LT
    case GE => LE
    case LE => GE
    case LT => GT
    case EQ => EQ
    case NEQ => NEQ
  }

  lemma NegateIsNot(p: Predicate, a: int, b: int)
    ensures Compare(Negate(p), a, b) <==> !Compare(p, a, b)
    ensures Compare(Flip(p), a, b) <==> Compare(p, b, a)
  {
  }

  // pushGuardExprLeft and pushGuardExprRight: an id whose dimension is not a constant gives no guard.
  function PushGuard(right: bool, id: Tree, expr: Tree, pred: Predicate, truth: bool): Option<Guard<real>>
    requires IsId(id)
  {
    if !id.dim.Value? then None
    else
      var p := if right then Flip(pred) else pred;
      Some(Guard(id.fun, DimIndex(id.dim.v), if truth then p else Negate(p), expr, None))
  }

  // The guard for a normalised condition whose id side was the right one or the left one.
  function PushNormal(n: Normal, right: bool, pred: Predicate, truth: bool): Option<Guard<real>> {
    if n.Failed? || !IsId(n.id) then None else PushGuard(right != n.switched, n.id, n.expr, pred, truth)
  }

  // buildBasicBlockGuards for one signed condition e1 pred e2 and the truth it must have.
  function BuildGuard(e1: Tree, e2: Tree, pred: Predicate, truth: bool): Option<Guard<real>> {
    var left, right := CountIds(e1), CountIds(e2);
    if left + right != 1 then None
    else if left == 1 then PushNormal(Normalize(e1, e2, false), false, pred, truth)
    else PushNormal(Normalize(e2, e1, false), true, pred, truth)
  }

  // Only sums, differences, products and quotients stand above the one counted id, and its dimension is a constant.
  predicate IdReached(e: Tree) {
    if IsId(e) then e.dim.Value?
    else
      && e.Binop? && e.op in {Add, Sub, Mul, Div}
      && ((CountIds(e.e1) == 1 && CountIds(e.e2) == 0 && IdReached(e.e1))
          || (CountIds(e.e1) == 0 && CountIds(e.e2) == 1 && IdReached(e.e2)))
  }

  predicate Pushable(n: Normal) {
    n.Normal? && IsId(n.id) && n.id.dim.Value?
  }

  lemma {:induction false} NormalizeReaches(id: Tree, expr: Tree, switched: bool)
    requires CountIds(id) == 1
    ensures Pushable(Normalize(id, expr, switched)) <==> IdReached(id)
    decreases id
  {
    if !IsId(id) {
      var n := Move(id, expr, switched);
      if n.Normal? {
        NormalizeReaches(n.id, n.expr, n.switched);
      }
    }
  }

  /** A condition gives a guard exactly when it has one counted id, in a constant dimension and below arithmetic only. */
  lemma BuildGuardExact(e1: Tree, e2: Tree, pred: Predicate, truth: bool)
    ensures BuildGuard(e1, e2, pred, truth).Some?
       <==> CountIds(e1) + CountIds(e2) == 1 && IdReached(if CountIds(e1) == 1 then e1 else e2)
  {
    if CountIds(e1) == 1 {
      NormalizeReaches(e1, e2, false);
      PushExact(Normalize(e1, e2, false), false, pred, truth);
    } else if CountIds(e2) == 1 {
      NormalizeReaches(e2, e1, false);
      PushExact(Normalize(e2, e1, false), true, pred, truth);
    }
  }

  lemma PushExact(n: Normal, right: bool, pred: Predicate, truth: bool)
    ensures PushNormal(n, right, pred, truth).Some? <==> Pushable(n)
  {
  }

  // What has to move to the other side may move, whichever side the id is on.
  predicate IdSideKept(e1: Tree, e2: Tree, pred: Predicate, leaf: Tree -> int) {
    if CountIds(e1) == 1 then KeptPath(e1, e2, false, pred, leaf) else KeptPath(e2, e1, false, Flip(pred), leaf)
  }

  predicate IdSideIsSum(e1: Tree, e2: Tree) {
    if CountIds(e1) == 1 then SumPath(e1) else SumPath(e2)
  }

  /** On a sum everything may move, for all values of the leaves. */
  lemma SumSideKept(e1: Tree, e2: Tree, pred: Predicate, leaf: Tree -> int)
    requires IdSideIsSum(e1, e2)
    ensures IdSideKept(e1, e2, pred, leaf)
  {
    if CountIds(e1) == 1 {
      SumPathKept(e1, e2, false, pred, leaf);
    } else {
      SumPathKept(e2, e1, false, Flip(pred), leaf);
    }
  }

  // The guard pushed for an id says what the condition says with the id on that side.
  ghost predicate GuardSays(g: Guard<real>, id: Tree, p: Predicate, truth: bool, right: bool, x: int, y: int) {
    && IsId(id) && id.dim.Value? && g.fun == id.fun && g.dim == DimIndex(id.dim.v)
    && (Compare(g.pred, x, y) <==> ((if right then Compare(p, y, x) else Compare(p, x, y)) <==> truth))
  }

  lemma PushKeepsTruth(right: bool, id: Tree, expr: Tree, p: Predicate, truth: bool, x: int, y: int)
    requires IsId(id) && PushGuard(right, id, expr, p, truth).Some?
    ensures GuardSays(PushGuard(right, id, expr, p, truth).value, id, p, truth, right, x, y)
    ensures PushGuard(right, id, expr, p, truth).value.expr == expr
  {
    NegateIsNot(if right then Flip(p) else p, x, y);
    NegateIsNot(p, x, y);
  }

  // The id of the guard.
  function GuardId(e1: Tree, e2: Tree): Tree {
    var n := if CountIds(e1) == 1 then Normalize(e1, e2, false) else Normalize(e2, e1, false);
    if n.Normal? then n.id else Nil
  }

  /** A guard compares its id exactly as the condition, taken with its required truth, does. */
  lemma GuardKeepsTruth(e1: Tree, e2: Tree, pred: Predicate, truth: bool, leaf: Tree -> int)
    requires BuildGuard(e1, e2, pred, truth).Some? && IdSideKept(e1, e2, pred, leaf)
    ensures var g, id := BuildGuard(e1, e2, pred, truth).value, GuardId(e1, e2);
      && IsId(id) && id.dim.Value? && g.fun == id.fun && g.dim == DimIndex(id.dim.v)
      && ((Compare(pred, ValueOf(e1, leaf), ValueOf(e2, leaf)) <==> truth)
          <==> Compare(g.pred, leaf(id), ValueOf(g.expr, leaf)))
  {
    if CountIds(e1) == 1 {
      var n := Normalize(e1, e2, false);
      NormalizeKeepsTruth(e1, e2, false, pred, leaf);
      PushKeepsTruth(n.switched, n.id, n.expr, pred, truth, leaf(n.id), ValueOf(n.expr, leaf));
    } else {
      var n := Normalize(e2, e1, false);
      NormalizeKeepsTruth(e2, e1, false, Flip(pred), leaf);
      FlippedCondition(pred, ValueOf(e2, leaf), ValueOf(e1, leaf), false);
      FlippedCondition(pred, leaf(n.id), ValueOf(n.expr, leaf), n.switched);
      PushKeepsTruth(!n.switched, n.id, n.expr, pred, truth, leaf(n.id), ValueOf(n.expr, leaf));
    }
  }

  /** One counted id in a constant dimension and operands that may change sides give a guard. */
  lemma KeptGivesGuard(e1: Tree, e2: Tree, pred: Predicate, truth: bool, leaf: Tree -> int)
    requires CountIds(e1) + CountIds(e2) == 1 && IdSideKept(e1, e2, pred, leaf)
    requires GuardId(e1, e2).Ocl? && GuardId(e1, e2).dim.Value?
    ensures BuildGuard(e1, e2, pred, truth).Some?
  {
    if CountIds(e1) == 1 {
      NormalizeKeepsTruth(e1, e2, false, pred, leaf);
    } else {
      NormalizeKeepsTruth(e2, e1, false, Flip(pred), leaf);
    }
  }

  lemma FlippedCondition(p: Predicate, id: int, other: int, switched: bool)
    ensures Condition(Flip(p), id, other, switched) <==> Condition(p, id, other, !switched)
  {
  }

  // ---- The guard in a work-item ----

  // Every leaf evaluates to its value in the work-item, and no divisor is zero.
  ghost predicate LeavesEval(e: Tree, env: Env, leaf: Tree -> int) {
    if e.Binop? && e.op in {Add, Sub, Mul, Div}
    then LeavesEval(e.e1, env, leaf) && LeavesEval(e.e2, env, leaf) && (e.op == Div ==> ValueOf(e.e2, leaf) != 0)
    else Evals(e, env, Long(leaf(e)))
  }

  lemma {:induction false} LeavesGiveValue(e: Tree, env: Env, leaf: Tree -> int)
    requires LeavesEval(e, env, leaf)
    ensures Evals(e, env, Long(ValueOf(e, leaf)))
  {
    if e.Binop? && e.op in {Add, Sub, Mul, Div} {
      LeavesGiveValue(e.e1, env, leaf);
      LeavesGiveValue(e.e2, env, leaf);
      assert BinopValue(e.op, Long(ValueOf(e.e1, leaf)), Long(ValueOf(e.e2, leaf))) == Some(Long(ValueOf(e, leaf)));
    }
  }

  lemma {:induction false} NormalizeKeepsLeaves(
    id: Tree, expr: Tree, switched: bool, p: Predicate, env: Env, leaf: Tree -> int)
    requires KeptPath(id, expr, switched, p, leaf) && LeavesEval(id, env, leaf) && LeavesEval(expr, env, leaf)
    ensures var n := Normalize(id, expr, switched);
      n.Normal? && LeavesEval(n.id, env, leaf) && LeavesEval(n.expr, env, leaf)
    decreases id
  {
    if IsId(id) {
    } else {
      var n := Move(id, expr, switched);
      NormalizeKeepsLeaves(n.id, n.expr, n.switched, p, env, leaf);
    }
  }

  lemma GuardKeepsLeaves(e1: Tree, e2: Tree, pred: Predicate, truth: bool, env: Env, leaf: Tree -> int)
    requires BuildGuard(e1, e2, pred, truth).Some? && IdSideKept(e1, e2, pred, leaf)
    requires LeavesEval(e1, env, leaf) && LeavesEval(e2, env, leaf)
    ensures LeavesEval(BuildGuard(e1, e2, pred, truth).value.expr, env, leaf) && LeavesEval(GuardId(e1, e2), env, leaf)
  {
    if CountIds(e1) == 1 {
      NormalizeKeepsLeaves(e1, e2, false, pred, env, leaf);
    } else {
      NormalizeKeepsLeaves(e2, e1, false, Flip(pred), env, leaf);
    }
  }

  /** A work-item in which the condition has its required truth satisfies the guard built from it, as the region
      analysis understands guards. */
  lemma ConditionGivesGuard(e1: Tree, e2: Tree, pred: Predicate, truth: bool, env: Env, leaf: Tree -> int)
    requires BuildGuard(e1, e2, pred, truth).Some? && IdSideKept(e1, e2, pred, leaf)
    requires LeavesEval(e1, env, leaf) && LeavesEval(e2, env, leaf)
    requires Compare(pred, ValueOf(e1, leaf), ValueOf(e2, leaf)) <==> truth
    ensures GuardHolds(BuildGuard(e1, e2, pred, truth).value, env)
  {
    var g, id := BuildGuard(e1, e2, pred, truth).value, GuardId(e1, e2);
    GuardKeepsTruth(e1, e2, pred, truth, leaf);
    GuardKeepsLeaves(e1, e2, pred, truth, env, leaf);
    LeavesGiveValue(g.expr, env, leaf);
    assert Evals(id, env, Long(leaf(id)));
    assert leaf(id) == env.ocl(g.fun, g.dim);
  }

  // ---- Signed and unsigned comparisons ----

  predicate IsWord(x: int) {
    -(WORD / 2) <= x < WORD / 2
  }

  /** getSignedPredicate reads an unsigned order as a signed one: the two agree exactly when the operands have the
      same sign. */
  lemma SignedReadingExact(p: Predicate, a: int, b: int)
    requires IsWord(a) && IsWord(b) && p in {LT, LE, GE, GT}
    ensures (Compare(p, AsUnsigned(a), AsUnsigned(b)) <==> Compare(p, a, b)) <==> (a < 0 <==> b < 0)
  {
    assert AsUnsigned(a) == if a < 0 then a + WORD else a;
    assert AsUnsigned(b) == if b < 0 then b + WORD else b;
  }
}

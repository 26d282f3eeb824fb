/** Expressions that have the same value all over a kernel: interval evaluation gives them that value
    (LibKernelExpr/src/IndexExpr, LibKernelExpr/src/GuardExpr.cpp, injectArgsValues). */
module UniformExprs {
  import opened IndexExprs
  import opened Bounds
  import opened RemainderBounds
  import opened BoundsSoundness
  import opened BoundsTightness
  import opened Evaluation
  import opened NDRanges
  import opened WorkItems
  import opened KernelExprs

  // The value of a function that does not depend on the work-item; outside the dimensions this is every function.
  function SizeValue(r: NDRange, fun: OclFunction, d: nat): Option<int>
    requires Valid(r)
  {
    if d >= r.workDim then Some(if fun in {GlobalSize, LocalSize, NumGroups} then 1 else 0)
    else
      match fun
      case GlobalSize => Some(r.origGlobal[d])
      case LocalSize => Some(r.local[d])
      case NumGroups => Some(r.origGlobal[d] / r.local[d])
      case _ => None
  }

  // The Mod rule gives the remainder of two numbers (BoundsTightness.ModPointExact).
  predicate ModOfPoints(x: Num, y: Num) {
    x.Long? && y.Long? && ((x.n < y.n && Mag(x.n) < Mag(y.n)) || (y.n == 1 && x.n >= 1))
  }

  /** The value of an expression of constants, arguments and sizes in the kernel r. */
  function UniformValue(e: Tree, r: NDRange): Option<Num>
    requires Valid(r)
    decreases e
  {
    match e
    case Value(v) => Some(v)
    case Arg(_, _, value) => value
    case Cast(c, e1) => (var x := UniformValue(e1, r); if x.None? then None else CastValue(c, x.value))
    case Ocl(fun, dim) =>
      if !dim.Value? then None else (var x := SizeValue(r, fun, DimIndex(dim.v)); if x.None? then None else Some(Long(x.value)))
    case Binop(op, e1, e2) =>
      var x, y := UniformValue(e1, r), UniformValue(e2, r);
      if x.None? || y.None? || (op == Mod && !ModOfPoints(x.value, y.value)) then None else BinopValue(op, x.value, y.value)
    case Min(es) => UniformFold(true, es, r)
    case Max(es) => UniformFold(false, es, r)
    case _ => None
  }

  function UniformFold(least: bool, es: seq<Tree>, r: NDRange): Option<Num>
    requires Valid(r)
    decreases es
  {
    if |es| == 0 then None
    else
      var y := UniformValue(es[|es| - 1], r);
      if |es| == 1 then y
      else
        var x := UniformFold(least, es[..|es| - 1], r);
        if x.None? || y.None? || !SameType(x.value, y.value) then None
        else Some(if least then Least(x.value, y.value) else Greatest(x.value, y.value))
  }

  lemma BinopOfPoints(op: BinOp, x: Num, y: Num)
    requires BinopValue(op, x, y).Some? && (op == Mod ==> ModOfPoints(x, y))
    ensures var v := BinopValue(op, x, y).value; BinopBounds(op, Range(x, x), Range(y, y)) == Range(v, v)
  {
    match (x, y)
    case (Long(a), Long(b)) =>
      if op == Mod {
        ModPointExact(a, b);
      } else {
        LongBoundsSound(op, a, b, a, a, b, b);
      }
    case (Float(a), Float(b)) => RealBoundsSound(op, a, b, a, a, b, b);
    case (Double(a), Double(b)) => RealBoundsSound(op, a, b, a, a, b, b);
  }

  lemma FoldOfPoints(least: bool, x: Num, y: Num)
    requires SameType(x, y)
    ensures var v := if least then Least(x, y) else Greatest(x, y); FoldBounds(least, Range(x, x), Range(y, y)) == Range(v, v)
  {
  }

  lemma SizeExpr(fun: OclFunction, d: nat, r: NDRange, guards: Guards)
    requires Valid(r) && SizeValue(r, fun, d).Some?
    ensures OclKernelExpr(fun, d, r, guards) == Value(Long(SizeValue(r, fun, d).value))
  {
  }

  /** The bounds of a uniform expression are its value, for the whole kernel and for every part. */
  lemma {:induction false} UniformBounds(e: Tree, r: NDRange, guards: Guards, indirs: Indirs)
    requires Valid(r) && UniformValue(e, r).Some?
    ensures var v := UniformValue(e, r).value; ComputeBounds(KernelExpr(e, r, guards, indirs)) == Range(v, v)
    decreases e
  {
    match e
    case Cast(_, e1) => UniformBounds(e1, r, guards, indirs);
    case Binop(op, e1, e2) =>
      UniformBounds(e1, r, guards, indirs);
      UniformBounds(e2, r, guards, indirs);
      BinopOfPoints(op, UniformValue(e1, r).value, UniformValue(e2, r).value);
    case Min(es) => UniformFolds(true, es, r, guards, indirs);
    case Max(es) => UniformFolds(false, es, r, guards, indirs);
    case Ocl(fun, dim) =>
      SizeExpr(fun, DimIndex(dim.v), r, guards);
    case _ =>
  }

  lemma {:induction false} UniformFolds(least: bool, es: seq<Tree>, r: NDRange, guards: Guards, indirs: Indirs)
    requires Valid(r) && UniformFold(least, es, r).Some?
    ensures ComputeOperands(KernelExprList(es, r, guards, indirs)).Ranges?
    ensures var v := UniformFold(least, es, r).value;
            FoldRanges(least, ComputeOperands(KernelExprList(es, r, guards, indirs)).bs) == Range(v, v)
    decreases es
  {
    var last := es[|es| - 1];
    var ks := KernelExprList(es, r, guards, indirs);
    UniformBounds(last, r, guards, indirs);
    if |es| == 1 {
      assert KernelExprList(es[..0], r, guards, indirs) == [];
      SingleRange(least, ks);
    } else {
      var init := es[..|es| - 1];
      UniformFolds(least, init, r, guards, indirs);
      assert ks[..|ks| - 1] == KernelExprList(init, r, guards, indirs);
      InitOperands(ks);
      var x, y := UniformFold(least, init, r).value, UniformValue(last, r).value;
      FoldRangesSnoc(least, ComputeOperands(ks[..|ks| - 1]).bs, Range(y, y));
      FoldOfPoints(least, x, y);
    }
  }

  // ---- In a work-item ----

  // v is the one value the expression can have.
  ghost predicate OnlyValue(e: Tree, env: Env, v: Num) {
    forall x: Num :: Evals(e, env, x) <==> x == v
  }

  ghost predicate OnlyFold(least: bool, es: seq<Tree>, env: Env, v: Num) {
    forall x: Num :: EvalsFold(least, es, env, x) <==> x == v
  }

  lemma OnlyCast(c: CastOp, e: Tree, env: Env, x: Num)
    requires OnlyValue(e, env, x) && CastValue(c, x).Some?
    ensures OnlyValue(Cast(c, e), env, CastValue(c, x).value)
  {
    assert Evals(e, env, x);
  }

  lemma OnlyBinop(op: BinOp, e1: Tree, e2: Tree, env: Env, x: Num, y: Num)
    requires OnlyValue(e1, env, x) && OnlyValue(e2, env, y) && BinopValue(op, x, y).Some?
    ensures OnlyValue(Binop(op, e1, e2), env, BinopValue(op, x, y).value)
  {
    assert Evals(e1, env, x) && Evals(e2, env, y);
  }

  lemma OnlyFolds(least: bool, es: seq<Tree>, env: Env, x: Num, y: Num)
    requires |es| > 1 && OnlyFold(least, es[..|es| - 1], env, x) && OnlyValue(es[|es| - 1], env, y) && SameType(x, y)
    ensures OnlyFold(least, es, env, if least then Least(x, y) else Greatest(x, y))
  {
    assert EvalsFold(least, es[..|es| - 1], env, x) && Evals(es[|es| - 1], env, y);
  }

  /** In every work-item of the kernel a uniform expression has that value, and no other. */
  lemma {:induction false} UniformEvals(e: Tree, r: NDRange, w: Item, env: Env)
    requires Valid(r) && ItemOf(r, w) && UniformValue(e, r).Some?
    requires forall f: OclFunction, x :: env.ocl(f, x) == OclValue(r, w, f, x)
    ensures OnlyValue(e, env, UniformValue(e, r).value)
    decreases e
  {
    match e
    case Cast(c, e1) =>
      UniformEvals(e1, r, w, env);
      OnlyCast(c, e1, env, UniformValue(e1, r).value);
    case Binop(op, e1, e2) =>
      UniformEvals(e1, r, w, env);
      UniformEvals(e2, r, w, env);
      OnlyBinop(op, e1, e2, env, UniformValue(e1, r).value, UniformValue(e2, r).value);
    case Min(es) => UniformFoldEvals(true, es, r, w, env);
    case Max(es) => UniformFoldEvals(false, es, r, w, env);
    case _ =>
  }

  lemma {:induction false} UniformFoldEvals(least: bool, es: seq<Tree>, r: NDRange, w: Item, env: Env)
    requires Valid(r) && ItemOf(r, w) && UniformFold(least, es, r).Some?
    requires forall f: OclFunction, x :: env.ocl(f, x) == OclValue(r, w, f, x)
    ensures OnlyFold(least, es, env, UniformFold(least, es, r).value)
    decreases es
  {
    UniformEvals(es[|es| - 1], r, w, env);
    if |es| > 1 {
      var init := es[..|es| - 1];
      UniformFoldEvals(least, init, r, w, env);
      OnlyFolds(least, es, env, UniformFold(least, init, r).value, UniformValue(es[|es| - 1], r).value);
    }
  }

  /** A guard on a uniform integer gets that integer as its value. */
  lemma GuardValueUniform(e: Tree, r: NDRange)
    requires Valid(r) && UniformValue(e, r).Some? && UniformValue(e, r).value.Long?
    ensures GuardValue(e, r) == Some(UniformValue(e, r).value.n)
  {
    UniformBounds(e, r, [], []);
  }
}

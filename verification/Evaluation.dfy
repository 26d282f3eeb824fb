/** What an index expression can evaluate to for one work-item: the meaning that interval evaluation has
    to over-approximate. Work-item functions follow section 6.12.1 of the OpenCL 1.2 specification. */
module Evaluation {
  import opened IndexExprs
  import opened Bounds

  // The value of each work-item function for a dimension index, and of each indirection, in one work-item.
  datatype Env = Env(ocl: (OclFunction, int) -> int, indir: nat -> Num)

  // The unsigned dimension index passed to a work-item function.
  function DimIndex(v: Num): nat {
    match v
    case Long(n) => n % 0x1_0000_0000
    case Float(r) => Trunc(r) % 0x1_0000_0000
    case Double(r) => Trunc(r) % 0x1_0000_0000
  }

  // v lies between x and y, whatever their order.
  predicate Between(v: Num, x: Num, y: Num) {
    (Le(x, v) && Le(v, y)) || (Le(y, v) && Le(v, x))
  }

  // Lb and Hb nodes have no value in a work-item, Nil has none, and Unknown may have any.
  ghost predicate Evals(e: Tree, env: Env, v: Num)
    decreases e
  {
    match e
    case Nil => false
    case Value(x) => v == x
    case Cast(c, e1) => exists x: Num :: Evals(e1, env, x) && CastValue(c, x) == Some(v)
    case Arg(_, _, value) => value.None? || v == value.value
    case Ocl(fun, dim) => exists x: Num :: Evals(dim, env, x) && v == Long(env.ocl(fun, DimIndex(x)))
    case Binop(op, e1, e2) =>
      exists x: Num, y: Num :: Evals(e1, env, x) && Evals(e2, env, y) && BinopValue(op, x, y) == Some(v)
    case Interval(lo, hi) => exists x: Num, y: Num :: Evals(lo, env, x) && Evals(hi, env, y) && Between(v, x, y)
    case Unknown(_) => true
    case Min(es) => EvalsFold(true, es, env, v)
    case Max(es) => EvalsFold(false, es, env, v)
    case Lb(_) => false
    case Hb(_) => false
    case Indir(no, lo, hi) => v == env.indir(no)
  }

  // The least (greatest) of one value of each operand.
  ghost predicate EvalsFold(least: bool, es: seq<Tree>, env: Env, v: Num)
    decreases es
  {
    if |es| == 0 then false
    else if |es| == 1 then Evals(es[0], env, v)
    else
      exists x: Num, y: Num ::
        && EvalsFold(least, es[..|es| - 1], env, x) && Evals(es[|es| - 1], env, y)
        && SameType(x, y) && v == if least then Least(x, y) else Greatest(x, y)
  }
}

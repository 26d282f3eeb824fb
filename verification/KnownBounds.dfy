/** When the bounds of a use are known (LibKernelExpr/src/IndexExpr/IndexExpr.cpp, computeBoundsRec; the getKernelExpr
    functions of LibKernelExpr/src/IndexExpr). */
module KnownBounds {
  import opened IndexExprs
  import opened Bounds
  import opened BoundsSoundness
  import opened NDRanges
  import opened Evaluation
  import opened KernelExprs

  // Some leaf has no bounds.
  predicate Lacks(e: Tree)
    decreases e
  {
    match e
    case Nil => true
    case Unknown(_) => true
    case Ocl(_, _) => true
    case Arg(_, _, value) => value.None?
    case Value(_) => false
    case Cast(_, e1) => Lacks(e1)
    case Binop(_, e1, e2) => Lacks(e1) || Lacks(e2)
    case Interval(lo, hi) => Lacks(lo) || Lacks(hi)
    case Min(es) => exists i :: 0 <= i < |es| && Lacks(es[i])
    case Max(es) => exists i :: 0 <= i < |es| && Lacks(es[i])
    case Lb(e1) => Lacks(e1)
    case Hb(e1) => Lacks(e1)
    case Indir(_, lo, hi) => Lacks(lo) || Lacks(hi)
  }

  /** On a well-typed tree whose corner rules apply, the bounds are missing exactly when some leaf has none. */
  lemma {:induction false} MissingExact(e: Tree, k: Kind)
    requires CornersApply(e) && HasKind(e, k)
    ensures ComputeBounds(e).Missing? <==> Lacks(e)
    decreases e
  {
    BoundsOrdered(e, k);
    match e
    case Cast(c, e1) =>
      var from :| CastsFrom(c, from, k) && HasKind(e1, from);
      MissingExact(e1, from);
    case Binop(_, e1, e2) =>
      BoundsOrdered(e1, k);
      MissingExact(e1, k);
      MissingExact(e2, k);
    case Interval(lo, hi) =>
      BoundsOrdered(lo, k);
      MissingExact(lo, k);
      MissingExact(hi, k);
    case Indir(_, lo, hi) =>
      BoundsOrdered(lo, k);
      MissingExact(lo, k);
      MissingExact(hi, k);
    case Lb(e1) => MissingExact(e1, k);
    case Hb(e1) => MissingExact(e1, k);
    case Min(es) => MissingOperands(es, k);
    case Max(es) => MissingOperands(es, k);
    case _ =>
  }

  lemma {:induction false} MissingOperands(es: seq<Tree>, k: Kind)
    requires forall i :: 0 <= i < |es| ==> CornersApply(es[i]) && HasKind(es[i], k)
    ensures var o := ComputeOperands(es); o.Stopped? ==> o.b.Missing?
    ensures ComputeOperands(es).Stopped? <==> exists i :: 0 <= i < |es| && Lacks(es[i])
    decreases es
  {
    if es != [] {
      var init, last := es[..|es| - 1], es[|es| - 1];
      MissingOperands(init, k);
      MissingExact(last, k);
      BoundsOrdered(last, k);
      InitOperands(es);
      if i :| 0 <= i < |es| && Lacks(es[i]) {
        assert i < |init| ==> init[i] == es[i];
      }
    }
  }

  // The kernel expression cannot tell what the leaf is: a null child, an unknown, an argument without value, an id
  // function of a computed dimension, or an indirection without values.
  predicate Hidden(e: Tree, indirs: Indirs)
    decreases e
  {
    match e
    case Nil => true
    case Unknown(_) => true
    case Ocl(_, dim) => !dim.Value?
    case Arg(_, _, value) => value.None?
    case Value(_) => false
    case Cast(_, e1) => Hidden(e1, indirs)
    case Binop(_, e1, e2) => Hidden(e1, indirs) || Hidden(e2, indirs)
    case Interval(lo, hi) => Hidden(lo, indirs) || Hidden(hi, indirs)
    case Min(es) => exists i :: 0 <= i < |es| && Hidden(es[i], indirs)
    case Max(es) => exists i :: 0 <= i < |es| && Hidden(es[i], indirs)
    case Lb(e1) => Hidden(e1, indirs)
    case Hb(e1) => Hidden(e1, indirs)
    case Indir(no, _, _) => forall i :: 0 <= i < |indirs| ==> indirs[i].id != no
  }

  lemma {:induction false} KernelLacks(e: Tree, r: NDRange, guards: Guards, indirs: Indirs)
    requires Valid(r)
    ensures Lacks(KernelExpr(e, r, guards, indirs)) <==> Hidden(e, indirs)
    decreases e
  {
    match e
    case Cast(_, e1) => KernelLacks(e1, r, guards, indirs);
    case Binop(_, e1, e2) =>
      KernelLacks(e1, r, guards, indirs);
      KernelLacks(e2, r, guards, indirs);
    case Interval(lo, hi) =>
      KernelLacks(lo, r, guards, indirs);
      KernelLacks(hi, r, guards, indirs);
    case Lb(e1) => KernelLacks(e1, r, guards, indirs);
    case Hb(e1) => KernelLacks(e1, r, guards, indirs);
    case Min(es) => KernelListLacks(es, r, guards, indirs);
    case Max(es) => KernelListLacks(es, r, guards, indirs);
    case Ocl(fun, dim) =>
      if dim.Value? {
        OclKnown(fun, DimIndex(dim.v), r, guards);
      }
    case Indir(no, _, _) => FindIndirFirst(indirs, no);
    case _ =>
  }

  lemma OclKnown(fun: OclFunction, d: nat, r: NDRange, guards: Guards)
    requires Valid(r)
    ensures !Lacks(OclKernelExpr(fun, d, r, guards))
  {
  }

  lemma {:induction false} KernelListLacks(es: seq<Tree>, r: NDRange, guards: Guards, indirs: Indirs)
    requires Valid(r)
    ensures var ks := KernelExprList(es, r, guards, indirs);
      forall i :: 0 <= i < |es| ==> (Lacks(ks[i]) <==> Hidden(es[i], indirs))
    decreases es
  {
    if es != [] {
      var init := es[..|es| - 1];
      KernelListLacks(init, r, guards, indirs);
      KernelLacks(es[|es| - 1], r, guards, indirs);
      assert forall i :: 0 <= i < |init| ==> init[i] == es[i];
    }
  }

  /** The bounds of a use over a sub-kernel are missing exactly when some leaf of it is hidden. */
  lemma KernelBoundsKnown(e: Tree, r: NDRange, guards: Guards, indirs: Indirs, k: Kind)
    requires Valid(r) && CornersApply(KernelExpr(e, r, guards, indirs)) && HasKind(KernelExpr(e, r, guards, indirs), k)
    ensures ComputeBounds(KernelExpr(e, r, guards, indirs)).Missing? <==> Hidden(e, indirs)
  {
    MissingExact(KernelExpr(e, r, guards, indirs), k);
    KernelLacks(e, r, guards, indirs);
  }

  // The values of an indirection keep their places.
  lemma IndirExpr(no: nat, lo: Tree, hi: Tree, r: NDRange, guards: Guards, indirs: Indirs, i: nat)
    requires Valid(r) && FirstOfId(indirs, i) && indirs[i].id == no
    ensures KernelExpr(Indir(no, lo, hi), r, guards, indirs) == Indir(no, Value(indirs[i].lb), Value(indirs[i].hb))
  {
    FindIndirFirst(indirs, no);
  }
}

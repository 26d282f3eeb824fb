/** Work-item expressions with guards (LibKernelExpr/src/WorkItemExpr.cpp, LibKernelExpr/src/GuardExpr.cpp). */
module WorkItemExprsSoundness {
  import opened IndexExprs
  import opened Bounds
  import opened BoundsSoundness
  import opened BoundsTightness
  import opened Evaluation
  import opened NDRanges
  import opened WorkItems
  import opened KernelExprs
  import opened KernelExprsSoundness

  // The values read back for an indirection, by the first entry that names it, are ends between which the value in
  // the work-item lies.
  ghost predicate IndirsHold(indirs: Indirs, env: Env) {
    forall i :: FirstOfId(indirs, i) ==> Between(env.indir(indirs[i].id), indirs[i].lb, indirs[i].hb)
  }

  lemma {:induction false} KernelIndirsWithin(e: Tree, s: NDRange, guards: Guards, indirs: Indirs, env: Env)
    requires Valid(s) && IndirsHold(indirs, env)
    ensures IndirsWithin(KernelExpr(e, s, guards, indirs), env)
    decreases e
  {
    match e
    case Cast(_, e1) => KernelIndirsWithin(e1, s, guards, indirs, env);
    case Binop(_, e1, e2) =>
      KernelIndirsWithin(e1, s, guards, indirs, env);
      KernelIndirsWithin(e2, s, guards, indirs, env);
    case Interval(lo, hi) =>
      KernelIndirsWithin(lo, s, guards, indirs, env);
      KernelIndirsWithin(hi, s, guards, indirs, env);
    case Min(es) => ListIndirsWithin(es, s, guards, indirs, env);
    case Max(es) => ListIndirsWithin(es, s, guards, indirs, env);
    case Indir(no, _, _) =>
      FindIndirFirst(indirs, no);
      if FindIndir(indirs, no).Some? {
        var i :| FirstOfId(indirs, i) && indirs[i].id == no && indirs[i] == FindIndir(indirs, no).value;
        assert Between(env.indir(no), indirs[i].lb, indirs[i].hb);
      }
    case _ =>
  }

  lemma {:induction false} ListIndirsWithin(es: seq<Tree>, s: NDRange, guards: Guards, indirs: Indirs, env: Env)
    requires Valid(s) && IndirsHold(indirs, env)
    ensures forall i :: 0 <= i < |es| ==> IndirsWithin(KernelExprList(es, s, guards, indirs)[i], env)
    decreases es
  {
    if |es| == 0 {
    } else {
      ListIndirsWithin(es[..|es| - 1], s, guards, indirs, env);
      KernelIndirsWithin(es[|es| - 1], s, guards, indirs, env);
    }
  }

  /** The bounds of a sub-kernel expression contain every value its work-items give the expression. */
  lemma SubKernelBoundsSound(
    e: Tree, r: NDRange, s: NDRange, guards: Guards, indirs: Indirs, w: Item, env: Env, v: Num)
    requires PartOf(s, r) && ItemOf(r, w) && InPart(r, s, w) && Supported(e, r, s, guards)
    requires forall f: OclFunction, x :: env.ocl(f, x) == OclValue(r, w, f, x)
    requires ValuesExact(guards, env) && Satisfies(guards, env) && IndirsHold(indirs, env)
    requires CornersApply(KernelExpr(e, s, guards, indirs)) && Evals(e, env, v)
    requires !ComputeBounds(KernelExpr(e, s, guards, indirs)).Missing?
    ensures ComputeBounds(KernelExpr(e, s, guards, indirs)).Range?
    ensures InRange(v, ComputeBounds(KernelExpr(e, s, guards, indirs)))
  {
    KernelExprSound(e, r, s, guards, indirs, w, env, v);
    KernelIndirsWithin(e, s, guards, indirs, env);
    BoundsSound(KernelExpr(e, s, guards, indirs), env, v);
  }

  /** Lb and Hb of an expression become numbers around every value its work-items give it, and values the sub-kernel
      expression takes. */
  lemma SubKernelEnds(
    e: Tree, r: NDRange, s: NDRange, guards: Guards, indirs: Indirs, w: Item, env: Env, v: Num)
    requires PartOf(s, r) && ItemOf(r, w) && InPart(r, s, w) && Supported(e, r, s, guards)
    requires forall f: OclFunction, x :: env.ocl(f, x) == OclValue(r, w, f, x)
    requires ValuesExact(guards, env) && Satisfies(guards, env) && IndirsHold(indirs, env)
    requires CornersApply(KernelExpr(e, s, guards, indirs)) && Evals(e, env, v)
    requires ComputeBounds(KernelExpr(e, s, guards, indirs)).Range? && Plain(KernelExpr(e, s, guards, indirs))
    ensures EndsAround(KernelExpr(e, s, guards, indirs), env,
      ComputeBounds(KernelExpr(Lb(e), s, guards, indirs)), ComputeBounds(KernelExpr(Hb(e), s, guards, indirs)), v)
  {
    KernelExprSound(e, r, s, guards, indirs, w, env, v);
    EndNodes(KernelExpr(e, s, guards, indirs), env, v);
    EndExprs(e, s, guards, indirs);
  }

  lemma EndExprs(e: Tree, s: NDRange, guards: Guards, indirs: Indirs)
    requires Valid(s)
    ensures KernelExpr(Lb(e), s, guards, indirs) == Lb(KernelExpr(e, s, guards, indirs))
    ensures KernelExpr(Hb(e), s, guards, indirs) == Hb(KernelExpr(e, s, guards, indirs))
  {
  }

  /** A guard value computed over the whole kernel is the value its expression has in every work-item. */
  lemma GuardValueExact(e: Tree, r: NDRange, w: Item, env: Env, v: int)
    requires PartOf(r, r) && ItemOf(r, w) && Supported(e, r, r, []) && CornersApply(KernelExpr(e, r, [], []))
    requires forall f: OclFunction, x :: env.ocl(f, x) == OclValue(r, w, f, x)
    requires GuardValue(e, r).Some? && Evals(e, env, Long(v))
    ensures v == GuardValue(e, r).value
  {
    InWhole(r, w);
    SubKernelBoundsSound(e, r, r, [], [], w, env, Long(v));
  }

  lemma InWhole(r: NDRange, w: Item)
    requires PartOf(r, r) && ItemOf(r, w)
    ensures InPart(r, r, w)
  {
  }

  // ---- isOutOfGuards ----

  // Guards on work-group ids are only used on kernels whose offset is zero in that dimension.
  ghost predicate GroupGuardsSupported(guards: Guards, r: NDRange)
    requires Valid(r)
  {
    forall i :: 0 <= i < |guards| && guards[i].fun == GroupId && guards[i].dim < r.workDim ==> r.offset[guards[i].dim] == 0
  }

  lemma IdInSpan(r: NDRange, s: NDRange, w: Item, fun: OclFunction, d: nat)
    requires PartOf(s, r) && ItemOf(r, w) && InPart(r, s, w) && d < r.workDim
    requires fun == GroupId ==> r.offset[d] == 0
    ensures fun == GlobalId ==> In(OclValue(r, w, fun, d), GlobalSpan(s, d))
    ensures fun == GroupId ==> In(OclValue(r, w, fun, d), GroupSpan(s, d))
    ensures fun == LocalId ==> In(OclValue(r, w, fun, d), LocalSpan(s, d))
  {
    GlobalIdParts(w.group[d], w.local[d], r.local[d], r.offset[d]);
    GroupInSpan(s, d, GlobalIdOf(r, w, d));
  }

  /** When isOutOfGuards answers true, no work-item of the part satisfies the guards. */
  lemma {:induction false} OutOfGuardsSound(
    guards: Guards, i: nat, r: NDRange, s: NDRange, w: Item, env: Env)
    requires PartOf(s, r) && ItemOf(r, w) && InPart(r, s, w) && GroupGuardsSupported(guards, r)
    requires forall f: OclFunction, x :: env.ocl(f, x) == OclValue(r, w, f, x)
    requires ValuesExact(guards, env) && i <= |guards| && OutOfGuardsFrom(guards, i, s)
    ensures !Satisfies(guards, env)
    decreases |guards| - i
  {
    var g := guards[i];
    if g.dim >= s.workDim || g.value.None? || g.fun !in {GlobalId, GroupId, LocalId} {
      OutOfGuardsSound(guards, i + 1, r, s, w, env);
    } else {
      IdInSpan(r, s, w, g.fun, g.dim);
      var span := if g.fun == GlobalId then GlobalSpan(s, g.dim) else if g.fun == GroupId then GroupSpan(s, g.dim)
        else LocalSpan(s, g.dim);
      if !SpanMisses(span, g.pred, g.value.value) {
        OutOfGuardsSound(guards, i + 1, r, s, w, env);
      } else if Satisfies(guards, env) {
        SatisfiedMeets(guards, env, g.fun, g.dim);
        assert false;
      }
    }
  }
}

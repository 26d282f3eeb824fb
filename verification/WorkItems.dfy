/** Work-items and their ids, as section 6.12.1 of the OpenCL 1.2 specification defines them. */
module WorkItems {
  import opened IndexExprs
  import opened Bounds
  import opened Evaluation
  import opened NDRanges

  // The work-group and the place in it of a work-item, one entry per dimension.
  datatype Item = Item(group: seq<nat>, local: seq<nat>)

  // w is a work-item of the kernel launched on r.
  ghost predicate ItemOf(r: NDRange, w: Item)
    requires Valid(r)
  {
    && |w.group| == |w.local| == r.workDim
    && forall d :: 0 <= d < r.workDim ==>
      && w.local[d] < r.local[d]
      && w.group[d] * r.local[d] + w.local[d] < r.global[d]
  }

  function GlobalIdOf(r: NDRange, w: Item, d: nat): nat
    requires d < |w.group| && d < |w.local| && d < |r.local| && d < |r.offset|
  {
    w.group[d] * r.local[d] + w.local[d] + r.offset[d]
  }

  // The value of a work-item function; an index outside the dimensions gives the specified default.
  function OclValue(r: NDRange, w: Item, fun: OclFunction, d: int): int {
    if 0 <= d < r.workDim && d < |w.group| && d < |w.local| && d < |r.local| && d < |r.offset| && d < |r.origGlobal| && r.local[d] > 0
    then
      match fun
      case GlobalId => GlobalIdOf(r, w, d)
      case LocalId => w.local[d]
      case GlobalSize => r.origGlobal[d]
      case LocalSize => r.local[d]
      case GroupId => w.group[d]
      case NumGroups => r.origGlobal[d] / r.local[d]
    else
      match fun
      case GlobalId => 0
      case LocalId => 0
      case GroupId => 0
      case _ => 1
  }

  function ItemEnv(r: NDRange, w: Item, indir: nat -> Num): Env {
    Env((fun, d) => OclValue(r, w, fun, d), indir)
  }

  // s has the work-groups of the kernel's range r.
  ghost predicate PartOf(s: NDRange, r: NDRange) {
    && WholeGroups(r) && r.origGlobal == r.global
    && Valid(s) && s.workDim == r.workDim && s.local == r.local
  }

  // The work-items of r that the part s runs.
  ghost predicate InPart(r: NDRange, s: NDRange, w: Item)
    requires PartOf(s, r) && ItemOf(r, w)
  {
    forall d :: 0 <= d < r.workDim ==> s.offset[d] <= GlobalIdOf(r, w, d) < s.offset[d] + s.global[d]
  }

  // A guard holds in a work-item when its id compares with every value of its expression as it says.
  ghost predicate GuardHolds(g: Guard<real>, env: Env) {
    exists v: int :: Evals(g.expr, env, Long(v)) && Compare(g.pred, env.ocl(g.fun, g.dim), v)
  }
}

/** From the expression of one work-item to the expression of a sub-kernel
    (LibKernelExpr/src/IndexExpr/IndexExprOCL.cpp, LibKernelExpr/src/WorkItemExpr.cpp, LibKernelExpr/src/GuardExpr.cpp). */
module KernelExprs {
  import opened IndexExprs
  import opened Bounds
  import opened Evaluation
  import opened NDRanges

  type Guards = seq<Guard<real>>
  type Indirs = seq<IndirectionValue<real>>

  datatype Span = Span(lb: int, hb: int)

  // ---- Guards ----

  // applyGuard: narrows the ids of a range to those that can satisfy the guard.
  function ApplyGuard(g: Guard<real>, s: Span): Span {
    if g.value.None? then s
    else
      var v := g.value.value;
      match g.pred
      case LT => Span(if s.lb >= v then v - 1 else s.lb, if s.hb >= v then v - 1 else s.hb)
      case LE => Span(if s.lb > v then v else s.lb, if s.hb > v then v else s.hb)
      case GE => Span(if s.lb < v then v else s.lb, if s.hb < v then v else s.hb)
      case GT => Span(if s.lb <= v then v + 1 else s.lb, if s.hb <= v then v + 1 else s.hb)
      case EQ => Span(v, v)
      case NEQ => if v == 0 then Span(if s.lb <= 0 then 1 else s.lb, if s.hb <= 0 then 1 else s.hb) else s
  }

  // The guards on one id function of one dimension, in order.
  function ApplyGuards(guards: Guards, fun: OclFunction, d: nat, s: Span): Span {
    if |guards| == 0 then s
    else
      var before := ApplyGuards(guards[..|guards| - 1], fun, d, s);
      var g := guards[|guards| - 1];
      if g.dim == d && g.fun == fun then ApplyGuard(g, before) else before
  }

  function GlobalSpan(r: NDRange, d: nat): Span
    requires Valid(r) && d < r.workDim
  {
    var offset: int, global: int := r.offset[d], r.global[d];
    Span(offset, global - 1 + offset)
  }

  function GroupSpan(r: NDRange, d: nat): Span
    requires Valid(r) && d < r.workDim
  {
    Span(Quot(GlobalSpan(r, d).lb, r.local[d]), Quot(GlobalSpan(r, d).hb, r.local[d]))
  }

  function LocalSpan(r: NDRange, d: nat): Span
    requires Valid(r) && d < r.workDim
  {
    Span(0, r.local[d] - 1)
  }

  function Meet(s: Span, t: Span): Span {
    Span(if t.lb > s.lb then t.lb else s.lb, if t.hb < s.hb then t.hb else s.hb)
  }

  // The spans of get_global_id, get_group_id and get_local_id over a sub-NDRange.
  function GlobalIds(r: NDRange, guards: Guards, d: nat): Span
    requires Valid(r) && d < r.workDim
  {
    var group := ApplyGuards(guards, GroupId, d, GroupSpan(r, d));
    var local := ApplyGuards(guards, LocalId, d, LocalSpan(r, d));
    Meet(ApplyGuards(guards, GlobalId, d, GlobalSpan(r, d)),
         Span(group.lb * r.local[d] + local.lb, group.hb * r.local[d] + local.hb))
  }

  function GroupIds(r: NDRange, guards: Guards, d: nat): Span
    requires Valid(r) && d < r.workDim
  {
    var global := ApplyGuards(guards, GlobalId, d, GlobalSpan(r, d));
    Meet(ApplyGuards(guards, GroupId, d, GroupSpan(r, d)),
         Span(Quot(global.lb, r.local[d]), Quot(global.hb, r.local[d])))
  }

  function LocalIds(r: NDRange, guards: Guards, d: nat): Span
    requires Valid(r) && d < r.workDim
  {
    var global := ApplyGuards(guards, GlobalId, d, GlobalSpan(r, d));
    Meet(ApplyGuards(guards, LocalId, d, LocalSpan(r, d)),
         Span(Rem(global.lb, r.local[d]), Rem(global.hb, r.local[d])))
  }

  function IntervalOf(s: Span): Tree {
    Interval(Value(Long(s.lb)), Value(Long(s.hb)))
  }

  // ---- getKernelExpr ----

  function OclKernelExpr(fun: OclFunction, d: nat, r: NDRange, guards: Guards): Tree
    requires Valid(r)
  {
    if d >= r.workDim then Value(Long(if fun in {GlobalId, GroupId, LocalId} then 0 else 1))
    else
      match fun
      case GlobalId => IntervalOf(GlobalIds(r, guards, d))
      case GroupId => IntervalOf(GroupIds(r, guards, d))
      case LocalId => IntervalOf(LocalIds(r, guards, d))
      case GlobalSize => Value(Long(r.origGlobal[d]))
      case LocalSize => Value(Long(r.local[d]))
      case NumGroups => Value(Long(r.origGlobal[d] / r.local[d]))
  }

  // The values read back for indirection no, the first entry that names it.
  function FindIndir(indirs: Indirs, no: nat): Option<IndirectionValue<real>> {
    if |indirs| == 0 then None
    else if indirs[0].id == no then Some(indirs[0])
    else FindIndir(indirs[1..], no)
  }

  // Entry i is the first one with its id.
  predicate FirstOfId(indirs: Indirs, i: int) {
    0 <= i < |indirs| && forall j :: 0 <= j < i ==> indirs[j].id != indirs[i].id
  }

  /** Nothing is found exactly when no entry names the indirection; otherwise the first entry that does. */
  lemma {:induction false} FindIndirFirst(indirs: Indirs, no: nat)
    ensures FindIndir(indirs, no).Some? <==> exists i :: 0 <= i < |indirs| && indirs[i].id == no
    ensures forall i :: FirstOfId(indirs, i) && indirs[i].id == no ==> FindIndir(indirs, no) == Some(indirs[i])
    ensures FindIndir(indirs, no).Some? ==>
      exists i :: FirstOfId(indirs, i) && indirs[i].id == no && indirs[i] == FindIndir(indirs, no).value
    decreases |indirs|
  {
    if |indirs| == 0 {
    } else if indirs[0].id == no {
      assert FirstOfId(indirs, 0);
    } else {
      var rest := indirs[1..];
      FindIndirFirst(rest, no);
      forall i | FirstOfId(indirs, i) && indirs[i].id == no
        ensures i > 0 && FirstOfId(rest, i - 1) && rest[i - 1] == indirs[i]
      {
        forall j | 0 <= j < i - 1 ensures rest[j].id != rest[i - 1].id {
          assert rest[j] == indirs[j + 1];
        }
      }
      if FindIndir(rest, no).Some? {
        var i :| FirstOfId(rest, i) && rest[i].id == no && rest[i] == FindIndir(rest, no).value;
        assert indirs[i + 1] == rest[i];
        assert FirstOfId(indirs, i + 1) by {
          forall j | 0 <= j < i + 1 ensures indirs[j].id != indirs[i + 1].id {
            assert j > 0 ==> indirs[j] == rest[j - 1];
          }
        }
      }
      if i :| 0 <= i < |indirs| && indirs[i].id == no {
        assert rest[i - 1] == indirs[i];
      }
    }
  }

  // The loop of IndexExprIndirection::getKernelExpr.
  method LookUpIndir(indirs: Indirs, no: nat) returns (found: Option<IndirectionValue<real>>)
    ensures found == FindIndir(indirs, no)
  {
    for i := 0 to |indirs|
      invariant FindIndir(indirs, no) == FindIndir(indirs[i..], no)
    {
      if indirs[i].id == no {
        return Some(indirs[i]);
      }
      assert indirs[i..][1..] == indirs[i + 1..];
    }
    return None;
  }

  // A null child becomes an Unknown node.
  function KernelExpr(e: Tree, r: NDRange, guards: Guards, indirs: Indirs): Tree
    requires Valid(r)
    decreases e
  {
    match e
    case Nil => Unknown("null")
    case Value(_) => e
    case Arg(_, _, _) => e
    case Unknown(_) => e
    case Cast(c, e1) => Cast(c, KernelExpr(e1, r, guards, indirs))
    case Ocl(fun, dim) => if dim.Value? then OclKernelExpr(fun, DimIndex(dim.v), r, guards) else Unknown("ocl func")
    case Binop(op, e1, e2) => Binop(op, KernelExpr(e1, r, guards, indirs), KernelExpr(e2, r, guards, indirs))
    case Interval(lo, hi) => Interval(KernelExpr(lo, r, guards, indirs), KernelExpr(hi, r, guards, indirs))
    case Min(es) => Min(KernelExprList(es, r, guards, indirs))
    case Max(es) => Max(KernelExprList(es, r, guards, indirs))
    case Lb(e1) => Lb(KernelExpr(e1, r, guards, indirs))
    case Hb(e1) => Hb(KernelExpr(e1, r, guards, indirs))
    case Indir(no, _, _) =>
      var f := FindIndir(indirs, no);
      if f.Some? then Indir(no, Value(f.value.lb), Value(f.value.hb)) else Indir(no, Unknown("indir"), Unknown("indir"))
  }

  function KernelExprList(es: seq<Tree>, r: NDRange, guards: Guards, indirs: Indirs): (ks: seq<Tree>)
    requires Valid(r)
    ensures |ks| == |es|
    decreases es
  {
    if |es| == 0 then []
    else KernelExprList(es[..|es| - 1], r, guards, indirs) + [KernelExpr(es[|es| - 1], r, guards, indirs)]
  }

  // ---- Work-item expressions ----

  datatype WorkItemExpr = WorkItemExpr(expr: Tree, guards: Guards)

  // No id of the span satisfies the guard; NEQ is not tested.
  predicate SpanMisses(s: Span, pred: Predicate, v: int) {
    match pred
    case LT => s.lb >= v
    case LE => s.lb > v
    case GE => s.hb < v
    case GT => s.hb <= v
    case EQ => !(v >= s.lb && v <= s.hb)
    case NEQ => false
  }

  // isOutOfGuards, from guard i on; a NEQ guard on an id ends the search.
  predicate OutOfGuardsFrom(guards: Guards, i: nat, r: NDRange)
    requires Valid(r) && i <= |guards|
    decreases |guards| - i
  {
    if i == |guards| then false
    else
      var g := guards[i];
      if g.dim >= r.workDim || g.value.None? || g.fun !in {GlobalId, GroupId, LocalId} then OutOfGuardsFrom(guards, i + 1, r)
      else if g.pred == NEQ then false
      else
        var s := if g.fun == GlobalId then GlobalSpan(r, g.dim) else if g.fun == GroupId then GroupSpan(r, g.dim)
          else LocalSpan(r, g.dim);
        SpanMisses(s, g.pred, g.value.value) || OutOfGuardsFrom(guards, i + 1, r)
  }

  predicate IsOutOfGuards(w: WorkItemExpr, r: NDRange)
    requires Valid(r)
  {
    OutOfGuardsFrom(w.guards, 0, r)
  }

  // None when no work-item of the sub-NDRange satisfies the guards.
  function WorkItemKernelExpr(w: WorkItemExpr, r: NDRange, indirs: Indirs): Option<Tree>
    requires Valid(r)
  {
    if IsOutOfGuards(w, r) then None else Some(KernelExpr(w.expr, r, w.guards, indirs))
  }

  // GuardExpr::injectArgsValues: the guard has a value when its expression is the same all over the kernel.
  function GuardValue(e: Tree, r: NDRange): Option<int>
    requires Valid(r)
  {
    var b := ComputeLongBounds(KernelExpr(e, r, [], []));
    if b.Range? && b.lb == b.hb then Some(b.lb.n) else None
  }

  // ---- The loops over the guards ----

  // The guard loop of getKernelExpr.
  method GuardedSpans(r: NDRange, guards: Guards, d: nat) returns (global: Span, group: Span, local: Span)
    requires Valid(r) && d < r.workDim
    ensures global == ApplyGuards(guards, GlobalId, d, GlobalSpan(r, d))
    ensures group == ApplyGuards(guards, GroupId, d, GroupSpan(r, d))
    ensures local == ApplyGuards(guards, LocalId, d, LocalSpan(r, d))
  {
    global, group, local := GlobalSpan(r, d), GroupSpan(r, d), LocalSpan(r, d);
    for i := 0 to |guards|
      invariant global == ApplyGuards(guards[..i], GlobalId, d, GlobalSpan(r, d))
      invariant group == ApplyGuards(guards[..i], GroupId, d, GroupSpan(r, d))
      invariant local == ApplyGuards(guards[..i], LocalId, d, LocalSpan(r, d))
    {
      assert guards[..i + 1][..i] == guards[..i];
      if guards[i].dim != d {
        continue;
      }
      match guards[i].fun
      case GlobalId => global := ApplyGuard(guards[i], global);
      case GroupId => group := ApplyGuard(guards[i], group);
      case LocalId => local := ApplyGuard(guards[i], local);
      case _ =>
    }
    assert guards[..|guards|] == guards;
  }

  // The loop of isOutOfGuards.
  method CheckOutOfGuards(w: WorkItemExpr, r: NDRange) returns (out: bool)
    requires Valid(r)
    ensures out == IsOutOfGuards(w, r)
  {
    for i := 0 to |w.guards|
      invariant IsOutOfGuards(w, r) == OutOfGuardsFrom(w.guards, i, r)
    {
      var g := w.guards[i];
      if g.dim >= r.workDim || g.value.None? || g.fun !in {GlobalId, GroupId, LocalId} {
        continue;
      }
      if g.pred == NEQ {
        return false;
      }
      var s := if g.fun == GlobalId then GlobalSpan(r, g.dim) else if g.fun == GroupId then GroupSpan(r, g.dim)
        else LocalSpan(r, g.dim);
      if SpanMisses(s, g.pred, g.value.value) {
        return true;
      }
    }
    return false;
  }
}

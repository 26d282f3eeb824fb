/** The expression of a sub-kernel covers the expression of each of its work-items. */
module KernelExprsSoundness {
  import opened IndexExprs
  import opened Bounds
  import opened Arithmetic
  import opened BoundsArithmetic
  import opened RemainderBounds
  import opened BoundsSoundness
  import opened Evaluation
  import opened NDRanges
  import opened WorkItems
  import opened KernelExprs

  predicate In(x: int, s: Span) {
    s.lb <= x <= s.hb
  }

  // x satisfies every guard with a known value on this id function of this dimension.
  predicate Meets(guards: Guards, fun: OclFunction, d: nat, x: int) {
    forall i :: 0 <= i < |guards| && guards[i].fun == fun && guards[i].dim == d && guards[i].value.Some?
      ==> Compare(guards[i].pred, x, guards[i].value.value)
  }

  predicate HasGuard(guards: Guards, fun: OclFunction, d: nat) {
    exists i :: 0 <= i < |guards| && guards[i].fun == fun && guards[i].dim == d && guards[i].value.Some?
  }

  lemma ApplyGuardSound(g: Guard<real>, s: Span, x: int)
    requires In(x, s) && x >= 0 && (g.value.Some? ==> Compare(g.pred, x, g.value.value))
    ensures In(x, ApplyGuard(g, s))
  {
  }

  // Guards only cut ids that fail them.
  lemma {:induction false} ApplyGuardsSound(guards: Guards, fun: OclFunction, d: nat, s: Span, x: int)
    requires In(x, s) && x >= 0 && Meets(guards, fun, d, x)
    ensures In(x, ApplyGuards(guards, fun, d, s))
    decreases |guards|
  {
    if |guards| == 0 {
    } else {
      var init := guards[..|guards| - 1];
      assert Meets(init, fun, d, x);
      ApplyGuardsSound(init, fun, d, s, x);
      var g := guards[|guards| - 1];
      if g.dim == d && g.fun == fun {
        ApplyGuardSound(g, ApplyGuards(init, fun, d, s), x);
      }
    }
  }

  // ---- Ids of one dimension ----

  // A global id splits into its group and its place in the group, shifted by the offset of the kernel.
  lemma GlobalIdParts(group: nat, local: nat, l: nat, offset: nat)
    requires local < l && offset % l == 0
    ensures var g := group * l + local + offset;
            g / l == group + offset / l && g % l == local
  {
    var g := group * l + local + offset;
    assert offset == l * (offset / l);
    assert g == l * (group + offset / l) + local;
    QuotientIs(g, l, group + offset / l, local);
    assert g == l * (g / l) + g % l;
  }

  // get_global_id: every id of the part that meets the guards is in the computed span.
  lemma GlobalIdsSound(r: NDRange, guards: Guards, d: nat, g: nat)
    requires Valid(r) && d < r.workDim && In(g, GlobalSpan(r, d))
    requires Meets(guards, GlobalId, d, g) && Meets(guards, GroupId, d, g / r.local[d])
    requires Meets(guards, LocalId, d, g % r.local[d])
    ensures In(g, GlobalIds(r, guards, d))
  {
    var l := r.local[d];
    var q, m := g / l, g % l;
    assert g == l * q + m;
    GroupInSpan(r, d, g);
    ApplyGuardsSound(guards, GlobalId, d, GlobalSpan(r, d), g);
    ApplyGuardsSound(guards, GroupId, d, GroupSpan(r, d), q);
    ApplyGuardsSound(guards, LocalId, d, LocalSpan(r, d), m);
    var gs, ls := ApplyGuards(guards, GroupId, d, GroupSpan(r, d)), ApplyGuards(guards, LocalId, d, LocalSpan(r, d));
    MulMonotone(gs.lb, q, l);
    MulMonotone(q, gs.hb, l);
  }

  lemma GroupInSpan(r: NDRange, d: nat, g: nat)
    requires Valid(r) && d < r.workDim && In(g, GlobalSpan(r, d))
    ensures g / r.local[d] >= 0 && In(g / r.local[d], GroupSpan(r, d)) && In(g % r.local[d], LocalSpan(r, d))
  {
    var l, s := r.local[d], GlobalSpan(r, d);
    QuotOfNat(s.lb, l);
    QuotOfNat(s.hb, l);
    QuotientMonotone(s.lb, g, l);
    QuotientMonotone(g, s.hb, l);
    QuotientSign(g, l);
  }

  // get_group_id, on a kernel whose offset is zero in this dimension.
  lemma GroupIdsSound(r: NDRange, guards: Guards, d: nat, g: nat)
    requires Valid(r) && d < r.workDim && In(g, GlobalSpan(r, d))
    requires Meets(guards, GlobalId, d, g) && Meets(guards, GroupId, d, g / r.local[d])
    ensures In(g / r.local[d], GroupIds(r, guards, d))
  {
    var l := r.local[d];
    GroupInSpan(r, d, g);
    ApplyGuardsSound(guards, GlobalId, d, GlobalSpan(r, d), g);
    ApplyGuardsSound(guards, GroupId, d, GroupSpan(r, d), g / l);
    var s := ApplyGuards(guards, GlobalId, d, GlobalSpan(r, d));
    GuardedFromZero(guards, GlobalId, d, GlobalSpan(r, d), g);
    QuotOfNat(s.lb, l);
    QuotOfNat(s.hb, l);
    QuotientMonotone(s.lb, g, l);
    QuotientMonotone(g, s.hb, l);
  }

  // Guards that some id meets never push the lower end below zero.
  lemma {:induction false} GuardedFromZero(guards: Guards, fun: OclFunction, d: nat, s: Span, x: int)
    requires 0 <= s.lb && In(x, s) && Meets(guards, fun, d, x)
    ensures 0 <= ApplyGuards(guards, fun, d, s).lb && In(x, ApplyGuards(guards, fun, d, s))
    decreases |guards|
  {
    if |guards| == 0 {
    } else {
      var init := guards[..|guards| - 1];
      assert Meets(init, fun, d, x);
      GuardedFromZero(init, fun, d, s, x);
      var g := guards[|guards| - 1];
      if g.dim == d && g.fun == fun {
        ApplyGuardSound(g, ApplyGuards(init, fun, d, s), x);
      }
    }
  }

  // The local ids of a span of global ids run from the first one's to the last one's.
  predicate LocalsInOrder(s: Span, l: nat)
    requires l > 0
  {
    s.lb / l == s.hb / l || (s.lb % l == 0 && s.hb % l == l - 1)
  }

  /** The remainders of the ends bound the remainders of the whole span exactly when the span stays within one
      work-group or is made of whole ones. */
  lemma LocalEndsExact(s: Span, l: nat)
    requires l > 0 && 0 <= s.lb <= s.hb
    ensures (forall x: int :: In(x, s) ==> s.lb % l <= x % l <= s.hb % l) <==> LocalsInOrder(s, l)
  {
    if LocalsInOrder(s, l) {
      forall x: int | In(x, s) ensures s.lb % l <= x % l <= s.hb % l {
        LocalInOrder(s, l, x);
      }
    } else {
      LocalOutOfOrder(s, l);
    }
  }

  lemma LocalInOrder(s: Span, l: nat, x: int)
    requires l > 0 && 0 <= s.lb && In(x, s) && LocalsInOrder(s, l)
    ensures s.lb % l <= x % l <= s.hb % l
  {
    if s.lb / l == s.hb / l {
      var q := s.lb / l;
      QuotientMonotone(s.lb, x, l);
      QuotientMonotone(x, s.hb, l);
      Division(s.lb, l);
      Division(x, l);
      Division(s.hb, l);
      assert x / l == q;
    }
  }

  // An id of the span whose place in its work-group is not between those of the ends.
  lemma LocalOutOfOrder(s: Span, l: nat)
    requires l > 0 && 0 <= s.lb <= s.hb && !LocalsInOrder(s, l)
    ensures exists x: int :: In(x, s) && !(s.lb % l <= x % l <= s.hb % l)
  {
    var q := s.hb / l;
    QuotientMonotone(s.lb, s.hb, l);
    Division(s.hb, l);
    Division(s.lb, l);
    assert l * (s.lb / l + 1) <= l * q by { MulMonotone(s.lb / l + 1, q, l); }
    assert l * (s.lb / l + 1) == l * (s.lb / l) + l;
    if s.lb % l != 0 {
      QuotientIs(l * q, l, q, 0);
      Division(l * q, l);
      assert In(l * q, s);
    } else {
      assert l * (q - 1) == l * q - l;
      QuotientIs(l * q - 1, l, q - 1, l - 1);
      Division(l * q - 1, l);
      assert In(l * q - 1, s);
    }
  }

  // get_local_id.
  lemma LocalIdsSound(r: NDRange, guards: Guards, d: nat, g: nat)
    requires Valid(r) && d < r.workDim && In(g, GlobalSpan(r, d))
    requires Meets(guards, GlobalId, d, g) && Meets(guards, LocalId, d, g % r.local[d])
    requires LocalsInOrder(ApplyGuards(guards, GlobalId, d, GlobalSpan(r, d)), r.local[d])
    ensures In(g % r.local[d], LocalIds(r, guards, d))
  {
    var l := r.local[d];
    GroupInSpan(r, d, g);
    ApplyGuardsSound(guards, LocalId, d, LocalSpan(r, d), g % l);
    var s := ApplyGuards(guards, GlobalId, d, GlobalSpan(r, d));
    GuardedFromZero(guards, GlobalId, d, GlobalSpan(r, d), g);
    LocalEndsExact(s, l);
    QuotOfNat(s.lb, l);
    QuotOfNat(s.hb, l);
  }

  lemma {:induction false} UnguardedSpan(guards: Guards, fun: OclFunction, d: nat, s: Span)
    requires !HasGuard(guards, fun, d)
    ensures ApplyGuards(guards, fun, d, s) == s
    decreases |guards|
  {
    if |guards| == 0 {
    } else {
      var g := guards[|guards| - 1];
      UnguardedSpan(guards[..|guards| - 1], fun, d, s);
      assert g.fun == fun && g.dim == d ==> g.value.None?;
    }
  }

  /** Without guards on the local id, the computed local ids are those of the guarded global ids exactly when these
      stay within one work-group or are made of whole ones. */
  lemma LocalIdsExact(r: NDRange, guards: Guards, d: nat)
    requires Valid(r) && d < r.workDim && !HasGuard(guards, LocalId, d)
    requires var s := ApplyGuards(guards, GlobalId, d, GlobalSpan(r, d)); 0 <= s.lb <= s.hb
    ensures var s := ApplyGuards(guards, GlobalId, d, GlobalSpan(r, d));
      (forall x: int :: In(x, s) ==> In(x % r.local[d], LocalIds(r, guards, d))) <==> LocalsInOrder(s, r.local[d])
  {
    var s, l := ApplyGuards(guards, GlobalId, d, GlobalSpan(r, d)), r.local[d];
    UnguardedSpan(guards, LocalId, d, LocalSpan(r, d));
    QuotOfNat(s.lb, l);
    QuotOfNat(s.hb, l);
    assert LocalIds(r, guards, d) == Span(s.lb % l, s.hb % l);
    LocalEndsExact(s, l);
    assert forall x: int :: In(x % l, LocalIds(r, guards, d)) <==> s.lb % l <= x % l <= s.hb % l;
  }

  // Two groups of four ids, and a guard get_global_id(0) >= 2: id 4 is the first of its group, but the computed local
  // ids are 2 and 3.
  lemma LocalIdMissed()
    ensures var r := NDRange(1, [8], [8], [0], [4]);
      var guards := [Guard(GlobalId, 0, GE, Value(Long(2)), Some(2))];
      && WholeGroups(r) && In(4, GlobalSpan(r, 0)) && Meets(guards, GlobalId, 0, 4)
      && LocalIds(r, guards, 0) == Span(2, 3) && !In(4 % 4, LocalIds(r, guards, 0))
  {
    var guards: Guards := [Guard(GlobalId, 0, GE, Value(Long(2)), Some(2))];
    var r := NDRange(1, [8], [8], [0], [4]);
    assert guards[..0] == [];
    assert ApplyGuards(guards, GlobalId, 0, GlobalSpan(r, 0)) == Span(2, 7);
    QuotOfNat(2, 4);
    QuotOfNat(7, 4);
  }

  // Global id g of the part meets the guards, and so does its work-group id in the kernel.
  ghost predicate GuardedGroup(r: NDRange, s: NDRange, guards: Guards, d: nat, g: nat)
    requires PartOf(s, r) && d < r.workDim
  {
    && In(g, GlobalSpan(s, d)) && Meets(guards, GlobalId, d, g)
    && Meets(guards, GroupId, d, (g - r.offset[d]) / r.local[d])
  }

  /** Whatever the guards, a work-group id of the kernel that meets them lies in the computed span exactly when the
      kernel's offset is zero. */
  lemma GroupIdsExact(r: NDRange, s: NDRange, d: nat)
    requires PartOf(s, r) && WholeGroups(s) && d < r.workDim && s.offset[d] >= r.offset[d]
    ensures (forall guards: Guards, g: nat :: GuardedGroup(r, s, guards, d, g) ==>
              In((g - r.offset[d]) / r.local[d], GroupIds(s, guards, d)))
       <==> r.offset[d] == 0
  {
    var l, o := r.local[d], r.offset[d];
    if o == 0 {
      forall guards: Guards, g: nat | GuardedGroup(r, s, guards, d, g)
        ensures In((g - o) / l, GroupIds(s, guards, d))
      {
        GroupIdsSound(s, guards, d, g);
      }
    } else {
      var g := s.offset[d];
      QuotOfNat(g, l);
      assert GroupIds(s, [], d).lb == g / l;
      Division(g, l);
      Division(o, l);
      assert o / l > 0;
      assert g - o == l * (g / l - o / l) by { assert l * (g / l - o / l) == l * (g / l) - l * (o / l); }
      QuotientIs(g - o, l, g / l - o / l, 0);
      assert GuardedGroup(r, s, [], d, g) && !In((g - o) / l, GroupIds(s, [], d));
    }
  }

  // ---- Expressions ----

  // The values of the guards are those their expressions have in the work-item.
  ghost predicate ValuesExact(guards: Guards, env: Env) {
    forall i, v: int :: 0 <= i < |guards| && guards[i].value.Some? && Evals(guards[i].expr, env, Long(v)) ==>
      v == guards[i].value.value
  }

  ghost predicate Satisfies(guards: Guards, env: Env) {
    forall i :: 0 <= i < |guards| ==> GuardHolds(guards[i], env)
  }

  lemma SatisfiedMeets(guards: Guards, env: Env, fun: OclFunction, d: nat)
    requires ValuesExact(guards, env) && Satisfies(guards, env)
    ensures Meets(guards, fun, d, env.ocl(fun, d))
  {
    forall i | 0 <= i < |guards| && guards[i].fun == fun && guards[i].dim == d && guards[i].value.Some?
      ensures Compare(guards[i].pred, env.ocl(fun, d), guards[i].value.value)
    {
      assert GuardHolds(guards[i], env);
      var v: int :| Evals(guards[i].expr, env, Long(v)) && Compare(guards[i].pred, env.ocl(fun, d), v);
      assert v == guards[i].value.value;
    }
  }

  // Where the span of an id function covers the ids of the work-items.
  ghost predicate OclSupported(fun: OclFunction, d: nat, r: NDRange, s: NDRange, guards: Guards)
    requires PartOf(s, r)
  {
    d < r.workDim ==>
      match fun
      case GlobalId => HasGuard(guards, GroupId, d) ==> r.offset[d] == 0
      case GroupId => r.offset[d] == 0
      case LocalId => LocalsInOrder(ApplyGuards(guards, GlobalId, d, GlobalSpan(s, d)), r.local[d])
      case GlobalSize => s.origGlobal[d] == r.origGlobal[d]
      case NumGroups => s.origGlobal[d] / r.local[d] == r.origGlobal[d] / r.local[d]
      case LocalSize => true
  }

  ghost predicate Supported(e: Tree, r: NDRange, s: NDRange, guards: Guards)
    requires PartOf(s, r)
    decreases e
  {
    match e
    case Ocl(fun, dim) => dim.Value? ==> OclSupported(fun, DimIndex(dim.v), r, s, guards)
    case Cast(_, e1) => Supported(e1, r, s, guards)
    case Binop(_, e1, e2) => Supported(e1, r, s, guards) && Supported(e2, r, s, guards)
    case Interval(lo, hi) => Supported(lo, r, s, guards) && Supported(hi, r, s, guards)
    case Min(es) => forall i :: 0 <= i < |es| ==> Supported(es[i], r, s, guards)
    case Max(es) => forall i :: 0 <= i < |es| ==> Supported(es[i], r, s, guards)
    case _ => true
  }

  // The ids of a work-item of the part, and the guards they meet.
  lemma IdsMeet(d: nat, r: NDRange, s: NDRange, guards: Guards, w: Item, env: Env)
    requires PartOf(s, r) && ItemOf(r, w) && InPart(r, s, w) && d < r.workDim
    requires forall f: OclFunction, x :: env.ocl(f, x) == OclValue(r, w, f, x)
    requires ValuesExact(guards, env) && Satisfies(guards, env)
    ensures var g, l := GlobalIdOf(r, w, d), r.local[d];
      && In(g, GlobalSpan(s, d)) && w.local[d] == g % l && (r.offset[d] == 0 ==> w.group[d] == g / l)
      && Meets(guards, GlobalId, d, g) && Meets(guards, GroupId, d, w.group[d]) && Meets(guards, LocalId, d, w.local[d])
  {
    GlobalIdParts(w.group[d], w.local[d], r.local[d], r.offset[d]);
    SatisfiedMeets(guards, env, GlobalId, d);
    SatisfiedMeets(guards, env, GroupId, d);
    SatisfiedMeets(guards, env, LocalId, d);
  }

  lemma UnguardedMeets(guards: Guards, fun: OclFunction, d: nat, x: int)
    requires !HasGuard(guards, fun, d)
    ensures Meets(guards, fun, d, x)
  {
  }

  lemma OclSound(fun: OclFunction, d: nat, r: NDRange, s: NDRange, guards: Guards, w: Item, env: Env)
    requires PartOf(s, r) && ItemOf(r, w) && InPart(r, s, w) && OclSupported(fun, d, r, s, guards)
    requires forall f: OclFunction, x :: env.ocl(f, x) == OclValue(r, w, f, x)
    requires ValuesExact(guards, env) && Satisfies(guards, env)
    ensures Evals(OclKernelExpr(fun, d, s, guards), env, Long(OclValue(r, w, fun, d)))
  {
    if d < r.workDim && fun in {GlobalId, GroupId, LocalId} {
      IdsMeet(d, r, s, guards, w, env);
      var x := IdSound(fun, d, r.offset[d], s, guards, GlobalIdOf(r, w, d), w.group[d]);
      EvalsInterval(if fun == GlobalId then GlobalIds(s, guards, d)
        else if fun == GroupId then GroupIds(s, guards, d) else LocalIds(s, guards, d), env, x);
    }
  }

  lemma IdSound(fun: OclFunction, d: nat, offset: nat, s: NDRange, guards: Guards, g: nat, group: nat) returns (x: int)
    requires Valid(s) && d < s.workDim && fun in {GlobalId, GroupId, LocalId}
    requires In(g, GlobalSpan(s, d)) && (offset == 0 ==> group == g / s.local[d])
    requires fun == GlobalId && HasGuard(guards, GroupId, d) ==> offset == 0
    requires fun == GroupId ==> offset == 0
    requires fun == LocalId ==> LocalsInOrder(ApplyGuards(guards, GlobalId, d, GlobalSpan(s, d)), s.local[d])
    requires Meets(guards, GlobalId, d, g) && Meets(guards, GroupId, d, group) && Meets(guards, LocalId, d, g % s.local[d])
    ensures x == if fun == GlobalId then g else if fun == GroupId then group else g % s.local[d]
    ensures In(x, if fun == GlobalId then GlobalIds(s, guards, d) else if fun == GroupId then GroupIds(s, guards, d)
      else LocalIds(s, guards, d))
  {
    match fun
    case GlobalId =>
      if !HasGuard(guards, GroupId, d) {
        UnguardedMeets(guards, GroupId, d, g / s.local[d]);
      }
      GlobalIdsSound(s, guards, d, g);
      x := g;
    case GroupId =>
      GroupIdsSound(s, guards, d, g);
      x := group;
    case LocalId =>
      LocalIdsSound(s, guards, d, g);
      x := g % s.local[d];
  }

  lemma EvalsInterval(s: Span, env: Env, x: int)
    requires In(x, s)
    ensures Evals(IntervalOf(s), env, Long(x))
  {
    assert Evals(Value(Long(s.lb)), env, Long(s.lb)) && Evals(Value(Long(s.hb)), env, Long(s.hb));
    assert Between(Long(x), Long(s.lb), Long(s.hb));
  }

  /** Every value an expression has in a work-item of the part that satisfies the guards is a value of the
      expression of the sub-kernel. */
  lemma {:induction false} KernelExprSound(
    e: Tree, r: NDRange, s: NDRange, guards: Guards, indirs: Indirs, w: Item, env: Env, v: Num)
    requires PartOf(s, r) && ItemOf(r, w) && InPart(r, s, w) && Supported(e, r, s, guards)
    requires forall f: OclFunction, x :: env.ocl(f, x) == OclValue(r, w, f, x)
    requires ValuesExact(guards, env) && Satisfies(guards, env)
    requires Evals(e, env, v)
    ensures Evals(KernelExpr(e, s, guards, indirs), env, v)
    decreases e
  {
    match e
    case Ocl(fun, dim) =>
      if dim.Value? {
        OclSound(fun, DimIndex(dim.v), r, s, guards, w, env);
      }
    case Cast(c, e1) =>
      var x: Num :| Evals(e1, env, x) && CastValue(c, x) == Some(v);
      KernelExprSound(e1, r, s, guards, indirs, w, env, x);
    case Binop(op, e1, e2) =>
      var x: Num, y: Num :| Evals(e1, env, x) && Evals(e2, env, y) && BinopValue(op, x, y) == Some(v);
      KernelExprSound(e1, r, s, guards, indirs, w, env, x);
      KernelExprSound(e2, r, s, guards, indirs, w, env, y);
    case Interval(lo, hi) =>
      var x: Num, y: Num :| Evals(lo, env, x) && Evals(hi, env, y) && Between(v, x, y);
      KernelExprSound(lo, r, s, guards, indirs, w, env, x);
      KernelExprSound(hi, r, s, guards, indirs, w, env, y);
    case Min(es) => KernelExprListSound(true, es, r, s, guards, indirs, w, env, v);
    case Max(es) => KernelExprListSound(false, es, r, s, guards, indirs, w, env, v);
    case _ =>
  }

  lemma {:induction false} KernelExprListSound(
    least: bool, es: seq<Tree>, r: NDRange, s: NDRange, guards: Guards, indirs: Indirs, w: Item, env: Env, v: Num)
    requires PartOf(s, r) && ItemOf(r, w) && InPart(r, s, w)
    requires forall i :: 0 <= i < |es| ==> Supported(es[i], r, s, guards)
    requires forall f: OclFunction, x :: env.ocl(f, x) == OclValue(r, w, f, x)
    requires ValuesExact(guards, env) && Satisfies(guards, env)
    requires EvalsFold(least, es, env, v)
    ensures EvalsFold(least, KernelExprList(es, s, guards, indirs), env, v)
    decreases es
  {
    var init, last := es[..|es| - 1], es[|es| - 1];
    var ks := KernelExprList(es, s, guards, indirs);
    assert ks[..|es| - 1] == KernelExprList(init, s, guards, indirs);
    if |es| == 1 {
      KernelExprSound(last, r, s, guards, indirs, w, env, v);
    } else {
      var x: Num, y: Num :|
        && EvalsFold(least, init, env, x) && Evals(last, env, y)
        && SameType(x, y) && v == if least then Least(x, y) else Greatest(x, y);
      KernelExprListSound(least, init, r, s, guards, indirs, w, env, x);
      KernelExprSound(last, r, s, guards, indirs, w, env, y);
    }
  }
}

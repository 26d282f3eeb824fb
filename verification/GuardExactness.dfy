/** Guards cut exactly the ids that fail them (LibKernelExpr/src/IndexExpr/IndexExprOCL.cpp, applyGuard and
    getKernelExpr; LibKernelExpr/src/WorkItemExpr.cpp, isOutOfGuards; LibKernelExpr/src/GuardExpr.cpp). */
module GuardExactness {
  import opened Arithmetic
  import opened IndexExprs
  import opened Bounds
  import opened BoundsArithmetic
  import opened RemainderBounds
  import opened Evaluation
  import opened NDRanges
  import opened WorkItems
  import opened KernelExprs
  import opened KernelExprsSoundness
  import opened WorkItemExprsSoundness

  // ---- One id function ----

  // A guard whose ids form an interval of the natural numbers.
  predicate Narrowing(g: Guard<real>) {
    g.value.Some? ==> g.pred != NEQ || g.value.value == 0
  }

  predicate AllNarrowing(guards: Guards, fun: OclFunction, d: nat) {
    forall i :: 0 <= i < |guards| && guards[i].fun == fun && guards[i].dim == d ==> Narrowing(guards[i])
  }

  predicate MeetsOne(g: Guard<real>, x: int) {
    g.value.Some? ==> Compare(g.pred, x, g.value.value)
  }

  // t has the ids of s that meet the guards, and no other.
  ghost predicate Cut(t: Span, s: Span, guards: Guards, fun: OclFunction, d: nat) {
    forall x: int :: In(x, t) <==> In(x, s) && Meets(guards, fun, d, x)
  }

  lemma ApplyGuardExact(g: Guard<real>, s: Span, y: int)
    requires Narrowing(g) && 0 <= s.lb && In(y, s) && MeetsOne(g, y)
    ensures forall x: int :: In(x, ApplyGuard(g, s)) <==> In(x, s) && MeetsOne(g, x)
  {
  }

  // A span with an id keeps one, even one that fails the guard.
  lemma ApplyGuardKeepsOne(g: Guard<real>, s: Span)
    requires s.lb <= s.hb
    ensures ApplyGuard(g, s).lb <= ApplyGuard(g, s).hb
  {
  }

  lemma {:induction false} ApplyGuardsKeepOne(guards: Guards, fun: OclFunction, d: nat, s: Span)
    requires s.lb <= s.hb
    ensures ApplyGuards(guards, fun, d, s).lb <= ApplyGuards(guards, fun, d, s).hb
    decreases |guards|
  {
    if |guards| > 0 {
      var init := guards[..|guards| - 1];
      ApplyGuardsKeepOne(init, fun, d, s);
      ApplyGuardKeepsOne(guards[|guards| - 1], ApplyGuards(init, fun, d, s));
    }
  }

  lemma MeetsSnoc(guards: Guards, g: Guard<real>, fun: OclFunction, d: nat, x: int)
    ensures Meets(guards + [g], fun, d, x) <==> Meets(guards, fun, d, x) && (g.fun == fun && g.dim == d ==> MeetsOne(g, x))
  {
    var all := guards + [g];
    if Meets(all, fun, d, x) {
      forall i | 0 <= i < |guards| && guards[i].fun == fun && guards[i].dim == d && guards[i].value.Some?
        ensures Compare(guards[i].pred, x, guards[i].value.value)
      {
        assert all[i] == guards[i];
      }
      assert all[|guards|] == g;
    }
  }

  lemma {:induction false} ApplyGuardsCut(guards: Guards, fun: OclFunction, d: nat, s: Span, y: int)
    requires AllNarrowing(guards, fun, d) && 0 <= s.lb && In(y, s) && Meets(guards, fun, d, y)
    ensures 0 <= ApplyGuards(guards, fun, d, s).lb && Cut(ApplyGuards(guards, fun, d, s), s, guards, fun, d)
    decreases |guards|
  {
    if |guards| > 0 {
      var init, g := guards[..|guards| - 1], guards[|guards| - 1];
      assert guards == init + [g];
      forall x: int {
        MeetsSnoc(init, g, fun, d, x);
      }
      ApplyGuardsCut(init, fun, d, s, y);
      GuardedFromZero(guards, fun, d, s, y);
      if g.dim == d && g.fun == fun {
        ApplyGuardExact(g, ApplyGuards(init, fun, d, s), y);
      }
    }
  }

  /** The guarded span has exactly the ids that meet the guards, exactly when there is such an id. */
  lemma ApplyGuardsExact(guards: Guards, fun: OclFunction, d: nat, s: Span)
    requires AllNarrowing(guards, fun, d) && 0 <= s.lb <= s.hb
    ensures Cut(ApplyGuards(guards, fun, d, s), s, guards, fun, d)
       <==> exists y: int :: In(y, s) && Meets(guards, fun, d, y)
  {
    if y: int :| In(y, s) && Meets(guards, fun, d, y) {
      ApplyGuardsCut(guards, fun, d, s, y);
    }
    ApplyGuardsKeepOne(guards, fun, d, s);
    var t := ApplyGuards(guards, fun, d, s);
    assert In(t.lb, t);
  }

  // ---- The three id functions ----

  // Some id of the part, and some work-group id of it, meet their guards.
  ghost predicate SomeMeet(r: NDRange, guards: Guards, d: nat)
    requires Valid(r) && d < r.workDim
  {
    && (exists g: int :: In(g, GlobalSpan(r, d)) && Meets(guards, GlobalId, d, g))
    && (exists q: int :: In(q, GroupSpan(r, d)) && Meets(guards, GroupId, d, q))
  }

  lemma GuardedSpansCut(r: NDRange, guards: Guards, d: nat)
    requires Valid(r) && d < r.workDim && SomeMeet(r, guards, d)
    requires AllNarrowing(guards, GlobalId, d) && AllNarrowing(guards, GroupId, d)
    ensures var s, t := ApplyGuards(guards, GlobalId, d, GlobalSpan(r, d)), ApplyGuards(guards, GroupId, d, GroupSpan(r, d));
      && 0 <= s.lb <= s.hb && Cut(s, GlobalSpan(r, d), guards, GlobalId, d)
      && 0 <= t.lb && Cut(t, GroupSpan(r, d), guards, GroupId, d)
  {
    var g: int :| In(g, GlobalSpan(r, d)) && Meets(guards, GlobalId, d, g);
    ApplyGuardsCut(guards, GlobalId, d, GlobalSpan(r, d), g);
    QuotOfNat(GlobalSpan(r, d).lb, r.local[d]);
    var q: int :| In(q, GroupSpan(r, d)) && Meets(guards, GroupId, d, q);
    ApplyGuardsCut(guards, GroupId, d, GroupSpan(r, d), q);
    ApplyGuardsKeepOne(guards, GlobalId, d, GlobalSpan(r, d));
  }

  /** Without guards on local ids, the computed global ids are exactly the ids of the part that meet their guards and
      whose work-group does. */
  lemma GlobalIdsExact(r: NDRange, guards: Guards, d: nat, g: nat)
    requires Valid(r) && d < r.workDim && SomeMeet(r, guards, d) && !HasGuard(guards, LocalId, d)
    requires AllNarrowing(guards, GlobalId, d) && AllNarrowing(guards, GroupId, d)
    ensures In(g, GlobalIds(r, guards, d))
       <==> In(g, GlobalSpan(r, d)) && Meets(guards, GlobalId, d, g) && Meets(guards, GroupId, d, g / r.local[d])
  {
    var l := r.local[d];
    GuardedSpansCut(r, guards, d);
    UnguardedSpan(guards, LocalId, d, LocalSpan(r, d));
    var t := ApplyGuards(guards, GroupId, d, GroupSpan(r, d));
    GroupOf(g, l, t);
    if In(g, GlobalSpan(r, d)) {
      GroupInSpan(r, d, g);
    }
  }

  // The ids from the first id of group t.lb to the last id of group t.hb are those whose group is in t.
  lemma GroupOf(g: nat, l: nat, t: Span)
    requires l > 0
    ensures In(g / l, t) <==> t.lb * l <= g <= t.hb * l + (l - 1)
  {
    var q := g / l;
    Division(g, l);
    if t.lb <= q { MulMonotone(t.lb, q, l); } else { MulMonotone(q + 1, t.lb, l); }
    if q <= t.hb { MulMonotone(q, t.hb, l); } else { MulMonotone(t.hb + 1, q, l); }
  }

  // Group q of the part has an id that meets the guards on global ids.
  ghost predicate GroupReached(r: NDRange, guards: Guards, d: nat, q: int)
    requires Valid(r) && d < r.workDim
  {
    exists g: nat :: In(g, GlobalSpan(r, d)) && Meets(guards, GlobalId, d, g) && g / r.local[d] == q
  }

  /** The computed work-group ids are exactly those that meet their guards and hold a guarded global id. */
  lemma GroupIdsReached(r: NDRange, guards: Guards, d: nat, q: int)
    requires Valid(r) && d < r.workDim && SomeMeet(r, guards, d)
    requires AllNarrowing(guards, GlobalId, d) && AllNarrowing(guards, GroupId, d)
    ensures In(q, GroupIds(r, guards, d)) <==> Meets(guards, GroupId, d, q) && GroupReached(r, guards, d, q)
  {
    var l := r.local[d];
    GuardedSpansCut(r, guards, d);
    var s := ApplyGuards(guards, GlobalId, d, GlobalSpan(r, d));
    QuotOfNat(s.lb, l);
    QuotOfNat(s.hb, l);
    if s.lb / l <= q <= s.hb / l {
      var g := IdOfGroup(s, l, q);
      assert In(g, s);
      assert GroupReached(r, guards, d, q);
    }
    if GroupReached(r, guards, d, q) {
      var g: nat :| In(g, GlobalSpan(r, d)) && Meets(guards, GlobalId, d, g) && g / l == q;
      GroupInSpan(r, d, g);
      assert In(g, s);
      QuotientMonotone(s.lb, g, l);
      QuotientMonotone(g, s.hb, l);
    }
  }

  // An id of the span in group q, which lies between the groups of its ends.
  lemma IdOfGroup(s: Span, l: nat, q: int) returns (g: nat)
    requires l > 0 && 0 <= s.lb <= s.hb && s.lb / l <= q <= s.hb / l
    ensures In(g, s) && g / l == q
  {
    QuotientSign(s.lb, l);
    Division(s.lb, l);
    Division(s.hb, l);
    MulMonotone(q, s.hb / l, l);
    if q == s.lb / l {
      g := s.lb;
    } else {
      MulMonotone(s.lb / l + 1, q, l);
      g := l * q;
      QuotientIs(l * q, l, q, 0);
    }
  }

  // Place m of a work-group is the place of an id that meets the guards on global ids.
  ghost predicate PlaceReached(r: NDRange, guards: Guards, d: nat, m: int)
    requires Valid(r) && d < r.workDim
  {
    exists g: nat :: In(g, GlobalSpan(r, d)) && Meets(guards, GlobalId, d, g) && g % r.local[d] == m
  }

  /** Without guards on local ids, and where the ends of the guarded ids are in order, the computed local ids are exactly
      the places of the guarded ids. */
  lemma LocalIdsReached(r: NDRange, guards: Guards, d: nat, m: int)
    requires Valid(r) && d < r.workDim && AllNarrowing(guards, GlobalId, d) && !HasGuard(guards, LocalId, d)
    requires exists g: int :: In(g, GlobalSpan(r, d)) && Meets(guards, GlobalId, d, g)
    requires LocalsInOrder(ApplyGuards(guards, GlobalId, d, GlobalSpan(r, d)), r.local[d])
    ensures In(m, LocalIds(r, guards, d)) <==> PlaceReached(r, guards, d, m)
  {
    var l := r.local[d];
    var y: int :| In(y, GlobalSpan(r, d)) && Meets(guards, GlobalId, d, y);
    ApplyGuardsCut(guards, GlobalId, d, GlobalSpan(r, d), y);
    ApplyGuardsKeepOne(guards, GlobalId, d, GlobalSpan(r, d));
    UnguardedSpan(guards, LocalId, d, LocalSpan(r, d));
    var s := ApplyGuards(guards, GlobalId, d, GlobalSpan(r, d));
    QuotOfNat(s.lb, l);
    QuotOfNat(s.hb, l);
    if In(m, LocalIds(r, guards, d)) {
      var g := IdOfPlace(s, l, m);
      assert In(g, s);
    }
    if PlaceReached(r, guards, d, m) {
      var g: nat :| In(g, GlobalSpan(r, d)) && Meets(guards, GlobalId, d, g) && g % l == m;
      assert In(g, s);
      LocalInOrder(s, l, g);
    }
  }

  // An id of the span at place m, which lies between the places of its ends.
  lemma IdOfPlace(s: Span, l: nat, m: int) returns (g: nat)
    requires l > 0 && 0 <= s.lb <= s.hb && LocalsInOrder(s, l) && s.lb % l <= m <= s.hb % l
    ensures In(g, s) && g % l == m
  {
    Division(s.lb, l);
    Division(s.hb, l);
    QuotientMonotone(s.lb, s.hb, l);
    MulMonotone(s.lb / l, s.hb / l, l);
    g := l * (s.lb / l) + m;
    ModIs(g, l, s.lb / l, m);
  }

  // The ids the function has in the part under the guards.
  ghost predicate Reached(fun: OclFunction, r: NDRange, guards: Guards, d: nat, x: int)
    requires Valid(r) && d < r.workDim && fun in {GlobalId, GroupId, LocalId}
  {
    match fun
    case GlobalId => In(x, GlobalSpan(r, d)) && Meets(guards, GlobalId, d, x) && Meets(guards, GroupId, d, x / r.local[d])
    case GroupId => Meets(guards, GroupId, d, x) && GroupReached(r, guards, d, x)
    case _ => PlaceReached(r, guards, d, x)
  }

  /** The bounds of a call of an id function are exactly the ids it has in the part under the guards. */
  lemma IdBoundsExact(fun: OclFunction, d: nat, r: NDRange, guards: Guards, indirs: Indirs, x: nat)
    requires Valid(r) && d < r.workDim && d < 0x1_0000_0000 && fun in {GlobalId, GroupId, LocalId}
    requires SomeMeet(r, guards, d) && AllNarrowing(guards, GlobalId, d) && AllNarrowing(guards, GroupId, d)
    requires fun != GroupId ==> !HasGuard(guards, LocalId, d)
    requires fun == LocalId ==> LocalsInOrder(ApplyGuards(guards, GlobalId, d, GlobalSpan(r, d)), r.local[d])
    requires Reached(fun, r, guards, d, x)
    ensures var b := ComputeBounds(KernelExpr(Ocl(fun, Value(Long(d))), r, guards, indirs));
      && b.Range? && b.lb.Long? && b.hb.Long?
      && forall y: nat :: b.lb.n <= y <= b.hb.n <==> Reached(fun, r, guards, d, y)
  {
    var s := if fun == GlobalId then GlobalIds(r, guards, d) else if fun == GroupId then GroupIds(r, guards, d)
      else LocalIds(r, guards, d);
    forall y: nat ensures In(y, s) <==> Reached(fun, r, guards, d, y) {
      match fun
      case GlobalId => GlobalIdsExact(r, guards, d, y);
      case GroupId => GroupIdsReached(r, guards, d, y);
      case _ => LocalIdsReached(r, guards, d, y);
    }
    assert In(x, s);
    assert KernelExpr(Ocl(fun, Value(Long(d))), r, guards, indirs) == IntervalOf(s);
    SpanBounds(s);
  }

  lemma SpanBounds(s: Span)
    requires s.lb <= s.hb
    ensures ComputeBounds(IntervalOf(s)) == Range(Long(s.lb), Long(s.hb))
  {
  }

  // ---- isOutOfGuards ----

  lemma SpanMissesExact(s: Span, pred: Predicate, v: int)
    requires s.lb <= s.hb && pred != NEQ
    ensures SpanMisses(s, pred, v) <==> forall x: int :: In(x, s) ==> !Compare(pred, x, v)
  {
    assert In(s.lb, s) && In(s.hb, s);
    if !SpanMisses(s, pred, v) && pred == EQ {
      assert In(v, s);
    }
  }

  // A guard that isOutOfGuards looks at.
  predicate Tested(g: Guard<real>, r: NDRange) {
    g.dim < r.workDim && g.value.Some? && g.fun in {GlobalId, GroupId, LocalId}
  }

  function IdSpan(g: Guard<real>, r: NDRange): Span
    requires Valid(r) && Tested(g, r)
  {
    if g.fun == GlobalId then GlobalSpan(r, g.dim) else if g.fun == GroupId then GroupSpan(r, g.dim)
    else LocalSpan(r, g.dim)
  }

  // Guard i is tested, and no id of the part satisfies it.
  ghost predicate Excludes(guards: Guards, i: nat, r: NDRange)
    requires Valid(r) && i < |guards|
  {
    && Tested(guards[i], r)
    && forall x: int :: In(x, IdSpan(guards[i], r)) ==> !Compare(guards[i].pred, x, guards[i].value.value)
  }

  // No guard from i up to j stops the search.
  ghost predicate Searched(guards: Guards, i: nat, j: nat, r: NDRange)
    requires j < |guards|
  {
    forall k :: i <= k <= j && Tested(guards[k], r) ==> guards[k].pred != NEQ
  }

  ghost predicate NonEmptyRange(r: NDRange)
    requires Valid(r)
  {
    forall d :: 0 <= d < r.workDim ==> r.global[d] > 0
  }

  lemma IdSpanOrdered(g: Guard<real>, r: NDRange)
    requires Valid(r) && NonEmptyRange(r) && Tested(g, r)
    ensures IdSpan(g, r).lb <= IdSpan(g, r).hb
  {
    GroupInSpan(r, g.dim, r.offset[g.dim]);
  }

  lemma {:induction false} OutFromExact(guards: Guards, i: nat, r: NDRange)
    requires Valid(r) && NonEmptyRange(r) && i <= |guards|
    ensures OutOfGuardsFrom(guards, i, r)
       <==> exists j :: i <= j < |guards| && Excludes(guards, j, r) && Searched(guards, i, j, r)
    decreases |guards| - i
  {
    if i < |guards| {
      var g := guards[i];
      OutFromExact(guards, i + 1, r);
      if Tested(g, r) && g.pred != NEQ {
        IdSpanOrdered(g, r);
        SpanMissesExact(IdSpan(g, r), g.pred, g.value.value);
      }
      forall j: nat | i < j < |guards| {
        SearchedFrom(guards, i, j, r);
      }
      if Excludes(guards, i, r) && g.pred != NEQ {
        assert Searched(guards, i, i, r);
      }
    }
  }

  lemma SearchedFrom(guards: Guards, i: nat, j: nat, r: NDRange)
    requires i < j < |guards|
    ensures Searched(guards, i, j, r) <==> Searched(guards, i + 1, j, r) && (Tested(guards[i], r) ==> guards[i].pred != NEQ)
  {
  }

  /** isOutOfGuards answers true exactly when some tested guard, with no tested NEQ guard up to it, excludes every id of
      the part. */
  lemma OutOfGuardsExact(w: WorkItemExpr, r: NDRange)
    requires Valid(r) && NonEmptyRange(r)
    ensures IsOutOfGuards(w, r)
       <==> exists j :: 0 <= j < |w.guards| && Excludes(w.guards, j, r) && Searched(w.guards, 0, j, r)
  {
    OutFromExact(w.guards, 0, r);
  }
}

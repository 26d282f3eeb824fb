/** Regions are exact: a use that is linear in the global id has as region the bytes its ids access, and the analysis
    of a store answers from these bytes alone (LibKernelExpr/src/ArgumentAnalysis.cpp). */
module LinearUses {
  import opened Arithmetic
  import opened IndexExprs
  import opened Bounds
  import opened BoundsArithmetic
  import Intervals
  import opened NDRanges
  import opened KernelExprs
  import opened KernelExprsSoundness
  import opened GuardExactness
  import opened ArgumentAnalyses

  // ---- The region of a list of expressions ----

  // Byte x lies in the bounds of an expression; bounds below zero count as byte zero.
  predicate BoundsHave(b: Bounds, x: nat)
    requires b.Range? && b.lb.Long? && b.hb.Long?
  {
    b.lb.n <= x <= b.hb.n || (x == 0 && b.hb.n < 0)
  }

  /** Where all bounds are known, the region has exactly the bytes within the bounds of some expression. */
  lemma {:induction false} RegionExact(es: seq<Tree>, x: nat)
    requires Known(es) && Computable(es)
    ensures x in RegionOf(es) <==> exists i :: 0 <= i < |es| && BoundsHave(ComputeLongBounds(es[i]), x)
    decreases |es|
  {
    if es != [] {
      var init, last := es[..|es| - 1], es[|es| - 1];
      RegionExact(init, x);
      ClampedHas(ComputeLongBounds(last), x);
      if i :| 0 <= i < |es| && BoundsHave(ComputeLongBounds(es[i]), x) {
        assert i < |init| ==> init[i] == es[i];
      }
    }
  }

  lemma ClampedHas(b: Bounds, x: nat)
    requires b.Range? && b.lb.Long? && b.hb.Long? && b.lb.n <= b.hb.n
    ensures x in Intervals.Range(ClampedInterval(b)) <==> BoundsHave(b, x)
  {
    assert x in Intervals.Range(ClampedInterval(b)) <==> Intervals.Has(ClampedInterval(b), x);
  }

  // ---- Linear uses ----

  // get_global_id(d) * a + c
  function Linear(d: nat, a: int, c: int): Tree {
    Binop(Add, Binop(Mul, Ocl(GlobalId, Value(Long(d))), Value(Long(a))), Value(Long(c)))
  }

  // The n bytes from there on, as an access to an element of n bytes.
  function LinearAccess(d: nat, a: int, c: int, n: int): Tree {
    Interval(Linear(d, a, c), Linear(d, a, c + n - 1))
  }

  lemma LinearBounds(r: NDRange, guards: Guards, indirs: Indirs, d: nat, a: int, c: int)
    requires Valid(r) && d < r.workDim && d < 0x1_0000_0000
    requires GlobalIds(r, guards, d).lb <= GlobalIds(r, guards, d).hb
    ensures var ids := GlobalIds(r, guards, d);
      ComputeBounds(KernelExpr(Linear(d, a, c), r, guards, indirs))
        == Range(Long(MinOf(ids.lb * a, ids.hb * a) + c), Long(MaxOf(ids.lb * a, ids.hb * a) + c))
  {
    var ids := GlobalIds(r, guards, d);
    var x := KernelExpr(Ocl(GlobalId, Value(Long(d))), r, guards, indirs);
    assert x == IntervalOf(ids);
    assert ComputeBounds(x) == Range(Long(ids.lb), Long(ids.hb));
    var factor: Tree := Value(Long(a));
    assert KernelExpr(factor, r, guards, indirs) == factor;
    var y := KernelExpr(Binop(Mul, Ocl(GlobalId, Value(Long(d))), factor), r, guards, indirs);
    assert y == Binop(Mul, x, factor);
    MulPoint(ids.lb, ids.hb, a);
    assert ComputeBounds(y) == Range(Long(MinOf(ids.lb * a, ids.hb * a)), Long(MaxOf(ids.lb * a, ids.hb * a)));
  }

  lemma MulPoint(l: int, h: int, a: int)
    requires l <= h
    ensures LongBounds(Mul, l, h, a, a) == Some((MinOf(l * a, h * a), MaxOf(l * a, h * a)))
  {
  }

  // Byte x is one of the n bytes id g accesses.
  predicate Accessed(x: int, g: int, a: int, c: int, n: int) {
    g * a + c <= x < g * a + c + n
  }

  // Elements at most n bytes apart leave no gap: every byte between the first and the last one belongs to some id.
  lemma {:induction false} NoGap(lb: int, hb: int, a: int, c: int, n: int, x: int)
    requires lb <= hb && -n <= a <= n
    ensures MinOf(lb * a, hb * a) + c <= x < MaxOf(lb * a, hb * a) + c + n
       <==> exists g :: lb <= g <= hb && Accessed(x, g, a, c, n)
    decreases hb - lb
  {
    if lb == hb {
      assert Accessed(x, lb, a, c, n) <==> lb * a + c <= x < lb * a + c + n;
    } else {
      NoGap(lb, hb - 1, a, c, n, x);
      assert Accessed(x, hb, a, c, n) <==> hb * a + c <= x < hb * a + c + n;
      NextEnd(lb, hb, a);
      if g :| lb <= g <= hb && Accessed(x, g, a, c, n) {
        assert g == hb || g <= hb - 1;
      }
    }
  }

  lemma NextEnd(lb: int, hb: int, a: int)
    requires lb < hb
    ensures hb * a == (hb - 1) * a + a
    ensures a >= 0 ==> lb * a <= (hb - 1) * a
    ensures a <= 0 ==> lb * a >= (hb - 1) * a
  {
    if a >= 0 { MulMonotone(lb, hb - 1, a); } else { MulMonotone(lb, hb - 1, -a); }
  }

  lemma OneUse(use: WorkItemExpr, r: NDRange, indirs: Indirs)
    requires Valid(r)
    ensures SubKernelExprs([use], r, indirs) == (var k := WorkItemKernelExpr(use, r, indirs); if k.None? then [] else [k.value])
  {
    assert [use][..0] == [];
  }

  // The interval of bytes of a linear access.
  lemma AccessBounds(r: NDRange, guards: Guards, indirs: Indirs, d: nat, a: int, c: int, n: int)
    requires Valid(r) && d < r.workDim && d < 0x1_0000_0000 && n > 0
    requires GlobalIds(r, guards, d).lb <= GlobalIds(r, guards, d).hb
    ensures var ids := GlobalIds(r, guards, d);
      ComputeLongBounds(KernelExpr(LinearAccess(d, a, c, n), r, guards, indirs))
        == Range(Long(MinOf(ids.lb * a, ids.hb * a) + c), Long(MaxOf(ids.lb * a, ids.hb * a) + c + n - 1))
  {
    LinearBounds(r, guards, indirs, d, a, c);
    LinearBounds(r, guards, indirs, d, a, c + n - 1);
    assert KernelExpr(LinearAccess(d, a, c, n), r, guards, indirs)
        == Interval(KernelExpr(Linear(d, a, c), r, guards, indirs), KernelExpr(Linear(d, a, c + n - 1), r, guards, indirs));
  }

  // Global id g of the part meets the guards, and so does its work-group.
  ghost predicate Guarded(r: NDRange, guards: Guards, d: nat, g: int)
    requires Valid(r) && d < r.workDim
  {
    In(g, GlobalSpan(r, d)) && Meets(guards, GlobalId, d, g) && Meets(guards, GroupId, d, g / r.local[d])
  }

  // The region of a linear access, from the span of its ids.
  lemma AccessRegion(r: NDRange, guards: Guards, indirs: Indirs, d: nat, a: int, c: int, n: int, x: nat)
    requires Valid(r) && d < r.workDim && d < 0x1_0000_0000 && n > 0
    requires GlobalIds(r, guards, d).lb <= GlobalIds(r, guards, d).hb
    requires !IsOutOfGuards(WorkItemExpr(LinearAccess(d, a, c, n), guards), r)
    requires var ids := GlobalIds(r, guards, d); MinOf(ids.lb * a, ids.hb * a) + c >= 0
    ensures Known(SubKernelExprs([WorkItemExpr(LinearAccess(d, a, c, n), guards)], r, indirs))
    ensures x in RegionOf(SubKernelExprs([WorkItemExpr(LinearAccess(d, a, c, n), guards)], r, indirs))
       <==> var ids := GlobalIds(r, guards, d); MinOf(ids.lb * a, ids.hb * a) + c <= x < MaxOf(ids.lb * a, ids.hb * a) + c + n
  {
    var use := WorkItemExpr(LinearAccess(d, a, c, n), guards);
    var e := KernelExpr(use.expr, r, guards, indirs);
    OneUse(use, r, indirs);
    AccessBounds(r, guards, indirs, d, a, c, n);
    RegionExact([e], x);
    assert x in RegionOf([e]) <==> BoundsHave(ComputeLongBounds([e][0]), x);
  }

  // Some id that meets the guards accesses byte x.
  ghost predicate GuardedAccess(r: NDRange, guards: Guards, d: nat, a: int, c: int, n: int, x: int)
    requires Valid(r) && d < r.workDim
  {
    exists g: nat :: Guarded(r, guards, d, g) && Accessed(x, g, a, c, n)
  }

  // The product is an end of the two others.
  lemma EndProduct(l: int, h: int, a: int)
    requires l <= h
    ensures MinOf(l * a, h * a) == if a >= 0 then l * a else h * a
  {
    if a >= 0 { MulMonotone(l, h, a); } else { MulMonotone(l, h, -a); }
  }

  /** The region of a guarded linear access is exactly the bytes accessed by the ids that meet the guards, unless these
      leave gaps or reach below byte zero. */
  lemma LinearRegionExact(r: NDRange, guards: Guards, indirs: Indirs, d: nat, a: int, c: int, n: int, x: nat)
    requires Valid(r) && d < r.workDim && d < 0x1_0000_0000 && n > 0 && -n <= a <= n
    requires AllNarrowing(guards, GlobalId, d) && AllNarrowing(guards, GroupId, d) && !HasGuard(guards, LocalId, d)
    requires exists g: nat :: Guarded(r, guards, d, g)
    requires forall g: nat :: Guarded(r, guards, d, g) ==> g * a + c >= 0
    ensures var use := WorkItemExpr(LinearAccess(d, a, c, n), guards);
      x in RegionOf(SubKernelExprs([use], r, indirs)) <==> !IsOutOfGuards(use, r) && GuardedAccess(r, guards, d, a, c, n, x)
  {
    var use := WorkItemExpr(LinearAccess(d, a, c, n), guards);
    var ids := GlobalIds(r, guards, d);
    GuardedAre(r, guards, d);
    assert Guarded(r, guards, d, ids.lb) && Guarded(r, guards, d, ids.hb);
    OneUse(use, r, indirs);
    if !IsOutOfGuards(use, r) {
      EndProduct(ids.lb, ids.hb, a);
      AccessRegion(r, guards, indirs, d, a, c, n, x);
      NoGap(ids.lb, ids.hb, a, c, n, x);
      AccessOfSpan(r, guards, d, a, c, n, x, ids);
    }
  }

  lemma AccessOfSpan(r: NDRange, guards: Guards, d: nat, a: int, c: int, n: int, x: int, ids: Span)
    requires Valid(r) && d < r.workDim && 0 <= ids.lb
    requires forall g: int :: In(g, ids) <==> Guarded(r, guards, d, g)
    ensures GuardedAccess(r, guards, d, a, c, n, x) <==> exists g :: ids.lb <= g <= ids.hb && Accessed(x, g, a, c, n)
  {
    if g :| ids.lb <= g <= ids.hb && Accessed(x, g, a, c, n) {
      assert In(g, ids);
    }
    if GuardedAccess(r, guards, d, a, c, n, x) {
      var g: nat :| Guarded(r, guards, d, g) && Accessed(x, g, a, c, n);
      assert In(g, ids);
    }
  }

  // The computed span of global ids consists of the guarded ids.
  lemma GuardedAre(r: NDRange, guards: Guards, d: nat)
    requires Valid(r) && d < r.workDim
    requires AllNarrowing(guards, GlobalId, d) && AllNarrowing(guards, GroupId, d) && !HasGuard(guards, LocalId, d)
    requires exists g: nat :: Guarded(r, guards, d, g)
    ensures 0 <= GlobalIds(r, guards, d).lb <= GlobalIds(r, guards, d).hb
    ensures forall g: int :: In(g, GlobalIds(r, guards, d)) <==> Guarded(r, guards, d, g)
  {
    var g0: nat :| Guarded(r, guards, d, g0);
    GroupInSpan(r, d, g0);
    forall g: nat ensures In(g, GlobalIds(r, guards, d)) <==> Guarded(r, guards, d, g) {
      GlobalIdsExact(r, guards, d, g);
    }
    ApplyGuardsCut(guards, GlobalId, d, GlobalSpan(r, d), g0);
  }

  // ---- The status of a linear store ----

  // The parts follow each other in dimension d, and none is empty.
  ghost predicate Consecutive(ranges: seq<NDRange>, d: nat) {
    && (forall i :: 0 <= i < |ranges| ==> Valid(ranges[i]) && d < ranges[i].workDim && ranges[i].global[d] > 0)
    && forall i, j :: 0 <= i < |ranges| && j == i + 1 && j < |ranges| ==>
      ranges[j].offset[d] == ranges[i].offset[d] + ranges[i].global[d]
  }

  lemma {:induction false} LaterStarts(ranges: seq<NDRange>, d: nat, i: nat, j: nat)
    requires Consecutive(ranges, d) && i < j < |ranges|
    ensures ranges[i].offset[d] + ranges[i].global[d] <= ranges[j].offset[d]
    decreases j
  {
    if i + 1 < j {
      LaterStarts(ranges, d, i, j - 1);
    }
  }

  // The first byte a part stores, and the first one after those it stores.
  function FirstByte(r: NDRange, d: nat, a: int, c: int): int
    requires Valid(r) && d < r.workDim
  {
    r.offset[d] * a + c
  }

  function EndByte(r: NDRange, d: nat, a: int, c: int, n: int): int
    requires Valid(r) && d < r.workDim
  {
    (r.offset[d] + r.global[d] - 1) * a + c + n
  }

  lemma LinearRegion(r: NDRange, indirs: Indirs, d: nat, a: int, c: int, n: int, x: nat)
    requires Valid(r) && d < r.workDim && d < 0x1_0000_0000 && r.global[d] > 0 && n > 0 && a > 0 && c >= 0
    ensures Known(SubKernelExprs([WorkItemExpr(LinearAccess(d, a, c, n), [])], r, indirs))
    ensures x in RegionOf(SubKernelExprs([WorkItemExpr(LinearAccess(d, a, c, n), [])], r, indirs))
       <==> FirstByte(r, d, a, c) <= x < EndByte(r, d, a, c, n)
  {
    var ids := GlobalSpan(r, d);
    UnguardedIds(r, d);
    EndProduct(ids.lb, ids.hb, a);
    MulMonotone(ids.lb, ids.hb, a);
    MulMonotone(0, ids.lb, a);
    AccessRegion(r, [], indirs, d, a, c, n, x);
  }

  lemma UnguardedIds(r: NDRange, d: nat)
    requires Valid(r) && d < r.workDim && r.global[d] > 0
    ensures GlobalIds(r, [], d) == GlobalSpan(r, d)
  {
    var ids, s := GlobalIds(r, [], d), GlobalSpan(r, d);
    assert Guarded(r, [], d, r.offset[d]);
    GuardedAre(r, [], d);
    assert Guarded(r, [], d, ids.lb) && Guarded(r, [], d, ids.hb) && Guarded(r, [], d, s.lb) && Guarded(r, [], d, s.hb);
    assert In(s.lb, ids) && In(s.hb, ids);
  }

  // The store analysed on its own.
  ghost function StoreAnalysis(ranges: seq<NDRange>, indirs: seq<Indirs>, d: nat, a: int, c: int, n: int): Result
    requires RangesOk(ranges, indirs)
  {
    var use := WorkItemExpr(LinearAccess(d, a, c, n), []);
    Analyse(Exprs([], ranges, indirs), Exprs([use], ranges, indirs), true)
  }

  /** On consecutive parts, a store of n bytes every a bytes is split without merging exactly when elements do not overlap
      or there is one part; otherwise its overlap is merged. */
  lemma LinearStatusExact(ranges: seq<NDRange>, indirs: seq<Indirs>, d: nat, a: int, c: int, n: int)
    requires RangesOk(ranges, indirs) && Consecutive(ranges, d) && d < 0x1_0000_0000 && n > 0 && a > 0 && c >= 0
    ensures StoreAnalysis(ranges, indirs, d, a, c, n).status == if n <= a || |ranges| == 1 then SUCCESS else MERGE
  {
    var use := WorkItemExpr(LinearAccess(d, a, c, n), []);
    var es := Exprs([use], ranges, indirs);
    var w := RegionsOf(es);
    forall i: nat | i < |ranges| ensures Known(es[i]) {
      LinearRegion(ranges[i], indirs[i], d, a, c, n, 0);
    }
    forall i: nat, x: nat | i < |ranges|
      ensures x in w[i] <==> FirstByte(ranges[i], d, a, c) <= x < EndByte(ranges[i], d, a, c, n)
    {
      LinearRegion(ranges[i], indirs[i], d, a, c, n, x);
    }
    if n <= a || |ranges| == 1 {
      forall i: nat, j: nat, x: nat | i < j < |ranges| && x in w[i] && x in w[j] ensures false {
        LaterStarts(ranges, d, i, j);
        ByteOrder(ranges[i], ranges[j], d, a, c, n);
      }
    } else {
      FirstOverlap(ranges[0], ranges[1], d, a, c, n);
      var x: nat := FirstByte(ranges[1], d, a, c);
      assert x in w[0] && x in w[1];
    }
  }

  // The parts do not share a byte when elements do not overlap.
  lemma ByteOrder(r: NDRange, s: NDRange, d: nat, a: int, c: int, n: int)
    requires Valid(r) && Valid(s) && d < r.workDim && d < s.workDim && 0 < n <= a
    requires r.offset[d] + r.global[d] <= s.offset[d]
    ensures EndByte(r, d, a, c, n) <= FirstByte(s, d, a, c)
  {
    var k := r.offset[d] + r.global[d];
    MulMonotone(k, s.offset[d], a);
    assert (k - 1) * a == k * a - a;
  }

  lemma FirstOverlap(r: NDRange, s: NDRange, d: nat, a: int, c: int, n: int)
    requires Valid(r) && Valid(s) && d < r.workDim && d < s.workDim && 0 < a < n && c >= 0
    requires r.offset[d] + r.global[d] == s.offset[d] && s.global[d] > 0
    ensures 0 <= FirstByte(s, d, a, c) && FirstByte(r, d, a, c) <= FirstByte(s, d, a, c)
    ensures FirstByte(s, d, a, c) < EndByte(r, d, a, c, n) && FirstByte(s, d, a, c) < EndByte(s, d, a, c, n)
  {
    var k := s.offset[d];
    MulMonotone(0, k, a);
    MulMonotone(r.offset[d], k, a);
    MulMonotone(k, k + s.global[d] - 1, a);
    assert (k - 1) * a == k * a - a;
  }
}

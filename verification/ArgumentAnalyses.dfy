/** The regions one kernel argument is read and written in (LibKernelExpr/src/ArgumentAnalysis.cpp), and the
    analysis of a whole kernel (LibKernelExpr/src/KernelAnalysis.cpp). Plain loads and stores only. */
module ArgumentAnalyses {
  import opened Intervals
  import opened IndexExprs
  import opened Bounds
  import opened NDRanges
  import opened KernelExprs

  datatype Status = SUCCESS | MERGE | FAIL

  // ---- Sub-kernel expressions ----

  // The expressions of the uses that are not out of guards, in order.
  function SubKernelExprs(uses: seq<WorkItemExpr>, r: NDRange, indirs: Indirs): seq<Tree>
    requires Valid(r)
  {
    if uses == [] then []
    else
      var k := WorkItemKernelExpr(uses[|uses| - 1], r, indirs);
      SubKernelExprs(uses[..|uses| - 1], r, indirs) + if k.None? then [] else [k.value]
  }

  // ---- Regions ----

  predicate Known(es: seq<Tree>) {
    forall i :: 0 <= i < |es| ==> ComputeLongBounds(es[i]).Range?
  }

  // No assertion of the interval evaluation fails.
  predicate Computable(es: seq<Tree>) {
    forall i :: 0 <= i < |es| ==>
      var b := ComputeLongBounds(es[i]);
      b.Missing? || (b.Range? && b.lb.n <= b.hb.n)
  }

  function Clamp(x: int): nat {
    if x < 0 then 0 else x
  }

  // The interval added for one expression; negative offsets are clamped to zero.
  function ClampedInterval(b: Bounds): Interval
    requires b.Range? && b.lb.Long? && b.hb.Long?
  {
    Intervals.Interval(Clamp(b.lb.n), Clamp(b.hb.n))
  }

  // The union of the intervals up to the first expression without bounds.
  ghost function RegionOf(es: seq<Tree>): set<nat> {
    if es == [] then {}
    else if !Known(es) then RegionOf(es[..|es| - 1])
    else RegionOf(es[..|es| - 1]) + Intervals.Range(ClampedInterval(ComputeLongBounds(es[|es| - 1])))
  }

  lemma {:induction false} RegionContains(es: seq<Tree>, i: nat, x: nat)
    requires Known(es) && i < |es|
    requires var b := ComputeLongBounds(es[i]); b.lb.n <= x <= b.hb.n
    ensures x in RegionOf(es)
    decreases |es|
  {
    if i < |es| - 1 {
      RegionContains(es[..|es| - 1], i, x);
    } else {
      assert Has(ClampedInterval(ComputeLongBounds(es[i])), x);
    }
  }

  method ComputeRegion(es: seq<Tree>) returns (region: seq<Interval>, known: bool)
    requires Computable(es)
    ensures Canonical(region) && Bytes(region) == RegionOf(es) && known == Known(es)
  {
    var list := new ListInterval();
    known := true;
    for j := 0 to |es|
      invariant list.Valid() && list.Contents() == RegionOf(es[..j])
      invariant known && Known(es[..j])
    {
      assert es[..j + 1][..j] == es[..j];
      var b := ComputeLongBounds(es[j]);
      if !b.Range? {
        known := false;
        RegionStops(es, j);
        break;
      }
      list.Add(ClampedInterval(b));
    }
    assert known ==> es[..|es|] == es;
    region := list.mList;
  }

  lemma {:induction false} RegionStops(es: seq<Tree>, j: nat)
    requires j < |es| && Known(es[..j]) && !ComputeLongBounds(es[j]).Range?
    ensures RegionOf(es) == RegionOf(es[..j]) && !Known(es)
    decreases |es|
  {
    var init := es[..|es| - 1];
    if j == |es| - 1 {
    } else {
      assert init[..j] == es[..j];
      RegionStops(init, j);
    }
  }

  // ---- Disjointness of the written regions ----

  ghost predicate PairwiseDisjoint(rs: seq<set<nat>>) {
    forall a, b, x :: 0 <= a < b < |rs| && x in rs[a] && x in rs[b] ==> false
  }

  // The bytes that lie in two or more regions.
  ghost function Shared(rs: seq<set<nat>>): set<nat> {
    set a, b, x | 0 <= a < b < |rs| && x in rs[a] && x in rs[b] :: x
  }

  ghost function Trimmed(rs: seq<set<nat>>, merge: set<nat>): (t: seq<set<nat>>)
    ensures |t| == |rs|
  {
    seq(|rs|, i requires 0 <= i < |rs| => rs[i] - merge)
  }

  ghost function UnionOf(rs: seq<set<nat>>): set<nat> {
    set i, x | 0 <= i < |rs| && x in rs[i] :: x
  }

  /** Trimming leaves regions that no longer overlap, and together with the merge region they still cover
      exactly what was written. */
  lemma DisjointTestConserves(rs: seq<set<nat>>)
    ensures PairwiseDisjoint(rs) <==> Shared(rs) == {}
    ensures PairwiseDisjoint(Trimmed(rs, Shared(rs)))
    ensures UnionOf(Trimmed(rs, Shared(rs))) + Shared(rs) == UnionOf(rs)
    ensures UnionOf(Trimmed(rs, Shared(rs))) !! Shared(rs)
  {
    DisjointIsUnshared(rs);
    var t := Trimmed(rs, Shared(rs));
    forall x | x in UnionOf(rs) - Shared(rs) ensures x in UnionOf(t) {
      var i :| 0 <= i < |rs| && x in rs[i];
      assert x in t[i];
    }
    forall x | x in UnionOf(t) ensures x in UnionOf(rs) - Shared(rs) {
      var i :| 0 <= i < |t| && x in t[i];
      assert x in rs[i];
    }
  }

  lemma DisjointIsUnshared(rs: seq<set<nat>>)
    ensures PairwiseDisjoint(rs) <==> Shared(rs) == {}
  {
    if !PairwiseDisjoint(rs) {
      var a, b, x :| 0 <= a < b < |rs| && x in rs[a] && x in rs[b];
      assert x in Shared(rs);
    }
    if Shared(rs) != {} {
      var x :| x in Shared(rs);
      assert !PairwiseDisjoint(rs);
    }
  }

  ghost function Contents(rs: seq<seq<Interval>>): (c: seq<set<nat>>)
    ensures |c| == |rs|
  {
    seq(|rs|, i requires 0 <= i < |rs| => Bytes(rs[i]))
  }

  ghost predicate AllCanonical(rs: seq<seq<Interval>>) {
    forall i :: 0 <= i < |rs| ==> Canonical(rs[i])
  }

  // x lies in two regions of a pair visited before (i, j).
  ghost predicate SharedBefore(rs: seq<set<nat>>, i: nat, j: nat, x: nat) {
    exists a, b :: 0 <= a < b < |rs| && (a < i || (a == i && b < j)) && x in rs[a] && x in rs[b]
  }

  lemma SharedBeforeStart(rs: seq<set<nat>>)
    ensures forall x :: !SharedBefore(rs, 0, 1, x)
  {
  }

  lemma SharedBeforeNext(rs: seq<set<nat>>, i: nat, j: nat, x: nat)
    requires i < j < |rs|
    ensures SharedBefore(rs, i, j + 1, x) <==> SharedBefore(rs, i, j, x) || (x in rs[i] && x in rs[j])
  {
    if SharedBefore(rs, i, j + 1, x) && !(x in rs[i] && x in rs[j]) {
      var a, b :| 0 <= a < b < |rs| && (a < i || (a == i && b < j + 1)) && x in rs[a] && x in rs[b];
      assert a < i || (a == i && b < j);
    }
  }

  lemma SharedBeforeRow(rs: seq<set<nat>>, i: nat, x: nat)
    requires i < |rs|
    ensures SharedBefore(rs, i + 1, i + 2, x) <==> SharedBefore(rs, i, |rs|, x)
    ensures rs[i] == {} ==> (SharedBefore(rs, i + 1, i + 2, x) <==> SharedBefore(rs, i, i + 1, x))
  {
    if SharedBefore(rs, i + 1, i + 2, x) {
      var a, b :| 0 <= a < b < |rs| && (a < i + 1 || (a == i + 1 && b < i + 2)) && x in rs[a] && x in rs[b];
      assert a < i || (a == i && b < |rs|);
    }
  }

  lemma SharedBeforeAll(rs: seq<set<nat>>, x: nat)
    requires |rs| > 0
    ensures SharedBefore(rs, |rs| - 1, |rs|, x) <==> x in Shared(rs)
  {
    if x in Shared(rs) {
      var a, b :| 0 <= a < b < |rs| && x in rs[a] && x in rs[b];
      assert a < |rs| - 1;
    }
  }

  // The pair (i, j) of performDisjointTest.
  method TestPair(r1: seq<Interval>, r2: seq<Interval>, merge: ListInterval) returns (disjoint: bool)
    requires Canonical(r1) && Canonical(r2) && merge.Valid()
    modifies merge`mList
    ensures merge.Valid() && merge.Contents() == old(merge.Contents()) + Bytes(r1) * Bytes(r2)
    ensures disjoint <==> Bytes(r1) * Bytes(r2) == {}
  {
    var inter := ListInterval.Intersection(r1, r2);
    disjoint := inter.mList == [];
    if !disjoint {
      FirstInterval(inter.mList);
      merge.MyUnion(inter.mList);
    }
  }

  // Row i of performDisjointTest.
  method TestRow(regions: seq<seq<Interval>>, written: seq<bool>, i: nat, merge: ListInterval, areDisjoint: bool)
    returns (disjoint: bool)
    requires areDisjoint <==> merge.Contents() == {}
    requires AllCanonical(regions) && |written| == |regions| && i < |regions| && merge.Valid()
    requires forall k :: 0 <= k < |regions| && !written[k] ==> Bytes(regions[k]) == {}
    requires forall x :: x in merge.Contents() <==> SharedBefore(Contents(regions), i, i + 1, x)
    modifies merge`mList
    ensures merge.Valid()
    ensures forall x :: x in merge.Contents() <==> SharedBefore(Contents(regions), i, |regions|, x)
    ensures disjoint <==> merge.Contents() == {}
  {
    disjoint := areDisjoint;
    for j := i + 1 to |regions|
      invariant merge.Valid()
      invariant forall x :: x in merge.Contents() <==> SharedBefore(Contents(regions), i, j, x)
      invariant disjoint <==> merge.Contents() == {}
    {
      forall x: nat {
        SharedBeforeNext(Contents(regions), i, j, x);
      }
      if !written[j] {
        continue;
      }
      var d := TestPair(regions[i], regions[j], merge);
      disjoint := disjoint && d;
    }
  }

  // ---- The analysis of one argument ----

  ghost predicate RangesOk(ranges: seq<NDRange>, indirs: seq<Indirs>) {
    |ranges| == |indirs| > 0 && forall i :: 0 <= i < |ranges| ==> Valid(ranges[i])
  }

  ghost function Exprs(uses: seq<WorkItemExpr>, ranges: seq<NDRange>, indirs: seq<Indirs>): (es: seq<seq<Tree>>)
    requires RangesOk(ranges, indirs)
    ensures |es| == |ranges|
  {
    seq(|ranges|, i requires 0 <= i < |ranges| => SubKernelExprs(uses, ranges[i], indirs[i]))
  }

  ghost predicate AllComputable(es: seq<seq<Tree>>) {
    forall i :: 0 <= i < |es| ==> Computable(es[i])
  }

  predicate AllKnown(es: seq<seq<Tree>>) {
    forall i :: 0 <= i < |es| ==> Known(es[i])
  }

  ghost function RegionsOf(es: seq<seq<Tree>>): (rs: seq<set<nat>>)
    ensures |rs| == |es|
  {
    seq(|es|, i requires 0 <= i < |es| => RegionOf(es[i]))
  }

  // What the analysis of an argument leaves behind.
  datatype Result = Result(status: Status, readKnown: bool, read: seq<set<nat>>, written: seq<set<nat>>, merge: set<nat>)

  ghost function Analyse(loads: seq<seq<Tree>>, stores: seq<seq<Tree>>, isWritten: bool): Result {
    var r, w := RegionsOf(loads), RegionsOf(stores);
    if isWritten && !AllKnown(stores) then Result(FAIL, AllKnown(loads), r, w, {})
    else if PairwiseDisjoint(w) then Result(SUCCESS, AllKnown(loads), r, w, {})
    else Result(MERGE, AllKnown(loads), r, Trimmed(w, Shared(w)), Shared(w))
  }

  // One use: its expression for every sub-NDRange is pushed unless it is out of guards.
  method PushUse(use: WorkItemExpr, ranges: seq<NDRange>, indirs: seq<Indirs>, before: seq<seq<Tree>>)
    returns (exprs: seq<seq<Tree>>)
    requires RangesOk(ranges, indirs) && |before| == |ranges|
    ensures |exprs| == |ranges|
    ensures forall i :: 0 <= i < |ranges| ==>
      var k := WorkItemKernelExpr(use, ranges[i], indirs[i]);
      exprs[i] == before[i] + if k.None? then [] else [k.value]
  {
    exprs := before;
    for i := 0 to |ranges|
      invariant |exprs| == |ranges|
      invariant forall j :: i <= j < |ranges| ==> exprs[j] == before[j]
      invariant forall j :: 0 <= j < i ==>
        var k := WorkItemKernelExpr(use, ranges[j], indirs[j]);
        exprs[j] == before[j] + if k.None? then [] else [k.value]
    {
      var subExpr := WorkItemKernelExpr(use, ranges[i], indirs[i]);
      if subExpr.Some? {
        exprs := exprs[i := exprs[i] + [subExpr.value]];
      }
    }
  }

  method BuildExprs(uses: seq<WorkItemExpr>, ranges: seq<NDRange>, indirs: seq<Indirs>) returns (exprs: seq<seq<Tree>>)
    requires RangesOk(ranges, indirs)
    ensures exprs == Exprs(uses, ranges, indirs)
  {
    exprs := seq(|ranges|, i => []);
    for idx := 0 to |uses|
      invariant |exprs| == |ranges|
      invariant forall i :: 0 <= i < |ranges| ==> exprs[i] == SubKernelExprs(uses[..idx], ranges[i], indirs[i])
    {
      exprs := PushUse(uses[idx], ranges, indirs, exprs);
      assert uses[..idx + 1][..idx] == uses[..idx];
    }
    assert uses[..|uses|] == uses;
  }

  method ComputeRegions(exprs: seq<seq<Tree>>) returns (regions: seq<seq<Interval>>, known: bool)
    requires AllComputable(exprs)
    ensures AllCanonical(regions) && Contents(regions) == RegionsOf(exprs) && known == AllKnown(exprs)
  {
    regions, known := [], true;
    for i := 0 to |exprs|
      invariant |regions| == i && AllCanonical(regions)
      invariant forall k :: 0 <= k < i ==> Bytes(regions[k]) == RegionOf(exprs[k])
      invariant known <==> forall k :: 0 <= k < i ==> Known(exprs[k])
    {
      var region, complete := ComputeRegion(exprs[i]);
      regions := regions + [region];
      known := known && complete;
    }
  }

  // The rows of performDisjointTest.
  method FindShared(regions: seq<seq<Interval>>, written: seq<bool>, merge: ListInterval) returns (areDisjoint: bool)
    requires AllCanonical(regions) && |written| == |regions| > 0
    requires forall k :: 0 <= k < |regions| && !written[k] ==> Bytes(regions[k]) == {}
    requires merge.Valid() && merge.Contents() == {}
    modifies merge`mList
    ensures merge.Valid() && merge.Contents() == Shared(Contents(regions))
    ensures areDisjoint <==> PairwiseDisjoint(Contents(regions))
  {
    ghost var rs := Contents(regions);
    areDisjoint := true;
    SharedBeforeStart(rs);
    for i := 0 to |regions| - 1
      invariant merge.Valid()
      invariant forall x :: x in merge.Contents() <==> SharedBefore(rs, i, i + 1, x)
      invariant areDisjoint <==> merge.Contents() == {}
    {
      forall x: nat {
        SharedBeforeRow(rs, i, x);
      }
      if !written[i] {
        continue;
      }
      areDisjoint := TestRow(regions, written, i, merge, areDisjoint);
    }
    forall x: nat {
      SharedBeforeAll(rs, x);
    }
    assert merge.Contents() == Shared(rs);
    DisjointIsUnshared(rs);
  }

  method TrimRegions(regions: seq<seq<Interval>>, merge: seq<Interval>) returns (trimmed: seq<seq<Interval>>)
    requires AllCanonical(regions) && Canonical(merge)
    ensures AllCanonical(trimmed) && Contents(trimmed) == Trimmed(Contents(regions), Bytes(merge))
  {
    trimmed := [];
    for i := 0 to |regions|
      invariant |trimmed| == i && AllCanonical(trimmed)
      invariant forall k :: 0 <= k < i ==> Bytes(trimmed[k]) == Bytes(regions[k]) - Bytes(merge)
    {
      var l := ListInterval.DifferenceOf(regions[i], false, merge);
      trimmed := trimmed + [l.mList];
    }
  }

  lemma TrimmedByNothing(w: seq<set<nat>>)
    ensures Trimmed(w, {}) == w
  {
    forall i | 0 <= i < |w| ensures Trimmed(w, {})[i] == w[i] {
    }
  }

  lemma Unwritten(regions: seq<seq<Interval>>, es: seq<seq<Tree>>)
    requires Contents(regions) == RegionsOf(es)
    ensures forall k :: 0 <= k < |regions| && es[k] == [] ==> Bytes(regions[k]) == {} && Contents(regions)[k] == {}
  {
    forall k | 0 <= k < |regions| && es[k] == [] ensures Bytes(regions[k]) == {} {
      assert Contents(regions)[k] == RegionsOf(es)[k];
    }
  }

  lemma NoUsesNoExprs(uses: seq<WorkItemExpr>, ranges: seq<NDRange>, indirs: seq<Indirs>)
    requires RangesOk(ranges, indirs)
    ensures uses == [] ==> forall i :: 0 <= i < |ranges| ==> Exprs(uses, ranges, indirs)[i] == []
  {
  }

  class ArgumentAnalysis {
    const loadWorkItemExprs: seq<WorkItemExpr>
    const storeWorkItemExprs: seq<WorkItemExpr>
    var loadSubKernelsExprs: seq<seq<Tree>>
    var storeSubKernelsExprs: seq<seq<Tree>>
    var readSubkernelsRegions: seq<seq<Interval>>
    var writtenSubkernelsRegions: seq<seq<Interval>>
    const writtenMergeRegion: ListInterval
    var mReadBoundsComputed: bool
    var mWriteBoundsComputed: bool
    var areDisjoint: bool

    constructor (loadExprs: seq<WorkItemExpr>, storeExprs: seq<WorkItemExpr>)
      ensures loadWorkItemExprs == loadExprs && storeWorkItemExprs == storeExprs && fresh(writtenMergeRegion)
    {
      loadWorkItemExprs, storeWorkItemExprs := loadExprs, storeExprs;
      loadSubKernelsExprs, storeSubKernelsExprs := [], [];
      readSubkernelsRegions, writtenSubkernelsRegions := [], [];
      writtenMergeRegion := new ListInterval();
      mReadBoundsComputed, mWriteBoundsComputed, areDisjoint := false, false, false;
    }

    ghost predicate Valid()
      reads this, writtenMergeRegion
    {
      AllCanonical(readSubkernelsRegions) && AllCanonical(writtenSubkernelsRegions) && writtenMergeRegion.Valid()
    }

    ghost function Outcome(status: Status): Result
      reads this, writtenMergeRegion
    {
      Result(status, mReadBoundsComputed, Contents(readSubkernelsRegions), Contents(writtenSubkernelsRegions),
             writtenMergeRegion.Contents())
    }

    method PerformDisjointTest()
      requires AllCanonical(writtenSubkernelsRegions) && |storeSubKernelsExprs| == |writtenSubkernelsRegions| > 0
      requires Contents(writtenSubkernelsRegions) == RegionsOf(storeSubKernelsExprs)
      requires storeWorkItemExprs == [] ==> forall i :: 0 <= i < |storeSubKernelsExprs| ==> storeSubKernelsExprs[i] == []
      modifies this`areDisjoint, this`writtenSubkernelsRegions, writtenMergeRegion
      ensures AllCanonical(writtenSubkernelsRegions) && writtenMergeRegion.Valid()
      ensures var w := old(Contents(writtenSubkernelsRegions));
        && (areDisjoint <==> PairwiseDisjoint(w))
        && Contents(writtenSubkernelsRegions) == Trimmed(w, Shared(w))
        && writtenMergeRegion.Contents() == Shared(w)
    {
      areDisjoint := true;
      writtenMergeRegion.Clear();
      ghost var w := Contents(writtenSubkernelsRegions);
      DisjointIsUnshared(w);

      // If the argument is not used, the regions are disjoint.
      if storeWorkItemExprs == [] {
        Unwritten(writtenSubkernelsRegions, storeSubKernelsExprs);
        TrimmedByNothing(w);
        return;
      }
      var written := seq(|storeSubKernelsExprs|, i requires 0 <= i < |storeSubKernelsExprs| reads this => storeSubKernelsExprs[i] != []);
      Unwritten(writtenSubkernelsRegions, storeSubKernelsExprs);
      areDisjoint := FindShared(writtenSubkernelsRegions, written, writtenMergeRegion);
      if !areDisjoint {
        writtenSubkernelsRegions := TrimRegions(writtenSubkernelsRegions, writtenMergeRegion.mList);
      } else {
        TrimmedByNothing(w);
      }
    }

    // The expressions and regions of all sub-kernels, before the disjointness test.
    method ComputeBounds(ranges: seq<NDRange>, indirs: seq<Indirs>)
      requires RangesOk(ranges, indirs)
      requires AllComputable(Exprs(loadWorkItemExprs, ranges, indirs))
      requires AllComputable(Exprs(storeWorkItemExprs, ranges, indirs))
      modifies this, writtenMergeRegion
      ensures Valid() && writtenMergeRegion.Contents() == {}
      ensures loadSubKernelsExprs == Exprs(loadWorkItemExprs, ranges, indirs)
      ensures storeSubKernelsExprs == Exprs(storeWorkItemExprs, ranges, indirs)
      ensures Contents(readSubkernelsRegions) == RegionsOf(loadSubKernelsExprs)
      ensures Contents(writtenSubkernelsRegions) == RegionsOf(storeSubKernelsExprs)
      ensures mReadBoundsComputed == AllKnown(loadSubKernelsExprs) && mWriteBoundsComputed == AllKnown(storeSubKernelsExprs)
    {
      writtenMergeRegion.Clear();
      loadSubKernelsExprs := BuildExprs(loadWorkItemExprs, ranges, indirs);
      storeSubKernelsExprs := BuildExprs(storeWorkItemExprs, ranges, indirs);
      readSubkernelsRegions, mReadBoundsComputed := ComputeRegions(loadSubKernelsExprs);
      writtenSubkernelsRegions, mWriteBoundsComputed := ComputeRegions(storeSubKernelsExprs);
    }

    /** performAnalysis */
    method PerformAnalysis(ranges: seq<NDRange>, indirs: seq<Indirs>) returns (status: Status)
      requires RangesOk(ranges, indirs)
      requires AllComputable(Exprs(loadWorkItemExprs, ranges, indirs))
      requires AllComputable(Exprs(storeWorkItemExprs, ranges, indirs))
      modifies this, writtenMergeRegion
      ensures Valid()
      ensures Outcome(status) ==
        Analyse(Exprs(loadWorkItemExprs, ranges, indirs), Exprs(storeWorkItemExprs, ranges, indirs), storeWorkItemExprs != [])
      ensures loadSubKernelsExprs == Exprs(loadWorkItemExprs, ranges, indirs)
      ensures storeSubKernelsExprs == Exprs(storeWorkItemExprs, ranges, indirs)
      ensures mWriteBoundsComputed == AllKnown(Exprs(storeWorkItemExprs, ranges, indirs))
    {
      ComputeBounds(ranges, indirs);
      if storeWorkItemExprs != [] && !mWriteBoundsComputed {
        return FAIL;
      }
      ghost var w := Contents(writtenSubkernelsRegions);
      NoUsesNoExprs(storeWorkItemExprs, ranges, indirs);
      PerformDisjointTest();
      DisjointIsUnshared(w);
      TrimmedByNothing(w);
      if !areDisjoint {
        return MERGE;
      }
      return SUCCESS;
    }

    // KernelAnalysis::getArgFullWrittenRegion.
    method FullWrittenRegion() returns (ret: ListInterval)
      requires Valid()
      ensures fresh(ret) && ret.Valid()
      ensures ret.Contents() == writtenMergeRegion.Contents() + UnionOf(Contents(writtenSubkernelsRegions))
    {
      ret := new ListInterval();
      ret.MyUnion(writtenMergeRegion.mList);
      for i := 0 to |writtenSubkernelsRegions|
        invariant ret.Valid()
        invariant ret.Contents() == writtenMergeRegion.Contents() + UnionOf(Contents(writtenSubkernelsRegions[..i]))
      {
        ret.MyUnion(writtenSubkernelsRegions[i]);
        UnionSnoc(Contents(writtenSubkernelsRegions[..i]), Bytes(writtenSubkernelsRegions[i]));
        assert Contents(writtenSubkernelsRegions[..i + 1]) == Contents(writtenSubkernelsRegions[..i]) + [Bytes(writtenSubkernelsRegions[i])];
      }
      assert writtenSubkernelsRegions[..|writtenSubkernelsRegions|] == writtenSubkernelsRegions;
    }
  }

  lemma UnionSnoc(rs: seq<set<nat>>, r: set<nat>)
    ensures UnionOf(rs + [r]) == UnionOf(rs) + r
  {
    forall x | x in UnionOf(rs) + r ensures x in UnionOf(rs + [r]) {
      if x in UnionOf(rs) {
        var i :| 0 <= i < |rs| && x in rs[i];
        assert x in (rs + [r])[i];
      } else {
        assert x in (rs + [r])[|rs|];
      }
    }
    forall x | x in UnionOf(rs + [r]) ensures x in UnionOf(rs) + r {
      var i :| 0 <= i < |rs + [r]| && x in (rs + [r])[i];
      if i < |rs| {
        assert x in rs[i];
      }
    }
  }

  // ---- The analysis of a kernel ----

  ghost function Combined(results: seq<Status>): Status {
    if exists i :: 0 <= i < |results| && results[i] == FAIL then FAIL
    else if exists i :: 0 <= i < |results| && results[i] == MERGE then MERGE
    else SUCCESS
  }

  /** KernelAnalysis::performAnalysis, from the status of each argument: the worst one, and the arguments to merge. */
  method CombineStatus(results: seq<Status>) returns (ret: Status, mergeArguments: seq<nat>)
    ensures ret == Combined(results)
    ensures forall i :: i in mergeArguments <==> 0 <= i < |results| && results[i] == MERGE
    ensures forall i, j :: 0 <= i < j < |mergeArguments| ==> mergeArguments[i] < mergeArguments[j]
  {
    ret, mergeArguments := SUCCESS, [];
    for i := 0 to |results|
      invariant ret == Combined(results[..i])
      invariant forall k :: k in mergeArguments <==> 0 <= k < i && results[k] == MERGE
      invariant forall j :: 0 <= j < |mergeArguments| ==> mergeArguments[j] < i
      invariant forall j, k :: 0 <= j < k < |mergeArguments| ==> mergeArguments[j] < mergeArguments[k]
    {
      assert results[..i + 1] == results[..i] + [results[i]];
      assert results[..i + 1][i] == results[i];
      match results[i]
      case SUCCESS =>
      case MERGE =>
        mergeArguments := mergeArguments + [i];
        ret := if ret == FAIL then FAIL else MERGE;
      case FAIL => ret := FAIL;
    }
    assert results[..|results|] == results;
  }
}

/** From the outcome of the negotiation to the shifted launch: what the scheduler has saved for each device is what the
    launch theorem asks for (libsplit/src/Scheduler/Scheduler.cpp, setIndirectionValues and fillSubkernelInfoShift). */
module NegotiatedLaunches {
  import opened Intervals
  import opened IndexExprs
  import opened Evaluation
  import opened NDRanges
  import opened WorkItems
  import opened KernelExprs
  import opened WorkItemExprsSoundness
  import opened ArgumentAnalyses
  import opened Coherence
  import opened Transfers
  import opened KernelSteps
  import opened SplitSoundness
  import Negotiations
  import opened ShiftedLaunches
  import opened ShiftedAnalyses

  type Partition = Negotiations.Partition

  // A kernel under negotiation: its arguments, the device of each piece, and the indirection values read back for a
  // partition.
  datatype Setup = Setup(p: Negotiations.Problem, args: seq<Argument>, devs: seq<nat>, indirs: Partition -> seq<Indirs>)

  // The partition as a split with all its parts on one device: the analysis does not look at the devices.
  function SplitFor(su: Setup, ps: Partition, dev: nat): Split {
    Split(su.p.range, ps, seq(|ps|, i => dev), su.indirs(ps))
  }

  ghost predicate PartsOk(su: Setup, ps: Partition) {
    RangesOk(ps, su.indirs(ps))
  }

  // The negotiation's answers for a partition are those of the argument analysis.
  ghost predicate AnalysisOf(su: Setup, ps: Partition)
    requires PartsOk(su, ps)
  {
    var an, sp := su.p.analysis, SplitFor(su, ps, 0);
    && an.status(ps) == Combined(seq(|su.args|, a requires 0 <= a < |su.args| => ResultOf(su.args[a], sp).status))
    && forall a :: 0 <= a < |su.args| ==>
      var res := ResultOf(su.args[a], sp);
      && (a in an.mergeArgs(ps) <==> res.status == MERGE)
      && an.shared(ps, a) == res.merge && an.readKnown(ps, a) == res.readKnown
      && |res.written| == |res.read| == |ps|
      && forall id :: 0 <= id < |ps| ==> an.written(ps, id, a) == res.written[id] && an.read(ps, id, a) == res.read[id]
  }

  ghost predicate SetupOk(su: Setup, nd: nat) {
    && Negotiations.ProblemOk(su.p) && su.p.nbGlobals == |su.args| && |su.devs| == su.p.requested
    && (forall j :: 0 <= j < |su.devs| ==> su.devs[j] < nd)
    && (forall i, j :: 0 <= i < j < |su.devs| ==> su.devs[i] != su.devs[j])
    && (forall ps: Partition :: |su.indirs(ps)| == |ps|)
    && forall ps: Partition :: PartsOk(su, ps) ==> AnalysisOf(su, ps)
  }

  // ---- The turns of a device ----

  ghost function TurnOf(su: Setup, i: nat, j: nat, t: nat): Turn
    requires Negotiations.DimOk(su.p, i) && j < su.p.requested == |su.devs|
  {
    Turn(SplitFor(su, Negotiations.TurnPartition(su.p, i, j, t), su.devs[j]), Negotiations.TurnId(su.p, i, j, t))
  }

  ghost function DeviceOf(su: Setup, i: nat, j: nat, n: nat): (h: Device)
    requires Negotiations.DimOk(su.p, i) && j < su.p.requested == |su.devs|
    ensures h.dev == su.devs[j] && |h.turns| == n && forall t :: 0 <= t < n ==> h.turns[t] == TurnOf(su, i, j, t)
  {
    Device(su.devs[j], seq(n, t requires 0 <= t < n => TurnOf(su, i, j, t)))
  }

  ghost function DevicesOf(su: Setup, i: nat, n: nat): (hs: seq<Device>)
    requires Negotiations.DimOk(su.p, i) && su.p.requested == |su.devs|
    ensures |hs| == su.p.requested && forall j :: 0 <= j < |hs| ==> hs[j] == DeviceOf(su, i, j, n)
  {
    seq(su.p.requested, j requires 0 <= j < su.p.requested => DeviceOf(su, i, j, n))
  }

  // The parts of a turn are parts of the kernel, and the widened piece is one of them.
  lemma TurnParts(su: Setup, nd: nat, i: nat, j: nat, t: nat)
    requires SetupOk(su, nd) && Negotiations.DimOk(su.p, i) && j < su.p.requested
    ensures var turn := TurnOf(su, i, j, t);
      && PartsOk(su, turn.sp.ranges) && SplitOk(turn.sp, nd) && turn.id < |turn.sp.ranges|
      && turn.sp.ranges[turn.id] == Negotiations.RangeAfter(su.p, i, j, t + 1)
  {
    var d, s := su.p.dimOrder[i], su.p.partition(i)[j];
    assert Negotiations.Inside(s, su.p.range, d);
    var ps := Negotiations.TurnPartition(su.p, i, j, t);
    ShiftedSlices(su.p.range, s, d, Negotiations.ShiftAt(su.p, i, t));
    assert forall k :: 0 <= k < |ps| ==> PartOf(ps[k], su.p.range);
  }

  // ---- Claims ----

  lemma WrittenIs(su: Setup, nd: nat, i: nat, j: nat, t: nat, a: nat)
    requires SetupOk(su, nd) && Negotiations.DimOk(su.p, i) && j < su.p.requested && a < |su.args|
    ensures var turn := TurnOf(su, i, j, t);
      && RangesOk(turn.sp.ranges, turn.sp.indirs) && turn.id < |turn.sp.ranges|
      && WrittenIn(su.args[a], turn) == su.p.analysis.written(turn.sp.ranges, turn.id, a)
      && ResultOf(su.args[a], turn.sp).readKnown == su.p.analysis.readKnown(turn.sp.ranges, a)
      && |ResultOf(su.args[a], turn.sp).read| == |turn.sp.ranges|
      && ResultOf(su.args[a], turn.sp).read[turn.id] == su.p.analysis.read(turn.sp.ranges, turn.id, a)
  {
    var turn := TurnOf(su, i, j, t);
    TurnParts(su, nd, i, j, t);
    assert AnalysisOf(su, turn.sp.ranges);
    assert ResultOf(su.args[a], turn.sp) == ResultOf(su.args[a], SplitFor(su, turn.sp.ranges, 0));
  }

  lemma TurnsOfInRange(su: Setup, nd: nat, i: nat, j: nat, n: nat)
    requires SetupOk(su, nd) && Negotiations.DimOk(su.p, i) && j < su.p.requested
    ensures TurnsInRange(DeviceOf(su, i, j, n).turns)
  {
    forall t | 0 <= t < n ensures RangesOk(TurnOf(su, i, j, t).sp.ranges, TurnOf(su, i, j, t).sp.indirs)
      && TurnOf(su, i, j, t).id < |TurnOf(su, i, j, t).sp.ranges|
    {
      TurnParts(su, nd, i, j, t);
    }
  }

  /** What the negotiation has saved as claims of a device is the union of what its widened pieces write. */
  lemma {:induction false} ClaimsAre(su: Setup, nd: nat, i: nat, j: nat, n: nat, a: nat)
    requires SetupOk(su, nd) && Negotiations.DimOk(su.p, i) && j < su.p.requested && a < |su.args|
    ensures TurnsInRange(DeviceOf(su, i, j, n).turns)
    ensures DeviceClaims(su.args[a], DeviceOf(su, i, j, n).turns) == Negotiations.ClaimAfter(su.p, i, j, a, n)
  {
    TurnsOfInRange(su, nd, i, j, n);
    if n > 0 {
      ClaimsAre(su, nd, i, j, n - 1, a);
      WrittenIs(su, nd, i, j, n - 1, a);
      assert DeviceOf(su, i, j, n).turns[..n - 1] == DeviceOf(su, i, j, n - 1).turns;
    }
  }

  // ---- Coverage ----

  lemma {:induction false} FullWrittenTo(an: Negotiations.Analysis, ps: Partition, a: nat, written: seq<set<nat>>, m: nat)
    requires m <= |ps| == |written| && forall id :: 0 <= id < |ps| ==> an.written(ps, id, a) == written[id]
    ensures Negotiations.FullWritten(an, ps, a, m) == an.shared(ps, a) + UnionOf(written[..m])
  {
    if m > 0 {
      FullWrittenTo(an, ps, a, written, m - 1);
      UnionSnoc(written[..m - 1], written[m - 1]);
      assert written[..m] == written[..m - 1] + [written[m - 1]];
    }
  }

  lemma FullWrittenIs(su: Setup, nd: nat, ps: Partition, dev: nat, a: nat)
    requires SetupOk(su, nd) && PartsOk(su, ps) && a < |su.args|
    ensures Negotiations.FullWritten(su.p.analysis, ps, a, |ps|) == FullWritten(su.args[a], SplitFor(su, ps, dev))
  {
    assert AnalysisOf(su, ps);
    var res := ResultOf(su.args[a], SplitFor(su, ps, 0));
    FullWrittenTo(su.p.analysis, ps, a, res.written, |ps|);
    assert res.written[..|ps|] == res.written;
  }

  lemma {:induction false} ClaimedBy(claims: seq<Negotiations.Claims>, a: nat, x: nat) returns (j: nat)
    requires x in Negotiations.Claimed(claims, a)
    ensures j < |claims| && a < |claims[j]| && x in claims[j][a]
    decreases |claims|
  {
    var c := claims[|claims| - 1];
    if a < |c| && x in c[a] {
      j := |claims| - 1;
    } else {
      j := ClaimedBy(claims[..|claims| - 1], a, x);
    }
  }

  // The bytes the pieces write of argument a are claimed.
  ghost predicate Covered(su: Setup, claims: seq<Negotiations.Claims>, i: nat, a: nat)
    requires i < |su.p.dimOrder| && PartsOk(su, su.p.partition(i)) && a < |su.args|
  {
    forall x :: x in FullWritten(su.args[a], SplitFor(su, su.p.partition(i), 0)) ==>
      exists j :: 0 <= j < |claims| && a < |claims[j]| && x in claims[j][a]
  }

  /** The check after a round is about the written regions of the arguments to merge. */
  lemma MergedCovered(su: Setup, nd: nat, claims: seq<Negotiations.Claims>, i: nat, a: nat)
    requires SetupOk(su, nd) && Negotiations.DimOk(su.p, i) && PartsOk(su, su.p.partition(i)) && a < |su.args|
    requires Negotiations.ClaimsCover(su.p, i, claims)
    requires ResultOf(su.args[a], SplitFor(su, su.p.partition(i), 0)).status == MERGE
    ensures Covered(su, claims, i, a)
  {
    var ps := su.p.partition(i);
    assert AnalysisOf(su, ps);
    FullWrittenIs(su, nd, ps, 0, a);
    forall x | x in FullWritten(su.args[a], SplitFor(su, ps, 0))
      ensures exists j :: 0 <= j < |claims| && a < |claims[j]| && x in claims[j][a]
    {
      var j := ClaimedBy(claims, a, x);
    }
  }

  // ---- The launch ----

  // What the launch does with the outcome: device j runs ranges[j], needs what it reads and what it claims, and is
  // trusted with what it claims.
  ghost function OutcomeRequired(su: Setup, o: Negotiations.Outcome, a: nat, j: nat): Entry
    requires OutcomeFits(su, o) && a < |su.args| && j < |su.devs|
  {
    var readData := o.readData[j][a];
    Entry(su.args[a].buf, su.devs[j], readData.region + o.claims[j][a], readData.undefined)
  }

  ghost function OutcomeWritten(su: Setup, o: Negotiations.Outcome, a: nat, j: nat): Entry
    requires OutcomeFits(su, o) && a < |su.args| && j < |su.devs|
  {
    Entry(su.args[a].buf, su.devs[j], o.claims[j][a], false)
  }

  ghost function OutcomeRequiredRows(su: Setup, o: Negotiations.Outcome): (rows: seq<seq<Entry>>)
    requires OutcomeFits(su, o)
    ensures |rows| == |su.args|
    ensures forall a :: 0 <= a < |rows| ==> |rows[a]| == |su.devs|
    ensures forall a, j :: 0 <= a < |rows| && 0 <= j < |su.devs| ==> rows[a][j] == OutcomeRequired(su, o, a, j)
  {
    seq(|su.args|, a requires 0 <= a < |su.args| =>
      seq(|su.devs|, j requires 0 <= j < |su.devs| => OutcomeRequired(su, o, a, j)))
  }

  ghost function OutcomeWrittenRows(su: Setup, o: Negotiations.Outcome): (rows: seq<seq<Entry>>)
    requires OutcomeFits(su, o)
    ensures |rows| == |su.args|
    ensures forall a :: 0 <= a < |rows| ==> |rows[a]| == |su.devs|
    ensures forall a, j :: 0 <= a < |rows| && 0 <= j < |su.devs| ==> rows[a][j] == OutcomeWritten(su, o, a, j)
  {
    seq(|su.args|, a requires 0 <= a < |su.args| =>
      seq(|su.devs|, j requires 0 <= j < |su.devs| => OutcomeWritten(su, o, a, j)))
  }

  ghost predicate OutcomeFits(su: Setup, o: Negotiations.Outcome) {
    && o.Shifted? && |o.ranges| == |o.readData| == |o.claims| == |su.devs|
    && forall j :: 0 <= j < |su.devs| ==> |o.readData[j]| == |o.claims[j]| == |su.args|
  }

  // The work-items of the kernel with an id in the range.
  ghost function IdsIn(su: Setup, s: NDRange, threads: seq<Thread>): set<nat>
    requires PartOf(s, su.p.range) && ItemsOf(su, threads)
  {
    set k | 0 <= k < |threads| && InPart(su.p.range, s, threads[k].item)
  }

  ghost predicate ItemsOf(su: Setup, threads: seq<Thread>)
    requires Valid(su.p.range)
  {
    forall k :: 0 <= k < |threads| ==> ItemOf(su.p.range, threads[k].item)
  }

  ghost function OutcomeRuns(su: Setup, o: Negotiations.Outcome, threads: seq<Thread>): (runs: seq<Run>)
    requires OutcomeFits(su, o) && Valid(su.p.range) && ItemsOf(su, threads)
    requires forall j :: 0 <= j < |o.ranges| ==> PartOf(o.ranges[j], su.p.range)
    ensures |runs| == |su.devs|
    ensures forall j :: 0 <= j < |runs| ==> runs[j] == Run(su.devs[j], IdsIn(su, o.ranges[j], threads))
  {
    seq(|su.devs|, j requires 0 <= j < |su.devs| => Run(su.devs[j], IdsIn(su, o.ranges[j], threads)))
  }

  ghost function OutcomeKernel(su: Setup, o: Negotiations.Outcome, threads: seq<Thread>): ShiftedKernel
    requires OutcomeFits(su, o) && Valid(su.p.range) && ItemsOf(su, threads)
    requires forall j :: 0 <= j < |o.ranges| ==> PartOf(o.ranges[j], su.p.range)
  {
    ShiftedKernel(Effects(threads), OutcomeRuns(su, o, threads),
      Listed(OutcomeRequiredRows(su, o)), Listed(OutcomeWrittenRows(su, o)))
  }

  // What the analysis of a partition relies on: its uses, and that a part whose range has a work-item runs it with the
  // indirection values read back for that part.
  ghost predicate PartitionOk(su: Setup, nd: nat, ps: Partition, dev: nat, threads: seq<Thread>) {
    && SplitOk(SplitFor(su, ps, dev), nd) && (forall a :: 0 <= a < |su.args| ==> ArgumentOk(su.args[a], SplitFor(su, ps, dev), nd))
    && ItemsOf(su, threads)
    && forall k :: 0 <= k < |threads| ==> ThreadOk(su, ps, threads[k]) && InSomePart(su.p.range, ps, threads[k].item)
  }

  ghost predicate ThreadOk(su: Setup, ps: Partition, t: Thread)
    requires Valid(su.p.range) && ItemOf(su.p.range, t.item) && |su.indirs(ps)| == |ps|
    requires forall q :: 0 <= q < |ps| ==> PartOf(ps[q], su.p.range)
  {
    && (forall f: OclFunction, x :: t.env.ocl(f, x) == OclValue(su.p.range, t.item, f, x))
    && forall q :: 0 <= q < |ps| && InPart(su.p.range, ps[q], t.item) ==> IndirsHold(su.indirs(ps)[q], t.env)
  }

  lemma PartitionRuns(su: Setup, nd: nat, ps: Partition, dev: nat, threads: seq<Thread>)
    requires PartitionOk(su, nd, ps, dev, threads)
    ensures Covering(SplitFor(su, ps, dev), nd, threads)
    ensures forall k, q :: 0 <= k < |threads| && 0 <= q < |ps| ==>
      (RunsIn(threads[k], SplitFor(su, ps, dev), q) <==> InPart(su.p.range, ps[q], threads[k].item))
  {
    var sp := SplitFor(su, ps, dev);
    forall k, q | 0 <= k < |threads| && 0 <= q < |sp.ranges|
      ensures RunsIn(threads[k], sp, q) <==> InPart(su.p.range, ps[q], threads[k].item)
    {
      assert ThreadOk(su, ps, threads[k]);
    }
    forall k | 0 <= k < |threads| ensures RunsSomewhere(threads[k], sp, nd) {
      assert InSomePart(su.p.range, ps, threads[k].item);
      var q :| 0 <= q < |ps| && InPart(su.p.range, ps[q], threads[k].item);
      assert RunsIn(threads[k], sp, q);
    }
  }

  // The partitions of the first n turns of all devices, and the pieces, can be analysed.
  ghost predicate TurnsOk(su: Setup, nd: nat, i: nat, n: nat, threads: seq<Thread>)
    requires SetupOk(su, nd) && Negotiations.DimOk(su.p, i)
  {
    && PartitionOk(su, nd, su.p.partition(i), su.devs[0], threads)
    && forall j, t :: 0 <= j < su.p.requested && 0 <= t < n ==> TurnAnalysable(su, nd, i, j, t, threads)
  }

  ghost predicate TurnAnalysable(su: Setup, nd: nat, i: nat, j: nat, t: nat, threads: seq<Thread>)
    requires SetupOk(su, nd) && Negotiations.DimOk(su.p, i) && j < su.p.requested
  {
    PartitionOk(su, nd, Negotiations.TurnPartition(su.p, i, j, t), su.devs[j], threads)
  }

  lemma TurnRuns(su: Setup, nd: nat, i: nat, j: nat, t: nat, threads: seq<Thread>)
    requires SetupOk(su, nd) && Negotiations.DimOk(su.p, i) && j < su.p.requested
    requires TurnAnalysable(su, nd, i, j, t, threads)
    ensures TurnOk(su.args, TurnOf(su, i, j, t), nd, threads)
    ensures PartOf(Negotiations.RangeAfter(su.p, i, j, t + 1), su.p.range)
    ensures forall k :: 0 <= k < |threads| ==>
      (Runs(TurnOf(su, i, j, t), threads[k], nd)
       <==> InPart(su.p.range, Negotiations.RangeAfter(su.p, i, j, t + 1), threads[k].item))
  {
    TurnParts(su, nd, i, j, t);
    PartitionRuns(su, nd, Negotiations.TurnPartition(su.p, i, j, t), su.devs[j], threads);
  }

  // A wider part runs at least the same work-items.
  lemma WiderRuns(r: NDRange, s: NDRange, d: nat, shift1: nat, shift2: nat, w: Item)
    requires Negotiations.Inside(s, r, d) && 0 < shift1 <= shift2 && r.origGlobal == r.global && ItemOf(r, w)
    requires var s1 := Negotiations.Widened(r, s, d, shift1); PartOf(s1, r) && InPart(r, s1, w)
    requires PartOf(Negotiations.Widened(r, s, d, shift2), r)
    ensures InPart(r, Negotiations.Widened(r, s, d, shift2), w)
  {
    var s1, s2 := Negotiations.Widened(r, s, d, shift1), Negotiations.Widened(r, s, d, shift2);
    Negotiations.WidenedGrows(r, s, d, shift1, shift2);
    assert forall e :: 0 <= e < r.workDim && e != d ==> s1.offset[e] == s2.offset[e] && s1.global[e] == s2.global[e];
  }

  lemma TurnGrows(su: Setup, nd: nat, i: nat, j: nat, t: nat, u: nat, threads: seq<Thread>, k: nat)
    requires SetupOk(su, nd) && Negotiations.DimOk(su.p, i) && j < su.p.requested && t <= u && k < |threads|
    requires TurnAnalysable(su, nd, i, j, t, threads) && TurnAnalysable(su, nd, i, j, u, threads)
    requires TurnOk(su.args, TurnOf(su, i, j, t), nd, threads) && Runs(TurnOf(su, i, j, t), threads[k], nd)
    ensures TurnOk(su.args, TurnOf(su, i, j, u), nd, threads) && Runs(TurnOf(su, i, j, u), threads[k], nd)
  {
    var d, s := su.p.dimOrder[i], su.p.partition(i)[j];
    assert Negotiations.Inside(s, su.p.range, d);
    TurnRuns(su, nd, i, j, t, threads);
    TurnRuns(su, nd, i, j, u, threads);
    Negotiations.ShiftGrows(su.p, i, t, u);
    WiderRuns(su.p.range, s, d, Negotiations.ShiftAt(su.p, i, t), Negotiations.ShiftAt(su.p, i, u), threads[k].item);
  }

  /** The turns the negotiation takes for a device make it a device of the launch theorem: its pieces only grow. */
  lemma NegotiatedDevice(su: Setup, nd: nat, i: nat, j: nat, n: nat, threads: seq<Thread>)
    requires SetupOk(su, nd) && Negotiations.DimOk(su.p, i) && j < su.p.requested && n > 0
    requires TurnsOk(su, nd, i, n, threads)
    ensures DeviceOk(su.args, DeviceOf(su, i, j, n), nd, threads)
  {
    var h := DeviceOf(su, i, j, n);
    forall t | 0 <= t < n ensures TurnOk(su.args, h.turns[t], nd, threads) {
      assert TurnAnalysable(su, nd, i, j, t, threads);
      TurnRuns(su, nd, i, j, t, threads);
    }
    forall t, k | 0 <= t < n && 0 <= k < |threads| && Runs(h.turns[t], threads[k], nd)
      ensures Runs(h.turns[n - 1], threads[k], nd)
    {
      assert TurnAnalysable(su, nd, i, j, t, threads) && TurnAnalysable(su, nd, i, j, n - 1, threads);
      TurnGrows(su, nd, i, j, t, n - 1, threads, k);
    }
  }

  // ---- The outcome as the devices of the theorem ----

  lemma OutcomeRanges(su: Setup, nd: nat, i: nat, n: nat, o: Negotiations.Outcome, threads: seq<Thread>)
    requires SetupOk(su, nd) && Negotiations.DimOk(su.p, i) && n > 0 && TurnsOk(su, nd, i, n, threads)
    requires Negotiations.ShiftedFor(su.p, i, n, o)
    ensures OutcomeFits(su, o) && forall j :: 0 <= j < |o.ranges| ==> PartOf(o.ranges[j], su.p.range)
  {
    forall j | 0 <= j < |o.ranges| ensures PartOf(o.ranges[j], su.p.range) {
      assert TurnAnalysable(su, nd, i, j, n - 1, threads);
      TurnRuns(su, nd, i, j, n - 1, threads);
    }
  }

  /** Entry by entry, the outcome lists what the turns of the devices list. */
  lemma OutcomeEntries(su: Setup, nd: nat, i: nat, n: nat, o: Negotiations.Outcome, a: nat, j: nat)
    requires SetupOk(su, nd) && Negotiations.DimOk(su.p, i) && n > 0 && a < |su.args| && j < su.p.requested
    requires Negotiations.ShiftedFor(su.p, i, n, o) && OutcomeFits(su, o)
    ensures TurnsInRange(DeviceOf(su, i, j, n).turns)
    ensures OutcomeRequired(su, o, a, j) == RequiredEntry(su.args[a], DeviceOf(su, i, j, n))
    ensures OutcomeWritten(su, o, a, j) == WrittenEntry(su.args[a], DeviceOf(su, i, j, n))
  {
    ClaimsAre(su, nd, i, j, n, a);
    OutcomeSaved(su, i, n, o, a, j);
    LastReads(su, nd, i, j, n, a);
  }

  lemma OutcomeSaved(su: Setup, i: nat, n: nat, o: Negotiations.Outcome, a: nat, j: nat)
    requires Negotiations.DimOk(su.p, i) && n > 0 && a < |su.args| == su.p.nbGlobals && j < su.p.requested == |su.devs|
    requires Negotiations.ShiftedFor(su.p, i, n, o) && OutcomeFits(su, o)
    ensures o.claims[j][a] == Negotiations.ClaimAfter(su.p, i, j, a, n)
    ensures o.readData[j][a] == Negotiations.ReadIn(
      su.p.analysis, Negotiations.TurnPartition(su.p, i, j, n - 1), Negotiations.TurnId(su.p, i, j, n - 1), a)
  {
    assert o.claims[j] == Negotiations.ClaimsOf(su.p, i, j, n);
    assert o.readData[j] == Negotiations.ReadsOf(su.p, i, j, n - 1);
  }

  lemma LastReads(su: Setup, nd: nat, i: nat, j: nat, n: nat, a: nat)
    requires SetupOk(su, nd) && Negotiations.DimOk(su.p, i) && n > 0 && a < |su.args| && j < su.p.requested
    ensures var t := Last(DeviceOf(su, i, j, n));
      && RangesOk(t.sp.ranges, t.sp.indirs) && t.id < |ResultOf(su.args[a], t.sp).read|
      && Negotiations.ReadRegion(ResultOf(su.args[a], t.sp).read[t.id], !ResultOf(su.args[a], t.sp).readKnown)
         == Negotiations.ReadIn(su.p.analysis, Negotiations.TurnPartition(su.p, i, j, n - 1), Negotiations.TurnId(su.p, i, j, n - 1), a)
  {
    WrittenIs(su, nd, i, j, n - 1, a);
    assert Last(DeviceOf(su, i, j, n)) == TurnOf(su, i, j, n - 1);
  }

  /** The regions saved for a device and an argument are those fillSubkernelInfoShift is given. */
  lemma OutcomeGivesSaved(su: Setup, nd: nat, i: nat, n: nat, o: Negotiations.Outcome, a: nat, j: nat, read: Saved, claims: Saved)
    requires SetupOk(su, nd) && Negotiations.DimOk(su.p, i) && n > 0 && a < |su.args| && j < su.p.requested
    requires Negotiations.ShiftedFor(su.p, i, n, o) && OutcomeFits(su, o)
    requires Canonical(read.list) && Negotiations.ReadRegion(Bytes(read.list), read.undefined) == o.readData[j][a]
    requires Canonical(claims.list) && Bytes(claims.list) == o.claims[j][a] && !claims.undefined
    ensures TurnsInRange(DeviceOf(su, i, j, n).turns)
    ensures SavedRead(read, su.args[a], DeviceOf(su, i, j, n)) && SavedClaims(claims, su.args[a], DeviceOf(su, i, j, n))
  {
    ClaimsAre(su, nd, i, j, n, a);
    OutcomeSaved(su, i, n, o, a, j);
    LastReads(su, nd, i, j, n, a);
  }

  lemma OutcomeRun(su: Setup, nd: nat, i: nat, n: nat, o: Negotiations.Outcome, j: nat, threads: seq<Thread>)
    requires SetupOk(su, nd) && Negotiations.DimOk(su.p, i) && n > 0 && j < su.p.requested
    requires TurnsOk(su, nd, i, n, threads) && Negotiations.ShiftedFor(su.p, i, n, o)
    ensures ItemsOf(su, threads) && j < |o.ranges| && PartOf(o.ranges[j], su.p.range)
    ensures DeviceOk(su.args, DeviceOf(su, i, j, n), nd, threads)
    ensures Run(su.devs[j], IdsIn(su, o.ranges[j], threads)) == RunOf(DeviceOf(su, i, j, n), nd, threads)
  {
    var h := DeviceOf(su, i, j, n);
    assert TurnAnalysable(su, nd, i, j, n - 1, threads);
    TurnRuns(su, nd, i, j, n - 1, threads);
    NegotiatedDevice(su, nd, i, j, n, threads);
    assert Last(h) == TurnOf(su, i, j, n - 1);
    assert o.ranges[j] == Negotiations.RangeAfter(su.p, i, j, n);
  }

  lemma NegotiatedDevices(su: Setup, nd: nat, i: nat, n: nat, threads: seq<Thread>)
    requires SetupOk(su, nd) && Negotiations.DimOk(su.p, i) && n > 0 && TurnsOk(su, nd, i, n, threads)
    ensures DevicesOk(su.args, DevicesOf(su, i, n), nd, threads) && DevicesInRange(DevicesOf(su, i, n))
    ensures LastsInRange(DevicesOf(su, i, n), nd)
  {
    var hs := DevicesOf(su, i, n);
    forall j | 0 <= j < |hs|
      ensures DeviceOk(su.args, hs[j], nd, threads) && hs[j].turns != [] && TurnsInRange(hs[j].turns)
      ensures SplitOk(Last(hs[j]).sp, nd) && Last(hs[j]).id < |Last(hs[j]).sp.ranges|
    {
      NegotiatedDevice(su, nd, i, j, n, threads);
      TurnsOfInRange(su, nd, i, j, n);
      TurnParts(su, nd, i, j, n - 1);
    }
  }

  lemma OutcomeRunsAre(su: Setup, nd: nat, i: nat, n: nat, o: Negotiations.Outcome, threads: seq<Thread>)
    requires SetupOk(su, nd) && Negotiations.DimOk(su.p, i) && n > 0 && TurnsOk(su, nd, i, n, threads)
    requires Negotiations.ShiftedFor(su.p, i, n, o) && OutcomeFits(su, o)
    requires forall j :: 0 <= j < |o.ranges| ==> PartOf(o.ranges[j], su.p.range)
    requires DevicesOk(su.args, DevicesOf(su, i, n), nd, threads) && DevicesInRange(DevicesOf(su, i, n))
    ensures OutcomeRuns(su, o, threads) == ShiftOf(su.args, DevicesOf(su, i, n), nd, threads).runs
  {
    var hs := DevicesOf(su, i, n);
    forall j | 0 <= j < |hs| ensures OutcomeRuns(su, o, threads)[j] == ShiftOf(su.args, hs, nd, threads).runs[j] {
      OutcomeRun(su, nd, i, n, o, j, threads);
      assert hs[j] == DeviceOf(su, i, j, n);
    }
  }

  /** What is launched after the negotiation is the launch of its turns. */
  lemma OutcomeIsShift(su: Setup, nd: nat, i: nat, n: nat, o: Negotiations.Outcome, threads: seq<Thread>)
    requires SetupOk(su, nd) && Negotiations.DimOk(su.p, i) && n > 0 && TurnsOk(su, nd, i, n, threads)
    requires Negotiations.ShiftedFor(su.p, i, n, o)
    ensures OutcomeFits(su, o) && (forall j :: 0 <= j < |o.ranges| ==> PartOf(o.ranges[j], su.p.range))
    ensures DevicesOk(su.args, DevicesOf(su, i, n), nd, threads) && DevicesInRange(DevicesOf(su, i, n))
    ensures OutcomeKernel(su, o, threads) == ShiftOf(su.args, DevicesOf(su, i, n), nd, threads)
  {
    OutcomeRanges(su, nd, i, n, o, threads);
    NegotiatedDevices(su, nd, i, n, threads);
    OutcomeRunsAre(su, nd, i, n, o, threads);
    OutcomeRows(su, nd, i, n, o);
  }

  lemma OutcomeRows(su: Setup, nd: nat, i: nat, n: nat, o: Negotiations.Outcome)
    requires SetupOk(su, nd) && Negotiations.DimOk(su.p, i) && n > 0 && DevicesInRange(DevicesOf(su, i, n))
    requires Negotiations.ShiftedFor(su.p, i, n, o) && OutcomeFits(su, o)
    ensures OutcomeRequiredRows(su, o) == RequiredRows(su.args, DevicesOf(su, i, n))
    ensures OutcomeWrittenRows(su, o) == WrittenRows(su.args, DevicesOf(su, i, n))
  {
    var hs := DevicesOf(su, i, n);
    forall a, j | 0 <= a < |su.args| && 0 <= j < |su.devs|
      ensures RequiredRows(su.args, hs)[a][j] == OutcomeRequired(su, o, a, j)
      ensures WrittenRows(su.args, hs)[a][j] == OutcomeWritten(su, o, a, j)
    {
      OutcomeEntries(su, nd, i, n, o, a, j);
    }
    RowsEqual(OutcomeRequiredRows(su, o), RequiredRows(su.args, hs), |su.devs|);
    RowsEqual(OutcomeWrittenRows(su, o), WrittenRows(su.args, hs), |su.devs|);
  }

  lemma RowsEqual(r: seq<seq<Entry>>, s: seq<seq<Entry>>, m: nat)
    requires |r| == |s| && forall a :: 0 <= a < |r| ==> |r[a]| == |s[a]| == m
    requires forall a, j :: 0 <= a < |r| && 0 <= j < m ==> r[a][j] == s[a][j]
    ensures r == s
  {
    forall a | 0 <= a < |r| ensures r[a] == s[a] {
    }
  }

  // ---- The launch refines a single device ----

  // No work-item loads a byte that a work-item outside its device's range stores.
  ghost predicate NoRacesIn(s: ShiftedKernel) {
    forall j, k, a :: 0 <= j < |s.runs| && k in s.runs[j].ids && k < |s.items| && a in s.items[k].loads ==>
      StoredWithin(s.items, s.runs[j], a)
  }

  ghost predicate RaceFree(su: Setup, o: Negotiations.Outcome, threads: seq<Thread>) {
    && OutcomeFits(su, o) && Valid(su.p.range) && ItemsOf(su, threads)
    && (forall j :: 0 <= j < |o.ranges| ==> PartOf(o.ranges[j], su.p.range))
    && NoRacesIn(OutcomeKernel(su, o, threads))
  }

  lemma NoRacesOf(args: seq<Argument>, hs: seq<Device>, nd: nat, threads: seq<Thread>)
    requires DevicesOk(args, hs, nd, threads) && DevicesInRange(hs) && LastsInRange(hs, nd)
    requires NoRacesIn(ShiftOf(args, hs, nd, threads))
    ensures NoRaces(hs, nd, threads)
  {
    var s := ShiftOf(args, hs, nd, threads);
    forall j, k, a | 0 <= j < |hs| && 0 <= k < |threads| && Runs(Last(hs[j]), threads[k], nd) && a in threads[k].effect.loads
      ensures StoredWithin(Effects(threads), RunOf(hs[j], nd, threads), a)
    {
      assert s.runs[j] == RunOf(hs[j], nd, threads);
      assert k in s.runs[j].ids && s.items[k] == threads[k].effect;
    }
  }

  // The arguments whose pieces do not overlap have to be covered, too; the negotiation only asks for the others.
  ghost predicate UnmergedCovered(su: Setup, o: Negotiations.Outcome)
    requires o.Shifted? && o.dim < |su.p.dimOrder| && PartsOk(su, su.p.partition(o.dim))
  {
    forall a :: 0 <= a < |su.args| && ResultOf(su.args[a], SplitFor(su, su.p.partition(o.dim), 0)).status != MERGE ==>
      Covered(su, o.claims, o.dim, a)
  }

  lemma OutcomeCovers(su: Setup, nd: nat, i: nat, n: nat, o: Negotiations.Outcome)
    requires SetupOk(su, nd) && Negotiations.DimOk(su.p, i) && n > 0 && PartsOk(su, su.p.partition(i))
    requires Negotiations.ShiftedFor(su.p, i, n, o) && Negotiations.Covers(su.p, i, n) && UnmergedCovered(su, o)
    requires OutcomeFits(su, o) && DevicesInRange(DevicesOf(su, i, n))
    ensures ClaimsCover(su.args, SplitFor(su, su.p.partition(i), su.devs[0]), DevicesOf(su, i, n))
  {
    var ps, hs := su.p.partition(i), DevicesOf(su, i, n);
    forall a, x | 0 <= a < |su.args| && x in FullWritten(su.args[a], SplitFor(su, ps, su.devs[0]))
      ensures ClaimedByOne(su.args[a], hs, x)
    {
      SameFull(su, nd, ps, a);
      CoveredBy(su, nd, i, o, a);
      var j :| 0 <= j < |o.claims| && a < |o.claims[j]| && x in o.claims[j][a];
      OutcomeSaved(su, i, n, o, a, j);
      ClaimsAre(su, nd, i, j, n, a);
      assert hs[j] == DeviceOf(su, i, j, n);
    }
  }

  lemma SameFull(su: Setup, nd: nat, ps: Partition, a: nat)
    requires SetupOk(su, nd) && PartsOk(su, ps) && a < |su.args|
    ensures FullWritten(su.args[a], SplitFor(su, ps, su.devs[0])) == FullWritten(su.args[a], SplitFor(su, ps, 0))
  {
    FullWrittenIs(su, nd, ps, 0, a);
    FullWrittenIs(su, nd, ps, su.devs[0], a);
  }

  lemma CoveredBy(su: Setup, nd: nat, i: nat, o: Negotiations.Outcome, a: nat)
    requires SetupOk(su, nd) && Negotiations.DimOk(su.p, i) && PartsOk(su, su.p.partition(i)) && a < |su.args|
    requires o.Shifted? && o.dim == i && Negotiations.ClaimsCover(su.p, i, o.claims) && UnmergedCovered(su, o)
    ensures Covered(su, o.claims, i, a)
  {
    if ResultOf(su.args[a], SplitFor(su, su.p.partition(i), 0)).status == MERGE {
      MergedCovered(su, nd, o.claims, i, a);
    }
  }

  lemma OutcomeNoRaces(su: Setup, nd: nat, i: nat, n: nat, o: Negotiations.Outcome, threads: seq<Thread>)
    requires SetupOk(su, nd) && Negotiations.DimOk(su.p, i) && n > 0 && TurnsOk(su, nd, i, n, threads)
    requires Negotiations.ShiftedFor(su.p, i, n, o) && RaceFree(su, o, threads)
    ensures LastsInRange(DevicesOf(su, i, n), nd) && NoRaces(DevicesOf(su, i, n), nd, threads)
  {
    NegotiatedDevices(su, nd, i, n, threads);
    OutcomeIsShift(su, nd, i, n, o, threads);
    NoRacesOf(su.args, DevicesOf(su, i, n), nd, threads);
  }

  lemma OutcomeShiftOk(mem: Memory, nd: nat, c: Content, su: Setup, i: nat, n: nat, o: Negotiations.Outcome,
                       threads: seq<Thread>)
    requires SetupOk(su, nd) && Negotiations.DimOk(su.p, i) && n > 0 && TurnsOk(su, nd, i, n, threads)
    requires Negotiations.ShiftedFor(su.p, i, n, o) && Negotiations.Covers(su.p, i, n)
    requires PartsOk(su, su.p.partition(i)) && UnmergedCovered(su, o) && RaceFree(su, o, threads)
    requires ArgumentsOk(mem, su.args) && forall k :: 0 <= k < |threads| ==> ThreadFits(mem, c, su.args, threads[k])
    ensures ShiftOk(mem, nd, c, su.args, SplitFor(su, su.p.partition(i), su.devs[0]), DevicesOf(su, i, n), threads)
  {
    NegotiatedDevices(su, nd, i, n, threads);
    OutcomeNoRaces(su, nd, i, n, o, threads);
    OutcomeCovers(su, nd, i, n, o);
    PartitionRuns(su, nd, su.p.partition(i), su.devs[0], threads);
  }

  /** A launch negotiated with widened pieces, whatever the number of rounds, leaves the content one device running all
      work-items leaves. */
  lemma NegotiatedShiftRefinesSingleDevice(
    mem: Memory, nd: nat, c: Content, su: Setup, o: Negotiations.Outcome, threads: seq<Thread>)
    requires Coherent(mem, nd, c) && SetupOk(su, nd) && Negotiations.Accepted(su.p, o) && o.Shifted?
    requires o.dim < |su.p.dimOrder| && PartsOk(su, su.p.partition(o.dim)) && UnmergedCovered(su, o)
    requires forall n :: n > 0 && Negotiations.FirstCovering(su.p, o.dim, n) ==> TurnsOk(su, nd, o.dim, n, threads)
    requires ArgumentsOk(mem, su.args) && forall k :: 0 <= k < |threads| ==> ThreadFits(mem, c, su.args, threads[k])
    requires RaceFree(su, o, threads)
    ensures KernelInRange(mem, nd, KernelOfShift(OutcomeKernel(su, o, threads)))
    ensures Coherent(Launch(mem, nd, KernelOfShift(OutcomeKernel(su, o, threads))), nd, RunItems(Effects(threads), c))
  {
    var i := o.dim;
    var n: nat :| Negotiations.FirstCovering(su.p, i, n) && Negotiations.ShiftedFor(su.p, i, n, o);
    OutcomeShiftOk(mem, nd, c, su, i, n, o, threads);
    OutcomeIsShift(su, nd, i, n, o, threads);
    AnalysedShiftRefinesSingleDevice(
      mem, nd, c, su.args, SplitFor(su, su.p.partition(i), su.devs[0]), DevicesOf(su, i, n), threads);
  }
}

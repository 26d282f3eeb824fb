/** The launch on one device (Scheduler::fillSubkernelInfoSingle in libsplit/src/Scheduler/Scheduler.cpp): whatever the
    analysis answers, its data lists make the launch legal. */
module SingleLaunches {
  import opened Intervals
  import opened Bounds
  import opened KernelExprs
  import opened ArgumentAnalyses
  import opened Coherence
  import opened Transfers
  import opened KernelSteps
  import opened Drivers
  import opened SplitSoundness
  import opened SubKernelInfos

  // One part, run by one device.
  ghost predicate OnePart(sp: Split, n: nat) {
    SplitOk(sp, n) && |sp.ranges| == 1
  }

  ghost function LoadExprs(arg: Argument, sp: Split): seq<Tree>
    requires RangesOk(sp.ranges, sp.indirs)
  {
    SubKernelExprs(arg.loads, sp.ranges[0], sp.indirs[0])
  }

  ghost function StoreExprs(arg: Argument, sp: Split): seq<Tree>
    requires RangesOk(sp.ranges, sp.indirs)
  {
    SubKernelExprs(arg.stores, sp.ranges[0], sp.indirs[0])
  }

  // An unknown written region stands for the whole buffer, and so does then what is required.
  ghost function SingleWritten(arg: Argument, sp: Split): Entry
    requires RangesOk(sp.ranges, sp.indirs) && |sp.devs| == |sp.ranges|
  {
    var es := StoreExprs(arg, sp);
    Entry(arg.buf, sp.devs[0], if Known(es) then RegionOf(es) else {}, !Known(es))
  }

  ghost function SingleRequired(arg: Argument, sp: Split): Entry
    requires RangesOk(sp.ranges, sp.indirs) && |sp.devs| == |sp.ranges|
  {
    var ls, es := LoadExprs(arg, sp), StoreExprs(arg, sp);
    Entry(arg.buf, sp.devs[0],
          if !Known(es) then {} else (if Known(ls) then RegionOf(ls) else {}) + RegionOf(es),
          !Known(es) || !Known(ls))
  }

  ghost function RequiredOf(args: seq<Argument>, sp: Split): (l: seq<Entry>)
    requires RangesOk(sp.ranges, sp.indirs) && |sp.devs| == |sp.ranges|
    ensures |l| == |args| && forall k :: 0 <= k < |l| ==> l[k] == SingleRequired(args[k], sp)
  {
    seq(|args|, k requires 0 <= k < |args| => SingleRequired(args[k], sp))
  }

  ghost function WrittenOf(args: seq<Argument>, sp: Split): (l: seq<Entry>)
    requires RangesOk(sp.ranges, sp.indirs) && |sp.devs| == |sp.ranges|
    ensures |l| == |args| && forall k :: 0 <= k < |l| ==> l[k] == SingleWritten(args[k], sp)
  {
    seq(|args|, k requires 0 <= k < |args| => SingleWritten(args[k], sp))
  }

  ghost function SingleKernel(args: seq<Argument>, sp: Split, threads: seq<seq<Thread>>): Kernel
    requires RangesOk(sp.ranges, sp.indirs) && |sp.devs| == |sp.ranges| == |threads|
  {
    Kernel(SubKernelsOf(sp, threads), NonEmpty(RequiredOf(args, sp)), NonEmpty(WrittenOf(args, sp)))
  }

  // The uses are those the analysis over-approximates; nothing is asked of its answer.
  ghost predicate UsesSupported(mem: Memory, n: nat, args: seq<Argument>, sp: Split)
    requires SplitOk(sp, n)
  {
    forall k :: 0 <= k < |args| ==>
      && args[k].buf < |mem| && UsesOk(args[k].loads, sp, n) && UsesOk(args[k].stores, sp, n)
      && (args[k].stores != [] ==> !mem[args[k].buf].isRO)
  }

  // ---- The lists cover the accesses ----

  lemma ListNeeds(l: seq<Entry>, k: nat, d: nat, a: Addr)
    requires k < |l| && l[k].buf == a.buf && l[k].dev == d && Covers(l[k], a.off)
    ensures Needed(NonEmpty(l), d, a)
  {
    assert Needed(l, d, a);
    NonEmptyNeeds(l, d, a);
  }

  lemma SingleLoadsNeeded(mem: Memory, n: nat, args: seq<Argument>, sp: Split, t: Thread, a: Addr)
    requires OnePart(sp, n) && UsesSupported(mem, n, args, sp) && RunsIn(t, sp, 0) && LoadsUse(args, t, a)
    ensures Needed(NonEmpty(RequiredOf(args, sp)), sp.devs[0], a)
  {
    var k :| 0 <= k < |args| && args[k].buf == a.buf && Accesses(args[k].loads, t, a.off);
    if Known(LoadExprs(args[k], sp)) {
      AccessInRegion(args[k].loads, sp, n, 0, t, a.off);
    }
    ListNeeds(RequiredOf(args, sp), k, sp.devs[0], a);
  }

  lemma SingleStoresNeeded(mem: Memory, n: nat, args: seq<Argument>, sp: Split, t: Thread, a: Addr)
    requires OnePart(sp, n) && UsesSupported(mem, n, args, sp) && RunsIn(t, sp, 0) && StoresUse(args, t, a)
    ensures Needed(NonEmpty(WrittenOf(args, sp)), sp.devs[0], a)
  {
    var k :| 0 <= k < |args| && args[k].buf == a.buf && Accesses(args[k].stores, t, a.off);
    if Known(StoreExprs(args[k], sp)) {
      AccessInRegion(args[k].stores, sp, n, 0, t, a.off);
    }
    ListNeeds(WrittenOf(args, sp), k, sp.devs[0], a);
  }

  // What is written is required too, on the one device.
  lemma SingleWrittenRequired(args: seq<Argument>, sp: Split, n: nat, d: nat, a: Addr)
    requires OnePart(sp, n) && Needed(NonEmpty(WrittenOf(args, sp)), d, a)
    ensures d == sp.devs[0] && Needed(NonEmpty(RequiredOf(args, sp)), d, a)
  {
    var l := WrittenOf(args, sp);
    NonEmptyNeeds(l, d, a);
    var k :| 0 <= k < |l| && l[k].buf == a.buf && l[k].dev == d && Covers(l[k], a.off);
    ListNeeds(RequiredOf(args, sp), k, d, a);
  }

  lemma SingleListsInRange(mem: Memory, n: nat, args: seq<Argument>, sp: Split)
    requires OnePart(sp, n) && UsesSupported(mem, n, args, sp)
    ensures EntriesInRange(mem, n, NonEmpty(RequiredOf(args, sp))) && EntriesInRange(mem, n, NonEmpty(WrittenOf(args, sp)))
    ensures forall p :: 0 <= p < |NonEmpty(WrittenOf(args, sp))| ==> !mem[NonEmpty(WrittenOf(args, sp))[p].buf].isRO
  {
    var l, w := RequiredOf(args, sp), WrittenOf(args, sp);
    forall p | 0 <= p < |NonEmpty(l)| ensures NonEmpty(l)[p].buf < |mem| && NonEmpty(l)[p].dev < n {
      var k := NonEmptyFrom(l, p);
    }
    forall p | 0 <= p < |NonEmpty(w)|
      ensures NonEmpty(w)[p].buf < |mem| && NonEmpty(w)[p].dev < n && !mem[NonEmpty(w)[p].buf].isRO
    {
      var k := NonEmptyFrom(w, p);
      assert args[k].stores == [] ==> StoreExprs(args[k], sp) == [] && RegionOf([]) == {};
    }
  }

  /** Whatever the analysis answers for the one part, the launch is legal. */
  lemma SingleLaunchLegal(mem: Memory, n: nat, c: Content, args: seq<Argument>, sp: Split, threads: seq<seq<Thread>>)
    requires OnePart(sp, n) && |threads| == 1
    requires UsesSupported(mem, n, args, sp) && ProgramOk(mem, n, c, args, sp, threads)
    ensures LegalLaunch(mem, n, c, SingleKernel(args, sp, threads))
  {
    var kernel := SingleKernel(args, sp, threads);
    SingleListsInRange(mem, n, args, sp);
    forall i, j | 0 <= i < |kernel.subs| && 0 <= j < |kernel.subs[i].items|
      ensures var w, d := kernel.subs[i].items[j], kernel.subs[i].dev;
        && WorkItemOk(w)
        && w.stores <= Addresses(mem)
        && (forall a :: a in w.loads ==> a in c && Needed(kernel.required, d, a) && !StoresElsewhere(kernel.subs, d, a))
        && (forall a :: a in w.stores ==> Needed(kernel.written, d, a))
    {
      SingleThreadLegal(mem, n, c, args, sp, threads, j);
    }
    forall a, d | Needed(kernel.written, d, a) ensures d == sp.devs[0] && Needed(kernel.required, d, a) {
      SingleWrittenRequired(args, sp, n, d, a);
    }
  }

  lemma SingleThreadLegal(
    mem: Memory, n: nat, c: Content, args: seq<Argument>, sp: Split, threads: seq<seq<Thread>>, j: nat)
    requires OnePart(sp, n) && |threads| == 1 && j < |threads[0]|
    requires UsesSupported(mem, n, args, sp) && ProgramOk(mem, n, c, args, sp, threads)
    ensures var w, d, kernel := threads[0][j].effect, sp.devs[0], SingleKernel(args, sp, threads);
      && WorkItemOk(w)
      && w.stores <= Addresses(mem)
      && (forall a :: a in w.loads ==> a in c && Needed(kernel.required, d, a) && !StoresElsewhere(kernel.subs, d, a))
      && (forall a :: a in w.stores ==> Needed(kernel.written, d, a))
  {
    var t := threads[0][j];
    assert ThreadOk(mem, n, c, args, sp, threads, 0, t);
    forall a | a in t.effect.loads ensures Needed(NonEmpty(RequiredOf(args, sp)), sp.devs[0], a) {
      SingleLoadsNeeded(mem, n, args, sp, t, a);
    }
    forall a | a in t.effect.stores ensures Needed(NonEmpty(WrittenOf(args, sp)), sp.devs[0], a) {
      SingleStoresNeeded(mem, n, args, sp, t, a);
    }
  }

  /** The fallback on one device refines single-device execution without any answer of the analysis. */
  lemma SingleLaunchRefinesSingleDevice(
    mem: Memory, n: nat, c: Content, args: seq<Argument>, sp: Split, threads: seq<seq<Thread>>)
    requires Coherent(mem, n, c) && OnePart(sp, n) && |threads| == 1
    requires UsesSupported(mem, n, args, sp) && ProgramOk(mem, n, c, args, sp, threads)
    ensures KernelInRange(mem, n, SingleKernel(args, sp, threads))
    ensures Coherent(Launch(mem, n, SingleKernel(args, sp, threads)), n, RunSingleDevice(SubKernelsOf(sp, threads), c))
  {
    SingleLaunchLegal(mem, n, c, args, sp, threads);
    SplitRefinesSingleDevice(mem, n, c, SingleKernel(args, sp, threads));
  }

  // ---- fillSubkernelInfoSingle ----

  // The analysis object holds the result for the one part, and whether the bounds of the stores were computed.
  ghost predicate AnalysedOnce(an: ArgumentAnalysis, arg: Argument, sp: Split)
    requires RangesOk(sp.ranges, sp.indirs)
    reads an, an.writtenMergeRegion
  {
    Analysed(an, arg, sp) && an.mWriteBoundsComputed == AllKnown(Exprs(arg.stores, sp.ranges, sp.indirs))
  }

  // The regions of one argument.
  method SingleRegions(an: ArgumentAnalysis, ghost arg: Argument, ghost sp: Split)
    returns (required: ListInterval, written: ListInterval)
    requires RangesOk(sp.ranges, sp.indirs) && |sp.ranges| == |sp.devs| == 1 && AnalysedOnce(an, arg, sp)
    ensures fresh(required) && required.Valid() && fresh(written) && written.Valid()
    ensures SingleRequired(arg, sp) == Entry(arg.buf, sp.devs[0], required.Contents(), required.undefined)
    ensures SingleWritten(arg, sp) == Entry(arg.buf, sp.devs[0], written.Contents(), written.undefined)
  {
    SingleOutcome(arg, sp);
    assert Contents(an.writtenSubkernelsRegions)[0] == ResultOf(arg, sp).written[0];
    assert Contents(an.readSubkernelsRegions)[0] == ResultOf(arg, sp).read[0];
    required := new ListInterval();
    written := new ListInterval();
    if !an.mWriteBoundsComputed {
      written.undefined := true;
      required.undefined := true;
    } else {
      if !an.mReadBoundsComputed {
        required.undefined := true;
      } else {
        required.MyUnion(an.readSubkernelsRegions[0]);
      }
      written.MyUnion(an.writtenSubkernelsRegions[0]);
      required.MyUnion(written.mList);
    }
  }

  // With one part nothing is shared, so no region has been trimmed.
  lemma SingleOutcome(arg: Argument, sp: Split)
    requires RangesOk(sp.ranges, sp.indirs) && |sp.ranges| == 1
    ensures var res := ResultOf(arg, sp);
      && res.status != MERGE && res.readKnown == Known(LoadExprs(arg, sp))
      && res.read == [RegionOf(LoadExprs(arg, sp))] && res.written == [RegionOf(StoreExprs(arg, sp))]
    ensures AllKnown(Exprs(arg.stores, sp.ranges, sp.indirs)) == Known(StoreExprs(arg, sp))
  {
    var ls, es := Exprs(arg.loads, sp.ranges, sp.indirs), Exprs(arg.stores, sp.ranges, sp.indirs);
    assert ls[0] == LoadExprs(arg, sp) && es[0] == StoreExprs(arg, sp);
    assert AllKnown(ls) == Known(ls[0]) && AllKnown(es) == Known(es[0]);
  }

  /** The lists handed to the driver are those of the theorem. */
  method FillSingle(ans: seq<ArgumentAnalysis>, ghost args: seq<Argument>, ghost sp: Split, bufs: seq<nat>, dev: nat)
    returns (dataRequired: seq<DeviceBufferRegion>, dataWritten: seq<DeviceBufferRegion>)
    requires RangesOk(sp.ranges, sp.indirs) && |sp.ranges| == 1 && sp.devs == [dev]
    requires |ans| == |bufs| == |args|
    requires forall k :: 0 <= k < |args| ==> AnalysedOnce(ans[k], args[k], sp) && bufs[k] == args[k].buf
    ensures AsEntries(dataRequired) == NonEmpty(RequiredOf(args, sp))
    ensures AsEntries(dataWritten) == NonEmpty(WrittenOf(args, sp))
  {
    dataRequired, dataWritten := [], [];
    ghost var row, wrow := RequiredOf(args, sp), WrittenOf(args, sp);
    for a := 0 to |ans|
      invariant AsEntries(dataRequired) == NonEmpty(row[..a])
      invariant AsEntries(dataWritten) == NonEmpty(wrow[..a])
    {
      var readRegion, writtenRegion := SingleRegions(ans[a], args[a], sp);
      dataRequired := AddRegion(dataRequired, readRegion, bufs[a], dev);
      dataWritten := AddRegion(dataWritten, writtenRegion, bufs[a], dev);
      NonEmptyNext(row, a);
      NonEmptyNext(wrow, a);
    }
    assert row[..|ans|] == row && wrow[..|ans|] == wrow;
  }
}

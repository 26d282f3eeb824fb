/** The data lists of a launch (Scheduler::fillSubkernelInfoMulti in libsplit/src/Scheduler/Scheduler.cpp). */
module SubKernelInfos {
  import opened Intervals
  import opened KernelExprs
  import opened ArgumentAnalyses
  import opened Transfers
  import opened Drivers
  import opened SplitSoundness

  // The analysis object holds the result of analysing the argument for the split.
  ghost predicate Analysed(an: ArgumentAnalysis, arg: Argument, sp: Split)
    requires RangesOk(sp.ranges, sp.indirs)
    reads an, an.writtenMergeRegion
  {
    && an.Valid()
    && (exists status :: an.Outcome(status) == ResultOf(arg, sp))
    && an.loadSubKernelsExprs == Exprs(arg.loads, sp.ranges, sp.indirs)
    && an.storeSubKernelsExprs == Exprs(arg.stores, sp.ranges, sp.indirs)
  }

  ghost predicate AllAnalysed(ans: seq<ArgumentAnalysis>, args: seq<Argument>, sp: Split)
    requires RangesOk(sp.ranges, sp.indirs)
    reads ans, set k | 0 <= k < |ans| :: ans[k].writtenMergeRegion
  {
    |ans| == |args| && forall k :: 0 <= k < |ans| ==> Analysed(ans[k], args[k], sp)
  }

  // The regions of sub-kernel i. What is written also has to be sent to the device.
  method ArgRegions(an: ArgumentAnalysis, ghost arg: Argument, ghost sp: Split, i: nat)
    returns (required: ListInterval, written: ListInterval)
    requires RangesOk(sp.ranges, sp.indirs) && i < |sp.ranges| && Analysed(an, arg, sp)
    ensures fresh(required) && required.Valid() && required.Contents() == RequiredRegion(arg, sp, i)
    ensures required.undefined == !ResultOf(arg, sp).readKnown
    ensures fresh(written) && written.Valid() && written.Contents() == WrittenRegion(arg, sp, i)
    ensures !written.undefined
  {
    AnalysedAt(an, arg, sp, i);
    required := JoinRegions(!an.mReadBoundsComputed, an.loadSubKernelsExprs[i] != [], an.readSubkernelsRegions[i],
                            an.writtenSubkernelsRegions[i], an.writtenMergeRegion.mList);
    written := new ListInterval();
    if an.storeSubKernelsExprs[i] != [] {
      written.MyUnion(an.writtenSubkernelsRegions[i]);
    }
  }

  lemma AnalysedAt(an: ArgumentAnalysis, arg: Argument, sp: Split, i: nat)
    requires RangesOk(sp.ranges, sp.indirs) && i < |sp.ranges| && Analysed(an, arg, sp)
    ensures var res := ResultOf(arg, sp);
      && i < |an.readSubkernelsRegions| && Canonical(an.readSubkernelsRegions[i])
      && i < |an.writtenSubkernelsRegions| && Canonical(an.writtenSubkernelsRegions[i])
      && Bytes(an.readSubkernelsRegions[i]) == res.read[i] && Bytes(an.writtenSubkernelsRegions[i]) == res.written[i]
      && Canonical(an.writtenMergeRegion.mList) && Bytes(an.writtenMergeRegion.mList) == res.merge
      && an.mReadBoundsComputed == res.readKnown
      && i < |an.loadSubKernelsExprs| && an.loadSubKernelsExprs[i] == SubKernelExprs(arg.loads, sp.ranges[i], sp.indirs[i])
      && i < |an.storeSubKernelsExprs| && an.storeSubKernelsExprs[i] == SubKernelExprs(arg.stores, sp.ranges[i], sp.indirs[i])
  {
    assert Contents(an.writtenSubkernelsRegions)[i] == ResultOf(arg, sp).written[i];
    assert Contents(an.readSubkernelsRegions)[i] == ResultOf(arg, sp).read[i];
  }

  // What a sub-kernel reads, if anything, together with what it writes and what several sub-kernels write.
  method JoinRegions(unknown: bool, isRead: bool, read: seq<Interval>, written: seq<Interval>, merge: seq<Interval>)
    returns (required: ListInterval)
    requires Canonical(read) && Canonical(written) && Canonical(merge)
    ensures fresh(required) && required.Valid() && required.undefined == unknown
    ensures required.Contents() == (if isRead then Bytes(read) else {}) + Bytes(written) + Bytes(merge)
  {
    required := new ListInterval();
    if unknown {
      required.undefined := true;
    }
    if isRead {
      required.MyUnion(read);
    }
    required.MyUnion(written);
    required.MyUnion(merge);
  }

  lemma EntriesSnoc(l: seq<DeviceBufferRegion>, r: DeviceBufferRegion)
    ensures AsEntries(l + [r]) == AsEntries(l) + [AsEntry(r)]
  {
  }

  lemma NonEmptyNext(row: seq<Entry>, i: nat)
    requires i < |row|
    ensures NonEmpty(row[..i + 1]) == NonEmpty(row[..i]) + if row[i].region != {} || row[i].undefined then [row[i]] else []
  {
    assert row[..i + 1][..i] == row[..i];
  }

  lemma ListedNext(rows: seq<seq<Entry>>, i: nat)
    requires i < |rows|
    ensures Listed(rows[..i + 1]) == Listed(rows[..i]) + NonEmpty(rows[i])
  {
    assert rows[..i + 1][..i] == rows[..i];
  }

  // A region without bytes is not listed, unless it is undefined.
  method AddRegion(l: seq<DeviceBufferRegion>, region: ListInterval, buf: nat, dev: nat) returns (r: seq<DeviceBufferRegion>)
    requires region.Valid()
    ensures var e := Entry(buf, dev, region.Contents(), region.undefined);
      AsEntries(r) == AsEntries(l) + if e.region != {} || e.undefined then [e] else []
  {
    r := l;
    var total := region.Total();
    if total > 0 || region.undefined {
      var d := DeviceBufferRegion(buf, dev, region.mList, region.undefined);
      EntriesSnoc(l, d);
      r := l + [d];
    }
  }

  // The entries of one argument, one sub-kernel after the other.
  method FillArg(an: ArgumentAnalysis, ghost arg: Argument, ghost sp: Split, buf: nat, devs: seq<nat>)
    returns (required: seq<DeviceBufferRegion>, written: seq<DeviceBufferRegion>)
    requires RangesOk(sp.ranges, sp.indirs) && devs == sp.devs && |devs| == |sp.ranges| && buf == arg.buf
    requires Analysed(an, arg, sp)
    ensures AsEntries(required) == NonEmpty(RequiredRow(arg, sp))
    ensures AsEntries(written) == NonEmpty(WrittenRow(arg, sp))
  {
    required, written := [], [];
    ghost var row, wrow := RequiredRow(arg, sp), WrittenRow(arg, sp);
    for i := 0 to |devs|
      invariant AsEntries(required) == NonEmpty(row[..i])
      invariant AsEntries(written) == NonEmpty(wrow[..i])
    {
      var readRegion, writtenRegion := ArgRegions(an, arg, sp, i);
      required := AddRegion(required, readRegion, buf, devs[i]);
      written := AddRegion(written, writtenRegion, buf, devs[i]);
      NonEmptyNext(row, i);
      NonEmptyNext(wrow, i);
    }
    assert row[..|devs|] == row && wrow[..|devs|] == wrow;
  }

  lemma EntriesConcat(l: seq<DeviceBufferRegion>, m: seq<DeviceBufferRegion>)
    ensures AsEntries(l + m) == AsEntries(l) + AsEntries(m)
  {
  }

  ghost function RequiredRows(args: seq<Argument>, sp: Split): (rows: seq<seq<Entry>>)
    requires RangesOk(sp.ranges, sp.indirs) && |sp.devs| == |sp.ranges|
    ensures |rows| == |args| && DataRequired(args, sp) == Listed(rows)
    ensures forall k :: 0 <= k < |args| ==> rows[k] == RequiredRow(args[k], sp)
  {
    seq(|args|, k requires 0 <= k < |args| => RequiredRow(args[k], sp))
  }

  ghost function WrittenRows(args: seq<Argument>, sp: Split): (rows: seq<seq<Entry>>)
    requires RangesOk(sp.ranges, sp.indirs) && |sp.devs| == |sp.ranges|
    ensures |rows| == |args| && DataWritten(args, sp) == Listed(rows)
    ensures forall k :: 0 <= k < |args| ==> rows[k] == WrittenRow(args[k], sp)
  {
    seq(|args|, k requires 0 <= k < |args| => WrittenRow(args[k], sp))
  }

  /** The lists handed to the driver are those the split execution is proved for. */
  method FillDataLists(ans: seq<ArgumentAnalysis>, ghost args: seq<Argument>, ghost sp: Split, bufs: seq<nat>,
                       devs: seq<nat>)
    returns (dataRequired: seq<DeviceBufferRegion>, dataWritten: seq<DeviceBufferRegion>)
    requires RangesOk(sp.ranges, sp.indirs) && devs == sp.devs && |devs| == |sp.ranges|
    requires AllAnalysed(ans, args, sp) && |bufs| == |args| && forall k :: 0 <= k < |args| ==> bufs[k] == args[k].buf
    ensures AsEntries(dataRequired) == DataRequired(args, sp)
    ensures AsEntries(dataWritten) == DataWritten(args, sp)
  {
    dataRequired, dataWritten := [], [];
    ghost var rows, wrows := RequiredRows(args, sp), WrittenRows(args, sp);
    for a := 0 to |ans|
      invariant AsEntries(dataRequired) == Listed(rows[..a])
      invariant AsEntries(dataWritten) == Listed(wrows[..a])
    {
      var required, written := FillArg(ans[a], args[a], sp, bufs[a], devs);
      EntriesConcat(dataRequired, required);
      EntriesConcat(dataWritten, written);
      ListedNext(rows, a);
      ListedNext(wrows, a);
      dataRequired, dataWritten := dataRequired + required, dataWritten + written;
    }
    assert rows[..|ans|] == rows && wrows[..|ans|] == wrows;
  }
}

/** From the analyses of the widened pieces to a legal shifted launch (Scheduler::setIndirectionValues and
    fillSubkernelInfoShift in libsplit/src/Scheduler/Scheduler.cpp). */
module ShiftedAnalyses {
  import opened Arithmetic
  import opened Intervals
  import opened IndexExprs
  import opened Bounds
  import opened Evaluation
  import opened NDRanges
  import opened WorkItems
  import opened KernelExprs
  import opened ArgumentAnalyses
  import opened Coherence
  import opened Transfers
  import opened KernelSteps
  import opened Drivers
  import opened SplitSoundness
  import opened SubKernelInfos
  import Negotiations
  import opened ShiftedLaunches

  // A partition analysed while the pieces are widened; part `id` is the widened piece of the device.
  datatype Turn = Turn(sp: Split, id: nat)

  // The turns of one device; the last one is the one it runs.
  datatype Device = Device(dev: nat, turns: seq<Turn>)

  // The work-items that run in the part.
  ghost predicate Runs(t: Turn, w: Thread, n: nat)
    requires SplitOk(t.sp, n) && t.id < |t.sp.ranges|
  {
    RunsIn(w, t.sp, t.id)
  }

  // The parts hold all work-items of the kernel.
  ghost predicate Covering(sp: Split, n: nat, threads: seq<Thread>)
    requires SplitOk(sp, n)
  {
    forall k :: 0 <= k < |threads| ==> RunsSomewhere(threads[k], sp, n)
  }

  ghost predicate RunsSomewhere(w: Thread, sp: Split, n: nat)
    requires SplitOk(sp, n)
  {
    exists j :: 0 <= j < |sp.ranges| && RunsIn(w, sp, j)
  }

  // The analysis of the partition does not fail, on uses it over-approximates.
  ghost predicate ArgumentOk(arg: Argument, sp: Split, n: nat)
    requires SplitOk(sp, n)
  {
    UsesOk(arg.loads, sp, n) && UsesOk(arg.stores, sp, n) && ResultOf(arg, sp).status != FAIL
  }

  ghost predicate TurnOk(args: seq<Argument>, t: Turn, n: nat, threads: seq<Thread>) {
    && SplitOk(t.sp, n) && t.id < |t.sp.ranges| && Covering(t.sp, n, threads)
    && forall k :: 0 <= k < |args| ==> ArgumentOk(args[k], t.sp, n)
  }

  // A device's pieces only grow.
  ghost predicate DeviceOk(args: seq<Argument>, h: Device, n: nat, threads: seq<Thread>) {
    && h.dev < n && h.turns != []
    && (forall m :: 0 <= m < |h.turns| ==> TurnOk(args, h.turns[m], n, threads))
    && forall m, k :: 0 <= m < |h.turns| && 0 <= k < |threads| && Runs(h.turns[m], threads[k], n) ==>
         Runs(h.turns[|h.turns| - 1], threads[k], n)
  }

  // ---- What a device claims ----

  ghost function WrittenIn(arg: Argument, t: Turn): set<nat>
    requires RangesOk(t.sp.ranges, t.sp.indirs) && t.id < |t.sp.ranges|
  {
    ResultOf(arg, t.sp).written[t.id]
  }

  ghost predicate TurnsInRange(turns: seq<Turn>) {
    forall m :: 0 <= m < |turns| ==> RangesOk(turns[m].sp.ranges, turns[m].sp.indirs) && turns[m].id < |turns[m].sp.ranges|
  }

  // Each turn adds the region its widened piece writes.
  ghost function DeviceClaims(arg: Argument, turns: seq<Turn>): set<nat>
    requires TurnsInRange(turns)
  {
    if turns == [] then {} else DeviceClaims(arg, turns[..|turns| - 1]) + WrittenIn(arg, turns[|turns| - 1])
  }

  lemma {:induction false} ClaimedInTurn(arg: Argument, turns: seq<Turn>, x: nat) returns (m: nat)
    requires TurnsInRange(turns) && x in DeviceClaims(arg, turns)
    ensures m < |turns| && x in WrittenIn(arg, turns[m])
  {
    var init := turns[..|turns| - 1];
    if x in DeviceClaims(arg, init) {
      m := ClaimedInTurn(arg, init, x);
    } else {
      m := |turns| - 1;
    }
  }

  // The region before the bytes shared with other parts are taken out.
  ghost function Whole(arg: Argument, sp: Split): (w: seq<set<nat>>)
    requires RangesOk(sp.ranges, sp.indirs)
    ensures |w| == |sp.ranges|
  {
    RegionsOf(Exprs(arg.stores, sp.ranges, sp.indirs))
  }

  lemma ResultIs(arg: Argument, sp: Split)
    requires RangesOk(sp.ranges, sp.indirs) && ResultOf(arg, sp).status != FAIL
    ensures |ResultOf(arg, sp).written| == |sp.ranges| && ResultOf(arg, sp).merge == Shared(Whole(arg, sp))
    ensures ResultOf(arg, sp).written == Trimmed(Whole(arg, sp), Shared(Whole(arg, sp)))
  {
    DisjointIsUnshared(Whole(arg, sp));
    TrimmedByNothing(Whole(arg, sp));
  }

  // A stored byte is in the region of the part that runs the work-item.
  lemma StoredInWhole(arg: Argument, sp: Split, n: nat, j: nat, t: Thread, x: nat)
    requires SplitOk(sp, n) && j < |sp.ranges| && ArgumentOk(arg, sp, n) && RunsIn(t, sp, j)
    requires Accesses(arg.stores, t, x)
    ensures x in Whole(arg, sp)[j]
  {
    var es := Exprs(arg.stores, sp.ranges, sp.indirs);
    assert arg.stores != [];
    assert AllKnown(es);
    assert Known(es[j]);
    AccessInRegion(arg.stores, sp, n, j, t, x);
  }

  lemma InTwoRegions(w: seq<set<nat>>, i: nat, j: nat, x: nat)
    requires i < |w| && j < |w|
    ensures x in w[i] && x in w[j] ==> i == j || x in Shared(w)
  {
  }

  /** A byte claimed in a turn is stored by work-items of the widened piece only. */
  lemma WrittenExclusively(args: seq<Argument>, k: nat, t: Turn, n: nat, threads: seq<Thread>, m: nat, x: nat)
    requires TurnOk(args, t, n, threads) && k < |args| && m < |threads|
    requires x in WrittenIn(args[k], t) && Accesses(args[k].stores, threads[m], x)
    ensures Runs(t, threads[m], n)
  {
    assert RunsSomewhere(threads[m], t.sp, n);
    var j :| 0 <= j < |t.sp.ranges| && RunsIn(threads[m], t.sp, j);
    assert ArgumentOk(args[k], t.sp, n);
    StoredInWhole(args[k], t.sp, n, j, threads[m], x);
    ResultIs(args[k], t.sp);
    InTwoRegions(Whole(args[k], t.sp), t.id, j, x);
  }

  lemma ClaimedExclusively(args: seq<Argument>, k: nat, h: Device, n: nat, threads: seq<Thread>, m: nat, x: nat)
    requires DeviceOk(args, h, n, threads) && TurnsInRange(h.turns) && k < |args| && m < |threads|
    requires x in DeviceClaims(args[k], h.turns) && Accesses(args[k].stores, threads[m], x)
    ensures Runs(h.turns[|h.turns| - 1], threads[m], n)
  {
    var p := ClaimedInTurn(args[k], h.turns, x);
    WrittenExclusively(args, k, h.turns[p], n, threads, m, x);
  }

  // ---- The written region of the pieces ----

  // getArgFullWrittenRegion.
  ghost function FullWritten(arg: Argument, sp: Split): set<nat>
    requires RangesOk(sp.ranges, sp.indirs)
  {
    ResultOf(arg, sp).merge + UnionOf(ResultOf(arg, sp).written)
  }

  /** Every byte a work-item stores is in the full written region of the pieces. */
  lemma StoredInFull(arg: Argument, sp: Split, n: nat, threads: seq<Thread>, m: nat, x: nat)
    requires SplitOk(sp, n) && ArgumentOk(arg, sp, n) && Covering(sp, n, threads) && m < |threads|
    requires Accesses(arg.stores, threads[m], x)
    ensures x in FullWritten(arg, sp)
  {
    assert RunsSomewhere(threads[m], sp, n);
    var j :| 0 <= j < |sp.ranges| && RunsIn(threads[m], sp, j);
    StoredInWhole(arg, sp, n, j, threads[m], x);
    ResultIs(arg, sp);
    assert x in UnionOf(Whole(arg, sp));
    DisjointTestConserves(Whole(arg, sp));
  }

  // ---- The launch ----

  function Last(h: Device): Turn
    requires h.turns != []
  {
    h.turns[|h.turns| - 1]
  }

  ghost predicate DevicesInRange(hs: seq<Device>) {
    forall i :: 0 <= i < |hs| ==> hs[i].turns != [] && TurnsInRange(hs[i].turns)
  }

  // What the last widened piece reads, together with all the device claims.
  ghost function RequiredEntry(arg: Argument, h: Device): Entry
    requires h.turns != [] && TurnsInRange(h.turns)
  {
    var res := ResultOf(arg, Last(h).sp);
    Entry(arg.buf, h.dev, res.read[Last(h).id] + DeviceClaims(arg, h.turns), !res.readKnown)
  }

  ghost function WrittenEntry(arg: Argument, h: Device): Entry
    requires h.turns != [] && TurnsInRange(h.turns)
  {
    Entry(arg.buf, h.dev, DeviceClaims(arg, h.turns), false)
  }

  ghost function RequiredRows(args: seq<Argument>, hs: seq<Device>): (rows: seq<seq<Entry>>)
    requires DevicesInRange(hs)
    ensures |rows| == |args|
    ensures forall k :: 0 <= k < |rows| ==> |rows[k]| == |hs|
    ensures forall k, i :: 0 <= k < |rows| && 0 <= i < |hs| ==> rows[k][i] == RequiredEntry(args[k], hs[i])
  {
    seq(|args|, k requires 0 <= k < |args| => seq(|hs|, i requires 0 <= i < |hs| => RequiredEntry(args[k], hs[i])))
  }

  ghost function WrittenRows(args: seq<Argument>, hs: seq<Device>): (rows: seq<seq<Entry>>)
    requires DevicesInRange(hs)
    ensures |rows| == |args|
    ensures forall k :: 0 <= k < |rows| ==> |rows[k]| == |hs|
    ensures forall k, i :: 0 <= k < |rows| && 0 <= i < |hs| ==> rows[k][i] == WrittenEntry(args[k], hs[i])
  {
    seq(|args|, k requires 0 <= k < |args| => seq(|hs|, i requires 0 <= i < |hs| => WrittenEntry(args[k], hs[i])))
  }

  // The work-items of the kernel that run in the last widened piece of the device.
  ghost function RunOf(h: Device, n: nat, threads: seq<Thread>): Run
    requires h.turns != [] && SplitOk(Last(h).sp, n) && Last(h).id < |Last(h).sp.ranges|
  {
    Run(h.dev, set k | 0 <= k < |threads| && Runs(Last(h), threads[k], n))
  }

  ghost predicate DevicesOk(args: seq<Argument>, hs: seq<Device>, n: nat, threads: seq<Thread>) {
    && (forall i :: 0 <= i < |hs| ==> DeviceOk(args, hs[i], n, threads) && TurnsInRange(hs[i].turns))
    && forall i, j :: 0 <= i < |hs| && 0 <= j < |hs| && hs[i].dev == hs[j].dev ==> i == j
  }

  ghost function ShiftOf(args: seq<Argument>, hs: seq<Device>, n: nat, threads: seq<Thread>): (s: ShiftedKernel)
    requires DevicesOk(args, hs, n, threads) && DevicesInRange(hs)
    ensures |s.runs| == |hs| && s.items == Effects(threads)
    ensures forall i :: 0 <= i < |hs| ==> s.runs[i] == RunOf(hs[i], n, threads)
  {
    ShiftedKernel(Effects(threads), seq(|hs|, i requires 0 <= i < |hs| => RunOf(hs[i], n, threads)),
      Listed(RequiredRows(args, hs)), Listed(WrittenRows(args, hs)))
  }

  // Arguments have buffers of their own, and written ones are not read-only.
  ghost predicate ArgumentsOk(mem: Memory, args: seq<Argument>) {
    && (forall k :: 0 <= k < |args| ==> args[k].buf < |mem| && (args[k].stores != [] ==> !mem[args[k].buf].isRO))
    && forall k, m :: 0 <= k < |args| && 0 <= m < |args| && args[k].buf == args[m].buf ==> k == m
  }

  // What the program promises of a work-item.
  ghost predicate ThreadFits(mem: Memory, c: Content, args: seq<Argument>, t: Thread) {
    AccessesMatch(args, t) && ItemFits(mem, c, t.effect)
  }

  ghost predicate LastsInRange(hs: seq<Device>, n: nat) {
    forall i :: 0 <= i < |hs| ==>
      hs[i].turns != [] && SplitOk(Last(hs[i]).sp, n) && Last(hs[i]).id < |Last(hs[i]).sp.ranges|
  }

  // No work-item loads a byte that a work-item outside its device's piece stores.
  ghost predicate NoRaces(hs: seq<Device>, n: nat, threads: seq<Thread>)
    requires LastsInRange(hs, n)
  {
    forall i, k, a :: 0 <= i < |hs| && 0 <= k < |threads| && Runs(Last(hs[i]), threads[k], n) && a in threads[k].effect.loads ==>
      StoredWithin(Effects(threads), RunOf(hs[i], n, threads), a)
  }

  ghost predicate ClaimedByOne(arg: Argument, hs: seq<Device>, x: nat)
    requires DevicesInRange(hs)
  {
    exists i :: 0 <= i < |hs| && x in DeviceClaims(arg, hs[i].turns)
  }

  // The negotiation's test, asked of every argument: the claims cover what the pieces write.
  ghost predicate ClaimsCover(args: seq<Argument>, pieces: Split, hs: seq<Device>)
    requires DevicesInRange(hs) && RangesOk(pieces.ranges, pieces.indirs)
  {
    forall k, x :: 0 <= k < |args| && x in FullWritten(args[k], pieces) ==> ClaimedByOne(args[k], hs, x)
  }

  ghost predicate PiecesOk(args: seq<Argument>, pieces: Split, n: nat, threads: seq<Thread>) {
    && SplitOk(pieces, n) && Covering(pieces, n, threads)
    && forall k :: 0 <= k < |args| ==> ArgumentOk(args[k], pieces, n)
  }

  lemma RequiredNeeds(args: seq<Argument>, hs: seq<Device>, k: nat, i: nat, a: Addr)
    requires DevicesInRange(hs) && k < |args| && i < |hs| && args[k].buf == a.buf
    requires Covers(RequiredEntry(args[k], hs[i]), a.off)
    ensures Needed(Listed(RequiredRows(args, hs)), hs[i].dev, a)
  {
    var rows := RequiredRows(args, hs);
    assert rows[k][i] == RequiredEntry(args[k], hs[i]);
    assert Needed(rows[k], hs[i].dev, a);
    ListedNeeds(rows, hs[i].dev, a);
  }

  lemma WrittenNeeds(args: seq<Argument>, hs: seq<Device>, k: nat, i: nat, a: Addr)
    requires DevicesInRange(hs) && k < |args| && i < |hs| && args[k].buf == a.buf
    requires a.off in DeviceClaims(args[k], hs[i].turns)
    ensures Needed(Listed(WrittenRows(args, hs)), hs[i].dev, a)
  {
    var rows := WrittenRows(args, hs);
    assert rows[k][i] == WrittenEntry(args[k], hs[i]);
    assert Covers(rows[k][i], a.off);
    assert Needed(rows[k], hs[i].dev, a);
    ListedNeeds(rows, hs[i].dev, a);
  }

  lemma NeedsWritten(args: seq<Argument>, hs: seq<Device>, d: nat, a: Addr) returns (k: nat, i: nat)
    requires DevicesInRange(hs) && Needed(Listed(WrittenRows(args, hs)), d, a)
    ensures k < |args| && i < |hs| && args[k].buf == a.buf && hs[i].dev == d && a.off in DeviceClaims(args[k], hs[i].turns)
  {
    var rows := WrittenRows(args, hs);
    ListedNeeds(rows, d, a);
    k :| 0 <= k < |rows| && Needed(rows[k], d, a);
    i :| 0 <= i < |rows[k]| && rows[k][i].buf == a.buf && rows[k][i].dev == d && Covers(rows[k][i], a.off);
  }

  lemma LastOk(args: seq<Argument>, hs: seq<Device>, n: nat, threads: seq<Thread>, i: nat, k: nat)
    requires DevicesOk(args, hs, n, threads) && i < |hs| && k < |args|
    ensures hs[i].turns != [] && SplitOk(Last(hs[i]).sp, n) && Last(hs[i]).id < |Last(hs[i]).sp.ranges|
    ensures ArgumentOk(args[k], Last(hs[i]).sp, n)
  {
    assert DeviceOk(args, hs[i], n, threads);
    assert TurnOk(args, Last(hs[i]), n, threads);
  }

  // What the last widened piece loads is sent to the device.
  lemma ShiftLoadsNeeded(args: seq<Argument>, hs: seq<Device>, n: nat, threads: seq<Thread>, i: nat, t: Thread, a: Addr)
    requires DevicesOk(args, hs, n, threads) && DevicesInRange(hs) && LastsInRange(hs, n) && i < |hs|
    requires Runs(Last(hs[i]), t, n) && LoadsUse(args, t, a)
    ensures Needed(Listed(RequiredRows(args, hs)), hs[i].dev, a)
  {
    var k :| 0 <= k < |args| && args[k].buf == a.buf && Accesses(args[k].loads, t, a.off);
    LastOk(args, hs, n, threads, i, k);
    LoadInRead(args[k], Last(hs[i]).sp, n, Last(hs[i]).id, t, a.off);
    RequiredNeeds(args, hs, k, i, a);
  }

  lemma StoreOfArgument(mem: Memory, c: Content, args: seq<Argument>, t: Thread, k: nat, a: Addr)
    requires ArgumentsOk(mem, args) && ThreadFits(mem, c, args, t) && k < |args| && args[k].buf == a.buf
    requires a in t.effect.stores
    ensures Accesses(args[k].stores, t, a.off)
  {
    var q :| 0 <= q < |args| && args[q].buf == a.buf && Accesses(args[q].stores, t, a.off);
    assert q == k;
  }

  // A claimed byte is stored by no work-item outside the last widened piece.
  lemma ShiftClaimsExclusive(mem: Memory, c: Content, args: seq<Argument>, hs: seq<Device>, n: nat, threads: seq<Thread>,
                             i: nat, a: Addr)
    requires DevicesOk(args, hs, n, threads) && DevicesInRange(hs) && LastsInRange(hs, n)
    requires ArgumentsOk(mem, args) && i < |hs|
    requires forall k :: 0 <= k < |threads| ==> ThreadFits(mem, c, args, threads[k])
    requires Needed(Listed(WrittenRows(args, hs)), hs[i].dev, a)
    ensures StoredWithin(Effects(threads), RunOf(hs[i], n, threads), a)
  {
    var k, j := NeedsWritten(args, hs, hs[i].dev, a);
    SameDevice(args, hs, n, threads, i, j);
    forall m | 0 <= m < |threads| && a in Effects(threads)[m].stores
      ensures Runs(Last(hs[i]), threads[m], n)
    {
      StoreOfArgument(mem, c, args, threads[m], k, a);
      ClaimedExclusively(args, k, hs[i], n, threads, m, a.off);
    }
  }

  lemma SameDevice(args: seq<Argument>, hs: seq<Device>, n: nat, threads: seq<Thread>, i: nat, j: nat)
    requires DevicesOk(args, hs, n, threads) && i < |hs| && j < |hs| && hs[i].dev == hs[j].dev
    ensures i == j && DeviceOk(args, hs[i], n, threads) && TurnsInRange(hs[i].turns)
  {
  }

  // A stored byte is claimed.
  lemma ShiftStoresClaimed(mem: Memory, c: Content, args: seq<Argument>, pieces: Split, hs: seq<Device>, n: nat,
                           threads: seq<Thread>, m: nat, a: Addr) returns (i: nat)
    requires DevicesInRange(hs) && PiecesOk(args, pieces, n, threads) && ClaimsCover(args, pieces, hs)
    requires m < |threads| && ThreadFits(mem, c, args, threads[m]) && a in threads[m].effect.stores
    ensures i < |hs| && Needed(Listed(WrittenRows(args, hs)), hs[i].dev, a)
  {
    var k :| 0 <= k < |args| && args[k].buf == a.buf && Accesses(args[k].stores, threads[m], a.off);
    assert ArgumentOk(args[k], pieces, n);
    StoredInFull(args[k], pieces, n, threads, m, a.off);
    assert ClaimedByOne(args[k], hs, a.off);
    i :| 0 <= i < |hs| && a.off in DeviceClaims(args[k], hs[i].turns);
    WrittenNeeds(args, hs, k, i, a);
  }

  lemma ShiftWrittenRequired(args: seq<Argument>, hs: seq<Device>, d: nat, a: Addr)
    requires DevicesInRange(hs) && Needed(Listed(WrittenRows(args, hs)), d, a)
    ensures Needed(Listed(RequiredRows(args, hs)), d, a)
    ensures exists i :: 0 <= i < |hs| && hs[i].dev == d
  {
    var k, i := NeedsWritten(args, hs, d, a);
    RequiredNeeds(args, hs, k, i, a);
  }

  lemma {:induction false} UnwrittenUnclaimed(args: seq<Argument>, k: nat, turns: seq<Turn>, n: nat, threads: seq<Thread>)
    requires TurnsInRange(turns) && k < |args| && args[k].stores == []
    requires forall m :: 0 <= m < |turns| ==> TurnOk(args, turns[m], n, threads)
    ensures DeviceClaims(args[k], turns) == {}
  {
    if turns != [] {
      var t := turns[|turns| - 1];
      UnwrittenUnclaimed(args, k, turns[..|turns| - 1], n, threads);
      assert ArgumentOk(args[k], t.sp, n);
      NoUsesNoExprs([], t.sp.ranges, t.sp.indirs);
      ResultIs(args[k], t.sp);
      assert Exprs([], t.sp.ranges, t.sp.indirs)[t.id] == [];
      assert Whole(args[k], t.sp)[t.id] == {};
    }
  }

  lemma ShiftRequiredInRange(mem: Memory, args: seq<Argument>, hs: seq<Device>, n: nat, threads: seq<Thread>)
    requires DevicesOk(args, hs, n, threads) && DevicesInRange(hs) && ArgumentsOk(mem, args)
    ensures EntriesInRange(mem, n, Listed(RequiredRows(args, hs)))
  {
    var rows := RequiredRows(args, hs);
    forall p | 0 <= p < |Listed(rows)| ensures Listed(rows)[p].buf < |mem| && Listed(rows)[p].dev < n {
      var k, i := ListedFrom(rows, p);
      assert DeviceOk(args, hs[i], n, threads);
    }
  }

  lemma ShiftWrittenInRange(mem: Memory, args: seq<Argument>, hs: seq<Device>, n: nat, threads: seq<Thread>)
    requires DevicesOk(args, hs, n, threads) && DevicesInRange(hs) && ArgumentsOk(mem, args)
    ensures EntriesInRange(mem, n, Listed(WrittenRows(args, hs)))
    ensures forall p :: 0 <= p < |Listed(WrittenRows(args, hs))| ==> !mem[Listed(WrittenRows(args, hs))[p].buf].isRO
  {
    var rows := WrittenRows(args, hs);
    forall p | 0 <= p < |Listed(rows)|
      ensures Listed(rows)[p].buf < |mem| && Listed(rows)[p].dev < n && !mem[Listed(rows)[p].buf].isRO
    {
      var k, i := ListedFrom(rows, p);
      assert DeviceOk(args, hs[i], n, threads);
      if args[k].stores == [] {
        UnwrittenUnclaimed(args, k, hs[i].turns, n, threads);
      }
    }
  }

  lemma ShiftRunLegal(mem: Memory, c: Content, args: seq<Argument>, hs: seq<Device>, n: nat, threads: seq<Thread>, i: nat)
    requires DevicesOk(args, hs, n, threads) && DevicesInRange(hs) && ArgumentsOk(mem, args) && i < |hs|
    requires forall k :: 0 <= k < |threads| ==> ThreadFits(mem, c, args, threads[k])
    requires LastsInRange(hs, n)
    requires NoRaces(hs, n, threads)
    ensures RunLegal(ShiftOf(args, hs, n, threads), i)
  {
    var s := ShiftOf(args, hs, n, threads);
    var run := s.runs[i];
    forall k | 0 <= k < |s.items| && k in run.ids ensures RunLoads(s, run, s.items[k]) {
      assert ThreadFits(mem, c, args, threads[k]);
      forall a | a in s.items[k].loads ensures Needed(s.required, run.dev, a) && StoredWithin(s.items, run, a) {
        ShiftLoadsNeeded(args, hs, n, threads, i, threads[k], a);
      }
    }
    forall a | Needed(s.written, run.dev, a) ensures StoredWithin(s.items, run, a) {
      ShiftClaimsExclusive(mem, c, args, hs, n, threads, i, a);
    }
  }

  // The turns of the negotiation, the program, and a result that is accepted: the claims cover what the pieces write.
  ghost predicate ShiftOk(mem: Memory, n: nat, c: Content, args: seq<Argument>, pieces: Split, hs: seq<Device>,
                          threads: seq<Thread>) {
    && DevicesInRange(hs) && LastsInRange(hs, n) && DevicesOk(args, hs, n, threads)
    && ArgumentsOk(mem, args) && PiecesOk(args, pieces, n, threads) && ClaimsCover(args, pieces, hs)
    && (forall k :: 0 <= k < |threads| ==> ThreadFits(mem, c, args, threads[k]))
    && NoRaces(hs, n, threads)
  }

  lemma ShiftStoreClaimed(mem: Memory, n: nat, c: Content, args: seq<Argument>, pieces: Split, hs: seq<Device>,
                          threads: seq<Thread>, a: Addr)
    requires ShiftOk(mem, n, c, args, pieces, hs, threads) && ItemStores(Effects(threads), a)
    ensures ClaimedBySome(ShiftOf(args, hs, n, threads), a)
  {
    var m :| 0 <= m < |threads| && a in Effects(threads)[m].stores;
    var i := ShiftStoresClaimed(mem, c, args, pieces, hs, n, threads, m, a);
    assert RunClaims(ShiftOf(args, hs, n, threads), i, a);
  }

  lemma ShiftItemsFit(mem: Memory, c: Content, args: seq<Argument>, threads: seq<Thread>)
    requires forall k :: 0 <= k < |threads| ==> ThreadFits(mem, c, args, threads[k])
    ensures forall k :: 0 <= k < |threads| ==> ItemFits(mem, c, Effects(threads)[k])
  {
    forall k | 0 <= k < |threads| ensures ItemFits(mem, c, Effects(threads)[k]) {
      assert ThreadFits(mem, c, args, threads[k]);
    }
  }

  lemma ShiftInRange(mem: Memory, args: seq<Argument>, hs: seq<Device>, n: nat, threads: seq<Thread>)
    requires DevicesOk(args, hs, n, threads) && DevicesInRange(hs) && ArgumentsOk(mem, args)
    ensures KernelInRange(mem, n, KernelOfShift(ShiftOf(args, hs, n, threads)))
  {
    ShiftRequiredInRange(mem, args, hs, n, threads);
    ShiftWrittenInRange(mem, args, hs, n, threads);
    forall i | 0 <= i < |hs| ensures hs[i].dev < n {
      assert DeviceOk(args, hs[i], n, threads);
    }
  }

  /** A shifted launch is legal when no turn's analysis fails, its parts hold all work-items, and the claims cover what
      the pieces write. */
  lemma ShiftAnalysisLegal(mem: Memory, n: nat, c: Content, args: seq<Argument>, pieces: Split, hs: seq<Device>,
                           threads: seq<Thread>)
    requires ShiftOk(mem, n, c, args, pieces, hs, threads)
    ensures LegalShift(mem, n, c, ShiftOf(args, hs, n, threads))
  {
    var s := ShiftOf(args, hs, n, threads);
    ShiftInRange(mem, args, hs, n, threads);
    ShiftWrittenInRange(mem, args, hs, n, threads);
    ShiftItemsFit(mem, c, args, threads);
    forall i | 0 <= i < |s.runs| ensures RunLegal(s, i) {
      ShiftRunLegal(mem, c, args, hs, n, threads, i);
    }
    forall a | ItemStores(s.items, a) ensures ClaimedBySome(s, a) {
      ShiftStoreClaimed(mem, n, c, args, pieces, hs, threads, a);
    }
    forall a, d | Needed(s.written, d, a)
      ensures Needed(s.required, d, a) && exists i :: 0 <= i < |s.runs| && s.runs[i].dev == d
    {
      ShiftWrittenRequired(args, hs, d, a);
      var i :| 0 <= i < |hs| && hs[i].dev == d;
      assert s.runs[i].dev == d;
    }
  }

  /** Such a launch leaves the content one device running all work-items leaves. */
  lemma AnalysedShiftRefinesSingleDevice(
    mem: Memory, n: nat, c: Content, args: seq<Argument>, pieces: Split, hs: seq<Device>, threads: seq<Thread>)
    requires Coherent(mem, n, c) && ShiftOk(mem, n, c, args, pieces, hs, threads)
    ensures KernelInRange(mem, n, KernelOfShift(ShiftOf(args, hs, n, threads)))
    ensures Coherent(Launch(mem, n, KernelOfShift(ShiftOf(args, hs, n, threads))), n, RunItems(Effects(threads), c))
  {
    ShiftAnalysisLegal(mem, n, c, args, pieces, hs, threads);
    ShiftRefinesSingleDevice(mem, n, c, ShiftOf(args, hs, n, threads));
  }

  // ---- The partitions of the turns ----

  // Some part runs the work-item.
  ghost predicate InSomePart(r: NDRange, ps: seq<NDRange>, w: Item)
    requires Valid(r) && ItemOf(r, w) && forall i :: 0 <= i < |ps| ==> PartOf(ps[i], r)
  {
    exists i :: 0 <= i < |ps| && InPart(r, ps[i], w)
  }

  // The parts differ from the range in dimension d only.
  ghost predicate Slices(r: NDRange, ps: seq<NDRange>, d: nat) {
    forall i :: 0 <= i < |ps| ==>
      && PartOf(ps[i], r) && d < r.workDim
      && forall e :: 0 <= e < r.workDim && e != d ==> ps[i].offset[e] == r.offset[e] && ps[i].global[e] == r.global[e]
  }

  lemma SlicesHold(r: NDRange, ps: seq<NDRange>, d: nat, w: Item)
    requires WholeGroups(r) && d < r.workDim && Slices(r, ps, d) && ItemOf(r, w)
    ensures InSomePart(r, ps, w) <==> Negotiations.InParts(ps, d, GlobalIdOf(r, w, d))
  {
    forall i | 0 <= i < |ps|
      ensures InPart(r, ps[i], w) <==> Negotiations.HasId(ps[i], d, GlobalIdOf(r, w, d))
    {
    }
  }

  // The last work-item of the range.
  lemma LastItem(r: NDRange) returns (w: Item)
    requires WholeGroups(r)
    ensures ItemOf(r, w)
    ensures forall d :: 0 <= d < r.workDim ==> GlobalIdOf(r, w, d) == Negotiations.End(r, d) - 1
  {
    forall d | 0 <= d < r.workDim
      ensures r.global[d] / r.local[d] > 0 && r.global[d] == r.global[d] / r.local[d] * r.local[d]
    {
      Division(r.global[d], r.local[d]);
    }
    w := Item(seq(r.workDim, d requires 0 <= d < r.workDim => r.global[d] / r.local[d] - 1),
              seq(r.workDim, d requires 0 <= d < r.workDim => r.local[d] - 1));
    forall d | 0 <= d < r.workDim
      ensures w.group[d] * r.local[d] + w.local[d] == r.global[d] - 1
    {
      assert w.group[d] * r.local[d] == r.global[d] / r.local[d] * r.local[d] - r.local[d];
    }
  }

  lemma ShiftedSlices(r: NDRange, s: NDRange, d: nat, shift: nat)
    requires Negotiations.Inside(s, r, d) && shift > 0 && r.origGlobal == r.global
    ensures Slices(r, Negotiations.ShiftedParts(r, s, d, shift), d)
  {
  }

  /** The parts of a shifted partition run all work-items exactly when fewer groups are left behind the widened piece
      than it has. */
  lemma ShiftedRunsAll(r: NDRange, s: NDRange, d: nat, shift: nat)
    requires Negotiations.Inside(s, r, d) && shift > 0 && r.origGlobal == r.global
    ensures var ps := Negotiations.ShiftedParts(r, s, d, shift);
      && Slices(r, ps, d)
      && ((forall w: Item :: ItemOf(r, w) ==> InSomePart(r, ps, w))
          <==> Negotiations.GroupsBehind(r, s, d) - shift < Negotiations.WidenedGroups(r, s, d, shift))
  {
    var ps := Negotiations.ShiftedParts(r, s, d, shift);
    ShiftedSlices(r, s, d, shift);
    forall w: Item | ItemOf(r, w)
      ensures InSomePart(r, ps, w) <==> Negotiations.InParts(ps, d, GlobalIdOf(r, w, d))
      ensures Negotiations.HasId(r, d, GlobalIdOf(r, w, d))
    {
      SlicesHold(r, ps, d, w);
    }
    Negotiations.ShiftedHold(r, s, d, shift);
    Negotiations.LastIdDecides(r, s, d, shift);
    var w := LastItem(r);
    assert Negotiations.HasId(r, d, Negotiations.End(r, d) - 1);
  }

  /** A part of a shifted partition takes its own size for the kernel's: get_global_size and get_num_groups of the
      dimension come out right for the widened piece exactly when it is the whole range. */
  lemma ShiftedSizeExact(r: NDRange, s: NDRange, d: nat, shift: nat, guards: Guards, w: Item)
    requires Negotiations.Inside(s, r, d) && shift > 0 && r.origGlobal == r.global && ItemOf(r, w)
    ensures var t := Negotiations.Widened(r, s, d, shift);
      var whole := Negotiations.GroupsBefore(r, s, d) <= shift && Negotiations.GroupsBehind(r, s, d) <= shift;
      && (OclKernelExpr(GlobalSize, d, t, guards) == Value(Long(OclValue(r, w, GlobalSize, d))) <==> whole)
      && (OclKernelExpr(NumGroups, d, t, guards) == Value(Long(OclValue(r, w, NumGroups, d))) <==> whole)
  {
    var l, t := r.local[d], Negotiations.Widened(r, s, d, shift);
    var mine, all := Negotiations.WidenedGroups(r, s, d, shift), r.global[d] / l;
    Negotiations.WidenedSize(r, s, d, shift);
    Negotiations.GroupsExact(r, s, d);
    Negotiations.GroupsAddUp(r, s, d);
    Division(r.global[d], l);
    QuotientIs(l * mine, l, mine, 0);
    assert t.origGlobal[d] == l * mine && r.global[d] == l * all;
  }

  // ---- fillSubkernelInfoShift ----

  // A region the negotiation has saved for a device and an argument.
  datatype Saved = Saved(list: seq<Interval>, undefined: bool)

  // What the last turn of the device readData and what all its turns claim.
  ghost predicate SavedRead(v: Saved, arg: Argument, h: Device)
    requires h.turns != [] && TurnsInRange(h.turns)
  {
    var res := ResultOf(arg, Last(h).sp);
    Canonical(v.list) && Bytes(v.list) == res.read[Last(h).id] && v.undefined == !res.readKnown
  }

  ghost predicate SavedClaims(v: Saved, arg: Argument, h: Device)
    requires h.turns != [] && TurnsInRange(h.turns)
  {
    Canonical(v.list) && Bytes(v.list) == DeviceClaims(arg, h.turns) && !v.undefined
  }

  // The data claimed have to be sent to the device, too.
  method ShiftRegions(read: Saved, claims: Saved, ghost arg: Argument, ghost h: Device)
    returns (required: ListInterval, written: ListInterval)
    requires h.turns != [] && TurnsInRange(h.turns) && SavedRead(read, arg, h) && SavedClaims(claims, arg, h)
    ensures required.Valid() && RequiredEntry(arg, h) == Entry(arg.buf, h.dev, required.Contents(), required.undefined)
    ensures written.Valid() && WrittenEntry(arg, h) == Entry(arg.buf, h.dev, written.Contents(), written.undefined)
  {
    required := new ListInterval();
    required.undefined := read.undefined;
    required.MyUnion(read.list);
    required.MyUnion(claims.list);
    written := new ListInterval();
    written.MyUnion(claims.list);
  }

  // One argument: the entries of its devices, in order.
  method FillShiftArg(readData: seq<Saved>, claims: seq<Saved>, ghost arg: Argument, ghost hs: seq<Device>,
                      ghost row: seq<Entry>, ghost wrow: seq<Entry>, buf: nat, devs: seq<nat>)
    returns (required: seq<DeviceBufferRegion>, written: seq<DeviceBufferRegion>)
    requires DevicesInRange(hs) && |readData| == |claims| == |devs| == |hs| == |row| == |wrow| && buf == arg.buf
    requires forall i :: 0 <= i < |hs| ==>
      devs[i] == hs[i].dev && SavedRead(readData[i], arg, hs[i]) && SavedClaims(claims[i], arg, hs[i])
    requires forall i :: 0 <= i < |hs| ==> row[i] == RequiredEntry(arg, hs[i]) && wrow[i] == WrittenEntry(arg, hs[i])
    ensures AsEntries(required) == NonEmpty(row)
    ensures AsEntries(written) == NonEmpty(wrow)
  {
    required, written := [], [];
    for i := 0 to |devs|
      invariant AsEntries(required) == NonEmpty(row[..i])
      invariant AsEntries(written) == NonEmpty(wrow[..i])
    {
      var readRegion, writtenRegion := ShiftRegions(readData[i], claims[i], arg, hs[i]);
      required := AddRegion(required, readRegion, buf, devs[i]);
      written := AddRegion(written, writtenRegion, buf, devs[i]);
      NonEmptyNext(row, i);
      NonEmptyNext(wrow, i);
    }
    assert row[..|devs|] == row && wrow[..|devs|] == wrow;
  }

  /** The lists handed to the driver are those of the theorem. Region i of argument a is that of device i. */
  method FillShift(readData: seq<seq<Saved>>, claims: seq<seq<Saved>>, ghost args: seq<Argument>, ghost hs: seq<Device>,
                   bufs: seq<nat>, devs: seq<nat>)
    returns (dataRequired: seq<DeviceBufferRegion>, dataWritten: seq<DeviceBufferRegion>)
    requires DevicesInRange(hs) && |devs| == |hs| && forall i :: 0 <= i < |hs| ==> devs[i] == hs[i].dev
    requires |readData| == |claims| == |bufs| == |args|
    requires forall a :: 0 <= a < |args| ==> bufs[a] == args[a].buf && |readData[a]| == |claims[a]| == |hs|
    requires forall a, i :: 0 <= a < |args| && 0 <= i < |hs| ==>
      SavedRead(readData[a][i], args[a], hs[i]) && SavedClaims(claims[a][i], args[a], hs[i])
    ensures AsEntries(dataRequired) == Listed(RequiredRows(args, hs))
    ensures AsEntries(dataWritten) == Listed(WrittenRows(args, hs))
  {
    dataRequired, dataWritten := [], [];
    ghost var rows, wrows := RequiredRows(args, hs), WrittenRows(args, hs);
    for a := 0 to |bufs|
      invariant AsEntries(dataRequired) == Listed(rows[..a])
      invariant AsEntries(dataWritten) == Listed(wrows[..a])
    {
      var required, written := FillShiftArg(readData[a], claims[a], args[a], hs, rows[a], wrows[a], bufs[a], devs);
      EntriesConcat(dataRequired, required);
      EntriesConcat(dataWritten, written);
      ListedNext(rows, a);
      ListedNext(wrows, a);
      dataRequired, dataWritten := dataRequired + required, dataWritten + written;
    }
    assert rows[..|bufs|] == rows && wrows[..|bufs|] == wrows;
  }
}

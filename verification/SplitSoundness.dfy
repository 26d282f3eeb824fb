/** From the region analysis to a legal launch: the lists built by Scheduler::fillSubkernelInfoMulti from a
    successful analysis meet everything the split execution needs. */
module SplitSoundness {
  import opened IndexExprs
  import opened Bounds
  import opened BoundsSoundness
  import opened Evaluation
  import opened NDRanges
  import opened WorkItems
  import opened KernelExprs
  import opened KernelExprsSoundness
  import opened WorkItemExprsSoundness
  import opened ArgumentAnalyses
  import Arithmetic
  import Tilings
  import opened Coherence
  import opened Transfers
  import opened KernelSteps

  // A global argument: its buffer and its plain uses.
  datatype Argument = Argument(buf: nat, loads: seq<WorkItemExpr>, stores: seq<WorkItemExpr>)

  // A split of the kernel range r: sub-NDRange i runs on device devs[i] with indirection values indirs[i].
  datatype Split = Split(r: NDRange, ranges: seq<NDRange>, devs: seq<nat>, indirs: seq<Indirs>)

  ghost predicate SplitOk(sp: Split, n: nat) {
    && |sp.devs| == |sp.ranges| && RangesOk(sp.ranges, sp.indirs)
    && PartOf(sp.r, sp.r)
    && (forall i :: 0 <= i < |sp.ranges| ==> PartOf(sp.ranges[i], sp.r) && sp.devs[i] < n)
  }

  ghost function ResultOf(arg: Argument, sp: Split): Result
    requires RangesOk(sp.ranges, sp.indirs)
  {
    Analyse(Exprs(arg.loads, sp.ranges, sp.indirs), Exprs(arg.stores, sp.ranges, sp.indirs), arg.stores != [])
  }

  // ---- The data lists ----

  ghost function RequiredRegion(arg: Argument, sp: Split, i: nat): set<nat>
    requires RangesOk(sp.ranges, sp.indirs) && i < |sp.ranges|
  {
    var res := ResultOf(arg, sp);
    (if SubKernelExprs(arg.loads, sp.ranges[i], sp.indirs[i]) != [] then res.read[i] else {}) + res.written[i] + res.merge
  }

  ghost function WrittenRegion(arg: Argument, sp: Split, i: nat): set<nat>
    requires RangesOk(sp.ranges, sp.indirs) && i < |sp.ranges|
  {
    if SubKernelExprs(arg.stores, sp.ranges[i], sp.indirs[i]) != [] then ResultOf(arg, sp).written[i] else {}
  }

  // The entries of one argument, one for each sub-kernel.
  ghost function RequiredRow(arg: Argument, sp: Split): seq<Entry>
    requires RangesOk(sp.ranges, sp.indirs) && |sp.devs| == |sp.ranges|
  {
    seq(|sp.ranges|, i requires 0 <= i < |sp.ranges| =>
      Entry(arg.buf, sp.devs[i], RequiredRegion(arg, sp, i), !ResultOf(arg, sp).readKnown))
  }

  ghost function WrittenRow(arg: Argument, sp: Split): seq<Entry>
    requires RangesOk(sp.ranges, sp.indirs) && |sp.devs| == |sp.ranges|
  {
    seq(|sp.ranges|, i requires 0 <= i < |sp.ranges| => Entry(arg.buf, sp.devs[i], WrittenRegion(arg, sp, i), false))
  }

  // Entries that cover nothing are not listed.
  ghost function NonEmpty(l: seq<Entry>): seq<Entry> {
    if l == [] then []
    else
      var e := l[|l| - 1];
      NonEmpty(l[..|l| - 1]) + if e.region != {} || e.undefined then [e] else []
  }

  ghost function Listed(rows: seq<seq<Entry>>): seq<Entry> {
    if rows == [] then [] else Listed(rows[..|rows| - 1]) + NonEmpty(rows[|rows| - 1])
  }

  ghost function DataRequired(args: seq<Argument>, sp: Split): seq<Entry>
    requires RangesOk(sp.ranges, sp.indirs) && |sp.devs| == |sp.ranges|
  {
    Listed(seq(|args|, k requires 0 <= k < |args| => RequiredRow(args[k], sp)))
  }

  ghost function DataWritten(args: seq<Argument>, sp: Split): seq<Entry>
    requires RangesOk(sp.ranges, sp.indirs) && |sp.devs| == |sp.ranges|
  {
    Listed(seq(|args|, k requires 0 <= k < |args| => WrittenRow(args[k], sp)))
  }

  lemma NeededConcat(l: seq<Entry>, m: seq<Entry>, d: nat, a: Addr)
    ensures Needed(l + m, d, a) <==> Needed(l, d, a) || Needed(m, d, a)
  {
    if Needed(l, d, a) {
      var i :| 0 <= i < |l| && l[i].buf == a.buf && l[i].dev == d && Covers(l[i], a.off);
      assert (l + m)[i] == l[i];
    }
    if Needed(m, d, a) {
      var i :| 0 <= i < |m| && m[i].buf == a.buf && m[i].dev == d && Covers(m[i], a.off);
      assert (l + m)[|l| + i] == m[i];
    }
  }

  lemma NeededSingle(e: Entry, d: nat, a: Addr)
    ensures Needed([e], d, a) <==> e.buf == a.buf && e.dev == d && Covers(e, a.off)
    ensures !Needed([], d, a)
  {
    if e.buf == a.buf && e.dev == d && Covers(e, a.off) {
      assert [e][0] == e;
    }
  }

  lemma {:induction false} NonEmptyNeeds(l: seq<Entry>, d: nat, a: Addr)
    ensures Needed(NonEmpty(l), d, a) <==> Needed(l, d, a)
  {
    if l == [] {
    } else {
      var init, e := l[..|l| - 1], l[|l| - 1];
      NonEmptyNeeds(init, d, a);
      NeededSingle(e, d, a);
      NeededConcat(init, [e], d, a);
      assert init + [e] == l;
      NeededConcat(NonEmpty(init), if e.region != {} || e.undefined then [e] else [], d, a);
    }
  }

  // A listed entry comes from some row, and no entry that covers a byte is lost.
  lemma {:induction false} ListedNeeds(rows: seq<seq<Entry>>, d: nat, a: Addr)
    ensures Needed(Listed(rows), d, a) <==> exists k :: 0 <= k < |rows| && Needed(rows[k], d, a)
  {
    if rows == [] {
    } else {
      var init, row := rows[..|rows| - 1], rows[|rows| - 1];
      ListedNeeds(init, d, a);
      NonEmptyNeeds(row, d, a);
      NeededConcat(Listed(init), NonEmpty(row), d, a);
      if k :| 0 <= k < |init| && Needed(init[k], d, a) {
        assert rows[k] == init[k];
      }
      if k :| 0 <= k < |rows| && Needed(rows[k], d, a) {
        assert k < |init| ==> init[k] == rows[k];
      }
    }
  }

  // Argument k and sub-kernel i make byte a needed on device d.
  ghost predicate RequiredBy(args: seq<Argument>, sp: Split, k: nat, i: nat, d: nat, a: Addr)
    requires RangesOk(sp.ranges, sp.indirs) && |sp.devs| == |sp.ranges| && k < |args| && i < |sp.ranges|
  {
    && args[k].buf == a.buf && sp.devs[i] == d
    && (!ResultOf(args[k], sp).readKnown || a.off in RequiredRegion(args[k], sp, i))
  }

  ghost predicate WrittenBy(args: seq<Argument>, sp: Split, k: nat, i: nat, d: nat, a: Addr)
    requires RangesOk(sp.ranges, sp.indirs) && |sp.devs| == |sp.ranges| && k < |args| && i < |sp.ranges|
  {
    args[k].buf == a.buf && sp.devs[i] == d && a.off in WrittenRegion(args[k], sp, i)
  }

  lemma RequiredNeeded(args: seq<Argument>, sp: Split, k: nat, i: nat, d: nat, a: Addr)
    requires RangesOk(sp.ranges, sp.indirs) && |sp.devs| == |sp.ranges| && k < |args| && i < |sp.ranges|
    requires RequiredBy(args, sp, k, i, d, a)
    ensures Needed(DataRequired(args, sp), d, a)
  {
    var rows := seq(|args|, k requires 0 <= k < |args| => RequiredRow(args[k], sp));
    var e := rows[k][i];
    assert Covers(e, a.off);
    assert Needed(rows[k], d, a);
    ListedNeeds(rows, d, a);
  }

  lemma WrittenNeeded(args: seq<Argument>, sp: Split, k: nat, i: nat, d: nat, a: Addr)
    requires RangesOk(sp.ranges, sp.indirs) && |sp.devs| == |sp.ranges| && k < |args| && i < |sp.ranges|
    requires WrittenBy(args, sp, k, i, d, a)
    ensures Needed(DataWritten(args, sp), d, a)
  {
    var rows := seq(|args|, k requires 0 <= k < |args| => WrittenRow(args[k], sp));
    var e := rows[k][i];
    assert Covers(e, a.off);
    assert Needed(rows[k], d, a);
    ListedNeeds(rows, d, a);
  }

  lemma NeededWritten(args: seq<Argument>, sp: Split, d: nat, a: Addr) returns (k: nat, i: nat)
    requires RangesOk(sp.ranges, sp.indirs) && |sp.devs| == |sp.ranges|
    requires Needed(DataWritten(args, sp), d, a)
    ensures k < |args| && i < |sp.ranges| && WrittenBy(args, sp, k, i, d, a)
  {
    var rows := seq(|args|, k requires 0 <= k < |args| => WrittenRow(args[k], sp));
    ListedNeeds(rows, d, a);
    k :| 0 <= k < |rows| && Needed(rows[k], d, a);
    i :| 0 <= i < |rows[k]| && rows[k][i].buf == a.buf && rows[k][i].dev == d && Covers(rows[k][i], a.off);
  }

  // ---- Work-items of the launch ----

  // A work-item: its ids, the values its expressions depend on, and its effect on memory.
  datatype Thread = Thread(item: Item, env: Env, effect: WorkItem)

  ghost predicate RunsIn(t: Thread, sp: Split, i: nat)
    requires i < |sp.ranges| == |sp.indirs| && PartOf(sp.ranges[i], sp.r)
  {
    && ItemOf(sp.r, t.item) && InPart(sp.r, sp.ranges[i], t.item)
    && (forall f: OclFunction, x :: t.env.ocl(f, x) == OclValue(sp.r, t.item, f, x))
    && IndirsHold(sp.indirs[i], t.env)
  }

  // Some use whose guards hold evaluates to byte x.
  ghost predicate Accesses(uses: seq<WorkItemExpr>, t: Thread, x: nat) {
    exists m :: 0 <= m < |uses| && Satisfies(uses[m].guards, t.env) && Evals(uses[m].expr, t.env, Long(x))
  }

  ghost predicate LoadsUse(args: seq<Argument>, t: Thread, a: Addr) {
    exists k :: 0 <= k < |args| && args[k].buf == a.buf && Accesses(args[k].loads, t, a.off)
  }

  ghost predicate StoresUse(args: seq<Argument>, t: Thread, a: Addr) {
    exists k :: 0 <= k < |args| && args[k].buf == a.buf && Accesses(args[k].stores, t, a.off)
  }

  // Every byte a work-item touches comes from a use of some argument.
  ghost predicate AccessesMatch(args: seq<Argument>, t: Thread) {
    && (forall a :: a in t.effect.loads ==> LoadsUse(args, t, a))
    && (forall a :: a in t.effect.stores ==> StoresUse(args, t, a))
  }

  // The guard values are those injected for the whole kernel range.
  ghost predicate GuardsInjected(guards: Guards, r: NDRange)
    requires PartOf(r, r)
  {
    forall m :: 0 <= m < |guards| ==>
      && guards[m].value == GuardValue(guards[m].expr, r)
      && Supported(guards[m].expr, r, r, []) && CornersApply(KernelExpr(guards[m].expr, r, [], []))
  }

  // The id functions and operators of a use are those the analysis over-approximates.
  ghost predicate UseOk(u: WorkItemExpr, r: NDRange, s: NDRange, indirs: Indirs)
    requires PartOf(s, r) && PartOf(r, r)
  {
    && Supported(u.expr, r, s, u.guards) && CornersApply(KernelExpr(u.expr, s, u.guards, indirs))
    && GroupGuardsSupported(u.guards, r) && GuardsInjected(u.guards, r)
  }

  ghost predicate UsesOk(uses: seq<WorkItemExpr>, sp: Split, n: nat)
    requires SplitOk(sp, n)
  {
    forall m, i :: 0 <= m < |uses| && 0 <= i < |sp.ranges| ==> UseOk(uses[m], sp.r, sp.ranges[i], sp.indirs[i])
  }

  lemma InjectedExact(guards: Guards, r: NDRange, w: Item, env: Env)
    requires PartOf(r, r) && ItemOf(r, w) && GuardsInjected(guards, r)
    requires forall f: OclFunction, x :: env.ocl(f, x) == OclValue(r, w, f, x)
    ensures ValuesExact(guards, env)
  {
    forall m, v: int | 0 <= m < |guards| && guards[m].value.Some? && Evals(guards[m].expr, env, Long(v))
      ensures v == guards[m].value.value
    {
      GuardValueExact(guards[m].expr, r, w, env, v);
    }
  }

  lemma {:induction false} SubKernelExprOf(uses: seq<WorkItemExpr>, m: nat, s: NDRange, indirs: Indirs) returns (j: nat)
    requires Valid(s) && m < |uses| && WorkItemKernelExpr(uses[m], s, indirs).Some?
    ensures j < |SubKernelExprs(uses, s, indirs)|
    ensures SubKernelExprs(uses, s, indirs)[j] == WorkItemKernelExpr(uses[m], s, indirs).value
    decreases |uses|
  {
    if m == |uses| - 1 {
      j := |SubKernelExprs(uses[..|uses| - 1], s, indirs)|;
    } else {
      j := SubKernelExprOf(uses[..|uses| - 1], m, s, indirs);
    }
  }

  // The bounds of the use contain the byte, so it has not been dropped as out of guards.
  lemma UseInBounds(u: WorkItemExpr, sp: Split, n: nat, i: nat, t: Thread, x: nat)
    requires SplitOk(sp, n) && i < |sp.ranges| && RunsIn(t, sp, i)
    requires UseOk(u, sp.r, sp.ranges[i], sp.indirs[i])
    requires Satisfies(u.guards, t.env) && Evals(u.expr, t.env, Long(x))
    ensures var k := WorkItemKernelExpr(u, sp.ranges[i], sp.indirs[i]);
      && k.Some?
      && (ComputeLongBounds(k.value).Range? ==> ComputeLongBounds(k.value).lb.n <= x <= ComputeLongBounds(k.value).hb.n)
  {
    var s := sp.ranges[i];
    InjectedExact(u.guards, sp.r, t.item, t.env);
    if IsOutOfGuards(u, s) {
      OutOfGuardsSound(u.guards, 0, sp.r, s, t.item, t.env);
      assert false;
    }
    var k := KernelExpr(u.expr, s, u.guards, sp.indirs[i]);
    if !ComputeBounds(k).Missing? {
      SubKernelBoundsSound(u.expr, sp.r, s, u.guards, sp.indirs[i], t.item, t.env, Long(x));
    }
  }

  /** Every byte a work-item of sub-kernel i accesses through the uses lies in the region computed for them. */
  lemma AccessInRegion(uses: seq<WorkItemExpr>, sp: Split, n: nat, i: nat, t: Thread, x: nat)
    requires SplitOk(sp, n) && i < |sp.ranges| && RunsIn(t, sp, i) && UsesOk(uses, sp, n)
    requires Accesses(uses, t, x) && Known(SubKernelExprs(uses, sp.ranges[i], sp.indirs[i]))
    ensures SubKernelExprs(uses, sp.ranges[i], sp.indirs[i]) != []
    ensures x in RegionOf(SubKernelExprs(uses, sp.ranges[i], sp.indirs[i]))
  {
    var m :| 0 <= m < |uses| && Satisfies(uses[m].guards, t.env) && Evals(uses[m].expr, t.env, Long(x));
    assert UseOk(uses[m], sp.r, sp.ranges[i], sp.indirs[i]);
    UseInBounds(uses[m], sp, n, i, t, x);
    var j := SubKernelExprOf(uses, m, sp.ranges[i], sp.indirs[i]);
    RegionContains(SubKernelExprs(uses, sp.ranges[i], sp.indirs[i]), j, x);
  }

  // ---- The launch ----

  ghost function Effects(threads: seq<Thread>): (items: seq<WorkItem>)
    ensures |items| == |threads|
  {
    seq(|threads|, j requires 0 <= j < |threads| => threads[j].effect)
  }

  ghost function SubKernelsOf(sp: Split, threads: seq<seq<Thread>>): (subs: seq<SubKernel>)
    requires |threads| == |sp.devs|
    ensures |subs| == |threads|
  {
    seq(|threads|, i requires 0 <= i < |threads| => SubKernel(sp.devs[i], Effects(threads[i])))
  }

  ghost function KernelOf(args: seq<Argument>, sp: Split, threads: seq<seq<Thread>>): Kernel
    requires RangesOk(sp.ranges, sp.indirs) && |sp.devs| == |sp.ranges| == |threads|
  {
    Kernel(SubKernelsOf(sp, threads), DataRequired(args, sp), DataWritten(args, sp))
  }

  // The analysis answers SUCCESS for every argument, on uses it over-approximates. Arguments have distinct buffers.
  ghost predicate AnalysisSucceeds(mem: Memory, n: nat, args: seq<Argument>, sp: Split)
    requires SplitOk(sp, n)
  {
    && (forall k :: 0 <= k < |args| ==>
         && args[k].buf < |mem| && ResultOf(args[k], sp).status == SUCCESS
         && UsesOk(args[k].loads, sp, n) && UsesOk(args[k].stores, sp, n)
         && (args[k].stores != [] ==> !mem[args[k].buf].isRO))
    && (forall k, m :: 0 <= k < |args| && 0 <= m < |args| && args[k].buf == args[m].buf ==> k == m)
  }

  // What the program promises: its accesses are those of its uses, inside the buffers; it loads defined bytes
  // only, and none that work-items of another device store.
  ghost predicate ProgramOk(mem: Memory, n: nat, c: Content, args: seq<Argument>, sp: Split, threads: seq<seq<Thread>>)
    requires SplitOk(sp, n) && |threads| == |sp.ranges|
  {
    forall i, j :: 0 <= i < |threads| && 0 <= j < |threads[i]| ==>
      ThreadOk(mem, n, c, args, sp, threads, i, threads[i][j])
  }

  ghost predicate ThreadOk(
    mem: Memory, n: nat, c: Content, args: seq<Argument>, sp: Split, threads: seq<seq<Thread>>, i: nat, t: Thread)
    requires SplitOk(sp, n) && |threads| == |sp.ranges| && i < |threads|
  {
    && RunsIn(t, sp, i) && AccessesMatch(args, t) && WorkItemOk(t.effect)
    && t.effect.stores <= Addresses(mem)
    && t.effect.loads <= c.Keys
    && (forall a :: a in t.effect.loads ==> !StoresElsewhere(SubKernelsOf(sp, threads), sp.devs[i], a))
  }

  // A loaded byte is in the read region, unless that is unknown.
  lemma LoadInRead(arg: Argument, sp: Split, n: nat, i: nat, t: Thread, x: nat)
    requires SplitOk(sp, n) && i < |sp.ranges| && UsesOk(arg.loads, sp, n) && RunsIn(t, sp, i)
    requires Accesses(arg.loads, t, x)
    ensures |ResultOf(arg, sp).read| == |sp.ranges| && (ResultOf(arg, sp).readKnown ==> x in ResultOf(arg, sp).read[i])
    ensures ResultOf(arg, sp).readKnown ==> SubKernelExprs(arg.loads, sp.ranges[i], sp.indirs[i]) != []
  {
    var es := Exprs(arg.loads, sp.ranges, sp.indirs);
    if ResultOf(arg, sp).readKnown {
      assert Known(es[i]);
      AccessInRegion(arg.loads, sp, n, i, t, x);
    }
  }

  lemma LoadsNeeded(mem: Memory, n: nat, args: seq<Argument>, sp: Split, i: nat, t: Thread, a: Addr)
    requires SplitOk(sp, n) && AnalysisSucceeds(mem, n, args, sp) && i < |sp.ranges| && RunsIn(t, sp, i)
    requires LoadsUse(args, t, a)
    ensures Needed(DataRequired(args, sp), sp.devs[i], a)
  {
    var k :| 0 <= k < |args| && args[k].buf == a.buf && Accesses(args[k].loads, t, a.off);
    LoadInRead(args[k], sp, n, i, t, a.off);
    RequiredNeeded(args, sp, k, i, sp.devs[i], a);
  }

  lemma WrittenRegionKnown(arg: Argument, sp: Split, i: nat)
    requires RangesOk(sp.ranges, sp.indirs) && i < |sp.ranges|
    requires ResultOf(arg, sp).status == SUCCESS && arg.stores != []
    ensures Known(SubKernelExprs(arg.stores, sp.ranges[i], sp.indirs[i]))
    ensures ResultOf(arg, sp).written[i] == RegionOf(SubKernelExprs(arg.stores, sp.ranges[i], sp.indirs[i]))
  {
    var es := Exprs(arg.stores, sp.ranges, sp.indirs);
    assert AllKnown(es);
    assert Known(es[i]);
  }

  lemma StoresNeeded(mem: Memory, n: nat, args: seq<Argument>, sp: Split, i: nat, t: Thread, a: Addr)
    requires SplitOk(sp, n) && AnalysisSucceeds(mem, n, args, sp) && i < |sp.ranges| && RunsIn(t, sp, i)
    requires StoresUse(args, t, a)
    ensures Needed(DataWritten(args, sp), sp.devs[i], a)
  {
    var k :| 0 <= k < |args| && args[k].buf == a.buf && Accesses(args[k].stores, t, a.off);
    WrittenRegionKnown(args[k], sp, i);
    AccessInRegion(args[k].stores, sp, n, i, t, a.off);
    WrittenNeeded(args, sp, k, i, sp.devs[i], a);
  }

  // What is written is also required, and on one device only.
  lemma WrittenRequiredOnce(mem: Memory, n: nat, args: seq<Argument>, sp: Split, a: Addr, d: nat, e: nat)
    requires SplitOk(sp, n) && AnalysisSucceeds(mem, n, args, sp)
    requires Needed(DataWritten(args, sp), d, a) && Needed(DataWritten(args, sp), e, a)
    ensures Needed(DataRequired(args, sp), d, a) && d == e
  {
    var k, i := NeededWritten(args, sp, d, a);
    var m, j := NeededWritten(args, sp, e, a);
    assert k == m;
    var w := ResultOf(args[k], sp).written;
    assert a.off in w[i] && a.off in w[j];
    assert PairwiseDisjoint(w);
    assert i == j;
    RequiredNeeded(args, sp, k, i, d, a);
  }

  lemma {:induction false} ListedFrom(rows: seq<seq<Entry>>, p: nat) returns (k: nat, i: nat)
    requires p < |Listed(rows)|
    ensures k < |rows| && i < |rows[k]| && rows[k][i] == Listed(rows)[p]
    ensures rows[k][i].region != {} || rows[k][i].undefined
  {
    var init, row := rows[..|rows| - 1], rows[|rows| - 1];
    if p < |Listed(init)| {
      k, i := ListedFrom(init, p);
    } else {
      k := |rows| - 1;
      i := NonEmptyFrom(row, p - |Listed(init)|);
    }
  }

  lemma {:induction false} NonEmptyFrom(l: seq<Entry>, p: nat) returns (i: nat)
    requires p < |NonEmpty(l)|
    ensures i < |l| && l[i] == NonEmpty(l)[p] && (l[i].region != {} || l[i].undefined)
  {
    var init := l[..|l| - 1];
    if p < |NonEmpty(init)| {
      i := NonEmptyFrom(init, p);
    } else {
      i := |l| - 1;
    }
  }

  lemma RequiredInRange(mem: Memory, n: nat, args: seq<Argument>, sp: Split)
    requires SplitOk(sp, n) && AnalysisSucceeds(mem, n, args, sp)
    ensures EntriesInRange(mem, n, DataRequired(args, sp))
  {
    var rows := seq(|args|, k requires 0 <= k < |args| => RequiredRow(args[k], sp));
    forall p | 0 <= p < |Listed(rows)| ensures Listed(rows)[p].buf < |mem| && Listed(rows)[p].dev < n {
      var k, i := ListedFrom(rows, p);
    }
  }

  lemma WrittenInRange(mem: Memory, n: nat, args: seq<Argument>, sp: Split)
    requires SplitOk(sp, n) && AnalysisSucceeds(mem, n, args, sp)
    ensures EntriesInRange(mem, n, DataWritten(args, sp))
    ensures forall p :: 0 <= p < |DataWritten(args, sp)| ==> !mem[DataWritten(args, sp)[p].buf].isRO
  {
    var rows := seq(|args|, k requires 0 <= k < |args| => WrittenRow(args[k], sp));
    forall p | 0 <= p < |Listed(rows)|
      ensures Listed(rows)[p].buf < |mem| && Listed(rows)[p].dev < n && !mem[Listed(rows)[p].buf].isRO
    {
      var k, i := ListedFrom(rows, p);
      WrittenByUse(args[k], sp, i);
    }
  }

  lemma WrittenByUse(arg: Argument, sp: Split, i: nat)
    requires RangesOk(sp.ranges, sp.indirs) && i < |sp.ranges| && WrittenRegion(arg, sp, i) != {}
    ensures arg.stores != []
  {
  }

  /** A launch whose analysis succeeds is legal: the computed regions are all the split execution needs. */
  lemma AnalysisMakesLegal(mem: Memory, n: nat, c: Content, args: seq<Argument>, sp: Split, threads: seq<seq<Thread>>)
    requires SplitOk(sp, n) && |threads| == |sp.ranges|
    requires AnalysisSucceeds(mem, n, args, sp) && ProgramOk(mem, n, c, args, sp, threads)
    ensures LegalLaunch(mem, n, c, KernelOf(args, sp, threads))
  {
    var kernel := KernelOf(args, sp, threads);
    RequiredInRange(mem, n, args, sp);
    WrittenInRange(mem, n, args, sp);
    forall i, j | 0 <= i < |kernel.subs| && 0 <= j < |kernel.subs[i].items|
      ensures var w, d := kernel.subs[i].items[j], kernel.subs[i].dev;
        && WorkItemOk(w)
        && w.stores <= Addresses(mem)
        && (forall a :: a in w.loads ==> a in c && Needed(kernel.required, d, a) && !StoresElsewhere(kernel.subs, d, a))
        && (forall a :: a in w.stores ==> Needed(kernel.written, d, a))
    {
      ThreadLegal(mem, n, c, args, sp, threads, i, j);
    }
    forall a, d, e | Needed(kernel.written, d, a) && Needed(kernel.written, e, a)
      ensures d == e && Needed(kernel.required, d, a)
    {
      WrittenRequiredOnce(mem, n, args, sp, a, d, e);
    }
  }

  lemma ThreadLegal(
    mem: Memory, n: nat, c: Content, args: seq<Argument>, sp: Split, threads: seq<seq<Thread>>, i: nat, j: nat)
    requires SplitOk(sp, n) && |threads| == |sp.ranges| && i < |threads| && j < |threads[i]|
    requires AnalysisSucceeds(mem, n, args, sp) && ProgramOk(mem, n, c, args, sp, threads)
    ensures var w, d := threads[i][j].effect, sp.devs[i];
      && WorkItemOk(w)
      && w.stores <= Addresses(mem)
      && (forall a :: a in w.loads ==>
           a in c && Needed(DataRequired(args, sp), d, a) && !StoresElsewhere(SubKernelsOf(sp, threads), d, a))
      && (forall a :: a in w.stores ==> Needed(DataWritten(args, sp), d, a))
  {
    var t := threads[i][j];
    assert ThreadOk(mem, n, c, args, sp, threads, i, t);
    forall a | a in t.effect.loads ensures Needed(DataRequired(args, sp), sp.devs[i], a) {
      LoadsNeeded(mem, n, args, sp, i, t, a);
    }
    forall a | a in t.effect.stores ensures Needed(DataWritten(args, sp), sp.devs[i], a) {
      StoresNeeded(mem, n, args, sp, i, t, a);
    }
  }

  /** Split execution refines single-device execution: after a launch whose analysis succeeds, the devices and
      the host hold the content the same work-items leave on one device. */
  lemma AnalysedSplitRefinesSingleDevice(
    mem: Memory, n: nat, c: Content, args: seq<Argument>, sp: Split, threads: seq<seq<Thread>>)
    requires Coherent(mem, n, c)
    requires SplitOk(sp, n) && |threads| == |sp.ranges|
    requires AnalysisSucceeds(mem, n, args, sp) && ProgramOk(mem, n, c, args, sp, threads)
    ensures KernelInRange(mem, n, KernelOf(args, sp, threads))
    ensures Coherent(Launch(mem, n, KernelOf(args, sp, threads)), n, RunSingleDevice(SubKernelsOf(sp, threads), c))
  {
    AnalysisMakesLegal(mem, n, c, args, sp, threads);
    SplitRefinesSingleDevice(mem, n, c, KernelOf(args, sp, threads));
  }

  // Pieces i and j both run the work-item.
  ghost predicate BothRun(r: NDRange, subs: seq<NDRange>, w: Item, i: int, j: int) {
    0 <= i < |subs| && 0 <= j < |subs| && Tilings.Runs(r, subs[i], w) && Tilings.Runs(r, subs[j], w)
  }

  /** The pieces the scheduler cuts a range into are a split the analysis can be run on, and every work-item of the
      kernel runs in exactly one of them. */
  lemma PiecesMakeSplit(
    r: NDRange, d: nat, c: seq<int>, k: nat, subs: seq<NDRange>, devs: seq<nat>, indirs: seq<Indirs>, n: nat)
    requires WholeGroups(r) && r.origGlobal == r.global && d < r.workDim && k == r.global[d] / r.local[d]
    requires Tilings.Partitioned(r, d, c, k, subs)
    requires |devs| == |subs| == |indirs| && forall i :: 0 <= i < |devs| ==> devs[i] < n
    ensures SplitOk(Split(r, subs, devs, indirs), n)
    ensures forall i :: 0 <= i < |subs| ==> WholeGroups(subs[i]) && subs[i].origGlobal == r.origGlobal
    ensures forall w: Item :: ItemOf(r, w) ==> exists i :: 0 <= i < |subs| && Tilings.Runs(r, subs[i], w)
    ensures forall w: Item, i, j :: BothRun(r, subs, w, i, j) ==> i == j
  {
    var counts := Tilings.PieceCounts(c, k);
    Arithmetic.Division(r.global[d], r.local[d]);
    assert Tilings.Sum(counts) * r.local[d] == r.global[d];
    forall i | 0 <= i < |subs| ensures PartOf(subs[i], r) && WholeGroups(subs[i]) && subs[i].origGlobal == r.origGlobal {
      Tilings.TileIsPart(r, d, counts, subs, i);
    }
    forall w: Item | ItemOf(r, w)
      ensures exists i :: 0 <= i < |subs| && Tilings.Runs(r, subs[i], w)
    {
      Tilings.ItemInOnePiece(r, d, counts, subs, w);
    }
    forall w: Item, i, j | BothRun(r, subs, w, i, j) ensures i == j {
      Tilings.ItemInOnePiece(r, d, counts, subs, w);
    }
  }
}

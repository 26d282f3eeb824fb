/** A kernel launched on widened pieces (the launch Scheduler::fillSubkernelInfoShift in libsplit/src/Scheduler/Scheduler.cpp
    prepares): a work-item may run on several devices, and a device claims what only its own work-items store. */
module ShiftedLaunches {
  import opened Coherence
  import opened Transfers
  import opened KernelSteps

  // The work-items `ids` of the kernel, on one device.
  datatype Run = Run(dev: nat, ids: set<nat>)

  datatype ShiftedKernel = ShiftedKernel(
    items: seq<WorkItem>, runs: seq<Run>, required: seq<Entry>, written: seq<Entry>)

  // The chosen work-items, in order.
  function Selected(items: seq<WorkItem>, ids: set<nat>): seq<WorkItem> {
    if items == [] then []
    else
      var k := |items| - 1;
      Selected(items[..k], ids) + if k in ids then [items[k]] else []
  }

  function ChosenSubKernels(items: seq<WorkItem>, runs: seq<Run>): (subs: seq<SubKernel>)
    ensures |subs| == |runs|
  {
    seq(|runs|, i requires 0 <= i < |runs| => SubKernel(runs[i].dev, Selected(items, runs[i].ids)))
  }

  function KernelOfShift(s: ShiftedKernel): Kernel {
    Kernel(ChosenSubKernels(s.items, s.runs), s.required, s.written)
  }

  // Only work-items of the run store the byte.
  ghost predicate StoredWithin(items: seq<WorkItem>, run: Run, a: Addr) {
    forall k :: 0 <= k < |items| && a in items[k].stores ==> k in run.ids
  }

  ghost predicate ItemFits(mem: Memory, c: Content, w: WorkItem) {
    WorkItemOk(w) && w.stores <= Addresses(mem) && w.loads <= c.Keys
  }

  // What a work-item of the run loads is sent to its device and stored by no work-item outside the run.
  ghost predicate RunLoads(s: ShiftedKernel, run: Run, w: WorkItem) {
    forall a :: a in w.loads ==> Needed(s.required, run.dev, a) && StoredWithin(s.items, run, a)
  }

  // A device runs one sub-kernel and claims only bytes no work-item outside its run stores. Claims may overlap.
  ghost predicate RunLegal(s: ShiftedKernel, i: nat)
    requires i < |s.runs|
  {
    var run := s.runs[i];
    && (forall j :: 0 <= j < |s.runs| && j != i ==> s.runs[j].dev != run.dev)
    && (forall k :: 0 <= k < |s.items| && k in run.ids ==> RunLoads(s, run, s.items[k]))
    && (forall a :: Needed(s.written, run.dev, a) ==> StoredWithin(s.items, run, a))
  }

  ghost predicate RunClaims(s: ShiftedKernel, i: nat, a: Addr)
    requires i < |s.runs|
  {
    Needed(s.written, s.runs[i].dev, a)
  }

  ghost predicate ClaimedBySome(s: ShiftedKernel, a: Addr) {
    exists i :: 0 <= i < |s.runs| && RunClaims(s, i, a)
  }

  ghost predicate LegalShift(mem: Memory, n: nat, c: Content, s: ShiftedKernel) {
    && KernelInRange(mem, n, KernelOfShift(s))
    && (forall k :: 0 <= k < |s.items| ==> ItemFits(mem, c, s.items[k]))
    && (forall i :: 0 <= i < |s.runs| ==> RunLegal(s, i))
    && (forall a :: ItemStores(s.items, a) ==> ClaimedBySome(s, a))
    && (forall a, d :: Needed(s.written, d, a) ==> exists i :: 0 <= i < |s.runs| && s.runs[i].dev == d)
    && WrittenAreRequired(mem, KernelOfShift(s))
    && (forall p :: 0 <= p < |s.written| ==> !mem[s.written[p].buf].isRO)
  }

  // ---- Some of the work-items, on an image that agrees on enough ----

  // s is what the device is sure of: its work-items load nothing else, and the others store nothing of it.
  ghost predicate ItemMeets(w: WorkItem, chosen: bool, c: set<Addr>, image: set<Addr>, s: set<Addr>) {
    && WorkItemOk(w) && w.loads <= c && w.stores <= image
    && (if chosen then w.loads <= s else w.stores !! s)
  }

  ghost predicate ItemsMeet(items: seq<WorkItem>, ids: set<nat>, c: set<Addr>, image: set<Addr>, s: set<Addr>) {
    forall k :: 0 <= k < |items| ==> ItemMeets(items[k], k in ids, c, image, s)
  }

  // Bytes no work-item stores are the same in both.
  ghost predicate Untouched(items: seq<WorkItem>, image: Content, after: Content) {
    && image.Keys == after.Keys
    && forall a :: a in image && !ItemStores(items, a) ==> after[a] == image[a]
  }

  lemma StoresOfPrefix(items: seq<WorkItem>, a: Addr)
    requires items != [] && !ItemStores(items, a)
    ensures a !in items[|items| - 1].stores && !ItemStores(items[..|items| - 1], a)
  {
    var init := items[..|items| - 1];
    forall j | 0 <= j < |init| ensures a !in init[j].stores {
      assert init[j] == items[j];
    }
  }

  lemma ChosenStep(w: WorkItem, c: Content, image: Content, s: set<Addr>)
    requires ItemMeets(w, true, c.Keys, image.Keys, s) && Agree(c, image, s)
    ensures Agree(RunItem(w, c), RunItem(w, image), s) && RunItem(w, image).Keys == image.Keys
    ensures forall a :: a in image && a !in w.stores ==> RunItem(w, image)[a] == image[a]
  {
    RunItemAgree(w, c, image, s);
    assert Restrict(image, w.loads).Keys == w.loads;
  }

  lemma OtherStep(w: WorkItem, c: Content, image: Content, s: set<Addr>)
    requires ItemMeets(w, false, c.Keys, image.Keys, s) && Agree(c, image, s)
    ensures Agree(RunItem(w, c), image, s)
  {
    assert Restrict(c, w.loads).Keys == w.loads;
  }

  lemma RunItemsSnoc(l: seq<WorkItem>, w: WorkItem, c: Content)
    ensures RunItems(l + [w], c) == RunItem(w, RunItems(l, c))
    ensures RunItems(l + [], c) == RunItems(l, c)
  {
    assert (l + [w])[..|l|] == l;
    assert l + [] == l;
  }

  /** A device that runs some of the work-items, in order, ends with what running all of them on one device leaves,
      wherever it is sure. */
  lemma {:induction false} SelectedAgree(items: seq<WorkItem>, ids: set<nat>, c: Content, image: Content, s: set<Addr>)
    requires ItemsMeet(items, ids, c.Keys, image.Keys, s) && Agree(c, image, s)
    ensures Agree(RunItems(items, c), RunItems(Selected(items, ids), image), s)
    ensures Untouched(items, image, RunItems(Selected(items, ids), image))
  {
    if items == [] {
    } else {
      var k := |items| - 1;
      var init, w := items[..k], items[k];
      assert ItemsMeet(init, ids, c.Keys, image.Keys, s);
      SelectedAgree(init, ids, c, image, s);
      RunItemsGrows(init, c);
      var c0, image0 := RunItems(init, c), RunItems(Selected(init, ids), image);
      RunItemsSnoc(Selected(init, ids), w, image);
      assert ItemMeets(w, k in ids, c0.Keys, image0.Keys, s);
      if k in ids {
        ChosenStep(w, c0, image0, s);
      } else {
        OtherStep(w, c0, image0, s);
      }
      forall a | !ItemStores(items, a)
        ensures a !in w.stores && !ItemStores(init, a)
      {
        StoresOfPrefix(items, a);
      }
    }
  }

  // ---- The sub-kernels, each on its own device ----

  ghost predicate DistinctDevices(subs: seq<SubKernel>, n: nat) {
    && (forall i :: 0 <= i < |subs| ==> subs[i].dev < n)
    && forall i, j :: 0 <= i < j < |subs| ==> subs[i].dev != subs[j].dev
  }

  // No sub-kernel stores outside the buffers.
  ghost predicate StaysInside(mem: Memory, n: nat, subs: seq<SubKernel>)
    requires WellFormedMemory(mem, n) && DistinctDevices(subs, n)
  {
    forall i :: 0 <= i < |subs| ==> RunItems(subs[i].items, Image(mem, n, subs[i].dev)).Keys == Addresses(mem)
  }

  // The image of device d after the sub-kernels of d.
  function ImageAfter(subs: seq<SubKernel>, d: nat, image: Content): Content {
    if subs == [] then image
    else
      var s, before := subs[|subs| - 1], ImageAfter(subs[..|subs| - 1], d, image);
      if s.dev == d then RunItems(s.items, before) else before
  }

  lemma {:induction false} ImageAfterNone(subs: seq<SubKernel>, d: nat, image: Content)
    requires forall i :: 0 <= i < |subs| ==> subs[i].dev != d
    ensures ImageAfter(subs, d, image) == image
  {
    if subs != [] {
      ImageAfterNone(subs[..|subs| - 1], d, image);
    }
  }

  lemma {:induction false} ImageAfterOne(subs: seq<SubKernel>, n: nat, i: nat, image: Content)
    requires DistinctDevices(subs, n) && i < |subs|
    ensures ImageAfter(subs, subs[i].dev, image) == RunItems(subs[i].items, image)
    decreases |subs|
  {
    var init := subs[..|subs| - 1];
    if i < |init| {
      assert DistinctDevices(init, n);
      ImageAfterOne(init, n, i, image);
    } else {
      ImageAfterNone(init, subs[i].dev, image);
    }
  }

  lemma SubKernelImage(mem: Memory, n: nat, s: SubKernel, d: nat)
    requires WellFormedMemory(mem, n) && s.dev < n && d < n
    requires RunItems(s.items, Image(mem, n, s.dev)).Keys == Addresses(mem)
    ensures Image(RunSubKernel(mem, n, s), n, d)
      == if d == s.dev then RunItems(s.items, Image(mem, n, s.dev)) else Image(mem, n, d)
  {
    StoreImageImage(mem, n, s.dev, RunItems(s.items, Image(mem, n, s.dev)), d);
  }

  /** With one sub-kernel a device, each device runs its own on its own image. */
  lemma {:induction false} SubKernelImages(mem: Memory, n: nat, subs: seq<SubKernel>, d: nat)
    requires WellFormedMemory(mem, n) && DistinctDevices(subs, n) && StaysInside(mem, n, subs) && d < n
    ensures Image(RunSubKernels(mem, n, subs), n, d) == ImageAfter(subs, d, Image(mem, n, d))
  {
    if subs == [] {
    } else {
      var init, s := subs[..|subs| - 1], subs[|subs| - 1];
      assert DistinctDevices(init, n) && StaysInside(mem, n, init);
      SubKernelImages(mem, n, init, d);
      SubKernelImages(mem, n, init, s.dev);
      ImageAfterNone(init, s.dev, Image(mem, n, s.dev));
      var before := RunSubKernels(mem, n, init);
      SameAddresses(mem, before, n);
      SubKernelImage(before, n, s, d);
    }
  }

  // ---- The launch ----

  // What run i is sure of: sent to its device, and stored by its own work-items only.
  ghost function Sure(mem: Memory, s: ShiftedKernel, i: nat): set<Addr>
    requires i < |s.runs|
  {
    set a | a in Addresses(mem) && Needed(s.required, s.runs[i].dev, a) && StoredWithin(s.items, s.runs[i], a)
  }

  lemma LegalShiftMoved(mem: Memory, moved: Memory, n: nat, c: Content, s: ShiftedKernel)
    requires LegalShift(mem, n, c, s) && SameShape(mem, moved, n)
    ensures LegalShift(moved, n, c, s)
  {
    SameAddresses(mem, moved, n);
  }

  lemma RunMeets(mem: Memory, n: nat, c: Content, s: ShiftedKernel, i: nat)
    requires LegalShift(mem, n, c, s) && i < |s.runs| && c.Keys <= Addresses(mem)
    ensures ItemsMeet(s.items, s.runs[i].ids, c.Keys, Addresses(mem), Sure(mem, s, i))
  {
    forall k | 0 <= k < |s.items|
      ensures ItemMeets(s.items[k], k in s.runs[i].ids, c.Keys, Addresses(mem), Sure(mem, s, i))
    {
      var w := s.items[k];
      assert ItemFits(mem, c, w) && RunLegal(s, i);
      if k in s.runs[i].ids {
        assert RunLoads(s, s.runs[i], w);
      }
    }
  }

  // Every byte a run is sure of has its latest value on the device.
  ghost predicate RunsAgree(moved: Memory, m: Memory, n: nat, c: Content, s: ShiftedKernel)
    requires WellFormedMemory(m, n)
  {
    forall i :: 0 <= i < |s.runs| ==> s.runs[i].dev < n && Agree(c, Image(m, n, s.runs[i].dev), Sure(moved, s, i))
  }

  lemma RunsAgreeAfterTransfers(mem: Memory, moved: Memory, n: nat, c: Content, s: ShiftedKernel)
    requires Coherent(mem, n, c) && LegalShift(mem, n, c, s) && SameShape(mem, moved, n)
    requires Coherent(moved, n, c) && Served(mem, moved, n, s.required)
    requires forall k, d :: 0 <= k < |mem| && 0 <= d < n ==> mem[k].devValid[d] <= moved[k].devValid[d]
    ensures RunsAgree(moved, moved, n, c, s)
  {
    forall i | 0 <= i < |s.runs|
      ensures s.runs[i].dev < n && Agree(c, Image(moved, n, s.runs[i].dev), Sure(moved, s, i))
    {
      var d := s.runs[i].dev;
      assert KernelOfShift(s).subs[i].dev == d;
      forall a | a in Sure(moved, s, i) && a in c
        ensures a in Image(moved, n, d) && Image(moved, n, d)[a] == c[a]
      {
        NeededIsCurrent(mem, moved, n, c, KernelOfShift(s), d, a);
      }
    }
  }

  // One device during the sub-kernels.
  lemma RunOnDevice(moved: Memory, n: nat, c: Content, s: ShiftedKernel, i: nat)
    requires WellFormedMemory(moved, n) && LegalShift(moved, n, c, s) && RunsAgree(moved, moved, n, c, s)
    requires i < |s.runs| && c.Keys <= Addresses(moved)
    ensures s.runs[i].dev < n
    ensures var image := Image(moved, n, s.runs[i].dev);
      var after := RunItems(Selected(s.items, s.runs[i].ids), image);
      Agree(RunItems(s.items, c), after, Sure(moved, s, i)) && Untouched(s.items, image, after)
  {
    RunMeets(moved, n, c, s, i);
    SelectedAgree(s.items, s.runs[i].ids, c, Image(moved, n, s.runs[i].dev), Sure(moved, s, i));
  }

  ghost predicate OneEach(moved: Memory, n: nat, s: ShiftedKernel)
    requires WellFormedMemory(moved, n)
  {
    DistinctDevices(KernelOfShift(s).subs, n) && StaysInside(moved, n, KernelOfShift(s).subs)
  }

  lemma RunsAreOneEach(moved: Memory, n: nat, c: Content, s: ShiftedKernel)
    requires WellFormedMemory(moved, n) && LegalShift(moved, n, c, s) && RunsAgree(moved, moved, n, c, s)
    requires c.Keys <= Addresses(moved)
    ensures OneEach(moved, n, s)
  {
    var subs := KernelOfShift(s).subs;
    forall i | 0 <= i < |subs|
      ensures subs[i].dev < n && RunItems(subs[i].items, Image(moved, n, subs[i].dev)).Keys == Addresses(moved)
      ensures forall j :: 0 <= j < |subs| && j != i ==> subs[j].dev != subs[i].dev
    {
      RunOnDevice(moved, n, c, s, i);
      assert RunLegal(s, i);
    }
  }

  lemma ImageOfRun(mem: Memory, n: nat, subs: seq<SubKernel>, i: nat)
    requires WellFormedMemory(mem, n) && DistinctDevices(subs, n) && StaysInside(mem, n, subs) && i < |subs|
    ensures Image(RunSubKernels(mem, n, subs), n, subs[i].dev) == RunItems(subs[i].items, Image(mem, n, subs[i].dev))
  {
    SubKernelImages(mem, n, subs, subs[i].dev);
    ImageAfterOne(subs, n, i, Image(mem, n, subs[i].dev));
  }

  lemma DeviceWithRun(moved: Memory, n: nat, c: Content, s: ShiftedKernel, i: nat)
    requires WellFormedMemory(moved, n) && LegalShift(moved, n, c, s) && RunsAgree(moved, moved, n, c, s)
    requires c.Keys <= Addresses(moved) && i < |s.runs|
    requires OneEach(moved, n, s)
    ensures var ran, d := RunSubKernels(moved, n, KernelOfShift(s).subs), s.runs[i].dev;
      d < n && Untouched(s.items, Image(moved, n, d), Image(ran, n, d))
      && Agree(RunItems(s.items, c), Image(ran, n, d), Sure(moved, s, i))
  {
    RunOnDevice(moved, n, c, s, i);
    ImageOfRun(moved, n, KernelOfShift(s).subs, i);
  }

  lemma RunsAgreeAfter(moved: Memory, n: nat, c: Content, s: ShiftedKernel)
    requires WellFormedMemory(moved, n) && LegalShift(moved, n, c, s) && RunsAgree(moved, moved, n, c, s)
    requires c.Keys <= Addresses(moved) && OneEach(moved, n, s)
    ensures RunsAgree(moved, RunSubKernels(moved, n, KernelOfShift(s).subs), n, RunItems(s.items, c), s)
  {
    forall i | 0 <= i < |s.runs|
      ensures s.runs[i].dev < n && Agree(RunItems(s.items, c),
        Image(RunSubKernels(moved, n, KernelOfShift(s).subs), n, s.runs[i].dev), Sure(moved, s, i))
    {
      DeviceWithRun(moved, n, c, s, i);
    }
  }

  lemma UntouchedAfter(moved: Memory, n: nat, c: Content, s: ShiftedKernel, d: nat)
    requires WellFormedMemory(moved, n) && LegalShift(moved, n, c, s) && RunsAgree(moved, moved, n, c, s)
    requires c.Keys <= Addresses(moved) && OneEach(moved, n, s) && d < n
    ensures Untouched(s.items, Image(moved, n, d), Image(RunSubKernels(moved, n, KernelOfShift(s).subs), n, d))
  {
    var subs := KernelOfShift(s).subs;
    if i :| 0 <= i < |s.runs| && s.runs[i].dev == d {
      DeviceWithRun(moved, n, c, s, i);
    } else {
      assert forall i :: 0 <= i < |subs| ==> subs[i].dev == s.runs[i].dev;
      SubKernelImages(moved, n, subs, d);
      ImageAfterNone(subs, d, Image(moved, n, d));
    }
  }

  // The single device: bytes no work-item stores keep their value.
  lemma SingleContent(mem: Memory, c: Content, items: seq<WorkItem>)
    requires forall k :: 0 <= k < |items| ==> ItemFits(mem, c, items[k])
    requires c.Keys <= Addresses(mem)
    ensures var c' := RunItems(items, c);
      && c.Keys <= c'.Keys
      && (forall a :: a in c' ==> a in Addresses(mem) && (a in c || ItemStores(items, a)))
      && (forall a :: a in c && !ItemStores(items, a) ==> c'[a] == c[a])
  {
    assert ItemsOk(items, c, c.Keys);
    RunItemsAgree(items, c, c, c.Keys);
    RunItemsGrows(items, c);
    forall a | ItemStores(items, a) ensures a in Addresses(mem) {
      var j :| 0 <= j < |items| && a in items[j].stores;
      assert ItemFits(mem, c, items[j]);
    }
  }

  // ---- Validity after the launch ----

  // A claimed byte ends up valid on exactly the devices that claim it.
  lemma ValidWhereClaimed(ran: Memory, n: nat, s: ShiftedKernel, a: Addr)
    requires WellFormedMemory(ran, n) && KernelInRange(ran, n, KernelOfShift(s)) && a in Addresses(ran) && ClaimedBySome(s, a)
    ensures var r := UpdateValidity(ran, n, Claims(ran, s.written));
      && a.buf < |ran| && a.off !in r[a.buf].hostValid && ValidSomewhere(r[a.buf], a.off)
      && forall d :: 0 <= d < n && a.off in r[a.buf].devValid[d] ==> Needed(s.written, d, a)
  {
    ValidAfter(ran, n, KernelOfShift(s), a);
    var i :| 0 <= i < |s.runs| && RunClaims(s, i, a);
    var d := s.runs[i].dev;
    assert KernelOfShift(s).subs[i].dev == d && Needed(s.written, d, a);
    assert a.off in UpdateValidity(ran, n, Claims(ran, s.written))[a.buf].devValid[d];
  }

  // All the devices that claim a byte hold the same value.
  lemma ClaimedCoherent(moved: Memory, ran: Memory, n: nat, c: Content, c': Content, s: ShiftedKernel, a: Addr)
    requires LegalShift(moved, n, c, s) && SameShape(moved, ran, n) && RunsAgree(moved, ran, n, c', s)
    requires a in c' && a in Addresses(moved) && ClaimedBySome(s, a)
    ensures AddressCoherent(UpdateValidity(ran, n, Claims(ran, s.written)), n, c', a)
  {
    var r := UpdateValidity(ran, n, Claims(ran, s.written));
    SameAddresses(moved, ran, n);
    AddressAt(ran, a.buf, a.off);
    assert a == Addr(a.buf, a.off);
    ValidWhereClaimed(ran, n, s, a);
    forall d | 0 <= d < n && a.off in r[a.buf].devValid[d]
      ensures r[a.buf].dev[d][a.off] == c'[a]
    {
      ClaimedValue(moved, ran, n, c, c', s, a, d);
    }
  }

  lemma ClaimedValue(moved: Memory, ran: Memory, n: nat, c: Content, c': Content, s: ShiftedKernel, a: Addr, d: nat)
    requires LegalShift(moved, n, c, s) && SameShape(moved, ran, n) && RunsAgree(moved, ran, n, c', s)
    requires a in c' && a in Addresses(moved) && d < n && Needed(s.written, d, a)
    ensures a.buf < |ran| && a.off < |ran[a.buf].host| && ran[a.buf].dev[d][a.off] == c'[a]
  {
    SameAddresses(moved, ran, n);
    AddressAt(ran, a.buf, a.off);
    assert a == Addr(a.buf, a.off);
    var i :| 0 <= i < |s.runs| && s.runs[i].dev == d;
    assert RunLegal(s, i);
    assert Needed(s.required, d, a);
    assert a in Sure(moved, s, i);
    ImageAt(ran, n, d, a.buf, a.off);
  }

  // A byte nobody stores and nobody claims keeps its copies.
  lemma KeptCoherent(moved: Memory, ran: Memory, n: nat, c: Content, c': Content, s: ShiftedKernel, a: Addr)
    requires Coherent(moved, n, c) && SameShape(moved, ran, n)
    requires forall k :: 0 <= k < |moved| ==> ran[k] == moved[k].(dev := ran[k].dev)
    requires a in c && a in c' && c'[a] == c[a]
    requires forall d :: 0 <= d < n ==>
      a in Image(moved, n, d) && a in Image(ran, n, d) && Image(ran, n, d)[a] == Image(moved, n, d)[a]
    ensures AddressCoherent(ran, n, c', a)
  {
    assert a == Addr(a.buf, a.off);
    assert ValidSomewhere(moved[a.buf], a.off);
    forall d | 0 <= d < n
      ensures ran[a.buf].dev[d][a.off] == moved[a.buf].dev[d][a.off]
    {
      ImageAt(ran, n, d, a.buf, a.off);
      ImageAt(moved, n, d, a.buf, a.off);
    }
  }

  // The state between the sub-kernels and the validity update.
  ghost predicate ShiftExecuted(moved: Memory, ran: Memory, n: nat, c: Content, c': Content, s: ShiftedKernel)
    requires WellFormedMemory(moved, n)
  {
    && SameShape(moved, ran, n)
    && (forall k :: 0 <= k < |moved| ==> ran[k] == moved[k].(dev := ran[k].dev))
    && RunsAgree(moved, ran, n, c', s)
    && (forall d :: 0 <= d < n ==> Untouched(s.items, Image(moved, n, d), Image(ran, n, d)))
    && (forall a :: a in c' ==> a in Addresses(moved) && (a in c || ItemStores(s.items, a)))
    && (forall a :: a in c && !ItemStores(s.items, a) ==> a in c' && c'[a] == c[a])
  }

  // A byte that is stored or listed as written is claimed by the device of some run.
  lemma ClaimedOrKept(mem: Memory, n: nat, c: Content, s: ShiftedKernel, a: Addr)
    requires LegalShift(mem, n, c, s)
    ensures ClaimedBySome(s, a) || (!ItemStores(s.items, a) && forall d: nat :: !Needed(s.written, d, a))
  {
    if d: nat :| Needed(s.written, d, a) {
      var i :| 0 <= i < |s.runs| && s.runs[i].dev == d;
      assert RunClaims(s, i, a);
    }
  }

  lemma ReadOnlyUnclaimed(mem: Memory, s: ShiftedKernel, a: Addr)
    requires forall p :: 0 <= p < |s.written| ==> s.written[p].buf < |mem| && !mem[s.written[p].buf].isRO
    requires a.buf < |mem| && mem[a.buf].isRO
    ensures !ClaimedBySome(s, a)
  {
    assert forall p :: 0 <= p < |s.written| ==> s.written[p].buf != a.buf;
  }

  lemma ShiftIsExecuted(moved: Memory, n: nat, c: Content, s: ShiftedKernel)
    requires Coherent(moved, n, c) && LegalShift(moved, n, c, s) && RunsAgree(moved, moved, n, c, s)
    ensures ShiftExecuted(moved, RunSubKernels(moved, n, KernelOfShift(s).subs), n, c, RunItems(s.items, c), s)
  {
    DefinedInBounds(moved, n, c);
    RunsAreOneEach(moved, n, c, s);
    RunsAgreeAfter(moved, n, c, s);
    SingleContent(moved, c, s.items);
    forall d | 0 <= d < n
      ensures Untouched(s.items, Image(moved, n, d), Image(RunSubKernels(moved, n, KernelOfShift(s).subs), n, d))
    {
      UntouchedAfter(moved, n, c, s, d);
    }
  }

  lemma ShiftedAddress(moved: Memory, ran: Memory, n: nat, c: Content, c': Content, s: ShiftedKernel, a: Addr)
    requires Coherent(moved, n, c) && LegalShift(moved, n, c, s) && ShiftExecuted(moved, ran, n, c, c', s)
    requires a in c'
    ensures AddressCoherent(UpdateValidity(ran, n, Claims(ran, s.written)), n, c', a)
  {
    if ClaimedBySome(s, a) {
      ClaimedCoherent(moved, ran, n, c, c', s, a);
    } else {
      SameAddresses(moved, ran, n);
      ClaimedOrKept(moved, n, c, s, a);
      KeptCoherent(moved, ran, n, c, c', s, a);
      UnclaimedAddress(ran, n, c', KernelOfShift(s), a);
    }
  }

  lemma ReadOnlyBefore(moved: Memory, ran: Memory, n: nat, c: Content, a: Addr)
    requires Coherent(moved, n, c) && SameShape(moved, ran, n) && a in c
    requires forall k :: 0 <= k < |moved| ==> ran[k] == moved[k].(dev := ran[k].dev)
    ensures a.buf < |ran| && OnAllDevices(ran, n, a)
  {
    assert a == Addr(a.buf, a.off);
    assert CoherentBuffer(moved[a.buf], a.buf, c);
  }

  lemma ReadOnlyAfter(ran: Memory, n: nat, s: ShiftedKernel, a: Addr)
    requires WellFormedMemory(ran, n) && KernelInRange(ran, n, KernelOfShift(s)) && a in Addresses(ran)
    requires forall p :: 0 <= p < |s.written| ==> !ran[s.written[p].buf].isRO
    requires a.buf < |ran| && OnAllDevices(ran, n, a)
    ensures OnAllDevices(UpdateValidity(ran, n, Claims(ran, s.written)), n, a)
  {
    if ran[a.buf].isRO {
      ReadOnlyUntouched(ran, n, KernelOfShift(s), a);
    }
  }

  // Nobody stores to a read-only buffer, so the byte was defined before.
  lemma ReadOnlyKept(moved: Memory, n: nat, c: Content, c': Content, s: ShiftedKernel, a: Addr)
    requires LegalShift(moved, n, c, s) && a.buf < |moved| && moved[a.buf].isRO
    requires forall a :: a in c' ==> a in Addresses(moved) && (a in c || ItemStores(s.items, a))
    requires a in c'
    ensures a in c
  {
    ReadOnlyUnclaimed(moved, s, a);
    ClaimedOrKept(moved, n, c, s, a);
  }

  // A byte of a read-only buffer that was on all devices still is after the validity update.
  ghost predicate Replicated(ran: Memory, n: nat, s: ShiftedKernel, a: Addr)
    requires WellFormedMemory(ran, n) && KernelInRange(ran, n, KernelOfShift(s)) && a.buf < |ran|
  {
    OnAllDevices(UpdateValidity(ran, n, Claims(ran, s.written)), n, a)
  }

  lemma ShiftedReadOnly(moved: Memory, ran: Memory, n: nat, c: Content, c': Content, s: ShiftedKernel, a: Addr)
    requires WellFormedMemory(ran, n) && KernelInRange(ran, n, KernelOfShift(s)) && a.buf < |ran|
    requires Coherent(moved, n, c) && LegalShift(moved, n, c, s) && ShiftExecuted(moved, ran, n, c, c', s)
    requires a in c' && a in Addresses(ran)
    ensures Replicated(ran, n, s, a)
  {
    if ran[a.buf].isRO {
      ReadOnlyKept(moved, n, c, c', s, a);
      ReadOnlyBefore(moved, ran, n, c, a);
      ReadOnlyAfter(ran, n, s, a);
    }
  }

  // The byte is coherent after the validity update.
  ghost predicate Settled(ran: Memory, n: nat, c': Content, s: ShiftedKernel, a: Addr)
    requires WellFormedMemory(ran, n) && KernelInRange(ran, n, KernelOfShift(s))
  {
    var r := UpdateValidity(ran, n, Claims(ran, s.written));
    AddressCoherent(r, n, c', a) && OnAllDevices(r, n, a)
  }

  lemma ShiftedByte(moved: Memory, ran: Memory, n: nat, c: Content, c': Content, s: ShiftedKernel, a: Addr)
    requires WellFormedMemory(ran, n) && KernelInRange(ran, n, KernelOfShift(s))
    requires Coherent(moved, n, c) && LegalShift(moved, n, c, s) && ShiftExecuted(moved, ran, n, c, c', s)
    requires a in c'
    ensures Settled(ran, n, c', s, a)
  {
    ShiftedAddress(moved, ran, n, c, c', s, a);
    SameAddresses(moved, ran, n);
    ShiftedReadOnly(moved, ran, n, c, c', s, a);
  }

  lemma SettledCoherent(ran: Memory, n: nat, c': Content, s: ShiftedKernel)
    requires WellFormedMemory(ran, n) && KernelInRange(ran, n, KernelOfShift(s))
    requires forall a :: a in c' ==> Settled(ran, n, c', s, a)
    ensures Coherent(UpdateValidity(ran, n, Claims(ran, s.written)), n, c')
  {
    CoherentFromAddresses(UpdateValidity(ran, n, Claims(ran, s.written)), n, c');
  }

  lemma ShiftedCoherent(moved: Memory, ran: Memory, n: nat, c: Content, c': Content, s: ShiftedKernel)
    requires WellFormedMemory(ran, n) && KernelInRange(ran, n, KernelOfShift(s))
    requires Coherent(moved, n, c) && LegalShift(moved, n, c, s) && ShiftExecuted(moved, ran, n, c, c', s)
    ensures Coherent(UpdateValidity(ran, n, Claims(ran, s.written)), n, c')
  {
    forall a | a in c' ensures Settled(ran, n, c', s, a) {
      ShiftedByte(moved, ran, n, c, c', s, a);
    }
    SettledCoherent(ran, n, c', s);
  }

  /** A shifted launch refines single-device execution, although work-items run on several devices and claims may
      overlap: afterwards memory is coherent with what one device running every work-item once would hold. */
  lemma ShiftRefinesSingleDevice(mem: Memory, n: nat, c: Content, s: ShiftedKernel)
    requires Coherent(mem, n, c) && LegalShift(mem, n, c, s)
    ensures Coherent(Launch(mem, n, KernelOfShift(s)), n, RunItems(s.items, c))
  {
    var p := PlanAll(mem, n, s.required);
    TransferPlanCorrect(mem, n, c, s.required);
    var moved := RunH2D(RunD2H(mem, n, p.d2h), n, p.h2d);
    LegalShiftMoved(mem, moved, n, c, s);
    RunsAgreeAfterTransfers(mem, moved, n, c, s);
    ShiftIsExecuted(moved, n, c, s);
    var ran := RunSubKernels(moved, n, KernelOfShift(s).subs);
    ShiftedCoherent(moved, ran, n, c, RunItems(s.items, c), s);
    ClaimsOfShape(mem, ran, n, s.written);
  }
}

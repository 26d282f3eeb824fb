/** A kernel launch split over devices (Driver::enqueueNDRangeKernel, Driver::enqueueSubKernels)
    refines the launch on a single device. */
module KernelSteps {
  import opened Coherence
  import opened Transfers

  // One independently scheduled unit of the NDRange: the bytes it may read, the bytes it may write,
  // and the values it writes as a function of the values it reads.
  datatype WorkItem = WorkItem(loads: set<Addr>, stores: set<Addr>, run: Content -> Content)

  ghost predicate WorkItemOk(w: WorkItem) {
    forall c: Content :: c.Keys == w.loads ==> w.run(c).Keys <= w.stores
  }

  // A sub-kernel: the work-items of one sub-NDRange, enqueued on one device.
  datatype SubKernel = SubKernel(dev: nat, items: seq<WorkItem>)

  function Restrict(c: Content, s: set<Addr>): Content {
    map a | a in c && a in s :: c[a]
  }

  // Executing on a memory image: reads see the image, writes go into it.
  function RunItem(w: WorkItem, c: Content): Content {
    c + w.run(Restrict(c, w.loads))
  }

  function RunItems(l: seq<WorkItem>, c: Content): Content {
    if l == [] then c else RunItem(l[|l| - 1], RunItems(l[..|l| - 1], c))
  }

  // What a work-item stores depends on what it loads only, and it leaves every other byte alone.
  lemma RunItemLocal(w: WorkItem, c1: Content, c2: Content, a: Addr)
    requires Restrict(c1, w.loads) == Restrict(c2, w.loads)
    ensures a in w.run(Restrict(c1, w.loads)) ==> a in RunItem(w, c1) && a in RunItem(w, c2) && RunItem(w, c1)[a] == RunItem(w, c2)[a]
    ensures a !in w.run(Restrict(c1, w.loads)) ==>
      (a in RunItem(w, c1) <==> a in c1) && (a in c1 ==> RunItem(w, c1)[a] == c1[a])
  {
  }

  // ---- Device images ----

  function Addresses(mem: Memory): set<Addr> {
    set k: nat, x: nat | k < |mem| && x < |mem[k].host| && InSpan(0, |mem[k].host|, x) :: Addr(k, x)
  }

  ghost function Image(mem: Memory, n: nat, d: nat): Content
    requires WellFormedMemory(mem, n) && d < n
  {
    map a | a in Addresses(mem) :: mem[a.buf].dev[d][a.off]
  }

  ghost function StoreImage(mem: Memory, n: nat, d: nat, c: Content): (r: Memory)
    requires WellFormedMemory(mem, n) && d < n && Addresses(mem) <= c.Keys
    ensures SameShape(mem, r, n)
    ensures forall k :: 0 <= k < |mem| ==> r[k] == mem[k].(dev := r[k].dev)
    ensures forall k, e :: 0 <= k < |mem| && 0 <= e < n && e != d ==> r[k].dev[e] == mem[k].dev[e]
    ensures forall k: nat, x: nat :: k < |mem| && x < |mem[k].host| ==> r[k].dev[d][x] == c[Addr(k, x)]
  {
    assert forall k: nat, x: nat :: k < |mem| && x < |mem[k].host| ==>
      InSpan(0, |mem[k].host|, x) && Addr(k, x) in Addresses(mem);
    seq(|mem|, k requires 0 <= k < |mem| =>
      mem[k].(dev := mem[k].dev[d := seq(|mem[k].host|, x requires 0 <= x < |mem[k].host| => c[Addr(k, x)])]))
  }

  lemma ImageAt(mem: Memory, n: nat, d: nat, k: nat, x: nat)
    requires WellFormedMemory(mem, n) && d < n && k < |mem| && x < |mem[k].host|
    ensures Addr(k, x) in Image(mem, n, d) && Image(mem, n, d)[Addr(k, x)] == mem[k].dev[d][x]
  {
    assert InSpan(0, |mem[k].host|, x);
  }

  lemma {:induction false} RunItemsGrows(l: seq<WorkItem>, c: Content)
    ensures c.Keys <= RunItems(l, c).Keys
  {
    if l != [] { RunItemsGrows(l[..|l| - 1], c); }
  }

  ghost function RunSubKernel(mem: Memory, n: nat, s: SubKernel): (r: Memory)
    requires WellFormedMemory(mem, n) && s.dev < n
    ensures SameShape(mem, r, n)
    ensures forall k :: 0 <= k < |mem| ==> r[k] == mem[k].(dev := r[k].dev)
  {
    RunItemsGrows(s.items, Image(mem, n, s.dev));
    StoreImage(mem, n, s.dev, RunItems(s.items, Image(mem, n, s.dev)))
  }

  ghost function RunSubKernels(mem: Memory, n: nat, subs: seq<SubKernel>): (r: Memory)
    requires WellFormedMemory(mem, n) && forall i :: 0 <= i < |subs| ==> subs[i].dev < n
    ensures SameShape(mem, r, n)
    ensures forall k :: 0 <= k < |mem| ==> r[k] == mem[k].(dev := r[k].dev)
  {
    if subs == [] then mem
    else RunSubKernel(RunSubKernels(mem, n, subs[..|subs| - 1]), n, subs[|subs| - 1])
  }

  // The single-device launch: all work-items on the logical content.
  function RunSingleDevice(subs: seq<SubKernel>, c: Content): Content {
    if subs == [] then c
    else RunItems(subs[|subs| - 1].items, RunSingleDevice(subs[..|subs| - 1], c))
  }

  // ---- Validity update of enqueueSubKernels ----

  ghost function Invalidate(b: Buffer, dev: nat, region: set<nat>): Buffer {
    b.(hostValid := b.hostValid - region,
       devValid := seq(|b.devValid|, j requires 0 <= j < |b.devValid| => if j == dev then b.devValid[j]
         else b.devValid[j] - region))
  }

  ghost predicate SameData(m1: Memory, m2: Memory) {
    |m1| == |m2| && forall k :: 0 <= k < |m1| ==>
      m2[k] == m1[k].(hostValid := m2[k].hostValid, devValid := m2[k].devValid) && |m2[k].devValid| == |m1[k].devValid|
  }

  ghost function InvalidateAll(mem: Memory, l: seq<Transfer>): (r: Memory)
    requires forall i :: 0 <= i < |l| ==> l[i].buf < |mem|
    ensures SameData(mem, r)
  {
    if l == [] then mem
    else
      var t := l[|l| - 1];
      var m := InvalidateAll(mem, l[..|l| - 1]);
      m[t.buf := Invalidate(m[t.buf], t.dev, t.region)]
  }

  ghost function Claim(b: Buffer, dev: nat, region: set<nat>): Buffer
    requires dev < |b.devValid|
  {
    b.(devValid := b.devValid[dev := b.devValid[dev] + region])
  }

  ghost function ClaimAll(mem: Memory, n: nat, l: seq<Transfer>): (r: Memory)
    requires forall i :: 0 <= i < |l| ==> l[i].buf < |mem| && l[i].dev < n
    requires forall k :: 0 <= k < |mem| ==> |mem[k].devValid| == n
    ensures SameData(mem, r)
  {
    if l == [] then mem
    else
      var t := l[|l| - 1];
      var m := ClaimAll(mem, n, l[..|l| - 1]);
      m[t.buf := Claim(m[t.buf], t.dev, t.region)]
  }

  // Byte x of buffer k is claimed by an entry for device d (for another device).
  ghost predicate ClaimedBy(l: seq<Transfer>, k: nat, x: nat, d: nat) {
    exists i :: 0 <= i < |l| && l[i].buf == k && l[i].dev == d && x in l[i].region
  }

  ghost predicate ClaimedElsewhere(l: seq<Transfer>, k: nat, x: nat, d: nat) {
    exists i :: 0 <= i < |l| && l[i].buf == k && l[i].dev != d && x in l[i].region
  }

  lemma {:induction false} InvalidateAllAt(mem: Memory, l: seq<Transfer>, k: nat, x: nat)
    requires forall i :: 0 <= i < |l| ==> l[i].buf < |mem|
    requires k < |mem|
    ensures var r := InvalidateAll(mem, l);
      && (x in r[k].hostValid <==> x in mem[k].hostValid && !exists d :: ClaimedBy(l, k, x, d))
      && (forall d :: 0 <= d < |mem[k].devValid| ==>
           (x in r[k].devValid[d] <==> x in mem[k].devValid[d] && !ClaimedElsewhere(l, k, x, d)))
  {
    if l == [] {
    } else {
      var t, l' := l[|l| - 1], l[..|l| - 1];
      InvalidateAllAt(mem, l', k, x);
      forall d: nat
        ensures ClaimedBy(l, k, x, d) <==> ClaimedBy(l', k, x, d) || (t.buf == k && t.dev == d && x in t.region)
        ensures ClaimedElsewhere(l, k, x, d) <==> ClaimedElsewhere(l', k, x, d) || (t.buf == k && t.dev != d && x in t.region)
      {
        ClaimedSnoc(l', t, k, x, d);
        assert l == l' + [t];
      }
      if t.buf == k && x in t.region { assert ClaimedBy(l, k, x, t.dev); }
    }
  }

  lemma ClaimedSnoc(l: seq<Transfer>, t: Transfer, k: nat, x: nat, d: nat)
    ensures ClaimedBy(l + [t], k, x, d) <==> ClaimedBy(l, k, x, d) || (t.buf == k && t.dev == d && x in t.region)
    ensures ClaimedElsewhere(l + [t], k, x, d) <==> ClaimedElsewhere(l, k, x, d) || (t.buf == k && t.dev != d && x in t.region)
  {
    var l' := l + [t];
    assert l'[|l|] == t;
    assert forall i :: 0 <= i < |l| ==> l'[i] == l[i];
  }

  lemma {:induction false} ClaimAllAt(mem: Memory, n: nat, l: seq<Transfer>, k: nat, x: nat)
    requires forall i :: 0 <= i < |l| ==> l[i].buf < |mem| && l[i].dev < n
    requires forall k :: 0 <= k < |mem| ==> |mem[k].devValid| == n
    requires k < |mem|
    ensures var r := ClaimAll(mem, n, l);
      && r[k].hostValid == mem[k].hostValid
      && (forall d :: 0 <= d < n ==> (x in r[k].devValid[d] <==> x in mem[k].devValid[d] || ClaimedBy(l, k, x, d)))
  {
    if l == [] {
    } else {
      var t, l' := l[|l| - 1], l[..|l| - 1];
      ClaimAllAt(mem, n, l', k, x);
      forall d: nat
        ensures ClaimedBy(l, k, x, d) <==> ClaimedBy(l', k, x, d) || (t.buf == k && t.dev == d && x in t.region)
      {
        ClaimedSnoc(l', t, k, x, d);
        assert l == l' + [t];
      }
    }
  }

  ghost function UpdateValidity(mem: Memory, n: nat, l: seq<Transfer>): (r: Memory)
    requires WellFormedMemory(mem, n) && forall i :: 0 <= i < |l| ==> l[i].buf < |mem| && l[i].dev < n
    ensures SameData(mem, r)
  {
    ClaimAll(InvalidateAll(mem, l), n, l)
  }

  /** What the two loops of enqueueSubKernels leave valid. */
  lemma UpdateValidityAt(mem: Memory, n: nat, l: seq<Transfer>, k: nat, x: nat)
    requires WellFormedMemory(mem, n) && forall i :: 0 <= i < |l| ==> l[i].buf < |mem| && l[i].dev < n
    requires k < |mem|
    ensures var r := UpdateValidity(mem, n, l);
      && (x in r[k].hostValid <==> x in mem[k].hostValid && !exists d :: ClaimedBy(l, k, x, d))
      && (forall d :: 0 <= d < n ==>
           (x in r[k].devValid[d] <==> ClaimedBy(l, k, x, d) || (x in mem[k].devValid[d] && !ClaimedElsewhere(l, k, x, d))))
  {
    InvalidateAllAt(mem, l, k, x);
    ClaimAllAt(InvalidateAll(mem, l), n, l, k, x);
  }

  // ---- The launch ----

  ghost function Claims(mem: Memory, l: seq<Entry>): (r: seq<Transfer>)
    requires forall i :: 0 <= i < |l| ==> l[i].buf < |mem|
    ensures |r| == |l|
    ensures forall i :: 0 <= i < |l| ==> r[i] == Transfer(l[i].buf, l[i].dev, Claimed(mem[l[i].buf], l[i]))
  {
    seq(|l|, i requires 0 <= i < |l| => Transfer(l[i].buf, l[i].dev, Claimed(mem[l[i].buf], l[i])))
  }

  datatype Kernel = Kernel(subs: seq<SubKernel>, required: seq<Entry>, written: seq<Entry>)

  ghost predicate KernelInRange(mem: Memory, n: nat, kernel: Kernel) {
    && EntriesInRange(mem, n, kernel.required)
    && EntriesInRange(mem, n, kernel.written)
    && forall i :: 0 <= i < |kernel.subs| ==> kernel.subs[i].dev < n
  }

  // Plan, D2H, H2D, sub-kernels, validity update.
  ghost function Launch(mem: Memory, n: nat, kernel: Kernel): Memory
    requires WellFormedMemory(mem, n) && KernelInRange(mem, n, kernel)
  {
    PlanAllCorrect(mem, n, kernel.required);
    var p := PlanAll(mem, n, kernel.required);
    var moved := RunH2D(RunD2H(mem, n, p.d2h), n, p.h2d);
    UpdateValidity(RunSubKernels(moved, n, kernel.subs), n, Claims(mem, kernel.written))
  }

  ghost predicate Covers(e: Entry, x: nat) {
    e.undefined || x in e.region
  }

  // Some entry for device d covers address a.
  ghost predicate Needed(l: seq<Entry>, d: nat, a: Addr) {
    exists i :: 0 <= i < |l| && l[i].buf == a.buf && l[i].dev == d && Covers(l[i], a.off)
  }

  ghost predicate Stores(subs: seq<SubKernel>, a: Addr) {
    exists i, j :: 0 <= i < |subs| && 0 <= j < |subs[i].items| && a in subs[i].items[j].stores
  }

  ghost predicate StoresElsewhere(subs: seq<SubKernel>, d: nat, a: Addr) {
    exists i, j :: 0 <= i < |subs| && subs[i].dev != d && 0 <= j < |subs[i].items| && a in subs[i].items[j].stores
  }

  // What the region analysis and the program promise for one launch:
  // accesses lie in the computed regions, written bytes are also required, regions written on
  // different devices are disjoint, no work-item loads a byte stored on another device, loaded bytes
  // are defined, and read-only buffers are not written.
  ghost predicate LegalLaunch(mem: Memory, n: nat, c: Content, kernel: Kernel) {
    && KernelInRange(mem, n, kernel)
    && (forall i, j :: 0 <= i < |kernel.subs| && 0 <= j < |kernel.subs[i].items| ==>
         var w, d := kernel.subs[i].items[j], kernel.subs[i].dev;
         && WorkItemOk(w)
         && w.stores <= Addresses(mem)
         && (forall a :: a in w.loads ==> a in c && Needed(kernel.required, d, a) && !StoresElsewhere(kernel.subs, d, a))
         && (forall a :: a in w.stores ==> Needed(kernel.written, d, a)))
    && WrittenAreRequired(mem, kernel)
    && (forall a, d, e :: Needed(kernel.written, d, a) && Needed(kernel.written, e, a) ==> d == e)
    && (forall i :: 0 <= i < |kernel.written| ==> !mem[kernel.written[i].buf].isRO)
  }

  ghost predicate WrittenAreRequired(mem: Memory, kernel: Kernel) {
    forall a, d :: a in Addresses(mem) && Needed(kernel.written, d, a) ==> Needed(kernel.required, d, a)
  }

  // ---- Execution on agreeing images ----

  // Wherever c is defined inside s, the image holds c's value.
  ghost predicate Agree(c: Content, image: Content, s: set<Addr>) {
    forall a :: a in s && a in c ==> a in image && image[a] == c[a]
  }

  lemma RunItemAgree(w: WorkItem, c: Content, image: Content, s: set<Addr>)
    requires WorkItemOk(w) && w.loads <= s && w.loads <= c.Keys && Agree(c, image, s)
    ensures Agree(RunItem(w, c), RunItem(w, image), s)
    ensures RunItem(w, c).Keys <= c.Keys + w.stores
    ensures forall a :: a !in w.stores && a in c ==> RunItem(w, c)[a] == c[a]
    ensures forall a :: a !in w.stores && a in image ==> RunItem(w, image)[a] == image[a]
  {
    assert Restrict(c, w.loads) == Restrict(image, w.loads);
    assert Restrict(c, w.loads).Keys == w.loads;
  }

  ghost predicate ItemsOk(l: seq<WorkItem>, c: Content, s: set<Addr>) {
    forall j :: 0 <= j < |l| ==> WorkItemOk(l[j]) && l[j].loads <= s && l[j].loads <= c.Keys
  }

  ghost predicate ItemStores(l: seq<WorkItem>, a: Addr) {
    exists j :: 0 <= j < |l| && a in l[j].stores
  }

  lemma {:induction false} RunItemsAgree(l: seq<WorkItem>, c: Content, image: Content, s: set<Addr>)
    requires ItemsOk(l, c, s) && Agree(c, image, s)
    ensures Agree(RunItems(l, c), RunItems(l, image), s)
    ensures forall a :: a in RunItems(l, c) ==> a in c || ItemStores(l, a)
    ensures forall a :: !ItemStores(l, a) && a in c ==> a in RunItems(l, c) && RunItems(l, c)[a] == c[a]
    ensures forall a :: !ItemStores(l, a) && a in image ==> a in RunItems(l, image) && RunItems(l, image)[a] == image[a]
  {
    if l == [] {
    } else {
      var w, l' := l[|l| - 1], l[..|l| - 1];
      assert ItemsOk(l', c, s);
      RunItemsAgree(l', c, image, s);
      RunItemsGrows(l', c);
      RunItemAgree(w, RunItems(l', c), RunItems(l', image), s);
      forall a | !ItemStores(l, a)
        ensures !ItemStores(l', a) && a !in w.stores
      {
        assert forall j :: 0 <= j < |l'| ==> l'[j] == l[j];
      }
      forall a | ItemStores(l', a) || a in w.stores
        ensures ItemStores(l, a)
      {
        if ItemStores(l', a) {
          var j :| 0 <= j < |l'| && a in l'[j].stores;
          assert a in l[j].stores;
        }
      }
    }
  }

  lemma SameAddresses(m1: Memory, m2: Memory, n: nat)
    requires SameShape(m1, m2, n)
    ensures Addresses(m1) == Addresses(m2)
  {
    forall k: nat, x: nat
      ensures Addr(k, x) in Addresses(m1) <==> Addr(k, x) in Addresses(m2)
    {
      AddressAt(m1, k, x);
      AddressAt(m2, k, x);
    }
    forall a
      ensures a in Addresses(m1) <==> a in Addresses(m2)
    {
      assert a == Addr(a.buf, a.off);
    }
  }

  lemma AddressAt(mem: Memory, k: nat, x: nat)
    ensures Addr(k, x) in Addresses(mem) <==> k < |mem| && x < |mem[k].host|
  {
    if k < |mem| && x < |mem[k].host| { assert InSpan(0, |mem[k].host|, x); }
  }

  // The addresses device d is sure to hold the right value of during the launch.
  ghost function Trusted(mem: Memory, kernel: Kernel, d: nat): set<Addr> {
    set a | a in Addresses(mem) && Needed(kernel.required, d, a) && !StoresElsewhere(kernel.subs, d, a)
  }

  ghost predicate DevicesAgree(mem: Memory, n: nat, c: Content, kernel: Kernel)
    requires WellFormedMemory(mem, n)
  {
    forall d :: 0 <= d < n ==> Agree(c, Image(mem, n, d), Trusted(mem, kernel, d))
  }

  lemma StoreImageImage(mem: Memory, n: nat, d: nat, c: Content, e: nat)
    requires WellFormedMemory(mem, n) && d < n && e < n && Addresses(mem) == c.Keys
    ensures Image(StoreImage(mem, n, d, c), n, e) == if e == d then c else Image(mem, n, e)
  {
    var r := StoreImage(mem, n, d, c);
    SameAddresses(mem, r, n);
    forall a | a in Addresses(mem)
      ensures Image(r, n, e)[a] == if e == d then c[a] else Image(mem, n, e)[a]
    {
      AddressAt(mem, a.buf, a.off);
      assert a == Addr(a.buf, a.off);
    }
  }

  lemma {:induction false} RunItemsKeys(l: seq<WorkItem>, c: Content, image: Content, s: set<Addr>)
    requires ItemsOk(l, c, s) && Agree(c, image, s)
    requires forall j :: 0 <= j < |l| ==> l[j].stores <= image.Keys
    ensures RunItems(l, image).Keys == image.Keys
  {
    if l == [] {
    } else {
      var w, l' := l[|l| - 1], l[..|l| - 1];
      assert ItemsOk(l', c, s);
      RunItemsKeys(l', c, image, s);
      RunItemsAgree(l', c, image, s);
      RunItemsGrows(l', c);
      assert Restrict(RunItems(l', image), w.loads).Keys == w.loads;
    }
  }

  /** Running sub-kernels one device at a time: each device's image keeps agreeing with the
      single-device content on the addresses it is trusted with, and bytes nobody stores stay put. */
  lemma {:induction false} SubKernelsAgree(mem: Memory, n: nat, c: Content, kernel: Kernel, m: nat)
    requires WellFormedMemory(mem, n) && LegalLaunch(mem, n, c, kernel) && c.Keys <= Addresses(mem)
    requires DevicesAgree(mem, n, c, kernel)
    requires m <= |kernel.subs|
    ensures var r, c' := RunSubKernels(mem, n, kernel.subs[..m]), RunSingleDevice(kernel.subs[..m], c);
      && DevicesAgree(r, n, c', kernel)
      && c.Keys <= c'.Keys
      && (forall a :: a in c' ==> a in c || Stores(kernel.subs, a))
      && (forall a :: !Stores(kernel.subs, a) && a in c ==> c'[a] == c[a])
      && (forall a, d :: 0 <= d < n && a in Addresses(mem) && !Stores(kernel.subs, a) ==>
           a in Image(r, n, d) && Image(r, n, d)[a] == Image(mem, n, d)[a])
  {
    if m == 0 {
      assert kernel.subs[..0] == [];
      return;
    }
    SubKernelsAgree(mem, n, c, kernel, m - 1);
    var s := kernel.subs[m - 1];
    assert kernel.subs[..m][..m - 1] == kernel.subs[..m - 1];
    var r0, c0 := RunSubKernels(mem, n, kernel.subs[..m - 1]), RunSingleDevice(kernel.subs[..m - 1], c);
    SubKernelStep(mem, n, c, kernel, m - 1, r0, c0);
    var r, c' := RunSubKernel(r0, n, s), RunItems(s.items, c0);
    forall a | a in c'
      ensures a in c || Stores(kernel.subs, a)
    {
      if a !in c0 { assert ItemStores(s.items, a); }
    }
  }

  // One sub-kernel changes the image of its own device only, as the single device would.
  lemma SubKernelImages(mem: Memory, n: nat, c: Content, kernel: Kernel, i: nat, r0: Memory, c0: Content)
    requires WellFormedMemory(mem, n) && LegalLaunch(mem, n, c, kernel)
    requires i < |kernel.subs| && SameShape(mem, r0, n) && c.Keys <= Addresses(mem)
    requires DevicesAgree(r0, n, c0, kernel) && c.Keys <= c0.Keys
    ensures var s := kernel.subs[i];
      var image := Image(r0, n, s.dev);
      && Addresses(RunSubKernel(r0, n, s)) == Addresses(r0) == Addresses(mem)
      && ItemsOk(s.items, c0, Trusted(r0, kernel, s.dev))
      && Agree(c0, image, Trusted(r0, kernel, s.dev))
      && forall d :: 0 <= d < n ==>
           Image(RunSubKernel(r0, n, s), n, d) == if d == s.dev then RunItems(s.items, image) else Image(r0, n, d)
  {
    var s := kernel.subs[i];
    var image := Image(r0, n, s.dev);
    SameAddresses(mem, r0, n);
    LoadsTrusted(mem, n, c, kernel, i, r0);
    RunItemsKeys(s.items, c0, image, Trusted(r0, kernel, s.dev));
    SameAddresses(r0, RunSubKernel(r0, n, s), n);
    forall d | 0 <= d < n
      ensures Image(RunSubKernel(r0, n, s), n, d) == if d == s.dev then RunItems(s.items, image) else Image(r0, n, d)
    {
      StoreImageImage(r0, n, s.dev, RunItems(s.items, image), d);
    }
  }

  lemma ItemStoresAre(kernel: Kernel, i: nat, a: Addr)
    requires i < |kernel.subs| && ItemStores(kernel.subs[i].items, a)
    ensures Stores(kernel.subs, a)
    ensures forall d :: d != kernel.subs[i].dev ==> StoresElsewhere(kernel.subs, d, a)
  {
    var j :| 0 <= j < |kernel.subs[i].items| && a in kernel.subs[i].items[j].stores;
  }

  // One sub-kernel on its device.
  lemma SubKernelStep(mem: Memory, n: nat, c: Content, kernel: Kernel, i: nat, r0: Memory, c0: Content)
    requires WellFormedMemory(mem, n) && LegalLaunch(mem, n, c, kernel)
    requires i < |kernel.subs| && SameShape(mem, r0, n) && c.Keys <= Addresses(mem)
    requires DevicesAgree(r0, n, c0, kernel) && c.Keys <= c0.Keys
    ensures var r, c' := RunSubKernel(r0, n, kernel.subs[i]), RunItems(kernel.subs[i].items, c0);
      && DevicesAgree(r, n, c', kernel)
      && c0.Keys <= c'.Keys
      && (forall a :: a in c' ==> a in c0 || ItemStores(kernel.subs[i].items, a))
      && (forall a :: !Stores(kernel.subs, a) && a in c0 ==> c'[a] == c0[a])
      && (forall a, d :: 0 <= d < n && a in Addresses(mem) && !Stores(kernel.subs, a) ==>
           a in Image(r, n, d) && a in Image(r0, n, d) && Image(r, n, d)[a] == Image(r0, n, d)[a])
  {
    var s := kernel.subs[i];
    var r, c' := RunSubKernel(r0, n, s), RunItems(s.items, c0);
    SubKernelImages(mem, n, c, kernel, i, r0, c0);
    RunItemsAgree(s.items, c0, Image(r0, n, s.dev), Trusted(r0, kernel, s.dev));
    RunItemsGrows(s.items, c0);
    forall d | 0 <= d < n
      ensures Agree(c', Image(r, n, d), Trusted(r, kernel, d))
    {
      assert Trusted(r, kernel, d) == Trusted(r0, kernel, d);
      if d != s.dev {
        forall a | a in Trusted(r, kernel, d) && a in c'
          ensures a in Image(r, n, d) && Image(r, n, d)[a] == c'[a]
        {
          if ItemStores(s.items, a) { ItemStoresAre(kernel, i, a); }
        }
      }
    }
    forall a | !Stores(kernel.subs, a)
      ensures !ItemStores(s.items, a)
    {
      if ItemStores(s.items, a) { ItemStoresAre(kernel, i, a); }
    }
  }

  lemma LoadsTrusted(mem: Memory, n: nat, c: Content, kernel: Kernel, i: nat, r0: Memory)
    requires LegalLaunch(mem, n, c, kernel) && i < |kernel.subs| && c.Keys <= Addresses(mem)
    requires Addresses(r0) == Addresses(mem)
    ensures ItemsOk(kernel.subs[i].items, c, Trusted(r0, kernel, kernel.subs[i].dev))
  {
    forall j | 0 <= j < |kernel.subs[i].items|
      ensures kernel.subs[i].items[j].loads <= Trusted(r0, kernel, kernel.subs[i].dev)
      ensures kernel.subs[i].items[j].loads <= c.Keys && WorkItemOk(kernel.subs[i].items[j])
    {
      var w := kernel.subs[i].items[j];
      assert WorkItemOk(w);
    }
  }

  lemma LegalAfterTransfers(mem: Memory, moved: Memory, n: nat, c: Content, kernel: Kernel)
    requires LegalLaunch(mem, n, c, kernel) && SameShape(mem, moved, n)
    ensures LegalLaunch(moved, n, c, kernel)
  {
    SameAddresses(mem, moved, n);
  }

  // A needed byte that is defined is valid on the device once the transfers are done.
  lemma NeededIsServed(mem: Memory, moved: Memory, n: nat, c: Content, kernel: Kernel, d: nat, a: Addr)
    requires Coherent(mem, n, c) && KernelInRange(mem, n, kernel) && SameShape(mem, moved, n)
    requires Served(mem, moved, n, kernel.required)
    requires forall k, d :: 0 <= k < |mem| && 0 <= d < n ==> mem[k].devValid[d] <= moved[k].devValid[d]
    requires d < n && a in c && Needed(kernel.required, d, a)
    ensures a.buf < |mem| && a.off in moved[a.buf].devValid[d]
  {
    var l := kernel.required;
    var i :| 0 <= i < |l| && l[i].buf == a.buf && l[i].dev == d && Covers(l[i], a.off);
    var b := mem[a.buf];
    assert Addr(a.buf, a.off) in c;
    assert InSpan(0, |b.host|, a.off) && ValidSomewhere(b, a.off);
    if a.off in Required(b, l[i]) {
    } else {
      assert l[i].undefined && b.isRO && !InSpan(0, b.maxUsed, a.off);
      assert a.off in b.devValid[d];
    }
  }

  lemma NeededIsCurrent(mem: Memory, moved: Memory, n: nat, c: Content, kernel: Kernel, d: nat, a: Addr)
    requires Coherent(mem, n, c) && KernelInRange(mem, n, kernel) && SameShape(mem, moved, n)
    requires Coherent(moved, n, c) && Served(mem, moved, n, kernel.required)
    requires forall k, d :: 0 <= k < |mem| && 0 <= d < n ==> mem[k].devValid[d] <= moved[k].devValid[d]
    requires d < n && a in c && Needed(kernel.required, d, a)
    ensures a in Image(moved, n, d) && Image(moved, n, d)[a] == c[a]
  {
    NeededIsServed(mem, moved, n, c, kernel, d, a);
    assert a == Addr(a.buf, a.off);
    ImageAt(moved, n, d, a.buf, a.off);
  }

  lemma DevicesAgreeAfterTransfers(mem: Memory, moved: Memory, n: nat, c: Content, kernel: Kernel)
    requires Coherent(mem, n, c) && KernelInRange(mem, n, kernel) && SameShape(mem, moved, n)
    requires Coherent(moved, n, c) && Served(mem, moved, n, kernel.required)
    requires forall k, d :: 0 <= k < |mem| && 0 <= d < n ==> mem[k].devValid[d] <= moved[k].devValid[d]
    ensures DevicesAgree(moved, n, c, kernel)
  {
    forall d, a | 0 <= d < n && a in Trusted(moved, kernel, d) && a in c
      ensures a in Image(moved, n, d) && Image(moved, n, d)[a] == c[a]
    {
      NeededIsCurrent(mem, moved, n, c, kernel, d, a);
    }
  }

  lemma DefinedInBounds(mem: Memory, n: nat, c: Content)
    requires Coherent(mem, n, c)
    ensures c.Keys <= Addresses(mem)
  {
    forall a | a in c
      ensures a in Addresses(mem)
    {
      assert a == Addr(a.buf, a.off);
      AddressAt(mem, a.buf, a.off);
    }
  }

  // A stored byte is claimed for the device that stored it, which holds the new value.
  lemma ClaimsAre(mem: Memory, n: nat, kernel: Kernel, a: Addr, d: nat)
    requires WellFormedMemory(mem, n) && KernelInRange(mem, n, kernel) && a in Addresses(mem)
    ensures ClaimedBy(Claims(mem, kernel.written), a.buf, a.off, d) <==> Needed(kernel.written, d, a)
    ensures ClaimedElsewhere(Claims(mem, kernel.written), a.buf, a.off, d) <==> exists e :: e != d && Needed(kernel.written, e, a)
  {
    AddressAt(mem, a.buf, a.off);
    assert a == Addr(a.buf, a.off);
    var l := Claims(mem, kernel.written);
    forall i | 0 <= i < |l| && l[i].buf == a.buf
      ensures a.off in l[i].region <==> Covers(kernel.written[i], a.off)
    {
      assert InSpan(0, |mem[a.buf].host|, a.off);
    }
    if ClaimedElsewhere(l, a.buf, a.off, d) {
      var i :| 0 <= i < |l| && l[i].buf == a.buf && l[i].dev != d && a.off in l[i].region;
      assert Needed(kernel.written, l[i].dev, a);
    }
    if e :| e != d && Needed(kernel.written, e, a) {
      var i :| 0 <= i < |l| && l[i].buf == a.buf && l[i].dev == e && Covers(kernel.written[i], a.off);
      assert a.off in l[i].region;
    }
  }

  lemma StoredIsClaimed(mem: Memory, n: nat, c: Content, kernel: Kernel, a: Addr)
    requires LegalLaunch(mem, n, c, kernel)
    ensures Stores(kernel.subs, a) ==> exists d: nat :: d < n && Needed(kernel.written, d, a)
    ensures forall d: nat :: StoresElsewhere(kernel.subs, d, a) ==> exists e :: e != d && Needed(kernel.written, e, a)
  {
    forall i, j | 0 <= i < |kernel.subs| && 0 <= j < |kernel.subs[i].items| && a in kernel.subs[i].items[j].stores
      ensures Needed(kernel.written, kernel.subs[i].dev, a)
    {
    }
  }

  // The state between the sub-kernels and the validity update.
  ghost predicate Executed(moved: Memory, ran: Memory, n: nat, c: Content, c': Content, kernel: Kernel)
    requires WellFormedMemory(moved, n)
  {
    && SameShape(moved, ran, n)
    && (forall k :: 0 <= k < |moved| ==> ran[k] == moved[k].(dev := ran[k].dev))
    && DevicesAgree(ran, n, c', kernel)
    && c.Keys <= c'.Keys
    && (forall a :: a in c' ==> a in Addresses(moved) && (a in c || Stores(kernel.subs, a)))
    && (forall a :: !Stores(kernel.subs, a) && a in c ==> c'[a] == c[a])
    && (forall a, d :: 0 <= d < n && a in Addresses(moved) && !Stores(kernel.subs, a) ==>
         a in Image(ran, n, d) && Image(ran, n, d)[a] == Image(moved, n, d)[a])
  }

  // Validity of one address after the update, in terms of the written entries.
  lemma ValidAfter(ran: Memory, n: nat, kernel: Kernel, a: Addr)
    requires WellFormedMemory(ran, n) && KernelInRange(ran, n, kernel) && a in Addresses(ran)
    ensures var r := UpdateValidity(ran, n, Claims(ran, kernel.written));
      && a.buf < |ran|
      && (a.off in r[a.buf].hostValid ==> a.off in ran[a.buf].hostValid && !exists d: nat :: Needed(kernel.written, d, a))
      && (forall d :: 0 <= d < n ==> (a.off in r[a.buf].devValid[d] <==>
            Needed(kernel.written, d, a) || (a.off in ran[a.buf].devValid[d] && !exists e :: e != d && Needed(kernel.written, e, a))))
      && ((forall d: nat :: !Needed(kernel.written, d, a)) ==>
        (a.off in r[a.buf].hostValid <==> a.off in ran[a.buf].hostValid))
  {
    AddressAt(ran, a.buf, a.off);
    assert a == Addr(a.buf, a.off);
    var l := Claims(ran, kernel.written);
    UpdateValidityAt(ran, n, l, a.buf, a.off);
    forall d: nat
      ensures ClaimedBy(l, a.buf, a.off, d) <==> Needed(kernel.written, d, a)
      ensures ClaimedElsewhere(l, a.buf, a.off, d) <==> exists e :: e != d && Needed(kernel.written, e, a)
    {
      ClaimsAre(ran, n, kernel, a, d);
    }
  }

  ghost predicate AddressCoherent(m: Memory, n: nat, c: Content, a: Addr)
    requires WellFormedMemory(m, n)
  {
    && a.buf < |m| && a.off < |m[a.buf].host| && ValidSomewhere(m[a.buf], a.off)
    && (a in c && a.off in m[a.buf].hostValid ==> m[a.buf].host[a.off] == c[a])
    && (forall d :: 0 <= d < n && a in c && a.off in m[a.buf].devValid[d] ==> m[a.buf].dev[d][a.off] == c[a])
  }

  // A device is trusted with the bytes it claims.
  lemma ClaimedIsTrusted(moved: Memory, ran: Memory, n: nat, c: Content, kernel: Kernel, a: Addr, d: nat)
    requires LegalLaunch(moved, n, c, kernel) && Addresses(ran) == Addresses(moved)
    requires a in Addresses(ran) && Needed(kernel.written, d, a)
    ensures a in Trusted(ran, kernel, d)
    ensures forall e :: Needed(kernel.written, e, a) ==> e == d
  {
    StoredIsClaimed(moved, n, c, kernel, a);
  }

  // A claimed address ends up valid on exactly the claiming device, which is trusted with it.
  lemma ClaimedAddress(ran: Memory, n: nat, c': Content, kernel: Kernel, a: Addr, d: nat)
    requires WellFormedMemory(ran, n) && KernelInRange(ran, n, kernel) && a in Addresses(ran)
    requires DevicesAgree(ran, n, c', kernel) && a in c'
    requires d < n && Needed(kernel.written, d, a) && a in Trusted(ran, kernel, d)
    requires forall e :: Needed(kernel.written, e, a) ==> e == d
    ensures AddressCoherent(UpdateValidity(ran, n, Claims(ran, kernel.written)), n, c', a)
  {
    AddressAt(ran, a.buf, a.off);
    assert a == Addr(a.buf, a.off);
    ValidAfter(ran, n, kernel, a);
    ImageAt(ran, n, d, a.buf, a.off);
    assert Image(ran, n, d)[a] == c'[a];
    assert a.off in UpdateValidity(ran, n, Claims(ran, kernel.written))[a.buf].devValid[d];
  }

  // A byte nobody stored keeps its value in every copy.
  lemma UnstoredData(moved: Memory, ran: Memory, n: nat, c: Content, c': Content, kernel: Kernel, a: Addr)
    requires Coherent(moved, n, c) && Executed(moved, ran, n, c, c', kernel)
    requires a in c' && !Stores(kernel.subs, a)
    ensures AddressCoherent(ran, n, c', a)
  {
    assert a == Addr(a.buf, a.off);
    assert a in c && c'[a] == c[a];
    forall d | 0 <= d < n
      ensures ran[a.buf].dev[d][a.off] == moved[a.buf].dev[d][a.off]
    {
      ImageAt(ran, n, d, a.buf, a.off);
      ImageAt(moved, n, d, a.buf, a.off);
    }
    assert ValidSomewhere(moved[a.buf], a.off);
  }

  // An unclaimed address was stored by nobody and keeps its copies.
  lemma UnclaimedAddress(ran: Memory, n: nat, c': Content, kernel: Kernel, a: Addr)
    requires WellFormedMemory(ran, n) && KernelInRange(ran, n, kernel) && a in Addresses(ran)
    requires AddressCoherent(ran, n, c', a)
    requires forall d: nat :: !Needed(kernel.written, d, a)
    ensures AddressCoherent(UpdateValidity(ran, n, Claims(ran, kernel.written)), n, c', a)
  {
    ValidAfter(ran, n, kernel, a);
    if a.off !in ran[a.buf].hostValid {
      var d :| 0 <= d < |ran[a.buf].devValid| && a.off in ran[a.buf].devValid[d];
      assert a.off in UpdateValidity(ran, n, Claims(ran, kernel.written))[a.buf].devValid[d];
    }
  }

  lemma ReadOnlyUntouched(ran: Memory, n: nat, kernel: Kernel, a: Addr)
    requires WellFormedMemory(ran, n) && KernelInRange(ran, n, kernel) && a in Addresses(ran)
    requires forall i :: 0 <= i < |kernel.written| ==> !ran[kernel.written[i].buf].isRO
    requires a.buf < |ran| && ran[a.buf].isRO
    ensures forall d :: 0 <= d < n && a.off in ran[a.buf].devValid[d] ==>
      a.off in UpdateValidity(ran, n, Claims(ran, kernel.written))[a.buf].devValid[d]
  {
    ValidAfter(ran, n, kernel, a);
  }

  // On a read-only buffer the bytes past the used size are on every device.
  ghost predicate OnAllDevices(m: Memory, n: nat, a: Addr)
    requires WellFormedMemory(m, n) && a.buf < |m|
  {
    m[a.buf].isRO && a.off >= m[a.buf].maxUsed ==> forall d :: 0 <= d < n ==> a.off in m[a.buf].devValid[d]
  }

  lemma CoherentFromAddresses(m: Memory, n: nat, c: Content)
    requires WellFormedMemory(m, n)
    requires forall a :: a in c ==> AddressCoherent(m, n, c, a) && OnAllDevices(m, n, a)
    ensures Coherent(m, n, c)
  {
    forall k | 0 <= k < |m|
      ensures CoherentBuffer(m[k], k, c)
    {
      forall x: nat | Addr(k, x) in c
        ensures AddressCoherent(m, n, c, Addr(k, x)) && OnAllDevices(m, n, Addr(k, x))
      {
      }
    }
  }

  lemma LaunchAddress(moved: Memory, ran: Memory, n: nat, c: Content, c': Content, kernel: Kernel, a: Addr)
    requires Coherent(moved, n, c) && LegalLaunch(moved, n, c, kernel) && Executed(moved, ran, n, c, c', kernel)
    requires a in c'
    ensures AddressCoherent(UpdateValidity(ran, n, Claims(ran, kernel.written)), n, c', a)
  {
    SameAddresses(moved, ran, n);
    StoredIsClaimed(moved, n, c, kernel, a);
    if d: nat :| d < n && Needed(kernel.written, d, a) {
      ClaimedIsTrusted(moved, ran, n, c, kernel, a, d);
      ClaimedAddress(ran, n, c', kernel, a, d);
    } else {
      UnstoredData(moved, ran, n, c, c', kernel, a);
      UnclaimedAddress(ran, n, c', kernel, a);
    }
  }

  lemma LaunchReadOnly(moved: Memory, ran: Memory, n: nat, c: Content, c': Content, kernel: Kernel, a: Addr)
    requires Coherent(moved, n, c) && LegalLaunch(moved, n, c, kernel) && Executed(moved, ran, n, c, c', kernel)
    requires a in c' && a.buf < |ran|
    ensures OnAllDevices(UpdateValidity(ran, n, Claims(ran, kernel.written)), n, a)
  {
    SameAddresses(moved, ran, n);
    StoredIsClaimed(moved, n, c, kernel, a);
    assert a == Addr(a.buf, a.off);
    if ran[a.buf].isRO {
      assert a in c;
      ReadOnlyUntouched(ran, n, kernel, a);
    }
  }

  lemma RunIsExecuted(moved: Memory, n: nat, c: Content, kernel: Kernel)
    requires Coherent(moved, n, c) && LegalLaunch(moved, n, c, kernel) && DevicesAgree(moved, n, c, kernel)
    ensures Executed(moved, RunSubKernels(moved, n, kernel.subs), n, c, RunSingleDevice(kernel.subs, c), kernel)
  {
    DefinedInBounds(moved, n, c);
    SubKernelsAgree(moved, n, c, kernel, |kernel.subs|);
    assert kernel.subs[..|kernel.subs|] == kernel.subs;
    StoresInBounds(moved, n, c, kernel);
  }

  lemma ExecutedCoherent(moved: Memory, ran: Memory, n: nat, c: Content, c': Content, kernel: Kernel)
    requires Coherent(moved, n, c) && LegalLaunch(moved, n, c, kernel) && Executed(moved, ran, n, c, c', kernel)
    ensures Coherent(UpdateValidity(ran, n, Claims(ran, kernel.written)), n, c')
  {
    var r := UpdateValidity(ran, n, Claims(ran, kernel.written));
    forall a | a in c'
      ensures AddressCoherent(r, n, c', a) && OnAllDevices(r, n, a)
    {
      LaunchAddress(moved, ran, n, c, c', kernel, a);
      LaunchReadOnly(moved, ran, n, c, c', kernel, a);
    }
    CoherentFromAddresses(r, n, c');
  }

  lemma ClaimsOfShape(m1: Memory, m2: Memory, n: nat, l: seq<Entry>)
    requires SameShape(m1, m2, n) && forall i :: 0 <= i < |l| ==> l[i].buf < |m1|
    ensures Claims(m1, l) == Claims(m2, l)
  {
  }

  /** Split execution refines single-device execution: after plan, transfers, sub-kernels and validity
      update the distributed memory is coherent with what one device running all work-items would hold. */
  lemma SplitRefinesSingleDevice(mem: Memory, n: nat, c: Content, kernel: Kernel)
    requires Coherent(mem, n, c) && LegalLaunch(mem, n, c, kernel)
    ensures Coherent(Launch(mem, n, kernel), n, RunSingleDevice(kernel.subs, c))
  {
    var p := PlanAll(mem, n, kernel.required);
    TransferPlanCorrect(mem, n, c, kernel.required);
    var moved := RunH2D(RunD2H(mem, n, p.d2h), n, p.h2d);
    LegalAfterTransfers(mem, moved, n, c, kernel);
    DevicesAgreeAfterTransfers(mem, moved, n, c, kernel);
    RunIsExecuted(moved, n, c, kernel);
    var ran := RunSubKernels(moved, n, kernel.subs);
    ExecutedCoherent(moved, ran, n, c, RunSingleDevice(kernel.subs, c), kernel);
    ClaimsOfShape(mem, ran, n, kernel.written);
  }

  lemma StoresInBounds(mem: Memory, n: nat, c: Content, kernel: Kernel)
    requires LegalLaunch(mem, n, c, kernel)
    ensures forall a :: Stores(kernel.subs, a) ==> a in Addresses(mem)
  {
    forall i, j, a | 0 <= i < |kernel.subs| && 0 <= j < |kernel.subs[i].items| && a in kernel.subs[i].items[j].stores
      ensures a in Addresses(mem)
    {
      assert kernel.subs[i].items[j].stores <= Addresses(mem);
    }
  }
}

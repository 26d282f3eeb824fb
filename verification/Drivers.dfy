/** The data movement of one kernel launch (libsplit/src/Driver.cpp and
    BufferManager::computeTransfers), on a list of buffers. A memory handle is named by its index. */
module Drivers {
  import opened Intervals
  import opened Coherence
  import opened Transfers
  import opened KernelSteps
  import opened MemoryHandles

  datatype DeviceBufferRegion = DeviceBufferRegion(m: nat, devId: nat, mList: seq<Interval>, undefined: bool)

  ghost function AsEntry(r: DeviceBufferRegion): Entry {
    Entry(r.m, r.devId, Bytes(r.mList), r.undefined)
  }

  ghost function AsTransfer(r: DeviceBufferRegion): Transfer {
    Transfer(r.m, r.devId, Bytes(r.mList))
  }

  ghost function AsEntries(l: seq<DeviceBufferRegion>): (r: seq<Entry>)
    ensures |r| == |l| && forall i :: 0 <= i < |l| ==> r[i] == AsEntry(l[i])
  {
    seq(|l|, i requires 0 <= i < |l| => AsEntry(l[i]))
  }

  ghost function AsTransfers(l: seq<DeviceBufferRegion>): (r: seq<Transfer>)
    ensures |r| == |l| && forall i :: 0 <= i < |l| ==> r[i] == AsTransfer(l[i])
  {
    seq(|l|, i requires 0 <= i < |l| => AsTransfer(l[i]))
  }

  lemma AsTransfersConcat(a: seq<DeviceBufferRegion>, b: seq<DeviceBufferRegion>)
    ensures AsTransfers(a + b) == AsTransfers(a) + AsTransfers(b)
    ensures |b| == 1 ==> AsTransfers(b) == [AsTransfer(b[0])]
  {
  }

  ghost predicate RegionsOk(l: seq<DeviceBufferRegion>, nbBuffers: nat, n: nat) {
    forall i :: 0 <= i < |l| ==> l[i].m < nbBuffers && l[i].devId < n && Canonical(l[i].mList)
  }

  lemma RegionsConcat(a: seq<DeviceBufferRegion>, b: seq<DeviceBufferRegion>, nbBuffers: nat, n: nat)
    requires RegionsOk(a, nbBuffers, n) && RegionsOk(b, nbBuffers, n)
    ensures RegionsOk(a + b, nbBuffers, n)
  {
  }

  // ---- The buffers of a launch ----

  ghost function Objects(handles: seq<MemoryHandle>): set<object> {
    set h, o | h in handles && o in h.Repr() :: o
  }

  ghost predicate ValidHandles(handles: seq<MemoryHandle>, n: nat)
    reads Objects(handles)
  {
    && (forall k :: 0 <= k < |handles| ==> handles[k].Valid() && handles[k].mNbBuffers == n)
    && (forall j, k :: 0 <= j < k < |handles| ==> handles[j].Repr() !! handles[k].Repr())
  }

  ghost function States(handles: seq<MemoryHandle>, n: nat): (r: Memory)
    reads Objects(handles)
    requires ValidHandles(handles, n)
    ensures |r| == |handles| && WellFormedMemory(r, n)
    ensures forall k :: 0 <= k < |r| ==> r[k] == handles[k].State() && |r[k].host| == handles[k].mSize
  {
    seq(|handles|, k requires 0 <= k < |handles| reads Objects(handles) requires handles[k].Valid() => handles[k].State())
  }

  // ---- Transfer planning ----

  // An undefined region becomes the whole (used) buffer.
  method RequiredList(h: MemoryHandle, r: DeviceBufferRegion) returns (region: ListInterval)
    requires h.Valid() && Canonical(r.mList)
    ensures fresh(region) && region.Valid()
    ensures region.Contents() == if r.undefined then Span(0, if h.isRO then h.mMaxUsedSize else h.mSize) else Bytes(r.mList)
  {
    region := new ListInterval();
    region.mList := r.mList;
    if r.undefined {
      region.ClearList();
      var cb := if h.isRO then h.mMaxUsedSize else h.mSize;
      SpanIsRange(0, cb);
      region.Add(Interval(0, cb - 1));
    }
  }

  // The region an entry of dataRequired ends up with: the whole (used) buffer when undefined,
  // restricted to the buffer size.
  method RestrictRequired(h: MemoryHandle, r: DeviceBufferRegion) returns (r': DeviceBufferRegion)
    requires h.Valid() && Canonical(r.mList)
    ensures r'.m == r.m && r'.devId == r.devId && r'.undefined == r.undefined && Canonical(r'.mList)
    ensures Bytes(r'.mList) == Required(h.State(), AsEntry(r))
  {
    var region := RequiredList(h, r);
    var bufferRegion := new ListInterval();
    SpanIsRange(0, h.mSize);
    bufferRegion.Add(Interval(0, h.mSize - 1));
    var restrictRegion := ListInterval.Intersection(region.mList, bufferRegion.mList);
    region.ClearList();
    region.MyUnion(restrictRegion.mList);
    r' := r.(mList := region.mList);
  }

  // `done` followed by what the devices from d2 on provide is everything the devices provide.
  ghost predicate Continues(b: Buffer, k: nat, d: nat, d2: nat, missing: set<nat>, done: seq<Transfer>,
                            all: (seq<Transfer>, set<nat>))
    requires d2 <= |b.devValid|
  {
    all.0 == done + Providers(b, k, d, d2, missing).0 && all.1 == Providers(b, k, d, d2, missing).1
  }

  // Taking what a device d2 other than the target provides.
  lemma ProvidersStep(b: Buffer, k: nat, d: nat, d2: nat, missing: set<nat>, done: seq<Transfer>,
                      all: (seq<Transfer>, set<nat>), found: seq<Transfer>, left: set<nat>)
    requires d2 < |b.devValid| && Continues(b, k, d, d2, missing, done, all)
    requires d2 != d && left == missing - b.devValid[d2] * missing
    requires found == if b.devValid[d2] * missing == {} then [] else [Transfer(k, d2, b.devValid[d2] * missing)]
    ensures if found != [] && left == {} then all == (done + found, {})
            else Continues(b, k, d, d2 + 1, left, done + found, all)
  {
    assert b.devValid[d2] * missing == {} ==> missing - b.devValid[d2] * missing == missing;
  }

  lemma SkipTarget(b: Buffer, k: nat, d: nat, missing: set<nat>, done: seq<Transfer>, all: (seq<Transfer>, set<nat>))
    requires d < |b.devValid| && Continues(b, k, d, d, missing, done, all)
    ensures Continues(b, k, d, d + 1, missing, done, all)
  {
  }

  lemma NoMoreProviders(b: Buffer, k: nat, d: nat, missing: set<nat>, done: seq<Transfer>, all: (seq<Transfer>, set<nat>))
    requires Continues(b, k, d, |b.devValid|, missing, done, all)
    ensures all == (done, missing)
  {
    assert done + [] == done;
  }

  ghost predicate Provides(l: ListInterval, valid: set<nat>)
    reads l
  {
    l.Valid() && l.Contents() == valid
  }

  // D2H transfers that bring the missing data to the host; `hostMissing` keeps what nobody has.
  method FindProviders(h: MemoryHandle, r: DeviceBufferRegion, hostMissing: ListInterval)
    returns (d2h: seq<DeviceBufferRegion>)
    requires h.Valid() && hostMissing.Valid() && r.devId < h.mNbBuffers
    requires hostMissing != h.hostValidData && hostMissing !in h.devicesValidData
    modifies hostMissing`mList
    ensures hostMissing.Valid()
    ensures (AsTransfers(d2h), hostMissing.Contents())
         == Providers(old(h.State()), r.m, r.devId, 0, old(hostMissing.Contents()))
    ensures RegionsOk(d2h, r.m + 1, h.mNbBuffers)
  {
    ghost var b, all := h.State(), Providers(h.State(), r.m, r.devId, 0, hostMissing.Contents());
    d2h := [];
    assert AsTransfers(d2h) + all.0 == all.0;
    var d2 := 0;
    while d2 < h.mNbBuffers
      invariant 0 <= d2 <= h.mNbBuffers && hostMissing.Valid()
      invariant forall e :: d2 <= e < h.mNbBuffers ==> Provides(h.devicesValidData[e], b.devValid[e])
      invariant RegionsOk(d2h, r.m + 1, h.mNbBuffers)
      invariant Continues(b, r.m, r.devId, d2, hostMissing.Contents(), AsTransfers(d2h), all)
    {
      var none;
      d2h, none := AskDevice(r, d2, h.devicesValidData[d2].mList, hostMissing, d2h, b, all);
      if none {
        return;
      }
      d2 := d2 + 1;
    }
    NoMoreProviders(b, r.m, r.devId, hostMissing.Contents(), AsTransfers(d2h), all);
  }

  // The turn of device d2, on which `valid` is valid; the target provides nothing.
  method AskDevice(r: DeviceBufferRegion, d2: nat, valid: seq<Interval>, hostMissing: ListInterval,
                   before: seq<DeviceBufferRegion>, ghost b: Buffer, ghost all: (seq<Transfer>, set<nat>))
    returns (d2h: seq<DeviceBufferRegion>, none: bool)
    requires d2 < |b.devValid| && Canonical(valid) && Bytes(valid) == b.devValid[d2]
    requires hostMissing.Valid() && RegionsOk(before, r.m + 1, |b.devValid|)
    requires Continues(b, r.m, r.devId, d2, hostMissing.Contents(), AsTransfers(before), all)
    modifies hostMissing`mList
    ensures hostMissing.Valid() && RegionsOk(d2h, r.m + 1, |b.devValid|)
    ensures if none then all == (AsTransfers(d2h), {}) && hostMissing.Contents() == {}
            else Continues(b, r.m, r.devId, d2 + 1, hostMissing.Contents(), AsTransfers(d2h), all)
  {
    ghost var missing := hostMissing.Contents();
    if d2 == r.devId {
      SkipTarget(b, r.m, d2, missing, AsTransfers(before), all);
      return before, false;
    }
    var found;
    found, none := TakeFrom(r.m, d2, valid, hostMissing);
    AsTransfersConcat(before, found);
    ProvidersStep(b, r.m, r.devId, d2, missing, AsTransfers(before), all, AsTransfers(found), hostMissing.Contents());
    d2h := before + found;
  }

  lemma SingleTransfer(r: DeviceBufferRegion)
    ensures AsTransfers([r]) == [AsTransfer(r)]
  {
  }

  // What device d2, on which `valid` is valid, provides; `none` tells that something was provided and nothing is
  // missing any more.
  method TakeFrom(m: nat, d2: nat, valid: seq<Interval>, hostMissing: ListInterval)
    returns (found: seq<DeviceBufferRegion>, none: bool)
    requires hostMissing.Valid() && Canonical(valid)
    modifies hostMissing`mList
    ensures hostMissing.Valid()
    ensures var taken := Bytes(valid) * old(hostMissing.Contents());
      && hostMissing.Contents() == old(hostMissing.Contents()) - taken
      && AsTransfers(found) == (if taken == {} then [] else [Transfer(m, d2, taken)])
      && (none <==> taken != {} && hostMissing.Contents() == {})
    ensures forall i :: 0 <= i < |found| ==> found[i].m == m && found[i].devId == d2 && Canonical(found[i].mList)
  {
    found, none := [], false;
    var intersection := ListInterval.Intersection(valid, hostMissing.mList);
    var total := intersection.Total();
    if total != 0 {
      found := [DeviceBufferRegion(m, d2, intersection.mList, false)];
      SingleTransfer(found[0]);
      hostMissing.Difference(intersection.mList);
      var left := hostMissing.Total();
      none := left == 0;
    }
  }

  // computeTransfers for one entry of dataRequired
  method PlanRegion(h: MemoryHandle, r: DeviceBufferRegion)
    returns (d2h: seq<DeviceBufferRegion>, h2d: seq<DeviceBufferRegion>, r': DeviceBufferRegion)
    requires h.Valid() && Canonical(r.mList) && r.devId < h.mNbBuffers
    ensures Plan(AsTransfers(d2h), AsTransfers(h2d)) == PlanEntry(h.State(), AsEntry(r))
    ensures RegionsOk(d2h, r.m + 1, h.mNbBuffers) && RegionsOk(h2d, r.m + 1, h.mNbBuffers)
    ensures r'.m == r.m && r'.devId == r.devId && Bytes(r'.mList) == Required(h.State(), AsEntry(r))
  {
    d2h, h2d := [], [];
    r' := RestrictRequired(h, r);
    ghost var b, e := h.State(), AsEntry(r);

    var deviceMissing := ListInterval.DifferenceOf(r'.mList, r'.undefined, h.devicesValidData[r.devId].mList);
    ghost var onDevice := deviceMissing.Contents();
    assert onDevice == Required(b, e) - b.devValid[e.dev];
    var total := deviceMissing.Total();
    if total == 0 {
      return;
    }

    d2h, h2d := PlanMissing(h, r, deviceMissing);
  }

  // The data missing on the device comes from the host, after what is missing there has come from other devices.
  method PlanMissing(h: MemoryHandle, r: DeviceBufferRegion, deviceMissing: ListInterval)
    returns (d2h: seq<DeviceBufferRegion>, h2d: seq<DeviceBufferRegion>)
    requires h.Valid() && deviceMissing.Valid() && r.devId < h.mNbBuffers && deviceMissing.Contents() != {}
    requires deviceMissing != h.hostValidData && deviceMissing !in h.devicesValidData
    requires deviceMissing.Contents() == Required(h.State(), AsEntry(r)) - h.State().devValid[r.devId]
    modifies deviceMissing`mList
    ensures Plan(AsTransfers(d2h), AsTransfers(h2d)) == PlanEntry(old(h.State()), AsEntry(r))
    ensures RegionsOk(d2h, r.m + 1, h.mNbBuffers) && RegionsOk(h2d, r.m + 1, h.mNbBuffers)
  {
    d2h, h2d := [], [];
    ghost var b, onDevice := h.State(), deviceMissing.Contents();

    var hostMissing := ListInterval.DifferenceOf(deviceMissing.mList, deviceMissing.undefined, h.hostValidData.mList);
    ghost var onHost := hostMissing.Contents();
    assert onHost == onDevice - b.hostValid;
    var total := hostMissing.Total();
    if total == 0 {
      HostHasAll(b, AsEntry(r), onDevice);
      h2d := OneTransfer(r, deviceMissing);
      return;
    }
    d2h, h2d := PlanFromDevices(h, r, hostMissing, deviceMissing);
    PlannedEntry(b, AsEntry(r), onDevice, onHost, AsTransfers(d2h), AsTransfers(h2d));
  }

  // D2H transfers, and the H2D transfer of what is then on the host.
  method PlanFromDevices(h: MemoryHandle, r: DeviceBufferRegion, hostMissing: ListInterval, deviceMissing: ListInterval)
    returns (d2h: seq<DeviceBufferRegion>, h2d: seq<DeviceBufferRegion>)
    requires h.Valid() && hostMissing.Valid() && deviceMissing.Valid() && r.devId < h.mNbBuffers
    requires hostMissing != h.hostValidData && hostMissing !in h.devicesValidData && hostMissing != deviceMissing
    requires deviceMissing != h.hostValidData && deviceMissing !in h.devicesValidData
    modifies hostMissing`mList, deviceMissing`mList
    ensures var (l, rest) := Providers(old(h.State()), r.m, r.devId, 0, old(hostMissing.Contents()));
      && AsTransfers(d2h) == l
      && AsTransfers(h2d) == Send(r.m, r.devId, old(deviceMissing.Contents()) - rest)
    ensures RegionsOk(d2h, r.m + 1, h.mNbBuffers) && RegionsOk(h2d, r.m + 1, h.mNbBuffers)
  {
    d2h := FindProviders(h, r, hostMissing);
    // What FindProviders leaves in hostMissing is on no host and no other device.
    deviceMissing.Difference(hostMissing.mList);
    h2d := OneTransfer(r, deviceMissing);
  }

  ghost function Send(k: nat, d: nat, region: set<nat>): seq<Transfer> {
    if region == {} then [] else [Transfer(k, d, region)]
  }

  lemma PlannedEntry(b: Buffer, e: Entry, onDevice: set<nat>, onHost: set<nat>, d2h: seq<Transfer>, h2d: seq<Transfer>)
    requires e.dev < |b.devValid|
    requires onDevice == Required(b, e) - b.devValid[e.dev] && onHost == onDevice - b.hostValid && onHost != {}
    requires var (l, rest) := Providers(b, e.buf, e.dev, 0, onHost); d2h == l && h2d == Send(e.buf, e.dev, onDevice - rest)
    ensures PlanEntry(b, e) == Plan(d2h, h2d)
  {
    assert onDevice != {};
  }

  lemma HostHasAll(b: Buffer, e: Entry, onDevice: set<nat>)
    requires e.dev < |b.devValid|
    requires onDevice == Required(b, e) - b.devValid[e.dev] && onDevice - b.hostValid == {} && onDevice != {}
    ensures PlanEntry(b, e) == Plan([], Send(e.buf, e.dev, onDevice))
  {
  }

  // The H2D list of one entry, empty when there is nothing to send.
  method OneTransfer(r: DeviceBufferRegion, missing: ListInterval) returns (h2d: seq<DeviceBufferRegion>)
    requires missing.Valid()
    ensures AsTransfers(h2d) == Send(r.m, r.devId, missing.Contents())
    ensures forall i :: 0 <= i < |h2d| ==> h2d[i].m == r.m && h2d[i].devId == r.devId && Canonical(h2d[i].mList)
  {
    h2d := [];
    var total := missing.Total();
    if total > 0 {
      h2d := [DeviceBufferRegion(r.m, r.devId, missing.mList, missing.undefined)];
      AsTransfersConcat([], h2d);
    }
  }

  // What the region r of a required list is replaced by.
  ghost predicate RestrictedTo(mem: Memory, r: DeviceBufferRegion, r': DeviceBufferRegion) {
    r.m < |mem| && r'.m == r.m && r'.devId == r.devId && Bytes(r'.mList) == Required(mem[r.m], AsEntry(r))
  }

  ghost predicate AllRestricted(mem: Memory, l: seq<DeviceBufferRegion>, l': seq<DeviceBufferRegion>) {
    |l'| <= |l| && forall i :: 0 <= i < |l'| ==> RestrictedTo(mem, l[i], l'[i])
  }

  lemma AlsoRestricted(mem: Memory, l: seq<DeviceBufferRegion>, l': seq<DeviceBufferRegion>, r: DeviceBufferRegion)
    requires AllRestricted(mem, l, l') && |l'| < |l| && RestrictedTo(mem, l[|l'|], r)
    ensures AllRestricted(mem, l, l' + [r])
  {
  }

  // One iteration of the planning loop.
  method AppendPlan(handles: seq<MemoryHandle>, n: nat, r: DeviceBufferRegion,
                    d2h: seq<DeviceBufferRegion>, h2d: seq<DeviceBufferRegion>)
    returns (d2h': seq<DeviceBufferRegion>, h2d': seq<DeviceBufferRegion>, r': DeviceBufferRegion)
    requires ValidHandles(handles, n) && r.m < |handles| && r.devId < n && Canonical(r.mList)
    requires RegionsOk(d2h, |handles|, n) && RegionsOk(h2d, |handles|, n)
    ensures ValidHandles(handles, n) && States(handles, n) == old(States(handles, n))
    ensures AsTransfers(d2h') == AsTransfers(d2h) + PlanEntry(old(States(handles, n))[r.m], AsEntry(r)).d2h
    ensures AsTransfers(h2d') == AsTransfers(h2d) + PlanEntry(old(States(handles, n))[r.m], AsEntry(r)).h2d
    ensures RegionsOk(d2h', |handles|, n) && RegionsOk(h2d', |handles|, n)
    ensures RestrictedTo(old(States(handles, n)), r, r')
  {
    var p, q;
    p, q, r' := PlanRegion(handles[r.m], r);
    AsTransfersConcat(d2h, p);
    AsTransfersConcat(h2d, q);
    d2h', h2d' := d2h + p, h2d + q;
  }

  lemma PlanAllSnoc(mem: Memory, n: nat, l: seq<Entry>, i: nat)
    requires WellFormedMemory(mem, n) && EntriesInRange(mem, n, l) && i < |l|
    ensures EntriesInRange(mem, n, l[..i]) && EntriesInRange(mem, n, l[..i + 1])
    ensures var p, q := PlanAll(mem, n, l[..i]), PlanEntry(mem[l[i].buf], l[i]);
      PlanAll(mem, n, l[..i + 1]) == Plan(p.d2h + q.d2h, p.h2d + q.h2d)
  {
    assert l[..i + 1][..i] == l[..i];
  }

  /** computeTransfers without atomic and merge regions. */
  method ComputeTransfers(handles: seq<MemoryHandle>, n: nat, dataRequired: seq<DeviceBufferRegion>)
    returns (d2h: seq<DeviceBufferRegion>, h2d: seq<DeviceBufferRegion>, restricted: seq<DeviceBufferRegion>)
    requires ValidHandles(handles, n) && RegionsOk(dataRequired, |handles|, n)
    ensures ValidHandles(handles, n) && States(handles, n) == old(States(handles, n))
    ensures Plan(AsTransfers(d2h), AsTransfers(h2d)) == PlanAll(old(States(handles, n)), n, AsEntries(dataRequired))
    ensures RegionsOk(d2h, |handles|, n) && RegionsOk(h2d, |handles|, n)
    ensures |restricted| == |dataRequired| && AllRestricted(old(States(handles, n)), dataRequired, restricted)
  {
    ghost var mem, entries := States(handles, n), AsEntries(dataRequired);
    d2h, h2d, restricted := [], [], [];
    var i := 0;
    while i < |dataRequired|
      invariant 0 <= i <= |dataRequired|
      invariant ValidHandles(handles, n) && States(handles, n) == mem
      invariant RegionsOk(d2h, |handles|, n) && RegionsOk(h2d, |handles|, n)
      invariant Plan(AsTransfers(d2h), AsTransfers(h2d)) == PlanAll(mem, n, entries[..i])
      invariant |restricted| == i && AllRestricted(mem, dataRequired, restricted)
    {
      var r := dataRequired[i];
      PlanAllSnoc(mem, n, entries, i);
      d2h, h2d, r := AppendPlan(handles, n, r, d2h, h2d);
      AlsoRestricted(mem, dataRequired, restricted, r);
      restricted := restricted + [r];
      i := i + 1;
    }
    assert entries[..i] == entries;
  }

  // ---- Transfers ----

  lemma RunD2HSnoc(mem: Memory, n: nat, l: seq<Transfer>, i: nat)
    requires WellFormedMemory(mem, n) && TransfersInRange(mem, n, l) && i < |l|
    ensures TransfersInRange(mem, n, l[..i]) && TransfersInRange(mem, n, l[..i + 1])
    ensures var m := RunD2H(mem, n, l[..i]);
      RunD2H(mem, n, l[..i + 1]) == m[l[i].buf := DeviceToHost(m[l[i].buf], l[i].dev, l[i].region)]
  {
    assert l[..i + 1][..i] == l[..i];
  }

  lemma RunH2DSnoc(mem: Memory, n: nat, l: seq<Transfer>, i: nat)
    requires WellFormedMemory(mem, n) && TransfersInRange(mem, n, l) && i < |l|
    ensures TransfersInRange(mem, n, l[..i]) && TransfersInRange(mem, n, l[..i + 1])
    ensures var m := RunH2D(mem, n, l[..i]);
      RunH2D(mem, n, l[..i + 1]) == m[l[i].buf := HostToDevice(m[l[i].buf], l[i].dev, l[i].region)]
  {
    assert l[..i + 1][..i] == l[..i];
  }

  // One entry of a transfer list.
  method StartD2H(handles: seq<MemoryHandle>, n: nat, k: nat, d: nat, region: seq<Interval>)
    requires ValidHandles(handles, n) && k < |handles| && d < n && Canonical(region)
    requires Bytes(region) <= Span(0, handles[k].mSize)
    modifies Objects(handles)
    ensures ValidHandles(handles, n)
    ensures States(handles, n) == old(States(handles, n))[k := DeviceToHost(old(States(handles, n))[k], d, Bytes(region))]
  {
    handles[k].TransferD2H(d, region);
    forall j | 0 <= j < |handles| && j != k
      ensures handles[j].Valid() && handles[j].State() == old(handles[j].State())
    {
      assert handles[j].Repr() !! handles[k].Repr();
    }
  }

  method StartH2D(handles: seq<MemoryHandle>, n: nat, k: nat, d: nat, region: seq<Interval>)
    requires ValidHandles(handles, n) && k < |handles| && d < n && Canonical(region)
    requires Bytes(region) <= Span(0, handles[k].mSize)
    modifies Objects(handles)
    ensures ValidHandles(handles, n)
    ensures States(handles, n) == old(States(handles, n))[k := HostToDevice(old(States(handles, n))[k], d, Bytes(region))]
  {
    handles[k].TransferH2D(d, region);
    forall j | 0 <= j < |handles| && j != k
      ensures handles[j].Valid() && handles[j].State() == old(handles[j].State())
    {
      assert handles[j].Repr() !! handles[k].Repr();
    }
  }

  method StartD2HTransfers(handles: seq<MemoryHandle>, n: nat, transferList: seq<DeviceBufferRegion>)
    requires ValidHandles(handles, n) && RegionsOk(transferList, |handles|, n)
    requires TransfersInRange(States(handles, n), n, AsTransfers(transferList))
    modifies Objects(handles)
    ensures ValidHandles(handles, n)
    ensures States(handles, n) == RunD2H(old(States(handles, n)), n, AsTransfers(transferList))
  {
    ghost var mem, l := States(handles, n), AsTransfers(transferList);
    var i := 0;
    while i < |transferList|
      invariant 0 <= i <= |transferList| && ValidHandles(handles, n)
      invariant TransfersInRange(mem, n, l[..i])
      invariant States(handles, n) == RunD2H(mem, n, l[..i])
    {
      var t := transferList[i];
      RunD2HSnoc(mem, n, l, i);
      StartD2H(handles, n, t.m, t.devId, t.mList);
      i := i + 1;
    }
    assert l[..i] == l;
  }

  method StartH2DTransfers(handles: seq<MemoryHandle>, n: nat, transferList: seq<DeviceBufferRegion>)
    requires ValidHandles(handles, n) && RegionsOk(transferList, |handles|, n)
    requires TransfersInRange(States(handles, n), n, AsTransfers(transferList))
    modifies Objects(handles)
    ensures ValidHandles(handles, n)
    ensures States(handles, n) == RunH2D(old(States(handles, n)), n, AsTransfers(transferList))
  {
    ghost var mem, l := States(handles, n), AsTransfers(transferList);
    var i := 0;
    while i < |transferList|
      invariant 0 <= i <= |transferList| && ValidHandles(handles, n)
      invariant TransfersInRange(mem, n, l[..i])
      invariant States(handles, n) == RunH2D(mem, n, l[..i])
    {
      var t := transferList[i];
      RunH2DSnoc(mem, n, l, i);
      StartH2D(handles, n, t.m, t.devId, t.mList);
      i := i + 1;
    }
    assert l[..i] == l;
  }

  // ---- Sub-kernels ----

  function DeviceImage(bufs: seq<seq<Byte>>): (r: Content)
  {
    map k: nat, x: nat | k < |bufs| && x < |bufs[k]| && InSpan(0, |bufs[k]|, x) :: Addr(k, x) := bufs[k][x]
  }

  lemma DeviceImageIs(bufs: seq<seq<Byte>>, mem: Memory, n: nat, d: nat)
    requires WellFormedMemory(mem, n) && d < n
    requires |bufs| == |mem| && forall k :: 0 <= k < |bufs| ==> bufs[k] == mem[k].dev[d]
    ensures DeviceImage(bufs) == Image(mem, n, d)
  {
  }

  // enqueueExec: the device runs the work-items of the sub-kernel on its own buffers.
  method EnqueueExec(handles: seq<MemoryHandle>, n: nat, s: SubKernel)
    requires ValidHandles(handles, n) && s.dev < n
    modifies Objects(handles)
    ensures ValidHandles(handles, n)
    ensures States(handles, n) == RunSubKernel(old(States(handles, n)), n, s)
  {
    ghost var mem := States(handles, n);
    var bufs := ReadBuffers(handles, n, s.dev);
    var image := DeviceImage(bufs);
    DeviceImageIs(bufs, mem, n, s.dev);
    RunItemsGrows(s.items, image);
    StoreBuffers(handles, n, s.dev, RunItems(s.items, image));
  }

  method ReadBuffers(handles: seq<MemoryHandle>, n: nat, d: nat) returns (bufs: seq<seq<Byte>>)
    requires ValidHandles(handles, n) && d < n
    ensures |bufs| == |handles| && forall k :: 0 <= k < |bufs| ==> bufs[k] == handles[k].mBuffers[d]
  {
    bufs := [];
    while |bufs| < |handles|
      invariant |bufs| <= |handles|
      invariant forall k :: 0 <= k < |bufs| ==> bufs[k] == handles[k].mBuffers[d]
    {
      bufs := bufs + [handles[|bufs|].mBuffers[d]];
    }
  }

  method StoreBuffers(handles: seq<MemoryHandle>, n: nat, d: nat, c: Content)
    requires ValidHandles(handles, n) && d < n
    requires Addresses(States(handles, n)) <= c.Keys
    modifies Objects(handles)
    ensures ValidHandles(handles, n)
    ensures States(handles, n) == StoreImage(old(States(handles, n)), n, d, c)
  {
    ghost var mem := States(handles, n);
    ghost var target := StoreImage(mem, n, d, c);
    var k := 0;
    while k < |handles|
      invariant 0 <= k <= |handles| && ValidHandles(handles, n)
      invariant forall j :: 0 <= j < k ==> handles[j].State() == target[j]
      invariant forall j :: k <= j < |handles| ==> handles[j].State() == mem[j]
    {
      assert handles[k] in handles[k].Repr() && handles[k] in handles;
      StoreBuffer(handles, n, d, c, k, mem);
      k := k + 1;
    }
  }

  method StoreBuffer(handles: seq<MemoryHandle>, n: nat, d: nat, c: Content, k: nat, ghost mem: Memory)
    requires ValidHandles(handles, n) && d < n && k < |handles| && |mem| == |handles|
    requires WellFormedMemory(mem, n) && Addresses(mem) <= c.Keys
    requires handles[k].State() == mem[k]
    modifies handles[k]
    ensures ValidHandles(handles, n)
    ensures forall j :: 0 <= j < |handles| && j != k ==> handles[j].State() == old(handles[j].State())
    ensures handles[k].State() == StoreImage(mem, n, d, c)[k]
  {
    var h := handles[k];
    assert forall x: nat :: x < h.mSize ==> InSpan(0, |mem[k].host|, x) && Addr(k, x) in Addresses(mem);
    h.mBuffers := h.mBuffers[d := seq(h.mSize, x requires 0 <= x < h.mSize && Addr(k, x) in c => c[Addr(k, x)])];
    ghost var stored := StoreImage(mem, n, d, c)[k];
    assert WellFormed(stored) && |stored.dev| == n && |stored.dev[d]| == h.mSize;
    assert h.mBuffers[d] == stored.dev[d];
    assert h.mBuffers == stored.dev;
  }

  method InvalidateElsewhere(h: MemoryHandle, dev: nat, region: seq<Interval>)
    requires h.Valid() && dev < h.mNbBuffers && Canonical(region)
    modifies h.Repr()
    ensures h.Valid() && h.State() == Invalidate(old(h.State()), dev, Bytes(region))
  {
    h.hostValidData.Difference(region);
    RemoveElsewhere(h, dev, region);
    assert h.DevValid() == Invalidate(old(h.State()), dev, Bytes(region)).devValid;
  }

  // The loop over the other devices.
  method RemoveElsewhere(h: MemoryHandle, dev: nat, region: seq<Interval>)
    requires h.Valid() && Canonical(region)
    modifies h.devicesValidData
    ensures h.Valid()
    ensures forall d :: 0 <= d < h.mNbBuffers ==>
      h.devicesValidData[d].Contents()
      == if d == dev then old(h.devicesValidData[d].Contents()) else old(h.devicesValidData[d].Contents()) - Bytes(region)
  {
    var j := 0;
    while j < h.mNbBuffers
      invariant 0 <= j <= h.mNbBuffers && h.Valid()
      invariant forall d :: 0 <= d < j ==>
        h.devicesValidData[d].Contents()
        == if d == dev then old(h.devicesValidData[d].Contents()) else old(h.devicesValidData[d].Contents()) - Bytes(region)
      invariant forall d :: j <= d < h.mNbBuffers ==>
        h.devicesValidData[d].Contents() == old(h.devicesValidData[d].Contents())
    {
      if j != dev {
        h.devicesValidData[j].Difference(region);
      }
      j := j + 1;
    }
  }

  method ClaimOnDevice(h: MemoryHandle, dev: nat, region: seq<Interval>)
    requires h.Valid() && dev < h.mNbBuffers && Canonical(region)
    modifies h.Repr()
    ensures h.Valid() && h.State() == Claim(old(h.State()), dev, Bytes(region))
  {
    h.devicesValidData[dev].MyUnion(region);
    assert h.DevValid() == Claim(old(h.State()), dev, Bytes(region)).devValid;
  }

  lemma InvalidateSnoc(mem: Memory, l: seq<Transfer>, i: nat)
    requires i < |l| && forall j :: 0 <= j < |l| ==> l[j].buf < |mem|
    ensures var m := InvalidateAll(mem, l[..i]);
      InvalidateAll(mem, l[..i + 1]) == m[l[i].buf := Invalidate(m[l[i].buf], l[i].dev, l[i].region)]
  {
    assert l[..i + 1][..i] == l[..i];
  }

  lemma ClaimSnoc(mem: Memory, n: nat, l: seq<Transfer>, i: nat)
    requires i < |l| && forall j :: 0 <= j < |l| ==> l[j].buf < |mem| && l[j].dev < n
    requires forall k :: 0 <= k < |mem| ==> |mem[k].devValid| == n
    ensures var m := ClaimAll(mem, n, l[..i]);
      ClaimAll(mem, n, l[..i + 1]) == m[l[i].buf := Claim(m[l[i].buf], l[i].dev, l[i].region)]
  {
    assert l[..i + 1][..i] == l[..i];
  }

  method InvalidateEntry(handles: seq<MemoryHandle>, n: nat, k: nat, d: nat, region: seq<Interval>)
    requires ValidHandles(handles, n) && k < |handles| && d < n && Canonical(region)
    modifies Objects(handles)
    ensures ValidHandles(handles, n)
    ensures States(handles, n) == old(States(handles, n))[k := Invalidate(old(States(handles, n))[k], d, Bytes(region))]
  {
    InvalidateElsewhere(handles[k], d, region);
    forall j | 0 <= j < |handles| && j != k
      ensures handles[j].Valid() && handles[j].State() == old(handles[j].State())
    {
      assert handles[j].Repr() !! handles[k].Repr();
    }
  }

  method ClaimEntry(handles: seq<MemoryHandle>, n: nat, k: nat, d: nat, region: seq<Interval>)
    requires ValidHandles(handles, n) && k < |handles| && d < n && Canonical(region)
    modifies Objects(handles)
    ensures ValidHandles(handles, n)
    ensures States(handles, n) == old(States(handles, n))[k := Claim(old(States(handles, n))[k], d, Bytes(region))]
  {
    ClaimOnDevice(handles[k], d, region);
    forall j | 0 <= j < |handles| && j != k
      ensures handles[j].Valid() && handles[j].State() == old(handles[j].State())
    {
      assert handles[j].Repr() !! handles[k].Repr();
    }
  }

  method InvalidateEntries(handles: seq<MemoryHandle>, n: nat, dataWritten: seq<DeviceBufferRegion>)
    requires ValidHandles(handles, n) && RegionsOk(dataWritten, |handles|, n)
    modifies Objects(handles)
    ensures ValidHandles(handles, n)
    ensures States(handles, n) == InvalidateAll(old(States(handles, n)), AsTransfers(dataWritten))
  {
    ghost var mem, l := States(handles, n), AsTransfers(dataWritten);
    var i := 0;
    while i < |dataWritten|
      invariant 0 <= i <= |dataWritten| && ValidHandles(handles, n)
      invariant States(handles, n) == InvalidateAll(mem, l[..i])
    {
      InvalidateSnoc(mem, l, i);
      InvalidateEntry(handles, n, dataWritten[i].m, dataWritten[i].devId, dataWritten[i].mList);
      i := i + 1;
    }
    assert l[..i] == l;
  }

  method ClaimEntries(handles: seq<MemoryHandle>, n: nat, dataWritten: seq<DeviceBufferRegion>)
    requires ValidHandles(handles, n) && RegionsOk(dataWritten, |handles|, n)
    modifies Objects(handles)
    ensures ValidHandles(handles, n)
    ensures States(handles, n) == ClaimAll(old(States(handles, n)), n, AsTransfers(dataWritten))
  {
    ghost var mem, l := States(handles, n), AsTransfers(dataWritten);
    var i := 0;
    while i < |dataWritten|
      invariant 0 <= i <= |dataWritten| && ValidHandles(handles, n)
      invariant States(handles, n) == ClaimAll(mem, n, l[..i])
    {
      ClaimSnoc(mem, n, l, i);
      ClaimEntry(handles, n, dataWritten[i].m, dataWritten[i].devId, dataWritten[i].mList);
      i := i + 1;
    }
    assert l[..i] == l;
  }

  method EnqueueExecs(handles: seq<MemoryHandle>, n: nat, subs: seq<SubKernel>)
    requires ValidHandles(handles, n) && forall i :: 0 <= i < |subs| ==> subs[i].dev < n
    modifies Objects(handles)
    ensures ValidHandles(handles, n)
    ensures States(handles, n) == RunSubKernels(old(States(handles, n)), n, subs)
  {
    ghost var mem := States(handles, n);
    assert subs[..0] == [];
    var i := 0;
    while i < |subs|
      invariant 0 <= i <= |subs| && ValidHandles(handles, n)
      invariant States(handles, n) == RunSubKernels(mem, n, subs[..i])
    {
      assert subs[..i + 1][..i] == subs[..i];
      EnqueueExec(handles, n, subs[i]);
      i := i + 1;
    }
    assert subs[..i] == subs;
  }

  method EnqueueSubKernels(handles: seq<MemoryHandle>, n: nat, subs: seq<SubKernel>, dataWritten: seq<DeviceBufferRegion>)
    requires ValidHandles(handles, n) && RegionsOk(dataWritten, |handles|, n)
    requires forall i :: 0 <= i < |subs| ==> subs[i].dev < n
    modifies Objects(handles)
    ensures ValidHandles(handles, n)
    ensures States(handles, n) == UpdateValidity(RunSubKernels(old(States(handles, n)), n, subs), n, AsTransfers(dataWritten))
  {
    EnqueueExecs(handles, n, subs);
    InvalidateEntries(handles, n, dataWritten);
    ClaimEntries(handles, n, dataWritten);
  }

  // An undefined written region stands for the whole buffer.
  method ResolveEntry(h: MemoryHandle, r: DeviceBufferRegion) returns (r': DeviceBufferRegion)
    requires h.Valid() && Canonical(r.mList)
    ensures Canonical(r'.mList) && AsTransfer(r') == Transfer(r.m, r.devId, Claimed(h.State(), AsEntry(r)))
  {
    r' := r;
    if r.undefined {
      var inter := Interval(0, h.mSize - 1);
      SpanIsRange(0, h.mSize);
      BytesSingle(inter);
      r' := r.(mList := [inter]);
    }
  }

  // An undefined written region stands for the whole buffer.
  method ResolveWritten(handles: seq<MemoryHandle>, n: nat, dataWritten: seq<DeviceBufferRegion>)
    returns (resolved: seq<DeviceBufferRegion>)
    requires ValidHandles(handles, n) && RegionsOk(dataWritten, |handles|, n)
    ensures ValidHandles(handles, n) && States(handles, n) == old(States(handles, n))
    ensures RegionsOk(resolved, |handles|, n)
    ensures AsTransfers(resolved) == Claims(States(handles, n), AsEntries(dataWritten))
  {
    resolved := [];
    var i := 0;
    while i < |dataWritten|
      invariant 0 <= i <= |dataWritten| == |AsEntries(dataWritten)| && |resolved| == i
      invariant RegionsOk(resolved, |handles|, n)
      invariant forall j :: 0 <= j < i ==>
        AsTransfer(resolved[j]) == Claims(States(handles, n), AsEntries(dataWritten))[j]
    {
      var r := ResolveEntry(handles[dataWritten[i].m], dataWritten[i]);
      resolved := resolved + [r];
      i := i + 1;
    }
  }

  ghost function AsKernel(subs: seq<SubKernel>, dataRequired: seq<DeviceBufferRegion>,
                          dataWritten: seq<DeviceBufferRegion>): Kernel {
    Kernel(subs, AsEntries(dataRequired), AsEntries(dataWritten))
  }

  /** enqueueNDRangeKernel from the regions on: plan, D2H, H2D, sub-kernels, validity update. */
  method LaunchKernel(handles: seq<MemoryHandle>, n: nat, subs: seq<SubKernel>,
                      dataRequired: seq<DeviceBufferRegion>, dataWritten: seq<DeviceBufferRegion>)
    requires ValidHandles(handles, n)
    requires RegionsOk(dataRequired, |handles|, n) && RegionsOk(dataWritten, |handles|, n)
    requires forall i :: 0 <= i < |subs| ==> subs[i].dev < n
    modifies Objects(handles)
    ensures ValidHandles(handles, n)
    ensures States(handles, n) == Launch(old(States(handles, n)), n, AsKernel(subs, dataRequired, dataWritten))
  {
    ghost var mem, kernel := States(handles, n), AsKernel(subs, dataRequired, dataWritten);
    assert KernelInRange(mem, n, kernel);
    PlanAllCorrect(mem, n, kernel.required);
    var written := ResolveWritten(handles, n, dataWritten);
    var d2h, h2d, _ := ComputeTransfers(handles, n, dataRequired);
    assert AsTransfers(written) == Claims(mem, kernel.written);
    StartD2HTransfers(handles, n, d2h);
    StartH2DTransfers(handles, n, h2d);
    EnqueueSubKernels(handles, n, subs, written);
  }
}

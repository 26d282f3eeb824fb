/** Transfer planning (BufferManager::computeTransfers) and the D2H and H2D transfers
    (Driver::startD2HTransfers, Driver::startH2DTransfers) as functions on values.
    Transfers take effect in queue order. */
module Transfers {
  import opened Coherence

  // One entry of a region list: buffer, device, bytes; an undefined region stands for the whole buffer.
  datatype Entry = Entry(buf: nat, dev: nat, region: set<nat>, undefined: bool)

  datatype Transfer = Transfer(buf: nat, dev: nat, region: set<nat>)

  // The bytes an entry of dataRequired asks for, restricted to the buffer.
  ghost function Required(b: Buffer, e: Entry): set<nat> {
    (if e.undefined then Span(0, if b.isRO then b.maxUsed else |b.host|) else e.region) * Span(0, |b.host|)
  }

  // The bytes an entry of dataWritten claims.
  ghost function Claimed(b: Buffer, e: Entry): set<nat> {
    if e.undefined then Span(0, |b.host|) else e.region
  }

  // Which devices provide the bytes missing on the host; `rest` is provided by nobody.
  ghost function Providers(b: Buffer, k: nat, d: nat, d2: nat, missing: set<nat>): (r: (seq<Transfer>, set<nat>))
    requires d2 <= |b.devValid|
    decreases |b.devValid| - d2
  {
    if d2 == |b.devValid| then ([], missing)
    else if d2 == d || b.devValid[d2] * missing == {} then Providers(b, k, d, d2 + 1, missing)
    else
      var found := b.devValid[d2] * missing;
      if missing - found == {} then ([Transfer(k, d2, found)], {})
      else
        var (l, rest) := Providers(b, k, d, d2 + 1, missing - found);
        ([Transfer(k, d2, found)] + l, rest)
  }

  datatype Plan = Plan(d2h: seq<Transfer>, h2d: seq<Transfer>)

  ghost function PlanEntry(b: Buffer, e: Entry): Plan
    requires e.dev < |b.devValid|
  {
    var deviceMissing := Required(b, e) - b.devValid[e.dev];
    var hostMissing := deviceMissing - b.hostValid;
    if deviceMissing == {} then Plan([], [])
    else if hostMissing == {} then Plan([], [Transfer(e.buf, e.dev, deviceMissing)])
    else
      var (d2h, rest) := Providers(b, e.buf, e.dev, 0, hostMissing);
      Plan(d2h, if deviceMissing - rest == {} then [] else [Transfer(e.buf, e.dev, deviceMissing - rest)])
  }

  ghost predicate EntriesInRange(mem: Memory, nbDevices: nat, l: seq<Entry>) {
    forall i :: 0 <= i < |l| ==> l[i].buf < |mem| && l[i].dev < nbDevices
  }

  // Every entry is planned from the same snapshot of the validity sets.
  ghost function PlanAll(mem: Memory, n: nat, l: seq<Entry>): Plan
    requires WellFormedMemory(mem, n) && EntriesInRange(mem, n, l)
  {
    if l == [] then Plan([], [])
    else
      var last := l[|l| - 1];
      var p := PlanAll(mem, n, l[..|l| - 1]);
      var q := PlanEntry(mem[last.buf], last);
      Plan(p.d2h + q.d2h, p.h2d + q.h2d)
  }

  // ---- The transfers ----

  ghost function Merge(s: seq<Byte>, region: set<nat>, from: seq<Byte>): seq<Byte>
    requires |s| == |from|
  {
    seq(|s|, x requires 0 <= x < |s| => if x in region then from[x] else s[x])
  }

  ghost function DeviceToHost(b: Buffer, d: nat, region: set<nat>): Buffer
    requires WellFormed(b) && d < |b.dev|
  {
    b.(host := Merge(b.host, region, b.dev[d]), hostValid := b.hostValid + region)
  }

  ghost function HostToDevice(b: Buffer, d: nat, region: set<nat>): Buffer
    requires WellFormed(b) && d < |b.dev|
  {
    b.(dev := b.dev[d := Merge(b.dev[d], region, b.host)], devValid := b.devValid[d := b.devValid[d] + region])
  }

  ghost predicate TransfersInRange(mem: Memory, n: nat, l: seq<Transfer>) {
    forall i :: 0 <= i < |l| ==> l[i].buf < |mem| && l[i].dev < n && l[i].region <= Span(0, |mem[l[i].buf].host|)
  }

  // Same buffers, same sizes, same flags.
  ghost predicate SameShape(m1: Memory, m2: Memory, n: nat) {
    && WellFormedMemory(m1, n) && WellFormedMemory(m2, n) && |m1| == |m2|
    && forall k :: 0 <= k < |m1| ==> |m1[k].host| == |m2[k].host| && m1[k].isRO == m2[k].isRO && m1[k].maxUsed == m2[k].maxUsed
  }

  ghost function RunD2H(mem: Memory, n: nat, l: seq<Transfer>): (r: Memory)
    requires WellFormedMemory(mem, n) && TransfersInRange(mem, n, l)
    ensures SameShape(mem, r, n)
  {
    if l == [] then mem
    else
      var t := l[|l| - 1];
      var m := RunD2H(mem, n, l[..|l| - 1]);
      m[t.buf := DeviceToHost(m[t.buf], t.dev, t.region)]
  }

  ghost function RunH2D(mem: Memory, n: nat, l: seq<Transfer>): (r: Memory)
    requires WellFormedMemory(mem, n) && TransfersInRange(mem, n, l)
    ensures SameShape(mem, r, n)
  {
    if l == [] then mem
    else
      var t := l[|l| - 1];
      var m := RunH2D(mem, n, l[..|l| - 1]);
      m[t.buf := HostToDevice(m[t.buf], t.dev, t.region)]
  }

  // ---- Validity only ever grows with genuine copies ----

  // m2 holds at least the valid bytes of m1, and the devices' data is the same.
  ghost predicate HostGrown(m1: Memory, m2: Memory, n: nat) {
    && SameShape(m1, m2, n)
    && forall k :: 0 <= k < |m1| ==> m1[k].hostValid <= m2[k].hostValid && m1[k].devValid == m2[k].devValid && m1[k].dev == m2[k].dev
  }

  ghost predicate DeviceGrown(m1: Memory, m2: Memory, n: nat) {
    && SameShape(m1, m2, n)
    && (forall k :: 0 <= k < |m1| ==> m1[k].hostValid == m2[k].hostValid && m1[k].host == m2[k].host)
    && forall k, d :: 0 <= k < |m1| && 0 <= d < n ==> m1[k].devValid[d] <= m2[k].devValid[d]
  }

  // A D2H transfer only carries bytes valid on its device in the snapshot.
  ghost predicate FromValid(mem: Memory, n: nat, l: seq<Transfer>)
    requires WellFormedMemory(mem, n)
  {
    TransfersInRange(mem, n, l) && forall i :: 0 <= i < |l| ==> l[i].region <= mem[l[i].buf].devValid[l[i].dev]
  }

  lemma {:induction false} D2HCoherent(mem: Memory, n: nat, c: Content, l: seq<Transfer>)
    requires Coherent(mem, n, c) && FromValid(mem, n, l)
    ensures Coherent(RunD2H(mem, n, l), n, c) && HostGrown(mem, RunD2H(mem, n, l), n)
    ensures OnHost(RunD2H(mem, n, l), l)
  {
    if l == [] {
    } else {
      var t, l' := l[|l| - 1], l[..|l| - 1];
      assert FromValid(mem, n, l');
      D2HCoherent(mem, n, c, l');
      var m := RunD2H(mem, n, l');
      D2HOneCoherent(m, n, c, t);
      OnHostNext(m, RunD2H(mem, n, l), n, l', t);
      HostGrownOn(mem, m, RunD2H(mem, n, l), n);
      assert l == l' + [t];
    }
  }

  // Every region has arrived on the host.
  ghost predicate OnHost(m: Memory, l: seq<Transfer>) {
    forall i :: 0 <= i < |l| ==> l[i].buf < |m| && l[i].region <= m[l[i].buf].hostValid
  }

  lemma OnHostNext(m: Memory, r: Memory, n: nat, l: seq<Transfer>, t: Transfer)
    requires HostGrown(m, r, n) && OnHost(m, l) && t.buf < |r| && t.region <= r[t.buf].hostValid
    ensures OnHost(r, l + [t])
  {
    forall i | 0 <= i < |l| ensures l[i].region <= r[l[i].buf].hostValid {
      assert m[l[i].buf].hostValid <= r[l[i].buf].hostValid;
    }
  }

  lemma HostGrownOn(m1: Memory, m2: Memory, m3: Memory, n: nat)
    requires HostGrown(m1, m2, n) && HostGrown(m2, m3, n)
    ensures HostGrown(m1, m3, n)
  {
  }

  lemma D2HOneCoherent(m: Memory, n: nat, c: Content, t: Transfer)
    requires Coherent(m, n, c) && t.buf < |m| && t.dev < n && t.region <= m[t.buf].devValid[t.dev]
    ensures var r := m[t.buf := DeviceToHost(m[t.buf], t.dev, t.region)];
      Coherent(r, n, c) && HostGrown(m, r, n) && t.region <= r[t.buf].hostValid
  {
    D2HStepCoherent(m[t.buf], t.buf, c, t.dev, t.region);
  }

  lemma D2HStepCoherent(b: Buffer, k: nat, c: Content, d: nat, region: set<nat>)
    requires CoherentBuffer(b, k, c) && d < |b.dev| && region <= b.devValid[d]
    ensures CoherentBuffer(DeviceToHost(b, d, region), k, c)
  {
    var b' := DeviceToHost(b, d, region);
    assert forall x :: ValidSomewhere(b, x) ==> ValidSomewhere(b', x);
  }

  // An H2D transfer never sends a byte that is not host-valid.
  ghost predicate FromHost(mem: Memory, n: nat, l: seq<Transfer>)
    requires WellFormedMemory(mem, n)
  {
    TransfersInRange(mem, n, l) && forall i :: 0 <= i < |l| ==> l[i].region <= mem[l[i].buf].hostValid
  }

  lemma {:induction false} H2DCoherent(mem: Memory, n: nat, c: Content, l: seq<Transfer>)
    requires Coherent(mem, n, c) && FromHost(mem, n, l)
    ensures Coherent(RunH2D(mem, n, l), n, c) && DeviceGrown(mem, RunH2D(mem, n, l), n)
    ensures OnDevices(RunH2D(mem, n, l), n, l)
  {
    if l == [] {
    } else {
      var t, l' := l[|l| - 1], l[..|l| - 1];
      assert FromHost(mem, n, l');
      H2DCoherent(mem, n, c, l');
      var m := RunH2D(mem, n, l');
      H2DOneCoherent(m, n, c, t);
      OnDevicesNext(m, RunH2D(mem, n, l), n, l', t);
      DeviceGrownOn(mem, m, RunH2D(mem, n, l), n);
      assert l == l' + [t];
    }
  }

  // Every region has arrived on its device.
  ghost predicate OnDevices(m: Memory, n: nat, l: seq<Transfer>) {
    forall i :: 0 <= i < |l| ==>
      l[i].buf < |m| && l[i].dev < n == |m[l[i].buf].devValid| && l[i].region <= m[l[i].buf].devValid[l[i].dev]
  }

  lemma OnDevicesNext(m: Memory, r: Memory, n: nat, l: seq<Transfer>, t: Transfer)
    requires DeviceGrown(m, r, n) && OnDevices(m, n, l)
    requires t.buf < |r| && t.dev < n && t.region <= r[t.buf].devValid[t.dev]
    ensures OnDevices(r, n, l + [t])
  {
    forall i | 0 <= i < |l| ensures l[i].region <= r[l[i].buf].devValid[l[i].dev] {
      assert m[l[i].buf].devValid[l[i].dev] <= r[l[i].buf].devValid[l[i].dev];
    }
  }

  lemma DeviceGrownOn(m1: Memory, m2: Memory, m3: Memory, n: nat)
    requires DeviceGrown(m1, m2, n) && DeviceGrown(m2, m3, n)
    ensures DeviceGrown(m1, m3, n)
  {
    forall k, d | 0 <= k < |m1| && 0 <= d < n ensures m1[k].devValid[d] <= m3[k].devValid[d] {
      assert m1[k].devValid[d] <= m2[k].devValid[d];
    }
  }

  lemma H2DOneCoherent(m: Memory, n: nat, c: Content, t: Transfer)
    requires Coherent(m, n, c) && t.buf < |m| && t.dev < n
    requires t.region <= m[t.buf].hostValid && t.region <= Span(0, |m[t.buf].host|)
    ensures var r := m[t.buf := HostToDevice(m[t.buf], t.dev, t.region)];
      Coherent(r, n, c) && DeviceGrown(m, r, n) && t.region <= r[t.buf].devValid[t.dev]
  {
    H2DStepCoherent(m[t.buf], t.buf, c, t.dev, t.region);
  }

  lemma H2DStepCoherent(b: Buffer, k: nat, c: Content, d: nat, region: set<nat>)
    requires CoherentBuffer(b, k, c) && d < |b.dev| && region <= b.hostValid
    ensures CoherentBuffer(HostToDevice(b, d, region), k, c)
  {
    var b' := HostToDevice(b, d, region);
    forall x | ValidSomewhere(b, x)
      ensures ValidSomewhere(b', x)
    {
      if x !in b.hostValid {
        var e :| 0 <= e < |b.devValid| && x in b.devValid[e];
        assert x in b'.devValid[e];
      }
    }
  }

  // ---- The plan ----

  /** The devices' contributions are valid there, cover all of `missing` but the rest, and the rest
      is valid on no device but the one asking. */
  lemma {:induction false} ProvidersCover(b: Buffer, k: nat, d: nat, d2: nat, missing: set<nat>)
    requires d2 <= |b.devValid|
    ensures var (l, rest) := Providers(b, k, d, d2, missing);
      && rest <= missing
      && (forall i :: 0 <= i < |l| ==> l[i].buf == k && d2 <= l[i].dev < |b.devValid| && l[i].dev != d)
      && (forall i :: 0 <= i < |l| ==> l[i].region <= b.devValid[l[i].dev] * missing)
      && (forall x :: x in missing && x !in rest ==> exists i :: 0 <= i < |l| && x in l[i].region)
      && (forall x, e :: x in rest && d2 <= e < |b.devValid| && e != d ==> x !in b.devValid[e])
    decreases |b.devValid| - d2
  {
    var (l, rest) := Providers(b, k, d, d2, missing);
    if d2 == |b.devValid| {
    } else if d2 == d || b.devValid[d2] * missing == {} {
      ProvidersCover(b, k, d, d2 + 1, missing);
      forall x, e | x in rest && d2 <= e < |b.devValid| && e != d
        ensures x !in b.devValid[e]
      {
        if e == d2 { assert x !in b.devValid[d2] * missing; }
      }
    } else {
      var found := b.devValid[d2] * missing;
      if missing - found == {} {
        assert l[0].region == found;
        assert forall x :: x in missing ==> x !in missing - found;
      } else {
        ProvidersCover(b, k, d, d2 + 1, missing - found);
        var (l', _) := Providers(b, k, d, d2 + 1, missing - found);
        forall x | x in missing && x !in rest
          ensures exists i :: 0 <= i < |l| && x in l[i].region
        {
          if x in found {
            assert x in l[0].region;
          } else {
            assert x in missing - found;
            var i :| 0 <= i < |l'| && x in l'[i].region;
            assert x in l[i + 1].region;
          }
        }
      }
    }
  }

  // What one planned entry promises: once its D2H part is in the host copy, its H2D part is host-valid,
  // and once that part is on the device, every required byte valid anywhere is valid on the device.
  ghost predicate EntryPlanned(b: Buffer, e: Entry, p: Plan)
    requires e.dev < |b.devValid|
  {
    && (forall i :: 0 <= i < |p.d2h| ==> p.d2h[i].buf == e.buf && p.d2h[i].dev < |b.devValid|)
    && (forall i :: 0 <= i < |p.d2h| ==> p.d2h[i].region <= b.devValid[p.d2h[i].dev] * Span(0, |b.host|))
    && (forall i :: 0 <= i < |p.h2d| ==> p.h2d[i].buf == e.buf && p.h2d[i].dev == e.dev && p.h2d[i].region <= Span(0, |b.host|))
    && (forall i, x :: 0 <= i < |p.h2d| && x in p.h2d[i].region ==>
         x in b.hostValid || exists j :: 0 <= j < |p.d2h| && x in p.d2h[j].region)
    && (forall x :: x in Required(b, e) && x !in b.devValid[e.dev] && ValidSomewhere(b, x) ==>
         exists i :: 0 <= i < |p.h2d| && x in p.h2d[i].region)
  }

  lemma PlanEntryCorrect(b: Buffer, e: Entry)
    requires e.dev < |b.devValid|
    ensures EntryPlanned(b, e, PlanEntry(b, e))
  {
    var deviceMissing := Required(b, e) - b.devValid[e.dev];
    var hostMissing := deviceMissing - b.hostValid;
    var p := PlanEntry(b, e);
    if deviceMissing == {} {
      assert forall x :: x in Required(b, e) && x !in b.devValid[e.dev] ==> x in deviceMissing;
    } else if hostMissing == {} {
      assert p.h2d[0].region == deviceMissing;
      assert forall x :: x in deviceMissing && x !in b.hostValid ==> x in hostMissing;
    } else {
      var (d2h, rest) := Providers(b, e.buf, e.dev, 0, hostMissing);
      ProvidersCover(b, e.buf, e.dev, 0, hostMissing);
      assert p.d2h == d2h;
      forall i | 0 <= i < |d2h|
        ensures d2h[i].region <= b.devValid[d2h[i].dev] * Span(0, |b.host|)
      {
        assert hostMissing <= Span(0, |b.host|);
      }
      var send := deviceMissing - rest;
      assert forall i :: 0 <= i < |p.h2d| ==> p.h2d[i] == Transfer(e.buf, e.dev, send);
      forall x | x in send
        ensures x in b.hostValid || exists j :: 0 <= j < |d2h| && x in d2h[j].region
      {
        if x !in b.hostValid { assert x in hostMissing && x !in rest; }
      }
      forall x | x in Required(b, e) && x !in b.devValid[e.dev] && ValidSomewhere(b, x)
        ensures exists i :: 0 <= i < |p.h2d| && x in p.h2d[i].region
      {
        assert x in deviceMissing && x !in rest;
        assert x in send;
        assert p.h2d[0].region == send;
      }
    }
  }

  // ---- Nothing is sent needlessly ----

  // The listed regions do not overlap.
  ghost predicate Apart(l: seq<Transfer>) {
    forall i, j :: 0 <= i < j < |l| ==> l[i].region !! l[j].region
  }

  lemma {:induction false} ProvidersApart(b: Buffer, k: nat, d: nat, d2: nat, missing: set<nat>)
    requires d2 <= |b.devValid|
    ensures Apart(Providers(b, k, d, d2, missing).0)
    decreases |b.devValid| - d2
  {
    if d2 == |b.devValid| {
    } else if d2 == d || b.devValid[d2] * missing == {} {
      ProvidersApart(b, k, d, d2 + 1, missing);
    } else {
      var found := b.devValid[d2] * missing;
      ProvidersApart(b, k, d, d2 + 1, missing - found);
      ProvidersCover(b, k, d, d2 + 1, missing - found);
    }
  }

  // The device lacks byte x of the entry.
  ghost predicate Lacks(b: Buffer, e: Entry, x: nat)
    requires e.dev < |b.devValid|
  {
    x in Required(b, e) && x !in b.devValid[e.dev]
  }

  // The device gets only bytes it lacks and somebody holds, and the host only those of them it lacks too, each once.
  ghost predicate EntryMinimal(b: Buffer, e: Entry, p: Plan)
    requires e.dev < |b.devValid|
  {
    && |p.h2d| <= 1 && Apart(p.d2h)
    && (forall i, x :: 0 <= i < |p.h2d| && x in p.h2d[i].region ==> Lacks(b, e, x) && ValidSomewhere(b, x))
    && (forall i, x :: 0 <= i < |p.d2h| && x in p.d2h[i].region ==> Lacks(b, e, x) && x !in b.hostValid)
  }

  // All regions of a plan are parts of what the device or the host lacks.
  lemma PlanEntryWithin(b: Buffer, e: Entry)
    requires e.dev < |b.devValid|
    ensures var p, lacking := PlanEntry(b, e), Required(b, e) - b.devValid[e.dev];
      && |p.h2d| <= 1 && Apart(p.d2h)
      && (forall i :: 0 <= i < |p.h2d| ==> p.h2d[i].region <= lacking)
      && (forall i :: 0 <= i < |p.d2h| ==> p.d2h[i].region <= lacking - b.hostValid)
  {
    var missing := Required(b, e) - b.devValid[e.dev] - b.hostValid;
    ProvidersCover(b, e.buf, e.dev, 0, missing);
    ProvidersApart(b, e.buf, e.dev, 0, missing);
  }

  lemma PlanEntryMinimal(b: Buffer, e: Entry)
    requires e.dev < |b.devValid|
    ensures EntryMinimal(b, e, PlanEntry(b, e))
  {
    var p := PlanEntry(b, e);
    PlanEntryCorrect(b, e);
    PlanEntryWithin(b, e);
    forall i, x | 0 <= i < |p.h2d| && x in p.h2d[i].region ensures ValidSomewhere(b, x) {
      if x !in b.hostValid {
        var j :| 0 <= j < |p.d2h| && x in p.d2h[j].region;
        assert x in b.devValid[p.d2h[j].dev];
      }
    }
  }

  // The entry accounts for the transfer t to its device, or to the host.
  ghost predicate SendsFor(b: Buffer, e: Entry, t: Transfer)
    requires e.dev < |b.devValid|
  {
    t.buf == e.buf && t.dev == e.dev && forall x :: x in t.region ==> Lacks(b, e, x) && ValidSomewhere(b, x)
  }

  ghost predicate FetchesFor(b: Buffer, e: Entry, t: Transfer)
    requires e.dev < |b.devValid|
  {
    t.buf == e.buf && forall x :: x in t.region ==> Lacks(b, e, x) && x !in b.hostValid
  }

  ghost predicate PlanMinimal(mem: Memory, n: nat, l: seq<Entry>, p: Plan)
    requires WellFormedMemory(mem, n) && EntriesInRange(mem, n, l)
  {
    && (forall i :: 0 <= i < |p.h2d| ==> exists j :: 0 <= j < |l| && SendsFor(mem[l[j].buf], l[j], p.h2d[i]))
    && (forall i :: 0 <= i < |p.d2h| ==> exists j :: 0 <= j < |l| && FetchesFor(mem[l[j].buf], l[j], p.d2h[i]))
  }

  /** Every planned transfer serves a listed entry: a device is sent only required bytes that it does not hold and that are
      valid somewhere, and the host is sent only such bytes that it does not hold. */
  lemma {:induction false} PlanAllMinimal(mem: Memory, n: nat, l: seq<Entry>)
    requires WellFormedMemory(mem, n) && EntriesInRange(mem, n, l)
    ensures PlanMinimal(mem, n, l, PlanAll(mem, n, l))
  {
    if l != [] {
      var last, init := l[|l| - 1], l[..|l| - 1];
      var b, q := mem[last.buf], PlanEntry(mem[last.buf], last);
      PlanAllMinimal(mem, n, init);
      PlanEntryMinimal(b, last);
      PlanEntryCorrect(b, last);
      assert forall i :: 0 <= i < |q.h2d| ==> SendsFor(b, last, q.h2d[i]);
      assert forall i :: 0 <= i < |q.d2h| ==> FetchesFor(b, last, q.d2h[i]);
      MinimalAppend(mem, n, init, last, PlanAll(mem, n, init), q);
      assert l == init + [last];
    }
  }

  lemma MinimalAppend(mem: Memory, n: nat, l: seq<Entry>, e: Entry, p: Plan, q: Plan)
    requires WellFormedMemory(mem, n) && EntriesInRange(mem, n, l) && EntriesInRange(mem, n, l + [e])
    requires PlanMinimal(mem, n, l, p) && e.buf < |mem| && e.dev < n
    requires forall i :: 0 <= i < |q.h2d| ==> SendsFor(mem[e.buf], e, q.h2d[i])
    requires forall i :: 0 <= i < |q.d2h| ==> FetchesFor(mem[e.buf], e, q.d2h[i])
    ensures PlanMinimal(mem, n, l + [e], Plan(p.d2h + q.d2h, p.h2d + q.h2d))
  {
    var d2h, h2d, all := p.d2h + q.d2h, p.h2d + q.h2d, l + [e];
    assert all[|l|] == e;
    forall i | 0 <= i < |h2d| ensures exists j :: 0 <= j < |all| && SendsFor(mem[all[j].buf], all[j], h2d[i]) {
      if i < |p.h2d| {
        var j :| 0 <= j < |l| && SendsFor(mem[l[j].buf], l[j], p.h2d[i]);
        assert all[j] == l[j];
      }
    }
    forall i | 0 <= i < |d2h| ensures exists j :: 0 <= j < |all| && FetchesFor(mem[all[j].buf], all[j], d2h[i]) {
      if i < |p.d2h| {
        var j :| 0 <= j < |l| && FetchesFor(mem[l[j].buf], l[j], p.d2h[i]);
        assert all[j] == l[j];
      }
    }
  }

  // ---- What the transfers achieve ----

  // After the plan has run: every required byte valid anywhere is valid on the requiring device.
  ghost predicate Served(before: Memory, after: Memory, n: nat, l: seq<Entry>)
    requires SameShape(before, after, n) && EntriesInRange(before, n, l)
  {
    forall i, x :: 0 <= i < |l| && x in Required(before[l[i].buf], l[i]) && ValidSomewhere(before[l[i].buf], x) ==>
      x in after[l[i].buf].devValid[l[i].dev]
  }

  // Summary of the whole plan against the snapshot.
  ghost predicate Planned(mem: Memory, n: nat, l: seq<Entry>, p: Plan)
    requires WellFormedMemory(mem, n) && EntriesInRange(mem, n, l)
  {
    && FromValid(mem, n, p.d2h)
    && TransfersInRange(mem, n, p.h2d)
    && (forall i, x :: 0 <= i < |p.h2d| && x in p.h2d[i].region ==>
         x in mem[p.h2d[i].buf].hostValid || exists j :: 0 <= j < |p.d2h| && p.d2h[j].buf == p.h2d[i].buf && x in p.d2h[j].region)
    && (forall i, x :: (0 <= i < |l| && x in Required(mem[l[i].buf], l[i]) && ValidSomewhere(mem[l[i].buf], x)
                        && x !in mem[l[i].buf].devValid[l[i].dev]) ==>
         exists j :: 0 <= j < |p.h2d| && p.h2d[j].buf == l[i].buf && p.h2d[j].dev == l[i].dev && x in p.h2d[j].region)
  }

  lemma {:induction false} PlanAllCorrect(mem: Memory, n: nat, l: seq<Entry>)
    requires WellFormedMemory(mem, n) && EntriesInRange(mem, n, l)
    ensures Planned(mem, n, l, PlanAll(mem, n, l))
  {
    if l == [] {
    } else {
      var last, l' := l[|l| - 1], l[..|l| - 1];
      PlanAllCorrect(mem, n, l');
      PlanEntryCorrect(mem[last.buf], last);
      PlanAppend(mem, n, l', last, PlanAll(mem, n, l'), PlanEntry(mem[last.buf], last));
      assert l == l' + [last];
    }
  }

  lemma PlanAppend(mem: Memory, n: nat, l: seq<Entry>, e: Entry, p: Plan, q: Plan)
    requires WellFormedMemory(mem, n) && EntriesInRange(mem, n, l + [e])
    requires EntriesInRange(mem, n, l) && Planned(mem, n, l, p)
    requires e.buf < |mem| && e.dev < n && EntryPlanned(mem[e.buf], e, q)
    ensures Planned(mem, n, l + [e], Plan(p.d2h + q.d2h, p.h2d + q.h2d))
  {
    var d2h, h2d, l' := p.d2h + q.d2h, p.h2d + q.h2d, l + [e];
    forall i, x | 0 <= i < |h2d| && x in h2d[i].region
      ensures x in mem[h2d[i].buf].hostValid || exists j :: 0 <= j < |d2h| && d2h[j].buf == h2d[i].buf && x in d2h[j].region
    {
      if x !in mem[h2d[i].buf].hostValid {
        if i < |p.h2d| {
          var j :| 0 <= j < |p.d2h| && p.d2h[j].buf == p.h2d[i].buf && x in p.d2h[j].region;
          assert d2h[j] == p.d2h[j];
        } else {
          assert h2d[i] == q.h2d[i - |p.h2d|];
          var j :| 0 <= j < |q.d2h| && x in q.d2h[j].region;
          assert d2h[|p.d2h| + j] == q.d2h[j];
        }
      }
    }
    forall i, x | 0 <= i < |l'| && x in Required(mem[l'[i].buf], l'[i]) && ValidSomewhere(mem[l'[i].buf], x)
                  && x !in mem[l'[i].buf].devValid[l'[i].dev]
      ensures exists j :: 0 <= j < |h2d| && h2d[j].buf == l'[i].buf && h2d[j].dev == l'[i].dev && x in h2d[j].region
    {
      if i < |l| {
        assert l'[i] == l[i];
        var j :| 0 <= j < |p.h2d| && p.h2d[j].buf == l[i].buf && p.h2d[j].dev == l[i].dev && x in p.h2d[j].region;
        assert h2d[j] == p.h2d[j];
      } else {
        var j :| 0 <= j < |q.h2d| && x in q.h2d[j].region;
        assert h2d[|p.h2d| + j] == q.h2d[j];
      }
    }
  }

  /** Transfer plan correctness: the plan comes from one snapshot, yet after D2H then H2D every
      required byte that is valid anywhere is valid on its device, coherence is kept, and H2D never
      sends a byte that is not host-valid at that point. */
  lemma TransferPlanCorrect(mem: Memory, n: nat, c: Content, l: seq<Entry>)
    requires Coherent(mem, n, c) && EntriesInRange(mem, n, l)
    ensures var p := PlanAll(mem, n, l);
      && FromValid(mem, n, p.d2h)
      && (var mid := RunD2H(mem, n, p.d2h);
          && FromHost(mid, n, p.h2d)
          && (var after := RunH2D(mid, n, p.h2d);
              && Coherent(after, n, c)
              && SameShape(mem, after, n)
              && (forall k, d :: 0 <= k < |mem| && 0 <= d < n ==> mem[k].devValid[d] <= after[k].devValid[d])
              && Served(mem, after, n, l)))
  {
    var p := PlanAll(mem, n, l);
    PlanAllCorrect(mem, n, l);
    D2HCoherent(mem, n, c, p.d2h);
    var mid := RunD2H(mem, n, p.d2h);
    PlanFromHost(mem, mid, n, l, p);
    H2DCoherent(mid, n, c, p.h2d);
    PlanServes(mem, mid, RunH2D(mid, n, p.h2d), n, l, p);
  }

  // After the D2H transfers everything to be sent is on the host.
  lemma PlanFromHost(mem: Memory, mid: Memory, n: nat, l: seq<Entry>, p: Plan)
    requires WellFormedMemory(mem, n) && EntriesInRange(mem, n, l) && Planned(mem, n, l, p) && HostGrown(mem, mid, n)
    requires OnHost(mid, p.d2h)
    ensures FromHost(mid, n, p.h2d)
  {
    forall i, x | 0 <= i < |p.h2d| && x in p.h2d[i].region
      ensures x in mid[p.h2d[i].buf].hostValid
    {
      if x !in mem[p.h2d[i].buf].hostValid {
        var j :| 0 <= j < |p.d2h| && p.d2h[j].buf == p.h2d[i].buf && x in p.d2h[j].region;
      }
    }
  }

  // After the H2D transfers every required byte is on its device.
  lemma PlanServes(mem: Memory, mid: Memory, after: Memory, n: nat, l: seq<Entry>, p: Plan)
    requires WellFormedMemory(mem, n) && EntriesInRange(mem, n, l) && Planned(mem, n, l, p)
    requires HostGrown(mem, mid, n) && DeviceGrown(mid, after, n)
    requires OnDevices(after, n, p.h2d)
    ensures SameShape(mem, after, n) && Served(mem, after, n, l)
    ensures forall k, d :: 0 <= k < |mem| && 0 <= d < n ==> mem[k].devValid[d] <= after[k].devValid[d]
  {
    forall i, x | 0 <= i < |l| && x in Required(mem[l[i].buf], l[i]) && ValidSomewhere(mem[l[i].buf], x)
      ensures x in after[l[i].buf].devValid[l[i].dev]
    {
      if x in mem[l[i].buf].devValid[l[i].dev] {
        assert mid[l[i].buf].devValid[l[i].dev] <= after[l[i].buf].devValid[l[i].dev];
      } else {
        var j :| 0 <= j < |p.h2d| && p.h2d[j].buf == l[i].buf && p.h2d[j].dev == l[i].dev && x in p.h2d[j].region;
      }
    }
  }
}

/** Buffers as the runtime keeps them (libsplit/src/Handle/MemoryHandle.cpp) and the user operations
    that move data (libsplit/src/BufferManager.cpp). Each method is proved against the value-level
    protocol in module Coherence. Queue commands take effect in the order they are enqueued. */
module MemoryHandles {
  import opened Intervals
  import opened Coherence
  import opened Transfers
  import opened BufferCreation

  lemma SpanIsRange(off: nat, size: nat)
    requires size > 0
    ensures Range(Interval(off, off + size - 1)) == Span(off, size)
  {
    assert forall x: nat :: Has(Interval(off, off + size - 1), x) <==> InSpan(off, size, x);
  }

  // memcpy into a byte sequence
  function Patch(dst: seq<Byte>, src: seq<Byte>, i: Interval): (r: seq<Byte>)
    requires |dst| == |src| && i.lb <= i.hb < |dst|
    ensures |r| == |dst|
    ensures forall x :: 0 <= x < |dst| ==> r[x] == if Has(i, x) then src[x] else dst[x]
  {
    dst[..i.lb] + src[i.lb..i.hb + 1] + dst[i.hb + 1..]
  }

  lemma PatchIsMerge(dst: seq<Byte>, src: seq<Byte>, l: seq<Interval>, i: nat)
    requires |dst| == |src| && i < |l| && l[i].lb <= l[i].hb < |dst|
    ensures Patch(Merge(dst, Bytes(l[..i]), src), src, l[i]) == Merge(dst, Bytes(l[..i + 1]), src)
  {
    BytesPrefix(l, i);
  }

  // new ListInterval[n]
  method NewLists(n: nat, other: ListInterval) returns (lists: seq<ListInterval>)
    ensures |lists| == n && other !in lists
    ensures forall e :: 0 <= e < n ==> fresh(lists[e]) && lists[e].mList == [] && lists[e].Contents() == {}
    ensures forall e, f :: 0 <= e < f < n ==> lists[e] != lists[f]
  {
    lists := [];
    while |lists| < n
      invariant |lists| <= n
      invariant forall e :: 0 <= e < |lists| ==> fresh(lists[e]) && lists[e].mList == [] && lists[e] != other
      invariant forall e, f :: 0 <= e < f < |lists| ==> lists[e] != lists[f]
    {
      var l := new ListInterval();
      lists := lists + [l];
    }
  }

  // The local buffer and the used size at creation.
  method InitialData(flags: Flags, size: nat, hostPtr: seq<Byte>) returns (local: seq<Byte>, maxUsed: nat)
    requires |hostPtr| == size
    ensures local == NewBuffer(flags, size, hostPtr, []).host && maxUsed == NewBuffer(flags, size, hostPtr, []).maxUsed
  {
    maxUsed := 1;
    if flags.allocHostPtr {
      local := seq(size, _ => 0);
      maxUsed := size;
    } else if flags.useHostPtr {
      local := hostPtr;
      maxUsed := size;
    } else {
      local := seq(size, _ => 0);
    }
    if flags.copyHostPtr {
      local := hostPtr;
      maxUsed := size;
    }
  }

  class MemoryHandle {
    const mSize: nat
    const isRO: bool
    const mNbBuffers: nat
    const hostValidData: ListInterval
    const devicesValidData: seq<ListInterval>
    var mMaxUsedSize: nat
    var mLocalBuffer: seq<Byte>
    var mBuffers: seq<seq<Byte>>

    ghost function Repr(): set<object> {
      {this, hostValidData} + set l | l in devicesValidData
    }

    ghost predicate Valid()
      reads Repr()
    {
      && mSize > 0 && mMaxUsedSize > 0
      && |mLocalBuffer| == mSize
      && |devicesValidData| == |mBuffers| == mNbBuffers
      && (forall d :: 0 <= d < mNbBuffers ==> |mBuffers[d]| == mSize)
      && hostValidData !in devicesValidData
      && (forall d, e :: 0 <= d < e < mNbBuffers ==> devicesValidData[d] != devicesValidData[e])
      && hostValidData.Valid()
      && (forall d :: 0 <= d < mNbBuffers ==> devicesValidData[d].Valid())
    }

    ghost function DevValid(): (r: seq<set<nat>>)
      reads set l | l in devicesValidData
      ensures |r| == |devicesValidData|
      ensures forall d :: 0 <= d < |r| ==> r[d] == devicesValidData[d].Contents()
    {
      seq(|devicesValidData|, d requires 0 <= d < |devicesValidData| reads set l | l in devicesValidData => devicesValidData[d].Contents())
    }

    // The abstract buffer.
    ghost function State(): (r: Buffer)
      reads Repr()
      requires Valid()
      ensures WellFormed(r)
    {
      Buffer(isRO, mMaxUsedSize, hostValidData.Contents(), mLocalBuffer, DevValid(), mBuffers)
    }

    constructor (nbDevices: nat, flags: Flags, size: nat, hostPtr: seq<Byte>, garbage: seq<seq<Byte>>)
      requires size > 0 && |hostPtr| == size && |garbage| == nbDevices
      requires forall d :: 0 <= d < nbDevices ==> |garbage[d]| == size
      ensures Valid() && fresh(Repr()) && mNbBuffers == nbDevices && mSize == size
      ensures State() == NewBuffer(flags, size, hostPtr, garbage)
    {
      mSize := size;
      isRO := flags.readOnly;
      mNbBuffers := nbDevices;
      mBuffers := garbage;
      var local, maxUsed := InitialData(flags, size, hostPtr);
      mLocalBuffer := local;
      mMaxUsedSize := maxUsed;

      var host := new ListInterval();
      var devices := NewLists(nbDevices, host);
      hostValidData := host;
      devicesValidData := devices;
      new;
      assert hostValidData.Contents() == {};
      assert DevValid() == NewBuffer(flags, size, hostPtr, garbage).devValid;
      MarkInitialData(flags);
    }

    // Data copied at creation are valid on the host.
    method MarkInitialData(flags: Flags)
      requires Valid() && hostValidData.Contents() == {}
      modifies hostValidData`mList
      ensures Valid() && hostValidData.Contents() == if flags.copyHostPtr then Span(0, mSize) else {}
    {
      if flags.copyHostPtr {
        SpanIsRange(0, mSize);
        hostValidData.Add(Interval(0, mSize - 1));
      }
    }

    // Driver::startD2HTransfers for one region list entry: enqueue the reads, then update valid data.
    method TransferD2H(d: nat, region: seq<Interval>)
      requires Valid() && d < mNbBuffers && Canonical(region)
      requires Bytes(region) <= Span(0, mSize)
      modifies Repr()
      ensures Valid() && State() == DeviceToHost(old(State()), d, Bytes(region))
    {
      ghost var host := mLocalBuffer;
      assert region[..0] == [];
      var j := 0;
      while j < |region|
        invariant 0 <= j <= |region| && Valid()
        invariant mLocalBuffer == Merge(host, Bytes(region[..j]), mBuffers[d])
        invariant State() == old(State()).(host := mLocalBuffer)
      {
        BytesAt(region, j, region[j].hb);
        PatchIsMerge(host, mBuffers[d], region, j);
        mLocalBuffer := Patch(mLocalBuffer, mBuffers[d], region[j]);
        j := j + 1;
      }
      assert region[..j] == region;
      hostValidData.MyUnion(region);
    }

    // Driver::startH2DTransfers for one region list entry.
    method TransferH2D(d: nat, region: seq<Interval>)
      requires Valid() && d < mNbBuffers && Canonical(region)
      requires Bytes(region) <= Span(0, mSize)
      modifies Repr()
      ensures Valid() && State() == HostToDevice(old(State()), d, Bytes(region))
    {
      ghost var was := mBuffers;
      assert region[..0] == [];
      assert Bytes(region[..0]) == {};
      assert Merge(was[d], {}, mLocalBuffer) == was[d];
      var j := 0;
      while j < |region|
        invariant 0 <= j <= |region| && Valid()
        invariant mBuffers == was[d := Merge(was[d], Bytes(region[..j]), mLocalBuffer)]
        invariant State() == old(State()).(dev := mBuffers)
      {
        BytesAt(region, j, region[j].hb);
        PatchIsMerge(was[d], mLocalBuffer, region, j);
        mBuffers := mBuffers[d := Patch(mBuffers[d], mLocalBuffer, region[j])];
        j := j + 1;
      }
      assert region[..j] == region;
      devicesValidData[d].MyUnion(region);
      assert DevValid() == old(DevValid())[d := old(DevValid())[d] + Bytes(region)];
    }

    // Add (or remove) a range on every device.
    method AddOnDevices(inter: Interval)
      requires Valid() && inter.lb <= inter.hb
      modifies devicesValidData
      ensures Valid()
      ensures forall d :: 0 <= d < mNbBuffers ==>
        devicesValidData[d].Contents() == old(devicesValidData[d].Contents()) + Range(inter)
    {
      var d := 0;
      while d < mNbBuffers
        invariant 0 <= d <= mNbBuffers && Valid()
        invariant forall e :: 0 <= e < d ==> devicesValidData[e].Contents() == old(devicesValidData[e].Contents()) + Range(inter)
        invariant forall e :: d <= e < mNbBuffers ==> devicesValidData[e].Contents() == old(devicesValidData[e].Contents())
      {
        devicesValidData[d].Add(inter);
        d := d + 1;
      }
    }

    method RemoveOnDevices(inter: Interval)
      requires Valid() && inter.lb <= inter.hb
      modifies devicesValidData
      ensures Valid()
      ensures forall d :: 0 <= d < mNbBuffers ==>
        devicesValidData[d].Contents() == old(devicesValidData[d].Contents()) - Range(inter)
    {
      var d := 0;
      while d < mNbBuffers
        invariant 0 <= d <= mNbBuffers && Valid()
        invariant forall e :: 0 <= e < d ==> devicesValidData[e].Contents() == old(devicesValidData[e].Contents()) - Range(inter)
        invariant forall e :: d <= e < mNbBuffers ==> devicesValidData[e].Contents() == old(devicesValidData[e].Contents())
      {
        devicesValidData[d].Remove(inter);
        d := d + 1;
      }
    }

    // A range becomes valid on the host and nowhere else.
    method MoveToHost(inter: Interval)
      requires Valid() && inter.lb <= inter.hb
      modifies hostValidData`mList, devicesValidData
      ensures Valid() && hostValidData.Contents() == old(hostValidData.Contents()) + Range(inter)
      ensures forall d :: 0 <= d < mNbBuffers ==>
        devicesValidData[d].Contents() == old(devicesValidData[d].Contents()) - Range(inter)
    {
      hostValidData.Add(inter);
      RemoveOnDevices(inter);
    }

    // A range becomes valid on every device and invalid on the host.
    method MoveToDevices(inter: Interval)
      requires Valid() && inter.lb <= inter.hb
      modifies hostValidData`mList, devicesValidData
      ensures Valid() && hostValidData.Contents() == old(hostValidData.Contents()) - Range(inter)
      ensures forall d :: 0 <= d < mNbBuffers ==>
        devicesValidData[d].Contents() == old(devicesValidData[d].Contents()) + Range(inter)
    {
      hostValidData.Remove(inter);
      AddOnDevices(inter);
    }

    // enqueueWrite of the same data on every device
    method WriteOnDevices(offset: nat, data: seq<Byte>)
      requires Valid() && offset + |data| <= mSize
      modifies this`mBuffers
      ensures Valid()
      ensures forall d :: 0 <= d < mNbBuffers ==> mBuffers[d] == Splice(old(mBuffers)[d], offset, data)
    {
      var d := 0;
      while d < mNbBuffers
        invariant 0 <= d <= mNbBuffers && Valid()
        invariant forall e :: 0 <= e < d ==> mBuffers[e] == Splice(old(mBuffers)[e], offset, data)
        invariant forall e :: d <= e < mNbBuffers ==> mBuffers[e] == old(mBuffers)[e]
      {
        mBuffers := mBuffers[d := Splice(mBuffers[d], offset, data)];
        d := d + 1;
      }
    }
  }
}

/** The user operations on buffers (libsplit/src/BufferManager.cpp). */
module BufferManagers {
  import opened Intervals
  import opened Coherence
  import opened Transfers
  import opened MemoryHandles

  // Bytes of a range that neither the host nor a device before d holds.
  ghost function Missing(b: Buffer, off: nat, size: nat, d: nat): set<nat>
    requires d <= |b.devValid|
  {
    set x | x in Span(off, size) && x !in b.hostValid && Holder(b.devValid, x, 0) >= d
  }

  // Bytes of a range that are read from device d.
  ghost function FromDevice(b: Buffer, off: nat, size: nat, d: nat): set<nat>
    requires d < |b.devValid|
  {
    set x | x in Span(off, size) && x !in b.hostValid && Holder(b.devValid, x, 0) == d
  }

  lemma MissingStep(b: Buffer, off: nat, size: nat, d: nat)
    requires d < |b.devValid|
    ensures Missing(b, off, size, d) * b.devValid[d] == FromDevice(b, off, size, d)
    ensures Missing(b, off, size, d) - FromDevice(b, off, size, d) == Missing(b, off, size, d + 1)
  {
  }

  lemma MissingStart(b: Buffer, off: nat, size: nat)
    ensures Missing(b, off, size, 0) == Span(off, size) - b.hostValid
  {
  }

  /** Nothing is left missing exactly when every byte of the range is valid somewhere. */
  lemma NothingMissing(b: Buffer, off: nat, size: nat)
    ensures Missing(b, off, size, |b.devValid|) == {} <==> Readable(b, off, size)
  {
    forall x | x in Span(off, size)
      ensures ValidSomewhere(b, x) <==> x !in Missing(b, off, size, |b.devValid|)
    {
      var h := Holder(b.devValid, x, 0);
      if h < |b.devValid| { assert x in b.devValid[h]; }
    }
  }

  // The local buffer once the devices before d have been read.
  ghost predicate Fetched(b: Buffer, off: nat, size: nat, d: nat, host: seq<Byte>)
    requires WellFormed(b) && off + size <= |b.host| && d <= |b.devValid|
  {
    && |host| == |b.host|
    && forall x :: 0 <= x < |host| ==>
      host[x] == if x in Missing(b, off, size, 0) && x !in Missing(b, off, size, d) then Current(b, x) else b.host[x]
  }

  lemma FetchedStep(b: Buffer, off: nat, size: nat, d: nat, host: seq<Byte>)
    requires WellFormed(b) && off + size <= |b.host| && d < |b.devValid| && Fetched(b, off, size, d, host)
    ensures Fetched(b, off, size, d + 1, Merge(host, FromDevice(b, off, size, d), b.dev[d]))
  {
  }

  lemma MissingShrinks(b: Buffer, off: nat, size: nat, d: nat)
    requires d <= |b.devValid|
    ensures Missing(b, off, size, |b.devValid|) <= Missing(b, off, size, d)
  {
  }

  // Nothing left to fetch before any device is read means the host holds the whole range.
  lemma NothingMissingFrom(b: Buffer, off: nat, size: nat, d: nat)
    requires d <= |b.devValid| && Missing(b, off, size, d) == {}
    ensures Missing(b, off, size, |b.devValid|) == {} && Readable(b, off, size)
  {
    MissingShrinks(b, off, size, d);
    NothingMissing(b, off, size);
  }

  // Once every missing byte is fetched the range of the local buffer is what a read returns.
  lemma FetchedAll(b: Buffer, off: nat, size: nat, host: seq<Byte>)
    requires WellFormed(b) && off + size <= |b.host| && Readable(b, off, size)
    requires Fetched(b, off, size, |b.devValid|, host) || (Missing(b, off, size, 0) == {} && host == b.host)
    ensures host == Splice(b.host, off, ReadResult(b, off, size))
  {
    NothingMissing(b, off, size);
    forall x | 0 <= x < |host|
      ensures host[x] == Splice(b.host, off, ReadResult(b, off, size))[x]
    {
      if off <= x < off + size {
        assert InSpan(off, size, x) && x in Span(off, size);
        assert x !in Missing(b, off, size, 0) ==> x in b.hostValid;
        assert ReadResult(b, off, size)[x - off] == Current(b, x);
      }
    }
  }

  // Raising the used size first gives what a write does in one step, and takes no byte away.
  lemma RaisedWrite(b: Buffer, raised: Buffer, off: nat, data: seq<Byte>)
    requires WellFormed(b) && off + |data| <= |b.host| && raised == b.(maxUsed := MaxUsed(b, off + |data|))
    ensures WriteHost(raised, off, data).(maxUsed := raised.maxUsed) == WriteHost(b, off, data)
  {
    assert WriteHost(raised, off, data).devValid == WriteHost(b, off, data).devValid;
  }

  lemma ReadableRaised(b: Buffer, maxUsed: nat, off: nat, size: nat)
    ensures Readable(b.(maxUsed := maxUsed), off, size) <==> Readable(b, off, size)
  {
    forall x ensures ValidSomewhere(b.(maxUsed := maxUsed), x) <==> ValidSomewhere(b, x) {
    }
  }

  // Raising the used size first does not change what a copy inside one buffer does.
  lemma SelfCopy(b: Buffer, raised: Buffer, mid: Buffer, r: Buffer, off: nat, dstOff: nat, size: nat)
    requires WellFormed(b) && off + size <= |b.host| && dstOff + size <= |b.host|
    requires raised == b.(maxUsed := MaxUsed(b, dstOff + size))
    requires mid == Gather(raised, off, size)
    requires r == WriteHost(mid, dstOff, mid.host[off..off + size]).(maxUsed := mid.maxUsed)
    ensures r == CopyWithin(b, off, dstOff, size)
  {
    var gathered := Gather(b, off, size);
    forall i | 0 <= i < size
      ensures ReadResult(raised, off, size)[i] == ReadResult(b, off, size)[i]
    {
      assert Current(raised, off + i) == Current(b, off + i);
    }
    assert ReadResult(raised, off, size) == ReadResult(b, off, size);
    var data := mid.host[off..off + size];
    assert WriteHost(mid, dstOff, data).devValid == WriteHost(gathered, dstOff, data).devValid;
  }

  // Bytes of the range already copied into the user's memory hold the value to be read.
  ghost predicate Copied(out: seq<Byte>, b: Buffer, off: nat, size: nat, done: set<nat>)
    requires WellFormed(b) && off + size <= |b.host| && |out| >= size
  {
    forall x :: x in done && InSpan(off, size, x) ==> out[x - off] == Current(b, x)
  }

  // The user range has the bytes of `bytes` from src, each at its displacement, and is otherwise as before.
  ghost predicate PatchedAt(before: seq<Byte>, after: seq<Byte>, offset: nat, src: seq<Byte>, bytes: set<nat>) {
    && |before| == |after|
    && forall y :: 0 <= y < |after| ==>
         after[y] == if offset + y in bytes && offset + y < |src| then src[offset + y] else before[y]
  }

  lemma PatchedCopies(before: seq<Byte>, after: seq<Byte>, src: seq<Byte>, bytes: set<nat>,
                      b: Buffer, off: nat, size: nat, done: set<nat>)
    requires WellFormed(b) && off + size <= |b.host| == |src| && |before| >= size
    requires PatchedAt(before, after, off, src, bytes) && Copied(before, b, off, size, done)
    requires forall x :: x in bytes ==> InSpan(off, size, x) && src[x] == Current(b, x)
    ensures Copied(after, b, off, size, done + bytes) && after[size..] == before[size..]
  {
    forall x | x in done + bytes && InSpan(off, size, x) ensures after[x - off] == Current(b, x) {
      var y: nat := x - off;
      assert off + y == x;
    }
  }

  lemma PatchedTwice(first: seq<Byte>, second: seq<Byte>, third: seq<Byte>, offset: nat, src: seq<Byte>,
                     s: set<nat>, t: set<nat>)
    requires PatchedAt(first, second, offset, src, s) && PatchedAt(second, third, offset, src, t)
    ensures PatchedAt(first, third, offset, src, s + t)
  {
  }

  // memcpy of one interval.
  method CopyInterval(ptr: array<Byte>, offset: nat, src: seq<Byte>, i: Interval)
    requires offset <= i.lb <= i.hb < |src| && i.hb < offset + ptr.Length
    modifies ptr
    ensures PatchedAt(old(ptr[..]), ptr[..], offset, src, Range(i))
  {
    var x := i.lb;
    while x <= i.hb
      invariant i.lb <= x <= i.hb + 1
      invariant forall y :: 0 <= y < ptr.Length ==>
        ptr[y] == if i.lb <= offset + y < x then src[offset + y] else old(ptr[..])[y]
    {
      ptr[x - offset] := src[x];
      x := x + 1;
    }
  }

  // memcpy of the intervals of `l`.
  method CopyOut(ptr: array<Byte>, offset: nat, src: seq<Byte>, l: seq<Interval>)
    requires Canonical(l) && forall x :: x in Bytes(l) ==> offset <= x < |src| && x < offset + ptr.Length
    modifies ptr
    ensures PatchedAt(old(ptr[..]), ptr[..], offset, src, Bytes(l))
  {
    assert l[..0] == [];
    var id := 0;
    while id < |l|
      invariant 0 <= id <= |l|
      invariant PatchedAt(old(ptr[..]), ptr[..], offset, src, Bytes(l[..id]))
    {
      ghost var before := ptr[..];
      BytesPrefix(l, id);
      BytesAt(l, id, l[id].lb);
      BytesAt(l, id, l[id].hb);
      CopyInterval(ptr, offset, src, l[id]);
      PatchedTwice(old(ptr[..]), before, ptr[..], offset, src, Bytes(l[..id]), Range(l[id]));
      id := id + 1;
    }
    assert l[..id] == l;
  }

  class BufferManager {
    const delayedWrite: bool

    constructor (delayedWrite: bool)
      ensures this.delayedWrite == delayedWrite
    {
      this.delayedWrite := delayedWrite;
    }

    // The part of a range the local buffer holds, and the rest.
    method SplitByHost(m: MemoryHandle, offset: nat, size: nat) returns (held: ListInterval, missing: ListInterval)
      requires m.Valid() && size > 0 && offset + size <= m.mSize
      ensures fresh(held) && held.Valid() && held.Contents() == Span(offset, size) * m.State().hostValid
      ensures fresh(missing) && missing.Valid() && missing.Contents() == Missing(m.State(), offset, size, 0)
    {
      missing := new ListInterval();
      SpanIsRange(offset, size);
      missing.Add(Interval(offset, offset + size - 1));
      held := ListInterval.Intersection(missing.mList, m.hostValidData.mList);
      missing.Difference(held.mList);
      MissingStart(m.State(), offset, size);
    }

    // Which missing intervals are read from which device; false when some byte is valid nowhere.
    method ComputeReads(m: MemoryHandle, offset: nat, size: nat, dataRequired: ListInterval)
      returns (toReadDevice: seq<seq<Interval>>, ok: bool)
      requires m.Valid() && size > 0 && offset + size <= m.mSize
      requires dataRequired.Valid() && dataRequired !in m.Repr()
      requires dataRequired.Contents() == Missing(m.State(), offset, size, 0)
      modifies dataRequired`mList
      ensures |toReadDevice| == m.mNbBuffers
      ensures forall e :: 0 <= e < m.mNbBuffers ==> Canonical(toReadDevice[e])
      ensures forall e :: 0 <= e < m.mNbBuffers ==> Bytes(toReadDevice[e]) == FromDevice(m.State(), offset, size, e)
      ensures ok <==> Readable(m.State(), offset, size)
    {
      ghost var b := m.State();
      toReadDevice := [];
      var d := 0;
      while d < m.mNbBuffers
        invariant 0 <= d <= m.mNbBuffers && |toReadDevice| == d
        invariant dataRequired.Valid() && m.Valid() && m.State() == b
        invariant dataRequired.Contents() == Missing(b, offset, size, d)
        invariant forall e :: 0 <= e < d ==> Canonical(toReadDevice[e])
        invariant forall e :: 0 <= e < d ==> Bytes(toReadDevice[e]) == FromDevice(b, offset, size, e)
      {
        MissingStep(b, offset, size, d);
        var toRead := ListInterval.Intersection(dataRequired.mList, m.devicesValidData[d].mList);
        toReadDevice := toReadDevice + [toRead.mList];
        dataRequired.Difference(toRead.mList);
        d := d + 1;
      }
      NothingMissing(b, offset, size);
      if dataRequired.mList != [] { FirstInterval(dataRequired.mList); }
      ok := dataRequired.mList == [];
    }

    method CopyFromDevices(m: MemoryHandle, offset: nat, size: nat, toReadDevice: seq<seq<Interval>>, ptr: array<Byte>)
      requires m.Valid() && offset + size <= m.mSize && ptr.Length >= size
      requires |toReadDevice| == m.mNbBuffers
      requires forall e :: 0 <= e < m.mNbBuffers ==> Canonical(toReadDevice[e])
      requires forall e :: 0 <= e < m.mNbBuffers ==> Bytes(toReadDevice[e]) == FromDevice(m.State(), offset, size, e)
      requires Readable(m.State(), offset, size) && Copied(ptr[..], m.State(), offset, size, m.State().hostValid)
      modifies ptr
      ensures ptr[..size] == ReadResult(m.State(), offset, size)
      ensures ptr[size..] == old(ptr[size..])
    {
      ghost var b := m.State();
      ghost var done := b.hostValid;
      var d := 0;
      while d < m.mNbBuffers
        invariant 0 <= d <= m.mNbBuffers && m.Valid() && m.State() == b
        invariant Copied(ptr[..], b, offset, size, done) && ptr[size..] == old(ptr[size..])
        invariant done + Missing(b, offset, size, d) >= Span(offset, size)
      {
        MissingStep(b, offset, size, d);
        ghost var before := ptr[..];
        CopyOut(ptr, offset, m.mBuffers[d], toReadDevice[d]);
        PatchedCopies(before, ptr[..], m.mBuffers[d], Bytes(toReadDevice[d]), b, offset, size, done);
        done := done + Bytes(toReadDevice[d]);
        d := d + 1;
      }
      NothingMissing(b, offset, size);
      forall i | 0 <= i < size
        ensures ptr[i] == Current(b, offset + i)
      {
        assert InSpan(offset, size, offset + i) && offset + i in Span(offset, size);
      }
    }

    // `ok` is false exactly when the source's assertion on missing data fails.
    method Read(m: MemoryHandle, offset: nat, size: nat, ptr: array<Byte>) returns (ok: bool)
      requires m.Valid() && size > 0 && offset + size <= m.mSize && ptr.Length >= size
      modifies ptr
      ensures ok <==> Readable(m.State(), offset, size)
      ensures ok ==> ptr[..size] == ReadResult(m.State(), offset, size)
      ensures ptr[size..] == old(ptr[size..])
    {
      ghost var b := m.State();
      var intersection, dataRequired := SplitByHost(m, offset, size);
      CopyOut(ptr, offset, m.mLocalBuffer, intersection.mList);
      PatchedCopies(old(ptr[..]), ptr[..], m.mLocalBuffer, intersection.Contents(), b, offset, size, {});
      var toReadDevice;
      toReadDevice, ok := ComputeReads(m, offset, size, dataRequired);
      if ok {
        CopyFromDevices(m, offset, size, toReadDevice, ptr);
      }
    }

    method Write(m: MemoryHandle, offset: nat, data: seq<Byte>)
      requires m.Valid() && |data| > 0 && offset + |data| <= m.mSize
      modifies m.Repr()
      ensures m.Valid() && m.State() == WriteBuffer(old(m.State()), delayedWrite, offset, data)
    {
      var total := offset + |data|;
      RaiseUsed(m, total);

      if !delayedWrite {
        WriteThrough(m, offset, data);
      } else {
        WriteLocal(m, offset, data);
      }
    }

    // Send the data to every device.
    method WriteThrough(m: MemoryHandle, offset: nat, data: seq<Byte>)
      requires m.Valid() && |data| > 0 && offset + |data| <= m.mSize
      modifies m.Repr()
      ensures m.Valid() && m.State() == WriteDevices(old(m.State()), offset, data)
    {
      m.WriteOnDevices(offset, data);
      var inter := Interval(offset, offset + |data| - 1);
      SpanIsRange(offset, |data|);
      m.MoveToDevices(inter);
      assert m.DevValid() == WriteDevices(old(m.State()), offset, data).devValid;
      assert m.mBuffers == WriteDevices(old(m.State()), offset, data).dev;
    }

    // Copy the data to the local buffer only.
    method WriteLocal(m: MemoryHandle, offset: nat, data: seq<Byte>)
      requires m.Valid() && |data| > 0 && offset + |data| <= m.mSize
      modifies m.Repr()
      ensures m.Valid()
      ensures m.State() == WriteHost(old(m.State()), offset, data).(maxUsed := old(m.State()).maxUsed)
    {
      m.mLocalBuffer := Splice(m.mLocalBuffer, offset, data);
      var inter := Interval(offset, offset + |data| - 1);
      SpanIsRange(offset, |data|);
      m.MoveToHost(inter);
      assert m.DevValid() == WriteHost(old(m.State()), offset, data).devValid;
    }

    // Bring the missing bytes of a range from the devices to the local buffer.
    method FetchMissing(m: MemoryHandle, offset: nat, size: nat) returns (ok: bool)
      requires m.Valid() && size > 0 && offset + size <= m.mSize
      modifies m.Repr()
      ensures m.Valid()
      ensures ok <==> Readable(old(m.State()), offset, size)
      ensures ok ==>
        m.State() == old(m.State()).(host := Splice(old(m.State()).host, offset, ReadResult(old(m.State()), offset, size)))
    {
      ghost var b := m.State();
      var intersection, missing := SplitByHost(m, offset, size);
      if |missing.mList| > 0 {
        FetchFromDevices(m, offset, size, missing);
        NothingMissing(b, offset, size);
        if missing.mList != [] { FirstInterval(missing.mList); }
        ok := missing.mList == [];
      } else {
        NothingMissingFrom(b, offset, size, 0);
        ok := true;
      }
      if ok { FetchedAll(b, offset, size, m.mLocalBuffer); }
    }

    method FetchFromDevices(m: MemoryHandle, offset: nat, size: nat, missing: ListInterval)
      requires m.Valid() && size > 0 && offset + size <= m.mSize && missing.Valid()
      requires missing != m.hostValidData && missing !in m.devicesValidData
      requires missing.Contents() == Missing(m.State(), offset, size, 0)
      modifies m`mLocalBuffer, missing`mList
      ensures m.Valid() && missing.Valid()
      ensures m.State() == old(m.State()).(host := m.mLocalBuffer)
      ensures missing.Contents() == Missing(old(m.State()), offset, size, m.mNbBuffers)
      ensures Fetched(old(m.State()), offset, size, m.mNbBuffers, m.mLocalBuffer)
    {
      ghost var b := m.State();
      var d := 0;
      while d < m.mNbBuffers
        invariant 0 <= d <= m.mNbBuffers && m.Valid() && missing.Valid()
        invariant missing.Contents() == Missing(b, offset, size, d)
        invariant m.State() == b.(host := m.mLocalBuffer)
        invariant Fetched(b, offset, size, d, m.mLocalBuffer)
      {
        MissingStep(b, offset, size, d);
        var intersection := ListInterval.Intersection(missing.mList, m.devicesValidData[d].mList);
        ghost var host := m.mLocalBuffer;
        ReadIntervals(m, d, intersection.mList);
        FetchedStep(b, offset, size, d, host);
        missing.Difference(intersection.mList);
        d := d + 1;
      }
    }

    method EnsureLocal(m: MemoryHandle, offset: nat, size: nat) returns (ok: bool)
      requires m.Valid() && size > 0 && offset + size <= m.mSize
      modifies m.Repr()
      ensures m.Valid()
      ensures ok <==> Readable(old(m.State()), offset, size)
      ensures ok ==> m.State() == Gather(old(m.State()), offset, size)
    {
      ok := FetchMissing(m, offset, size);
      if ok {
        SpanIsRange(offset, size);
        m.hostValidData.Add(Interval(offset, offset + size - 1));
      }
    }

    // enqueueRead of every interval of a list into the local buffer
    method ReadIntervals(m: MemoryHandle, d: nat, l: seq<Interval>)
      requires m.Valid() && d < m.mNbBuffers && Canonical(l) && Bytes(l) <= Span(0, m.mSize)
      modifies m`mLocalBuffer
      ensures m.Valid() && m.mLocalBuffer == Merge(old(m.mLocalBuffer), Bytes(l), m.mBuffers[d])
    {
      ghost var host := m.mLocalBuffer;
      assert l[..0] == [] && Bytes(l[..0]) == {};
      var id := 0;
      while id < |l|
        invariant 0 <= id <= |l| && m.Valid()
        invariant m.mLocalBuffer == Merge(host, Bytes(l[..id]), m.mBuffers[d])
      {
        BytesAt(l, id, l[id].hb);
        PatchIsMerge(host, m.mBuffers[d], l, id);
        m.mLocalBuffer := Patch(m.mLocalBuffer, m.mBuffers[d], l[id]);
        id := id + 1;
      }
      assert l[..id] == l;
    }

    // At least the first `total` bytes are in use.
    method RaiseUsed(m: MemoryHandle, total: nat)
      requires m.Valid()
      modifies m`mMaxUsedSize
      ensures m.Valid()
      ensures m.State() == old(m.State()).(maxUsed := MaxUsed(old(m.State()), total))
    {
      m.mMaxUsedSize := if total > m.mMaxUsedSize then total else m.mMaxUsedSize;
    }

    // Copies through the local buffers, which then hold the latest bytes.
    method CopyLocal(src: MemoryHandle, dst: MemoryHandle, srcOffset: nat, dstOffset: nat, size: nat) returns (ok: bool)
      requires src.Valid() && dst.Valid() && size > 0
      requires srcOffset + size <= src.mSize && dstOffset + size <= dst.mSize
      requires src == dst || src.Repr() !! dst.Repr()
      modifies src.Repr(), dst.Repr()
      ensures src.Valid() && dst.Valid()
      ensures ok <==> Readable(old(src.State()), srcOffset, size)
      ensures ok ==>
        var mid := Gather(old(src.State()), srcOffset, size);
        var b := if src == dst then mid else old(dst.State());
        && (src != dst ==> src.State() == mid)
        && dst.State() == WriteHost(b, dstOffset, mid.host[srcOffset..srcOffset + size]).(maxUsed := b.maxUsed)
    {
      ghost var target := dst.State();
      // The source range is now current in the local copy of src, or the copy fails.
      ok := EnsureLocal(src, srcOffset, size);
      if !ok {
        return;
      }
      assert src != dst ==> dst.Valid() && dst.State() == target;
      ghost var mid := src.State();
      // From here on the copy is a delayed write.
      WriteLocal(dst, dstOffset, src.mLocalBuffer[srcOffset..srcOffset + size]);
      assert src != dst ==> src.Valid() && src.State() == mid;
    }

    // `ok` is false exactly when the source's assertion on missing data fails.
    method Copy(src: MemoryHandle, dst: MemoryHandle, srcOffset: nat, dstOffset: nat, size: nat) returns (ok: bool)
      requires src.Valid() && dst.Valid() && size > 0
      requires srcOffset + size <= src.mSize && dstOffset + size <= dst.mSize
      requires src == dst || src.Repr() !! dst.Repr()
      modifies src.Repr(), dst.Repr()
      ensures src.Valid() && dst.Valid()
      ensures ok <==> Readable(old(src.State()), srcOffset, size)
      ensures ok && src != dst ==>
        && src.State() == Gather(old(src.State()), srcOffset, size)
        && dst.State() == WriteHost(old(dst.State()), dstOffset, src.State().host[srcOffset..srcOffset + size])
      ensures ok && src == dst ==> src.State() == CopyWithin(old(src.State()), srcOffset, dstOffset, size)
    {
      RaiseUsed(dst, dstOffset + size);
      ghost var raised, target := src.State(), dst.State();
      ok := CopyLocal(src, dst, srcOffset, dstOffset, size);
      ReadableRaised(old(src.State()), raised.maxUsed, srcOffset, size);
      if ok {
        ghost var mid := Gather(raised, srcOffset, size);
        if src == dst {
          SelfCopy(old(src.State()), raised, mid, src.State(), srcOffset, dstOffset, size);
        } else {
          RaisedWrite(old(dst.State()), target, dstOffset, mid.host[srcOffset..srcOffset + size]);
        }
      }
    }

    method Fill(m: MemoryHandle, pattern: seq<Byte>, offset: nat, size: nat)
      requires m.Valid() && |pattern| > 0 && size > 0 && offset + size <= m.mSize
      modifies m.Repr()
      ensures m.Valid() && m.State() == FillBuffer(old(m.State()), pattern, offset, size)
      ensures m.mNbBuffers > 0 ==>
        Readable(m.State(), offset, size) && Repeats(ReadResult(m.State(), offset, size), pattern)
    {
      m.WriteOnDevices(offset, FillData(pattern, size));
      var inter := Interval(offset, offset + size - 1);
      SpanIsRange(offset, size);
      m.AddOnDevices(inter);
      m.hostValidData.Remove(inter);
      assert m.DevValid() == FillBuffer(old(m.State()), pattern, offset, size).devValid;
      assert m.mBuffers == FillBuffer(old(m.State()), pattern, offset, size).dev;
      if m.mNbBuffers > 0 {
        FillReadBack(old(m.State()), pattern, offset, size);
      }
    }
  }
}

/** The multi-device coherence protocol as a step system on values
    (libsplit/src/BufferManager.cpp, libsplit/src/Driver.cpp).
    A buffer has a host copy and one copy per device; validity sets record which bytes of each
    copy are current. The logical content is what a single device would hold: a map on the
    bytes defined so far. */
module Coherence {
  import Arithmetic

  newtype Byte = b: int | 0 <= b < 256

  datatype Addr = Addr(buf: nat, off: nat)

  type Content = map<Addr, Byte>

  datatype Buffer = Buffer(
    isRO: bool,
    maxUsed: nat,
    hostValid: set<nat>,
    host: seq<Byte>,
    devValid: seq<set<nat>>,
    dev: seq<seq<Byte>>)

  type Memory = seq<Buffer>

  ghost predicate WellFormed(b: Buffer) {
    && |b.host| > 0
    && |b.devValid| == |b.dev|
    && forall d :: 0 <= d < |b.dev| ==> |b.dev[d]| == |b.host|
  }

  ghost predicate WellFormedMemory(mem: Memory, nbDevices: nat) {
    forall k :: 0 <= k < |mem| ==> WellFormed(mem[k]) && |mem[k].dev| == nbDevices
  }

  predicate InSpan(off: nat, size: nat, x: nat) {
    off <= x < off + size
  }

  ghost function Span(off: nat, size: nat): set<nat> {
    set x: nat | x < off + size && InSpan(off, size, x)
  }

  // ---- Coherence ----

  ghost predicate Holds(valid: set<nat>, data: seq<Byte>, k: nat, c: Content) {
    forall x :: x in valid && x < |data| && Addr(k, x) in c ==> data[x] == c[Addr(k, x)]
  }

  ghost predicate ValidSomewhere(b: Buffer, x: nat) {
    x in b.hostValid || exists d :: 0 <= d < |b.devValid| && x in b.devValid[d]
  }

  // A byte marked valid on a copy holds the latest logical value there, every defined byte is
  // valid somewhere, and on a read-only buffer the bytes past the used size never leave the devices.
  ghost predicate CoherentBuffer(b: Buffer, k: nat, c: Content) {
    && WellFormed(b)
    && (forall x: nat :: Addr(k, x) in c ==> x < |b.host| && ValidSomewhere(b, x))
    && Holds(b.hostValid, b.host, k, c)
    && (forall d :: 0 <= d < |b.dev| ==> Holds(b.devValid[d], b.dev[d], k, c))
    && (b.isRO ==> forall x: nat, d :: Addr(k, x) in c && x >= b.maxUsed && 0 <= d < |b.devValid| ==> x in b.devValid[d])
  }

  ghost predicate Coherent(mem: Memory, nbDevices: nat, c: Content) {
    && WellFormedMemory(mem, nbDevices)
    && (forall a :: a in c ==> a.buf < |mem|)
    && forall k :: 0 <= k < |mem| ==> CoherentBuffer(mem[k], k, c)
  }

  // ---- Reading and writing ranges ----

  function Splice(s: seq<Byte>, off: nat, data: seq<Byte>): (r: seq<Byte>)
    requires off + |data| <= |s|
  {
    s[..off] + data + s[off + |data|..]
  }

  // The first device from `d` on that holds byte x, or nbDevices.
  ghost function Holder(devValid: seq<set<nat>>, x: nat, d: nat): (r: nat)
    requires d <= |devValid|
    ensures d <= r <= |devValid|
    ensures r < |devValid| ==> x in devValid[r]
    ensures forall e :: d <= e < r ==> x !in devValid[e]
    decreases |devValid| - d
  {
    if d == |devValid| || x in devValid[d] then d else Holder(devValid, x, d + 1)
  }

  // The byte the runtime reads at x: the host copy when valid there, else the first device holding it.
  ghost function Current(b: Buffer, x: nat): Byte
    requires WellFormed(b) && x < |b.host|
  {
    var d := Holder(b.devValid, x, 0);
    if x in b.hostValid || d == |b.devValid| then b.host[x] else b.dev[d][x]
  }

  ghost predicate Readable(b: Buffer, off: nat, size: nat) {
    forall x :: x in Span(off, size) ==> ValidSomewhere(b, x)
  }

  ghost function ReadResult(b: Buffer, off: nat, size: nat): (r: seq<Byte>)
    requires WellFormed(b) && off + size <= |b.host|
    ensures |r| == size && forall i :: 0 <= i < size ==> r[i] == Current(b, off + i)
  {
    seq(size, i requires 0 <= i < size => Current(b, off + i))
  }

  ghost function MaxUsed(b: Buffer, total: nat): nat {
    if total > b.maxUsed then total else b.maxUsed
  }

  // write with delayed writes: the data goes to the host copy only.
  ghost function WriteHost(b: Buffer, off: nat, data: seq<Byte>): Buffer
    requires off + |data| <= |b.host|
  {
    b.(maxUsed := MaxUsed(b, off + |data|),
       host := Splice(b.host, off, data),
       hostValid := b.hostValid + Span(off, |data|),
       devValid := seq(|b.devValid|, d requires 0 <= d < |b.devValid| => b.devValid[d] - Span(off, |data|)))
  }

  // Data sent to every device and removed from the host copy.
  ghost function WriteDevices(b: Buffer, off: nat, data: seq<Byte>): Buffer
    requires WellFormed(b) && off + |data| <= |b.host|
  {
    b.(dev := seq(|b.dev|, d requires 0 <= d < |b.dev| => Splice(b.dev[d], off, data)),
       hostValid := b.hostValid - Span(off, |data|),
       devValid := seq(|b.devValid|, d requires 0 <= d < |b.devValid| => b.devValid[d] + Span(off, |data|)))
  }

  ghost function WriteBuffer(b: Buffer, delayedWrite: bool, off: nat, data: seq<Byte>): Buffer
    requires WellFormed(b) && off + |data| <= |b.host|
  {
    if delayedWrite then WriteHost(b, off, data)
    else WriteDevices(b, off, data).(maxUsed := MaxUsed(b, off + |data|))
  }

  // The pattern over and over again: it comes first, and each byte is the one a pattern length before it.
  ghost predicate Repeats(r: seq<Byte>, pattern: seq<Byte>) {
    && (forall i :: 0 <= i < |r| && i < |pattern| ==> r[i] == pattern[i])
    && (forall i, j :: 0 <= i && j == i + |pattern| && j < |r| ==> r[j] == r[i])
  }

  function FillData(pattern: seq<Byte>, size: nat): (r: seq<Byte>)
    requires |pattern| > 0
    ensures |r| == size && Repeats(r, pattern)
  {
    var r := seq(size, i requires 0 <= i < size => PatternAt(pattern, i));
    FilledRepeats(pattern, r);
    r
  }

  // The pattern byte that belongs at place i.
  function PatternAt(pattern: seq<Byte>, i: nat): Byte
    requires |pattern| > 0
  {
    pattern[i % |pattern|]
  }

  lemma PatternRepeats(pattern: seq<Byte>, i: nat)
    requires |pattern| > 0
    ensures PatternAt(pattern, i + |pattern|) == PatternAt(pattern, i)
    ensures i < |pattern| ==> PatternAt(pattern, i) == pattern[i]
  {
    ModShift(i, |pattern|);
    if i < |pattern| {
      Arithmetic.ModIs(i, |pattern|, 0, i);
    }
  }

  lemma FilledRepeats(pattern: seq<Byte>, r: seq<Byte>)
    requires |pattern| > 0 && forall i :: 0 <= i < |r| ==> r[i] == PatternAt(pattern, i)
    ensures Repeats(r, pattern)
  {
    forall i, j | 0 <= i && j == i + |pattern| && j < |r| ensures r[j] == r[i] {
      PatternRepeats(pattern, i);
    }
    forall i | 0 <= i < |r| && i < |pattern| ensures r[i] == pattern[i] {
      PatternRepeats(pattern, i);
    }
  }

  lemma ModShift(i: nat, n: nat)
    requires n > 0
    ensures (i + n) % n == i % n
  {
    Arithmetic.Division(i, n);
    assert i + n == n * (i / n + 1) + i % n;
    Arithmetic.ModIs(i + n, n, i / n + 1, i % n);
  }

  // fill goes to the devices and does not move the used size.
  ghost function FillBuffer(b: Buffer, pattern: seq<Byte>, off: nat, size: nat): Buffer
    requires WellFormed(b) && off + size <= |b.host| && |pattern| > 0
  {
    WriteDevices(b, off, FillData(pattern, size))
  }

  /** What is read back after a fill is the pattern over and over again. */
  lemma FillReadBack(b: Buffer, pattern: seq<Byte>, off: nat, size: nat)
    requires WellFormed(b) && off + size <= |b.host| && |pattern| > 0 && |b.dev| > 0
    ensures var r := FillBuffer(b, pattern, off, size);
      WellFormed(r) && Readable(r, off, size) && Repeats(ReadResult(r, off, size), pattern)
  {
    FilledIsRead(b, off, FillData(pattern, size));
  }

  // Data sent to every device are what is read back.
  lemma FilledIsRead(b: Buffer, off: nat, data: seq<Byte>)
    requires WellFormed(b) && off + |data| <= |b.host| && |b.dev| > 0
    ensures var r := WriteDevices(b, off, data);
      WellFormed(r) && Readable(r, off, |data|) && ReadResult(r, off, |data|) == data
  {
    var r := WriteDevices(b, off, data);
    forall x | x in Span(off, |data|) ensures x !in r.hostValid && x in r.devValid[0] {
    }
    forall i | 0 <= i < |data| ensures Current(r, off + i) == data[i] {
      assert InSpan(off, |data|, off + i) && off + i in Span(off, |data|);
      assert Holder(r.devValid, off + i, 0) == 0;
    }
  }

  // First half of copy: bring the source range to the host copy.
  ghost function Gather(b: Buffer, off: nat, size: nat): Buffer
    requires WellFormed(b) && off + size <= |b.host|
  {
    b.(host := Splice(b.host, off, ReadResult(b, off, size)),
       hostValid := b.hostValid + Span(off, size))
  }

  // A copy inside one buffer.
  ghost function CopyWithin(b: Buffer, srcOff: nat, dstOff: nat, size: nat): Buffer
    requires WellFormed(b) && srcOff + size <= |b.host| && dstOff + size <= |b.host|
  {
    var gathered := Gather(b, srcOff, size);
    WriteHost(gathered, dstOff, gathered.host[srcOff..srcOff + size])
  }

  // Second half of copy: put the bytes of the source's host copy into the destination's.
  ghost function CopyBuffers(mem: Memory, src: nat, dst: nat, srcOff: nat, dstOff: nat, size: nat): Memory
    requires src < |mem| && dst < |mem|
    requires WellFormed(mem[src]) && WellFormed(mem[dst])
    requires srcOff + size <= |mem[src].host| && dstOff + size <= |mem[dst].host|
  {
    if src == dst then mem[src := CopyWithin(mem[src], srcOff, dstOff, size)]
    else
      var gathered := Gather(mem[src], srcOff, size);
      mem[src := gathered][dst := WriteHost(mem[dst], dstOff, gathered.host[srcOff..srcOff + size])]
  }

  // ---- Lemmas on the user operations ----

  // The latest values written over a range of buffer k.
  ghost function Overlay(c: Content, k: nat, off: nat, data: seq<Byte>): Content {
    c + map a: Addr | a in SpanAddrs(k, off, |data|) :: data[a.off - off]
  }

  ghost function SpanAddrs(k: nat, off: nat, size: nat): set<Addr> {
    set x: nat | x < off + size && InSpan(off, size, x) :: Addr(k, x)
  }

  ghost predicate Defined(c: Content, k: nat, off: nat, size: nat) {
    SpanAddrs(k, off, size) <= c.Keys
  }

  /** In a coherent state the byte the runtime picks is the latest logical one. */
  lemma CurrentIsLatest(b: Buffer, k: nat, c: Content, x: nat)
    requires CoherentBuffer(b, k, c) && Addr(k, x) in c
    ensures Current(b, x) == c[Addr(k, x)]
  {
  }

  /** A read of defined bytes never meets its assertion and returns the latest values. */
  lemma ReadReturnsLatest(b: Buffer, k: nat, c: Content, off: nat, size: nat)
    requires CoherentBuffer(b, k, c) && Defined(c, k, off, size)
    requires off + size <= |b.host|
    ensures Readable(b, off, size)
    ensures forall i :: 0 <= i < size ==> ReadResult(b, off, size)[i] == c[Addr(k, off + i)]
  {
    forall i | 0 <= i < size
      ensures ReadResult(b, off, size)[i] == c[Addr(k, off + i)]
    {
      assert Addr(k, off + i) in SpanAddrs(k, off, size);
      CurrentIsLatest(b, k, c, off + i);
    }
    forall x | x in Span(off, size)
      ensures ValidSomewhere(b, x)
    {
      assert Addr(k, x) in SpanAddrs(k, off, size);
    }
  }

  lemma OverlayAt(c: Content, k: nat, off: nat, data: seq<Byte>, x: nat)
    ensures off <= x < off + |data| ==> Addr(k, x) in Overlay(c, k, off, data) && Overlay(c, k, off, data)[Addr(k, x)] == data[x - off]
    ensures !(off <= x < off + |data|) ==> (Addr(k, x) in Overlay(c, k, off, data) <==> Addr(k, x) in c)
    ensures !(off <= x < off + |data|) && Addr(k, x) in c ==> Overlay(c, k, off, data)[Addr(k, x)] == c[Addr(k, x)]
  {
    if off <= x < off + |data| { assert Addr(k, x) in SpanAddrs(k, off, |data|); }
  }

  lemma OverlayOther(c: Content, k: nat, off: nat, data: seq<Byte>, j: nat)
    requires j != k
    ensures forall x: nat :: Addr(j, x) in Overlay(c, k, off, data) <==> Addr(j, x) in c
    ensures forall x: nat :: Addr(j, x) in c ==> Overlay(c, k, off, data)[Addr(j, x)] == c[Addr(j, x)]
  {
  }

  lemma WriteHostCoherent(b: Buffer, k: nat, c: Content, off: nat, data: seq<Byte>)
    requires CoherentBuffer(b, k, c) && off + |data| <= |b.host|
    ensures CoherentBuffer(WriteHost(b, off, data), k, Overlay(c, k, off, data))
  {
    var b', c' := WriteHost(b, off, data), Overlay(c, k, off, data);
    forall x: nat | Addr(k, x) in c'
      ensures x < |b'.host| && ValidSomewhere(b', x)
      ensures x in b'.hostValid ==> b'.host[x] == c'[Addr(k, x)]
      ensures forall d :: 0 <= d < |b'.dev| && x in b'.devValid[d] ==> b'.dev[d][x] == c'[Addr(k, x)]
      ensures b'.isRO && x >= b'.maxUsed ==> forall d :: 0 <= d < |b'.devValid| ==> x in b'.devValid[d]
    {
      OverlayAt(c, k, off, data, x);
      if off <= x < off + |data| {
        assert x in Span(off, |data|);
      } else if x !in b.hostValid {
        var d :| 0 <= d < |b.devValid| && x in b.devValid[d];
        assert x in b'.devValid[d];
      }
    }
  }

  lemma WriteDevicesCoherent(b: Buffer, k: nat, c: Content, off: nat, data: seq<Byte>)
    requires CoherentBuffer(b, k, c) && off + |data| <= |b.host| && |b.dev| > 0
    ensures CoherentBuffer(WriteDevices(b, off, data), k, Overlay(c, k, off, data))
  {
    var b', c' := WriteDevices(b, off, data), Overlay(c, k, off, data);
    forall x: nat | Addr(k, x) in c'
      ensures x < |b'.host| && ValidSomewhere(b', x)
      ensures x in b'.hostValid ==> b'.host[x] == c'[Addr(k, x)]
      ensures forall d :: 0 <= d < |b'.dev| && x in b'.devValid[d] ==> b'.dev[d][x] == c'[Addr(k, x)]
      ensures b'.isRO && x >= b'.maxUsed ==> forall d :: 0 <= d < |b'.devValid| ==> x in b'.devValid[d]
    {
      OverlayAt(c, k, off, data, x);
      if off <= x < off + |data| {
        assert x in b'.devValid[0];
      } else if x !in b.hostValid {
        var d :| 0 <= d < |b.devValid| && x in b.devValid[d];
        assert x in b'.devValid[d];
      }
    }
  }

  lemma RaiseMaxUsed(b: Buffer, k: nat, c: Content, maxUsed: nat)
    requires CoherentBuffer(b, k, c) && maxUsed >= b.maxUsed
    ensures CoherentBuffer(b.(maxUsed := maxUsed), k, c)
  {
    var b' := b.(maxUsed := maxUsed);
    assert forall x :: ValidSomewhere(b, x) ==> ValidSomewhere(b', x);
  }

  lemma GatherCoherent(b: Buffer, k: nat, c: Content, off: nat, size: nat)
    requires CoherentBuffer(b, k, c) && Defined(c, k, off, size) && off + size <= |b.host|
    ensures CoherentBuffer(Gather(b, off, size), k, c)
  {
    ReadReturnsLatest(b, k, c, off, size);
    var b' := Gather(b, off, size);
    forall x: nat | Addr(k, x) in c
      ensures ValidSomewhere(b', x)
      ensures x in b'.hostValid ==> b'.host[x] == c[Addr(k, x)]
    {
      if off <= x < off + size {
        assert x in Span(off, size);
        assert b'.host[x] == ReadResult(b, off, size)[x - off];
      } else if x !in b.hostValid {
        var d :| 0 <= d < |b.devValid| && x in b.devValid[d];
        assert x in b'.devValid[d];
      }
    }
  }

  lemma CoherentUpdate(mem: Memory, n: nat, c: Content, k: nat, b: Buffer, off: nat, data: seq<Byte>)
    requires Coherent(mem, n, c) && k < |mem| && |b.dev| == n
    requires CoherentBuffer(b, k, Overlay(c, k, off, data))
    ensures Coherent(mem[k := b], n, Overlay(c, k, off, data))
  {
    var c' := Overlay(c, k, off, data);
    forall j | 0 <= j < |mem| && j != k
      ensures CoherentBuffer(mem[j], j, c')
    {
      OverlayOther(c, k, off, data, j);
    }
  }
}

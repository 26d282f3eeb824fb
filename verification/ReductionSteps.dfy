/** The validity update after a host reduction (libsplit/src/Driver.cpp, performHostAtomicSumReduction). */
module ReductionSteps {
  import opened Intervals
  import opened Coherence
  import opened MemoryHandles
  import opened Drivers

  // Coherent with c but for a region in which the devices hold partial sums.
  ghost predicate CoherentOutside(b: Buffer, k: nat, c: Content, region: set<nat>) {
    && WellFormed(b)
    && (forall x: nat :: Addr(k, x) in c ==> x < |b.host| && (x in region || ValidSomewhere(b, x)))
    && Holds(b.hostValid - region, b.host, k, c)
    && forall d :: 0 <= d < |b.dev| ==> Holds(b.devValid[d] - region, b.dev[d], k, c)
  }

  // The reduced region is on the host and on no device.
  ghost function Reduce(b: Buffer, region: set<nat>, host: seq<Byte>): Buffer {
    b.(host := host, hostValid := b.hostValid + region,
       devValid := seq(|b.devValid|, d requires 0 <= d < |b.devValid| => b.devValid[d] - region))
  }

  // The host copy has the reduced values in the region and is otherwise as before.
  ghost predicate HoldsReduced(b: Buffer, host: seq<Byte>, k: nat, c: Content, region: set<nat>) {
    && |host| == |b.host| && (forall x :: 0 <= x < |host| && x !in region ==> host[x] == b.host[x])
    && Holds(region, host, k, c)
  }

  /** After the reduction the buffer is coherent again, with the content that has the reduced values. */
  lemma ReductionCoherent(b: Buffer, k: nat, c: Content, region: set<nat>, host: seq<Byte>)
    requires !b.isRO && CoherentOutside(b, k, c, region) && HoldsReduced(b, host, k, c, region)
    ensures CoherentBuffer(Reduce(b, region, host), k, c)
  {
    var r := Reduce(b, region, host);
    forall x: nat | Addr(k, x) in c ensures x < |r.host| && ValidSomewhere(r, x) {
      if x !in region && x !in b.hostValid {
        var d :| 0 <= d < |b.devValid| && x in b.devValid[d];
        assert x in r.devValid[d];
      }
    }
  }

  // The loop over the devices, and the host.
  method FinishReduction(h: MemoryHandle, region: seq<Interval>)
    requires h.Valid() && Canonical(region)
    modifies h.Repr()
    ensures h.Valid() && h.State() == Reduce(old(h.State()), Bytes(region), old(h.State()).host)
  {
    RemoveElsewhere(h, h.mNbBuffers, region);
    h.hostValidData.MyUnion(region);
    assert h.DevValid() == Reduce(old(h.State()), Bytes(region), old(h.State()).host).devValid;
  }
}

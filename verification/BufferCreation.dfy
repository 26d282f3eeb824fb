/** The initial state of a buffer (libsplit/src/Handle/MemoryHandle.cpp). */
module BufferCreation {
  import opened Coherence

  datatype Flags = Flags(readOnly: bool, useHostPtr: bool, copyHostPtr: bool, allocHostPtr: bool)

  // `hostBytes` is what host_ptr points to; `garbage` is what the fresh device buffers hold.
  ghost function NewBuffer(flags: Flags, size: nat, hostBytes: seq<Byte>, garbage: seq<seq<Byte>>): Buffer
    requires |hostBytes| == size
  {
    Buffer(
      flags.readOnly,
      if flags.allocHostPtr || flags.useHostPtr || flags.copyHostPtr then size else 1,
      if flags.copyHostPtr then Span(0, size) else {},
      if flags.copyHostPtr || (flags.useHostPtr && !flags.allocHostPtr) then hostBytes else seq(size, _ => 0),
      seq(|garbage|, _ => {}),
      garbage)
  }

  // What a single device holds after creation: section 5.2.1 of the OpenCL 1.2 specification defines
  // the content for CL_MEM_COPY_HOST_PTR and CL_MEM_USE_HOST_PTR only.
  ghost function NewContent(k: nat, flags: Flags, hostBytes: seq<Byte>): Content {
    if flags.copyHostPtr || flags.useHostPtr then Overlay(map[], k, 0, hostBytes) else map[]
  }

  /** A new buffer is coherent with what OpenCL promises except for CL_MEM_USE_HOST_PTR without
      CL_MEM_COPY_HOST_PTR: the host bytes are stored but never marked valid. */
  lemma NewBufferCoherent(k: nat, flags: Flags, size: nat, hostBytes: seq<Byte>, garbage: seq<seq<Byte>>)
    requires size > 0 && |hostBytes| == size
    requires forall d :: 0 <= d < |garbage| ==> |garbage[d]| == size
    ensures CoherentBuffer(NewBuffer(flags, size, hostBytes, garbage), k, NewContent(k, flags, hostBytes))
      <==> flags.copyHostPtr || !flags.useHostPtr
  {
    var b, c := NewBuffer(flags, size, hostBytes, garbage), NewContent(k, flags, hostBytes);
    if flags.copyHostPtr || flags.useHostPtr {
      forall x: nat
        ensures Addr(k, x) in c <==> x < size
        ensures x < size ==> c[Addr(k, x)] == hostBytes[x] && (x in Span(0, size))
      {
        OverlayAt(map[], k, 0, hostBytes, x);
      }
      if !flags.copyHostPtr {
        assert Addr(k, 0) in c && !ValidSomewhere(b, 0);
      }
    }
  }

  // ---- All buffers of a program ----

  datatype Creation = Creation(flags: Flags, hostBytes: seq<Byte>, garbage: seq<seq<Byte>>)

  ghost predicate CreationsOk(cs: seq<Creation>, n: nat) {
    forall k :: 0 <= k < |cs| ==>
      && |cs[k].hostBytes| > 0 && |cs[k].garbage| == n
      && forall d :: 0 <= d < n ==> |cs[k].garbage[d]| == |cs[k].hostBytes|
  }

  predicate KeepsHostBytes(flags: Flags) {
    flags.copyHostPtr || !flags.useHostPtr
  }

  ghost function NewMemory(cs: seq<Creation>): (mem: Memory)
    ensures |mem| == |cs|
  {
    seq(|cs|, k requires 0 <= k < |cs| => NewBuffer(cs[k].flags, |cs[k].hostBytes|, cs[k].hostBytes, cs[k].garbage))
  }

  ghost function NewContents(cs: seq<Creation>): Content {
    if cs == [] then map[]
    else
      var k := |cs| - 1;
      NewContents(cs[..k]) + NewContent(k, cs[k].flags, cs[k].hostBytes)
  }

  lemma NewContentOwn(k: nat, flags: Flags, hostBytes: seq<Byte>, a: Addr)
    requires a in NewContent(k, flags, hostBytes)
    ensures a.buf == k
  {
  }

  // The content of all buffers is that of each.
  lemma {:induction false} NewContentsAt(cs: seq<Creation>, a: Addr)
    ensures a in NewContents(cs) <==> a.buf < |cs| && a in NewContent(a.buf, cs[a.buf].flags, cs[a.buf].hostBytes)
    ensures a in NewContents(cs) ==>
      a.buf < |cs| && a in NewContent(a.buf, cs[a.buf].flags, cs[a.buf].hostBytes)
      && NewContents(cs)[a] == NewContent(a.buf, cs[a.buf].flags, cs[a.buf].hostBytes)[a]
  {
    if cs == [] {
    } else {
      var k := |cs| - 1;
      NewContentsAt(cs[..k], a);
      if a in NewContent(k, cs[k].flags, cs[k].hostBytes) {
        NewContentOwn(k, cs[k].flags, cs[k].hostBytes, a);
      }
    }
  }

  // Coherence of one buffer only looks at the content of that buffer.
  lemma SameContent(b: Buffer, k: nat, c: Content, c': Content)
    requires forall x: nat :: Addr(k, x) in c <==> Addr(k, x) in c'
    requires forall x: nat :: Addr(k, x) in c && Addr(k, x) in c' ==> c[Addr(k, x)] == c'[Addr(k, x)]
    ensures CoherentBuffer(b, k, c) ==> CoherentBuffer(b, k, c')
  {
  }

  /** The initial state of the protocol: the memory of new buffers is coherent with what OpenCL promises exactly when
      no buffer is created with CL_MEM_USE_HOST_PTR alone. */
  lemma NewMemoryCoherent(cs: seq<Creation>, n: nat)
    requires CreationsOk(cs, n)
    ensures Coherent(NewMemory(cs), n, NewContents(cs)) <==> forall k :: 0 <= k < |cs| ==> KeepsHostBytes(cs[k].flags)
  {
    var mem, c := NewMemory(cs), NewContents(cs);
    forall a ensures a in c ==> a.buf < |mem| {
      NewContentsAt(cs, a);
    }
    forall k | 0 <= k < |cs| ensures CoherentBuffer(mem[k], k, c) <==> KeepsHostBytes(cs[k].flags) {
      var own := NewContent(k, cs[k].flags, cs[k].hostBytes);
      forall x: nat
        ensures Addr(k, x) in c <==> Addr(k, x) in own
        ensures Addr(k, x) in c && Addr(k, x) in own ==> c[Addr(k, x)] == own[Addr(k, x)]
      {
        NewContentsAt(cs, Addr(k, x));
      }
      SameContent(mem[k], k, c, own);
      SameContent(mem[k], k, own, c);
      NewBufferCoherent(k, cs[k].flags, |cs[k].hostBytes|, cs[k].hostBytes, cs[k].garbage);
    }
  }
}

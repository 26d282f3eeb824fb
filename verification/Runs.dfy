/** Whole runs of user operations and kernel launches: the distributed memory stays coherent and
    every read returns what a single device would return. */
module Runs {
  import opened Coherence
  import opened Transfers
  import opened KernelSteps
  import opened BufferCreation
  import ShiftedLaunches

  // ---- Operations ----

  datatype Op =
    | Write(buf: nat, delayed: bool, off: nat, data: seq<Byte>)
    | Read(buf: nat, off: nat, size: nat)
    | Copy(src: nat, dst: nat, srcOff: nat, dstOff: nat, size: nat)
    | Fill(buf: nat, pattern: seq<Byte>, off: nat, size: nat)
    | Run(kernel: Kernel)
    | RunShifted(shifted: ShiftedLaunches.ShiftedKernel)

  ghost predicate InBounds(mem: Memory, k: nat, off: nat, size: nat) {
    k < |mem| && size > 0 && off + size <= |mem[k].host|
  }

  // What OpenCL demands of the program: ranges inside the buffers, only defined bytes are read.
  ghost predicate LegalOp(mem: Memory, n: nat, c: Content, op: Op) {
    match op
    case Write(k, _, off, data) => InBounds(mem, k, off, |data|)
    case Read(k, off, size) => InBounds(mem, k, off, size) && Defined(c, k, off, size)
    case Copy(src, dst, srcOff, dstOff, size) =>
      InBounds(mem, src, srcOff, size) && InBounds(mem, dst, dstOff, size) && Defined(c, src, srcOff, size)
    case Fill(k, pattern, off, size) => InBounds(mem, k, off, size) && |pattern| > 0
    case Run(kernel) => LegalLaunch(mem, n, c, kernel)
    case RunShifted(s) => ShiftedLaunches.LegalShift(mem, n, c, s)
  }

  // ---- The distributed runtime ----

  ghost function Step(mem: Memory, n: nat, c: Content, op: Op): (r: Memory)
    requires WellFormedMemory(mem, n) && LegalOp(mem, n, c, op)
  {
    match op
    case Write(k, delayed, off, data) => mem[k := WriteBuffer(mem[k], delayed, off, data)]
    case Read(k, off, size) => mem
    case Copy(src, dst, srcOff, dstOff, size) => CopyBuffers(mem, src, dst, srcOff, dstOff, size)
    case Fill(k, pattern, off, size) => mem[k := FillBuffer(mem[k], pattern, off, size)]
    case Run(kernel) => Launch(mem, n, kernel)
    case RunShifted(s) => Launch(mem, n, ShiftedLaunches.KernelOfShift(s))
  }

  // The bytes the operation hands to the user.
  ghost function Observe(mem: Memory, n: nat, c: Content, op: Op): seq<Byte>
    requires WellFormedMemory(mem, n) && LegalOp(mem, n, c, op)
  {
    if op.Read? then ReadResult(mem[op.buf], op.off, op.size) else []
  }

  // ---- The single device ----

  ghost function Slice(c: Content, k: nat, off: nat, size: nat): seq<Byte>
    requires Defined(c, k, off, size)
  {
    assert forall x: nat :: InSpan(off, size, x) ==> Addr(k, x) in SpanAddrs(k, off, size);
    seq(size, i requires 0 <= i < size => c[Addr(k, off + i)])
  }

  ghost predicate DefinedOp(c: Content, op: Op) {
    && (op.Read? ==> Defined(c, op.buf, op.off, op.size))
    && (op.Copy? ==> Defined(c, op.src, op.srcOff, op.size))
    && (op.Fill? ==> |op.pattern| > 0)
  }

  ghost function StepContent(c: Content, op: Op): Content
    requires DefinedOp(c, op)
  {
    match op
    case Write(k, _, off, data) => Overlay(c, k, off, data)
    case Read(k, off, size) => c
    case Copy(src, dst, srcOff, dstOff, size) => Overlay(c, dst, dstOff, Slice(c, src, srcOff, size))
    case Fill(k, pattern, off, size) => Overlay(c, k, off, FillData(pattern, size))
    case Run(kernel) => RunSingleDevice(kernel.subs, c)
    case RunShifted(s) => RunItems(s.items, c)
  }

  ghost function ObserveContent(c: Content, op: Op): seq<Byte>
    requires DefinedOp(c, op)
  {
    if op.Read? then Slice(c, op.buf, op.off, op.size) else []
  }

  // ---- One step ----

  // The copied bytes are the latest ones of the source range.
  lemma GatheredData(b: Buffer, k: nat, c: Content, off: nat, size: nat)
    requires CoherentBuffer(b, k, c) && Defined(c, k, off, size) && off + size <= |b.host|
    ensures Gather(b, off, size).host[off..off + size] == Slice(c, k, off, size)
  {
    ReadReturnsLatest(b, k, c, off, size);
    GatheredIsRead(b, off, size);
    forall i | 0 <= i < size ensures ReadResult(b, off, size)[i] == Slice(c, k, off, size)[i] {
    }
  }

  lemma GatheredIsRead(b: Buffer, off: nat, size: nat)
    requires WellFormed(b) && off + size <= |b.host|
    ensures Gather(b, off, size).host[off..off + size] == ReadResult(b, off, size)
  {
  }

  lemma CopyCoherent(mem: Memory, n: nat, c: Content, src: nat, dst: nat, srcOff: nat, dstOff: nat, size: nat)
    requires Coherent(mem, n, c) && InBounds(mem, src, srcOff, size) && InBounds(mem, dst, dstOff, size)
    requires Defined(c, src, srcOff, size)
    ensures Coherent(CopyBuffers(mem, src, dst, srcOff, dstOff, size), n, Overlay(c, dst, dstOff, Slice(c, src, srcOff, size)))
  {
    var data := Slice(c, src, srcOff, size);
    var gathered := Gather(mem[src], srcOff, size);
    GatheredData(mem[src], src, c, srcOff, size);
    GatherCoherent(mem[src], src, c, srcOff, size);
    if src == dst {
      WriteHostCoherent(gathered, src, c, dstOff, data);
      CoherentUpdate(mem, n, c, src, CopyWithin(mem[src], srcOff, dstOff, size), dstOff, data);
    } else {
      WriteHostCoherent(mem[dst], dst, c, dstOff, data);
      CoherentUpdate(mem[src := gathered], n, c, dst, WriteHost(mem[dst], dstOff, data), dstOff, data);
    }
  }

  lemma WriteCoherent(mem: Memory, n: nat, c: Content, k: nat, delayed: bool, off: nat, data: seq<Byte>)
    requires n > 0 && Coherent(mem, n, c) && InBounds(mem, k, off, |data|)
    ensures Coherent(mem[k := WriteBuffer(mem[k], delayed, off, data)], n, Overlay(c, k, off, data))
  {
    if delayed {
      WriteHostCoherent(mem[k], k, c, off, data);
    } else {
      WriteDevicesCoherent(mem[k], k, c, off, data);
      RaiseMaxUsed(WriteDevices(mem[k], off, data), k, Overlay(c, k, off, data), MaxUsed(mem[k], off + |data|));
    }
    CoherentUpdate(mem, n, c, k, WriteBuffer(mem[k], delayed, off, data), off, data);
  }

  lemma StepCoherent(mem: Memory, n: nat, c: Content, op: Op)
    requires n > 0 && Coherent(mem, n, c) && LegalOp(mem, n, c, op)
    ensures Coherent(Step(mem, n, c, op), n, StepContent(c, op))
    ensures Observe(mem, n, c, op) == ObserveContent(c, op)
  {
    match op
    case Write(k, delayed, off, data) =>
      WriteCoherent(mem, n, c, k, delayed, off, data);
    case Read(k, off, size) =>
      ReadReturnsLatest(mem[k], k, c, off, size);
    case Copy(src, dst, srcOff, dstOff, size) =>
      CopyCoherent(mem, n, c, src, dst, srcOff, dstOff, size);
    case Fill(k, pattern, off, size) =>
      WriteDevicesCoherent(mem[k], k, c, off, FillData(pattern, size));
      CoherentUpdate(mem, n, c, k, FillBuffer(mem[k], pattern, off, size), off, FillData(pattern, size));
    case Run(kernel) =>
      SplitRefinesSingleDevice(mem, n, c, kernel);
    case RunShifted(s) =>
      ShiftedLaunches.ShiftRefinesSingleDevice(mem, n, c, s);
  }

  // ---- Runs ----

  ghost predicate LegalRun(mem: Memory, n: nat, c: Content, ops: seq<Op>)
    requires n > 0 && Coherent(mem, n, c)
    decreases |ops|
  {
    if ops == [] then true
    else
      && LegalOp(mem, n, c, ops[0])
      && (StepCoherent(mem, n, c, ops[0]); LegalRun(Step(mem, n, c, ops[0]), n, StepContent(c, ops[0]), ops[1..]))
  }

  ghost function RunAll(mem: Memory, n: nat, c: Content, ops: seq<Op>): (r: (Memory, seq<seq<Byte>>))
    requires n > 0 && Coherent(mem, n, c) && LegalRun(mem, n, c, ops)
    decreases |ops|
  {
    if ops == [] then (mem, [])
    else
      StepCoherent(mem, n, c, ops[0]);
      var (m, seen) := RunAll(Step(mem, n, c, ops[0]), n, StepContent(c, ops[0]), ops[1..]);
      (m, [Observe(mem, n, c, ops[0])] + seen)
  }

  ghost predicate DefinedRun(c: Content, ops: seq<Op>)
    decreases |ops|
  {
    ops == [] || (DefinedOp(c, ops[0]) && DefinedRun(StepContent(c, ops[0]), ops[1..]))
  }

  ghost function RunSingle(c: Content, ops: seq<Op>): (r: (Content, seq<seq<Byte>>))
    requires DefinedRun(c, ops)
    decreases |ops|
  {
    if ops == [] then (c, [])
    else
      var (c', seen) := RunSingle(StepContent(c, ops[0]), ops[1..]);
      (c', [ObserveContent(c, ops[0])] + seen)
  }

  /** Coherence over every run: after any sequence of writes, reads, copies, fills and launches of both kinds the
      memory is coherent, and the user has seen exactly what a single device would have shown. */
  lemma {:induction false} RunCoherent(mem: Memory, n: nat, c: Content, ops: seq<Op>)
    requires n > 0 && Coherent(mem, n, c) && LegalRun(mem, n, c, ops)
    ensures DefinedRun(c, ops)
    ensures Coherent(RunAll(mem, n, c, ops).0, n, RunSingle(c, ops).0)
    ensures RunAll(mem, n, c, ops).1 == RunSingle(c, ops).1
    decreases |ops|
  {
    if ops == [] {
    } else {
      StepCoherent(mem, n, c, ops[0]);
      RunCoherent(Step(mem, n, c, ops[0]), n, StepContent(c, ops[0]), ops[1..]);
    }
  }

  /** From newly created buffers on, every legal run shows the user what a single device would have shown. */
  lemma RunFromCreation(cs: seq<Creation>, n: nat, ops: seq<Op>)
    requires n > 0 && CreationsOk(cs, n) && (forall k :: 0 <= k < |cs| ==> KeepsHostBytes(cs[k].flags))
    ensures Coherent(NewMemory(cs), n, NewContents(cs))
    ensures LegalRun(NewMemory(cs), n, NewContents(cs), ops) ==>
      && DefinedRun(NewContents(cs), ops)
      && Coherent(RunAll(NewMemory(cs), n, NewContents(cs), ops).0, n, RunSingle(NewContents(cs), ops).0)
      && RunAll(NewMemory(cs), n, NewContents(cs), ops).1 == RunSingle(NewContents(cs), ops).1
  {
    NewMemoryCoherent(cs, n);
    if LegalRun(NewMemory(cs), n, NewContents(cs), ops) {
      RunCoherent(NewMemory(cs), n, NewContents(cs), ops);
    }
  }
}

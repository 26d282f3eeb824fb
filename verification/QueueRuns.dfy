/** Every interleaving of the caller that enqueues commands and shuts the queue down with the worker thread that
    executes them (libsplit/src/Queue/LockFreeQueue.cpp, libsplit/src/Queue/DeviceLFQueue.cpp). One step is one
    read or write of a shared variable; memory is sequentially consistent. */
module QueueRuns {
  import opened Arithmetic
  import opened Words

  // The caller: enqueue loop, then running := false.
  datatype Caller = Begin | ReadR(next: nat) | Store(next: nat) | Publish(next: nat) | Stopped

  // The worker. `drain` is set once it has left the main loop.
  datatype Worker<T> =
    | Poll
    | SizeFirst(drain: bool)
    | SizeSecond(drain: bool, w: nat)
    | Test(drain: bool)
    | Load(drain: bool)
    | Advance(drain: bool, cmd: T)
    | Execute(drain: bool, cmd: T)
    | Exited

  // The shared variables, the two threads, and the commands enqueued and executed so far.
  datatype State<T> = State(
    idxR: nat, idxW: nat, elements: seq<T>, running: bool, caller: Caller, worker: Worker<T>,
    enqueued: seq<T>, executed: seq<T>)

  function SizeOf(size: nat, r: nat, w1: nat, w2: nat): nat {
    if w1 >= r then (w2 - r) % WORD else (size - r + w2) % WORD
  }

  // DeviceLFQueue::enqueue for each command in turn, and the start of the destructor.
  function CallerStep<T>(cmds: seq<T>, s: State<T>): State<T>
    requires s.idxW < |s.elements| && |s.enqueued| <= |cmds|
    requires s.caller.Store? || s.caller.Publish? ==> |s.enqueued| < |cmds|
  {
    match s.caller
    case Begin =>
      if |s.enqueued| == |cmds| then s.(running := false, caller := Stopped)
      else s.(caller := ReadR((s.idxW + 1) % |s.elements|))
    case ReadR(next) => if next == s.idxR then s.(caller := Begin) else s.(caller := Store(next))
    case Store(next) => s.(elements := s.elements[s.idxW := cmds[|s.enqueued|]], caller := Publish(next))
    case Publish(next) => s.(idxW := next, enqueued := s.enqueued + [cmds[|s.enqueued|]], caller := Begin)
    case Stopped => s
  }

  // DeviceLFQueue::run.
  function WorkerStep<T>(s: State<T>): State<T>
    requires s.idxR < |s.elements|
  {
    match s.worker
    case Poll => s.(worker := SizeFirst(!s.running))
    case SizeFirst(drain) => s.(worker := SizeSecond(drain, s.idxW))
    case SizeSecond(drain, w) =>
      if SizeOf(|s.elements|, s.idxR, w, s.idxW) > 0 then s.(worker := Test(drain))
      else s.(worker := if drain then Exited else Poll)
    case Test(drain) => if s.idxR == s.idxW then s else s.(worker := Load(drain))
    case Load(drain) => s.(worker := Advance(drain, s.elements[s.idxR]))
    case Advance(drain, cmd) => s.(idxR := (s.idxR + 1) % |s.elements|, worker := Execute(drain, cmd))
    case Execute(drain, cmd) => s.(executed := s.executed + [cmd], worker := if drain then SizeFirst(true) else Poll)
    case Exited => s
  }

  // How many commands have left the ring.
  function Taken<T>(s: State<T>): nat {
    |s.executed| + if s.worker.Execute? then 1 else 0
  }

  ghost predicate Inv<T>(cmds: seq<T>, s: State<T>) {
    var size, e, d := |s.elements|, |s.enqueued|, Taken(s);
    && 1 <= size <= WORD / 2
    // The ring holds the commands between the two counters.
    && s.enqueued <= cmds
    && d <= e && (e == d || e - d < size)
    && s.idxW == e % size && s.idxR == d % size
    && (forall i :: d <= i < e ==> s.elements[i % size] == cmds[i])
    && s.executed == cmds[..|s.executed|]
    // The caller.
    && (s.caller.Stopped? <==> !s.running)
    && (s.caller.Stopped? ==> e == |cmds|)
    && (!s.caller.Begin? && !s.caller.Stopped? ==> e < |cmds| && s.caller.next == (e + 1) % size)
    && (s.caller.Store? || s.caller.Publish? ==> e + 1 - d < size)
    && (s.caller.Publish? ==> s.elements[e % size] == cmds[e])
    // The worker.
    && (Draining(s.worker) ==> s.caller.Stopped?)
    && (s.worker.SizeSecond? && s.worker.w != s.idxR ==> d < e)
    && (s.worker.Test? || s.worker.Load? || s.worker.Advance? ==> d < e)
    && (s.worker.Advance? ==> s.worker.cmd == cmds[d])
    && (s.worker.Execute? ==> s.worker.cmd == cmds[d - 1])
    && (s.worker.Exited? ==> d == e)
  }

  predicate Draining<T>(w: Worker<T>) {
    w.Exited? || (!w.Poll? && w.drain)
  }

  ghost predicate Initial<T>(s: State<T>) {
    && 1 <= |s.elements| <= WORD / 2 && s.idxR == 0 && s.idxW == 0 && s.running
    && s.caller == Begin && s.worker == Poll && s.enqueued == [] && s.executed == []
  }


  // ---- Every step keeps the invariant ----

  lemma CallerKeepsInv<T>(cmds: seq<T>, s: State<T>)
    requires Inv(cmds, s)
    ensures Inv(cmds, CallerStep(cmds, s))
  {
    var size, e, d := |s.elements|, |s.enqueued|, Taken(s);
    var s' := CallerStep(cmds, s);
    match s.caller
    case Begin => NextRemainder(e, size);
    case ReadR(next) =>
      if next != s.idxR && e + 1 - d >= size {
        FullRing(d, e, size);
        assert false;
      }
    case Store(next) =>
      forall i | d <= i < e ensures s'.elements[i % size] == cmds[i] {
        RemaindersDiffer(i, e, size);
      }
    case Publish(next) =>
    case Stopped =>
  }

  // size - 1 commands wait: the next index is the reader's.
  lemma FullRing(d: nat, e: nat, size: nat)
    requires size > 0 && d <= e && (e == d || e - d < size) && e + 1 - d >= size
    ensures (e + 1) % size == d % size
  {
    Division(d, size);
    assert e + 1 == d + size;
    assert e + 1 == size * (d / size + 1) + d % size;
    ModIs(e + 1, size, d / size + 1, d % size);
  }

  lemma EqualIndices(d: nat, e: nat, size: nat)
    requires size > 0 && d <= e && (e == d || e - d < size)
    ensures e % size == d % size <==> d == e
  {
    if d < e {
      RemaindersDiffer(d, e, size);
    }
  }

  lemma SizeIsZero(size: nat, r: nat, w1: nat, w2: nat)
    requires 1 <= size <= WORD / 2 && r < size && w2 < size
    ensures SizeOf(size, r, w1, w2) == 0 <==> w1 >= r && w2 == r
  {
    if w1 >= r && w2 < r {
      ModIs(w2 - r, WORD, -1, w2 - r + WORD);
    }
  }

  lemma WorkerKeepsInv<T>(cmds: seq<T>, s: State<T>)
    requires Inv(cmds, s)
    ensures Inv(cmds, WorkerStep(s))
  {
    var size, e, d := |s.elements|, |s.enqueued|, Taken(s);
    EqualIndices(d, e, size);
    match s.worker
    case SizeSecond(drain, w) => SizeIsZero(size, s.idxR, w, s.idxW);
    case Advance(drain, cmd) => AdvanceKeepsInv(cmds, s);
    case Execute(drain, cmd) => ExecuteKeepsInv(cmds, s);
    case _ =>
  }

  lemma AdvanceKeepsInv<T>(cmds: seq<T>, s: State<T>)
    requires Inv(cmds, s) && s.worker.Advance?
    ensures Inv(cmds, WorkerStep(s))
  {
    NextRemainder(Taken(s), |s.elements|);
  }

  lemma ExecuteKeepsInv<T>(cmds: seq<T>, s: State<T>)
    requires Inv(cmds, s) && s.worker.Execute?
    ensures Inv(cmds, WorkerStep(s))
  {
    var d := Taken(s);
    assert cmds[..d] == cmds[..d - 1] + [cmds[d - 1]];
  }

  // ---- Runs ----

  datatype Turn = CallerTurn | WorkerTurn

  // The state after a schedule of steps.
  function Run<T>(cmds: seq<T>, s: State<T>, schedule: seq<Turn>): State<T>
    requires Inv(cmds, s)
    decreases |schedule|
  {
    if schedule == [] then s
    else if schedule[0] == CallerTurn then
      CallerKeepsInv(cmds, s);
      Run(cmds, CallerStep(cmds, s), schedule[1..])
    else
      WorkerKeepsInv(cmds, s);
      Run(cmds, WorkerStep(s), schedule[1..])
  }

  lemma {:induction false} RunKeepsInv<T>(cmds: seq<T>, s: State<T>, schedule: seq<Turn>)
    requires Inv(cmds, s)
    ensures Inv(cmds, Run(cmds, s, schedule))
    decreases |schedule|
  {
    if schedule == [] {
    } else {
      if schedule[0] == CallerTurn {
        CallerKeepsInv(cmds, s);
        RunKeepsInv(cmds, CallerStep(cmds, s), schedule[1..]);
      } else {
        WorkerKeepsInv(cmds, s);
        RunKeepsInv(cmds, WorkerStep(s), schedule[1..]);
      }
    }
  }

  lemma InitialInv<T>(cmds: seq<T>, s: State<T>)
    requires Initial(s)
    ensures Inv(cmds, s)
  {
  }

  /** Under every interleaving the worker executes the enqueued commands in order, once each; when it exits, the
      caller has finished and every command has been executed. */
  lemma WorkerExecutesAll<T>(cmds: seq<T>, s: State<T>, schedule: seq<Turn>)
    requires Initial(s)
    ensures Inv(cmds, s)
    ensures var r := Run(cmds, s, schedule);
      && r.executed <= r.enqueued <= cmds
      && (r.worker.Exited? ==> r.caller.Stopped? && r.executed == cmds)
  {
    InitialInv(cmds, s);
    RunKeepsInv(cmds, s, schedule);
  }

  // ---- Each step against a first-in first-out queue of size - 1 places ----

  // The commands in the ring, oldest first.
  function Waiting<T>(s: State<T>): seq<T>
    requires Taken(s) <= |s.enqueued|
  {
    s.enqueued[Taken(s)..]
  }

  /** A step of the caller leaves the queue alone or appends the next command to a queue with a free place; it
      gives up a command's turn only when no place was free. */
  lemma CallerRefinesFifo<T>(cmds: seq<T>, s: State<T>)
    requires Inv(cmds, s)
    ensures var s' := CallerStep(cmds, s);
      && Taken(s) <= |s.enqueued| && Taken(s') <= |s'.enqueued|
      && (if s.caller.Publish?
          then |Waiting(s)| < |s.elements| - 1 && Waiting(s') == Waiting(s) + [cmds[|s.enqueued|]]
          else Waiting(s') == Waiting(s))
      && (s.caller.ReadR? && s'.caller.Begin? <==> s.caller.ReadR? && |Waiting(s)| == |s.elements| - 1)
  {
    var size, e, d := |s.elements|, |s.enqueued|, Taken(s);
    if s.caller.ReadR? {
      if e + 1 - d >= size {
        FullRing(d, e, size);
      } else {
        EqualIndices(d, e + 1, size);
      }
    }
  }

  /** A step of the worker leaves the queue alone or removes its first command, which is the one it executes
      next; the test inside Dequeue never fails, and a zero size means the queue is empty. */
  lemma WorkerRefinesFifo<T>(cmds: seq<T>, s: State<T>)
    requires Inv(cmds, s)
    ensures var s' := WorkerStep(s);
      && Taken(s) <= |s.enqueued| && Taken(s') <= |s'.enqueued|
      && (if s.worker.Advance? then Waiting(s) == [s.worker.cmd] + Waiting(s') && s'.worker == Execute(s.worker.drain, s.worker.cmd)
          else Waiting(s') == Waiting(s))
      && (s.worker.Test? ==> s'.worker.Load?)
      && (s.worker.SizeSecond? && !s'.worker.Test? ==> Waiting(s) == [])
  {
    WorkerKeepsInv(cmds, s);
    var size, e, d := |s.elements|, |s.enqueued|, Taken(s);
    EqualIndices(d, e, size);
    if s.worker.SizeSecond? {
      SizeIsZero(size, s.idxR, s.worker.w, s.idxW);
    }
    if s.worker.Advance? {
      TakesFirst(cmds, s);
    }
  }

  lemma TakesFirst<T>(cmds: seq<T>, s: State<T>)
    requires Inv(cmds, s) && s.worker.Advance?
    ensures var s' := WorkerStep(s);
      && Taken(s') == Taken(s) + 1 <= |s.enqueued| && s'.enqueued == s.enqueued
      && s.enqueued[Taken(s)..] == [s.worker.cmd] + s.enqueued[Taken(s) + 1..]
  {
    assert cmds[Taken(s)] == s.enqueued[Taken(s)];
  }
}

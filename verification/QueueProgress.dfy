/** The queue does not hang: whenever both threads keep getting turns, the worker executes everything and exits
    (libsplit/src/Queue/DeviceLFQueue.cpp). */
module QueueProgress {
  import opened Arithmetic
  import opened QueueRuns

  // What is still to do: commands to enqueue, commands to execute, and the end of both threads.
  function Left<T>(cmds: seq<T>, s: State<T>): int {
    |cmds| - |s.enqueued| + |cmds| - |s.executed|
      + (if s.caller.Stopped? then 0 else 1) + (if s.worker.Exited? then 0 else 1)
  }

  function StepOf<T>(cmds: seq<T>, s: State<T>, turn: Turn): State<T>
    requires Inv(cmds, s)
  {
    if turn == CallerTurn then CallerStep(cmds, s) else WorkerStep(s)
  }

  lemma CallerShrinks<T>(cmds: seq<T>, s: State<T>)
    requires Inv(cmds, s)
    ensures |CallerStep(cmds, s).elements| == |s.elements| && Left(cmds, CallerStep(cmds, s)) <= Left(cmds, s)
  {
  }

  lemma WorkerShrinks<T>(cmds: seq<T>, s: State<T>)
    requires Inv(cmds, s)
    ensures |WorkerStep(s).elements| == |s.elements| && Left(cmds, WorkerStep(s)) <= Left(cmds, s)
  {
  }

  lemma StepShrinks<T>(cmds: seq<T>, s: State<T>, turn: Turn)
    requires Inv(cmds, s)
    ensures Inv(cmds, StepOf(cmds, s, turn)) && |StepOf(cmds, s, turn).elements| == |s.elements|
    ensures Left(cmds, StepOf(cmds, s, turn)) <= Left(cmds, s)
  {
    if turn == CallerTurn {
      CallerKeepsInv(cmds, s);
      CallerShrinks(cmds, s);
    } else {
      WorkerKeepsInv(cmds, s);
      WorkerShrinks(cmds, s);
    }
  }

  lemma {:induction false} RunShrinks<T>(cmds: seq<T>, s: State<T>, schedule: seq<Turn>)
    requires Inv(cmds, s)
    ensures Inv(cmds, Run(cmds, s, schedule)) && |Run(cmds, s, schedule).elements| == |s.elements|
    ensures Left(cmds, Run(cmds, s, schedule)) <= Left(cmds, s)
    decreases |schedule|
  {
    if schedule != [] {
      StepShrinks(cmds, s, schedule[0]);
      RunShrinks(cmds, StepOf(cmds, s, schedule[0]), schedule[1..]);
    }
  }

  function Turns(schedule: seq<Turn>, turn: Turn): nat {
    if schedule == [] then 0 else Turns(schedule[1..], turn) + if schedule[0] == turn then 1 else 0
  }

  // ---- A waiting command is executed ----

  // A command is in the ring or in the hands of the worker.
  predicate Pending<T>(s: State<T>) {
    |s.executed| < |s.enqueued|
  }

  // The turns the worker needs to execute the next command.
  function ToExecute<T>(w: Worker<T>): nat {
    match w
    case Poll => 7
    case SizeFirst(_) => 6
    case SizeSecond(_, _) => 5
    case Test(_) => 4
    case Load(_) => 3
    case Advance(_, _) => 2
    case Execute(_, _) => 1
    case Exited => 0
  }

  lemma WorkerAdvances<T>(cmds: seq<T>, s: State<T>)
    requires Inv(cmds, s) && Pending(s)
    ensures var s' := WorkerStep(s);
      ToExecute(s.worker) > 0 && (Left(cmds, s') < Left(cmds, s) || (Pending(s') && ToExecute(s'.worker) == ToExecute(s.worker) - 1))
  {
    WorkerRefinesFifo(cmds, s);
  }

  lemma {:induction false} PendingExecuted<T>(cmds: seq<T>, s: State<T>, schedule: seq<Turn>)
    requires Inv(cmds, s) && Pending(s) && Turns(schedule, WorkerTurn) >= ToExecute(s.worker)
    ensures Left(cmds, Run(cmds, s, schedule)) < Left(cmds, s)
    decreases |schedule|
  {
    WorkerAdvances(cmds, s);
    var s' := StepOf(cmds, s, schedule[0]);
    StepShrinks(cmds, s, schedule[0]);
    if Left(cmds, s') < Left(cmds, s) {
      RunShrinks(cmds, s', schedule[1..]);
    } else {
      PendingExecuted(cmds, s', schedule[1..]);
    }
  }

  // ---- An empty ring takes the next command, or the caller stops ----

  // The ring can hold a command, or none has to be held; one element of it is always free.
  predicate HasPlace<T>(cmds: seq<T>, s: State<T>) {
    |s.elements| >= 2 || cmds == []
  }

  function ToPublish(c: Caller): nat {
    match c
    case Begin => 4
    case ReadR(_) => 3
    case Store(_) => 2
    case Publish(_) => 1
    case Stopped => 0
  }

  lemma CallerAdvances<T>(cmds: seq<T>, s: State<T>)
    requires Inv(cmds, s) && !Pending(s) && !s.caller.Stopped? && HasPlace(cmds, s)
    ensures var s' := CallerStep(cmds, s);
      ToPublish(s.caller) > 0
      && (Left(cmds, s') < Left(cmds, s) || (!Pending(s') && !s'.caller.Stopped? && ToPublish(s'.caller) == ToPublish(s.caller) - 1))
  {
    CallerRefinesFifo(cmds, s);
  }

  lemma {:induction false} EmptyPublishes<T>(cmds: seq<T>, s: State<T>, schedule: seq<Turn>)
    requires Inv(cmds, s) && !Pending(s) && !s.caller.Stopped? && HasPlace(cmds, s)
    requires Turns(schedule, CallerTurn) >= ToPublish(s.caller)
    ensures Left(cmds, Run(cmds, s, schedule)) < Left(cmds, s)
    decreases |schedule|
  {
    CallerAdvances(cmds, s);
    var s' := StepOf(cmds, s, schedule[0]);
    StepShrinks(cmds, s, schedule[0]);
    if Left(cmds, s') < Left(cmds, s) {
      RunShrinks(cmds, s', schedule[1..]);
    } else {
      EmptyPublishes(cmds, s', schedule[1..]);
    }
  }

  // ---- Nothing is left: the worker exits ----

  function ToExit<T>(w: Worker<T>): nat {
    match w
    case SizeFirst(drain) => if drain then 2 else 5
    case SizeSecond(drain, _) => if drain then 1 else 4
    case Poll => 3
    case _ => 0
  }

  lemma WorkerLeaves<T>(cmds: seq<T>, s: State<T>)
    requires Inv(cmds, s) && !Pending(s) && s.caller.Stopped? && !s.worker.Exited?
    ensures var s' := WorkerStep(s);
      ToExit(s.worker) > 0
      && (s'.worker.Exited? || (!Pending(s') && s'.caller.Stopped? && ToExit(s'.worker) == ToExit(s.worker) - 1))
  {
    WorkerRefinesFifo(cmds, s);
    WorkerKeepsInv(cmds, s);
    if s.worker.SizeSecond? {
      EqualIndices(Taken(s), |s.enqueued|, |s.elements|);
      SizeIsZero(|s.elements|, s.idxR, s.worker.w, s.idxW);
    }
  }

  lemma {:induction false} WorkerExits<T>(cmds: seq<T>, s: State<T>, schedule: seq<Turn>)
    requires Inv(cmds, s) && !Pending(s) && s.caller.Stopped? && !s.worker.Exited?
    requires Turns(schedule, WorkerTurn) >= ToExit(s.worker)
    ensures Left(cmds, Run(cmds, s, schedule)) < Left(cmds, s)
    decreases |schedule|
  {
    WorkerLeaves(cmds, s);
    var s' := StepOf(cmds, s, schedule[0]);
    StepShrinks(cmds, s, schedule[0]);
    if Left(cmds, s') < Left(cmds, s) {
      RunShrinks(cmds, s', schedule[1..]);
    } else {
      WorkerExits(cmds, s', schedule[1..]);
    }
  }

  // ---- Fair schedules ----

  // A stretch of a schedule in which both threads get enough turns for one of them to get something done.
  predicate Fair(schedule: seq<Turn>) {
    Turns(schedule, WorkerTurn) >= 7 && Turns(schedule, CallerTurn) >= 4
  }

  lemma FairShrinks<T>(cmds: seq<T>, s: State<T>, schedule: seq<Turn>)
    requires Inv(cmds, s) && HasPlace(cmds, s) && Fair(schedule) && Left(cmds, s) > 0
    ensures Left(cmds, Run(cmds, s, schedule)) < Left(cmds, s)
  {
    if Pending(s) {
      PendingExecuted(cmds, s, schedule);
    } else if !s.caller.Stopped? {
      EmptyPublishes(cmds, s, schedule);
    } else {
      WorkerExits(cmds, s, schedule);
    }
  }

  function Flatten(stretches: seq<seq<Turn>>): seq<Turn> {
    if stretches == [] then [] else stretches[0] + Flatten(stretches[1..])
  }

  lemma {:induction false} RunConcat<T>(cmds: seq<T>, s: State<T>, a: seq<Turn>, b: seq<Turn>)
    requires Inv(cmds, s)
    ensures Inv(cmds, Run(cmds, s, a)) && Run(cmds, s, a + b) == Run(cmds, Run(cmds, s, a), b)
    decreases |a|
  {
    if a == [] {
      assert a + b == b;
    } else {
      StepShrinks(cmds, s, a[0]);
      RunConcat(cmds, StepOf(cmds, s, a[0]), a[1..], b);
      assert (a + b)[1..] == a[1..] + b;
    }
  }

  lemma {:induction false} StretchesShrink<T>(cmds: seq<T>, s: State<T>, stretches: seq<seq<Turn>>)
    requires Inv(cmds, s) && HasPlace(cmds, s) && forall i :: 0 <= i < |stretches| ==> Fair(stretches[i])
    ensures Left(cmds, Run(cmds, s, Flatten(stretches))) <= 0
         || Left(cmds, Run(cmds, s, Flatten(stretches))) <= Left(cmds, s) - |stretches|
    decreases |stretches|
  {
    if stretches != [] {
      var first, rest := stretches[0], stretches[1..];
      RunConcat(cmds, s, first, Flatten(rest));
      RunShrinks(cmds, s, first);
      var s' := Run(cmds, s, first);
      if Left(cmds, s) > 0 {
        FairShrinks(cmds, s, first);
      }
      StretchesShrink(cmds, s', rest);
    }
  }

  // Both threads have ended and every command has been executed, in order.
  ghost predicate Finished<T>(cmds: seq<T>, s: State<T>) {
    s.caller.Stopped? && s.worker.Exited? && s.executed == cmds
  }

  lemma NothingLeft<T>(cmds: seq<T>, s: State<T>)
    requires Inv(cmds, s) && Left(cmds, s) <= 0
    ensures Finished(cmds, s)
  {
  }

  // With one element the ring counts as full while it is empty.
  lemma {:induction false} NothingEnqueued<T>(cmds: seq<T>, s: State<T>, schedule: seq<Turn>)
    requires Inv(cmds, s) && |s.elements| == 1 && s.enqueued == []
    ensures Run(cmds, s, schedule).enqueued == [] && Inv(cmds, Run(cmds, s, schedule))
    decreases |schedule|
  {
    if schedule != [] {
      StepShrinks(cmds, s, schedule[0]);
      NothingEnqueued(cmds, StepOf(cmds, s, schedule[0]), schedule[1..]);
    }
  }

  /** However the threads are scheduled, once both have had enough turns everything has been executed and both have
      ended, exactly when the ring has more than one element or there is nothing to execute. */
  lemma QueueFinishes<T>(cmds: seq<T>, s: State<T>, stretches: seq<seq<Turn>>)
    requires Initial(s) && Inv(cmds, s)
    requires |stretches| >= 2 * |cmds| + 2 && forall i :: 0 <= i < |stretches| ==> Fair(stretches[i])
    ensures Finished(cmds, Run(cmds, s, Flatten(stretches))) <==> HasPlace(cmds, s)
  {
    var schedule := Flatten(stretches);
    RunShrinks(cmds, s, schedule);
    if HasPlace(cmds, s) {
      StretchesShrink(cmds, s, stretches);
      NothingLeft(cmds, Run(cmds, s, schedule));
    } else {
      NothingEnqueued(cmds, s, schedule);
    }
  }
}

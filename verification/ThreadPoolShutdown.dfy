/** No lost wakeups, and a shutdown that reaches every worker. */
module ThreadPoolShutdown {
  import opened Options
  import opened WorkQueues
  import opened ThreadPool
  import opened ThreadPoolInvariant
  import opened ThreadPoolSteps
  import opened ThreadPoolRuns

  lemma SomeWakes(workers: seq<Worker>) returns (wake: Option<nat>)
    ensures Wakes(workers, wake)
  {
    if t: nat :| t < |workers| && Blocked(workers[t]) {
      wake := Some(t);
    } else {
      wake := None;
    }
  }

  /** What the worker with the mutex does next. */
  lemma OwnerCanStep(s: State) returns (step: Step)
    requires Inv(s) && s.owner.Some?
    ensures step.OfWorker() && Enabled(s, step) && !step.Wake?
  {
    var w := s.owner.value;
    var wake := SomeWakes(s.workers);
    if s.MustWait() {
      step := Wait(w);
    } else if s.wq[0] == Exit {
      step := Leave(w, wake);
    } else if s.wq[0] == Marker {
      if s.slowRunning >= s.Threshold() {
        step := Reschedule(w);
      } else if s.slow == [] {
        step := DropMarker(w);
      } else {
        assert s.slow[0] in s.slow;
        step := TakeSlow(w, if |s.slow| > 1 && s.idle > 0 then wake else None);
      }
    } else {
      assert s.wq[0] == Item(s.wq[0].id) && Item(s.wq[0].id) in s.wq;
      step := TakeItem(w);
    }
  }

  lemma AwakeCanStep(s: State, w: nat) returns (step: Step)
    requires Inv(s) && s.owner == None && w < |s.workers| && IsAwake(s.workers[w])
    ensures step.OfWorker() && Enabled(s, step) && (step.Wake? ==> !Blocked(s.workers[step.w]))
  {
    match s.workers[w]
    case Unlocked(_) => step := Lock(w);
    case Waiting(_) => step := Wake(w);
    case Executing(id, _) =>
      assert Carries(s.workers, w, id);
      step := Execute(w);
    case Executed(id, _) =>
      assert Carries(s.workers, w, id);
      step := Deliver(w);
  }

  /** After every run, while an entry is queued and a worker is left, some worker can go on without a spurious
      wakeup. */
  lemma NoLostWakeup(s: State, threads: nat, loops: nat, steps: seq<Step>) returns (step: Step)
    requires Reachable(s, threads, loops, steps)
    requires s.wq != [] && exists w: nat :: w < |s.workers| && !s.workers[w].Exited?
    ensures step.OfWorker() && Enabled(s, step) && (step.Wake? ==> !Blocked(s.workers[step.w]))
  {
    ReachableIsOk(s, threads, loops, steps);
    if s.owner.Some? {
      step := OwnerCanStep(s);
    } else {
      var w: nat :| w < |s.workers| && IsAwake(s.workers[w]);
      step := AwakeCanStep(s, w);
    }
  }

  /** How many entries come before the exit message. */
  ghost function BeforeExit(wq: seq<Entry>): nat {
    if wq == [] || wq[0] == Exit then 0 else 1 + BeforeExit(wq[1..])
  }

  lemma {:induction false} BeforeExitAppended(wq: seq<Entry>, e: Entry)
    requires Exit in wq
    ensures BeforeExit(wq + [e]) == BeforeExit(wq)
  {
    if wq[0] != Exit {
      assert (wq + [e])[1..] == wq[1..] + [e];
      BeforeExitAppended(wq[1..], e);
    }
  }

  lemma {:induction false} BeforeExitWithout(wq: seq<Entry>, e: Entry)
    requires Exit in wq && e != Exit
    ensures Exit in Without(wq, e) && BeforeExit(Without(wq, e)) <= BeforeExit(wq)
  {
    if wq[0] != Exit && wq[0] != e {
      BeforeExitWithout(wq[1..], e);
      assert Without(wq, e)[1..] == Without(wq[1..], e);
    } else if wq[0] == Exit {
      assert Without(wq, e)[0] == Exit;
    }
  }

  /** How far a worker is from the head of its loop. */
  function Distance(worker: Worker): nat {
    match worker
    case Exited => 0
    case Holding => 1
    case Unlocked(_) => 2
    case Waiting(_) => 2
    case Executed(_, _) => 3
    case Executing(_, _) => 4
  }

  lemma DistancesSignalled(workers: seq<Worker>, wake: Option<nat>)
    requires Wakes(workers, wake) || wake == None
    ensures Total(Signal(workers, wake), Distance) == Total(workers, Distance)
  {
    if wake.Some? {
      TotalUpdated(workers, wake.value, Waiting(true), Distance);
    }
  }

  ghost function Remaining(s: State): nat {
    4 * BeforeExit(s.wq) + Total(s.workers, Distance)
  }

  lemma TakingProgresses(s: State, step: Step)
    requires Inv(s) && Enabled(s, step) && Exit in s.wq
    requires step.Leave? || step.Reschedule? || step.DropMarker? || step.TakeSlow? || step.TakeItem?
    ensures Exit in Apply(s, step).wq && Remaining(Apply(s, step)) < Remaining(s)
  {
    hide QueuesOk, CountersOk, CarriedOk, LoopsOk, JobsOk, AwakeOk;
    match step
    case Leave(w, wake) => TakerDistance(s.workers, w, wake, Exited);
    case Reschedule(w) => BeforeExitAppended(s.wq[1..], Marker);
    case DropMarker(w) =>
    case TakeSlow(w, wake) =>
      BeforeExitAppended(s.wq[1..], Marker);
      TakerDistance(s.workers, w, wake, Executing(s.slow[0], true));
    case TakeItem(w) => TakerDistance(s.workers, w, None, Executing(s.wq[0].id, false));
  }

  lemma TakerDistance(workers: seq<Worker>, w: nat, wake: Option<nat>, x: Worker)
    requires w < |workers| && workers[w] == Holding && (Wakes(workers, wake) || wake == None)
    ensures Total(Signal(workers, wake)[w := x], Distance) == Total(workers, Distance) - 1 + Distance(x)
  {
    DistancesSignalled(workers, wake);
    TotalUpdated(Signal(workers, wake), w, x, Distance);
  }

  lemma WorkerProgresses(s: State, step: Step)
    requires Inv(s) && Enabled(s, step) && Exit in s.wq
    requires step.Lock? || step.Wake? || step.Wait? || step.Execute? || step.Deliver?
    ensures Exit in Apply(s, step).wq && Remaining(Apply(s, step)) < Remaining(s)
  {
    hide QueuesOk, CountersOk, CarriedOk, LoopsOk, JobsOk, AwakeOk;
    match step
    case Lock(w) => TotalUpdated(s.workers, w, Holding, Distance);
    case Wake(w) => TotalUpdated(s.workers, w, Holding, Distance);
    case Wait(w) =>
    case Execute(w) => TotalUpdated(s.workers, w, Executed(s.workers[w].id, s.workers[w].slow), Distance);
    case Deliver(w) => TotalUpdated(s.workers, w, Unlocked(s.workers[w].slow), Distance);
  }

  lemma OthersKeepProgress(s: State, step: Step)
    requires Enabled(s, step) && Exit in s.wq && !step.OfWorker()
    ensures Exit in Apply(s, step).wq && Remaining(Apply(s, step)) <= Remaining(s)
  {
    hide BeforeExit, Wakes;
    match step
    case Submit(id, kind, loop, wake) =>
      DistancesSignalled(s.workers, wake);
      BeforeExitAppended(s.wq, Marker);
      BeforeExitAppended(s.wq, Item(id));
    case PostExit(wake) =>
    case BeginCancel(id) => BeforeExitWithout(s.wq, Item(id));
    case EndCancel(loop) =>
    case Collect(loop) =>
    case CallDone(loop) =>
  }

  /** Once the exit message is posted, every step of a worker is progress, and no other step undoes any. */
  lemma ExitProgresses(s: State, step: Step)
    requires Inv(s) && Enabled(s, step) && Exit in s.wq
    ensures Exit in Apply(s, step).wq
    ensures if step.OfWorker() then Remaining(Apply(s, step)) < Remaining(s)
            else Remaining(Apply(s, step)) <= Remaining(s)
  {
    hide Inv, Enabled, Apply, Remaining;
    if !step.OfWorker() {
      OthersKeepProgress(s, step);
    } else if step.Lock? || step.Wake? || step.Wait? || step.Execute? || step.Deliver? {
      WorkerProgresses(s, step);
    } else {
      TakingProgresses(s, step);
    }
  }

  function WorkerSteps(steps: seq<Step>): nat {
    if steps == [] then 0 else (if steps[0].OfWorker() then 1 else 0) + WorkerSteps(steps[1..])
  }

  /** Whatever else is submitted or cancelled, the workers take a bounded number of steps once the exit message is
      posted. */
  lemma {:induction false} ShutdownIsBounded(s: State, steps: seq<Step>)
    requires Inv(s) && Exit in s.wq && CanRun(s, steps)
    ensures Exit in After(s, steps).wq && WorkerSteps(steps) + Remaining(After(s, steps)) <= Remaining(s)
    decreases |steps|
  {
    hide Inv, Enabled, Apply, Remaining;
    if steps != [] {
      StepKeeps(s, steps[0]);
      ExitProgresses(s, steps[0]);
      ShutdownIsBounded(Apply(s, steps[0]), steps[1..]);
    }
  }

  /** No worker can do more than wake spuriously. */
  ghost predicate Quiescent(s: State) {
    forall step: Step :: Enabled(s, step) && step.OfWorker() ==> step.Wake? && Blocked(s.workers[step.w])
  }

  /** The exit message reaches every worker: after it was posted, the workers come to a stop, whatever the order of
      steps, and they can only stop by having ended, all of them. */
  lemma ShutdownIsComplete(s: State, threads: nat, loops: nat, before: seq<Step>, steps: seq<Step>)
    requires Reachable(s, threads, loops, before) && Exit in s.wq && CanRun(s, steps)
    ensures WorkerSteps(steps) <= Remaining(s)
    ensures Quiescent(After(s, steps)) ==>
            forall w: nat :: w < |After(s, steps).workers| ==> After(s, steps).workers[w].Exited?
  {
    ReachableIsOk(s, threads, loops, before);
    ShutdownIsBounded(s, steps);
    RunKeepsInv(s, steps);
    var t := After(s, steps);
    forall w: nat | w < |t.workers| && !t.workers[w].Exited?
      ensures exists step: Step :: Enabled(t, step) && step.OfWorker() && (step.Wake? ==> !Blocked(t.workers[step.w]))
    {
      if t.owner.Some? {
        var step := OwnerCanStep(t);
      } else {
        var v: nat :| v < |t.workers| && IsAwake(t.workers[v]);
        var step := AwakeCanStep(t, v);
      }
    }
  }

  /** A job that a caller was told is cancelled stays so, and is never run. */
  lemma {:induction false} CancelledForGood(s: State, steps: seq<Step>, id: nat)
    requires Inv(s) && CanRun(s, steps) && id in s.jobs && s.jobs[id].cancels > 0
    ensures var t := After(s, steps);
            id in t.jobs && t.jobs[id].cancels > 0 && t.jobs[id].executions == 0 && t.jobs[id].done in {[], [Canceled]}
    decreases |steps|
  {
    if steps == [] {
      assert JobOk(s.jobs[id]);
    } else {
      StepKeeps(s, steps[0]);
      CancelsGrow(s, steps[0], id);
      hide Inv, Enabled, Apply;
      CancelledForGood(Apply(s, steps[0]), steps[1..], id);
    }
  }

  lemma CancelsGrow(s: State, step: Step, id: nat)
    requires Enabled(s, step) && id in s.jobs
    ensures id in Apply(s, step).jobs && s.jobs[id].cancels <= Apply(s, step).jobs[id].cancels
  {
    hide Wakes, State.MustWait;
  }

  /** Workers end only once the exit message is posted. */
  ghost predicate EndedOk(s: State) {
    forall w: nat :: w < |s.workers| && s.workers[w].Exited? ==> Exit in s.wq
  }

  lemma EndedKept(s: State, step: Step)
    requires Inv(s) && EndedOk(s) && Enabled(s, step)
    ensures EndedOk(Apply(s, step))
  {
    if Exit in s.wq {
      ExitProgresses(s, step);
    } else {
      hide QueuesOk, CountersOk, CarriedOk, LoopsOk, JobsOk, AwakeOk;
    }
  }

  lemma {:induction false} RunKeepsEnded(s: State, steps: seq<Step>)
    requires Inv(s) && EndedOk(s) && CanRun(s, steps)
    ensures EndedOk(After(s, steps))
    decreases |steps|
  {
    hide Inv, Enabled, Apply, EndedOk;
    if steps != [] {
      StepKeeps(s, steps[0]);
      EndedKept(s, steps[0]);
      RunKeepsEnded(Apply(s, steps[0]), steps[1..]);
    }
  }

  /** Before shutdown, when the workers come to rest, no work is left with them: all that was submitted has gone to its
      loop or is being cancelled. */
  lemma NoWorkIsStranded(s: State, threads: nat, loops: nat, steps: seq<Step>)
    requires Reachable(s, threads, loops, steps) && Exit !in s.wq && Quiescent(s)
    ensures s.wq == [] && s.slow == [] && forall w: nat, id: nat :: !Carries(s.workers, w, id)
    ensures forall id :: id in s.jobs ==> AtLoop(s.jobs[id].place) || s.jobs[id].done != []
  {
    InitialIsOk(threads, loops);
    RunKeepsInv(Initial(threads, loops), steps);
    RunKeepsEnded(Initial(threads, loops), steps);
    if s.wq != [] {
      var step := NoLostWakeup(s, threads, loops, steps);
    }
    forall w: nat, id: nat ensures !Carries(s.workers, w, id) {
      if Carries(s.workers, w, id) {
        CarrierCanStep(s, w, id);
      }
    }
    forall id | id in s.jobs ensures AtLoop(s.jobs[id].place) || s.jobs[id].done != [] {
      NotWithPool(s, id);
    }
  }

  lemma CarrierCanStep(s: State, w: nat, id: nat)
    requires Inv(s) && Carries(s.workers, w, id)
    ensures !Quiescent(s)
  {
    var step := if s.workers[w].Executing? then Execute(w) else Deliver(w);
    assert Enabled(s, step);
  }

  lemma NotWithPool(s: State, id: nat)
    requires Inv(s) && id in s.jobs && s.wq == [] && s.slow == [] &&
             forall w: nat, id: nat :: !Carries(s.workers, w, id)
    ensures AtLoop(s.jobs[id].place) || s.jobs[id].done != []
  {
    assert JobOk(s.jobs[id]);
    assert forall w: nat :: Placed(s.jobs, id, AtWorker(w)) ==> Carries(s.workers, w, id);
    assert !Placed(s.jobs, id, Queued) && !Placed(s.jobs, id, SlowQueued);
  }
}

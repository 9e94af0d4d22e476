/** Before shutdown too, the workers come to rest: what they can do without new work is bounded. */
module ThreadPoolProgress {
  import opened Options
  import opened WorkQueues
  import opened ThreadPool
  import opened ThreadPoolInvariant
  import opened ThreadPoolSteps
  import opened ThreadPoolRuns
  import opened ThreadPoolShutdown

  /** How many entries come after the marker of slow work. */
  ghost function BehindMarker(wq: seq<Entry>): nat {
    if wq == [] then 0 else if wq[0] == Marker then |wq| - 1 else BehindMarker(wq[1..])
  }

  lemma {:induction false} BehindAppended(wq: seq<Entry>, e: Entry)
    ensures BehindMarker(wq + [e]) == if Marker in wq then BehindMarker(wq) + 1 else 0
  {
    if wq != [] && wq[0] != Marker {
      assert (wq + [e])[1..] == wq[1..] + [e];
      BehindAppended(wq[1..], e);
    }
  }

  lemma {:induction false} BehindNone(wq: seq<Entry>)
    requires Marker !in wq
    ensures BehindMarker(wq) == 0
  {
    if wq != [] {
      BehindNone(wq[1..]);
    }
  }

  lemma {:induction false} BehindWithout(wq: seq<Entry>, e: Entry)
    requires e != Marker
    ensures BehindMarker(Without(wq, e)) <= BehindMarker(wq)
  {
    WithoutShrinks(wq, e);
    if wq != [] && wq[0] != e {
      BehindWithout(wq[1..], e);
      assert Without(wq, e)[1..] == Without(wq[1..], e);
    }
  }

  lemma {:induction false} WithoutShrinks<T>(s: seq<T>, x: T)
    ensures |Without(s, x)| <= |s| && forall y :: y in Without(s, x) ==> y in s
  {
    if s != [] && s[0] != x {
      WithoutShrinks(s[1..], x);
    }
  }

  /** How many steps a worker is from going to sleep. */
  function Effort(worker: Worker): nat {
    match worker
    case Exited => 0
    case Waiting(signalled) => if signalled then 2 else 0
    case Holding => 1
    case Unlocked(_) => 2
    case Executed(_, _) => 3
    case Executing(_, _) => 4
  }

  lemma EffortSignalled(workers: seq<Worker>, wake: Option<nat>)
    requires Wakes(workers, wake) || wake == None
    ensures Total(Signal(workers, wake), Effort) <= Total(workers, Effort) + 2
  {
    if wake.Some? {
      TotalUpdated(workers, wake.value, Waiting(true), Effort);
    }
  }

  /** What the workers have to do. */
  ghost function Load(s: State): nat {
    6 * (|s.wq| + |s.slow|) + BehindMarker(s.wq) + Total(s.workers, Effort)
  }

  ghost predicate Spurious(s: State, step: Step) {
    step.Wake? && step.w < |s.workers| && Blocked(s.workers[step.w])
  }

  /** What a step adds to the load: a spurious wakeup makes a worker look at the queue, and a job has to be done. */
  ghost function Adds(s: State, step: Step): nat {
    if step.Submit? then 14 else if Spurious(s, step) then 1 else 0
  }

  /** The steps of workers other than spurious wakeups. */
  ghost predicate IsWork(s: State, step: Step) {
    step.OfWorker() && !Spurious(s, step)
  }

  lemma MarkerReduces(s: State, step: Step)
    requires Inv(s) && Enabled(s, step) && Exit !in s.wq && (step.Reschedule? || step.DropMarker? || step.TakeSlow?)
    ensures Exit !in Apply(s, step).wq && Load(Apply(s, step)) < Load(s)
  {
    var rest := s.wq[1..];
    assert Marker !in rest && BehindMarker(s.wq) == |rest|;
    hide QueuesOk, CountersOk, CarriedOk, LoopsOk, JobsOk, AwakeOk, BehindMarker, Total, Wakes;
    BehindNone(rest);
    BehindAppended(rest, Marker);
    match step
    case Reschedule(w) => assert |rest| > 0;
    case DropMarker(w) =>
    case TakeSlow(w, wake) => TakerEffort(s.workers, w, wake, s.slow[0]);
  }

  lemma TakerEffort(workers: seq<Worker>, w: nat, wake: Option<nat>, id: nat)
    requires w < |workers| && workers[w] == Holding && (Wakes(workers, wake) || wake == None)
    ensures Total(Signal(workers, wake)[w := Executing(id, true)], Effort) <= Total(workers, Effort) + 5
  {
    EffortSignalled(workers, wake);
    TotalUpdated(Signal(workers, wake), w, Executing(id, true), Effort);
  }

  lemma SubmitAdds(s: State, step: Step)
    requires Enabled(s, step) && Exit !in s.wq && step.Submit? && (s.markerSelfLinked ==> Marker !in s.wq)
    ensures Exit !in Apply(s, step).wq && Load(Apply(s, step)) <= Load(s) + 14
  {
    EffortSignalled(s.workers, step.wake);
    BehindAppended(s.wq, Marker);
    BehindAppended(s.wq, Item(step.id));
    hide Wakes, BehindMarker;
  }

  /** Every step of a worker reduces the load, unless it is a spurious wakeup; of the others, only submissions add to
      it. */
  lemma LoadBounds(s: State, step: Step)
    requires Inv(s) && Enabled(s, step) && Exit !in s.wq && !step.PostExit?
    ensures Exit !in Apply(s, step).wq
    ensures Load(Apply(s, step)) + (if IsWork(s, step) then 1 else 0) <= Load(s) + Adds(s, step)
  {
    if step.Reschedule? || step.DropMarker? || step.TakeSlow? {
      MarkerReduces(s, step);
    } else if step.Submit? {
      SubmitAdds(s, step);
    } else if step.OfWorker() {
      WorkerReduces(s, step);
    } else {
      hide QueuesOk, CountersOk, CarriedOk, LoopsOk, JobsOk, AwakeOk, BehindMarker;
      if step.BeginCancel? {
        BehindWithout(s.wq, Item(step.id));
        WithoutShrinks(s.wq, Item(step.id));
        WithoutShrinks(s.slow, step.id);
      }
    }
  }

  lemma WorkerReduces(s: State, step: Step)
    requires Inv(s) && Enabled(s, step) && Exit !in s.wq && step.OfWorker()
    requires !step.Reschedule? && !step.DropMarker? && !step.TakeSlow?
    ensures Exit !in Apply(s, step).wq
    ensures Load(Apply(s, step)) + (if IsWork(s, step) then 1 else 0) <= Load(s) + Adds(s, step)
  {
    hide QueuesOk, CountersOk, CarriedOk, LoopsOk, JobsOk, AwakeOk, Wakes;
    if step.TakeItem? {
      TotalUpdated(s.workers, step.w, Executing(s.wq[0].id, false), Effort);
    } else if !step.Leave? {
      StridesReduce(s, step);
    }
  }

  lemma StridesReduce(s: State, step: Step)
    requires Enabled(s, step) && (step.Lock? || step.Wake? || step.Wait? || step.Execute? || step.Deliver?)
    ensures Apply(s, step).wq == s.wq && Apply(s, step).slow == s.slow
    ensures Total(Apply(s, step).workers, Effort) == Total(s.workers, Effort) + if Spurious(s, step) then 1 else -1
  {
    hide State.MustWait;
    match step
    case Lock(w) => TotalUpdated(s.workers, w, Holding, Effort);
    case Wake(w) => TotalUpdated(s.workers, w, Holding, Effort);
    case Wait(w) => TotalUpdated(s.workers, w, Waiting(false), Effort);
    case Execute(w) => TotalUpdated(s.workers, w, Executed(s.workers[w].id, s.workers[w].slow), Effort);
    case Deliver(w) => TotalUpdated(s.workers, w, Unlocked(s.workers[w].slow), Effort);
  }

  ghost predicate Posts(steps: seq<Step>) {
    exists i: nat :: i < |steps| && steps[i].PostExit?
  }

  ghost function WorkDone(s: State, steps: seq<Step>): nat
    requires CanRun(s, steps)
    decreases |steps|
  {
    if steps == [] then 0 else (if IsWork(s, steps[0]) then 1 else 0) + WorkDone(Apply(s, steps[0]), steps[1..])
  }

  ghost function Added(s: State, steps: seq<Step>): nat
    requires CanRun(s, steps)
    decreases |steps|
  {
    if steps == [] then 0 else Adds(s, steps[0]) + Added(Apply(s, steps[0]), steps[1..])
  }

  /** In every run before shutdown the workers do no more than what they had to do and what was added since: between
      submissions they come to rest, unless they wake spuriously for ever. */
  lemma {:induction false} WorkIsBounded(s: State, steps: seq<Step>)
    requires Inv(s) && Exit !in s.wq && CanRun(s, steps) && !Posts(steps)
    ensures Exit !in After(s, steps).wq
    ensures WorkDone(s, steps) + Load(After(s, steps)) <= Load(s) + Added(s, steps)
    decreases |steps|
  {
    hide Inv, Enabled, Apply, Load, IsWork, Adds;
    if steps != [] {
      assert !steps[0].PostExit?;
      assert forall i: nat :: i < |steps| - 1 ==> steps[1..][i] == steps[i + 1];
      StepKeeps(s, steps[0]);
      LoadBounds(s, steps[0]);
      WorkIsBounded(Apply(s, steps[0]), steps[1..]);
    }
  }

  /** All steps are work, not spurious wakeups nor steps of loops and callers. */
  ghost predicate AllWork(s: State, steps: seq<Step>)
    requires CanRun(s, steps)
    decreases |steps|
  {
    steps != [] ==> IsWork(s, steps[0]) && AllWork(Apply(s, steps[0]), steps[1..])
  }

  lemma SomeWork(s: State) returns (step: Step)
    requires !Quiescent(s)
    ensures Enabled(s, step) && IsWork(s, step)
  {
    step :| Enabled(s, step) && step.OfWorker() && !(step.Wake? && Blocked(s.workers[step.w]));
  }

  /** From every state before shutdown, the workers alone can come to rest, without a spurious wakeup. */
  lemma {:induction false} ComesToRest(s: State) returns (steps: seq<Step>)
    requires Inv(s) && Exit !in s.wq
    ensures CanRun(s, steps) && AllWork(s, steps) && |steps| <= Load(s)
    ensures Exit !in After(s, steps).wq && Quiescent(After(s, steps))
    decreases Load(s)
  {
    hide Inv, Enabled, Apply, Load;
    if Quiescent(s) {
      steps := [];
    } else {
      var step := SomeWork(s);
      StepKeeps(s, step);
      LoadBounds(s, step);
      var rest := ComesToRest(Apply(s, step));
      steps := [step] + rest;
      assert steps[1..] == rest;
    }
  }

  /** After every run before shutdown, if nothing more is submitted, every job submitted so far reaches its loop: the
      workers take at most so many steps other than spurious wakeups, and they cannot stop before the jobs are there. */
  lemma EveryJobReachesItsLoop(s: State, threads: nat, loops: nat, before: seq<Step>, steps: seq<Step>)
    requires Reachable(s, threads, loops, before) && Exit !in s.wq && CanRun(s, steps) && !Posts(steps)
    ensures WorkDone(s, steps) <= Load(s) + Added(s, steps)
    ensures Quiescent(After(s, steps)) ==>
              forall id :: id in After(s, steps).jobs ==>
                AtLoop(After(s, steps).jobs[id].place) || After(s, steps).jobs[id].done != []
  {
    ReachableIsOk(s, threads, loops, before);
    WorkIsBounded(s, steps);
    if Quiescent(After(s, steps)) {
      RunsJoin(Initial(threads, loops), before, steps);
      NoWorkIsStranded(After(s, steps), threads, loops, before + steps);
    }
  }

  lemma {:induction false} RunsJoin(s: State, first: seq<Step>, second: seq<Step>)
    requires CanRun(s, first) && CanRun(After(s, first), second)
    ensures CanRun(s, first + second) && After(s, first + second) == After(After(s, first), second)
    decreases |first|
  {
    hide Enabled, Apply;
    if first == [] {
      assert first + second == second;
    } else {
      assert (first + second)[1..] == first[1..] + second;
      RunsJoin(Apply(s, first[0]), first[1..], second);
    }
  }
}

/** No worker sleeps while there is work that it could do. */
module ThreadPoolUse {
  import opened Options
  import opened WorkQueues
  import opened ThreadPool
  import opened ThreadPoolInvariant
  import opened ThreadPoolSteps
  import opened ThreadPoolRuns

  /** A worker that will look at the queue without being signalled. */
  predicate Looks(worker: Worker) {
    worker.Unlocked? || worker.Holding? || worker == Waiting(true)
  }

  predicate BusySlow(worker: Worker) {
    (worker.Executing? || worker.Executed?) && worker.slow
  }

  predicate IsItem(e: Entry) {
    e.Item?
  }

  ghost predicate SomeBlocked(workers: seq<Worker>) {
    exists w: nat :: w < |workers| && Blocked(workers[w])
  }

  /** How many workers the queue could use: one for each ordinary job, and one for slow work if more of that may run. */
  ghost function Wanted(wq: seq<Entry>, workers: seq<Worker>): nat {
    Count(wq, IsItem) + if Marker in wq && Count(workers, BusySlow) < (|workers| + 1) / 2 then 1 else 0
  }

  /** While some worker is asleep, as many as are wanted will look. */
  ghost predicate LooksOk(wq: seq<Entry>, workers: seq<Worker>) {
    SomeBlocked(workers) ==> Wanted(wq, workers) <= Count(workers, Looks)
  }

  lemma {:induction false} CountAppended<T>(s: seq<T>, x: T, p: T -> bool)
    ensures Count(s + [x], p) == Count(s, p) + if p(x) then 1 else 0
  {
    if s == [] {
      assert s + [x] == [x] && [x][1..] == [];
    } else {
      assert (s + [x])[1..] == s[1..] + [x];
      CountAppended(s[1..], x, p);
    }
  }

  lemma {:induction false} CountWithout<T>(s: seq<T>, x: T, p: T -> bool)
    ensures Count(Without(s, x), p) <= Count(s, p) && forall y :: y in Without(s, x) ==> y in s
  {
    if s != [] && s[0] != x {
      CountWithout(s[1..], x, p);
      assert Without(s, x)[1..] == Without(s[1..], x);
    }
  }

  /** A worker on slow work is busy with it, or about to give its share back. */
  lemma {:induction false} SlowIsBusyOrLooks(workers: seq<Worker>)
    ensures Count(workers, BusySlow) <= Count(workers, RunsSlow) <= Count(workers, BusySlow) + Count(workers, Looks)
  {
    if workers != [] {
      SlowIsBusyOrLooks(workers[1..]);
    }
  }

  lemma WorkerLooks(workers: seq<Worker>, w: nat, x: Worker)
    requires w < |workers|
    ensures Count(workers[w := x], Looks)
         == Count(workers, Looks) - (if Looks(workers[w]) then 1 else 0) + if Looks(x) then 1 else 0
    ensures Count(workers[w := x], BusySlow)
         == Count(workers, BusySlow) - (if BusySlow(workers[w]) then 1 else 0) + if BusySlow(x) then 1 else 0
    ensures SomeBlocked(workers[w := x]) ==> SomeBlocked(workers) || Blocked(x)
  {
    CountUpdated(workers, w, x, Looks);
    CountUpdated(workers, w, x, BusySlow);
    var after := workers[w := x];
    if SomeBlocked(after) && !Blocked(x) {
      var v: nat :| v < |after| && Blocked(after[v]);
      assert Blocked(workers[v]);
    }
  }

  /** After a signal some worker can only be asleep if another one was woken. */
  lemma SignalLooks(workers: seq<Worker>, wake: Option<nat>)
    requires Wakes(workers, wake) || (wake == None && !SomeBlocked(workers))
    ensures var r := Signal(workers, wake);
            && Count(r, BusySlow) == Count(workers, BusySlow)
            && (SomeBlocked(r) ==> SomeBlocked(workers) && Count(r, Looks) == Count(workers, Looks) + 1)
            && Count(r, Looks) >= Count(workers, Looks)
  {
    if wake.Some? {
      WorkerLooks(workers, wake.value, Waiting(true));
    }
  }

  lemma IdleIsBlocked(s: State)
    requires Inv(s) && s.idle <= 0
    ensures !SomeBlocked(s.workers)
  {
    CountIsPositive(s.workers, IsWaiting);
    assert forall w: nat :: w < |s.workers| && Blocked(s.workers[w]) ==> IsWaiting(s.workers[w]);
  }

  /** Steps that leave the queue alone and move one worker. */
  lemma StridesKeepLooks(s: State, step: Step)
    requires LooksOk(s.wq, s.workers) && Enabled(s, step)
    requires step.Lock? || step.Wake? || step.Execute? || step.Deliver?
    ensures LooksOk(Apply(s, step).wq, Apply(s, step).workers)
  {
    hide State.MustWait, Wakes;
    match step
    case Lock(w) => WorkerLooks(s.workers, w, Holding);
    case Wake(w) => WorkerLooks(s.workers, w, Holding);
    case Execute(w) => WorkerLooks(s.workers, w, Executed(s.workers[w].id, s.workers[w].slow));
    case Deliver(w) => WorkerLooks(s.workers, w, Unlocked(s.workers[w].slow));
  }

  lemma WaitKeepsLooks(s: State, w: nat)
    requires Inv(s) && LooksOk(s.wq, s.workers) && CanWait(s, w)
    ensures LooksOk(s.wq, s.workers[w := Waiting(false)])
  {
    var after := s.workers[w := Waiting(false)];
    hide QueuesOk, CarriedOk, LoopsOk, JobsOk, AwakeOk;
    WorkerLooks(s.workers, w, Waiting(false));
    WorkerCounted(s.workers, w, Waiting(false));
    SlowIsBusyOrLooks(after);
    if s.wq != [] {
      assert s.wq[0] == Marker && s.wq[1..] == [];
      assert Count(s.wq, IsItem) == Count(s.wq[1..], IsItem);
    }
    assert SomeBlocked(after) ==> Wanted(s.wq, after) <= Count(after, Looks);
  }

  lemma LeaveKeepsLooks(s: State, w: nat, wake: Option<nat>)
    requires LooksOk(s.wq, s.workers) && CanLeave(s, w, wake)
    ensures LooksOk(s.wq, Signal(s.workers, wake)[w := Exited])
  {
    SignalLooks(s.workers, wake);
    WorkerLooks(Signal(s.workers, wake), w, Exited);
  }

  lemma MarkerKeepsLooks(s: State, w: nat)
    requires Inv(s) && LooksOk(s.wq, s.workers) && Takes(s, w, Marker)
    ensures LooksOk(s.wq[1..], s.workers) && LooksOk(s.wq[1..] + [Marker], s.workers)
  {
    var rest := s.wq[1..];
    assert Marker !in rest;
    hide QueuesOk, CountersOk, CarriedOk, LoopsOk, JobsOk, AwakeOk;
    CountAppended(rest, Marker, IsItem);
  }

  lemma TakeSlowKeepsLooks(s: State, w: nat, wake: Option<nat>)
    requires Inv(s) && LooksOk(s.wq, s.workers) && CanTakeSlow(s, w, wake)
    ensures LooksOk(DoTakeSlow(s, w, wake).wq, DoTakeSlow(s, w, wake).workers)
  {
    var rest, id, more := s.wq[1..], s.slow[0], |s.slow| > 1;
    assert Marker !in rest && s.idle == Count(s.workers, IsWaiting) && s.slowRunning == Count(s.workers, RunsSlow);
    if s.idle <= 0 {
      IdleIsBlocked(s);
    }
    hide QueuesOk, CountersOk, CarriedOk, LoopsOk, JobsOk, AwakeOk;
    CountAppended(rest, Marker, IsItem);
    SlowIsBusyOrLooks(s.workers);
    if more {
      SignalLooks(s.workers, wake);
    }
    WorkerLooks(Signal(s.workers, wake), w, Executing(id, true));
  }

  lemma TakeItemKeepsLooks(s: State, w: nat)
    requires LooksOk(s.wq, s.workers) && CanTakeItem(s, w)
    ensures LooksOk(DoTakeItem(s, w).wq, DoTakeItem(s, w).workers)
  {
    WorkerLooks(s.workers, w, Executing(s.wq[0].id, false));
  }

  lemma PostKeepsLooks(s: State, e: Entry, wake: Option<nat>)
    requires Inv(s) && LooksOk(s.wq, s.workers) && (if s.idle > 0 then Wakes(s.workers, wake) else wake == None)
    ensures LooksOk(s.wq + [e], Signal(s.workers, wake))
  {
    if s.idle <= 0 {
      IdleIsBlocked(s);
    }
    hide Inv;
    CountAppended(s.wq, e, IsItem);
    SignalLooks(s.workers, wake);
  }

  lemma OthersKeepLooks(s: State, step: Step)
    requires Inv(s) && LooksOk(s.wq, s.workers) && Enabled(s, step) && !step.OfWorker()
    ensures LooksOk(Apply(s, step).wq, Apply(s, step).workers)
  {
    hide Inv, Wakes, LooksOk;
    match step
    case Submit(id, kind, loop, wake) =>
      if Schedules(s, kind) {
        PostKeepsLooks(s, if kind == SlowIo then Marker else Item(id), wake);
      }
    case PostExit(wake) => PostKeepsLooks(s, Exit, wake);
    case BeginCancel(id) => CancelKeepsLooks(s.wq, s.workers, Item(id));
    case EndCancel(loop) =>
    case Collect(loop) =>
    case CallDone(loop) =>
  }

  lemma CancelKeepsLooks(wq: seq<Entry>, workers: seq<Worker>, e: Entry)
    requires LooksOk(wq, workers)
    ensures LooksOk(Without(wq, e), workers)
  {
    CountWithout(wq, e, IsItem);
  }

  lemma LooksKept(s: State, step: Step)
    requires Inv(s) && LooksOk(s.wq, s.workers) && Enabled(s, step)
    ensures LooksOk(Apply(s, step).wq, Apply(s, step).workers)
  {
    hide Inv, LooksOk;
    if !step.OfWorker() {
      OthersKeepLooks(s, step);
    } else if step.Lock? || step.Wake? || step.Execute? || step.Deliver? {
      StridesKeepLooks(s, step);
    } else {
      match step
      case Wait(w) => WaitKeepsLooks(s, w);
      case Leave(w, wake) => LeaveKeepsLooks(s, w, wake);
      case Reschedule(w) => MarkerKeepsLooks(s, w);
      case DropMarker(w) => MarkerKeepsLooks(s, w);
      case TakeSlow(w, wake) => TakeSlowKeepsLooks(s, w, wake);
      case TakeItem(w) => TakeItemKeepsLooks(s, w);
    }
  }

  lemma {:induction false} RunKeepsLooks(s: State, steps: seq<Step>)
    requires Inv(s) && LooksOk(s.wq, s.workers) && CanRun(s, steps)
    ensures LooksOk(After(s, steps).wq, After(s, steps).workers)
    decreases |steps|
  {
    hide Inv, Enabled, Apply, LooksOk;
    if steps != [] {
      StepKeeps(s, steps[0]);
      LooksKept(s, steps[0]);
      RunKeepsLooks(Apply(s, steps[0]), steps[1..]);
    }
  }

  /** After every run, a worker with the mutex goes on to slow work while it is pending and less than half of the
      workers, rounded up, are on it: it neither goes to sleep nor puts the marker off. */
  lemma SlowWorkIsTaken(s: State, threads: nat, loops: nat, steps: seq<Step>, w: nat)
    requires Reachable(s, threads, loops, steps)
    requires s.slow != [] && Count(s.workers, RunsSlow) < (|s.workers| + 1) / 2
    ensures !Enabled(s, Wait(w)) && !Enabled(s, Reschedule(w))
    ensures HoldsMutex(s, w) && s.wq[0] == Marker ==> exists wake :: Enabled(s, TakeSlow(w, wake))
  {
    ReachableIsOk(s, threads, loops, steps);
    if HoldsMutex(s, w) && s.wq[0] == Marker {
      assert s.slow[0] in s.slow;
      if t: nat :| t < |s.workers| && Blocked(s.workers[t]) {
        assert Enabled(s, TakeSlow(w, if |s.slow| > 1 && s.idle > 0 then Some(t) else None));
      } else {
        assert Enabled(s, TakeSlow(w, None));
      }
    }
  }

  /** After every run, when some worker sleeps and no other is about to look at the queue, no ordinary job is queued,
      and if slow work is pending, exactly half of the workers, rounded up, are on slow work. */
  lemma WorkersAreUsed(s: State, threads: nat, loops: nat, steps: seq<Step>)
    requires Reachable(s, threads, loops, steps)
    requires exists w: nat :: w < |s.workers| && s.workers[w] == Waiting(false)
    requires forall w: nat :: w < |s.workers| ==>
               s.workers[w].Executing? || s.workers[w].Executed? || s.workers[w] == Waiting(false) ||
                 s.workers[w].Exited?
    ensures forall id: nat :: Item(id) !in s.wq
    ensures s.slow != [] ==> Count(s.workers, RunsSlow) == (|s.workers| + 1) / 2
  {
    ReachableIsOk(s, threads, loops, steps);
    InitialIsOk(threads, loops);
    NoneBlocked(threads, loops);
    RunKeepsLooks(Initial(threads, loops), steps);
    CountIsPositive(s.workers, Looks);
    SlowIsBusyOrLooks(s.workers);
    var w: nat :| w < |s.workers| && s.workers[w] == Waiting(false);
    assert SomeBlocked(s.workers) by {
      assert Blocked(s.workers[w]);
    }
    assert Count(s.workers, Looks) == 0;
    CountIsPositive(s.wq, IsItem);
    forall e | e in s.wq ensures !IsItem(e) {
      var i: nat :| i < |s.wq| && s.wq[i] == e;
    }
    forall id: nat ensures Item(id) !in s.wq {
      assert IsItem(Item(id));
    }
  }

  lemma NoneBlocked(threads: nat, loops: nat)
    ensures LooksOk(Initial(threads, loops).wq, Initial(threads, loops).workers)
  {
  }
}

/** Every step of the thread pool keeps its invariant. */
module ThreadPoolSteps {
  import opened Options
  import opened WorkQueues
  import opened ThreadPool
  import opened ThreadPoolInvariant

  lemma LockKeeps(s: State, w: nat)
    requires Inv(s) && CanLock(s, w)
    ensures Inv(DoLock(s, w))
  {
    hide QueuesOk, CarriedOk, LoopsOk, JobsOk;
    WorkerCounted(s.workers, w, Holding);
    WorkerChanged(s.workers, w, Holding, s.jobs);
  }

  lemma WakeKeeps(s: State, w: nat)
    requires Inv(s) && CanWake(s, w)
    ensures Inv(DoWake(s, w))
  {
    hide QueuesOk, CarriedOk, LoopsOk, JobsOk;
    WorkerCounted(s.workers, w, Holding);
    WorkerChanged(s.workers, w, Holding, s.jobs);
  }

  /** A worker goes to sleep only if no work is queued, or others run slow work. */
  lemma WaitKeeps(s: State, w: nat)
    requires Inv(s) && CanWait(s, w)
    ensures Inv(DoWait(s, w))
  {
    hide QueuesOk, CarriedOk, LoopsOk, JobsOk;
    WorkerCounted(s.workers, w, Waiting(false));
    WorkerChanged(s.workers, w, Waiting(false), s.jobs);
    if s.wq != [] {
      CountIsPositive(s.workers, RunsSlow);
      var v: nat :| v < |s.workers| && RunsSlow(s.workers[v]);
      assert IsAwake(DoWait(s, w).workers[v]);
    }
  }

  lemma LeaveKeeps(s: State, w: nat, wake: Option<nat>)
    requires Inv(s) && CanLeave(s, w, wake)
    ensures Inv(DoLeave(s, w, wake))
  {
    Signalled(s, wake);
    hide QueuesOk, CarriedOk, LoopsOk, JobsOk;
    var r := Signal(s.workers, wake);
    WorkerCounted(r, w, Exited);
    WorkerChanged(r, w, Exited, s.jobs);
    var t := DoLeave(s, w, wake);
    if wake.Some? {
      assert IsAwake(t.workers[wake.value]);
    } else {
      forall v: nat | v < |t.workers| && !t.workers[v].Exited? ensures SomeAwake(t.workers) {
        assert IsAwake(t.workers[v]);
      }
    }
  }

  lemma RescheduleKeeps(s: State, w: nat)
    requires Inv(s) && CanReschedule(s, w)
    ensures Inv(DoReschedule(s, w))
  {
    hide CarriedOk, LoopsOk, JobsOk, Distinct;
    Popped(s.wq);
    Appended(s.wq[1..], Marker);
  }

  lemma DropMarkerKeeps(s: State, w: nat)
    requires Inv(s) && CanDropMarker(s, w)
    ensures Inv(DoDropMarker(s, w))
  {
    hide CarriedOk, LoopsOk, JobsOk, Distinct;
    Popped(s.wq);
  }

  /** A worker takes up a job: what becomes of the workers and of the jobs they carry. */
  lemma TakenKeeps(workers: seq<Worker>, w: nat, id: nat, slow: bool, jobs: Jobs)
    requires CarriedOk(workers, jobs) && w < |workers| && !workers[w].Executing? && !workers[w].Executed?
    requires id in jobs && InPool(jobs[id].place) && jobs[id].executions == 0 && (slow <==> jobs[id].kind == SlowIo)
    ensures CarriedOk(workers[w := Executing(id, slow)],
                      jobs[id := jobs[id].(selfLinked := true, place := AtWorker(w))])
  {
    var ws, js := workers[w := Executing(id, slow)], jobs[id := jobs[id].(selfLinked := true, place := AtWorker(w))];
    forall v: nat, i: nat
      ensures Carries(ws, v, i) <==> Placed(js, i, AtWorker(v))
      ensures Carries(ws, v, i) ==> RunOk(ws[v], js[i])
    {
      assert Carries(workers, v, i) <==> Placed(jobs, i, AtWorker(v));
    }
  }

  lemma TakeSlowQueues(s: State, w: nat, wake: Option<nat>)
    requires Inv(s) && CanTakeSlow(s, w, wake)
    ensures var t := DoTakeSlow(s, w, wake); QueuesOk(t.wq, t.slow, t.markerSelfLinked, t.jobs)
  {
    hide CarriedOk, LoopsOk, JobsOk, Distinct, Wakes;
    var t := DoTakeSlow(s, w, wake);
    Popped(s.wq);
    Popped(s.slow);
    Appended(s.wq[1..], Marker);
    assert s.slow[0] in s.slow;
    forall id: nat ensures Item(id) in t.wq <==> Placed(t.jobs, id, Queued) {
      assert Item(id) in t.wq <==> Item(id) in s.wq;
    }
  }

  lemma TakeSlowKeeps(s: State, w: nat, wake: Option<nat>)
    requires Inv(s) && CanTakeSlow(s, w, wake)
    ensures Inv(DoTakeSlow(s, w, wake))
  {
    hide QueuesOk, CarriedOk, LoopsOk, JobsOk;
    var id := s.slow[0];
    FirstSlow(s);
    JobAt(s, id);
    TakeSlowQueues(s, w, wake);
    Signalled(s, wake);
    var r := Signal(s.workers, wake);
    JobChanged(s, id, s.jobs[id].(selfLinked := true, place := AtWorker(w)));
    WorkerCounted(r, w, Executing(id, true));
    TakenKeeps(r, w, id, true, s.jobs);
    assert IsAwake(DoTakeSlow(s, w, wake).workers[w]);
  }

  lemma FirstSlow(s: State)
    requires Inv(s) && s.slow != []
    ensures Placed(s.jobs, s.slow[0], SlowQueued)
  {
    assert s.slow[0] in s.slow;
  }

  lemma FirstItem(s: State)
    requires Inv(s) && s.wq != [] && s.wq[0].Item?
    ensures Placed(s.jobs, s.wq[0].id, Queued)
  {
    assert Item(s.wq[0].id) in s.wq;
  }

  lemma TakeItemQueues(s: State, w: nat)
    requires Inv(s) && CanTakeItem(s, w)
    ensures var t := DoTakeItem(s, w); QueuesOk(t.wq, t.slow, t.markerSelfLinked, t.jobs)
  {
    hide CarriedOk, LoopsOk, JobsOk, Distinct;
    Popped(s.wq);
    FirstItem(s);
  }

  lemma TakeItemKeeps(s: State, w: nat)
    requires Inv(s) && CanTakeItem(s, w)
    ensures Inv(DoTakeItem(s, w))
  {
    hide QueuesOk, CarriedOk, LoopsOk, JobsOk;
    var id := s.wq[0].id;
    FirstItem(s);
    JobAt(s, id);
    TakeItemQueues(s, w);
    JobChanged(s, id, s.jobs[id].(selfLinked := true, place := AtWorker(w)));
    WorkerCounted(s.workers, w, Executing(id, false));
    TakenKeeps(s.workers, w, id, false, s.jobs);
    assert IsAwake(DoTakeItem(s, w).workers[w]);
  }

  lemma JobAt(s: State, id: nat)
    requires Inv(s) && id in s.jobs
    ensures JobOk(s.jobs[id]) && s.jobs[id].loop < |s.loops|
  {
  }

  lemma RunKeeps(workers: seq<Worker>, w: nat, jobs: Jobs)
    requires CarriedOk(workers, jobs) && w < |workers| && workers[w].Executing?
    ensures var id := workers[w].id;
            && Placed(jobs, id, AtWorker(w)) && jobs[id].executions == 0
            && CarriedOk(workers[w := Executed(id, workers[w].slow)], jobs[id := jobs[id].(executions := 1)])
  {
    var id := workers[w].id;
    assert Carries(workers, w, id);
    var ws, js := workers[w := Executed(id, workers[w].slow)], jobs[id := jobs[id].(executions := 1)];
    forall v: nat, i: nat
      ensures Carries(ws, v, i) <==> Placed(js, i, AtWorker(v))
      ensures Carries(ws, v, i) ==> RunOk(ws[v], js[i])
    {
      assert Carries(workers, v, i) <==> Placed(jobs, i, AtWorker(v));
    }
  }

  lemma ExecuteKeeps(s: State, w: nat)
    requires Inv(s) && CanExecute(s, w)
    ensures Inv(DoExecute(s, w))
  {
    hide QueuesOk, CarriedOk, LoopsOk, JobsOk;
    var Executing(id, slow) := s.workers[w];
    RunKeeps(s.workers, w, s.jobs);
    JobAt(s, id);
    JobChanged(s, id, s.jobs[id].(executions := 1));
    WorkerCounted(s.workers, w, Executed(id, slow));
    assert IsAwake(DoExecute(s, w).workers[w]);
  }

  lemma DeliveredKeeps(workers: seq<Worker>, w: nat, jobs: Jobs, job: Job)
    requires CarriedOk(workers, jobs) && w < |workers| && workers[w].Executed? && !job.place.AtWorker?
    ensures var id := workers[w].id;
            && Placed(jobs, id, AtWorker(w)) && jobs[id].executions == 1
            && CarriedOk(workers[w := Unlocked(workers[w].slow)], jobs[id := job])
  {
    var id := workers[w].id;
    assert Carries(workers, w, id);
    var ws, js := workers[w := Unlocked(workers[w].slow)], jobs[id := job];
    forall v: nat, i: nat
      ensures Carries(ws, v, i) <==> Placed(js, i, AtWorker(v))
      ensures Carries(ws, v, i) ==> RunOk(ws[v], js[i])
    {
      assert Carries(workers, v, i) <==> Placed(jobs, i, AtWorker(v));
      assert Carries(workers, v, id) ==> v == w;
    }
  }

  /** A job goes to the end of its loop's queue, from a worker or from the hand of the loop's thread. */
  lemma QueuedKeeps(s: State, id: nat, job: Job, loop: Loop)
    requires Inv(s) && id in s.jobs && job.loop == s.jobs[id].loop && job.place == InLoop
    requires s.jobs[id].place.AtWorker? || s.jobs[id].place.InHand?
    requires var was := s.loops[job.loop];
             loop == Loop(was.queue + [id], was.batch, if s.jobs[id].place.InHand? then None else was.hand)
    ensures LoopsOk(s.loops[job.loop := loop], s.jobs[id := job])
  {
    hide QueuesOk, CarriedOk, JobsOk, CountersOk, Distinct;
    var ls, js := s.loops[job.loop := loop], s.jobs[id := job];
    forall l: nat | l < |ls| ensures LoopOk(ls[l], js, l) {
      assert LoopOk(s.loops[l], s.jobs, l);
      assert !PlacedIn(s.jobs, id, InLoop, l) && (PlacedIn(s.jobs, id, InHand, l) ==> s.loops[l].hand == Some(id));
      if l == job.loop {
        Appended(s.loops[l].queue, id);
      }
      forall i: nat
        ensures i in ls[l].queue <==> PlacedIn(js, i, InLoop, l)
        ensures i in ls[l].batch <==> PlacedIn(js, i, InBatch, l)
        ensures ls[l].hand == Some(i) <==> PlacedIn(js, i, InHand, l)
      {
        assert s.loops[l].hand == Some(i) <==> PlacedIn(s.jobs, i, InHand, l);
      }
    }
  }

  lemma DeliverKeeps(s: State, w: nat)
    requires Inv(s) && CanDeliver(s, w)
    ensures Inv(DoDeliver(s, w))
  {
    hide QueuesOk, CarriedOk, LoopsOk, JobsOk;
    var Executed(id, slow) := s.workers[w];
    var job := s.jobs[id].(work := Null, selfLinked := false, place := InLoop);
    DeliveredKeeps(s.workers, w, s.jobs, job);
    JobAt(s, id);
    JobChanged(s, id, job);
    var loop := s.loops[job.loop];
    QueuedKeeps(s, id, job, loop.(queue := loop.queue + [id]));
    WorkerCounted(s.workers, w, Unlocked(slow));
    assert IsAwake(DoDeliver(s, w).workers[w]);
  }

  lemma SubmitQueues(s: State, id: nat, kind: Kind, loop: nat, wake: Option<nat>)
    requires Inv(s) && CanSubmit(s, id, kind, loop, wake)
    ensures var t := DoSubmit(s, id, kind, loop, wake); QueuesOk(t.wq, t.slow, t.markerSelfLinked, t.jobs)
  {
    hide CarriedOk, LoopsOk, JobsOk, Distinct, Wakes;
    if kind == SlowIo {
      Appended(s.slow, id);
      if s.markerSelfLinked {
        Appended(s.wq, Marker);
      }
    } else {
      Appended(s.wq, Item(id));
    }
  }

  lemma SubmitKeeps(s: State, id: nat, kind: Kind, loop: nat, wake: Option<nat>)
    requires Inv(s) && CanSubmit(s, id, kind, loop, wake)
    ensures Inv(DoSubmit(s, id, kind, loop, wake))
  {
    SubmitQueues(s, id, kind, loop, wake);
    var t := DoSubmit(s, id, kind, loop, wake);
    Signalled(s, wake);
    JobChanged(s, id, t.jobs[id]);
    JobChanged(s.(workers := t.workers), id, t.jobs[id]);
    if Schedules(s, kind) {
      SignalAwakes(s, wake);
    }
    hide QueuesOk, CountersOk, CarriedOk, LoopsOk, JobsOk, Wakes;
  }

  lemma PostExitKeeps(s: State, wake: Option<nat>)
    requires Inv(s) && CanPostExit(s, wake)
    ensures Inv(DoPostExit(s, wake))
  {
    Appended(s.wq, Exit);
    Signalled(s, wake);
    SignalAwakes(s, wake);
    hide CountersOk, CarriedOk, LoopsOk, JobsOk, Wakes, Distinct;
  }

  /** What can be cancelled is pending, or was cancelled before and is on its way to its callback. */
  lemma CancellableIs(s: State, id: nat)
    requires Inv(s) && MayCancel(s, id)
    ensures Cancellable(s.jobs[id]) <==>
              InPool(s.jobs[id].place) || (s.jobs[id].place in {InLoop, InBatch} && s.jobs[id].work == Cancelled)
  {
    assert JobOk(s.jobs[id]);
    var l := s.jobs[id].loop;
    assert LoopOk(s.loops[l], s.jobs, l);
    assert !PlacedIn(s.jobs, id, InHand, l);
  }

  lemma BeginCancelQueues(s: State, id: nat)
    requires Inv(s) && CanBeginCancel(s, id)
    ensures var t := DoBeginCancel(s, id); QueuesOk(t.wq, t.slow, t.markerSelfLinked, t.jobs)
  {
    hide CarriedOk, CountersOk, LoopsOk, JobsOk, Distinct;
    Unlinked(s.wq, Item(id));
    Unlinked(s.slow, id);
  }

  lemma BeginCancelLoops(s: State, id: nat)
    requires Inv(s) && CanBeginCancel(s, id)
    ensures var t := DoBeginCancel(s, id); LoopsOk(t.loops, t.jobs)
  {
    hide CarriedOk, CountersOk, QueuesOk, JobsOk, Distinct;
    var t, m := DoBeginCancel(s, id), s.jobs[id].loop;
    Unlinked(s.loops[m].queue, id);
    Unlinked(s.loops[m].batch, id);
    forall l: nat | l < |t.loops| ensures LoopOk(t.loops[l], t.jobs, l) {
      assert LoopOk(s.loops[l], s.jobs, l);
      forall i: nat
        ensures i in t.loops[l].queue <==> PlacedIn(t.jobs, i, InLoop, l)
        ensures i in t.loops[l].batch <==> PlacedIn(t.jobs, i, InBatch, l)
        ensures t.loops[l].hand == Some(i) <==> PlacedIn(t.jobs, i, InHand, l)
      {
        assert s.loops[l].hand == Some(i) <==> PlacedIn(s.jobs, i, InHand, l);
      }
    }
  }

  lemma BeginCancelKeeps(s: State, id: nat)
    requires Inv(s) && CanBeginCancel(s, id)
    ensures Inv(DoBeginCancel(s, id))
  {
    CancellableIs(s, id);
    assert JobOk(s.jobs[id]);
    JobChanged(s, id, s.jobs[id].(place := InHand));
    BeginCancelQueues(s, id);
    BeginCancelLoops(s, id);
    Unlinked(s.wq, Item(id));
    hide QueuesOk, CarriedOk, CountersOk, LoopsOk, JobsOk;
    assert DoBeginCancel(s, id).wq != [] ==> DoBeginCancel(s, id).wq[0] in s.wq;
  }

  lemma EndCancelKeeps(s: State, l: nat)
    requires Inv(s) && CanEndCancel(s, l)
    ensures Inv(DoEndCancel(s, l))
  {
    var id := s.loops[l].hand.value;
    assert LoopOk(s.loops[l], s.jobs, l);
    assert PlacedIn(s.jobs, id, InHand, l) && JobOk(s.jobs[id]);
    var job := DoEndCancel(s, l).jobs[id];
    JobChanged(s, id, job);
    QueuedKeeps(s, id, job, DoEndCancel(s, l).loops[l]);
    hide QueuesOk, CarriedOk, CountersOk, LoopsOk, JobsOk;
  }

  lemma CollectLoops(s: State, l: nat)
    requires Inv(s) && CanCollect(s, l)
    ensures var t := DoCollect(s, l); LoopsOk(t.loops, t.jobs)
  {
    hide QueuesOk, CarriedOk, CountersOk, JobsOk, Distinct;
    var t := DoCollect(s, l);
    forall m: nat | m < |t.loops| ensures LoopOk(t.loops[m], t.jobs, m) {
      assert LoopOk(s.loops[m], s.jobs, m);
      forall i: nat
        ensures i in t.loops[m].queue <==> PlacedIn(t.jobs, i, InLoop, m)
        ensures i in t.loops[m].batch <==> PlacedIn(t.jobs, i, InBatch, m)
        ensures t.loops[m].hand == Some(i) <==> PlacedIn(t.jobs, i, InHand, m)
      {
        assert s.loops[m].hand == Some(i) <==> PlacedIn(s.jobs, i, InHand, m);
        assert i in s.loops[m].batch <==> PlacedIn(s.jobs, i, InBatch, m);
      }
    }
    NoneIsDistinct();
  }

  lemma NoneIsDistinct()
    ensures Distinct<nat>([])
  {
  }

  lemma CollectedJobs(jobs: Jobs, l: nat)
    requires JobsOk(jobs)
    ensures JobsOk(Collected(jobs, l))
  {
    forall id | id in jobs ensures JobOk(Collected(jobs, l)[id]) {
      assert JobOk(jobs[id]);
    }
  }

  lemma CollectKeeps(s: State, l: nat)
    requires Inv(s) && CanCollect(s, l)
    ensures Inv(DoCollect(s, l))
  {
    hide QueuesOk, CarriedOk, CountersOk, LoopsOk, JobsOk;
    CollectLoops(s, l);
    CollectedJobs(s.jobs, l);
    CollectedElsewhere(s, l);
  }

  lemma CollectedElsewhere(s: State, l: nat)
    requires Inv(s)
    ensures QueuesOk(s.wq, s.slow, s.markerSelfLinked, Collected(s.jobs, l)) &&
            CarriedOk(s.workers, Collected(s.jobs, l))
  {
    hide CountersOk, LoopsOk, JobsOk, Distinct;
    var js := Collected(s.jobs, l);
    assert forall id, w :: Placed(js, id, AtWorker(w)) <==> Placed(s.jobs, id, AtWorker(w));
    assert forall id :: Placed(js, id, Queued) <==> Placed(s.jobs, id, Queued);
    assert forall id :: Placed(js, id, SlowQueued) <==> Placed(s.jobs, id, SlowQueued);
  }

  lemma CallDoneLoops(s: State, l: nat)
    requires Inv(s) && CanCallDone(s, l)
    ensures var t := DoCallDone(s, l); LoopsOk(t.loops, t.jobs)
  {
    hide CarriedOk, CountersOk, QueuesOk, JobsOk, Distinct;
    var t, id := DoCallDone(s, l), s.loops[l].batch[0];
    assert id in s.loops[l].batch && LoopOk(s.loops[l], s.jobs, l);
    Popped(s.loops[l].batch);
    forall m: nat | m < |t.loops| ensures LoopOk(t.loops[m], t.jobs, m) {
      assert LoopOk(s.loops[m], s.jobs, m);
      forall i: nat
        ensures i in t.loops[m].queue <==> PlacedIn(t.jobs, i, InLoop, m)
        ensures i in t.loops[m].batch <==> PlacedIn(t.jobs, i, InBatch, m)
        ensures t.loops[m].hand == Some(i) <==> PlacedIn(t.jobs, i, InHand, m)
      {
        assert s.loops[m].hand == Some(i) <==> PlacedIn(s.jobs, i, InHand, m);
      }
    }
  }

  lemma CallDoneKeeps(s: State, l: nat)
    requires Inv(s) && CanCallDone(s, l)
    ensures Inv(DoCallDone(s, l))
  {
    var id := s.loops[l].batch[0];
    assert LoopOk(s.loops[l], s.jobs, l) && id in s.loops[l].batch;
    assert PlacedIn(s.jobs, id, InBatch, l) && JobOk(s.jobs[id]);
    JobChanged(s, id, DoCallDone(s, l).jobs[id]);
    CallDoneLoops(s, l);
    hide QueuesOk, CarriedOk, CountersOk, LoopsOk, JobsOk;
  }

  /** The invariant is inductive. */
  lemma {:induction false} StepKeeps(s: State, step: Step)
    requires Inv(s) && Enabled(s, step)
    ensures Inv(Apply(s, step))
  {
    hide Inv, CanLock, CanWake, CanWait, CanLeave, CanReschedule, CanDropMarker, CanTakeSlow, CanTakeItem, CanExecute,
      CanDeliver,
      CanSubmit, CanPostExit, CanBeginCancel, CanEndCancel, CanCollect, CanCallDone;
    match step
    case Lock(w) => LockKeeps(s, w);
    case Wake(w) => WakeKeeps(s, w);
    case Wait(w) => WaitKeeps(s, w);
    case Leave(w, wake) => LeaveKeeps(s, w, wake);
    case Reschedule(w) => RescheduleKeeps(s, w);
    case DropMarker(w) => DropMarkerKeeps(s, w);
    case TakeSlow(w, wake) => TakeSlowKeeps(s, w, wake);
    case TakeItem(w) => TakeItemKeeps(s, w);
    case Execute(w) => ExecuteKeeps(s, w);
    case Deliver(w) => DeliverKeeps(s, w);
    case Submit(id, kind, loop, wake) => SubmitKeeps(s, id, kind, loop, wake);
    case PostExit(wake) => PostExitKeeps(s, wake);
    case BeginCancel(id) => BeginCancelKeeps(s, id);
    case EndCancel(loop) => EndCancelKeeps(s, loop);
    case Collect(loop) => CollectKeeps(s, loop);
    case CallDone(loop) => CallDoneKeeps(s, loop);
  }
}

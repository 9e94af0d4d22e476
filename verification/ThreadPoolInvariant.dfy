/** What every step of the thread pool keeps. */
module ThreadPoolInvariant {
  import opened Options
  import opened WorkQueues
  import opened ThreadPool

  type Jobs = map<nat, Job>

  ghost predicate Placed(jobs: Jobs, id: nat, place: Place) {
    id in jobs && jobs[id].place == place
  }

  /** The pool's queues hold exactly the jobs that are there, once each; the marker of slow work is linked at most once,
      and is linked whenever slow work is pending. */
  ghost predicate QueuesOk(wq: seq<Entry>, slow: seq<nat>, markerSelfLinked: bool, jobs: Jobs) {
    && Distinct(wq) && Distinct(slow)
    && (markerSelfLinked <==> Marker !in wq)
    && (slow != [] ==> Marker in wq)
    && (forall id: nat :: Item(id) in wq <==> Placed(jobs, id, Queued))
    && (forall id: nat :: id in slow <==> Placed(jobs, id, SlowQueued))
  }

  /** The counters are accurate, slow work is bounded, and the worker with the mutex is its owner. */
  ghost predicate CountersOk(workers: seq<Worker>, idle: int, slowRunning: int, owner: Option<nat>) {
    && workers != []
    && idle == Count(workers, IsWaiting)
    && slowRunning == Count(workers, RunsSlow) <= (|workers| + 1) / 2
    && (forall w: nat :: w < |workers| ==> (owner == Some(w) <==> workers[w] == Holding))
    && (owner.Some? ==> owner.value < |workers|)
  }

  ghost predicate Carries(workers: seq<Worker>, w: nat, id: nat) {
    w < |workers| && (workers[w].Executing? || workers[w].Executed?) && workers[w].id == id
  }

  /** A job at a worker is the one it carries, and slow jobs are counted as such. */
  ghost predicate CarriedOk(workers: seq<Worker>, jobs: Jobs) {
    && (forall w: nat, id: nat :: Carries(workers, w, id) <==> Placed(jobs, id, AtWorker(w)))
    && (forall w: nat, id: nat :: Carries(workers, w, id) ==> RunOk(workers[w], jobs[id]))
  }

  ghost predicate RunOk(worker: Worker, job: Job)
    requires worker.Executing? || worker.Executed?
  {
    (worker.slow <==> job.kind == SlowIo) && job.executions == if worker.Executed? then 1 else 0
  }

  /** The loops' lists hold exactly the jobs that are there, once each. */
  ghost predicate LoopsOk(loops: seq<Loop>, jobs: Jobs) {
    && (forall id :: id in jobs ==> jobs[id].loop < |loops|)
    && (forall l: nat :: l < |loops| ==> LoopOk(loops[l], jobs, l))
  }

  ghost predicate PlacedIn(jobs: Jobs, id: nat, place: Place, l: nat) {
    Placed(jobs, id, place) && jobs[id].loop == l
  }

  ghost predicate LoopOk(loop: Loop, jobs: Jobs, l: nat) {
    && Distinct(loop.queue) && Distinct(loop.batch)
    && (forall id: nat :: id in loop.queue <==> PlacedIn(jobs, id, InLoop, l))
    && (forall id: nat :: id in loop.batch <==> PlacedIn(jobs, id, InBatch, l))
    && (forall id: nat :: loop.hand == Some(id) <==> PlacedIn(jobs, id, InHand, l))
  }

  /** Run once and not cancelled, or cancelled and never run. */
  ghost predicate Finished(job: Job) {
    || (job.work == Null && job.executions == 1 && job.cancels == 0)
    || (job.work == Cancelled && job.executions == 0 && job.cancels > 0)
  }

  ghost predicate Fresh(job: Job) {
    job.work == Function && !job.selfLinked && job.executions == 0 && job.cancels == 0 && job.done == []
  }

  ghost predicate JobOk(job: Job) {
    match job.place
    case Queued => Fresh(job) && job.kind != SlowIo
    case SlowQueued => Fresh(job) && job.kind == SlowIo
    case AtWorker(_) =>
      && job.work == Function && job.selfLinked && job.executions <= 1 && job.cancels == 0
      && job.done == []
    case InHand =>
      && !job.selfLinked && job.executions == 0 && job.done == []
      && (if job.work == Function then job.cancels == 0 else job.work == Cancelled && job.cancels > 0)
    case InLoop => !job.selfLinked && job.done == [] && Finished(job)
    case InBatch => !job.selfLinked && job.done == [] && Finished(job)
    case Delivered =>
      && !job.selfLinked && Finished(job)
      && job.done == [if job.work == Cancelled then Canceled else Completed]
  }

  ghost predicate JobsOk(jobs: Jobs) {
    forall id :: id in jobs ==> JobOk(jobs[id])
  }

  /** No lost wakeup: while the mutex is free and an entry is queued, not all workers that are left are asleep. */
  ghost predicate AwakeOk(owner: Option<nat>, wq: seq<Entry>, workers: seq<Worker>) {
    owner == None && wq != [] ==> SomeAwake(workers) || forall w: nat :: w < |workers| ==> workers[w].Exited?
  }

  ghost predicate SomeAwake(workers: seq<Worker>) {
    exists w: nat :: w < |workers| && IsAwake(workers[w])
  }

  ghost predicate Inv(s: State) {
    && QueuesOk(s.wq, s.slow, s.markerSelfLinked, s.jobs)
    && CountersOk(s.workers, s.idle, s.slowRunning, s.owner)
    && CarriedOk(s.workers, s.jobs)
    && LoopsOk(s.loops, s.jobs)
    && JobsOk(s.jobs)
    && AwakeOk(s.owner, s.wq, s.workers)
  }

  // Changing one job or one worker.

  predicate InPool(place: Place) {
    place.Queued? || place.SlowQueued?
  }

  predicate AtLoop(place: Place) {
    place.InHand? || place.InLoop? || place.InBatch?
  }

  lemma JobChanged(s: State, id: nat, job: Job)
    requires Inv(s) && JobOk(job) && (id in s.jobs ==> job.loop == s.jobs[id].loop) && job.loop < |s.loops|
    ensures JobsOk(s.jobs[id := job])
    ensures !InPool(job.place) && (id in s.jobs ==> !InPool(s.jobs[id].place)) ==>
              QueuesOk(s.wq, s.slow, s.markerSelfLinked, s.jobs[id := job])
    ensures !job.place.AtWorker? && (id in s.jobs ==> !s.jobs[id].place.AtWorker?) ==>
            CarriedOk(s.workers, s.jobs[id := job])
    ensures !AtLoop(job.place) && (id in s.jobs ==> !AtLoop(s.jobs[id].place)) ==> LoopsOk(s.loops, s.jobs[id := job])
  {
    forall l: nat | l < |s.loops| && !AtLoop(job.place) && (id in s.jobs ==> !AtLoop(s.jobs[id].place))
      ensures LoopOk(s.loops[l], s.jobs[id := job], l)
    {
      assert LoopOk(s.loops[l], s.jobs, l);
    }
  }

  /** A worker that carries no job, before and after, is of no concern to the jobs. */
  lemma WorkerChanged(workers: seq<Worker>, w: nat, x: Worker, jobs: Jobs)
    requires CarriedOk(workers, jobs) && w < |workers|
    requires !workers[w].Executing? && !workers[w].Executed? && !x.Executing? && !x.Executed?
    ensures CarriedOk(workers[w := x], jobs)
  {
    forall v: nat, id: nat ensures Carries(workers[w := x], v, id) <==> Carries(workers, v, id) {
    }
  }

  lemma WorkerCounted(workers: seq<Worker>, w: nat, x: Worker)
    requires w < |workers|
    ensures Count(workers[w := x], IsWaiting)
         == Count(workers, IsWaiting) - (if IsWaiting(workers[w]) then 1 else 0) + if IsWaiting(x) then 1 else 0
    ensures Count(workers[w := x], RunsSlow)
         == Count(workers, RunsSlow) - (if RunsSlow(workers[w]) then 1 else 0) + if RunsSlow(x) then 1 else 0
  {
    CountUpdated(workers, w, x, IsWaiting);
    CountUpdated(workers, w, x, RunsSlow);
  }

  /** A signal changes nothing but the blocked worker it wakes. */
  lemma Signalled(s: State, wake: Option<nat>)
    requires Inv(s) && (Wakes(s.workers, wake) || wake == None)
    ensures var r := Signal(s.workers, wake); CountersOk(r, s.idle, s.slowRunning, s.owner) && CarriedOk(r, s.jobs)
    ensures forall w: nat :: w < |s.workers| && !Blocked(s.workers[w]) ==> Signal(s.workers, wake)[w] == s.workers[w]
  {
    if wake.Some? {
      WorkerCounted(s.workers, wake.value, Waiting(true));
      WorkerChanged(s.workers, wake.value, Waiting(true), s.jobs);
    }
  }

  /** After a signal, or if no worker waits at all, no worker that is left sleeps alone. */
  lemma SignalAwakes(s: State, wake: Option<nat>)
    requires Inv(s) && if s.idle > 0 then Wakes(s.workers, wake) else wake == None
    ensures var r := Signal(s.workers, wake); SomeAwake(r) || forall w: nat :: w < |r| ==> r[w].Exited?
  {
    var r := Signal(s.workers, wake);
    if wake.Some? {
      assert IsAwake(r[wake.value]);
    } else {
      CountIsPositive(s.workers, IsWaiting);
      forall w: nat | w < |r| && !r[w].Exited? ensures SomeAwake(r) {
        assert IsAwake(r[w]);
      }
    }
  }
}

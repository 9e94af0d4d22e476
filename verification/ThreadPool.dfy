/** The thread pool as a state machine. One step is one critical section of the pool's mutex or of a loop's mutex, or
    one pass through the worker's loop with the pool's mutex held; any number of workers, loops and jobs interleave
    freely. */
module ThreadPool {
  import opened Options
  import opened WorkQueues

  datatype Kind = Cpu | FastIo | SlowIo
  datatype Entry = Exit | Marker | Item(id: nat)
  datatype Status = Completed | Canceled

  /** The function of a job: not yet run, run, or replaced because the job was cancelled. */
  datatype Work = Function | Null | Cancelled

  datatype Worker =
    | Unlocked(slow: bool)  // about to lock the mutex, and to give back its share of slow work
    | Holding               // at the head of its loop, with the mutex
    | Waiting(signalled: bool)
    | Executing(id: nat, slow: bool)
    | Executed(id: nat, slow: bool)
    | Exited

  /** Where a job is. The source has no such field: it records where the last step put the job. */
  datatype Place = Queued | SlowQueued | AtWorker(w: nat) | InHand | InLoop | InBatch | Delivered

  /** selfLinked is what the source tests a job's queue node for: linked to itself, so being run. */
  datatype Job = Job(loop: nat, kind: Kind, work: Work, selfLinked: bool, executions: nat, cancels: nat,
                     done: seq<Status>, place: Place)

  /** A loop's queue of finished jobs, the jobs its thread took from there, and the one its thread is cancelling. */
  datatype Loop = Loop(queue: seq<nat>, batch: seq<nat>, hand: Option<nat>)

  datatype State = State(wq: seq<Entry>, slow: seq<nat>, markerSelfLinked: bool, idle: int, slowRunning: int,
                         owner: Option<nat>, workers: seq<Worker>, jobs: map<nat, Job>, loops: seq<Loop>)
  {
    function Threshold(): nat {
      (|workers| + 1) / 2
    }

    /** No work is present, or only slow work and as much of that runs as may. */
    predicate MustWait() {
      wq == [] || (wq == [Marker] && slowRunning >= Threshold())
    }
  }

  predicate Blocked(worker: Worker) {
    worker == Waiting(false)
  }

  predicate IsWaiting(worker: Worker) {
    worker.Waiting?
  }

  predicate RunsSlow(worker: Worker) {
    match worker
    case Unlocked(slow) => slow
    case Executing(_, slow) => slow
    case Executed(_, slow) => slow
    case _ => false
  }

  predicate IsAwake(worker: Worker) {
    !Blocked(worker) && !worker.Exited?
  }

  /** A signal wakes a blocked worker, if there is one. */
  predicate Wakes(workers: seq<Worker>, wake: Option<nat>) {
    match wake
    case Some(t) => t < |workers| && Blocked(workers[t])
    case None => forall t: nat :: t < |workers| ==> !Blocked(workers[t])
  }

  function Signal(workers: seq<Worker>, wake: Option<nat>): (r: seq<Worker>)
    requires wake.Some? ==> wake.value < |workers|
    ensures |r| == |workers|
  {
    if wake.Some? then workers[wake.value := Waiting(true)] else workers
  }

  predicate HoldsMutex(s: State, w: nat) {
    w < |s.workers| && s.owner == Some(w) && s.workers[w] == Holding
  }

  /** The state in which a worker takes the first entry of the queue. */
  predicate Takes(s: State, w: nat, e: Entry) {
    HoldsMutex(s, w) && !s.MustWait() && s.wq[0] == e
  }

  /** A worker locks the mutex at the start of its loop, and gives back its share of slow work. */
  predicate CanLock(s: State, w: nat) {
    w < |s.workers| && s.workers[w].Unlocked? && s.owner == None
  }

  ghost function DoLock(s: State, w: nat): State
    requires CanLock(s, w)
  {
    s.(workers := s.workers[w := Holding], owner := Some(w),
       slowRunning := s.slowRunning - if s.workers[w].slow then 1 else 0)
  }

  /** A waiting worker returns from its wait with the mutex; it need not have been signalled. */
  predicate CanWake(s: State, w: nat) {
    w < |s.workers| && s.workers[w].Waiting? && s.owner == None
  }

  ghost function DoWake(s: State, w: nat): State
    requires CanWake(s, w)
  {
    s.(workers := s.workers[w := Holding], owner := Some(w), idle := s.idle - 1)
  }

  predicate CanWait(s: State, w: nat) {
    HoldsMutex(s, w) && s.MustWait()
  }

  ghost function DoWait(s: State, w: nat): State
    requires CanWait(s, w)
  {
    s.(workers := s.workers[w := Waiting(false)], owner := None, idle := s.idle + 1)
  }

  /** A worker that finds the exit message leaves it for the others, wakes one of them, and ends. */
  predicate CanLeave(s: State, w: nat, wake: Option<nat>) {
    Takes(s, w, Exit) && Wakes(s.workers, wake)
  }

  ghost function DoLeave(s: State, w: nat, wake: Option<nat>): State
    requires CanLeave(s, w, wake)
  {
    s.(workers := Signal(s.workers, wake)[w := Exited], owner := None)
  }

  /** At the limit of slow work, the marker goes behind all other work. */
  predicate CanReschedule(s: State, w: nat) {
    Takes(s, w, Marker) && s.slowRunning >= s.Threshold()
  }

  ghost function DoReschedule(s: State, w: nat): State
    requires CanReschedule(s, w)
  {
    s.(wq := s.wq[1..] + [Marker])
  }

  /** The slow work the marker stood for was cancelled. */
  predicate CanDropMarker(s: State, w: nat) {
    Takes(s, w, Marker) && s.slowRunning < s.Threshold() && s.slow == []
  }

  ghost function DoDropMarker(s: State, w: nat): State
    requires CanDropMarker(s, w)
  {
    s.(wq := s.wq[1..], markerSelfLinked := true)
  }

  /** A worker takes the first slow job, and schedules the next one. */
  predicate CanTakeSlow(s: State, w: nat, wake: Option<nat>) {
    && Takes(s, w, Marker) && s.slowRunning < s.Threshold() && s.slow != [] && s.slow[0] in s.jobs
    && (if |s.slow| > 1 && s.idle > 0 then Wakes(s.workers, wake) else wake == None)
  }

  ghost function DoTakeSlow(s: State, w: nat, wake: Option<nat>): State
    requires CanTakeSlow(s, w, wake)
  {
    var id, more := s.slow[0], |s.slow| > 1;
    s.(wq := if more then s.wq[1..] + [Marker] else s.wq[1..], markerSelfLinked := !more, slow := s.slow[1..],
       slowRunning := s.slowRunning + 1, owner := None, workers := Signal(s.workers, wake)[w := Executing(id, true)],
       jobs := s.jobs[id := s.jobs[id].(selfLinked := true, place := AtWorker(w))])
  }

  predicate CanTakeItem(s: State, w: nat) {
    HoldsMutex(s, w) && !s.MustWait() && s.wq[0].Item? && s.wq[0].id in s.jobs
  }

  ghost function DoTakeItem(s: State, w: nat): State
    requires CanTakeItem(s, w)
  {
    var id := s.wq[0].id;
    s.(wq := s.wq[1..], owner := None, workers := s.workers[w := Executing(id, false)],
       jobs := s.jobs[id := s.jobs[id].(selfLinked := true, place := AtWorker(w))])
  }

  /** The job's function runs, without any mutex. */
  predicate CanExecute(s: State, w: nat) {
    w < |s.workers| && s.workers[w].Executing? && s.workers[w].id in s.jobs
  }

  ghost function DoExecute(s: State, w: nat): State
    requires CanExecute(s, w)
  {
    var Executing(id, slow) := s.workers[w];
    s.(workers := s.workers[w := Executed(id, slow)],
       jobs := s.jobs[id := s.jobs[id].(executions := s.jobs[id].executions + 1)])
  }

  /** Under the loop's mutex, the job is marked as run and goes to its loop. */
  predicate CanDeliver(s: State, w: nat) {
    w < |s.workers| && s.workers[w].Executed? && s.workers[w].id in s.jobs && s.jobs[s.workers[w].id].loop < |s.loops|
  }

  ghost function DoDeliver(s: State, w: nat): State
    requires CanDeliver(s, w)
  {
    var Executed(id, slow) := s.workers[w];
    var l := s.jobs[id].loop;
    s.(workers := s.workers[w := Unlocked(slow)],
       jobs := s.jobs[id := s.jobs[id].(work := Null, selfLinked := false, place := InLoop)],
       loops := s.loops[l := s.loops[l].(queue := s.loops[l].queue + [id])])
  }

  /** Whether posting a job changes the pool's queue, and so may wake a worker: slow work does unless it is
      scheduled. */
  predicate Schedules(s: State, kind: Kind) {
    kind == SlowIo ==> s.markerSelfLinked
  }

  predicate CanSubmit(s: State, id: nat, kind: Kind, loop: nat, wake: Option<nat>) {
    && id !in s.jobs && loop < |s.loops| && s.owner == None
    && (if Schedules(s, kind) && s.idle > 0 then Wakes(s.workers, wake) else wake == None)
  }

  ghost function DoSubmit(s: State, id: nat, kind: Kind, loop: nat, wake: Option<nat>): State
    requires CanSubmit(s, id, kind, loop, wake)
  {
    var job := Job(loop, kind, Function, false, 0, 0, [], if kind == SlowIo then SlowQueued else Queued);
    s.(jobs := s.jobs[id := job],
       slow := if kind == SlowIo then s.slow + [id] else s.slow,
       wq := if !Schedules(s, kind) then s.wq else if kind == SlowIo then s.wq + [Marker] else s.wq + [Item(id)],
       markerSelfLinked := s.markerSelfLinked && kind != SlowIo,
       workers := Signal(s.workers, wake))
  }

  /** Cleanup posts the exit message; nothing posts it twice. */
  predicate CanPostExit(s: State, wake: Option<nat>) {
    Exit !in s.wq && s.owner == None && if s.idle > 0 then Wakes(s.workers, wake) else wake == None
  }

  ghost function DoPostExit(s: State, wake: Option<nat>): State
    requires CanPostExit(s, wake)
  {
    s.(wq := s.wq + [Exit], workers := Signal(s.workers, wake))
  }

  /** The test of a cancellation. */
  predicate Cancellable(job: Job) {
    !job.selfLinked && job.work != Null
  }

  /** A loop's thread may cancel a job of its own whose callback it has not called; under both mutexes it tests whether
      that is possible. */
  predicate MayCancel(s: State, id: nat) {
    && id in s.jobs && s.jobs[id].loop < |s.loops| && s.jobs[id].place != Delivered &&
      s.loops[s.jobs[id].loop].hand == None
    && s.owner == None
  }

  predicate CanBeginCancel(s: State, id: nat) {
    MayCancel(s, id) && Cancellable(s.jobs[id])
  }

  /** The job is unlinked from whichever list it is in. */
  ghost function DoBeginCancel(s: State, id: nat): State
    requires CanBeginCancel(s, id)
  {
    var l := s.jobs[id].loop;
    s.(wq := Without(s.wq, Item(id)), slow := Without(s.slow, id),
       loops := s.loops[l := Loop(Without(s.loops[l].queue, id), Without(s.loops[l].batch, id), Some(id))],
       jobs := s.jobs[id := s.jobs[id].(place := InHand)])
  }

  predicate CanEndCancel(s: State, l: nat) {
    l < |s.loops| && s.loops[l].hand.Some? && s.loops[l].hand.value in s.jobs
  }

  /** The job's function is replaced, the job goes to the loop, and the caller is told of success. */
  ghost function DoEndCancel(s: State, l: nat): State
    requires CanEndCancel(s, l)
  {
    var id := s.loops[l].hand.value;
    s.(loops := s.loops[l := s.loops[l].(queue := s.loops[l].queue + [id], hand := None)],
       jobs := s.jobs[id := s.jobs[id].(work := Cancelled, cancels := s.jobs[id].cancels + 1, place := InLoop)])
  }

  /** The loop's thread takes all the jobs its loop was given. */
  predicate CanCollect(s: State, l: nat) {
    l < |s.loops| && s.loops[l].hand == None && s.loops[l].batch == []
  }

  ghost function Collected(jobs: map<nat, Job>, l: nat): map<nat, Job> {
    map id | id in jobs ::
      if jobs[id].loop == l && jobs[id].place == InLoop then jobs[id].(place := InBatch) else jobs[id]
  }

  ghost function DoCollect(s: State, l: nat): State
    requires CanCollect(s, l)
  {
    s.(loops := s.loops[l := s.loops[l].(queue := [], batch := s.loops[l].queue)], jobs := Collected(s.jobs, l))
  }

  /** The loop's thread calls the callback of the first of them. */
  predicate CanCallDone(s: State, l: nat) {
    l < |s.loops| && s.loops[l].hand == None && s.loops[l].batch != [] && s.loops[l].batch[0] in s.jobs
  }

  ghost function DoCallDone(s: State, l: nat): State
    requires CanCallDone(s, l)
  {
    var id := s.loops[l].batch[0];
    var status := if s.jobs[id].work == Cancelled then Canceled else Completed;
    s.(loops := s.loops[l := s.loops[l].(batch := s.loops[l].batch[1..])],
       jobs := s.jobs[id := s.jobs[id].(done := s.jobs[id].done + [status], place := Delivered)])
  }

  datatype Step =
    | Lock(w: nat)
    | Wake(w: nat)
    | Wait(w: nat)
    | Leave(w: nat, wake: Option<nat>)
    | Reschedule(w: nat)
    | DropMarker(w: nat)
    | TakeSlow(w: nat, wake: Option<nat>)
    | TakeItem(w: nat)
    | Execute(w: nat)
    | Deliver(w: nat)
    | Submit(id: nat, kind: Kind, loop: nat, wake: Option<nat>)
    | PostExit(wake: Option<nat>)
    | BeginCancel(id: nat)
    | EndCancel(loop: nat)
    | Collect(loop: nat)
    | CallDone(loop: nat)
  {
    predicate OfWorker() {
      Lock? || Wake? || Wait? || Leave? || Reschedule? || DropMarker? || TakeSlow? || TakeItem? || Execute? || Deliver?
    }
  }

  predicate Enabled(s: State, step: Step) {
    match step
    case Lock(w) => CanLock(s, w)
    case Wake(w) => CanWake(s, w)
    case Wait(w) => CanWait(s, w)
    case Leave(w, wake) => CanLeave(s, w, wake)
    case Reschedule(w) => CanReschedule(s, w)
    case DropMarker(w) => CanDropMarker(s, w)
    case TakeSlow(w, wake) => CanTakeSlow(s, w, wake)
    case TakeItem(w) => CanTakeItem(s, w)
    case Execute(w) => CanExecute(s, w)
    case Deliver(w) => CanDeliver(s, w)
    case Submit(id, kind, loop, wake) => CanSubmit(s, id, kind, loop, wake)
    case PostExit(wake) => CanPostExit(s, wake)
    case BeginCancel(id) => CanBeginCancel(s, id)
    case EndCancel(loop) => CanEndCancel(s, loop)
    case Collect(loop) => CanCollect(s, loop)
    case CallDone(loop) => CanCallDone(s, loop)
  }

  ghost function Apply(s: State, step: Step): State
    requires Enabled(s, step)
  {
    match step
    case Lock(w) => DoLock(s, w)
    case Wake(w) => DoWake(s, w)
    case Wait(w) => DoWait(s, w)
    case Leave(w, wake) => DoLeave(s, w, wake)
    case Reschedule(w) => DoReschedule(s, w)
    case DropMarker(w) => DoDropMarker(s, w)
    case TakeSlow(w, wake) => DoTakeSlow(s, w, wake)
    case TakeItem(w) => DoTakeItem(s, w)
    case Execute(w) => DoExecute(s, w)
    case Deliver(w) => DoDeliver(s, w)
    case Submit(id, kind, loop, wake) => DoSubmit(s, id, kind, loop, wake)
    case PostExit(wake) => DoPostExit(s, wake)
    case BeginCancel(id) => DoBeginCancel(s, id)
    case EndCancel(loop) => DoEndCancel(s, loop)
    case Collect(loop) => DoCollect(s, loop)
    case CallDone(loop) => DoCallDone(s, loop)
  }

  /** The pool after its threads were created, with this many loops. */
  ghost function Initial(threads: nat, loops: nat): State {
    State([], [], true, 0, 0, None, seq(threads, _ => Unlocked(false)), map[], seq(loops, _ => Loop([], [], None)))
  }

  /** The states at the end of the runs from a state. */
  ghost predicate CanRun(s: State, steps: seq<Step>)
    decreases |steps|
  {
    steps != [] ==> Enabled(s, steps[0]) && CanRun(Apply(s, steps[0]), steps[1..])
  }

  ghost function After(s: State, steps: seq<Step>): State
    requires CanRun(s, steps)
    decreases |steps|
  {
    if steps == [] then s else After(Apply(s, steps[0]), steps[1..])
  }
}

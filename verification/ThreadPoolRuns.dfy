/** What holds after every run of the thread pool. */
module ThreadPoolRuns {
  import opened Options
  import opened WorkQueues
  import opened ThreadPool
  import opened ThreadPoolInvariant
  import opened ThreadPoolSteps

  lemma {:induction false} NoneOf<T>(n: nat, x: T, p: T -> bool)
    requires !p(x)
    ensures Count(seq(n, _ => x), p) == 0
  {
    if n > 0 {
      assert seq(n, _ => x)[1..] == seq(n - 1, _ => x);
      NoneOf(n - 1, x, p);
    }
  }

  lemma InitialIsOk(threads: nat, loops: nat)
    requires threads >= 1
    ensures Inv(Initial(threads, loops))
  {
    NoneOf(threads, Unlocked(false), IsWaiting);
    NoneOf(threads, Unlocked(false), RunsSlow);
  }

  lemma {:induction false} RunKeepsInv(s: State, steps: seq<Step>)
    requires Inv(s) && CanRun(s, steps)
    ensures Inv(After(s, steps))
    decreases |steps|
  {
    hide Inv, Enabled, Apply;
    if steps != [] {
      StepKeeps(s, steps[0]);
      RunKeepsInv(Apply(s, steps[0]), steps[1..]);
    }
  }

  /** The state after some run from the start. */
  ghost predicate Reachable(s: State, threads: nat, loops: nat, steps: seq<Step>) {
    threads >= 1 && CanRun(Initial(threads, loops), steps) && s == After(Initial(threads, loops), steps)
  }

  lemma ReachableIsOk(s: State, threads: nat, loops: nat, steps: seq<Step>)
    requires Reachable(s, threads, loops, steps)
    ensures Inv(s)
  {
    InitialIsOk(threads, loops);
    RunKeepsInv(Initial(threads, loops), steps);
  }

  /** The places in which a job can be found. */
  datatype Spot =
    | InPoolQueue(i: nat) | InSlowQueue(i: nat) | WithWorker(w: nat)
    | WithCanceller(l: nat) | InLoopQueue(l: nat, i: nat) | InLoopBatch(l: nat, i: nat) | CalledBack

  ghost predicate IsAt(s: State, id: nat, spot: Spot) {
    match spot
    case InPoolQueue(i) => i < |s.wq| && s.wq[i] == Item(id)
    case InSlowQueue(i) => i < |s.slow| && s.slow[i] == id
    case WithWorker(w) => Carries(s.workers, w, id)
    case WithCanceller(l) => l < |s.loops| && s.loops[l].hand == Some(id)
    case InLoopQueue(l, i) => l < |s.loops| && i < |s.loops[l].queue| && s.loops[l].queue[i] == id
    case InLoopBatch(l, i) => l < |s.loops| && i < |s.loops[l].batch| && s.loops[l].batch[i] == id
    case CalledBack => id in s.jobs && s.jobs[id].done != []
  }

  ghost predicate SpotOf(place: Place, loop: nat, spot: Spot) {
    match place
    case Queued => spot.InPoolQueue?
    case SlowQueued => spot.InSlowQueue?
    case AtWorker(w) => spot == WithWorker(w)
    case InHand => spot == WithCanceller(loop)
    case InLoop => spot.InLoopQueue? && spot.l == loop
    case InBatch => spot.InLoopBatch? && spot.l == loop
    case Delivered => spot == CalledBack
  }

  lemma SpotIsPlace(s: State, id: nat, spot: Spot)
    requires Inv(s) && IsAt(s, id, spot)
    ensures id in s.jobs && SpotOf(s.jobs[id].place, s.jobs[id].loop, spot)
  {
    match spot
    case InPoolQueue(i) => assert Item(id) in s.wq;
    case InSlowQueue(i) => assert id in s.slow;
    case WithWorker(w) =>
    case WithCanceller(l) =>
      assert LoopOk(s.loops[l], s.jobs, l);
      assert PlacedIn(s.jobs, id, InHand, l);
    case InLoopQueue(l, i) =>
      assert id in s.loops[l].queue && LoopOk(s.loops[l], s.jobs, l);
    case InLoopBatch(l, i) =>
      assert id in s.loops[l].batch && LoopOk(s.loops[l], s.jobs, l);
    case CalledBack => assert JobOk(s.jobs[id]);
  }

  lemma SpotsAgree(s: State, id: nat, spot: Spot, other: Spot)
    requires Inv(s) && IsAt(s, id, spot) && IsAt(s, id, other)
    ensures spot == other
  {
    SpotIsPlace(s, id, spot);
    SpotIsPlace(s, id, other);
    if spot.InLoopQueue? || spot.InLoopBatch? {
      assert LoopOk(s.loops[spot.l], s.jobs, spot.l);
    }
  }

  lemma SpotExists(s: State, id: nat) returns (spot: Spot)
    requires Inv(s) && id in s.jobs
    ensures IsAt(s, id, spot)
  {
    var l := s.jobs[id].loop;
    assert LoopOk(s.loops[l], s.jobs, l) && JobOk(s.jobs[id]);
    match s.jobs[id].place
    case Queued =>
      assert Item(id) in s.wq;
      var i: nat :| i < |s.wq| && s.wq[i] == Item(id);
      spot := InPoolQueue(i);
    case SlowQueued =>
      assert id in s.slow;
      var i: nat :| i < |s.slow| && s.slow[i] == id;
      spot := InSlowQueue(i);
    case AtWorker(w) =>
      assert Carries(s.workers, w, id);
      spot := WithWorker(w);
    case InHand =>
      assert PlacedIn(s.jobs, id, InHand, l);
      spot := WithCanceller(l);
    case InLoop =>
      assert id in s.loops[l].queue;
      var i: nat :| i < |s.loops[l].queue| && s.loops[l].queue[i] == id;
      spot := InLoopQueue(l, i);
    case InBatch =>
      assert id in s.loops[l].batch;
      var i: nat :| i < |s.loops[l].batch| && s.loops[l].batch[i] == id;
      spot := InLoopBatch(l, i);
    case Delivered =>
      spot := CalledBack;
  }

  /** After every run, each job that was submitted is in exactly one place, and nothing else is in any. */
  lemma ExactlyOnePlace(s: State, threads: nat, loops: nat, steps: seq<Step>, id: nat)
    requires Reachable(s, threads, loops, steps)
    ensures (exists spot :: IsAt(s, id, spot)) <==> id in s.jobs
    ensures forall spot, other :: IsAt(s, id, spot) && IsAt(s, id, other) ==> spot == other
  {
    ReachableIsOk(s, threads, loops, steps);
    hide Reachable, Inv, IsAt;
    forall spot, other | IsAt(s, id, spot) && IsAt(s, id, other) ensures spot == other {
      SpotsAgree(s, id, spot, other);
    }
    forall spot | IsAt(s, id, spot) ensures id in s.jobs {
      SpotIsPlace(s, id, spot);
    }
    if id in s.jobs {
      var spot := SpotExists(s, id);
    }
  }

  /** After every run, a job's callback was called at most once, its function ran at most once, and never if a caller
      was told that it was cancelled; the callback was told of a cancellation exactly if a caller was. */
  lemma CallbacksAreRight(s: State, threads: nat, loops: nat, steps: seq<Step>, id: nat)
    requires Reachable(s, threads, loops, steps) && id in s.jobs
    ensures var job := s.jobs[id];
            && |job.done| <= 1 && job.executions <= 1
            && (job.cancels > 0 ==> job.executions == 0)
            && (job.done != [] ==>
                  job.done == [if job.cancels > 0 then Canceled else Completed] &&
                    job.executions == if job.cancels > 0 then 0 else 1)
  {
    ReachableIsOk(s, threads, loops, steps);
    assert JobOk(s.jobs[id]);
  }

  /** After every run, a cancellation succeeds exactly for work that no worker took, or that was cancelled before. */
  lemma CancelSucceedsExactly(s: State, threads: nat, loops: nat, steps: seq<Step>, id: nat)
    requires Reachable(s, threads, loops, steps) && MayCancel(s, id)
    ensures CanBeginCancel(s, id) <==> Item(id) in s.wq || id in s.slow || s.jobs[id].cancels > 0
  {
    ReachableIsOk(s, threads, loops, steps);
    CancellableIs(s, id);
    assert JobOk(s.jobs[id]);
    var l := s.jobs[id].loop;
    assert LoopOk(s.loops[l], s.jobs, l) && !PlacedIn(s.jobs, id, InHand, l);
  }

  /** After every run, the count of workers on slow work is right and within its limit, the marker of slow work is
      linked at most once, and pending slow work is never without it. */
  lemma SlowWorkIsBounded(s: State, threads: nat, loops: nat, steps: seq<Step>)
    requires Reachable(s, threads, loops, steps)
    ensures s.slowRunning == Count(s.workers, RunsSlow) <= (|s.workers| + 1) / 2
    ensures forall i: nat, j: nat :: i < |s.wq| && j < |s.wq| && s.wq[i] == s.wq[j] == Marker ==> i == j
    ensures s.slow != [] ==> Marker in s.wq
    ensures forall w: nat :: w < |s.workers| && s.workers[w].Executing? ==>
              s.workers[w].id in s.jobs && (RunsSlow(s.workers[w]) <==> s.jobs[s.workers[w].id].kind == SlowIo)
  {
    ReachableIsOk(s, threads, loops, steps);
    forall w: nat | w < |s.workers| && s.workers[w].Executing?
      ensures s.workers[w].id in s.jobs && (RunsSlow(s.workers[w]) <==> s.jobs[s.workers[w].id].kind == SlowIo)
    {
      assert Carries(s.workers, w, s.workers[w].id);
    }
  }
}

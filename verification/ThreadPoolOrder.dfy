/** Jobs of one queue are begun in the order in which they were posted. */
module ThreadPoolOrder {
  import opened Options
  import opened WorkQueues
  import opened ThreadPool
  import opened ThreadPoolInvariant
  import opened ThreadPoolSteps
  import opened ThreadPoolRuns

  ghost predicate Ahead<T>(q: seq<T>, x: T, y: T) {
    exists i: nat, j: nat :: i < j < |q| && q[i] == x && q[j] == y
  }

  lemma AheadOfNew<T>(q: seq<T>, x: T, y: T)
    requires x in q
    ensures Ahead(q + [y], x, y)
  {
    var i: nat :| i < |q| && q[i] == x;
    var r := q + [y];
    assert r[i] == x && r[|q|] == y;
  }

  lemma AheadStays<T>(q: seq<T>, x: T, y: T, z: T)
    requires Ahead(q, x, y)
    ensures Ahead(q + [z], x, y)
  {
    var i: nat, j: nat :| i < j < |q| && q[i] == x && q[j] == y;
    var r := q + [z];
    assert r[i] == x && r[j] == y;
  }

  lemma AheadOfHead<T>(q: seq<T>, x: T, y: T)
    requires Ahead(q, x, y) && Distinct(q)
    ensures q[0] != y && y in q && (q[0] != x ==> Ahead(q[1..], x, y)) && (q[0] == x ==> x !in q[1..])
  {
    var i: nat, j: nat :| i < j < |q| && q[i] == x && q[j] == y;
    Popped(q);
    if i > 0 {
      var r := q[1..];
      assert r[i - 1] == x && r[j - 1] == y;
    }
  }

  lemma {:induction false} AheadWithout<T>(q: seq<T>, x: T, y: T, z: T)
    requires Ahead(q, x, y) && Distinct(q) && z != x && z != y
    ensures Ahead(Without(q, z), x, y)
    decreases |q|
  {
    AheadOfHead(q, x, y);
    Popped(q);
    if q[0] == x {
      Unlinked(q[1..], z);
      var r := Without(q[1..], z);
      var j: nat :| j < |r| && r[j] == y;
      var s := [x] + r;
      assert s[0] == x && s[j + 1] == y;
    } else if q[0] != z {
      AheadWithout(q[1..], x, y, z);
      var r := Without(q[1..], z);
      var i: nat, j: nat :| i < j < |r| && r[i] == x && r[j] == y;
      var s := [q[0]] + r;
      assert s[i + 1] == x && s[j + 1] == y;
    }
  }

  /** The second of two jobs waits behind the first. */
  ghost predicate Behind(s: State, a: nat, b: nat) {
    Ahead(s.slow, a, b) || Ahead(s.wq, Item(a), Item(b))
  }

  ghost predicate Pending(s: State, id: nat) {
    id in s.slow || Item(id) in s.wq
  }

  /** A job that was cancelled before it was begun. */
  ghost predicate Passed(s: State, id: nat) {
    id in s.jobs && s.jobs[id].executions == 0 && !InPool(s.jobs[id].place) && !s.jobs[id].place.AtWorker?
  }

  /** The first is no longer pending, or the second waits behind it, or that was cancelled. */
  ghost predicate InTurn(s: State, a: nat, b: nat) {
    a in s.jobs && b in s.jobs && (!Pending(s, a) || Behind(s, a, b) || Passed(s, b))
  }

  lemma PassedStays(s: State, step: Step, id: nat)
    requires Inv(s) && Enabled(s, step) && Passed(s, id)
    ensures Passed(Apply(s, step), id)
  {
    assert forall w: nat :: !Carries(s.workers, w, id);
    assert id !in s.slow && Item(id) !in s.wq;
    hide QueuesOk, CountersOk, CarriedOk, LoopsOk, JobsOk, AwakeOk, Wakes, State.MustWait;
    if step.OfWorker() {
      WorkerPasses(s, step, id);
    }
  }

  lemma WorkerPasses(s: State, step: Step, id: nat)
    requires Enabled(s, step) && step.OfWorker() && id in s.jobs && id !in s.slow && Item(id) !in s.wq
    requires forall w: nat :: !Carries(s.workers, w, id)
    ensures id in Apply(s, step).jobs && Apply(s, step).jobs[id] == s.jobs[id]
  {
    hide Wakes;
    match step
    case Execute(w) => assert Carries(s.workers, w, s.workers[w].id);
    case Deliver(w) => assert Carries(s.workers, w, s.workers[w].id);
    case TakeItem(w) => assert s.wq[0] in s.wq;
    case TakeSlow(w, wake) => assert s.slow[0] in s.slow;
    case _ =>
  }

  lemma GoneStays(s: State, step: Step, id: nat)
    requires Inv(s) && Enabled(s, step) && id in s.jobs && !Pending(s, id)
    ensures id in Apply(s, step).jobs && !Pending(Apply(s, step), id)
  {
    hide CountersOk, CarriedOk, LoopsOk, JobsOk, AwakeOk, Wakes;
    if step.BeginCancel? {
      Unlinked(s.wq, Item(step.id));
      Unlinked(s.slow, step.id);
    }
  }

  lemma TakingKeepsTurn(s: State, step: Step, a: nat, b: nat)
    requires Inv(s) && Enabled(s, step) && InTurn(s, a, b) && Behind(s, a, b)
    requires step.Reschedule? || step.DropMarker? || step.TakeSlow? || step.TakeItem?
    ensures InTurn(Apply(s, step), a, b)
  {
    var t := Apply(s, step);
    assert Distinct(s.wq) && Distinct(s.slow);
    assert Pending(s, a) ==> !(a in s.slow && Item(a) in s.wq);
    hide QueuesOk, CountersOk, CarriedOk, LoopsOk, JobsOk, AwakeOk, Wakes;
    if Ahead(s.wq, Item(a), Item(b)) {
      AheadOfHead(s.wq, Item(a), Item(b));
      if s.wq[0] != Item(a) {
        AheadStays(s.wq[1..], Item(a), Item(b), Marker);
      }
    } else if step.TakeSlow? {
      AheadOfHead(s.slow, a, b);
    }
  }

  lemma OthersKeepTurn(s: State, step: Step, a: nat, b: nat)
    requires Inv(s) && Enabled(s, step) && InTurn(s, a, b) && Behind(s, a, b)
    requires !step.Reschedule? && !step.DropMarker? && !step.TakeSlow? && !step.TakeItem? && !step.BeginCancel?
    ensures InTurn(Apply(s, step), a, b)
  {
    hide Inv, Wakes, State.MustWait, Ahead;
    if step.Submit? {
      if Ahead(s.slow, a, b) {
        AheadStays(s.slow, a, b, step.id);
      } else {
        AheadStays(s.wq, Item(a), Item(b), Marker);
        AheadStays(s.wq, Item(a), Item(b), Item(step.id));
      }
    } else if step.PostExit? {
      if Ahead(s.wq, Item(a), Item(b)) {
        AheadStays(s.wq, Item(a), Item(b), Exit);
      }
    }
  }

  lemma CancelKeepsTurn(s: State, id: nat, a: nat, b: nat)
    requires Inv(s) && CanBeginCancel(s, id) && InTurn(s, a, b) && Behind(s, a, b)
    ensures InTurn(DoBeginCancel(s, id), a, b)
  {
    assert Distinct(s.wq) && Distinct(s.slow);
    Unlinked(s.wq, Item(id));
    Unlinked(s.slow, id);
    if id == b {
      BehindIsFresh(s, a, b);
    } else if id != a {
      if Ahead(s.slow, a, b) {
        AheadWithout(s.slow, a, b, id);
      } else {
        AheadWithout(s.wq, Item(a), Item(b), Item(id));
      }
    }
    hide Inv, Ahead;
  }

  lemma BehindIsFresh(s: State, a: nat, b: nat)
    requires Inv(s) && Behind(s, a, b)
    ensures b in s.jobs && InPool(s.jobs[b].place) && s.jobs[b].executions == 0
  {
    if Ahead(s.slow, a, b) {
      AheadOfHead(s.slow, a, b);
    } else {
      AheadOfHead(s.wq, Item(a), Item(b));
    }
    assert Placed(s.jobs, b, SlowQueued) || Placed(s.jobs, b, Queued);
    assert JobOk(s.jobs[b]);
  }

  lemma TurnKept(s: State, step: Step, a: nat, b: nat)
    requires Inv(s) && Enabled(s, step) && InTurn(s, a, b)
    ensures InTurn(Apply(s, step), a, b)
  {
    JobsStay(s, step, a);
    JobsStay(s, step, b);
    hide Inv, Enabled, Apply, Behind;
    if !Pending(s, a) {
      GoneStays(s, step, a);
    } else if Passed(s, b) {
      PassedStays(s, step, b);
    } else if step.BeginCancel? {
      CancelKeepsTurn(s, step.id, a, b);
      BeginCancelIs(s, step.id);
    } else if step.Reschedule? || step.DropMarker? || step.TakeSlow? || step.TakeItem? {
      TakingKeepsTurn(s, step, a, b);
    } else {
      OthersKeepTurn(s, step, a, b);
    }
  }

  lemma BeginCancelIs(s: State, id: nat)
    requires Enabled(s, BeginCancel(id))
    ensures CanBeginCancel(s, id) && Apply(s, BeginCancel(id)) == DoBeginCancel(s, id)
  {
  }

  lemma JobsStay(s: State, step: Step, id: nat)
    requires Enabled(s, step) && id in s.jobs
    ensures id in Apply(s, step).jobs
  {
    hide Wakes, State.MustWait;
  }

  lemma {:induction false} RunKeepsTurn(s: State, steps: seq<Step>, a: nat, b: nat)
    requires Inv(s) && InTurn(s, a, b) && CanRun(s, steps)
    ensures InTurn(After(s, steps), a, b) && Inv(After(s, steps))
    decreases |steps|
  {
    hide Inv, Enabled, Apply, InTurn;
    if steps != [] {
      StepKeeps(s, steps[0]);
      TurnKept(s, steps[0], a, b);
      RunKeepsTurn(Apply(s, steps[0]), steps[1..], a, b);
    }
  }

  /** First come, first served: of two jobs in the same queue the one behind is not begun while the other one is
      pending, whatever happens. */
  lemma FirstComeFirstServed(s: State, threads: nat, loops: nat, before: seq<Step>, steps: seq<Step>, a: nat, b: nat)
    requires Reachable(s, threads, loops, before) && Behind(s, a, b) && CanRun(s, steps)
    ensures var t := After(s, steps);
            b in t.jobs && (t.jobs[b].place.AtWorker? || t.jobs[b].executions > 0 ==> a !in t.slow && Item(a) !in t.wq)
  {
    ReachableIsOk(s, threads, loops, before);
    BehindIsFresh(s, a, b);
    AheadIsJob(s, a, b);
    RunKeepsTurn(s, steps, a, b);
    var t := After(s, steps);
    if Behind(t, a, b) {
      BehindIsFresh(t, a, b);
    }
    hide Inv, Behind;
  }

  lemma AheadIsJob(s: State, a: nat, b: nat)
    requires Inv(s) && Behind(s, a, b)
    ensures a in s.jobs
  {
    assert a in s.slow || Item(a) in s.wq;
    assert Placed(s.jobs, a, SlowQueued) || Placed(s.jobs, a, Queued);
  }

  /** A job that is posted goes behind all that are in its queue. */
  lemma PostedIsBehind(s: State, step: Step, a: nat)
    requires Enabled(s, step) && step.Submit?
    requires if step.kind == SlowIo then a in s.slow else Item(a) in s.wq
    ensures Behind(Apply(s, step), a, step.id)
  {
    if step.kind == SlowIo {
      AheadOfNew(s.slow, a, step.id);
    } else {
      AheadOfNew(s.wq, Item(a), Item(step.id));
    }
  }

  /** The finished jobs of a loop, in the order in which their callbacks will be called. */
  ghost function Line(s: State, l: nat): seq<nat>
    requires l < |s.loops|
  {
    s.loops[l].batch + s.loops[l].queue
  }

  lemma {:induction false} WithoutBoth<T>(q: seq<T>, r: seq<T>, z: T)
    requires z in q ==> z !in r
    ensures Without(q, z) + Without(r, z) == Without(q + r, z)
    decreases |q|
  {
    if q == [] {
      assert q + r == r && [] + Without(r, z) == Without(r, z);
    } else {
      assert (q + r)[1..] == q[1..] + r;
      if q[0] == z {
        WithoutNone(r, z);
      } else {
        WithoutBoth(q[1..], r, z);
      }
    }
  }

  lemma {:induction false} WithoutNone<T>(q: seq<T>, z: T)
    requires z !in q
    ensures Without(q, z) == q
  {
    if q != [] {
      WithoutNone(q[1..], z);
    }
  }

  lemma LineIsDistinct(s: State, l: nat)
    requires Inv(s) && l < |s.loops|
    ensures Distinct(Line(s, l)) && forall id :: id in s.loops[l].batch ==> id !in s.loops[l].queue
  {
    assert LoopOk(s.loops[l], s.jobs, l);
    assert forall id: nat :: !(PlacedIn(s.jobs, id, InBatch, l) && PlacedIn(s.jobs, id, InLoop, l));
    var batch, queue := s.loops[l].batch, s.loops[l].queue;
    forall i: nat, j: nat | i < |batch| && j < |queue| ensures batch[i] != queue[j] {
      assert batch[i] in batch && queue[j] in queue;
    }
  }

  lemma LineGrows(s: State, step: Step, l: nat)
    requires Enabled(s, step) && l < |s.loops| && (step.Deliver? || step.EndCancel?)
    ensures l < |Apply(s, step).loops|
    ensures Line(Apply(s, step), l) == Line(s, l) || exists id :: Line(Apply(s, step), l) == Line(s, l) + [id]
  {
    var id := if step.Deliver? then s.workers[step.w].id else s.loops[step.loop].hand.value;
    assert Line(s, l) + [id] == s.loops[l].batch + (s.loops[l].queue + [id]);
  }

  lemma LineShrinks(s: State, step: Step, l: nat)
    requires Enabled(s, step) && l < |s.loops| && (step.BeginCancel? || step.Collect? || step.CallDone?)
    requires forall id :: id in s.loops[l].batch ==> id !in s.loops[l].queue
    ensures l < |Apply(s, step).loops|
    ensures var line, after := Line(s, l), Line(Apply(s, step), l);
            || after == line
            || (step.BeginCancel? && after == Without(line, step.id))
            || (step == CallDone(l) && s.loops[l].batch != [] && line[0] == s.loops[l].batch[0] && after == line[1..])
  {
    var batch, queue := s.loops[l].batch, s.loops[l].queue;
    match step
    case BeginCancel(id) => WithoutBoth(batch, queue, id);
    case Collect(m) => assert [] + queue == queue + [];
    case CallDone(m) =>
      if m == l {
        assert (batch + queue)[1..] == batch[1..] + queue;
      }
  }

  lemma LineStays(s: State, step: Step, l: nat)
    requires Enabled(s, step) && l < |s.loops|
    requires !step.Deliver? && !step.EndCancel? && !step.BeginCancel? && !step.Collect? && !step.CallDone?
    ensures l < |Apply(s, step).loops| && Line(Apply(s, step), l) == Line(s, l)
  {
    hide Wakes, State.MustWait;
  }

  /** Callbacks are called in the order in which the jobs finished, but for those that are cancelled once more. */
  lemma CallbacksInOrder(s: State, step: Step, l: nat, a: nat, b: nat)
    requires Inv(s) && Enabled(s, step) && l < |s.loops| && Ahead(Line(s, l), a, b)
    requires step != BeginCancel(a) && step != BeginCancel(b)
    ensures l < |Apply(s, step).loops|
    ensures Ahead(Line(Apply(s, step), l), a, b) ||
            (step == CallDone(l) && s.loops[l].batch != [] && s.loops[l].batch[0] == a)
  {
    hide *;
    var line := Line(s, l);
    LineIsDistinct(s, l);
    if step.Deliver? || step.EndCancel? {
      LineGrows(s, step, l);
      if id :| Line(Apply(s, step), l) == line + [id] {
        AheadStays(line, a, b, id);
      }
    } else if step.BeginCancel? || step.Collect? || step.CallDone? {
      LineShrinks(s, step, l);
      AheadOfHead(line, a, b);
      if step.BeginCancel? {
        AheadWithout(line, a, b, step.id);
      }
    } else {
      LineStays(s, step, l);
    }
  }
}

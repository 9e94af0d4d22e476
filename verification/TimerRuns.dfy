/** The timer queue as a map from pending timers to keys, and what running the due ones does to it. */
module TimerRuns {
  import opened MachineWords
  import opened BinaryHeap

  type UInt64 = x: int | 0 <= x < TWO_64

  /** A deadline, and the value of the loop's counter when the timer was started. */
  datatype Key = Key(timeout: UInt64, startId: UInt64)

  /** Deadlines first, ties in the order of starting. */
  predicate TimerLess(a: Key, b: Key) {
    if a.timeout < b.timeout then true
    else if b.timeout < a.timeout then false
    else a.startId < b.startId
  }

  /** A deadline that would not fit saturates. */
  function Deadline(time: UInt64, timeout: UInt64): UInt64 {
    if time + timeout <= MAX_64 then time + timeout else MAX_64
  }

  /** A deadline is the sum, or the last instant if the sum is later; in neither case does it wrap. */
  lemma DeadlineIsLeast(time: UInt64, timeout: UInt64)
    ensures time <= Deadline(time, timeout) && timeout <= Deadline(time, timeout)
    ensures Deadline(time, timeout) in {time + timeout, 0xFFFF_FFFF_FFFF_FFFF}
    ensures Deadline(time, timeout) <= time + timeout
  {
  }

  ghost predicate Due(k: Key, time: UInt64) {
    k.timeout <= time
  }

  ghost function DueTimers<T>(pending: map<T, Key>, time: UInt64): set<T> {
    set t | t in pending && Due(pending[t], time)
  }

  /** t is due, and no pending timer comes before it. */
  ghost predicate IsFirst<T>(pending: map<T, Key>, time: UInt64, t: T) {
    t in pending && Due(pending[t], time) && forall u :: u in pending ==> !TimerLess(pending[u], pending[t])
  }

  function Advance(counter: UInt64, steps: nat): UInt64 {
    (counter + steps) % TWO_64
  }

  datatype Queue<T> = Queue(pending: map<T, Key>, counter: UInt64)

  ghost function Rearm<T>(q: Queue<T>, time: UInt64, repeat: UInt64, t: T): Queue<T> {
    Queue(q.pending[t := Key(Deadline(time, repeat), q.counter)], Advance(q.counter, 1))
  }

  /** Firing a timer takes it out of the queue, and puts it back with the next number if it repeats. */
  ghost function Fire<T>(q: Queue<T>, time: UInt64, repeats: map<T, UInt64>, t: T): (r: Queue<T>)
    requires t in repeats
    ensures r.pending.Keys <= q.pending.Keys + {t}
  {
    if repeats[t] == 0 then q.(pending := q.pending - {t})
    else Rearm(q, time, repeats[t], t)
  }

  /** Taking the timer out first makes no difference. */
  lemma RestartIsFire<T>(q: Queue<T>, time: UInt64, repeats: map<T, UInt64>, t: T)
    requires t in repeats
    ensures var out := q.(pending := q.pending - {t});
            Fire(q, time, repeats, t) == if repeats[t] == 0 then out else Rearm(out, time, repeats[t], t)
  {
  }

  /** How many of these timers repeat. */
  ghost function Repeating<T>(fired: seq<T>, repeats: map<T, UInt64>): nat
    requires forall t :: t in fired ==> t in repeats
  {
    if fired == [] then 0
    else Repeating(fired[..|fired| - 1], repeats) + if repeats[fired[|fired| - 1]] == 0 then 0 else 1
  }

  /** The earlier deadline, and among equal ones the smaller number, comes first. */
  ghost predicate NotAfter(a: Key, b: Key) {
    a.timeout < b.timeout || (a.timeout == b.timeout && a.startId <= b.startId)
  }

  /** These timers were due, none is named twice, they come in the order of their keys, and no due one is passed
      over. */
  ghost predicate FiredInOrder<T>(before: map<T, Key>, time: UInt64, fired: seq<T>) {
    && (forall t :: t in fired ==> t in before && Due(before[t], time))
    && (forall i: nat, j: nat :: i < j < |fired| ==>
        fired[i] != fired[j] && NotAfter(before[fired[i]], before[fired[j]]))
    && (forall t, u :: t in fired && u in before && u !in fired ==> NotAfter(before[t], before[u]))
  }

  /** Timers that fired and do not repeat are gone; those that did not fire are as before. */
  ghost predicate FiredAreGone<T>(before: map<T, Key>, after: map<T, Key>, repeats: map<T, UInt64>, fired: seq<T>)
    requires before.Keys <= repeats.Keys
  {
    && after.Keys == (set u | u in before && (u in fired ==> repeats[u] != 0))
    && (forall u :: u in after && u !in fired ==> after[u] == before[u])
  }

  /** Timers that repeat are pending again, numbered in the order in which they fired. */
  ghost predicate Rearmed<T>(after: map<T, Key>, time: UInt64, counter: UInt64, repeats: map<T, UInt64>,
                             fired: seq<T>) {
    forall i: nat :: i < |fired| ==> RearmedAt(after, time, counter, repeats, fired, i)
  }

  ghost predicate RearmedAt<T>(after: map<T, Key>, time: UInt64, counter: UInt64, repeats: map<T, UInt64>,
                               fired: seq<T>, i: nat)
    requires i < |fired|
  {
    var t := fired[i];
    && (forall u :: u in fired ==> u in repeats)
    && (repeats[t] != 0 ==>
          t in after && after[t] == Key(Deadline(time, repeats[t]), Advance(counter, Repeating(fired[..i], repeats))))
  }

  /** What firing these timers in this order means. */
  ghost predicate Ran<T>(before: Queue<T>, after: Queue<T>, time: UInt64, repeats: map<T, UInt64>, fired: seq<T>) {
    && before.pending.Keys <= repeats.Keys
    && FiredInOrder(before.pending, time, fired)
    && FiredAreGone(before.pending, after.pending, repeats, fired)
    && Rearmed(after.pending, time, before.counter, repeats, fired)
    && after.counter == Advance(before.counter, Repeating(fired, repeats))
  }

  /** The guard of termination: at the last instant of the clock a timer that repeats is due again as soon as it
      fired. */
  ghost predicate Settles<T>(pending: map<T, Key>, time: UInt64, repeats: map<T, UInt64>)
    requires pending.Keys <= repeats.Keys
  {
    time == MAX_64 ==> forall u :: u in pending ==> repeats[u] == 0
  }

  lemma TimerLessIsStrictWeak()
    ensures StrictWeakOrder(TimerLess)
  {
  }

  lemma RanNothing<T>(q: Queue<T>, time: UInt64, repeats: map<T, UInt64>)
    requires q.pending.Keys <= repeats.Keys
    ensures Ran(q, q, time, repeats, [])
  {
  }

  /** A timer that fired and is pending again is not due. */
  lemma FiredOnce<T>(before: Queue<T>, q: Queue<T>, time: UInt64, repeats: map<T, UInt64>, fired: seq<T>, t: T)
    requires Ran(before, q, time, repeats, fired) && Settles(before.pending, time, repeats)
    requires t in q.pending && Due(q.pending[t], time)
    ensures t !in fired
  {
    forall i: nat | i < |fired| ensures fired[i] != t {
      assert RearmedAt(q.pending, time, before.counter, repeats, fired, i);
    }
  }

  lemma FiredNext<T>(before: Queue<T>, q: Queue<T>, time: UInt64, repeats: map<T, UInt64>, fired: seq<T>, t: T)
    requires Ran(before, q, time, repeats, fired) && IsFirst(q.pending, time, t) && t !in fired
    ensures FiredInOrder(before.pending, time, fired + [t])
  {
    var all := fired + [t];
    assert t in before.pending && q.pending[t] == before.pending[t];
    forall u | u in before.pending && u !in all ensures NotAfter(before.pending[t], before.pending[u]) {
      assert u in q.pending && q.pending[u] == before.pending[u];
    }
    forall i: nat, j: nat | i < j < |all|
      ensures all[i] != all[j] && NotAfter(before.pending[all[i]], before.pending[all[j]])
    {
      assert all[i] == fired[i] && fired[i] in fired;
    }
  }

  lemma RearmedNext<T>(before: Queue<T>, q: Queue<T>, time: UInt64, repeats: map<T, UInt64>, fired: seq<T>, t: T)
    requires Ran(before, q, time, repeats, fired) && t in q.pending && t !in fired
    ensures Rearmed(Fire(q, time, repeats, t).pending, time, before.counter, repeats, fired + [t])
    ensures Fire(q, time, repeats, t).counter == Advance(before.counter, Repeating(fired + [t], repeats))
  {
    var all := fired + [t];
    assert all[..|fired|] == fired;
    forall i: nat | i < |all|
      ensures RearmedAt(Fire(q, time, repeats, t).pending, time, before.counter, repeats, all, i)
    {
      assert all[..i] == fired[..i];
      if i < |fired| {
        assert RearmedAt(q.pending, time, before.counter, repeats, fired, i);
      }
    }
  }

  /** Firing the first timer extends a run. */
  lemma RanStep<T>(before: Queue<T>, q: Queue<T>, time: UInt64, repeats: map<T, UInt64>, fired: seq<T>, t: T)
    requires Ran(before, q, time, repeats, fired) && Settles(before.pending, time, repeats) &&
             IsFirst(q.pending, time, t)
    ensures Ran(before, Fire(q, time, repeats, t), time, repeats, fired + [t])
  {
    FiredOnce(before, q, time, repeats, fired, t);
    FiredNext(before, q, time, repeats, fired, t);
    RearmedNext(before, q, time, repeats, fired, t);
    hide FiredInOrder, Rearmed;
  }

  /** Once no pending timer is due, exactly the timers that were due have fired. */
  lemma RanToTheEnd<T>(before: Queue<T>, after: Queue<T>, time: UInt64, repeats: map<T, UInt64>, fired: seq<T>)
    requires Ran(before, after, time, repeats, fired) && forall u :: u in after.pending ==> !Due(after.pending[u], time)
    ensures Elements(fired) == DueTimers(before.pending, time)
  {
  }

  lemma {:induction false} FirstExists<T>(pending: map<T, Key>, time: UInt64)
    requires DueTimers(pending, time) != {}
    ensures exists t :: t in pending && IsFirst(pending, time, t)
    decreases |pending|
  {
    var t :| t in DueTimers(pending, time);
    var rest := pending - {t};
    if DueTimers(rest, time) == {} {
      assert forall u :: u in pending && u != t ==> u in rest && u !in DueTimers(rest, time);
      assert IsFirst(pending, time, t);
    } else {
      assert rest.Keys == pending.Keys - {t};
      assert |pending.Keys| == |rest.Keys| + 1;
      FirstExists(rest, time);
      var u :| u in rest && IsFirst(rest, time, u);
      var first := if TimerLess(pending[t], pending[u]) then t else u;
      forall v | v in pending ensures !TimerLess(pending[v], pending[first]) {
        assert v == t || v in rest;
      }
      assert IsFirst(pending, time, first);
    }
  }

  /** Whether firing the first timer again and again can go on for n steps. */
  ghost predicate CanFire<T>(q: Queue<T>, time: UInt64, repeats: map<T, UInt64>, n: nat)
    requires q.pending.Keys <= repeats.Keys
    decreases n
  {
    n == 0 || exists t ::
      t in q.pending && IsFirst(q.pending, time, t) && CanFire(Fire(q, time, repeats, t), time, repeats, n - 1)
  }

  lemma FireShrinksDue<T>(q: Queue<T>, time: UInt64, repeats: map<T, UInt64>, t: T)
    requires q.pending.Keys <= repeats.Keys && Settles(q.pending, time, repeats) && IsFirst(q.pending, time, t)
    ensures |DueTimers(Fire(q, time, repeats, t).pending, time)| == |DueTimers(q.pending, time)| - 1
    ensures Settles(Fire(q, time, repeats, t).pending, time, repeats)
  {
    assert DueTimers(Fire(q, time, repeats, t).pending, time) == DueTimers(q.pending, time) - {t};
  }

  lemma {:induction false} RunIsBounded<T>(q: Queue<T>, time: UInt64, repeats: map<T, UInt64>, n: nat)
    requires q.pending.Keys <= repeats.Keys && Settles(q.pending, time, repeats) && CanFire(q, time, repeats, n)
    ensures n <= |DueTimers(q.pending, time)|
    decreases n
  {
    hide Fire, IsFirst, DueTimers, Settles;
    if n > 0 {
      var t :| t in q.pending && IsFirst(q.pending, time, t) &&
        CanFire(Fire(q, time, repeats, t), time, repeats, n - 1);
      FireShrinksDue(q, time, repeats, t);
      RunIsBounded(Fire(q, time, repeats, t), time, repeats, n - 1);
    }
  }

  lemma UnsettledHasFirst<T>(q: Queue<T>, time: UInt64, repeats: map<T, UInt64>) returns (t: T)
    requires q.pending.Keys <= repeats.Keys && !Settles(q.pending, time, repeats)
    ensures t in q.pending && IsFirst(q.pending, time, t)
  {
    var u :| u in q.pending && repeats[u] != 0;
    assert u in DueTimers(q.pending, time);
    FirstExists(q.pending, time);
    t :| t in q.pending && IsFirst(q.pending, time, t);
  }

  lemma StaysUnsettled<T>(q: Queue<T>, time: UInt64, repeats: map<T, UInt64>, t: T)
    requires q.pending.Keys <= repeats.Keys && !Settles(q.pending, time, repeats) && t in q.pending
    ensures var r := Fire(q, time, repeats, t).pending; r.Keys <= repeats.Keys && !Settles(r, time, repeats)
  {
    var u :| u in q.pending && repeats[u] != 0;
    assert u in Fire(q, time, repeats, t).pending;
  }

  lemma {:induction false} RunIsEndless<T>(q: Queue<T>, time: UInt64, repeats: map<T, UInt64>, n: nat)
    requires q.pending.Keys <= repeats.Keys && !Settles(q.pending, time, repeats)
    ensures CanFire(q, time, repeats, n)
    decreases n
  {
    hide Fire, Settles, IsFirst;
    if n > 0 {
      var t := UnsettledHasFirst(q, time, repeats);
      StaysUnsettled(q, time, repeats, t);
      RunIsEndless(Fire(q, time, repeats, t), time, repeats, n - 1);
    }
  }

  /** Running the due timers goes on for ever exactly when the clock shows its last instant and a pending timer
      repeats. */
  lemma RunEndsExactly<T>(q: Queue<T>, time: UInt64, repeats: map<T, UInt64>)
    requires q.pending.Keys <= repeats.Keys
    ensures (forall n: nat :: CanFire(q, time, repeats, n)) <==>
            time == MAX_64 && exists u :: u in q.pending && repeats[u] != 0
  {
    var n := |DueTimers(q.pending, time)| + 1;
    if Settles(q.pending, time, repeats) {
      assert !CanFire(q, time, repeats, n) by {
        if CanFire(q, time, repeats, n) {
          RunIsBounded(q, time, repeats, n);
        }
      }
    } else {
      forall n: nat ensures CanFire(q, time, repeats, n) {
        RunIsEndless(q, time, repeats, n);
      }
    }
  }

  /** Such an input: at the last instant one repeating timer, whatever its deadline, is due again each time it fires. */
  lemma LastInstantIsEndless<T>(t: T, key: Key, repeat: UInt64, counter: UInt64, n: nat)
    requires repeat != 0
    ensures CanFire(Queue(map[t := key], counter), MAX_64, map[t := repeat], n)
  {
    var q, repeats := Queue(map[t := key], counter), map[t := repeat];
    assert t in q.pending && repeats[t] != 0;
    RunIsEndless(q, MAX_64, repeats, n);
  }
}

/** Timers of an event loop, kept in a binary heap by deadline. */
module Timers {
  import opened MachineWords
  import opened BinaryHeap
  import opened TimerRuns

  const INT_MAX: nat := 0x7FFF_FFFF

  datatype Callback = NoCallback | Callback(id: nat)
  datatype Status = Success | InvalidArgument

  datatype Handle = Handle(callback: Callback, repeat: UInt64, active: bool, closing: bool)

  /** A timer is the object that its heap node is part of. */
  type Timer = HeapNode<Key, Handle>

  class Loop {
    var time: UInt64
    var timerCounter: UInt64
    const heap: Heap<Key, Handle>
    ghost var timers: set<Timer>

    constructor (time: UInt64)
      ensures Valid() && timers == {} && Pending() == map[] && this.time == time && timerCounter == 0
      ensures fresh(heap)
    {
      this.time, timerCounter, timers := time, 0, {};
      heap := new Heap();
    }

    /** A timer is marked active exactly when it is in the heap, and only a timer with a callback, not being closed,
        is. */
    ghost predicate Valid()
      reads this, heap, timers
    {
      && heap.NodeSet() <= timers
      && heap.Valid(TimerLess)
      && (forall t :: t in timers ==> (t.container.active <==> t in heap.NodeSet()))
      && (forall t :: t in heap.NodeSet() ==> t.container.callback.Callback? && !t.container.closing)
    }

    /** The active timers and their keys. */
    ghost function Pending(): map<Timer, Key>
      reads this, timers
    {
      map t | t in timers && t.container.active :: t.key
    }

    ghost function Repeats(): map<Timer, UInt64>
      reads this, timers
    {
      map t | t in timers :: t.container.repeat
    }

    ghost function Schedule(): Queue<Timer>
      reads this, timers
    {
      Queue(Pending(), timerCounter)
    }

    method Init() returns (t: Timer)
      requires Valid()
      modifies this`timers
      ensures Valid() && fresh(t) && timers == old(timers) + {t} && Schedule() == old(Schedule())
      ensures t.container == Handle(NoCallback, 0, false, false)
    {
      t := new HeapNode(Key(0, 0), Handle(NoCallback, 0, false, false));
      timers := timers + {t};
    }

    method Stop(t: Timer)
      requires Valid() && t in timers
      modifies t`container, heap, heap.NodeSet()`left, heap.NodeSet()`right, heap.NodeSet()`parent
      ensures Valid() && Pending() == old(Pending()) - {t} && t.container == old(t.container).(active := false)
    {
      if !t.container.active {
        return;
      }
      hide Heap.Valid, Heap.NodeSet, StrictWeakOrder;
      TimerLessIsStrictWeak();
      heap.Remove(t, TimerLess);
      t.container := t.container.(active := false);
    }

    /** Puts an inactive timer into the heap. */
    method Enqueue(t: Timer, callback: Callback, timeout: UInt64, repeat: UInt64)
      requires Valid() && t in timers && !t.container.active && !t.container.closing && callback.Callback?
      modifies this`timerCounter, t, heap, heap.NodeSet()`left, heap.NodeSet()`right, heap.NodeSet()`parent
      ensures Valid() && t.container == Handle(callback, repeat, true, false)
      ensures Schedule() == Queue(old(Pending())[t := Key(timeout, old(timerCounter))], Advance(old(timerCounter), 1))
    {
      assert t !in heap.nodes;
      hide Heap.Valid, Heap.NodeSet, StrictWeakOrder, Loop.Pending;
      TimerLessIsStrictWeak();
      t.container := t.container.(callback := callback, repeat := repeat);
      t.key := Key(timeout, timerCounter);
      timerCounter := (timerCounter + 1) % TWO_64;
      heap.Insert(t, TimerLess);
      SetContainer(t, t.container.(active := true));
      OneMorePending(t);
    }

    twostate lemma OneMorePending(t: Timer)
      requires timers == old(timers) && t in timers && t.container.active
      requires forall u :: u in timers && u != t ==> u.container == old(u.container) && u.key == old(u.key)
      ensures Pending() == old(Pending())[t := t.key]
    {
    }

    /** The heap does not depend on what the nodes are part of. */
    method SetContainer(t: Timer, container: Handle)
      requires heap.Valid(TimerLess)
      modifies t`container
      ensures heap.Valid(TimerLess) && t.container == container
    {
      ghost var keys := heap.Keys();
      t.container := container;
      assert heap.Keys() == keys;
      forall k: nat | 1 <= k <= |heap.nodes| ensures heap.Linked(k) {
        assert old(heap.Linked(k));
      }
    }

    method Start(t: Timer, callback: Callback, timeout: UInt64, repeat: UInt64) returns (status: Status)
      requires Valid() && t in timers
      modifies this`timerCounter, t, heap, heap.NodeSet()`left, heap.NodeSet()`right, heap.NodeSet()`parent
      ensures Valid()
      ensures status == if old(t.container).closing || callback == NoCallback then InvalidArgument else Success
      ensures status == InvalidArgument ==> Schedule() == old(Schedule()) && t.container == old(t.container)
      ensures status == Success ==>
                && t.container == Handle(callback, repeat, true, false)
                && Pending() == old(Pending())[t := Key(Deadline(time, timeout), old(timerCounter))]
                && timerCounter == Advance(old(timerCounter), 1)
    {
      if t.container.closing || callback == NoCallback {
        return InvalidArgument;
      }
      ghost var key := Key(Deadline(time, timeout), timerCounter);
      assert (Pending() - {t})[t := key] == Pending()[t := key];
      hide Heap.Valid, Heap.NodeSet, Loop.Pending, Loop.Valid;
      if t.container.active {
        Stop(t);
      }
      var clamped := (time + timeout) % TWO_64;
      if clamped < timeout {
        clamped := MAX_64;
      }
      Enqueue(t, callback, clamped, repeat);
      return Success;
    }

    /** Restarts a repeating timer, counting from now. */
    method Again(t: Timer) returns (status: Status)
      requires Valid() && t in timers
      modifies this`timerCounter, t, heap, heap.NodeSet()`left, heap.NodeSet()`right, heap.NodeSet()`parent
      ensures Valid()
      ensures status == if old(t.container).callback == NoCallback then InvalidArgument else Success
      ensures if old(t.container).callback == NoCallback || old(t.container).repeat == 0 || old(t.container).closing
              then Schedule() == old(Schedule()) && t.container == old(t.container)
              else Schedule() == Rearm(old(Schedule()), time, old(t.container).repeat, t)
                   && t.container == old(t.container).(active := true)
    {
      if t.container.callback == NoCallback {
        return InvalidArgument;
      }
      if t.container.repeat != 0 {
        hide Heap.Valid, Heap.NodeSet, Loop.Valid;
        Stop(t);
        var _ := Start(t, t.container.callback, t.container.repeat, t.container.repeat);
      }
      return Success;
    }

    /** A timer being closed is stopped, and cannot be started again. */
    method Close(t: Timer)
      requires Valid() && t in timers
      modifies t`container, heap, heap.NodeSet()`left, heap.NodeSet()`right, heap.NodeSet()`parent
      ensures Valid() && Pending() == old(Pending()) - {t}
      ensures t.container == old(t.container).(active := false, closing := true)
    {
      hide Heap.Valid, Heap.NodeSet;
      Stop(t);
      SetContainer(t, t.container.(closing := true));
    }

    method SetRepeat(t: Timer, repeat: UInt64)
      requires Valid() && t in timers
      modifies t`container
      ensures Valid() && Schedule() == old(Schedule()) && t.container == old(t.container).(repeat := repeat)
    {
      hide Heap.Valid;
      SetContainer(t, t.container.(repeat := repeat));
    }

    lemma FirstIsLeast(t: Timer)
      requires Valid() && t in heap.NodeSet()
      ensures heap.min != null && heap.min in heap.NodeSet() && !TimerLess(t.key, heap.min.key)
    {
      TimerLessIsStrictWeak();
      var i: nat :| i < |heap.nodes| && heap.nodes[i] == t;
      RootIsLeast(TimerLess, heap.Keys(), i + 1);
    }

    /** How long a timer will have to wait: not at all if it is due, and at most what fits an int. */
    static function Wait(key: Key, time: UInt64): nat {
      if key.timeout <= time then 0
      else if key.timeout - time > 0x7FFF_FFFF then 0x7FFF_FFFF
      else key.timeout - time
    }

    /** How long the loop may block: for ever without timers, else until the first one is due. */
    method NextTimeout() returns (wait: int)
      requires Valid()
      ensures wait == -1 <==> Pending() == map[]
      ensures forall t :: t in Pending() ==> wait <= Wait(Pending()[t], time)
      ensures wait != -1 ==> exists t :: t in Pending() && wait == Wait(Pending()[t], time)
    {
      if heap.min == null {
        return -1;
      }
      FirstIsLeast(heap.min);
      forall t | t in heap.NodeSet() ensures !TimerLess(t.key, heap.min.key) {
        FirstIsLeast(t);
      }
      assert heap.min in Pending();
      if heap.min.key.timeout <= time {
        return 0;
      }
      var diff := heap.min.key.timeout - time;
      if diff > INT_MAX {
        diff := INT_MAX;
      }
      return diff;
    }

    lemma FirstIsFirst(t: Timer)
      requires Valid() && t == heap.min
      ensures t in Pending() && Pending()[t] == t.key && t in timers && t in heap.NodeSet()
      ensures if Due(t.key, time) then IsFirst(Pending(), time, t)
              else forall u :: u in Pending() ==> !Due(Pending()[u], time)
    {
      forall u | u in heap.NodeSet() ensures !TimerLess(u.key, t.key) {
        FirstIsLeast(u);
      }
      FirstIsLeast(heap.nodes[0]);
    }

    /** Takes the first timer out, puts it back if it repeats, and calls its callback. */
    method RunFirst(t: Timer)
      requires Valid() && t in Pending()
      modifies this`timerCounter, t, heap, heap.NodeSet()`left, heap.NodeSet()`right, heap.NodeSet()`parent
      ensures Valid() && Schedule() == Fire(old(Schedule()), time, old(Repeats()), t) && Repeats() == old(Repeats())
      ensures t.container.callback == old(t.container).callback && heap.NodeSet() <= old(heap.NodeSet())
    {
      assert t.container.callback.Callback? && !t.container.closing;
      RestartIsFire(Schedule(), time, Repeats(), t);
      hide Heap.Valid, Heap.NodeSet, Loop.Valid, Fire, Rearm, Loop.Pending;
      Stop(t);
      assert t.container == old(t.container).(active := false);
      var _ := Again(t);
      assert forall u :: u in timers && u != t ==> u.container == old(u.container);
    }

    /** Runs the due timers; `fired` are those whose callbacks were called, in this order. The callbacks are taken to
        leave the timers alone. */
    method RunTimers() returns (fired: seq<Timer>)
      requires Valid() && Settles(Pending(), time, Repeats())
      modifies this`timerCounter, heap, heap.NodeSet()
      ensures Valid() && Ran(old(Schedule()), Schedule(), time, old(Repeats()), fired)
      ensures Elements(fired) == DueTimers(old(Pending()), time)
      ensures forall t :: t in Pending() ==> Pending()[t].timeout > time
    {
      hide Heap.Valid, Fire, Ran, IsFirst, Settles, Loop.Valid;
      ghost var before, repeats := Schedule(), Repeats();
      fired := [];
      RanNothing(before, time, repeats);
      while true
        invariant Valid() && Repeats() == repeats && heap.NodeSet() <= old(heap.NodeSet())
        invariant Ran(before, Schedule(), time, repeats, fired) && Settles(Pending(), time, repeats)
        decreases |DueTimers(Pending(), time)|
      {
        if heap.min == null {
          EmptyHeap();
          break;
        }
        var t: Timer := heap.min;
        FirstIsFirst(t);
        if t.key.timeout > time {
          break;
        }
        RanStep(before, Schedule(), time, repeats, fired, t);
        FireShrinksDue(Schedule(), time, repeats, t);
        RunFirst(t);
        fired := fired + [t];
      }
      RanToTheEnd(before, Schedule(), time, repeats, fired);
    }

    lemma EmptyHeap()
      requires Valid() && heap.min == null
      ensures Pending() == map[]
    {
    }
  }
}

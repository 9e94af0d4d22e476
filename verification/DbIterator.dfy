/** The user-level iterator: it moves an iterator over internal entries back and forth so that a client
    sees one pair per user key, as of one snapshot. */
module DbIterator {
  import opened FixedWidth
  import opened Options
  import opened InternalKeys
  import opened SnapshotView

  /** An iterator over the internal entries: valid while it stands on one of them. */
  class InternalIterator {
    const cmp: Comparator
    const entries: seq<Entry>
    var pos: nat

    constructor (cmp: Comparator, entries: seq<Entry>)
      ensures this.cmp == cmp && this.entries == entries && !Valid()
    {
      this.cmp, this.entries, this.pos := cmp, entries, |entries|;
    }

    predicate Valid()
      reads this
    {
      pos < |entries|
    }

    method SeekToFirst()
      modifies this
      ensures pos == 0
    {
      pos := 0;
    }

    method SeekToLast()
      modifies this
      ensures pos == if entries == [] then 0 else |entries| - 1
    {
      pos := if entries == [] then 0 else |entries| - 1;
    }

    method Next()
      requires Valid()
      modifies this
      ensures pos == old(pos) + 1
    {
      pos := pos + 1;
    }

    method Prev()
      requires Valid()
      modifies this
      ensures if old(pos) == 0 then !Valid() && pos == |entries| else pos == old(pos) - 1
    {
      pos := if pos == 0 then |entries| else pos - 1;
    }

    /** To the first entry that is not before the internal key target. */
    method Seek(target: seq<Byte>)
      requires |target| >= 8 && forall i :: 0 <= i < |entries| ==> |entries[i].key| >= 8
      modifies this
      ensures pos <= |entries|
      ensures forall i :: 0 <= i < pos ==> CompareInternal(cmp, entries[i].key, target) < 0
      ensures pos < |entries| ==> CompareInternal(cmp, entries[pos].key, target) >= 0
    {
      pos := 0;
      while pos < |entries| && CompareInternal(cmp, entries[pos].key, target) < 0
        invariant pos <= |entries|
        invariant forall i :: 0 <= i < pos ==> CompareInternal(cmp, entries[i].key, target) < 0
      {
        pos := pos + 1;
      }
    }
  }

  datatype Direction = Forward | Reverse

  class DBIter {
    const iter: InternalIterator
    const userComparator: Comparator
    const sequence: nat
    var corruption: bool
    var savedKey: seq<Byte>    // the current key when going in reverse, and scratch space otherwise
    var savedValue: seq<Byte>  // the current value when going in reverse
    var direction: Direction
    var valid: bool

    ghost const source: Snapshot  // the entries as this iterator takes them
    ghost var current: nat        // the entry that yields the current pair, while valid

    constructor (cmp: Comparator, iter: InternalIterator, sequence: nat)
      requires IsComparator(cmp) && Sorted(cmp, iter.entries) && sequence <= MAX_SEQUENCE
      requires iter.cmp == cmp && iter.pos <= |iter.entries|
      ensures Inv() && Cursor() == Nowhere && !corruption
      ensures this.iter == iter && source == Read(cmp, iter.entries, sequence)
    {
      this.iter, this.userComparator, this.sequence := iter, cmp, sequence;
      corruption, savedKey, savedValue, direction, valid := false, [], [], Forward, false;
      source := Read(cmp, iter.entries, sequence);
    }

    /** What the fields that never change satisfy. */
    ghost predicate Setup() {
      && source.WellFormed() && source.cmp == userComparator == iter.cmp
      && Reads(source.rows, iter.entries, sequence)
      && sequence <= MAX_SEQUENCE
    }

    /** What holds throughout, also in the middle of a move. */
    ghost predicate Base()
      reads this, iter
    {
      && Setup()
      && iter.pos <= |iter.entries| == |source.rows|
      && (corruption ==> exists i: nat :: i < |source.rows| && source.rows[i].corrupt)
    }

    ghost predicate Inv()
      reads this, iter
    {
      && Base()
      && (valid ==> current < |source.rows| && source.Live(current))
      && (valid && direction.Forward? ==> iter.pos == current)
      && (valid && direction.Reverse? ==> ReverseAt())
    }

    /** The reverse invariant: the current pair is saved, and the internal iterator stands on the closest
        visible entry before it, which belongs to a smaller user key, or is exhausted when there is none. */
    ghost predicate ReverseAt()
      requires Base() && current < |source.rows|
      reads this, iter
    {
      && savedKey == source.rows[current].userKey
      && savedValue == source.rows[current].value
      && (iter.Valid() ==>
            && iter.pos < current
            && source.rows[iter.pos].visible
            && userComparator(source.rows[iter.pos].userKey, savedKey) < 0)
      && InvisibleBetween(source, iter.pos, current)
    }

    /** What the client sees: the index in the snapshot's view. */
    ghost function Cursor(): Cursor
      requires Inv()
      reads this, iter
    {
      if valid then At(source.Rank(current)) else Nowhere
    }

    function Key(): (k: seq<Byte>)
      requires Inv() && valid
      reads this, iter
      ensures Cursor().index < |source.View()| && k == source.View()[Cursor().index].0
    {
      source.LiveAtRank(current);
      if direction.Forward? then InnerUserKey() else savedKey
    }

    function Value(): (v: seq<Byte>)
      requires Inv() && valid
      reads this, iter
      ensures Cursor().index < |source.View()| && v == source.View()[Cursor().index].1
    {
      source.LiveAtRank(current);
      if direction.Forward? then InnerValue() else savedValue
    }

    function InnerUserKey(): (k: Key)
      requires Base() && iter.Valid()
      reads this, iter
      ensures k == source.rows[iter.pos].userKey
    {
      assert Position(iter.pos);
      ExtractUserKey(iter.entries[iter.pos].key)
    }

    function InnerValue(): (v: seq<Byte>)
      requires Base() && iter.Valid()
      reads this, iter
      ensures v == source.rows[iter.pos].value
    {
      assert Position(iter.pos);
      iter.entries[iter.pos].value
    }

    method ParseKey() returns (ikey: Option<ParsedInternalKey>)
      requires Base() && iter.Valid()
      modifies this`corruption
      ensures Base()
      ensures corruption == (old(corruption) || source.rows[iter.pos].corrupt)
      ensures ikey.None? == source.rows[iter.pos].corrupt
      ensures (ikey.Some? && ikey.value.sequence <= sequence) == source.rows[iter.pos].visible
      ensures ikey.Some? ==>
                && ikey.value.userKey == source.rows[iter.pos].userKey
                && ikey.value.valueType <= TYPE_VALUE
                && (ikey.value.valueType == TYPE_DELETION) == source.rows[iter.pos].deletion
    {
      assert Position(iter.pos);
      ikey := ParseInternalKey(iter.entries[iter.pos].key);
      if ikey.None? {
        corruption := true;
      }
    }

    method Next()
      requires Inv() && valid
      modifies this, iter
      ensures Inv()
      ensures Cursor() == After(source.View(), old(Cursor()).index)
    {
      hide Reads, Snapshot.WellFormed, Snapshot.Rank, Snapshot.View, Scanning;
      if direction.Reverse? {
        direction := Forward;
        if !iter.Valid() {
          iter.SeekToFirst();
        } else {
          iter.Next();
        }
      } else {
        savedKey := InnerUserKey();
      }
      source.LiveAtRank(current);
      // Turning around always finds an entry, so the early exit for an exhausted inner iterator is never taken.
      assert iter.Valid();
      ScanBegins(source, current + 1, iter.pos);
      FindNextUserEntry(true, current + 1);
    }

    /** Scans forward to the first live entry at or after `from`. When skipping, savedKey is the user key of
        the entry just before `from`, and the entries up to there are invisible. */
    method FindNextUserEntry(skip: bool, ghost from: nat)
      requires Base() && iter.Valid() && direction.Forward?
      requires Scanning(source, from, iter.pos, skip, if skip then from - 1 else 0, savedKey)
      modifies this, iter
      ensures Inv()
      ensures Cursor() == CursorFrom(source.View(), source.Rank(from))
    {
      hide Scanning, Reads, Snapshot.WellFormed, Snapshot.Live, Snapshot.Rank, Snapshot.View;
      var skipping := skip;
      ghost var hider := if skip then from - 1 else 0;
      while iter.Valid()
        invariant Base() && direction.Forward?
        invariant Scanning(source, from, iter.pos, skipping, hider, savedKey)
        decreases |iter.entries| - iter.pos
      {
        ghost var p := iter.pos;
        var ikey := ParseKey();
        if ikey.Some? && ikey.value.sequence <= sequence {
          if ikey.value.valueType == TYPE_DELETION {
            ScanDeletion(source, from, p, skipping, hider, savedKey);
            savedKey := ikey.value.userKey;
            skipping, hider := true, p;
          } else if skipping && userComparator(ikey.value.userKey, savedKey) <= 0 {
            ScanHidden(source, from, p, skipping, hider, savedKey);
          } else {
            ScanStops(source, from, p, skipping, hider, savedKey);
            valid, current := true, p;
            savedKey := [];
            return;
          }
        } else {
          ScanInvisible(source, from, p, skipping, hider, savedKey);
        }
        iter.Next();
      }
      ScanEnds(source, from, skipping, hider, savedKey);
      savedKey := [];
      valid := false;
    }

    method Prev()
      requires Inv() && valid
      modifies this, iter
      ensures Inv()
      ensures Cursor() == Before(old(Cursor()).index)
    {
      hide Reads, Snapshot.WellFormed, Snapshot.Rank, Snapshot.View;
      if direction.Forward? {
        savedKey := InnerUserKey();
        iter.Prev();
        while iter.Valid() && userComparator(InnerUserKey(), savedKey) >= 0
          invariant Base() && (iter.Valid() ==> iter.pos < current) && InvisibleBetween(source, iter.pos, current)
          invariant valid && direction.Forward? && current == old(current) && savedKey == source.rows[current].userKey
          decreases if iter.Valid() then iter.pos + 1 else 0
        {
          SameKeyBeforeLive(source, iter.pos, current);
          iter.Prev();
        }
        if !iter.Valid() {
          NoneBefore(source, current);
          valid := false;
          savedKey := [];
          savedValue := [];
          return;
        }
        direction := Reverse;
      }
      if iter.Valid() {
        source.RankSkips(iter.pos + 1, current);
      } else {
        NoneBefore(source, current);
      }
      FindPrevUserEntry();
    }

    /** Scans backward from the inner position to the nearest live entry at or before it, and past all the
        visible entries of that user key. */
    method FindPrevUserEntry()
      requires Base() && direction.Reverse?
      modifies this, iter
      ensures Inv()
      ensures Cursor() == if old(iter.Valid()) then Before(source.Rank(old(iter.pos) + 1)) else Nowhere
    {
      hide ScanningBack, Reads, Snapshot.WellFormed, Snapshot.Live, Snapshot.Rank, Snapshot.View;
      ghost var end := if iter.Valid() then iter.pos + 1 else 0;
      ghost var m: nat := 0;
      var valueType := TYPE_DELETION;
      ScanBackBegins(source, iter.pos);
      while iter.Valid()
        invariant Base() && direction.Reverse?
        invariant ScanningBack(source, end, iter.pos, valueType != TYPE_DELETION, m)
        invariant valueType != TYPE_DELETION ==>
                    m < |source.rows| && savedKey == source.rows[m].userKey && savedValue == source.rows[m].value
        decreases if iter.Valid() then iter.pos + 1 else 0
      {
        ghost var p := iter.pos;
        var ikey := ParseKey();
        if ikey.Some? && ikey.value.sequence <= sequence {
          if valueType != TYPE_DELETION && userComparator(ikey.value.userKey, savedKey) < 0 {
            break;
          }
          ScanBackVisible(source, end, p, valueType != TYPE_DELETION, m);
          valueType := ikey.value.valueType;
          if valueType == TYPE_DELETION {
            savedKey := [];
            savedValue := [];
          } else {
            savedKey := InnerUserKey();
            savedValue := InnerValue();
            m := p;
          }
        } else {
          ScanBackInvisible(source, end, p, valueType != TYPE_DELETION, m);
        }
        iter.Prev();
      }
      if valueType == TYPE_DELETION {
        ScanBackEnds(source, end, iter.pos, m);
        valid := false;
        savedKey := [];
        savedValue := [];
        direction := Forward;
      } else {
        ScanBackStops(source, end, iter.pos, m);
        current := m;
        valid := true;
      }
    }

    method SeekToFirst()
      requires Inv()
      modifies this, iter
      ensures Inv()
      ensures Cursor() == First(source.View())
    {
      direction := Forward;
      savedValue := [];
      iter.SeekToFirst();
      if iter.Valid() {
        FindNextUserEntry(false, 0);
      } else {
        valid := false;
      }
    }

    method SeekToLast()
      requires Inv()
      modifies this, iter
      ensures Inv()
      ensures Cursor() == Last(source.View())
    {
      direction := Reverse;
      savedValue := [];
      iter.SeekToLast();
      FindPrevUserEntry();
    }

    method Seek(target: Key)
      requires Inv()
      modifies this, iter
      ensures Inv()
      ensures IsLowerBound(userComparator, source.View(), target, Cursor())
    {
      direction := Forward;
      savedValue := [];
      savedKey := SeekKey(target, sequence);
      forall i: nat | i < |iter.entries| ensures |iter.entries[i].key| >= 8 {
        assert Position(i);
      }
      iter.Seek(savedKey);
      SeekSplits(source, iter.entries, sequence, target, iter.pos);
      source.LowerBound(target, iter.pos);
      ScanBeginsAtTarget(source, target, iter.pos);
      if iter.Valid() {
        FindNextUserEntry(false, iter.pos);
      } else {
        valid := false;
      }
    }
  }

  /** How far a forward scan for the first live row at or after `from` has come when it stands at pos. While it
      skips, everything it has passed is at or below the user key `skip` of the visible row `hider`. */
  ghost predicate Scanning(s: Snapshot, from: nat, pos: nat, skipping: bool, hider: int, skip: Key) {
    && pos <= |s.rows| && from <= |s.rows|
    && (forall i: nat :: from <= i < pos ==> !s.Live(i))
    && (if skipping then
          && 0 <= hider < |s.rows| && s.rows[hider].visible && skip == s.rows[hider].userKey
          && (pos <= hider || pos < from ==> hider == from - 1)
          && (forall i: nat :: pos <= i < hider ==> !s.rows[i].visible)
          && (forall i: nat :: i < pos && s.rows[i].visible ==> s.cmp(s.rows[i].userKey, skip) <= 0)
        else
          && from <= pos
          && forall i: nat, j: nat :: i < pos <= j < |s.rows| && s.rows[i].visible ==>
               s.cmp(s.rows[i].userKey, s.rows[j].userKey) < 0)
  }

  lemma ScanInvisible(s: Snapshot, from: nat, pos: nat, skipping: bool, hider: int, skip: Key)
    requires s.WellFormed() && pos < |s.rows| && Scanning(s, from, pos, skipping, hider, skip) && !s.rows[pos].visible
    ensures Scanning(s, from, pos + 1, skipping, hider, skip)
  {
  }

  lemma ScanDeletion(s: Snapshot, from: nat, pos: nat, skipping: bool, hider: int, skip: Key)
    requires s.WellFormed() && pos < |s.rows| && Scanning(s, from, pos, skipping, hider, skip)
    requires s.rows[pos].visible && s.rows[pos].deletion
    ensures Scanning(s, from, pos + 1, true, pos, s.rows[pos].userKey)
  {
    forall i: nat | i < pos + 1 && s.rows[i].visible ensures s.cmp(s.rows[i].userKey, s.rows[pos].userKey) <= 0 {
      s.InternalOrder(i, pos);
    }
  }

  lemma ScanHidden(s: Snapshot, from: nat, pos: nat, skipping: bool, hider: int, skip: Key)
    requires s.WellFormed() && pos < |s.rows| && Scanning(s, from, pos, skipping, hider, skip)
    requires s.rows[pos].visible && skipping && s.cmp(s.rows[pos].userKey, skip) <= 0
    ensures Scanning(s, from, pos + 1, skipping, hider, skip)
  {
    if hider < pos {
      s.InternalOrder(hider, pos);
    }
  }

  lemma ScanStops(s: Snapshot, from: nat, pos: nat, skipping: bool, hider: int, skip: Key)
    requires s.WellFormed() && pos < |s.rows| && Scanning(s, from, pos, skipping, hider, skip)
    requires s.rows[pos].visible && !s.rows[pos].deletion
    requires skipping ==> s.cmp(s.rows[pos].userKey, skip) > 0
    ensures from <= pos && s.Live(pos)
    ensures s.Rank(from) == s.Rank(pos) < |s.View()|
  {
    if skipping {
      s.InternalOrder(hider, hider);
      forall i: nat | i < pos && s.rows[i].visible ensures s.cmp(s.rows[i].userKey, s.rows[pos].userKey) < 0 {
        Transitive(s.cmp, s.rows[i].userKey, skip, s.rows[pos].userKey);
      }
    }
    s.RankSkips(from, pos);
    s.LiveAtRank(pos);
  }

  lemma ScanEnds(s: Snapshot, from: nat, skipping: bool, hider: int, skip: Key)
    requires s.WellFormed() && Scanning(s, from, |s.rows|, skipping, hider, skip)
    ensures s.Rank(from) == |s.View()|
  {
    s.RankSkips(from, |s.rows|);
  }

  lemma ScanBegins(s: Snapshot, from: nat, pos: nat)
    requires s.WellFormed() && pos < from <= |s.rows| && s.rows[from - 1].visible
    requires forall i: nat :: pos <= i < from - 1 ==> !s.rows[i].visible
    ensures Scanning(s, from, pos, true, from - 1, s.rows[from - 1].userKey)
  {
    forall i: nat | i < pos && s.rows[i].visible ensures s.cmp(s.rows[i].userKey, s.rows[from - 1].userKey) <= 0 {
      s.InternalOrder(i, from - 1);
    }
  }

  lemma ScanBeginsAtTarget(s: Snapshot, target: Key, pos: nat)
    requires s.WellFormed() && pos <= |s.rows|
    requires forall i: nat :: i < pos && s.rows[i].visible ==> s.cmp(s.rows[i].userKey, target) < 0
    requires forall i: nat :: pos <= i < |s.rows| ==> s.cmp(s.rows[i].userKey, target) >= 0
    ensures Scanning(s, pos, pos, false, 0, [])
  {
    forall i: nat, j: nat | i < pos <= j < |s.rows| && s.rows[i].visible
      ensures s.cmp(s.rows[i].userKey, s.rows[j].userKey) < 0
    {
      Transitive(s.cmp, s.rows[i].userKey, target, s.rows[j].userKey);
    }
  }

  /** No row strictly between pos and m is visible; a pos past the end stands for the place before the first row. */
  ghost predicate InvisibleBetween(s: Snapshot, pos: nat, m: nat) {
    forall i: nat :: i < m && i < |s.rows| && (pos < |s.rows| ==> pos < i) ==> !s.rows[i].visible
  }

  lemma NoneBefore(s: Snapshot, m: nat)
    requires m < |s.rows| && InvisibleBetween(s, |s.rows|, m)
    ensures s.Rank(m) == 0
  {
    s.RankSkips(0, m);
  }

  lemma SameKeyBeforeLive(s: Snapshot, pos: nat, m: nat)
    requires s.WellFormed() && pos < m < |s.rows| && s.Live(m) && InvisibleBetween(s, pos, m)
    requires s.cmp(s.rows[pos].userKey, s.rows[m].userKey) >= 0
    ensures InvisibleBetween(s, StepBack(s, pos), m)
  {
    assert !s.rows[pos].visible;
  }

  /** How far a backward scan that began before `end` has come when it stands at pos (past the end once
      exhausted): it holds the value of row m, or nothing that could still be live. */
  ghost predicate ScanningBack(s: Snapshot, end: nat, pos: nat, holding: bool, m: nat) {
    && pos <= |s.rows| && end <= |s.rows| && (pos < |s.rows| ==> pos < end)
    && (if holding then
          && m < end && s.rows[m].visible && !s.rows[m].deletion
          && (pos < |s.rows| ==> pos < m)
          && (forall i: nat :: m < i < end ==> !s.Live(i))
          && InvisibleBetween(s, pos, m)
        else
          forall i: nat :: i < end && (pos < |s.rows| ==> pos < i) ==> !s.Live(i))
  }

  /** One step back, with the place before the first row represented by the length. */
  ghost function StepBack(s: Snapshot, pos: nat): nat {
    if pos == 0 then |s.rows| else pos - 1
  }

  lemma ScanBackBegins(s: Snapshot, pos: nat)
    requires pos <= |s.rows|
    ensures ScanningBack(s, if pos < |s.rows| then pos + 1 else 0, pos, false, 0)
  {
  }

  lemma ScanBackInvisible(s: Snapshot, end: nat, pos: nat, holding: bool, m: nat)
    requires pos < |s.rows| && ScanningBack(s, end, pos, holding, m) && !s.rows[pos].visible
    ensures ScanningBack(s, end, StepBack(s, pos), holding, m)
  {
  }

  lemma ScanBackVisible(s: Snapshot, end: nat, pos: nat, holding: bool, m: nat)
    requires s.WellFormed() && pos < |s.rows| && ScanningBack(s, end, pos, holding, m) && s.rows[pos].visible
    requires holding ==> s.cmp(s.rows[pos].userKey, s.rows[m].userKey) >= 0
    ensures ScanningBack(s, end, StepBack(s, pos), !s.rows[pos].deletion, pos)
    ensures s.rows[pos].deletion ==> ScanningBack(s, end, StepBack(s, pos), false, m)
  {
    if holding {
      assert !s.Live(m);
    }
  }

  lemma ScanBackEnds(s: Snapshot, end: nat, pos: nat, m: nat)
    requires ScanningBack(s, end, pos, false, m) && pos >= |s.rows|
    ensures s.Rank(end) == 0
  {
    s.RankSkips(0, end);
  }

  lemma ScanBackStops(s: Snapshot, end: nat, pos: nat, m: nat)
    requires s.WellFormed() && ScanningBack(s, end, pos, true, m)
    requires pos < |s.rows| ==> s.rows[pos].visible && s.cmp(s.rows[pos].userKey, s.rows[m].userKey) < 0
    ensures s.Live(m) && s.Rank(end) == s.Rank(m) + 1
    ensures m < end && (pos < |s.rows| ==> pos < m) && InvisibleBetween(s, pos, m)
  {
    forall i: nat | i < m && s.rows[i].visible ensures s.cmp(s.rows[i].userKey, s.rows[m].userKey) < 0 {
      s.InternalOrder(i, pos);
      Transitive(s.cmp, s.rows[i].userKey, s.rows[pos].userKey, s.rows[m].userKey);
    }
    s.LiveAtRank(m);
    s.RankSkips(m + 1, end);
  }
}

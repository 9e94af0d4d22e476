/** What a reader at a snapshot should see: the sorted list of (user key, value) pairs whose newest entry
    no newer than the snapshot is a value. */
module SnapshotView {
  import opened FixedWidth
  import opened InternalKeys

  datatype Entry = Entry(key: seq<Byte>, value: seq<Byte>)

  /** An entry as a reader at some sequence number takes it. A corrupt entry is never visible. */
  datatype Row = Row(userKey: Key, tag: nat, value: seq<Byte>, corrupt: bool, visible: bool, deletion: bool)

  function RowOf(e: Entry, sequence: nat): Row
    requires |e.key| >= 8
  {
    var parsed := ParseInternalKey(e.key);
    Row(ExtractUserKey(e.key), Tag(e.key), e.value, parsed.None?,
        parsed.Some? && parsed.value.sequence <= sequence,
        parsed.Some? && parsed.value.valueType == TYPE_DELETION)
  }

  type View = seq<(Key, seq<Byte>)>

  /** The internal entries, in internal order, as a reader at one sequence number finds them. */
  datatype Snapshot = Snapshot(cmp: Comparator, rows: seq<Row>) {

    ghost predicate WellFormed() {
      && IsComparator(cmp)
      && forall i: nat, j: nat {:trigger Pair(i, j)} :: Pair(i, j) && i < j < |rows| ==>
           && cmp(rows[i].userKey, rows[j].userKey) <= 0
           && (cmp(rows[i].userKey, rows[j].userKey) == 0 ==> rows[i].tag > rows[j].tag)
    }

    /** Row i is the first visible one of its user key, and a value. */
    ghost predicate Live(i: nat)
      requires i < |rows|
    {
      && rows[i].visible
      && !rows[i].deletion
      && forall j: nat :: j < i && rows[j].visible ==> cmp(rows[j].userKey, rows[i].userKey) < 0
    }

    /** The positions of the live rows among the first n. */
    ghost function LiveBefore(n: nat): seq<nat>
      requires n <= |rows|
    {
      if n == 0 then [] else LiveBefore(n - 1) + if Live(n - 1) then [n - 1] else []
    }

    /** How many pairs of the view come from the first n rows. */
    ghost function Rank(n: nat): nat
      requires n <= |rows|
    {
      |LiveBefore(n)|
    }

    /** The pairs a reader sees, in order. */
    ghost function View(): (view: View)
      ensures |view| == Rank(|rows|)
    {
      var live := LiveBefore(|rows|);
      seq(|live|, c requires 0 <= c < |live| =>
        LiveBeforeIsLive(|rows|, c); (rows[live[c]].userKey, rows[live[c]].value))
    }

    lemma {:induction false} LiveBeforeIsLive(n: nat, c: nat)
      requires n <= |rows| && c < Rank(n)
      ensures LiveBefore(n)[c] < n && Live(LiveBefore(n)[c])
      decreases n
    {
      if c < Rank(n - 1) {
        LiveBeforeIsLive(n - 1, c);
      }
    }

    lemma {:induction false} LiveBeforeAscends(n: nat, c: nat, d: nat)
      requires n <= |rows| && c < d < Rank(n)
      ensures LiveBefore(n)[c] < LiveBefore(n)[d]
      decreases n
    {
      if d < Rank(n - 1) {
        LiveBeforeAscends(n - 1, c, d);
      } else {
        LiveBeforeIsLive(n - 1, c);
      }
    }

    lemma {:induction false} LiveBeforePrefix(m: nat, n: nat)
      requires m <= n <= |rows|
      ensures LiveBefore(m) <= LiveBefore(n)
      decreases n
    {
      if m < n {
        LiveBeforePrefix(m, n - 1);
      }
    }

    /** A live row is the pair of the view at its rank. */
    lemma LiveAtRank(i: nat)
      requires i < |rows| && Live(i)
      ensures Rank(i) < |View()| && LiveBefore(|rows|)[Rank(i)] == i && Rank(i + 1) == Rank(i) + 1
      ensures View()[Rank(i)] == (rows[i].userKey, rows[i].value)
    {
      LiveBeforePrefix(i + 1, |rows|);
    }

    /** Stretches without live rows do not change the rank. */
    lemma {:induction false} RankSkips(m: nat, n: nat)
      requires m <= n <= |rows|
      requires forall i: nat :: m <= i < n ==> !Live(i)
      ensures Rank(m) == Rank(n)
      decreases n
    {
      if m < n {
        RankSkips(m, n - 1);
      }
    }

    lemma InternalOrder(i: nat, j: nat)
      requires WellFormed() && i <= j < |rows|
      ensures cmp(rows[i].userKey, rows[j].userKey) <= 0
      ensures i < j && cmp(rows[i].userKey, rows[j].userKey) == 0 ==> rows[i].tag > rows[j].tag
    {
      if i < j {
        assert Pair(i, j);
      } else {
        var k := rows[i].userKey;
        assert cmp(k, k) < 0 <==> cmp(k, k) > 0;
      }
    }

    /** The view is sorted: strictly ascending user keys, so every user key occurs at most once. */
    lemma ViewIsSorted(c: nat, d: nat)
      requires WellFormed() && c < d < |View()|
      ensures cmp(View()[c].0, View()[d].0) < 0
    {
      LiveBeforeAscends(|rows|, c, d);
      LiveBeforeIsLive(|rows|, c);
      LiveBeforeIsLive(|rows|, d);
    }

    /** Whatever the order of the rows: i holds the newest write to key that the snapshot sees. */
    ghost predicate NewestWrite(key: Key, i: nat) {
      && i < |rows|
      && rows[i].visible && cmp(rows[i].userKey, key) == 0
      && forall j: nat :: j < |rows| && rows[j].visible && cmp(rows[j].userKey, key) == 0 ==> rows[j].tag <= rows[i].tag
    }

    lemma NewestWriteIsFirst(key: Key, i: nat)
      requires WellFormed() && i < |rows| && cmp(rows[i].userKey, key) == 0
      ensures Live(i) <==> NewestWrite(key, i) && !rows[i].deletion
    {
      if NewestWrite(key, i) {
        forall j: nat | j < i && rows[j].visible ensures cmp(rows[j].userKey, rows[i].userKey) < 0 {
          InternalOrder(j, i);
          if cmp(rows[j].userKey, rows[i].userKey) == 0 {
            Transitive(cmp, rows[j].userKey, rows[i].userKey, key);
            Transitive(cmp, key, rows[i].userKey, rows[j].userKey);
          }
        }
      }
      if Live(i) {
        forall j: nat | j < |rows| && rows[j].visible && cmp(rows[j].userKey, key) == 0
          ensures rows[j].tag <= rows[i].tag
        {
          Transitive(cmp, rows[j].userKey, key, rows[i].userKey);
          Transitive(cmp, rows[i].userKey, key, rows[j].userKey);
          if i <= j {
            InternalOrder(i, j);
          }
        }
      }
    }

    /** Looking a key up in the view answers with the newest write the snapshot sees, or with nothing
        when that write is a deletion or there is none. */
    lemma ViewIsSnapshotMap(key: Key, value: seq<Byte>)
      requires WellFormed()
      ensures (exists c: nat :: c < |View()| && cmp(View()[c].0, key) == 0 && View()[c].1 == value)
              <==>
              (exists i: nat :: NewestWrite(key, i) && !rows[i].deletion && rows[i].value == value)
    {
      if c: nat :| c < |View()| && cmp(View()[c].0, key) == 0 && View()[c].1 == value {
        LiveBeforeIsLive(|rows|, c);
        var i := LiveBefore(|rows|)[c];
        NewestWriteIsFirst(key, i);
        assert NewestWrite(key, i);
      }
      if i: nat :| NewestWrite(key, i) && !rows[i].deletion && rows[i].value == value {
        NewestWriteIsFirst(key, i);
        LiveAtRank(i);
        assert View()[Rank(i)].1 == value;
      }
    }

    /** When the rows before pos that the snapshot sees are those below target, the next live row is the answer to a
        seek. */
    lemma LowerBound(target: Key, pos: nat)
      requires WellFormed() && pos <= |rows|
      requires forall i: nat :: i < pos && rows[i].visible ==> cmp(rows[i].userKey, target) < 0
      requires forall i: nat :: pos <= i < |rows| ==> cmp(rows[i].userKey, target) >= 0
      ensures IsLowerBound(cmp, View(), target, CursorFrom(View(), Rank(pos)))
    {
      LiveBeforePrefix(pos, |rows|);
      forall c: nat | c < |View()| ensures cmp(View()[c].0, target) < 0 <==> c < Rank(pos) {
        LiveBeforeIsLive(|rows|, c);
        var i := LiveBefore(|rows|)[c];
        if c < Rank(pos) {
          LiveBeforeIsLive(pos, c);
        } else if i < pos {
          LiveAtRank(i);
          LiveBeforePrefix(i + 1, pos);
          if Rank(i) < c { LiveBeforeAscends(|rows|, Rank(i), c); }
        }
      }
    }
  }

  /** Always true: the order of two rows is used where a proof names the pair. */
  predicate Pair(i: nat, j: nat) {
    true
  }

  /** Always true: an entry is parsed where a proof names its position. */
  predicate Position(i: nat) {
    true
  }

  /** The rows are those of the entries. */
  ghost predicate Reads(rows: seq<Row>, entries: seq<Entry>, sequence: nat) {
    && |rows| == |entries|
    && (forall i: nat {:trigger Position(i)} :: Position(i) && i < |entries| ==>
          |entries[i].key| >= 8 && rows[i] == RowOf(entries[i], sequence))
  }

  /** Entries in strictly ascending internal order, all long enough to hold a tag. */
  ghost predicate Sorted(cmp: Comparator, entries: seq<Entry>) {
    && (forall i :: 0 <= i < |entries| ==> |entries[i].key| >= 8)
    && (forall i, j :: 0 <= i < j < |entries| ==> CompareInternal(cmp, entries[i].key, entries[j].key) < 0)
  }

  ghost function Read(cmp: Comparator, entries: seq<Entry>, sequence: nat): (s: Snapshot)
    requires IsComparator(cmp) && Sorted(cmp, entries)
    ensures s.WellFormed() && s.cmp == cmp && Reads(s.rows, entries, sequence)
  {
    Snapshot(cmp, seq(|entries|, i requires 0 <= i < |entries| => RowOf(entries[i], sequence)))
  }

  function SeekKey(target: Key, sequence: nat): seq<Byte>
    requires sequence <= MAX_SEQUENCE
  {
    InternalKeyBytes(ParsedInternalKey(target, sequence, TYPE_FOR_SEEK))
  }

  lemma ComparedToSeekKey(cmp: Comparator, e: Entry, target: Key, sequence: nat)
    requires sequence <= MAX_SEQUENCE && |e.key| >= 8
    ensures CompareInternal(cmp, e.key, SeekKey(target, sequence)) < 0 && RowOf(e, sequence).visible ==>
              cmp(RowOf(e, sequence).userKey, target) < 0
    ensures CompareInternal(cmp, e.key, SeekKey(target, sequence)) >= 0 ==> cmp(RowOf(e, sequence).userKey, target) >= 0
  {
    ParseInvertsAppend(ParsedInternalKey(target, sequence, TYPE_FOR_SEEK));
    if RowOf(e, sequence).visible {
      SeekTagSplitsAtSnapshot(e.key, sequence);
    }
  }

  /** The seek key steps over precisely the target's entries that are newer than the snapshot. */
  lemma SeekSplits(s: Snapshot, entries: seq<Entry>, sequence: nat, target: Key, pos: nat)
    requires s.WellFormed() && Reads(s.rows, entries, sequence)
    requires sequence <= MAX_SEQUENCE && pos <= |entries|
    requires forall i: nat :: i < |entries| ==> |entries[i].key| >= 8
    requires forall i: nat :: i < pos ==> CompareInternal(s.cmp, entries[i].key, SeekKey(target, sequence)) < 0
    requires pos < |entries| ==> CompareInternal(s.cmp, entries[pos].key, SeekKey(target, sequence)) >= 0
    ensures forall i: nat :: i < pos && s.rows[i].visible ==> s.cmp(s.rows[i].userKey, target) < 0
    ensures forall i: nat :: pos <= i < |entries| ==> s.cmp(s.rows[i].userKey, target) >= 0
  {
    forall i: nat | i < pos && s.rows[i].visible ensures s.cmp(s.rows[i].userKey, target) < 0 {
      assert Position(i);
      ComparedToSeekKey(s.cmp, entries[i], target, sequence);
    }
    forall i: nat | pos <= i < |entries| ensures s.cmp(s.rows[i].userKey, target) >= 0 {
      assert Position(pos);
      ComparedToSeekKey(s.cmp, entries[pos], target, sequence);
      s.InternalOrder(pos, i);
      if s.cmp(s.rows[i].userKey, target) < 0 {
        Transitive(s.cmp, s.rows[pos].userKey, s.rows[i].userKey, target);
      }
    }
  }

  /** Where a client's iterator stands: on pair c of the view, or nowhere. */
  datatype Cursor = Nowhere | At(index: nat)

  ghost function CursorFrom(view: View, c: nat): Cursor {
    if c < |view| then At(c) else Nowhere
  }

  ghost function First(view: View): Cursor {
    if view == [] then Nowhere else At(0)
  }

  ghost function Last(view: View): Cursor {
    if view == [] then Nowhere else At(|view| - 1)
  }

  ghost function After(view: View, c: nat): Cursor {
    if c + 1 < |view| then At(c + 1) else Nowhere
  }

  ghost function Before(c: nat): Cursor {
    if 0 < c then At(c - 1) else Nowhere
  }

  /** The first pair whose key is not less than target. */
  ghost predicate IsLowerBound(cmp: Comparator, view: View, target: Key, cursor: Cursor) {
    match cursor
    case Nowhere => forall c :: 0 <= c < |view| ==> cmp(view[c].0, target) < 0
    case At(d) =>
      && d < |view|
      && cmp(view[d].0, target) >= 0
      && forall c :: 0 <= c < d ==> cmp(view[c].0, target) < 0
  }
}

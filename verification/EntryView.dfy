/** The pairs a reader sees, in terms of the stored entries alone: their keys as they parse, and their values. */
module EntryView {
  import opened FixedWidth
  import opened Options
  import opened InternalKeys
  import opened SnapshotView

  /** Entry i is a write to the key, and not newer than the snapshot. */
  ghost predicate InSnapshot(cmp: Comparator, entries: seq<Entry>, sequence: nat, key: Key, i: nat) {
    && i < |entries| && ParseInternalKey(entries[i].key).Some?
    && var parsed := ParseInternalKey(entries[i].key).value;
       parsed.sequence <= sequence && cmp(parsed.userKey, key) == 0
  }

  /** By sequence number, and by type among writes with the same number. */
  predicate NotNewer(a: seq<Byte>, b: seq<Byte>)
    requires ParseInternalKey(a).Some? && ParseInternalKey(b).Some?
  {
    var p, q := ParseInternalKey(a).value, ParseInternalKey(b).value;
    p.sequence < q.sequence || (p.sequence == q.sequence && p.valueType <= q.valueType)
  }

  ghost predicate Newest(cmp: Comparator, entries: seq<Entry>, sequence: nat, key: Key, i: nat) {
    && InSnapshot(cmp, entries, sequence, key, i)
    && forall j: nat :: InSnapshot(cmp, entries, sequence, key, j) ==> NotNewer(entries[j].key, entries[i].key)
  }

  /** Entry i is the newest write to its user key, stores a value, and the pair is that user key and that value. */
  ghost predicate Presents(cmp: Comparator, entries: seq<Entry>, sequence: nat, i: nat, pair: (Key, seq<Byte>)) {
    && i < |entries| && ParseInternalKey(entries[i].key).Some?
    && var parsed := ParseInternalKey(entries[i].key).value;
       && parsed.valueType == 1 && Newest(cmp, entries, sequence, parsed.userKey, i)
       && pair == (parsed.userKey, entries[i].value)
  }

  /** The pairs that some entry presents, in the order of their user keys. */
  ghost predicate IsViewOf(cmp: Comparator, entries: seq<Entry>, sequence: nat, view: View) {
    && (forall c: nat, d: nat :: c < d < |view| ==> cmp(view[c].0, view[d].0) < 0)
    && (forall pair :: pair in view <==> exists i: nat :: Presents(cmp, entries, sequence, i, pair))
  }

  lemma RowMeans(e: Entry, sequence: nat)
    requires |e.key| >= 8
    ensures RowOf(e, sequence).visible <==>
              ParseInternalKey(e.key).Some? && ParseInternalKey(e.key).value.sequence <= sequence
    ensures ParseInternalKey(e.key).Some? ==>
              && RowOf(e, sequence).userKey == ParseInternalKey(e.key).value.userKey
              && RowOf(e, sequence).deletion == (ParseInternalKey(e.key).value.valueType != 1)
    ensures RowOf(e, sequence).value == e.value
  {
  }

  lemma TagsTellNewer(a: seq<Byte>, b: seq<Byte>)
    requires ParseInternalKey(a).Some? && ParseInternalKey(b).Some?
    ensures NotNewer(a, b) <==> Tag(a) <= Tag(b)
  {
    hide Tag;
  }

  lemma InSnapshotIsVisible(s: Snapshot, entries: seq<Entry>, sequence: nat, key: Key, i: nat)
    requires Reads(s.rows, entries, sequence)
    ensures InSnapshot(s.cmp, entries, sequence, key, i) <==>
              i < |s.rows| && s.rows[i].visible && s.cmp(s.rows[i].userKey, key) == 0
  {
    if i < |entries| {
      assert Position(i);
      RowMeans(entries[i], sequence);
    }
  }

  lemma NewestIsNewestWrite(s: Snapshot, entries: seq<Entry>, sequence: nat, key: Key, i: nat)
    requires Reads(s.rows, entries, sequence)
    ensures Newest(s.cmp, entries, sequence, key, i) <==> s.NewestWrite(key, i)
  {
    forall j: nat
      ensures InSnapshot(s.cmp, entries, sequence, key, j) <==>
                j < |s.rows| && s.rows[j].visible && s.cmp(s.rows[j].userKey, key) == 0
    {
      InSnapshotIsVisible(s, entries, sequence, key, j);
    }
    if InSnapshot(s.cmp, entries, sequence, key, i) {
      forall j: nat | InSnapshot(s.cmp, entries, sequence, key, j)
        ensures NotNewer(entries[j].key, entries[i].key) <==> s.rows[j].tag <= s.rows[i].tag
      {
        assert Position(i) && Position(j);
        TagsTellNewer(entries[j].key, entries[i].key);
      }
    }
    hide InSnapshot, NotNewer, Reads;
  }

  lemma PresentsIsLive(s: Snapshot, entries: seq<Entry>, sequence: nat, i: nat, pair: (Key, seq<Byte>))
    requires s.WellFormed() && Reads(s.rows, entries, sequence)
    ensures Presents(s.cmp, entries, sequence, i, pair) <==>
              i < |s.rows| && s.Live(i) && pair == (s.rows[i].userKey, s.rows[i].value)
  {
    if i < |entries| {
      assert Position(i);
      RowMeans(entries[i], sequence);
      var key := s.rows[i].userKey;
      s.InternalOrder(i, i);
      assert s.cmp(key, key) == 0 by {
        assert s.cmp(key, key) < 0 <==> s.cmp(key, key) > 0;
      }
      NewestIsNewestWrite(s, entries, sequence, key, i);
      s.NewestWriteIsFirst(key, i);
      hide Reads, Snapshot.WellFormed, Snapshot.NewestWrite, RowOf;
    }
  }

  /** What a reader is shown is what the entries present. */
  lemma ViewIsOfEntries(s: Snapshot, entries: seq<Entry>, sequence: nat)
    requires s.WellFormed() && Reads(s.rows, entries, sequence)
    ensures IsViewOf(s.cmp, entries, sequence, s.View())
  {
    var view := s.View();
    forall c: nat, d: nat | c < d < |view| ensures s.cmp(view[c].0, view[d].0) < 0 {
      s.ViewIsSorted(c, d);
    }
    forall pair | pair in view ensures exists i: nat :: Presents(s.cmp, entries, sequence, i, pair) {
      var c: nat :| c < |view| && view[c] == pair;
      s.LiveBeforeIsLive(|s.rows|, c);
      PresentsIsLive(s, entries, sequence, s.LiveBefore(|s.rows|)[c], pair);
    }
    forall i: nat, pair | Presents(s.cmp, entries, sequence, i, pair) ensures pair in view {
      PresentsIsLive(s, entries, sequence, i, pair);
      s.LiveAtRank(i);
    }
    hide Reads, Snapshot.WellFormed, Snapshot.View, Presents;
  }

  ghost predicate Ascends(cmp: Comparator, view: View) {
    forall c: nat, d: nat :: c < d < |view| ==> cmp(view[c].0, view[d].0) < 0
  }

  ghost predicate SameMembers(v: View, w: View) {
    forall pair :: pair in v <==> pair in w
  }

  lemma FirstIsLeast(cmp: Comparator, v: View, pair: (Key, seq<Byte>))
    requires pair in v && Ascends(cmp, v)
    ensures pair == v[0] || cmp(v[0].0, pair.0) < 0
  {
    var c: nat :| c < |v| && v[c] == pair;
  }

  lemma FirstsAgree(cmp: Comparator, v: View, w: View)
    requires IsComparator(cmp) && SameMembers(v, w) && Ascends(cmp, v) && Ascends(cmp, w) && v != []
    ensures w != [] && v[0] == w[0]
  {
    assert v[0] in w && w[0] in v;
    FirstIsLeast(cmp, w, v[0]);
    FirstIsLeast(cmp, v, w[0]);
    assert cmp(v[0].0, w[0].0) < 0 <==> cmp(w[0].0, v[0].0) > 0;
  }

  /** There is only one such list. */
  lemma {:induction false} SortedIsUnique(cmp: Comparator, v: View, w: View)
    requires IsComparator(cmp) && SameMembers(v, w) && Ascends(cmp, v) && Ascends(cmp, w)
    ensures v == w
    decreases |v|
  {
    if w != [] {
      HasMembers(v, w);
    }
    if v != [] {
      FirstsAgree(cmp, v, w);
      RestAgrees(cmp, v, w);
      hide Ascends, SameMembers, IsComparator;
      SortedIsUnique(cmp, v[1..], w[1..]);
      assert v == [v[0]] + v[1..] && w == [w[0]] + w[1..];
    }
  }

  lemma HasMembers(v: View, w: View)
    requires SameMembers(v, w) && w != []
    ensures v != []
  {
    assert w[0] in w;
  }

  lemma RestAgrees(cmp: Comparator, v: View, w: View)
    requires IsComparator(cmp) && v != [] && w != [] && v[0] == w[0] && SameMembers(v, w)
    requires Ascends(cmp, v) && Ascends(cmp, w)
    ensures SameMembers(v[1..], w[1..]) && Ascends(cmp, v[1..]) && Ascends(cmp, w[1..])
  {
    forall pair ensures pair in v[1..] <==> pair in v && pair != v[0] {
      NotFirst(cmp, v, pair);
    }
    forall pair ensures pair in w[1..] <==> pair in w && pair != w[0] {
      NotFirst(cmp, w, pair);
    }
  }

  lemma NotFirst(cmp: Comparator, v: View, pair: (Key, seq<Byte>))
    requires IsComparator(cmp) && v != [] && Ascends(cmp, v)
    ensures pair in v[1..] <==> pair in v && pair != v[0]
  {
    assert v == [v[0]] + v[1..];
    assert cmp(v[0].0, v[0].0) < 0 <==> cmp(v[0].0, v[0].0) > 0;
    if pair in v[1..] {
      var c: nat :| c < |v[1..]| && v[1..][c] == pair;
      assert v[c + 1] == pair && cmp(v[0].0, v[c + 1].0) < 0;
    }
  }

  lemma ViewIsUnique(cmp: Comparator, entries: seq<Entry>, sequence: nat, v: View, w: View)
    requires IsComparator(cmp) && IsViewOf(cmp, entries, sequence, v) && IsViewOf(cmp, entries, sequence, w)
    ensures v == w
  {
    hide Presents;
    assert SameMembers(v, w) && Ascends(cmp, v) && Ascends(cmp, w);
    SortedIsUnique(cmp, v, w);
  }

  /** Looking a key up in the list gives exactly the value of the newest write to it that the snapshot sees, if that is
      a value. */
  lemma LookupIsNewestEntry(cmp: Comparator, entries: seq<Entry>, sequence: nat, view: View, key: Key, value: seq<Byte>)
    requires IsComparator(cmp) && IsViewOf(cmp, entries, sequence, view)
    ensures (exists c: nat :: c < |view| && cmp(view[c].0, key) == 0 && view[c].1 == value)
            <==>
            (exists i: nat :: Newest(cmp, entries, sequence, key, i) && entries[i].value == value
                              && ParseInternalKey(entries[i].key).value.valueType == 1)
  {
    if c: nat :| c < |view| && cmp(view[c].0, key) == 0 && view[c].1 == value {
      assert view[c] in view;
      var i: nat :| Presents(cmp, entries, sequence, i, view[c]);
      EqualKeys(cmp, entries, sequence, view[c].0, key, i);
      assert Newest(cmp, entries, sequence, key, i);
    }
    if i: nat :| Newest(cmp, entries, sequence, key, i) && entries[i].value == value
                 && ParseInternalKey(entries[i].key).value.valueType == 1 {
      var own := ParseInternalKey(entries[i].key).value.userKey;
      assert cmp(key, own) == 0 by {
        assert cmp(own, key) < 0 <==> cmp(key, own) > 0;
        assert cmp(key, own) < 0 <==> cmp(own, key) > 0;
      }
      EqualKeys(cmp, entries, sequence, key, own, i);
      assert Presents(cmp, entries, sequence, i, (own, value));
      assert (own, value) in view;
      var c: nat :| c < |view| && view[c] == (own, value);
      assert cmp(view[c].0, key) == 0 && view[c].1 == value;
    }
  }

  /** Keys that compare as equal have the same newest write. */
  lemma EqualKeys(cmp: Comparator, entries: seq<Entry>, sequence: nat, k: Key, l: Key, i: nat)
    requires IsComparator(cmp) && cmp(k, l) == 0 && Newest(cmp, entries, sequence, k, i)
    ensures Newest(cmp, entries, sequence, l, i)
  {
    forall j: nat ensures InSnapshot(cmp, entries, sequence, k, j) <==> InSnapshot(cmp, entries, sequence, l, j) {
      if j < |entries| && ParseInternalKey(entries[j].key).Some? {
        SameToBoth(cmp, ParseInternalKey(entries[j].key).value.userKey, k, l);
      }
    }
    hide InSnapshot, NotNewer;
  }

  lemma SameToBoth(cmp: Comparator, a: Key, k: Key, l: Key)
    requires IsComparator(cmp) && cmp(k, l) == 0
    ensures cmp(a, k) == 0 <==> cmp(a, l) == 0
  {
    assert Chain(a, k, l) && Chain(a, l, k) && Chain(k, l, a) && Chain(l, k, a);
  }
}

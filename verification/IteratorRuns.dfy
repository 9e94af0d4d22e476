/** Whole runs of a client over the user-level iterator, against the same run over the sorted view. */
module IteratorRuns {
  import opened FixedWidth
  import opened Options
  import opened InternalKeys
  import opened SnapshotView
  import opened EntryView
  import opened DbIterator

  type Pair = (Key, seq<Byte>)

  datatype Move = ToFirst | ToLast | Next | Prev | To(target: Key)

  /** The index of the first pair from c on whose key is not less than target. */
  ghost function LowerBound(cmp: Comparator, view: View, target: Key, c: nat): Cursor
    decreases |view| - c
  {
    if c >= |view| then Nowhere
    else if cmp(view[c].0, target) >= 0 then At(c)
    else LowerBound(cmp, view, target, c + 1)
  }

  lemma {:induction false} LowerBoundIsUnique(cmp: Comparator, view: View, target: Key, c: nat, cursor: Cursor)
    requires IsLowerBound(cmp, view, target, cursor)
    requires cursor.At? ==> c <= cursor.index
    ensures LowerBound(cmp, view, target, c) == cursor
    decreases |view| - c
  {
    if c < |view| && cmp(view[c].0, target) < 0 {
      LowerBoundIsUnique(cmp, view, target, c + 1, cursor);
    }
  }

  /** A client may step only from a pair. */
  predicate Legal(cursor: Cursor, move: Move) {
    move.Next? || move.Prev? ==> cursor.At?
  }

  ghost function Moved(cmp: Comparator, view: View, cursor: Cursor, move: Move): Cursor
    requires Legal(cursor, move)
  {
    match move
    case ToFirst => First(view)
    case ToLast => Last(view)
    case Next => After(view, cursor.index)
    case Prev => Before(cursor.index)
    case To(target) => LowerBound(cmp, view, target, 0)
  }

  ghost predicate LegalRun(cmp: Comparator, view: View, cursor: Cursor, moves: seq<Move>)
    decreases |moves|
  {
    moves != [] ==>
      Legal(cursor, moves[0]) && LegalRun(cmp, view, Moved(cmp, view, cursor, moves[0]), moves[1..])
  }

  ghost function Shown(view: View, cursor: Cursor): Option<Pair> {
    if cursor.At? && cursor.index < |view| then Some(view[cursor.index]) else None
  }

  /** What a cursor over the sorted view shows after each move. */
  ghost function Observed(cmp: Comparator, view: View, cursor: Cursor, moves: seq<Move>): seq<Option<Pair>>
    requires LegalRun(cmp, view, cursor, moves)
    decreases |moves|
  {
    if moves == [] then []
    else
      var next := Moved(cmp, view, cursor, moves[0]);
      [Shown(view, next)] + Observed(cmp, view, next, moves[1..])
  }

  /** One move of the iterator, seen through its public operations. */
  method Apply(it: DBIter, move: Move) returns (seen: Option<Pair>)
    requires it.Inv() && Legal(it.Cursor(), move)
    modifies it, it.iter
    ensures it.Inv()
    ensures it.Cursor() == Moved(it.source.cmp, it.source.View(), old(it.Cursor()), move)
    ensures seen == Shown(it.source.View(), it.Cursor())
  {
    match move {
      case ToFirst => it.SeekToFirst();
      case ToLast => it.SeekToLast();
      case Next => it.Next();
      case Prev => it.Prev();
      case To(target) =>
        it.Seek(target);
        LowerBoundIsUnique(it.source.cmp, it.source.View(), target, 0, it.Cursor());
    }
    seen := if it.valid then Some((it.Key(), it.Value())) else None;
  }

  /** Every legal run shows, move by move, what the same run over the sorted view of the stored entries shows. */
  method Run(it: DBIter, ghost view: View, moves: seq<Move>) returns (seen: seq<Option<Pair>>)
    requires it.Inv() && IsViewOf(it.iter.cmp, it.iter.entries, it.sequence, view)
    requires LegalRun(it.iter.cmp, view, it.Cursor(), moves)
    modifies it, it.iter
    ensures it.Inv()
    ensures seen == Observed(it.iter.cmp, view, old(it.Cursor()), moves)
  {
    ghost var cmp := it.iter.cmp;
    SourceShows(it, view);
    hide DBIter.Inv, DBIter.Cursor, Snapshot.View, Moved, IsViewOf;
    seen := [];
    for i := 0 to |moves|
      invariant it.Inv() && it.source.cmp == cmp && it.source.View() == view
      invariant LegalRun(cmp, view, it.Cursor(), moves[i..])
      invariant seen + Observed(cmp, view, it.Cursor(), moves[i..]) == Observed(cmp, view, old(it.Cursor()), moves)
    {
      var step := Apply(it, moves[i]);
      assert moves[i..][1..] == moves[i + 1..];
      seen := seen + [step];
    }
  }

  /** The view of the iterator is that of its entries. */
  lemma SourceShows(it: DBIter, view: View)
    requires it.Inv() && IsViewOf(it.iter.cmp, it.iter.entries, it.sequence, view)
    ensures it.source.cmp == it.iter.cmp && it.source.View() == view
  {
    ViewIsOfEntries(it.source, it.iter.entries, it.sequence);
    ViewIsUnique(it.source.cmp, it.iter.entries, it.sequence, it.source.View(), view);
  }

  /** Each pair that a run shows is the user key and the value of an entry. */
  lemma {:induction false} ShowsEntries(cmp: Comparator, entries: seq<Entry>, sequence: nat, view: View, cursor: Cursor,
                                        moves: seq<Move>, n: nat)
    requires IsViewOf(cmp, entries, sequence, view) && LegalRun(cmp, view, cursor, moves)
    requires n < |Observed(cmp, view, cursor, moves)| && Observed(cmp, view, cursor, moves)[n].Some?
    ensures exists i: nat :: Presents(cmp, entries, sequence, i, Observed(cmp, view, cursor, moves)[n].value)
    decreases n
  {
    hide Presents;
    var next := Moved(cmp, view, cursor, moves[0]);
    if n == 0 {
      assert Shown(view, next).value in view;
    } else {
      ShowsEntries(cmp, entries, sequence, view, next, moves[1..], n - 1);
    }
  }

  /** n times the same move. */
  function Times(move: Move, n: nat): seq<Move> {
    if n == 0 then [] else [move] + Times(move, n - 1)
  }

  /** Stepping forward from pair c to the end shows the rest of the view, in order, and then nothing. */
  lemma {:induction false} ForwardSweep(cmp: Comparator, view: View, c: nat)
    requires c < |view|
    ensures LegalRun(cmp, view, At(c), Times(Next, |view| - c))
    ensures Observed(cmp, view, At(c), Times(Next, |view| - c)) ==
            seq(|view| - c - 1, k requires 0 <= k < |view| - c - 1 => Some(view[c + 1 + k])) + [None]
    decreases |view| - c
  {
    var rest := Times(Next, |view| - c - 1);
    assert Times(Next, |view| - c)[1..] == rest;
    if c + 1 < |view| {
      ForwardSweep(cmp, view, c + 1);
    }
  }

  /** Stepping backward from pair c shows the pairs before it, in reverse, and then nothing. */
  lemma {:induction false} BackwardSweep(cmp: Comparator, view: View, c: nat)
    requires c < |view|
    ensures LegalRun(cmp, view, At(c), Times(Prev, c + 1))
    ensures Observed(cmp, view, At(c), Times(Prev, c + 1)) ==
            seq(c, k requires 0 <= k < c => Some(view[c - 1 - k])) + [None]
  {
    var rest := Times(Prev, c);
    assert Times(Prev, c + 1)[1..] == rest;
    if c > 0 {
      BackwardSweep(cmp, view, c - 1);
    }
  }

  lemma FirstMove(cmp: Comparator, view: View, cursor: Cursor, move: Move, rest: seq<Move>)
    requires Legal(cursor, move) && LegalRun(cmp, view, Moved(cmp, view, cursor, move), rest)
    ensures LegalRun(cmp, view, cursor, [move] + rest)
    ensures Observed(cmp, view, cursor, [move] + rest) ==
            [Shown(view, Moved(cmp, view, cursor, move))] + Observed(cmp, view, Moved(cmp, view, cursor, move), rest)
  {
    assert ([move] + rest)[1..] == rest;
  }

  /** Turning around anywhere but at the ends comes back to the same pair. */
  lemma TurnAround(cmp: Comparator, view: View, c: nat, there: Move, back: Move)
    requires c < |view|
    requires (there.Next? && back.Prev? && c + 1 < |view|) || (there.Prev? && back.Next? && 0 < c)
    ensures LegalRun(cmp, view, At(c), [there] + ([back] + []))
    ensures Observed(cmp, view, At(c), [there] + ([back] + [])) ==
            [Some(view[if there.Next? then c + 1 else c - 1])] + [Some(view[c])]
  {
    var away := Moved(cmp, view, At(c), there);
    assert Moved(cmp, view, away, back) == At(c);
    FirstMove(cmp, view, away, back, []);
    FirstMove(cmp, view, At(c), there, [back] + []);
    assert Observed(cmp, view, At(c), []) == [];
  }
}

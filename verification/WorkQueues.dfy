/** Queues without repeated elements: what popping, appending and unlinking do to their contents. */
module WorkQueues {

  ghost predicate Distinct<T>(s: seq<T>) {
    forall i: nat, j: nat :: i < j < |s| ==> s[i] != s[j]
  }

  /** A sequence without the first occurrence of an element. */
  ghost function Without<T>(s: seq<T>, x: T): seq<T> {
    if s == [] then [] else if s[0] == x then s[1..] else [s[0]] + Without(s[1..], x)
  }

  lemma Popped<T>(s: seq<T>)
    requires s != [] && Distinct(s)
    ensures Distinct(s[1..]) && forall x :: x in s[1..] <==> x in s && x != s[0]
  {
  }

  lemma Appended<T>(s: seq<T>, y: T)
    requires Distinct(s) && y !in s
    ensures Distinct(s + [y]) && forall x :: x in s + [y] <==> x in s || x == y
  {
  }

  lemma {:induction false} Unlinked<T>(s: seq<T>, y: T)
    requires Distinct(s)
    ensures Distinct(Without(s, y)) && forall x :: x in Without(s, y) <==> x in s && x != y
  {
    if s != [] {
      Popped(s);
      Unlinked(s[1..], y);
      var r := Without(s, y);
      if s[0] != y {
        forall j: nat | 0 < j < |r| ensures r[j] != s[0] {
          assert r[j] == r[1..][j - 1] && r[j] in Without(s[1..], y);
        }
      }
    }
  }

  function Count<T>(s: seq<T>, p: T -> bool): nat {
    if s == [] then 0 else (if p(s[0]) then 1 else 0) + Count(s[1..], p)
  }

  lemma {:induction false} CountUpdated<T>(s: seq<T>, i: nat, x: T, p: T -> bool)
    requires i < |s|
    ensures Count(s[i := x], p) == Count(s, p) - (if p(s[i]) then 1 else 0) + if p(x) then 1 else 0
  {
    if i == 0 {
      assert s[0 := x][1..] == s[1..];
    } else {
      assert s[i := x][1..] == s[1..][i - 1 := x];
      CountUpdated(s[1..], i - 1, x, p);
    }
  }

  lemma {:induction false} CountIsPositive<T>(s: seq<T>, p: T -> bool)
    ensures Count(s, p) > 0 <==> exists i: nat :: i < |s| && p(s[i])
  {
    if s != [] {
      CountIsPositive(s[1..], p);
      if Count(s[1..], p) > 0 {
        var i: nat :| i < |s[1..]| && p(s[1..][i]);
        assert p(s[i + 1]);
      } else {
        forall i: nat | 0 < i < |s| ensures !p(s[i]) {
          assert !p(s[1..][i - 1]);
        }
      }
    }
  }

  function Total<T>(s: seq<T>, rank: T -> nat): nat {
    if s == [] then 0 else rank(s[0]) + Total(s[1..], rank)
  }

  lemma {:induction false} TotalUpdated<T>(s: seq<T>, i: nat, x: T, rank: T -> nat)
    requires i < |s|
    ensures Total(s[i := x], rank) == Total(s, rank) - rank(s[i]) + rank(x)
  {
    if i == 0 {
      assert s[0 := x][1..] == s[1..];
    } else {
      assert s[i := x][1..] == s[1..][i - 1 := x];
      TotalUpdated(s[1..], i - 1, x, rank);
    }
  }
}

/** The order in which Punycode inserts the code points of a label: by value, and from left to right among equals. */
module CodePointOrder {
  import opened MachineWords
  import opened Options
  import opened Products
  import opened Punycode

  /** Code points below n come first, then those equal to n, from left to right. */
  predicate IsEmitted(c: nat, at: nat, n: nat, j: nat) {
    c < n || (c == n && at < j)
  }

  /** The code points of a label that are below n, and those equal to n before position j. */
  function Kept(cps: seq<nat>, n: nat, j: nat): (kept: seq<nat>)
    ensures |kept| <= |cps|
  {
    if cps == [] then [] else
    var last := |cps| - 1;
    Kept(cps[..last], n, j) + if IsEmitted(cps[last], last, n, j) then [cps[last]] else []
  }

  /** How many code points before position j are at most n. */
  function Rank(cps: seq<nat>, n: nat, j: nat): nat
    requires j <= |cps|
  {
    |Kept(cps[..j], n, j)|
  }

  lemma {:induction false} KeptIsSame(cps: seq<nat>, n: nat, j: nat, m: nat, k: nat)
    requires forall i: nat :: i < |cps| ==> IsEmitted(cps[i], i, n, j) == IsEmitted(cps[i], i, m, k)
    ensures Kept(cps, n, j) == Kept(cps, m, k)
  {
    if cps != [] {
      KeptIsSame(cps[..|cps| - 1], n, j, m, k);
    }
  }

  lemma {:induction false} KeptAll(cps: seq<nat>, n: nat, j: nat)
    requires |Kept(cps, n, j)| == |cps|
    ensures Kept(cps, n, j) == cps
  {
    if cps != [] {
      KeptAll(cps[..|cps| - 1], n, j);
    }
  }

  lemma {:induction false} KeptMisses(cps: seq<nat>, n: nat)
    requires |Kept(cps, n, 0)| < |cps|
    ensures exists i: nat :: i < |cps| && cps[i] >= n
  {
    var last := |cps| - 1;
    if cps[last] < n {
      KeptMisses(cps[..last], n);
      var i: nat :| i < last && cps[..last][i] >= n;
      assert cps[i] >= n;
    }
  }

  /** The next code point equal to n goes in after those that come before it in the label. */
  lemma {:induction false} KeptInserts(cps: seq<nat>, n: nat, j: nat)
    requires j < |cps| && cps[j] == n
    ensures var kept, r := Kept(cps, n, j), Rank(cps, n, j);
            r <= |kept| && Kept(cps, n, j + 1) == kept[..r] + [n] + kept[r..]
  {
    var last := |cps| - 1;
    var init := cps[..last];
    var r := Rank(cps, n, j);
    if j == last {
      KeptIsSame(init, n, j, n, j + 1);
    } else {
      assert init[..j] == cps[..j];
      KeptInserts(init, n, j);
      var kept := Kept(init, n, j);
      var tail := if IsEmitted(cps[last], last, n, j) then [cps[last]] else [];
      assert kept[..r] + [n] + kept[r..] + tail == (kept + tail)[..r] + [n] + (kept + tail)[r..];
    }
  }

  lemma RankAdvances(cps: seq<nat>, n: nat, j: nat)
    requires j < |cps|
    ensures Rank(cps, n, j + 1) == Rank(cps, n, j) + if cps[j] <= n then 1 else 0
  {
    var up := cps[..j + 1];
    assert up[..j] == cps[..j];
    KeptIsSame(cps[..j], n, j, n, j + 1);
  }

  lemma RankAtEnds(cps: seq<nat>, n: nat)
    ensures Rank(cps, n, 0) == 0 && Rank(cps, n, |cps|) == |Kept(cps, n, |cps|)| &&
            Kept(cps, n, |cps|) == Kept(cps, n + 1, 0)
  {
    assert cps[..|cps|] == cps;
    KeptIsSame(cps, n, |cps|, n + 1, 0);
  }

  lemma {:induction false} RankIsSmall(cps: seq<nat>, n: nat, j: nat)
    requires j <= |cps|
    ensures Rank(cps, n, j) <= |Kept(cps, n, j)|
  {
    if j == |cps| {
      assert cps[..j] == cps;
    } else {
      var init := cps[..|cps| - 1];
      assert init[..j] == cps[..j];
      RankIsSmall(init, n, j);
    }
  }

  /** The last code point that is not basic among those that are emitted. */
  function Latest(cps: seq<nat>, n: nat, j: nat): (k: Option<nat>)
    ensures k.Some? ==> k.value < |cps| && INITIAL_N <= cps[k.value] <= n
  {
    if cps == [] then None else
    var last := |cps| - 1;
    var k := Latest(cps[..last], n, j);
    if INITIAL_N <= cps[last] && IsEmitted(cps[last], last, n, j) && (k == None || cps[k.value] <= cps[last])
    then Some(last)
    else k
  }

  lemma {:induction false} LatestIsSame(cps: seq<nat>, n: nat, j: nat, m: nat, k: nat)
    requires forall i: nat :: i < |cps| ==> IsEmitted(cps[i], i, n, j) == IsEmitted(cps[i], i, m, k)
    ensures Latest(cps, n, j) == Latest(cps, m, k)
  {
    if cps != [] {
      LatestIsSame(cps[..|cps| - 1], n, j, m, k);
    }
  }

  lemma {:induction false} LatestInserts(cps: seq<nat>, n: nat, j: nat)
    requires j < |cps| && cps[j] == n && n >= INITIAL_N
    ensures Latest(cps, n, j + 1) == Some(j)
  {
    if j < |cps| - 1 {
      LatestInserts(cps[..|cps| - 1], n, j);
    }
  }

  /** The state of the decoder after the last insertion: its code point, and the position after it. */
  function Origin(cps: seq<nat>, n: nat, j: nat): (r: (nat, nat))
    requires n >= INITIAL_N
    ensures INITIAL_N <= r.0 <= n
  {
    match Latest(cps, n, j)
    case None => (INITIAL_N, 0)
    case Some(k) => (cps[k], Rank(cps, cps[k], k) + 1)
  }

  /** How many states the decoder passes from its last insertion to position j of the pass for n. */
  function Steps(cps: seq<nat>, n: nat, j: nat): int
    requires n >= INITIAL_N && j <= |cps|
  {
    Product(n - Origin(cps, n, j).0, |Kept(cps, n, j)| + 1) + Rank(cps, n, j) - Origin(cps, n, j).1
  }

  /** At a code point equal to n, the steps say which code point is inserted and where; then counting starts again. */
  lemma StepsInsert(cps: seq<nat>, n: nat, j: nat)
    requires n >= INITIAL_N && j < |cps| && cps[j] == n
    ensures var i, points := Origin(cps, n, j).1 + Steps(cps, n, j), |Kept(cps, n, j)| + 1;
            i >= 0 && i / points == n - Origin(cps, n, j).0 && i % points == Rank(cps, n, j)
    ensures Origin(cps, n, j + 1) == (n, Rank(cps, n, j) + 1) && Steps(cps, n, j + 1) == 0
  {
    KeptInserts(cps, n, j);
    RankAdvances(cps, n, j);
    LatestInserts(cps, n, j);
    DivideBack(n - Origin(cps, n, j).0, |Kept(cps, n, j)| + 1, Rank(cps, n, j));
    ProductOfZero(|Kept(cps, n, j + 1)| + 1);
    hide Product, Kept, Latest;
  }

  lemma StepsPast(cps: seq<nat>, n: nat, j: nat)
    requires n >= INITIAL_N && j < |cps| && cps[j] != n
    ensures Origin(cps, n, j + 1) == Origin(cps, n, j)
    ensures Steps(cps, n, j + 1) == Steps(cps, n, j) + if cps[j] < n then 1 else 0
  {
    KeptIsSame(cps, n, j, n, j + 1);
    LatestIsSame(cps, n, j, n, j + 1);
    RankAdvances(cps, n, j);
    hide Product, Kept, Latest, Rank;
  }

  lemma StepsNext(cps: seq<nat>, n: nat)
    requires n >= INITIAL_N
    ensures Origin(cps, n + 1, 0) == Origin(cps, n, |cps|) && Steps(cps, n + 1, 0) == Steps(cps, n, |cps|) + 1
  {
    RankAtEnds(cps, n);
    RankAtEnds(cps, n + 1);
    LatestIsSame(cps, n, |cps|, n + 1, 0);
    ProductDistributes(n - Origin(cps, n, |cps|).0, 1, |Kept(cps, n, |cps|)| + 1);
    hide Product, Kept, Latest, Rank;
  }

  /** A jump over code points that do not occur leaves the decoder where it is. */
  lemma OriginStays(cps: seq<nat>, n: nat, m: nat)
    requires INITIAL_N <= n <= m && forall i: nat :: i < |cps| ==> cps[i] < n || cps[i] >= m
    ensures Origin(cps, m, 0) == Origin(cps, n, 0)
  {
    LatestIsSame(cps, n, 0, m, 0);
    hide Latest, Rank;
  }

  lemma KeptStays(cps: seq<nat>, n: nat, m: nat)
    requires INITIAL_N <= n <= m && forall i: nat :: i < |cps| ==> cps[i] < n || cps[i] >= m
    ensures Kept(cps, m, 0) == Kept(cps, n, 0)
  {
    KeptIsSame(cps, n, 0, m, 0);
  }

  lemma StepsAtStart(cps: seq<nat>, n: nat)
    requires n >= INITIAL_N
    ensures Steps(cps, n, 0) == Product(n - Origin(cps, n, 0).0, |Kept(cps, n, 0)| + 1) - Origin(cps, n, 0).1
  {
    hide Product, Kept, Origin, Rank;
    RankAtEnds(cps, n);
  }

  lemma ProductOfSpan(from: nat, n: nat, m: nat, b: nat)
    requires from <= n <= m
    ensures Product(m - from, b) == Product(n - from, b) + Product(m - n, b)
  {
    ProductDistributes(n - from, m - n, b);
  }

  lemma StepsJump(cps: seq<nat>, n: nat, m: nat)
    requires INITIAL_N <= n <= m && forall i: nat :: i < |cps| ==> cps[i] < n || cps[i] >= m
    ensures Origin(cps, m, 0) == Origin(cps, n, 0) && Kept(cps, m, 0) == Kept(cps, n, 0)
    ensures Steps(cps, m, 0) == Steps(cps, n, 0) + Product(m - n, |Kept(cps, n, 0)| + 1)
  {
    hide Product, Kept, Latest, Rank, Steps, Origin;
    OriginStays(cps, n, m);
    KeptStays(cps, n, m);
    StepsAtStart(cps, n);
    StepsAtStart(cps, m);
    ProductOfSpan(Origin(cps, n, 0).0, n, m, |Kept(cps, n, 0)| + 1);
  }

  /** The number to be written for the code point at position k. */
  function Gap(cps: seq<nat>, k: nat): int
    requires k < |cps| && cps[k] >= INITIAL_N
  {
    Steps(cps, cps[k], k)
  }

  ghost predicate GapFits(cps: seq<nat>, k: nat) {
    k < |cps| && cps[k] >= INITIAL_N ==> Gap(cps, k) <= MAX_32
  }

  /** Some number of the label does not fit 32 bits. */
  ghost predicate Overflows(cps: seq<nat>) {
    exists k: nat :: !GapFits(cps, k)
  }

  /** The numbers of the code points emitted so far fit 32 bits. */
  ghost predicate FitsUpTo(cps: seq<nat>, n: nat, j: nat) {
    forall k: nat :: k < |cps| && IsEmitted(cps[k], k, n, j) ==> GapFits(cps, k)
  }

  /** Until the next code point equal to n, only smaller ones are counted. */
  lemma {:induction false} StepsGrow(cps: seq<nat>, n: nat, j: nat, k: nat)
    requires n >= INITIAL_N && j <= k <= |cps| && forall i: nat :: j <= i < k ==> cps[i] != n
    ensures Steps(cps, n, j) <= Steps(cps, n, k)
    ensures j < k && cps[j] < n ==> Steps(cps, n, j) < Steps(cps, n, k)
    decreases k - j
  {
    hide Steps;
    if j < k {
      StepsPast(cps, n, j);
      StepsGrow(cps, n, j + 1, k);
    }
  }

  /** The next position that holds n. */
  lemma {:induction false} NextAt(cps: seq<nat>, n: nat, j: nat) returns (k: nat)
    requires j <= |cps| && n in cps && n !in cps[..j]
    ensures j <= k < |cps| && cps[k] == n && forall i: nat :: j <= i < k ==> cps[i] != n
    decreases |cps| - j
  {
    assert cps[..|cps|] == cps;
    if cps[j] == n {
      k := j;
    } else {
      assert cps[..j + 1] == cps[..j] + [cps[j]];
      k := NextAt(cps, n, j + 1);
    }
  }

  /** If too many states have been passed before the next code point, the number for it does not fit. */
  lemma TooFar(cps: seq<nat>, n: nat, j: nat)
    requires n >= INITIAL_N && j <= |cps| && n in cps && n !in cps[..j]
    requires Steps(cps, n, j) > MAX_32 || (j < |cps| && cps[j] < n && Steps(cps, n, j) >= MAX_32)
    ensures Overflows(cps)
  {
    var k := NextAt(cps, n, j);
    StepsGrow(cps, n, j, k);
    assert !GapFits(cps, k);
  }

  /** A label of at most 3855 code points does not overflow. */
  lemma ShortLabelsFit(cps: seq<nat>)
    requires |cps| <= 3855 && forall c :: c in cps ==> c <= 0x10FFFF
    ensures !Overflows(cps)
  {
    forall k: nat ensures GapFits(cps, k) {
      if k < |cps| && cps[k] >= INITIAL_N {
        assert cps[k] in cps;
        GapIsSmall(cps, k);
      }
    }
  }

  lemma GapIsSmall(cps: seq<nat>, k: nat)
    requires |cps| <= 3855 && k < |cps| && INITIAL_N <= cps[k] <= 0x10FFFF
    ensures Gap(cps, k) <= MAX_32
  {
    var n, h := cps[k], |Kept(cps, cps[k], k)|;
    RankIsSmall(cps, n, k);
    KeptInserts(cps, n, k);
    var a: nat := n - Origin(cps, n, k).0;
    assert Product(a, h + 1) <= Product(0x10FFFF, h + 1) by {
      ProductDistributes(a, 0x10FFFF - a, h + 1);
    }
  }

  lemma {:induction false} AsciiIsKept(cps: seq<nat>, n: nat, j: nat)
    requires n >= INITIAL_N && forall i: nat :: i < |cps| ==> cps[i] < INITIAL_N
    ensures Kept(cps, n, j) == cps
  {
    if cps != [] {
      var last := |cps| - 1;
      AsciiIsKept(cps[..last], n, j);
      assert cps[..last] + [cps[last]] == cps;
    }
  }

  lemma {:induction false} AsciiIsNotLatest(cps: seq<nat>, n: nat, j: nat)
    requires forall i: nat :: i < |cps| ==> cps[i] < INITIAL_N
    ensures Latest(cps, n, j) == None
  {
    if cps != [] {
      AsciiIsNotLatest(cps[..|cps| - 1], n, j);
    }
  }

  /** The number for a code point after ASCII ones only. */
  lemma {:induction false} GapAfterAscii(ascii: seq<nat>, n: nat)
    requires n >= INITIAL_N && forall i: nat :: i < |ascii| ==> ascii[i] < INITIAL_N
    ensures Gap(ascii + [n], |ascii|) == Product(n - INITIAL_N, |ascii| + 1) + |ascii|
  {
    var cps, last := ascii + [n], |ascii|;
    assert cps[..last] == ascii;
    AsciiIsKept(ascii, n, last);
    AsciiIsNotLatest(ascii, n, last);
    hide Product;
    assert Kept(cps, n, last) == ascii && Latest(cps, n, last) == None;
    hide Kept, Latest;
    assert Origin(cps, n, last) == (INITIAL_N, 0);
  }

  /** That bound is exact: this label of 3856 code points overflows. */
  lemma LongLabelOverflows(ascii: seq<nat>)
    requires |ascii| == 3855 && forall i: nat :: i < |ascii| ==> ascii[i] < INITIAL_N
    ensures Overflows(ascii + [0x10FFFF])
  {
    GapAfterAscii(ascii, 0x10FFFF);
    assert !GapFits(ascii + [0x10FFFF], |ascii|);
  }

  lemma FitsInserts(cps: seq<nat>, n: nat, j: nat)
    requires n >= INITIAL_N && j < |cps| && cps[j] == n && FitsUpTo(cps, n, j) && Steps(cps, n, j) <= MAX_32
    ensures FitsUpTo(cps, n, j + 1)
  {
    hide Steps;
    forall k: nat | k < |cps| && IsEmitted(cps[k], k, n, j + 1) ensures GapFits(cps, k) {
      if k != j {
        assert IsEmitted(cps[k], k, n, j);
      }
    }
  }

  lemma FitsSame(cps: seq<nat>, n: nat, j: nat, m: nat, k: nat)
    requires FitsUpTo(cps, n, j)
    requires forall i: nat :: i < |cps| ==> IsEmitted(cps[i], i, n, j) == IsEmitted(cps[i], i, m, k)
    ensures FitsUpTo(cps, m, k)
  {
  }

  lemma {:induction false} AllEmitted(cps: seq<nat>, n: nat, j: nat, i: nat)
    requires |Kept(cps, n, j)| == |cps| && i < |cps|
    ensures IsEmitted(cps[i], i, n, j)
  {
    if i < |cps| - 1 {
      AllEmitted(cps[..|cps| - 1], n, j, i);
    }
  }

  lemma FitsAll(cps: seq<nat>, n: nat, j: nat)
    requires |Kept(cps, n, j)| == |cps| && FitsUpTo(cps, n, j)
    ensures !Overflows(cps)
  {
    forall k: nat ensures GapFits(cps, k) {
      if k < |cps| {
        AllEmitted(cps, n, j, k);
      }
    }
  }
}

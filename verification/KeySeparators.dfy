/** The bytewise user comparator, and the shortening of keys between two table blocks. */
module KeySeparators {
  import opened FixedWidth
  import opened Options
  import opened InternalKeys

  function BytewiseCompare(a: Key, b: Key): int {
    if a == [] then (if b == [] then 0 else -1)
    else if b == [] then 1
    else if a[0] != b[0] then (if a[0] < b[0] then -1 else 1)
    else BytewiseCompare(a[1..], b[1..])
  }

  lemma {:induction false} BytewiseAntisymmetric(a: Key, b: Key)
    ensures BytewiseCompare(a, b) == -BytewiseCompare(b, a)
    ensures BytewiseCompare(a, b) == 0 ==> a == b
  {
    if a != [] && b != [] && a[0] == b[0] {
      BytewiseAntisymmetric(a[1..], b[1..]);
      assert a == [a[0]] + a[1..] && b == [b[0]] + b[1..];
    }
  }

  lemma {:induction false} BytewiseTransitive(a: Key, b: Key, c: Key)
    requires BytewiseCompare(a, b) <= 0 && BytewiseCompare(b, c) <= 0
    ensures BytewiseCompare(a, c) <= 0
  {
    if a != [] && b != [] && c != [] && a[0] == b[0] == c[0] {
      BytewiseTransitive(a[1..], b[1..], c[1..]);
    }
  }

  lemma BytewiseIsComparator()
    ensures IsComparator(BytewiseCompare)
    ensures forall a, b :: BytewiseCompare(a, b) == 0 ==> a == b
  {
    forall a, b
      ensures BytewiseCompare(a, b) < 0 <==> BytewiseCompare(b, a) > 0
      ensures BytewiseCompare(a, b) == 0 ==> a == b
    {
      BytewiseAntisymmetric(a, b);
    }
    forall a, b, c | Chain(a, b, c) && BytewiseCompare(a, b) <= 0 && BytewiseCompare(b, c) <= 0
      ensures BytewiseCompare(a, c) <= 0
    {
      BytewiseTransitive(a, b, c);
    }
  }

  /** What the table builder needs of a separator: a key in [start, limit) when start < limit, and start otherwise. */
  ghost predicate IsSeparator(cmp: Comparator, separator: (Key, Key) -> Key) {
    forall start, limit {:trigger separator(start, limit)} ::
      if cmp(start, limit) < 0
      then cmp(start, separator(start, limit)) <= 0 && cmp(separator(start, limit), limit) < 0
      else separator(start, limit) == start
  }

  ghost predicate IsSuccessor(cmp: Comparator, successor: Key -> Key) {
    forall key {:trigger successor(key)} :: cmp(key, successor(key)) <= 0
  }

  /** The part up to the first differing byte, with that byte incremented if the result stays below limit. */
  function BytewiseSeparator(start: Key, limit: Key): Key {
    if start == [] || limit == [] then start
    else if start[0] == limit[0] then [start[0]] + BytewiseSeparator(start[1..], limit[1..])
    else if start[0] < 255 && start[0] + 1 < limit[0] then [start[0] + 1]
    else start
  }

  function BytewiseSuccessor(key: Key): Key {
    if key == [] then key
    else if key[0] != 255 then [key[0] + 1]
    else [key[0]] + BytewiseSuccessor(key[1..])
  }

  lemma {:induction false} SeparatorSeparates(start: Key, limit: Key)
    ensures var r := BytewiseSeparator(start, limit);
            if BytewiseCompare(start, limit) < 0
            then BytewiseCompare(start, r) <= 0 && BytewiseCompare(r, limit) < 0
            else r == start
  {
    BytewiseAntisymmetric(start, start);
    if start != [] && limit != [] && start[0] == limit[0] {
      SeparatorSeparates(start[1..], limit[1..]);
    }
  }

  lemma {:induction false} SuccessorSucceeds(key: Key)
    ensures BytewiseCompare(key, BytewiseSuccessor(key)) <= 0
  {
    if key != [] {
      SuccessorSucceeds(key[1..]);
    }
  }

  lemma {:induction false} BytewiseContract()
    ensures IsSeparator(BytewiseCompare, BytewiseSeparator)
    ensures IsSuccessor(BytewiseCompare, BytewiseSuccessor)
  {
    forall start, limit
      ensures if BytewiseCompare(start, limit) < 0
              then BytewiseCompare(start, BytewiseSeparator(start, limit)) <= 0 &&
                   BytewiseCompare(BytewiseSeparator(start, limit), limit) < 0
              else BytewiseSeparator(start, limit) == start
    {
      SeparatorSeparates(start, limit);
    }
    forall key ensures BytewiseCompare(key, BytewiseSuccessor(key)) <= 0 {
      SuccessorSucceeds(key);
    }
  }

  /** i is where the keys first differ, or where the shorter one ends. */
  ghost predicate Parts(a: Key, b: Key, i: nat) {
    i <= |a| && i <= |b| && a[..i] == b[..i] && (i < |a| && i < |b| ==> a[i] != b[i])
  }

  /** The separator is shorter exactly if bytes of the start follow the first difference and the differing byte can be
      incremented below that of the limit; it then ends with the incremented byte. */
  ghost predicate IsShortSeparator(start: Key, limit: Key, i: nat, result: Key)
    requires Parts(start, limit, i)
  {
    var increments := i < |start| && i < |limit| && (start[i] as int) + 1 < limit[i];
    && result == (if increments then start[..i] + [start[i] + 1] else start)
    && (|result| < |start| <==> increments && i + 1 < |start|)
  }

  lemma {:induction false} SeparatorShortens(start: Key, limit: Key, i: nat)
    requires Parts(start, limit, i)
    ensures IsShortSeparator(start, limit, i, BytewiseSeparator(start, limit))
    decreases i
  {
    if i > 0 {
      assert start[..i][0] == limit[..i][0];
      assert start[1..][..i - 1] == start[..i][1..] && limit[1..][..i - 1] == limit[..i][1..];
      SeparatorShortens(start[1..], limit[1..], i - 1);
      assert start == [start[0]] + start[1..] && start[..i] == [start[0]] + start[1..][..i - 1];
    } else {
      assert start[..0] == [];
    }
  }

  /** The same of the successor: i is the first byte that can be incremented. */
  lemma {:induction false} SuccessorShortens(key: Key, i: nat)
    requires i <= |key| && (forall k: nat :: k < i ==> key[k] == 255) && (i < |key| ==> key[i] != 255)
    ensures BytewiseSuccessor(key) == if i < |key| then key[..i] + [key[i] + 1] else key
    ensures |BytewiseSuccessor(key)| < |key| <==> i + 1 < |key|
    decreases i
  {
    if i > 0 {
      SuccessorShortens(key[1..], i - 1);
      assert key == [key[0]] + key[1..] && key[..i] == [key[0]] + key[1..][..i - 1];
    }
  }

  lemma SeparatorStep(start: Key, limit: Key, i: nat)
    requires i < |start| && i < |limit| && start[i] == limit[i]
    ensures start[..i] + BytewiseSeparator(start[i..], limit[i..]) ==
            start[..i + 1] + BytewiseSeparator(start[i + 1..], limit[i + 1..])
  {
    assert start[i..][1..] == start[i + 1..] && limit[i..][1..] == limit[i + 1..];
  }

  /** The scan for the first differing byte. */
  method FindShortestSeparator(start: Key, limit: Key) returns (result: Key)
    ensures result == BytewiseSeparator(start, limit)
    ensures forall i: nat :: Parts(start, limit, i) ==> IsShortSeparator(start, limit, i, result)
  {
    forall i: nat | Parts(start, limit, i)
      ensures IsShortSeparator(start, limit, i, BytewiseSeparator(start, limit))
    {
      SeparatorShortens(start, limit, i);
    }
    hide IsShortSeparator, Parts;
    var minLength := if |start| < |limit| then |start| else |limit|;
    var diffIndex := 0;
    while diffIndex < minLength && start[diffIndex] == limit[diffIndex]
      invariant 0 <= diffIndex <= minLength
      invariant BytewiseSeparator(start, limit) ==
                start[..diffIndex] + BytewiseSeparator(start[diffIndex..], limit[diffIndex..])
    {
      SeparatorStep(start, limit, diffIndex);
      diffIndex := diffIndex + 1;
    }
    result := start;
    assert start == start[..diffIndex] + start[diffIndex..];
    if diffIndex < minLength {
      var diffByte := start[diffIndex];
      if diffByte < 255 && diffByte + 1 < limit[diffIndex] {
        result := start[..diffIndex] + [diffByte + 1];
      }
    }
  }

  lemma SuccessorStep(key: Key, i: nat)
    requires i < |key| && key[i] == 255
    ensures key[..i] + BytewiseSuccessor(key[i..]) == key[..i + 1] + BytewiseSuccessor(key[i + 1..])
  {
    assert key[i..][1..] == key[i + 1..];
  }

  /** The scan for the first byte that can be incremented. */
  method FindShortSuccessor(key: Key) returns (result: Key)
    ensures result == BytewiseSuccessor(key)
    ensures forall i: nat :: i < |key| && key[i] != 255 && (forall k: nat :: k < i ==> key[k] == 255) ==>
              result == key[..i] + [key[i] + 1]
    ensures (forall k: nat :: k < |key| ==> key[k] == 255) ==> result == key
  {
    for i := 0 to |key|
      invariant forall k: nat :: k < i ==> key[k] == 255
      invariant BytewiseSuccessor(key) == key[..i] + BytewiseSuccessor(key[i..])
    {
      if key[i] != 255 {
        return key[..i] + [key[i] + 1];
      }
      SuccessorStep(key, i);
    }
    return key;
  }

  /** Shortening an internal key: replace the user key by the user comparator's separator when that is
      shorter and larger, with the tag that sorts first among the entries of the new user key. */
  method InternalShortestSeparator(cmp: Comparator, separator: (Key, Key) -> Key, start: seq<Byte>, limit: seq<Byte>)
    returns (result: seq<Byte>)
    requires IsComparator(cmp) && IsSeparator(cmp, separator)
    requires |start| >= 8 && |limit| >= 8
    ensures |result| >= 8
    ensures CompareInternal(cmp, start, limit) < 0 ==>
              CompareInternal(cmp, start, result) <= 0 && CompareInternal(cmp, result, limit) < 0
    ensures result != start <==>
              var tmp := separator(ExtractUserKey(start), ExtractUserKey(limit));
              |tmp| < |ExtractUserKey(start)| && cmp(ExtractUserKey(start), tmp) < 0
    ensures result != start ==>
              && |result| < |start|
              && ParseInternalKey(result) ==
                 Some(ParsedInternalKey(separator(ExtractUserKey(start), ExtractUserKey(limit)), MAX_SEQUENCE,
                                        TYPE_FOR_SEEK))
  {
    var userStart := ExtractUserKey(start);
    var userLimit := ExtractUserKey(limit);
    var tmp := separator(userStart, userLimit);
    result := start;
    assert cmp(userStart, userStart) == 0;
    if |tmp| < |userStart| && cmp(userStart, tmp) < 0 {
      var key := ParsedInternalKey(tmp, MAX_SEQUENCE, TYPE_FOR_SEEK);
      ParseInvertsAppend(key);
      result := InternalKeyBytes(key);
      assert CompareInternal(cmp, start, result) < 0;
      assert CompareInternal(cmp, result, limit) < 0;
    }
  }

  method InternalShortSuccessor(cmp: Comparator, successor: Key -> Key, key: seq<Byte>)
    returns (result: seq<Byte>)
    requires IsComparator(cmp) && IsSuccessor(cmp, successor)
    requires |key| >= 8
    ensures |result| >= 8 && CompareInternal(cmp, key, result) <= 0
    ensures result != key <==>
              var tmp := successor(ExtractUserKey(key));
              |tmp| < |ExtractUserKey(key)| && cmp(ExtractUserKey(key), tmp) < 0
    ensures result != key ==>
              && |result| < |key|
              && CompareInternal(cmp, key, result) < 0
              && ParseInternalKey(result) ==
                 Some(ParsedInternalKey(successor(ExtractUserKey(key)), MAX_SEQUENCE, TYPE_FOR_SEEK))
  {
    var userKey := ExtractUserKey(key);
    var tmp := successor(userKey);
    result := key;
    assert cmp(userKey, userKey) == 0;
    if |tmp| < |userKey| && cmp(userKey, tmp) < 0 {
      var parsed := ParsedInternalKey(tmp, MAX_SEQUENCE, TYPE_FOR_SEEK);
      ParseInvertsAppend(parsed);
      result := InternalKeyBytes(parsed);
      assert CompareInternal(cmp, key, result) < 0;
    }
  }
}

/** Internal keys of the store: a user key followed by eight bytes that hold a
    sequence number and a value type, and the order that the tables are sorted by. */
module InternalKeys {

  import opened FixedWidth
  import opened Options

  type Key = seq<Byte>

  /** A three-way user comparator: negative, zero or positive. */
  type Comparator = (Key, Key) -> int

  /** What a user comparator promises: a total preorder. Different byte strings may compare as equal. */
  ghost predicate IsComparator(cmp: Comparator) {
    && (forall a, b :: cmp(a, b) < 0 <==> cmp(b, a) > 0)
    && (forall a, b, c {:trigger Chain(a, b, c)} :: Chain(a, b, c) && cmp(a, b) <= 0 && cmp(b, c) <= 0 ==>
        cmp(a, c) <= 0)
  }

  /** Always true: transitivity is used where a proof names the chain. */
  predicate Chain(a: Key, b: Key, c: Key) {
    true
  }

  lemma Transitive(cmp: Comparator, a: Key, b: Key, c: Key)
    requires IsComparator(cmp) && cmp(a, b) <= 0 && cmp(b, c) <= 0
    ensures cmp(a, c) <= 0
    ensures cmp(a, b) < 0 || cmp(b, c) < 0 ==> cmp(a, c) < 0
  {
    assert Chain(a, b, c) && Chain(c, a, b) && Chain(b, c, a);
  }

  const MAX_SEQUENCE: nat := 0x100_0000_0000_0000 - 1
  const TYPE_DELETION: nat := 0
  const TYPE_VALUE: nat := 1
  const TYPE_FOR_SEEK: nat := TYPE_VALUE

  datatype ParsedInternalKey = ParsedInternalKey(userKey: Key, sequence: nat, valueType: nat) {
    predicate WellFormed() {
      sequence <= MAX_SEQUENCE && valueType <= TYPE_FOR_SEEK
    }
  }

  function Pack(sequence: nat, valueType: nat): nat
    requires sequence <= MAX_SEQUENCE && valueType <= TYPE_FOR_SEEK
  {
    sequence * 256 + valueType
  }

  function InternalKeyBytes(key: ParsedInternalKey): (bytes: seq<Byte>)
    requires key.WellFormed()
    ensures |bytes| == |key.userKey| + 8
  {
    key.userKey + PutFixed(Pack(key.sequence, key.valueType), 8)
  }

  function ExtractUserKey(internalKey: seq<Byte>): Key
    requires |internalKey| >= 8
  {
    internalKey[..|internalKey| - 8]
  }

  /** The packed sequence number and type. */
  function Tag(internalKey: seq<Byte>): nat
    requires |internalKey| >= 8
  {
    GetFixed(internalKey[|internalKey| - 8..])
  }

  function ParseInternalKey(internalKey: seq<Byte>): Option<ParsedInternalKey> {
    if |internalKey| < 8 then None
    else
      var num := Tag(internalKey);
      if num % 256 <= TYPE_VALUE
      then Some(ParsedInternalKey(ExtractUserKey(internalKey), num / 256, num % 256))
      else None
  }

  /** Parsing undoes appending, on every key that can be packed. */
  lemma ParseInvertsAppend(key: ParsedInternalKey)
    requires key.WellFormed()
    ensures ParseInternalKey(InternalKeyBytes(key)) == Some(key)
  {
    hide PutFixed, GetFixed;
    var bytes, num := InternalKeyBytes(key), Pack(key.sequence, key.valueType);
    Power256Values();
    FixedRoundTrip(num, 8);
    assert bytes[|bytes| - 8..] == PutFixed(num, 8);
    assert Tag(bytes) == num && ExtractUserKey(bytes) == key.userKey;
    assert num / 256 == key.sequence && num % 256 == key.valueType;
  }

  /** The bytes of an internal key: the user key, the type, and the sequence number in seven bytes, least significant
      first. */
  lemma InternalKeyLayout(key: ParsedInternalKey, k: nat)
    requires key.WellFormed() && k < 7
    ensures var bytes, n := InternalKeyBytes(key), |key.userKey|;
            && bytes[..n] == key.userKey && bytes[n] == key.valueType
            && bytes[n + 1 + k] == key.sequence / Power256(k) % 256
  {
    var packed := Pack(key.sequence, key.valueType);
    FixedByte(packed, 8, 0);
    FixedByte(packed / 256, 7, k);
    assert packed / 256 == key.sequence && packed % 256 == key.valueType;
    assert PutFixed(packed, 8)[1..] == PutFixed(packed / 256, 7);
    assert PutFixed(packed, 8)[1 + k] == PutFixed(packed / 256, 7)[k];
  }

  /** A key that parses is the one that appending the result writes, and the result can be packed. */
  lemma AppendInvertsParse(internalKey: seq<Byte>)
    requires ParseInternalKey(internalKey).Some?
    ensures ParseInternalKey(internalKey).value.WellFormed()
    ensures InternalKeyBytes(ParseInternalKey(internalKey).value) == internalKey
  {
    Power256Values();
    FixedDetermined(internalKey[|internalKey| - 8..]);
    var key := ParseInternalKey(internalKey).value;
    assert Pack(key.sequence, key.valueType) == Tag(internalKey);
  }

  /** User keys ascending, then packed sequence and type descending. */
  function CompareInternal(cmp: Comparator, a: seq<Byte>, b: seq<Byte>): int
    requires |a| >= 8 && |b| >= 8
  {
    var r := cmp(ExtractUserKey(a), ExtractUserKey(b));
    if r == 0 then
      if Tag(a) > Tag(b) then -1 else if Tag(a) < Tag(b) then 1 else r
    else r
  }

  /** The internal order is again a total preorder, for any user comparator that is one, ... */
  lemma InternalOrderIsTotal(cmp: Comparator, a: seq<Byte>, b: seq<Byte>, c: seq<Byte>)
    requires IsComparator(cmp)
    requires |a| >= 8 && |b| >= 8 && |c| >= 8
    ensures CompareInternal(cmp, a, b) < 0 <==> CompareInternal(cmp, b, a) > 0
    ensures CompareInternal(cmp, a, b) <= 0 && CompareInternal(cmp, b, c) <= 0 ==> CompareInternal(cmp, a, c) <= 0
  {
    var x, y, z := ExtractUserKey(a), ExtractUserKey(b), ExtractUserKey(c);
    assert Chain(x, y, z) && Chain(y, z, x) && Chain(z, x, y);
  }

  /** ... and it tells every two keys apart when the user comparator tells user keys apart. */
  lemma InternalOrderSeparates(cmp: Comparator, a: seq<Byte>, b: seq<Byte>)
    requires forall x, y :: cmp(x, y) == 0 ==> x == y
    requires |a| >= 8 && |b| >= 8
    ensures CompareInternal(cmp, a, b) == 0 ==> a == b
  {
    if CompareInternal(cmp, a, b) == 0 {
      assert ExtractUserKey(a) == ExtractUserKey(b) && |a| == |b|;
      FixedDetermined(a[|a| - 8..]);
      FixedDetermined(b[|b| - 8..]);
      assert a == ExtractUserKey(a) + a[|a| - 8..];
      assert b == ExtractUserKey(b) + b[|b| - 8..];
    }
  }

  /** The arithmetic behind seeking: in descending order, an entry comes at or after the seek tag of a
      snapshot exactly when its sequence number is no newer than the snapshot. */
  lemma SeekTagSplitsAtSnapshot(internalKey: seq<Byte>, snapshot: nat)
    requires ParseInternalKey(internalKey).Some? && snapshot <= MAX_SEQUENCE
    ensures ParseInternalKey(internalKey).value.sequence <= snapshot <==>
            Tag(internalKey) <= Pack(snapshot, TYPE_FOR_SEEK)
  {
    var num := Tag(internalKey);
    assert num == 256 * (num / 256) + num % 256;
  }
}

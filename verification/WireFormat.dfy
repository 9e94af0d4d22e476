/** The wire format, as functions: the bytes that a message structure is written as, and what reading bytes
    into a structure gives. */
module WireFormat {
  import opened MachineWords
  import opened FixedWidth
  import opened Varints
  import opened Descriptors

  // ---------- writing ----------

  function WireType(ltype: LType): nat {
    match ltype
    case LFixed32 => 5
    case LFixed64 => 1
    case LBytes => 2
    case LString => 2
    case LSubmessage => 2
    case LFixedLengthBytes => 2
    case _ => 0
  }

  function TagBytes(f: Field, wireType: nat): seq<Byte> {
    EncodeVarint(8 * f.tag + wireType)
  }

  function LengthPrefixed(data: seq<Byte>): seq<Byte> {
    EncodeVarint(|data|) + data
  }

  ghost function ValueBytes(f: Field, v: Value): seq<Byte>
    requires ValidField(f) && Holds(f, v)
    decreases f, 0
  {
    match f.ltype
    case LBool => EncodeVarint(if v.b then 1 else 0)
    case LVarint => SizesFitIn64(f.dataSize); EncodeVarint(ToUnsigned(v.n, TWO_64))
    case LUVarint => EncodeVarint(v.n)
    case LSVarint => SizesFitIn64(f.dataSize); EncodeVarint(Zigzag(v.n))
    case LFixed32 => PutFixed(v.n, 4)
    case LFixed64 => PutFixed(v.n, 8)
    case LSubmessage => LengthPrefixed(MessageBytes(f.sub, v.slots, 0))
    case _ => LengthPrefixed(v.data)
  }

  ghost function ItemsBytes(f: Field, items: seq<Value>): seq<Byte>
    requires ValidField(f) && forall i: nat :: i < |items| ==> Holds(f, items[i])
    decreases f, 1, |items|
  {
    if items == [] then [] else ValueBytes(f, items[0]) + ItemsBytes(f, items[1..])
  }

  ghost function TaggedItemsBytes(f: Field, items: seq<Value>): seq<Byte>
    requires ValidField(f) && forall i: nat :: i < |items| ==> Holds(f, items[i])
    decreases f, 1, |items|
  {
    if items == [] then []
    else TagBytes(f, WireType(f.ltype)) + ValueBytes(f, items[0]) + TaggedItemsBytes(f, items[1..])
  }

  predicate IsPacked(f: Field) {
    f.htype.Repeated? && f.ltype.Packable()
  }

  ghost function SlotBytes(f: Field, slot: Slot): seq<Byte>
    requires ValidField(f) && HoldsSlot(f, slot)
    decreases f, 2
  {
    if IsPacked(f) then
      if slot == [] then [] else TagBytes(f, 2) + LengthPrefixed(ItemsBytes(f, slot))
    else
      TaggedItemsBytes(f, Emitted(f, slot))
  }

  /** The bytes of the fields from i on. */
  ghost function MessageBytes(fs: seq<Field>, slots: seq<Slot>, i: nat): seq<Byte>
    requires ValidFields(fs) && Conforms(fs, slots) && i <= |fs|
    decreases fs, 3, |fs| - i
  {
    if i == |fs| then [] else SlotBytes(fs[i], slots[i]) + MessageBytes(fs, slots, i + 1)
  }

  /** What the writer accepts: arrays no longer than declared, and bytes members within their capacity. */
  ghost predicate Encodable(f: Field, v: Value)
    requires Holds(f, v)
    decreases f, 0
  {
    match f.ltype
    case LBytes => |v.data| + BYTES_OFFSET <= f.dataSize
    case LSubmessage => EncodableMessage(f.sub, v.slots, 0)
    case _ => true
  }

  ghost predicate EncodableSlot(f: Field, slot: Slot)
    requires HoldsSlot(f, slot)
    decreases f, 1
  {
    && (f.htype.Repeated? ==> |slot| <= f.arraySize)
    && forall i: nat :: i < |Emitted(f, slot)| ==> Encodable(f, Emitted(f, slot)[i])
  }

  ghost predicate EncodableMessage(fs: seq<Field>, slots: seq<Slot>, i: nat)
    requires Conforms(fs, slots) && i <= |fs|
    decreases fs, 2
  {
    forall j: nat :: i <= j < |fs| ==> EncodableSlot(fs[j], slots[j])
  }

  lemma SizesFitIn64(size: nat)
    requires size in {1, 2, 4, 8}
    ensures 256 <= Power256(size) <= TWO_64
  {
    Power256Values();
    assert Power256(1) == 256 && Power256(2) == 65536;
  }

  // ---------- reading ----------

  function TakeBytes(bytes: seq<Byte>, n: nat): (p: Parse<seq<Byte>>)
    ensures p.Parsed? ==> |p.value| == n && bytes == p.value + p.rest
  {
    if n <= |bytes| then Parsed(bytes[..n], bytes[n..]) else Failed
  }

  /** A length, and that many bytes. */
  function TakePrefixed(bytes: seq<Byte>): (p: Parse<seq<Byte>>)
    ensures p.Parsed? ==> |p.value| + |p.rest| < |bytes|
  {
    match DecodeVarint32(bytes)
    case Failed => Failed
    case Parsed(n, rest) => TakeBytes(rest, n)
  }

  function SkipVarint(bytes: seq<Byte>): (p: Parse<()>)
    ensures p.Parsed? ==> |p.rest| < |bytes|
  {
    if bytes == [] then Failed
    else if bytes[0] < 128 then Parsed((), bytes[1..])
    else SkipVarint(bytes[1..])
  }

  function SkipField(wireType: nat, bytes: seq<Byte>): (p: Parse<()>)
    ensures p.Parsed? ==> |p.rest| < |bytes|
  {
    match wireType
    case 0 => SkipVarint(bytes)
    case 1 => Skipped(TakeBytes(bytes, 8))
    case 2 => Skipped(TakePrefixed(bytes))
    case 5 => Skipped(TakeBytes(bytes, 4))
    case _ => Failed
  }

  function Skipped(p: Parse<seq<Byte>>): Parse<()> {
    match p case Failed => Failed case Parsed(_, rest) => Parsed((), rest)
  }

  function UpToNul(data: seq<Byte>): seq<Byte> {
    if data == [] || data[0] == 0 then [] else [data[0]] + UpToNul(data[1..])
  }

  function CheckedSigned(n: int, size: nat, rest: seq<Byte>): Parse<Value> {
    if SignedFits(n, size) then Parsed(Number(n), rest) else Failed
  }

  /** Reads one value. A submessage is read on top of what the structure holds already. */
  function ReadValue(f: Field, bytes: seq<Byte>, existing: seq<Slot>): (p: Parse<Value>)
    requires |existing| == |f.sub|
    ensures p.Parsed? ==> |p.rest| < |bytes|
    decreases |bytes|, 0
  {
    match f.ltype
    case LBool => (
      match DecodeVarint32(bytes)
      case Failed => Failed
      case Parsed(v, rest) => Parsed(Flag(v != 0), rest))
    case LVarint => (
      match DecodeVarint(bytes)
      case Failed => Failed
      case Parsed(v, rest) =>
        CheckedSigned(if f.dataSize == 8 then ToSigned(v, TWO_64) else ToSigned(v % TWO_32, TWO_32), f.dataSize, rest))
    case LUVarint => (
      match DecodeVarint(bytes)
      case Failed => Failed
      case Parsed(v, rest) => if UnsignedFits(v, f.dataSize) then Parsed(Number(v), rest) else Failed)
    case LSVarint => (
      match DecodeVarint(bytes)
      case Failed => Failed
      case Parsed(v, rest) => CheckedSigned(Unzigzag(v), f.dataSize, rest))
    case LFixed32 => ReadFixed(bytes, 4)
    case LFixed64 => ReadFixed(bytes, 8)
    case LBytes => (
      match DecodeVarint32(bytes)
      case Failed => Failed
      case Parsed(n, rest) => if n + BYTES_OFFSET > f.dataSize then Failed else AsBlob(TakeBytes(rest, n)))
    case LString => (
      match DecodeVarint32(bytes)
      case Failed => Failed
      case Parsed(n, rest) =>
        if n + 1 > f.dataSize then Failed
        else match TakeBytes(rest, n)
             case Failed => Failed
             case Parsed(data, rest) => Parsed(Blob(UpToNul(data)), rest))
    case LFixedLengthBytes => (
      match DecodeVarint32(bytes)
      case Failed => Failed
      case Parsed(n, rest) =>
        if n == 0 then Parsed(Blob(Zeros(f.dataSize)), rest)
        else if n != f.dataSize then Failed
        else AsBlob(TakeBytes(rest, n)))
    case LSubmessage => (
      match TakePrefixed(bytes)
      case Failed => Failed
      case Parsed(payload, rest) =>
        match ReadMessage(f.sub, payload, existing)
        case Failed => Failed
        case Parsed(slots, _) => Parsed(Message(slots), rest))
  }

  function ReadFixed(bytes: seq<Byte>, width: nat): (p: Parse<Value>)
    requires width > 0
    ensures p.Parsed? ==> |p.rest| < |bytes|
  {
    match TakeBytes(bytes, width)
    case Failed => Failed
    case Parsed(data, rest) => Parsed(Number(GetFixed(data)), rest)
  }

  function AsBlob(p: Parse<seq<Byte>>): Parse<Value> {
    match p case Failed => Failed case Parsed(data, rest) => Parsed(Blob(data), rest)
  }

  /** The entries of a packed array: as many as the payload holds, but no more than the array does. */
  function ReadPacked(f: Field, payload: seq<Byte>, slot: Slot): (p: Parse<Slot>)
    requires f.ltype.Packable()
    decreases |payload|, 1
  {
    if payload == [] then Parsed(slot, [])
    else if |slot| >= f.arraySize then Failed
    else match ReadValue(f, payload, DefaultSlots(f.sub))
         case Failed => Failed
         case Parsed(v, rest) => ReadPacked(f, rest, slot + [v])
  }

  /** What a submessage of a slot is read on top of. */
  function Existing(f: Field, slot: Slot): (slots: seq<Slot>)
    ensures |slots| == |f.sub|
  {
    if slot != [] && slot[0].Message? && |slot[0].slots| == |f.sub| then slot[0].slots else DefaultSlots(f.sub)
  }

  /** Reads one occurrence of a field into its slot. */
  function ReadInto(f: Field, wireType: nat, bytes: seq<Byte>, slot: Slot): (p: Parse<Slot>)
    ensures p.Parsed? ==> |p.rest| < |bytes|
    decreases |bytes|, 2
  {
    if f.htype.Repeated? then
      if wireType == 2 && f.ltype.Packable() then
        match TakePrefixed(bytes)
        case Failed => Failed
        case Parsed(payload, rest) =>
          match ReadPacked(f, payload, slot)
          case Failed => Failed
          case Parsed(items, _) => Parsed(items, rest)
      else if |slot| >= f.arraySize then Failed
      else
        match ReadValue(f, bytes, DefaultSlots(f.sub))
        case Failed => Failed
        case Parsed(v, rest) => Parsed(slot + [v], rest)
    else
      match ReadValue(f, bytes, Existing(f, slot))
      case Failed => Failed
      case Parsed(v, rest) => Parsed([v], rest)
  }

  /** Storing a slot; storing a member of a union overwrites the other members. */
  function Store(fs: seq<Field>, slots: seq<Slot>, i: nat, slot: Slot): (r: seq<Slot>)
    requires |slots| == |fs| && i < |fs|
    ensures |r| == |fs|
  {
    seq(|fs|, j requires 0 <= j < |fs| =>
      if j == i then slot else if SameUnion(fs[i], fs[j]) then [] else slots[j])
  }

  /** The first field with the tag, or the number of fields. */
  function Find(fs: seq<Field>, tag: nat): (i: nat)
    ensures i <= |fs|
    ensures i < |fs| ==> fs[i].tag == tag
    ensures forall j: nat :: j < i ==> fs[j].tag != tag
  {
    if fs == [] then 0
    else if fs[0].tag == tag then 0
    else
      var i := Find(fs[1..], tag);
      assert forall j: nat :: 1 <= j < 1 + i ==> fs[j] == fs[1..][j - 1];
      1 + i
  }

  /** How many of the first i fields are required. */
  function RequiredBefore(fs: seq<Field>, i: nat): (n: nat)
    requires i <= |fs|
    ensures n <= i
  {
    if i == 0 then 0 else RequiredBefore(fs, i - 1) + if fs[i - 1].htype.Required? then 1 else 0
  }

  const MAX_REQUIRED: nat := 64

  function Below(n: nat): (s: set<nat>)
    ensures forall r: nat :: r in s <==> r < n
  {
    if n == 0 then {} else Below(n - 1) + {n - 1}
  }

  function Seen(fs: seq<Field>, seen: set<nat>, i: nat): set<nat>
    requires i < |fs|
  {
    if fs[i].htype.Required? && RequiredBefore(fs, i) < MAX_REQUIRED then seen + {RequiredBefore(fs, i)} else seen
  }

  predicate AllRequiredSeen(fs: seq<Field>, seen: set<nat>) {
    forall r: nat :: r < RequiredBefore(fs, |fs|) && r < MAX_REQUIRED ==> r in seen
  }

  lemma {:induction false} RequiredGrows(fs: seq<Field>, i: nat, j: nat)
    requires i <= j <= |fs|
    ensures RequiredBefore(fs, i) <= RequiredBefore(fs, j)
    ensures i < j && fs[i].htype.Required? ==> RequiredBefore(fs, i) < RequiredBefore(fs, j)
    decreases j
  {
    if i < j {
      RequiredGrows(fs, i, j - 1);
    }
  }

  type State = (seq<Slot>, set<nat>)

  /** The field loop: until the bytes end, or a zero tag. */
  function ReadFields(fs: seq<Field>, bytes: seq<Byte>, slots: seq<Slot>, seen: set<nat>): (p: Parse<State>)
    requires |slots| == |fs|
    ensures p.Parsed? ==> |p.value.0| == |fs|
    decreases |bytes|, 3
  {
    if bytes == [] then Parsed((slots, seen), [])
    else
      match DecodeVarint32(bytes)
      case Failed => Failed
      case Parsed(key, rest) =>
        if key == 0 then Parsed((slots, seen), rest)
        else
          var i := Find(fs, key / 8);
          if i == |fs| then
            match SkipField(key % 8, rest)
            case Failed => Failed
            case Parsed(_, rest) => ReadFields(fs, rest, slots, seen)
          else
            match ReadInto(fs[i], key % 8, rest, slots[i])
            case Failed => Failed
            case Parsed(slot, rest) => ReadFields(fs, rest, Store(fs, slots, i, slot), Seen(fs, seen, i))
  }

  /** Reads a message on top of the given structure. */
  function ReadMessage(fs: seq<Field>, bytes: seq<Byte>, slots: seq<Slot>): (p: Parse<seq<Slot>>)
    requires |slots| == |fs|
    ensures p.Parsed? ==> |p.value| == |fs|
    decreases |bytes|, 4
  {
    match ReadFields(fs, bytes, slots, {})
    case Failed => Failed
    case Parsed((slots, seen), rest) => if AllRequiredSeen(fs, seen) then Parsed(slots, rest) else Failed
  }
}

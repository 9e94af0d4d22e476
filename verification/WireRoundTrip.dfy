/** Reading undoes writing, also for a reader whose descriptors lack some of the writer's fields. */
module WireRoundTrip {
  import opened MachineWords
  import opened FixedWidth
  import opened Varints
  import opened Descriptors
  import opened WireFormat

  /** What a written value needs to be readable again: room for the terminator of a string and for the data of
      a bytes member, and lengths below 2^32. */
  ghost predicate Restorable(f: Field, v: Value)
    requires ValidField(f) && Holds(f, v)
    decreases f, 0
  {
    match f.ltype
    case LBytes => |v.data| + BYTES_OFFSET <= f.dataSize
    case LString => |v.data| + 1 <= f.dataSize
    case LSubmessage => |MessageBytes(f.sub, v.slots, 0)| < TWO_32 && RestorableMessage(f.sub, v.slots)
    case _ => true
  }

  ghost predicate RestorableSlot(f: Field, slot: Slot)
    requires ValidField(f) && HoldsSlot(f, slot)
    decreases f, 1
  {
    && (f.htype.Repeated? ==> |slot| <= f.arraySize)
    && (IsPacked(f) ==> |ItemsBytes(f, slot)| < TWO_32)
    && forall i: nat :: i < |Emitted(f, slot)| ==> Restorable(f, Emitted(f, slot)[i])
  }

  ghost predicate RestorableMessage(fs: seq<Field>, slots: seq<Slot>)
    requires ValidFields(fs) && Conforms(fs, slots)
    decreases fs, 2
  {
    forall i: nat :: i < |fs| ==> RestorableSlot(fs[i], slots[i])
  }

  // ---------- values ----------

  lemma TakeFront(data: seq<Byte>, rest: seq<Byte>)
    ensures TakeBytes(data + rest, |data|) == Parsed(data, rest)
  {
  }

  lemma PrefixedRoundTrip(data: seq<Byte>, rest: seq<Byte>)
    requires |data| < TWO_32
    ensures DecodeVarint32(LengthPrefixed(data) + rest) == Parsed(|data|, data + rest)
    ensures TakePrefixed(LengthPrefixed(data) + rest) == Parsed(data, rest)
  {
    assert LengthPrefixed(data) + rest == EncodeVarint(|data|) + (data + rest);
    Varint32RoundTrip(|data|, data + rest);
    TakeFront(data, rest);
  }

  lemma {:induction false} UpToNulOfText(data: seq<Byte>)
    requires 0 !in data
    ensures UpToNul(data) == data
  {
    if data != [] {
      UpToNulOfText(data[1..]);
    }
  }

  lemma FixedValueRoundTrip(n: nat, width: nat, rest: seq<Byte>)
    requires width > 0 && n < Power256(width)
    ensures ReadFixed(PutFixed(n, width) + rest, width) == Parsed(Number(n), rest)
  {
    TakeFront(PutFixed(n, width), rest);
    FixedRoundTrip(n, width);
  }

  lemma SignedRoundTrip(n: int, size: nat)
    requires size in {1, 2, 4, 8} && SignedFits(n, size)
    ensures -TWO_63 <= n < TWO_63
    ensures ToSigned(ToUnsigned(n, TWO_64), TWO_64) == n
    ensures size != 8 ==> ToSigned(ToUnsigned(n, TWO_64) % TWO_32, TWO_32) == n
  {
    Power256Values();
    assert Power256(1) == 256 && Power256(2) == 65536;
  }

  lemma IntegerRoundTrip(f: Field, v: Value, rest: seq<Byte>)
    requires ValidField(f) && Holds(f, v) && f.ltype.Integer()
    ensures ReadValue(f, ValueBytes(f, v) + rest, DefaultSlots(f.sub)) == Parsed(v, rest)
  {
    SizesFitIn64(f.dataSize);
    match f.ltype {
      case LVarint =>
        SignedRoundTrip(v.n, f.dataSize);
        VarintRoundTrip(ToUnsigned(v.n, TWO_64), rest);
      case LUVarint =>
        VarintRoundTrip(v.n, rest);
      case LSVarint =>
        SignedRoundTrip(v.n, f.dataSize);
        ZigzagRoundTrip(v.n);
        VarintRoundTrip(Zigzag(v.n), rest);
    }
  }

  lemma BlobRoundTrip(f: Field, v: Value, rest: seq<Byte>)
    requires ValidField(f) && Holds(f, v) && Restorable(f, v)
    requires f.ltype.LBytes? || f.ltype.LString? || f.ltype.LFixedLengthBytes?
    ensures ReadValue(f, ValueBytes(f, v) + rest, DefaultSlots(f.sub)) == Parsed(v, rest)
  {
    PrefixedRoundTrip(v.data, rest);
    TakeFront(v.data, rest);
    if f.ltype.LString? {
      UpToNulOfText(v.data);
    }
    if v.data == [] {
      assert v.data == Zeros(0) && v.data + rest == rest;
    }
  }

  /** Reading undoes writing, value by value, whatever follows. */
  lemma {:induction false} ValueRoundTrip(f: Field, v: Value, rest: seq<Byte>)
    requires ValidField(f) && Holds(f, v) && Restorable(f, v)
    ensures ReadValue(f, ValueBytes(f, v) + rest, DefaultSlots(f.sub)) == Parsed(v, rest)
    decreases f.sub, 4
  {
    match f.ltype {
      case LBool => Varint32RoundTrip(if v.b then 1 else 0, rest);
      case LFixed32 => FixedValueRoundTrip(v.n, 4, rest);
      case LFixed64 => FixedValueRoundTrip(v.n, 8, rest);
      case LSubmessage =>
        PrefixedRoundTrip(MessageBytes(f.sub, v.slots, 0), rest);
        MessageRoundTrip(f.sub, v.slots);
      case LBytes => BlobRoundTrip(f, v, rest);
      case LString => BlobRoundTrip(f, v, rest);
      case LFixedLengthBytes => BlobRoundTrip(f, v, rest);
      case _ => IntegerRoundTrip(f, v, rest);
    }
  }

  lemma {:induction false} PackedRoundTrip(f: Field, items: seq<Value>, slot: Slot)
    requires ValidField(f) && f.ltype.Packable()
    requires forall i: nat :: i < |items| ==> Holds(f, items[i])
    requires |slot| + |items| <= f.arraySize
    ensures ReadPacked(f, ItemsBytes(f, items), slot) == Parsed(slot + items, [])
    decreases f.sub, 5, |items|
  {
    if items != [] {
      ValueRoundTrip(f, items[0], ItemsBytes(f, items[1..]));
      PackedRoundTrip(f, items[1..], slot + [items[0]]);
      assert slot + [items[0]] + items[1..] == slot + items;
    } else {
      assert slot + items == slot;
    }
  }

  // ---------- skipping ----------

  lemma {:induction false} SkipVarintSkips(v: nat, rest: seq<Byte>)
    ensures SkipVarint(EncodeVarint(v) + rest) == Parsed((), rest)
    decreases v
  {
    assert (EncodeVarint(v) + rest)[1..] == if v < 128 then rest else EncodeVarint(v / 128) + rest;
    if v >= 128 {
      SkipVarintSkips(v / 128, rest);
    }
  }

  /** A skip takes exactly one written value. */
  lemma SkipFieldSkips(f: Field, v: Value, rest: seq<Byte>)
    requires ValidField(f) && Holds(f, v) && Restorable(f, v)
    ensures SkipField(WireType(f.ltype), ValueBytes(f, v) + rest) == Parsed((), rest)
  {
    match f.ltype {
      case LBool => SkipVarintSkips(if v.b then 1 else 0, rest);
      case LVarint => SizesFitIn64(f.dataSize); SkipVarintSkips(ToUnsigned(v.n, TWO_64), rest);
      case LUVarint => SkipVarintSkips(v.n, rest);
      case LSVarint => SizesFitIn64(f.dataSize); SkipVarintSkips(Zigzag(v.n), rest);
      case LFixed32 => TakeFront(PutFixed(v.n, 4), rest);
      case LFixed64 => TakeFront(PutFixed(v.n, 8), rest);
      case LSubmessage => PrefixedRoundTrip(MessageBytes(f.sub, v.slots, 0), rest);
      case _ => PrefixedRoundTrip(v.data, rest);
    }
  }

  // ---------- one field ----------

  lemma TagRoundTrip(f: Field, wireType: nat, rest: seq<Byte>)
    requires ValidField(f) && wireType < 8
    ensures DecodeVarint32(TagBytes(f, wireType) + rest) == Parsed(8 * f.tag + wireType, rest)
    ensures TagBytes(f, wireType) + rest != []
  {
    Varint32RoundTrip(8 * f.tag + wireType, rest);
  }

  lemma FindOwn(ks: seq<Field>, c: nat)
    requires ValidFields(ks) && c < |ks|
    ensures Find(ks, ks[c].tag) == c
  {
    assert !(Find(ks, ks[c].tag) < c);
  }

  /** One occurrence of field c updates its slot. */
  lemma OneOccurrence(ks: seq<Field>, c: nat, wireType: nat, body: seq<Byte>, tail: seq<Byte>,
                      state: seq<Slot>, seen: set<nat>, slot: Slot)
    requires ValidFields(ks) && c < |ks| == |state| && wireType < 8
    requires ReadInto(ks[c], wireType, body + tail, state[c]) == Parsed(slot, tail)
    ensures ReadFields(ks, TagBytes(ks[c], wireType) + body + tail, state, seen) ==
            ReadFields(ks, tail, Store(ks, state, c, slot), Seen(ks, seen, c))
  {
    hide ReadInto, SkipField, Store, Seen;
    assert TagBytes(ks[c], wireType) + body + tail == TagBytes(ks[c], wireType) + (body + tail);
    TagRoundTrip(ks[c], wireType, body + tail);
    FindOwn(ks, c);
  }

  /** An occurrence of a field the reader does not know changes nothing. */
  lemma UnknownOccurrence(ks: seq<Field>, f: Field, wireType: nat, body: seq<Byte>, tail: seq<Byte>,
                          state: seq<Slot>, seen: set<nat>)
    requires ValidField(f) && |ks| == |state| && wireType < 8
    requires forall j: nat :: j < |ks| ==> ks[j].tag != f.tag
    requires SkipField(wireType, body + tail) == Parsed((), tail)
    ensures ReadFields(ks, TagBytes(f, wireType) + body + tail, state, seen) == ReadFields(ks, tail, state, seen)
  {
    hide ReadInto, SkipField, Store, Seen;
    assert TagBytes(f, wireType) + body + tail == TagBytes(f, wireType) + (body + tail);
    TagRoundTrip(f, wireType, body + tail);
    assert Find(ks, f.tag) == |ks|;
  }

  /** No other member of the field's union holds anything. */
  ghost predicate UnionFree(ks: seq<Field>, state: seq<Slot>, c: nat)
    requires c < |ks| == |state|
  {
    forall j: nat :: j < |ks| && j != c && SameUnion(ks[c], ks[j]) ==> state[j] == []
  }

  lemma StoreAlone(ks: seq<Field>, state: seq<Slot>, c: nat, slot: Slot)
    requires c < |ks| == |state| && UnionFree(ks, state, c)
    ensures Store(ks, state, c, slot) == state[c := slot]
  {
  }

  lemma AppendRest(state: seq<Slot>, c: nat, items: seq<Value>)
    requires c < |state| && items != []
    ensures var slot := state[c] + [items[0]];
            state[c := slot][c := state[c := slot][c] + items[1..]] == state[c := state[c] + items]
  {
    assert state[c] + [items[0]] + items[1..] == state[c] + items;
  }

  lemma ItemRead(ks: seq<Field>, c: nat, f: Field, v: Value, tail: seq<Byte>, state: seq<Slot>, seen: set<nat>)
    requires ValidFields(ks) && c < |ks| == |state| && f == ks[c]
    requires f.htype.Repeated? && |state[c]| < f.arraySize
    requires Holds(f, v) && Restorable(f, v)
    ensures ReadFields(ks, TagBytes(f, WireType(f.ltype)) + ValueBytes(f, v) + tail, state, seen) ==
            ReadFields(ks, tail, state[c := state[c] + [v]], seen)
    decreases f.sub, 5
  {
    hide ReadFields, ValueBytes;
    ValueRoundTrip(f, v, tail);
    OneOccurrence(ks, c, WireType(f.ltype), ValueBytes(f, v), tail, state, seen, state[c] + [v]);
    StoreAlone(ks, state, c, state[c] + [v]);
  }

  /** Items that arrive one by one are appended to what the array holds, whether or not the type could be packed. */
  lemma {:induction false} ItemsRead(ks: seq<Field>, c: nat, f: Field, items: seq<Value>, tail: seq<Byte>,
                                     state: seq<Slot>, seen: set<nat>)
    requires ValidFields(ks) && c < |ks| == |state| && f == ks[c]
    requires f.htype.Repeated? && |state[c]| + |items| <= f.arraySize
    requires forall i: nat :: i < |items| ==> Holds(f, items[i]) && Restorable(f, items[i])
    ensures ReadFields(ks, TaggedItemsBytes(f, items) + tail, state, seen) ==
            ReadFields(ks, tail, state[c := state[c] + items], seen)
    decreases f.sub, 6, |items|
  {
    if items == [] {
      NoItems(f, tail, state, c);
    } else {
      var more := TaggedItemsBytes(f, items[1..]) + tail;
      FirstItem(f, items, tail);
      ItemRead(ks, c, f, items[0], more, state, seen);
      AppendRest(state, c, items);
      hide ReadFields, TaggedItemsBytes, ValidFields;
      ItemsRead(ks, c, f, items[1..], tail, state[c := state[c] + [items[0]]], seen);
    }
  }

  lemma NoItems(f: Field, tail: seq<Byte>, state: seq<Slot>, c: nat)
    requires ValidField(f) && c < |state|
    ensures TaggedItemsBytes(f, []) + tail == tail && state[c := state[c] + []] == state
  {
    assert state[c] + [] == state[c];
  }

  lemma {:induction false} FirstItem(f: Field, items: seq<Value>, tail: seq<Byte>)
    requires ValidField(f) && items != [] && forall i: nat :: i < |items| ==> Holds(f, items[i])
    ensures TaggedItemsBytes(f, items) + tail ==
            TagBytes(f, WireType(f.ltype)) + ValueBytes(f, items[0]) + (TaggedItemsBytes(f, items[1..]) + tail)
    ensures |ValueBytes(f, items[0])| + |TaggedItemsBytes(f, items[1..])| <= |TaggedItemsBytes(f, items)|
  {
    hide ValueBytes, Holds, ValidField, TagBytes;
    var head, body, more := TagBytes(f, WireType(f.ltype)), ValueBytes(f, items[0]), TaggedItemsBytes(f, items[1..]);
    assert TaggedItemsBytes(f, items) == head + body + more;
    assert head + body + more + tail == head + body + (more + tail);
  }

  /** Reading what was written for a slot fills that slot. */
  lemma SlotRead(ks: seq<Field>, c: nat, f: Field, slot: Slot, tail: seq<Byte>, state: seq<Slot>, seen: set<nat>)
    requires ValidFields(ks) && c < |ks| == |state| && f == ks[c]
    requires HoldsSlot(f, slot) && RestorableSlot(f, slot)
    requires state[c] == DefaultSlot(f) && (slot == [] || UnionFree(ks, state, c))
    ensures ReadFields(ks, SlotBytes(f, slot) + tail, state, seen) ==
            ReadFields(ks, tail, state[c := slot], Seen(ks, seen, c))
    decreases f.sub, 7
  {
    if IsPacked(f) && slot != [] {
      PackedSlotRead(ks, c, f, slot, tail, state, seen);
    } else if f.htype.Repeated? {
      if slot == [] {
        assert SlotBytes(f, slot) + tail == tail && state[c := slot] == state;
      } else {
        forall i: nat | i < |slot| ensures Holds(f, slot[i]) && Restorable(f, slot[i]) {
          assert Restorable(f, Emitted(f, slot)[i]);
        }
        ItemsRead(ks, c, f, slot, tail, state, seen);
        assert state[c] + slot == slot;
      }
    } else if Emitted(f, slot) == [] {
      if f.htype.Singular? {
        DefaultValueIsZero(f, slot[0]);
        assert slot == [slot[0]];
      }
      assert SlotBytes(f, slot) + tail == tail && state[c := slot] == state;
    } else {
      SingleSlotRead(ks, c, f, slot, tail, state, seen);
    }
  }

  lemma PackedSlotRead(ks: seq<Field>, c: nat, f: Field, slot: Slot, tail: seq<Byte>, state: seq<Slot>, seen: set<nat>)
    requires ValidFields(ks) && c < |ks| == |state| && f == ks[c]
    requires HoldsSlot(f, slot) && RestorableSlot(f, slot) && IsPacked(f) && slot != []
    requires state[c] == []
    ensures ReadFields(ks, SlotBytes(f, slot) + tail, state, seen) == ReadFields(ks, tail, state[c := slot], seen)
    decreases f.sub, 6
  {
    var body := LengthPrefixed(ItemsBytes(f, slot));
    PrefixedRoundTrip(ItemsBytes(f, slot), tail);
    PackedRoundTrip(f, slot, []);
    assert [] + slot == slot;
    OneOccurrence(ks, c, 2, body, tail, state, seen, slot);
    StoreAlone(ks, state, c, slot);
  }

  lemma SingleSlotRead(ks: seq<Field>, c: nat, f: Field, slot: Slot, tail: seq<Byte>, state: seq<Slot>, seen: set<nat>)
    requires ValidFields(ks) && c < |ks| == |state| && f == ks[c] && !f.htype.Repeated?
    requires HoldsSlot(f, slot) && RestorableSlot(f, slot) && Emitted(f, slot) != []
    requires state[c] == DefaultSlot(f) && UnionFree(ks, state, c)
    ensures ReadFields(ks, SlotBytes(f, slot) + tail, state, seen) ==
            ReadFields(ks, tail, state[c := slot], Seen(ks, seen, c))
    decreases f.sub, 5
  {
    var wt, body := WireType(f.ltype), ValueBytes(f, slot[0]);
    assert slot == [slot[0]] && slot[1..] == [] && Emitted(f, slot) == slot;
    assert TaggedItemsBytes(f, []) == [];
    assert SlotBytes(f, slot) == TagBytes(f, wt) + body;
    assert Existing(f, state[c]) == DefaultSlots(f.sub);
    ValueRoundTrip(f, slot[0], tail);
    OneOccurrence(ks, c, wt, body, tail, state, seen, slot);
    StoreAlone(ks, state, c, slot);
  }

  lemma {:induction false} ItemsSkipped(ks: seq<Field>, f: Field, items: seq<Value>, tail: seq<Byte>,
                                        state: seq<Slot>, seen: set<nat>)
    requires ValidField(f) && |ks| == |state|
    requires forall j: nat :: j < |ks| ==> ks[j].tag != f.tag
    requires forall i: nat :: i < |items| ==> Holds(f, items[i]) && Restorable(f, items[i])
    ensures ReadFields(ks, TaggedItemsBytes(f, items) + tail, state, seen) == ReadFields(ks, tail, state, seen)
    decreases |items|
  {
    if items == [] {
      assert TaggedItemsBytes(f, items) + tail == tail;
    } else {
      var wt, body, more := WireType(f.ltype), ValueBytes(f, items[0]), TaggedItemsBytes(f, items[1..]) + tail;
      FirstItem(f, items, tail);
      SkipFieldSkips(f, items[0], more);
      UnknownOccurrence(ks, f, wt, body, more, state, seen);
      ItemsSkipped(ks, f, items[1..], tail, state, seen);
    }
  }

  lemma SlotSkipped(ks: seq<Field>, f: Field, slot: Slot, tail: seq<Byte>, state: seq<Slot>, seen: set<nat>)
    requires ValidField(f) && |ks| == |state| && HoldsSlot(f, slot) && RestorableSlot(f, slot)
    requires forall j: nat :: j < |ks| ==> ks[j].tag != f.tag
    ensures ReadFields(ks, SlotBytes(f, slot) + tail, state, seen) == ReadFields(ks, tail, state, seen)
  {
    if IsPacked(f) {
      if slot == [] {
        assert SlotBytes(f, slot) + tail == tail;
      } else {
        PrefixedRoundTrip(ItemsBytes(f, slot), tail);
        UnknownOccurrence(ks, f, 2, LengthPrefixed(ItemsBytes(f, slot)), tail, state, seen);
      }
    } else {
      ItemsSkipped(ks, f, Emitted(f, slot), tail, state, seen);
    }
  }

  // ---------- whole messages ----------

  /** The same field in two structures: it may be at another place. */
  ghost predicate Alike(f: Field, g: Field) {
    g == f.(dataOffset := g.dataOffset)
  }

  lemma AlikeHolds(f: Field, g: Field, slot: Slot)
    requires ValidField(f) && Alike(f, g)
    ensures ValidField(g) && HoldsSlot(g, slot) == HoldsSlot(f, slot) && DefaultSlot(g) == DefaultSlot(f)
    ensures Emitted(g, slot) == Emitted(f, slot)
    ensures forall v :: Holds(g, v) == Holds(f, v)
  {
    if slot != [] {
      assert ValueIsDefault(g, slot[0]) == ValueIsDefault(f, slot[0]);
    }
  }

  lemma {:induction false} AlikeItems(f: Field, g: Field, items: seq<Value>)
    requires ValidField(f) && ValidField(g) && Alike(f, g)
    requires forall i: nat :: i < |items| ==> Holds(f, items[i]) && Holds(g, items[i])
    ensures ItemsBytes(g, items) == ItemsBytes(f, items) && TaggedItemsBytes(g, items) == TaggedItemsBytes(f, items)
  {
    if items != [] {
      assert ValueBytes(g, items[0]) == ValueBytes(f, items[0]);
      hide ValueBytes, Holds;
      AlikeItems(f, g, items[1..]);
    }
  }

  /** Where a field is in the structure does not matter for what is written. */
  lemma AlikeBytes(f: Field, g: Field, slot: Slot)
    requires ValidField(f) && Alike(f, g) && HoldsSlot(f, slot)
    ensures ValidField(g) && HoldsSlot(g, slot) && DefaultSlot(g) == DefaultSlot(f)
    ensures SlotBytes(g, slot) == SlotBytes(f, slot) && RestorableSlot(g, slot) == RestorableSlot(f, slot)
  {
    AlikeHolds(f, g, slot);
    AlikeItems(f, g, slot);
    AlikeItems(f, g, Emitted(f, slot));
    hide ValueBytes, ItemsBytes, TaggedItemsBytes, Holds, Emitted, DefaultSlot;
    forall v | Holds(f, v) ensures Restorable(g, v) == Restorable(f, v) {
    }
  }

  /** The reader's fields are those of the writer, in any order, some left out, and others that the writer does not
      have. */
  ghost predicate Compatible(fs: seq<Field>, ks: seq<Field>) {
    forall c: nat :: c < |ks| && Find(fs, ks[c].tag) < |fs| ==> Alike(fs[Find(fs, ks[c].tag)], ks[c])
  }

  /** The reader's structure once the writer's first i fields are read. */
  ghost function Partial(fs: seq<Field>, slots: seq<Slot>, ks: seq<Field>, i: nat): (p: seq<Slot>)
    requires |slots| == |fs|
    ensures |p| == |ks|
  {
    seq(|ks|, c requires 0 <= c < |ks| => PartialSlot(fs, slots, ks[c], i))
  }

  ghost function PartialSlot(fs: seq<Field>, slots: seq<Slot>, g: Field, i: nat): Slot
    requires |slots| == |fs|
  {
    var at := Find(fs, g.tag);
    if at < i && at < |fs| then slots[at] else DefaultSlot(g)
  }

  /** The message as the reader should see it: fields that were not written have their defaults. */
  ghost function Projected(fs: seq<Field>, slots: seq<Slot>, ks: seq<Field>): seq<Slot>
    requires |slots| == |fs|
  {
    seq(|ks|, c requires 0 <= c < |ks| =>
      if Find(fs, ks[c].tag) < |fs| then slots[Find(fs, ks[c].tag)] else DefaultSlot(ks[c]))
  }

  /** A required field that the decoder records, and that is among the writer's first i. */
  ghost predicate Records(fs: seq<Field>, ks: seq<Field>, c: nat, i: nat) {
    c < |ks| && ks[c].htype.Required? && RequiredBefore(ks, c) < MAX_REQUIRED && Find(fs, ks[c].tag) < i
  }

  /** The bits set once the writer's first i fields are read. */
  ghost function SeenBefore(fs: seq<Field>, ks: seq<Field>, i: nat): set<nat> {
    set c | 0 <= c < |ks| && Records(fs, ks, c, i) :: RequiredBefore(ks, c)
  }

  lemma OnlyOneHasTag(ks: seq<Field>, c: nat, d: nat)
    requires ValidFields(ks) && c < |ks| && d < |ks| && ks[c].tag == ks[d].tag
    ensures c == d
  {
  }

  lemma RecordsNext(fs: seq<Field>, ks: seq<Field>, i: nat, c: nat, d: nat)
    requires ValidFields(ks) && c < |ks| && i < |fs| && Find(fs, ks[c].tag) == i && d < |ks|
    ensures Records(fs, ks, d, i + 1)
       <==> Records(fs, ks, d, i) || (d == c && ks[c].htype.Required? && RequiredBefore(ks, c) < MAX_REQUIRED)
  {
    if Find(fs, ks[d].tag) == i {
      OnlyOneHasTag(ks, c, d);
    }
  }

  lemma SeenNext(fs: seq<Field>, ks: seq<Field>, i: nat, c: nat)
    requires ValidFields(ks) && c < |ks| && i < |fs| && Find(fs, ks[c].tag) == i
    ensures Seen(ks, SeenBefore(fs, ks, i), c) == SeenBefore(fs, ks, i + 1)
  {
    forall d: nat | d < |ks|
      ensures Records(fs, ks, d, i + 1)
         <==> Records(fs, ks, d, i) || (d == c && ks[c].htype.Required? && RequiredBefore(ks, c) < MAX_REQUIRED)
    {
      RecordsNext(fs, ks, i, c, d);
    }
    hide Records, ValidFields, Find;
  }

  lemma SeenSkips(fs: seq<Field>, ks: seq<Field>, i: nat)
    requires i < |fs| && Find(ks, fs[i].tag) == |ks|
    ensures SeenBefore(fs, ks, i) == SeenBefore(fs, ks, i + 1)
  {
    forall c: nat | c < |ks| ensures Records(fs, ks, c, i) == Records(fs, ks, c, i + 1) {
      assert ks[c].tag != fs[i].tag;
    }
    hide Records, Find;
  }

  lemma PartialNext(fs: seq<Field>, slots: seq<Slot>, ks: seq<Field>, i: nat, c: nat)
    requires ValidFields(ks) && |slots| == |fs| && c < |ks| && i < |fs| && Find(fs, ks[c].tag) == i
    ensures Partial(fs, slots, ks, i)[c := slots[i]] == Partial(fs, slots, ks, i + 1)
    ensures Partial(fs, slots, ks, i)[c] == DefaultSlot(ks[c])
  {
    forall d: nat | d < |ks| && d != c ensures Find(fs, ks[d].tag) != i {
      if Find(fs, ks[d].tag) == i {
        OnlyOneHasTag(ks, c, d);
      }
    }
    hide Find, ValidFields, DefaultSlot;
  }

  lemma PartialSkips(fs: seq<Field>, slots: seq<Slot>, ks: seq<Field>, i: nat)
    requires |slots| == |fs| && i < |fs| && Find(ks, fs[i].tag) == |ks|
    ensures Partial(fs, slots, ks, i) == Partial(fs, slots, ks, i + 1)
  {
    forall c: nat | c < |ks| ensures Find(fs, ks[c].tag) != i {
      assert ks[c].tag != fs[i].tag;
    }
    hide Find, DefaultSlot;
  }

  lemma PartialUnionFree(fs: seq<Field>, slots: seq<Slot>, ks: seq<Field>, i: nat, c: nat)
    requires ValidFields(ks) && Conforms(fs, slots) && Compatible(fs, ks)
    requires c < |ks| && i < |fs| && Find(fs, ks[c].tag) == i && slots[i] != []
    ensures UnionFree(ks, Partial(fs, slots, ks, i), c)
  {
    var state := Partial(fs, slots, ks, i);
    forall j: nat | j < |ks| && j != c && SameUnion(ks[c], ks[j]) ensures state[j] == [] {
      var k := Find(fs, ks[j].tag);
      if k < i {
        assert Alike(fs[k], ks[j]) && Alike(fs[i], ks[c]);
        assert SameUnion(fs[k], fs[i]);
      }
    }
  }

  /** Field i of the writer, which is field c of the reader. */
  lemma KnownFieldRead(fs: seq<Field>, slots: seq<Slot>, ks: seq<Field>, i: nat, c: nat)
    requires ValidFields(fs) && Conforms(fs, slots) && ValidFields(ks) && Compatible(fs, ks)
    requires c < |ks| && i < |fs| && Find(fs, ks[c].tag) == i && RestorableSlot(fs[i], slots[i])
    ensures ReadFields(ks, MessageBytes(fs, slots, i), Partial(fs, slots, ks, i), SeenBefore(fs, ks, i)) ==
            ReadFields(ks, MessageBytes(fs, slots, i + 1), Partial(fs, slots, ks, i + 1), SeenBefore(fs, ks, i + 1))
    decreases fs, 0
  {
    var state, g := Partial(fs, slots, ks, i), ks[c];
    assert Alike(fs[i], g);
    AlikeBytes(fs[i], g, slots[i]);
    if slots[i] != [] {
      PartialUnionFree(fs, slots, ks, i, c);
    }
    PartialNext(fs, slots, ks, i, c);
    SeenNext(fs, ks, i, c);
    hide ReadFields, SlotBytes, Partial, SeenBefore, RestorableSlot, HoldsSlot, UnionFree, Find, Compatible;
    SlotRead(ks, c, g, slots[i], MessageBytes(fs, slots, i + 1), state, SeenBefore(fs, ks, i));
  }

  /** Field i of the writer, which the reader does not have. */
  lemma UnknownFieldRead(fs: seq<Field>, slots: seq<Slot>, ks: seq<Field>, i: nat, seen: set<nat>)
    requires ValidFields(fs) && Conforms(fs, slots) && RestorableMessage(fs, slots)
    requires i < |fs| && Find(ks, fs[i].tag) == |ks|
    ensures ReadFields(ks, MessageBytes(fs, slots, i), Partial(fs, slots, ks, i), seen) ==
            ReadFields(ks, MessageBytes(fs, slots, i + 1), Partial(fs, slots, ks, i + 1), seen)
  {
    var state := Partial(fs, slots, ks, i);
    PartialSkips(fs, slots, ks, i);
    SlotOfRestorable(fs, slots, i);
    hide ReadFields, SlotBytes, RestorableMessage, Partial;
    SlotSkipped(ks, fs[i], slots[i], MessageBytes(fs, slots, i + 1), state, seen);
  }

  lemma AllRead(fs: seq<Field>, slots: seq<Slot>, ks: seq<Field>)
    requires ValidFields(fs) && Conforms(fs, slots)
    ensures ReadFields(ks, MessageBytes(fs, slots, |fs|), Partial(fs, slots, ks, |fs|), SeenBefore(fs, ks, |fs|)) ==
            Parsed((Projected(fs, slots, ks), SeenBefore(fs, ks, |fs|)), [])
  {
    assert Partial(fs, slots, ks, |fs|) == Projected(fs, slots, ks);
  }

  lemma SlotOfRestorable(fs: seq<Field>, slots: seq<Slot>, i: nat)
    requires ValidFields(fs) && Conforms(fs, slots) && RestorableMessage(fs, slots) && i < |fs|
    ensures RestorableSlot(fs[i], slots[i])
  {
  }

  /** The main induction. */
  lemma {:induction false} RestRead(fs: seq<Field>, slots: seq<Slot>, ks: seq<Field>, i: nat)
    requires ValidFields(fs) && Conforms(fs, slots) && RestorableMessage(fs, slots)
    requires ValidFields(ks) && Compatible(fs, ks) && i <= |fs|
    ensures ReadFields(ks, MessageBytes(fs, slots, i), Partial(fs, slots, ks, i), SeenBefore(fs, ks, i)) ==
            Parsed((Projected(fs, slots, ks), SeenBefore(fs, ks, |fs|)), [])
    decreases fs, 1, |fs| - i
  {
    hide ReadFields, MessageBytes, SeenBefore, Partial, Projected, RestorableMessage, ValidFields, Compatible;
    if i == |fs| {
      AllRead(fs, slots, ks);
    } else {
      var c := Find(ks, fs[i].tag);
      if c < |ks| {
        SlotOfRestorable(fs, slots, i);
        FindOwn(fs, i);
        KnownFieldRead(fs, slots, ks, i, c);
      } else {
        UnknownFieldRead(fs, slots, ks, i, SeenBefore(fs, ks, i));
        SeenSkips(fs, ks, i);
      }
      RestRead(fs, slots, ks, i + 1);
    }
  }

  /** The reader demands a field that the writer does not have; only the first required fields are checked. */
  ghost predicate DemandsMore(fs: seq<Field>, ks: seq<Field>) {
    exists c: nat :: c < |ks| && IsMissing(fs, ks, c)
  }

  ghost predicate IsMissing(fs: seq<Field>, ks: seq<Field>, c: nat)
    requires c < |ks|
  {
    ks[c].htype.Required? && RequiredBefore(ks, c) < 64 && Find(fs, ks[c].tag) == |fs|
  }

  lemma {:induction false} NthRequired(ks: seq<Field>, r: nat, n: nat) returns (c: nat)
    requires n <= |ks| && r < RequiredBefore(ks, n)
    ensures c < n && ks[c].htype.Required? && RequiredBefore(ks, c) == r
  {
    if r < RequiredBefore(ks, n - 1) {
      c := NthRequired(ks, r, n - 1);
    } else {
      c := n - 1;
    }
  }

  lemma RequiredDiffer(ks: seq<Field>, c: nat, d: nat)
    requires c < |ks| && d < |ks| && ks[c].htype.Required? && ks[d].htype.Required?
    requires RequiredBefore(ks, c) == RequiredBefore(ks, d)
    ensures c == d
  {
    if c < d {
      RequiredGrows(ks, c, d);
    } else if d < c {
      RequiredGrows(ks, d, c);
    }
  }

  lemma SeenExactly(fs: seq<Field>, ks: seq<Field>)
    ensures AllRequiredSeen(ks, SeenBefore(fs, ks, |fs|)) <==> !DemandsMore(fs, ks)
  {
    var seen := SeenBefore(fs, ks, |fs|);
    if DemandsMore(fs, ks) {
      var c: nat :| c < |ks| && IsMissing(fs, ks, c);
      RequiredGrows(ks, c, |ks|);
      assert RequiredBefore(ks, c) !in seen by {
        if RequiredBefore(ks, c) in seen {
          var d: nat :| d < |ks| && Records(fs, ks, d, |fs|) && RequiredBefore(ks, d) == RequiredBefore(ks, c);
          RequiredDiffer(ks, c, d);
        }
      }
    } else {
      forall r: nat | r < RequiredBefore(ks, |ks|) && r < MAX_REQUIRED ensures r in seen {
        var c := NthRequired(ks, r, |ks|);
        assert !IsMissing(fs, ks, c) && Records(fs, ks, c, |fs|);
      }
    }
  }

  lemma NothingRead(fs: seq<Field>, slots: seq<Slot>, ks: seq<Field>)
    requires |slots| == |fs|
    ensures Partial(fs, slots, ks, 0) == DefaultSlots(ks) && SeenBefore(fs, ks, 0) == {}
  {
  }

  /** A reader whose fields are in another order, that lacks some of the writer's and has others of its own, gets the
      fields it shares with the writer, and defaults for the others: unknown fields are harmless. It refuses the message
      exactly if it requires a field that the writer does not have. */
  lemma {:induction false} Projection(fs: seq<Field>, slots: seq<Slot>, ks: seq<Field>)
    requires ValidFields(fs) && Conforms(fs, slots) && RestorableMessage(fs, slots)
    requires ValidFields(ks) && Compatible(fs, ks)
    ensures ReadMessage(ks, MessageBytes(fs, slots, 0), DefaultSlots(ks)) ==
            if DemandsMore(fs, ks) then Failed else Parsed(Projected(fs, slots, ks), [])
    decreases fs, 2
  {
    RestRead(fs, slots, ks, 0);
    NothingRead(fs, slots, ks);
    SeenExactly(fs, ks);
    hide ReadFields, MessageBytes, Partial, SeenBefore, Projected, AllRequiredSeen, DemandsMore;
  }

  lemma SameReader(fs: seq<Field>, slots: seq<Slot>)
    requires ValidFields(fs) && |slots| == |fs|
    ensures Compatible(fs, fs) && !DemandsMore(fs, fs) && Projected(fs, slots, fs) == slots
  {
    forall c: nat | c < |fs| ensures Find(fs, fs[c].tag) == c {
      FindOwn(fs, c);
    }
    hide Find, ValidFields;
  }

  /** Reading what was written gives the message back. */
  lemma MessageRoundTrip(fs: seq<Field>, slots: seq<Slot>)
    requires ValidFields(fs) && Conforms(fs, slots) && RestorableMessage(fs, slots)
    ensures ReadMessage(fs, MessageBytes(fs, slots, 0), DefaultSlots(fs)) == Parsed(slots, [])
    decreases fs, 3
  {
    Projection(fs, slots, fs);
    SameReader(fs, slots);
  }
}

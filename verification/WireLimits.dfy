/** Exactly which written messages can be read back. */
module WireLimits {
  import opened MachineWords
  import opened FixedWidth
  import opened Varints
  import opened Descriptors
  import opened WireFormat
  import opened WireRoundTrip

  lemma LongPrefixRejected(data: seq<Byte>, rest: seq<Byte>)
    requires TWO_32 <= |data| < TWO_63
    ensures TakePrefixed(LengthPrefixed(data) + rest) == Failed
  {
    assert LengthPrefixed(data) + rest == EncodeVarint(|data|) + (data + rest);
    Varint32Rejects(|data|, data + rest);
  }

  /** A value that is not restorable stops the reader: a string that fills its buffer without a terminator,
      a submessage of 4 GiB or more, or one that holds such a value. */
  lemma {:induction false} ValueUnread(f: Field, v: Value, rest: seq<Byte>)
    requires ValidField(f) && Holds(f, v) && Encodable(f, v) && !Restorable(f, v)
    requires |ValueBytes(f, v)| < TWO_63
    ensures ReadValue(f, ValueBytes(f, v) + rest, DefaultSlots(f.sub)) == Failed
    decreases f, 0
  {
    if f.ltype.LString? {
      PrefixedRoundTrip(v.data, rest);
    } else {
      var payload := MessageBytes(f.sub, v.slots, 0);
      if |payload| >= TWO_32 {
        LongPrefixRejected(payload, rest);
      } else {
        PrefixedRoundTrip(payload, rest);
        MessageUnread(f.sub, v.slots);
      }
    }
  }

  lemma FailedOccurrence(ks: seq<Field>, c: nat, wireType: nat, body: seq<Byte>, tail: seq<Byte>,
                         state: seq<Slot>, seen: set<nat>)
    requires ValidFields(ks) && c < |ks| == |state| && wireType < 8
    requires ReadInto(ks[c], wireType, body + tail, state[c]) == Failed
    ensures ReadFields(ks, TagBytes(ks[c], wireType) + body + tail, state, seen) == Failed
  {
    hide ReadInto, SkipField, Store, Seen;
    assert TagBytes(ks[c], wireType) + body + tail == TagBytes(ks[c], wireType) + (body + tail);
    TagRoundTrip(ks[c], wireType, body + tail);
    FindOwn(ks, c);
  }

  lemma {:induction false} ItemsUnread(ks: seq<Field>, c: nat, f: Field, items: seq<Value>, bad: nat, tail: seq<Byte>,
                                       state: seq<Slot>, seen: set<nat>)
    requires ValidFields(ks) && c < |ks| == |state| && f == ks[c]
    requires f.htype.Repeated? && !f.ltype.Packable() && |state[c]| + |items| <= f.arraySize
    requires forall i: nat :: i < |items| ==> Holds(f, items[i]) && Encodable(f, items[i])
    requires bad < |items| && !Restorable(f, items[bad])
    requires |TaggedItemsBytes(f, items)| < TWO_63
    ensures ReadFields(ks, TaggedItemsBytes(f, items) + tail, state, seen) == Failed
    decreases f, 1, |items|
  {
    hide ReadFields, TaggedItemsBytes, ValueBytes, Restorable, Encodable, Holds;
    var more := TaggedItemsBytes(f, items[1..]) + tail;
    FirstItem(f, items, tail);
    if Restorable(f, items[0]) {
      ItemRead(ks, c, f, items[0], more, state, seen);
      ItemsUnread(ks, c, f, items[1..], bad - 1, tail, state[c := state[c] + [items[0]]], seen);
    } else {
      ValueUnread(f, items[0], more);
      FailedOccurrence(ks, c, WireType(f.ltype), ValueBytes(f, items[0]), more, state, seen);
    }
  }

  lemma SingleSlotUnread(ks: seq<Field>, c: nat, f: Field, slot: Slot, tail: seq<Byte>, state: seq<Slot>,
                         seen: set<nat>)
    requires ValidFields(ks) && c < |ks| == |state| && f == ks[c] && !f.htype.Repeated?
    requires HoldsSlot(f, slot) && EncodableSlot(f, slot) && !RestorableSlot(f, slot)
    requires |SlotBytes(f, slot)| < TWO_63 && state[c] == DefaultSlot(f)
    ensures ReadFields(ks, SlotBytes(f, slot) + tail, state, seen) == Failed
    decreases f, 2
  {
    var wt, body := WireType(f.ltype), ValueBytes(f, slot[0]);
    assert Emitted(f, slot) == slot == [slot[0]] && slot[1..] == [];
    assert TaggedItemsBytes(f, []) == [];
    assert SlotBytes(f, slot) == TagBytes(f, wt) + body;
    assert Existing(f, state[c]) == DefaultSlots(f.sub);
    ValueUnread(f, slot[0], tail);
    FailedOccurrence(ks, c, wt, body, tail, state, seen);
  }

  lemma SlotUnread(ks: seq<Field>, c: nat, f: Field, slot: Slot, tail: seq<Byte>, state: seq<Slot>, seen: set<nat>)
    requires ValidFields(ks) && c < |ks| == |state| && f == ks[c]
    requires HoldsSlot(f, slot) && EncodableSlot(f, slot) && !RestorableSlot(f, slot)
    requires |SlotBytes(f, slot)| < TWO_63 && state[c] == DefaultSlot(f)
    ensures ReadFields(ks, SlotBytes(f, slot) + tail, state, seen) == Failed
    decreases f, 3
  {
    if IsPacked(f) {
      LongPrefixRejected(ItemsBytes(f, slot), tail);
      FailedOccurrence(ks, c, 2, LengthPrefixed(ItemsBytes(f, slot)), tail, state, seen);
    } else if f.htype.Repeated? {
      var bad: nat :| bad < |slot| && !Restorable(f, slot[bad]);
      forall i: nat | i < |slot| ensures Encodable(f, slot[i]) {
        assert Encodable(f, Emitted(f, slot)[i]);
      }
      ItemsUnread(ks, c, f, slot, bad, tail, state, seen);
    } else {
      SingleSlotUnread(ks, c, f, slot, tail, state, seen);
    }
  }

  lemma SlotAtUnread(fs: seq<Field>, slots: seq<Slot>, i: nat)
    requires ValidFields(fs) && Conforms(fs, slots) && EncodableMessage(fs, slots, 0)
    requires i < |fs| && !RestorableSlot(fs[i], slots[i]) && |MessageBytes(fs, slots, i)| < TWO_63
    ensures ReadFields(fs, MessageBytes(fs, slots, i), Partial(fs, slots, fs, i), SeenBefore(fs, fs, i)) == Failed
    decreases fs, 0
  {
    hide ReadFields, SlotBytes, SeenBefore, RestorableSlot;
    SlotUnread(fs, i, fs[i], slots[i], MessageBytes(fs, slots, i + 1), Partial(fs, slots, fs, i),
               SeenBefore(fs, fs, i));
  }

  lemma {:induction false} RestUnread(fs: seq<Field>, slots: seq<Slot>, i: nat, bad: nat)
    requires ValidFields(fs) && Conforms(fs, slots) && EncodableMessage(fs, slots, 0)
    requires i <= bad < |fs| && !RestorableSlot(fs[bad], slots[bad])
    requires |MessageBytes(fs, slots, i)| < TWO_63
    ensures ReadFields(fs, MessageBytes(fs, slots, i), Partial(fs, slots, fs, i), SeenBefore(fs, fs, i)) == Failed
    decreases fs, 1, |fs| - i
  {
    hide ReadFields, SlotBytes, SeenBefore, Partial, RestorableSlot;
    if RestorableSlot(fs[i], slots[i]) {
      FindOwn(fs, i);
      SameReader(fs, slots);
      KnownFieldRead(fs, slots, fs, i, i);
      RestUnread(fs, slots, i + 1, bad);
    } else {
      SlotAtUnread(fs, slots, i);
    }
  }

  lemma MessageUnread(fs: seq<Field>, slots: seq<Slot>)
    requires ValidFields(fs) && Conforms(fs, slots) && EncodableMessage(fs, slots, 0) && !RestorableMessage(fs, slots)
    requires |MessageBytes(fs, slots, 0)| < TWO_63
    ensures ReadMessage(fs, MessageBytes(fs, slots, 0), DefaultSlots(fs)) == Failed
    decreases fs, 2
  {
    var bad: nat :| bad < |fs| && !RestorableSlot(fs[bad], slots[bad]);
    RestUnread(fs, slots, 0, bad);
    NothingRead(fs, slots, fs);
  }

  /** Of the messages the writer accepts, exactly the restorable ones can be read back; a reader rejects the others. */
  lemma RoundTripExactly(fs: seq<Field>, slots: seq<Slot>)
    requires ValidFields(fs) && Conforms(fs, slots) && EncodableMessage(fs, slots, 0)
    requires |MessageBytes(fs, slots, 0)| < TWO_63
    ensures var read := ReadMessage(fs, MessageBytes(fs, slots, 0), DefaultSlots(fs));
            && (read == Parsed(slots, []) <==> RestorableMessage(fs, slots))
            && (read == Failed <==> !RestorableMessage(fs, slots))
  {
    if RestorableMessage(fs, slots) {
      MessageRoundTrip(fs, slots);
    } else {
      MessageUnread(fs, slots);
    }
  }

  /** A message that is written and not read back: a string that fills its buffer without a terminator. */
  lemma {:induction false} FullStringUnread(f: Field, text: seq<Byte>)
    requires ValidField(f) && f.ltype.LString? && f.htype.Required? && |text| == f.dataSize && 0 !in text
    ensures var fs, slots := [f], [[Blob(text)]];
            && Conforms(fs, slots) && EncodableMessage(fs, slots, 0)
            && ReadMessage(fs, MessageBytes(fs, slots, 0), DefaultSlots(fs)) == Failed
  {
    var fs, slots, slot := [f], [[Blob(text)]], [Blob(text)];
    hide ReadMessage, MessageBytes;
    FullStringHeld(f, text);
    assert slots[0] == slot;
    FullStringSize(f, text);
    MessageUnread(fs, slots);
  }

  lemma {:induction false} FullStringHeld(f: Field, text: seq<Byte>)
    requires ValidField(f) && f.ltype.LString? && f.htype.Required? && |text| == f.dataSize && 0 !in text
    ensures HoldsSlot(f, [Blob(text)]) && EncodableSlot(f, [Blob(text)]) && !RestorableSlot(f, [Blob(text)])
    ensures Conforms([f], [[Blob(text)]])
  {
    assert Emitted(f, [Blob(text)])[0] == Blob(text);
  }

  lemma {:induction false} FullStringSize(f: Field, text: seq<Byte>)
    requires ValidField(f) && f.ltype.LString? && f.htype.Required? && |text| <= SIZE_MAX
    requires HoldsSlot(f, [Blob(text)]) && Conforms([f], [[Blob(text)]])
    ensures |MessageBytes([f], [[Blob(text)]], 0)| <= |text| + 20
  {
    var fs, slot := [f], [Blob(text)];
    VarintRoundTrip(|text|, []);
    VarintRoundTrip(8 * f.tag + 2, []);
    hide EncodeVarint, DecodeVarint, Holds;
    assert slot[1..] == [] && TaggedItemsBytes(f, []) == [];
    assert MessageBytes(fs, [slot], 1) == [];
    assert Holds(f, slot[0]) && ValueBytes(f, slot[0]) == LengthPrefixed(text);
    assert SlotBytes(f, slot) == TaggedItemsBytes(f, slot) == TagBytes(f, 2) + ValueBytes(f, slot[0]) + [];
  }
}

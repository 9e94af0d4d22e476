/** What occurrences of a field do to a structure that already holds something: any writer's order of occurrences,
    packed or not, and not only what this encoder would write. */
module WireOccurrences {
  import opened MachineWords
  import opened FixedWidth
  import opened Varints
  import opened Descriptors
  import opened WireFormat
  import opened WireRoundTrip

  /** Entries of a repeated field as they arrive together: each with its own tag, or packed behind one tag and a
      length. */
  datatype Chunk = OneByOne(items: seq<Value>) | Together(items: seq<Value>)

  ghost predicate IsChunk(f: Field, chunk: Chunk)
    requires ValidField(f)
  {
    && (forall i: nat :: i < |chunk.items| ==> Holds(f, chunk.items[i]) && Restorable(f, chunk.items[i]))
    && (chunk.Together? ==> f.ltype.Packable() && |ItemsBytes(f, chunk.items)| < TWO_32)
  }

  ghost predicate AreChunks(f: Field, chunks: seq<Chunk>)
    requires ValidField(f)
  {
    forall i: nat :: i < |chunks| ==> IsChunk(f, chunks[i])
  }

  ghost function ChunkBytes(f: Field, chunk: Chunk): seq<Byte>
    requires ValidField(f) && IsChunk(f, chunk)
  {
    match chunk
    case OneByOne(items) => TaggedItemsBytes(f, items)
    case Together(items) => EncodeVarint(8 * f.tag + 2) + EncodeVarint(|ItemsBytes(f, items)|) + ItemsBytes(f, items)
  }

  ghost function ChunksBytes(f: Field, chunks: seq<Chunk>): seq<Byte>
    requires ValidField(f) && AreChunks(f, chunks)
  {
    if chunks == [] then [] else ChunkBytes(f, chunks[0]) + ChunksBytes(f, chunks[1..])
  }

  function AllItems(chunks: seq<Chunk>): seq<Value> {
    if chunks == [] then [] else chunks[0].items + AllItems(chunks[1..])
  }

  lemma {:induction false} TogetherRead(ks: seq<Field>, c: nat, items: seq<Value>, tail: seq<Byte>, state: seq<Slot>,
                                        seen: set<nat>)
    requires ValidFields(ks) && c < |ks| == |state| && ks[c].htype.Repeated? && IsChunk(ks[c], Together(items))
    requires |state[c]| + |items| <= ks[c].arraySize
    ensures ReadFields(ks, TagBytes(ks[c], 2) + LengthPrefixed(ItemsBytes(ks[c], items)) + tail, state, seen) ==
            ReadFields(ks, tail, state[c := state[c] + items], seen)
  {
    var f := ks[c];
    PrefixedRoundTrip(ItemsBytes(f, items), tail);
    PackedRoundTrip(f, items, state[c]);
    hide ReadFields, ItemsBytes, Holds, Restorable, ReadPacked, LengthPrefixed, TakePrefixed;
    OneOccurrence(ks, c, 2, LengthPrefixed(ItemsBytes(f, items)), tail, state, seen, state[c] + items);
    StoreAlone(ks, state, c, state[c] + items);
  }

  lemma {:induction false} ChunkRead(ks: seq<Field>, c: nat, chunk: Chunk, tail: seq<Byte>, state: seq<Slot>,
                                     seen: set<nat>)
    requires ValidFields(ks) && c < |ks| == |state| && ks[c].htype.Repeated? && IsChunk(ks[c], chunk)
    requires |state[c]| + |chunk.items| <= ks[c].arraySize
    ensures ReadFields(ks, ChunkBytes(ks[c], chunk) + tail, state, seen) ==
            ReadFields(ks, tail, state[c := state[c] + chunk.items], seen)
  {
    assert ValidField(ks[c]);
    hide ReadFields, ItemsBytes, TaggedItemsBytes, Holds, Restorable, ValidFields;
    if chunk.OneByOne? {
      ItemsRead(ks, c, ks[c], chunk.items, tail, state, seen);
    } else {
      TogetherRead(ks, c, chunk.items, tail, state, seen);
      TogetherBytes(ks[c], chunk);
    }
  }

  lemma TogetherBytes(f: Field, chunk: Chunk)
    requires ValidField(f) && IsChunk(f, chunk) && chunk.Together?
    ensures ChunkBytes(f, chunk) == TagBytes(f, 2) + LengthPrefixed(ItemsBytes(f, chunk.items))
  {
    hide ItemsBytes, EncodeVarint;
  }

  /** Packed and unpacked chunks of one field are concatenated in the order of the stream. */
  lemma {:induction false} ChunksRead(ks: seq<Field>, c: nat, chunks: seq<Chunk>, tail: seq<Byte>, state: seq<Slot>,
                                      seen: set<nat>)
    requires ValidFields(ks) && c < |ks| == |state| && ks[c].htype.Repeated? && AreChunks(ks[c], chunks)
    requires |state[c]| + |AllItems(chunks)| <= ks[c].arraySize
    ensures ReadFields(ks, ChunksBytes(ks[c], chunks) + tail, state, seen) ==
            ReadFields(ks, tail, state[c := state[c] + AllItems(chunks)], seen)
    decreases |chunks|
  {
    hide ReadFields, ChunkBytes, IsChunk;
    var f := ks[c];
    if chunks == [] {
      assert [] + tail == tail && state[c] + [] == state[c] && state[c := state[c]] == state;
    } else {
      var rest := ChunksBytes(f, chunks[1..]) + tail;
      assert ChunksBytes(f, chunks) + tail == ChunkBytes(f, chunks[0]) + rest;
      ChunkRead(ks, c, chunks[0], rest, state, seen);
      var next := state[c := state[c] + chunks[0].items];
      ChunksRead(ks, c, chunks[1..], tail, next, seen);
      assert state[c] + chunks[0].items + AllItems(chunks[1..]) == state[c] + AllItems(chunks);
      assert next[c := next[c] + AllItems(chunks[1..])] == state[c := state[c] + AllItems(chunks)];
    }
  }

  /** An item more than the array has room for is refused. */
  lemma {:induction false} ArrayOverflows(ks: seq<Field>, c: nat, v: Value, tail: seq<Byte>, state: seq<Slot>,
                                          seen: set<nat>)
    requires ValidFields(ks) && c < |ks| == |state| && ks[c].htype.Repeated? && Holds(ks[c], v)
    requires |state[c]| >= ks[c].arraySize
    ensures ReadFields(ks, TaggedItemsBytes(ks[c], [v]) + tail, state, seen) == Failed
  {
    var f := ks[c];
    var wt, body := WireType(f.ltype), ValueBytes(f, v);
    hide ReadFields, ValueBytes, Holds;
    FirstItem(f, [v], tail);
    assert TaggedItemsBytes(f, [v][1..]) == [] && [] + tail == tail;
    FailedFieldFails(ks, c, wt, body, tail, state, seen);
  }

  lemma {:induction false} FailedFieldFails(ks: seq<Field>, c: nat, wireType: nat, body: seq<Byte>, tail: seq<Byte>,
                                            state: seq<Slot>, seen: set<nat>)
    requires ValidFields(ks) && c < |ks| == |state| && wireType < 8
    requires ReadInto(ks[c], wireType, body + tail, state[c]) == Failed
    ensures ReadFields(ks, TagBytes(ks[c], wireType) + body + tail, state, seen) == Failed
  {
    hide ReadInto, SkipField, Store, Seen;
    assert TagBytes(ks[c], wireType) + body + tail == TagBytes(ks[c], wireType) + (body + tail);
    TagRoundTrip(ks[c], wireType, body + tail);
    FindOwn(ks, c);
  }

  /** The structure with one member set, and the other members of its union, if it is in one, empty. */
  ghost predicate SetsOnly(ks: seq<Field>, before: seq<Slot>, after: seq<Slot>, c: nat, slot: Slot) {
    && |before| == |after| == |ks| && c < |ks| && after[c] == slot
    && forall j: nat :: j < |ks| && j != c ==>
         after[j] == if ks[c].htype.Oneof? && ks[j].htype == ks[c].htype then [] else before[j]
  }

  lemma StoreSetsOnly(ks: seq<Field>, state: seq<Slot>, c: nat, slot: Slot)
    requires c < |ks| == |state|
    ensures SetsOnly(ks, state, Store(ks, state, c, slot), c, slot)
  {
  }

  lemma {:induction false} ReplacesIn(f: Field, wireType: nat, v: Value, tail: seq<Byte>, slot: Slot)
    requires ValidField(f) && !f.htype.Repeated? && !f.ltype.LSubmessage? && Holds(f, v) && Restorable(f, v)
    ensures ReadInto(f, wireType, ValueBytes(f, v) + tail, slot) == Parsed([v], tail)
  {
    ValueRoundTrip(f, v, tail);
    assert ReadValue(f, ValueBytes(f, v) + tail, Existing(f, slot)) == Parsed(v, tail);
    hide ReadValue, ValueBytes, Holds, Restorable, Existing;
  }

  /** A field number and any wire type, and a value. */
  ghost function Occurrence(f: Field, wireType: nat, v: Value): seq<Byte>
    requires ValidField(f) && Holds(f, v)
  {
    EncodeVarint(8 * f.tag + wireType) + ValueBytes(f, v)
  }

  /** Every occurrence of a field that is not repeated, whatever its wire type says, replaces what the structure holds;
      a further member of a union takes the place of the one before. */
  lemma {:induction false} OccurrenceReplaces(ks: seq<Field>, c: nat, wireType: nat, v: Value, tail: seq<Byte>,
                                              state: seq<Slot>, seen: set<nat>) returns (after: seq<Slot>)
    requires ValidFields(ks) && c < |ks| == |state| && wireType < 8
    requires !ks[c].htype.Repeated? && !ks[c].ltype.LSubmessage? && Holds(ks[c], v) && Restorable(ks[c], v)
    ensures SetsOnly(ks, state, after, c, [v])
    ensures ReadFields(ks, Occurrence(ks[c], wireType, v) + tail, state, seen) ==
            ReadFields(ks, tail, after, Seen(ks, seen, c))
  {
    var f := ks[c];
    after := Store(ks, state, c, [v]);
    StoreSetsOnly(ks, state, c, [v]);
    ReplacesIn(f, wireType, v, tail, state[c]);
    assert ValidField(f) && Occurrence(f, wireType, v) == TagBytes(f, wireType) + ValueBytes(f, v);
    hide *;
    OneOccurrence(ks, c, wireType, ValueBytes(f, v), tail, state, seen, [v]);
  }

  /** The last of two occurrences counts. */
  lemma {:induction false} LastOccurrenceCounts(ks: seq<Field>, c: nat, wt1: nat, v: Value, wt2: nat, w: Value,
                                                tail: seq<Byte>, state: seq<Slot>, seen: set<nat>)
    returns (after: seq<Slot>)
    requires ValidFields(ks) && c < |ks| == |state| && !ks[c].htype.Repeated? && !ks[c].ltype.LSubmessage?
    requires Holds(ks[c], v) && Restorable(ks[c], v) && Holds(ks[c], w) && Restorable(ks[c], w) && wt1 < 8 && wt2 < 8
    ensures SetsOnly(ks, state, after, c, [w])
    ensures ReadFields(ks, Occurrence(ks[c], wt1, v) + (Occurrence(ks[c], wt2, w) + tail), state, seen) ==
            ReadFields(ks, tail, after, Seen(ks, seen, c))
  {
    assert ValidField(ks[c]);
    hide *;
    SeenTwice(ks, seen, c);
    var between := OccurrenceReplaces(ks, c, wt1, v, Occurrence(ks[c], wt2, w) + tail, state, seen);
    after := OccurrenceReplaces(ks, c, wt2, w, tail, between, Seen(ks, seen, c));
    SetTwice(ks, state, between, after, c, [v], [w]);
  }

  lemma SeenTwice(ks: seq<Field>, seen: set<nat>, c: nat)
    requires c < |ks|
    ensures Seen(ks, Seen(ks, seen, c), c) == Seen(ks, seen, c)
  {
  }

  lemma SetTwice(ks: seq<Field>, before: seq<Slot>, between: seq<Slot>, after: seq<Slot>, c: nat, v: Slot, w: Slot)
    requires SetsOnly(ks, before, between, c, v) && SetsOnly(ks, between, after, c, w)
    ensures SetsOnly(ks, before, after, c, w)
  {
  }

  lemma {:induction false} MergesInto(f: Field, wireType: nat, held: seq<Slot>, payload: seq<Byte>, slots: seq<Slot>,
                                      tail: seq<Byte>)
    requires !f.htype.Repeated? && f.ltype.LSubmessage? && |held| == |f.sub| && |payload| < TWO_32
    requires ReadMessage(f.sub, payload, held) == Parsed(slots, [])
    ensures ReadInto(f, wireType, LengthPrefixed(payload) + tail, [Message(held)]) == Parsed([Message(slots)], tail)
  {
    PrefixedRoundTrip(payload, tail);
    hide ReadMessage, TakePrefixed, LengthPrefixed;
  }

  /** A further occurrence of a submessage is read on top of the one the structure holds, so that the two are merged. */
  lemma {:induction false} OccurrenceMerges(ks: seq<Field>, c: nat, wireType: nat, held: seq<Slot>, payload: seq<Byte>,
                                            slots: seq<Slot>, tail: seq<Byte>, state: seq<Slot>, seen: set<nat>)
    returns (after: seq<Slot>)
    requires ValidFields(ks) && c < |ks| == |state| && wireType < 8 && |payload| < TWO_32
    requires !ks[c].htype.Repeated? && ks[c].ltype.LSubmessage? && |held| == |ks[c].sub| && state[c] == [Message(held)]
    requires ReadMessage(ks[c].sub, payload, held) == Parsed(slots, [])
    ensures SetsOnly(ks, state, after, c, [Message(slots)])
    ensures ReadFields(ks, EncodeVarint(8 * ks[c].tag + wireType) + (EncodeVarint(|payload|) + payload) + tail, state,
                       seen) == ReadFields(ks, tail, after, Seen(ks, seen, c))
  {
    after := Store(ks, state, c, [Message(slots)]);
    StoreSetsOnly(ks, state, c, [Message(slots)]);
    MergesInto(ks[c], wireType, held, payload, slots, tail);
    assert LengthPrefixed(payload) == EncodeVarint(|payload|) + payload;
    assert TagBytes(ks[c], wireType) == EncodeVarint(8 * ks[c].tag + wireType);
    hide *;
    OneOccurrence(ks, c, wireType, LengthPrefixed(payload), tail, state, seen, [Message(slots)]);
  }

  /** A field number of zero ends the message. */
  lemma {:induction false} ZeroTagEnds(ks: seq<Field>, rest: seq<Byte>, state: seq<Slot>, seen: set<nat>)
    requires |ks| == |state|
    ensures ReadFields(ks, [0] + rest, state, seen) == Parsed((state, seen), rest)
  {
    assert EncodeVarint(0) == [0];
    Varint32RoundTrip(0, rest);
  }
}

/** The encoder: it writes to an output stream, or only counts the bytes. Every nested message is encoded twice,
    once to learn its size and once to write it. */
module Encoder {
  import opened MachineWords
  import opened FixedWidth
  import opened Varints
  import opened Descriptors
  import opened WireFormat
  import opened FieldIterators

  /** A position in a stream, as its count and what it has put out so far. */
  datatype Mark = Mark(count: nat, output: seq<Byte>)

  /** A stream into a buffer, or one without a buffer that only counts. */
  class OStream {
    const buffer: array?<Byte>
    const maxSize: nat
    var state: nat         // where the next byte goes
    var bytesWritten: nat

    constructor Sizing()
      ensures Valid() && IsSizing() && bytesWritten == 0
    {
      buffer, maxSize, state, bytesWritten := null, 0, 0, 0;
    }

    constructor FromBuffer(buffer: array<Byte>, start: nat, size: nat)
      requires start + size <= buffer.Length
      ensures Valid() && this.buffer == buffer && maxSize == size && state == start && bytesWritten == 0
    {
      this.buffer, maxSize, state, bytesWritten := buffer, size, start, 0;
    }

    predicate IsSizing() {
      buffer == null
    }

    ghost predicate Valid()
      reads this
    {
      !IsSizing() ==> bytesWritten <= maxSize && state + (maxSize - bytesWritten) <= buffer.Length
    }

    /** Everything in the buffer up to the write position. */
    ghost function Output(): seq<Byte>
      requires Valid()
      reads this, buffer
    {
      if IsSizing() then [] else buffer[..state]
    }

    /** n more bytes can be written. */
    predicate Fits(n: nat)
      reads this
    {
      IsSizing() || bytesWritten + n <= maxSize
    }

    ghost function Footprint(): set<object> {
      if IsSizing() then {this} else {this, buffer}
    }

    ghost function Here(): Mark
      requires Valid()
      reads this, buffer
    {
      Mark(bytesWritten, Output())
    }

    /** Where the stream stands after writing, or counting, exactly these bytes from m on. */
    ghost function Past(m: Mark, bytes: seq<Byte>): Mark {
      Mark(m.count + |bytes|, m.output + if IsSizing() then [] else bytes)
    }

    ghost predicate Wrote(m: Mark, bytes: seq<Byte>)
      reads this, buffer
    {
      Valid() && Here() == Past(m, bytes)
    }

    /** Something may have been written from m on, after what was there before. */
    ghost predicate Kept(m: Mark)
      reads this, buffer
    {
      Valid() && m.count <= bytesWritten && m.output <= Output()
    }

    lemma PastNothing(m: Mark)
      ensures Past(m, []) == m
    {
      assert m.output + [] == m.output;
    }

    lemma PastBoth(m: Mark, first: seq<Byte>, second: seq<Byte>)
      ensures Past(Past(m, first), second) == Past(m, first + second)
    {
      assert m.output + first + second == m.output + (first + second);
    }

    lemma WroteNothing()
      requires Valid()
      ensures Wrote(Here(), [])
    {
      PastNothing(Here());
    }

    lemma WroteMore(m: Mark, first: seq<Byte>, second: seq<Byte>)
      requires Wrote(Past(m, first), second)
      ensures Wrote(m, first + second)
    {
      PastBoth(m, first, second);
    }

    lemma KeptMore(m: Mark, first: seq<Byte>)
      requires Kept(Past(m, first))
      ensures Kept(m)
    {
    }

    lemma WroteFits(m: Mark, bytes: seq<Byte>)
      requires Wrote(m, bytes)
      ensures IsSizing() || m.count + |bytes| <= maxSize
    {
    }

    method Write(data: seq<Byte>) returns (ok: bool)
      requires Valid()
      modifies Footprint()
      ensures ok == old(Fits(|data|))
      ensures if ok then Wrote(old(Here()), data) else Kept(old(Here()))
    {
      if data != [] && buffer != null {
        if bytesWritten + |data| > maxSize {
          return false;
        }
        for i := 0 to |data|
          invariant state == old(state) && bytesWritten == old(bytesWritten)
          invariant buffer[..state] == old(buffer[..state])
          invariant buffer[state..state + i] == data[..i]
        {
          buffer[state + i] := data[i];
        }
        state := state + |data|;
        assert buffer[..state] == old(buffer[..state]) + data;
      }
      bytesWritten := bytesWritten + |data|;
      return true;
    }

    /** Counting without data, for a stream that only sizes. */
    method Count(n: nat)
      requires Valid() && IsSizing()
      modifies this
      ensures Valid() && bytesWritten == old(bytesWritten) + n
    {
      bytesWritten := bytesWritten + n;
    }
  }

  /** The loop that splits a value into groups of seven bits in a ten-byte buffer. */
  lemma SevenBits(value: nat, prefix: seq<Byte>)
    requires value > 0
    ensures prefix + EncodeVarint(value) ==
            if value < 128 then prefix + [value] else prefix + [value % 128 + 128] + EncodeVarint(value / 128)
  {
  }

  method VarintBuffer(v: nat) returns (bytes: seq<Byte>)
    requires 0x7F < v < TWO_64
    ensures bytes == EncodeVarint(v) && |bytes| <= 10
  {
    VarintRoundTrip(v, []);
    hide DecodeVarint, EncodeVarint;
    var buffer := new Byte[10];
    var value: nat, i: nat := v, 0;
    while value != 0
      invariant i <= 10
      invariant value > 0 ==> EncodeVarint(v) == buffer[..i] + EncodeVarint(value)
      invariant value == 0 ==> i > 0 && buffer[i - 1] >= 128
      invariant value == 0 ==> EncodeVarint(v) == buffer[..i - 1] + [buffer[i - 1] - 128]
      decreases value
    {
      ghost var front := buffer[..i];
      SevenBits(value, front);
      assert |EncodeVarint(v)| == i + |EncodeVarint(value)|;
      buffer[i] := value % 128 + 128;
      assert buffer[..i] == front;
      assert buffer[..i + 1] == front + [value % 128 + 128];
      value := value / 128;
      i := i + 1;
    }
    buffer[i - 1] := buffer[i - 1] - 128;
    bytes := buffer[..i];
  }

  method WriteVarint(stream: OStream, v: nat) returns (ok: bool)
    requires stream.Valid() && v < TWO_64
    modifies stream.Footprint()
    ensures ok == old(stream.Fits(|EncodeVarint(v)|))
    ensures if ok then stream.Wrote(old(stream.Here()), EncodeVarint(v)) else stream.Kept(old(stream.Here()))
  {
    if v <= 0x7F {
      ok := stream.Write([v]);
    } else {
      var bytes := VarintBuffer(v);
      ok := stream.Write(bytes);
    }
  }

  method WriteTag(stream: OStream, f: Field, wireType: nat) returns (ok: bool)
    requires stream.Valid() && f.tag <= MAX_TAG && wireType < 8
    modifies stream.Footprint()
    ensures ok == old(stream.Fits(|TagBytes(f, wireType)|))
    ensures if ok then stream.Wrote(old(stream.Here()), TagBytes(f, wireType)) else stream.Kept(old(stream.Here()))
  {
    ok := WriteVarint(stream, 8 * f.tag + wireType);
  }

  method WritePrefixed(stream: OStream, data: seq<Byte>) returns (ok: bool)
    requires stream.Valid() && |data| < TWO_64
    modifies stream.Footprint()
    ensures ok == old(stream.Fits(|LengthPrefixed(data)|))
    ensures if ok then stream.Wrote(old(stream.Here()), LengthPrefixed(data)) else stream.Kept(old(stream.Here()))
  {
    ok := WriteVarint(stream, |data|);
    if ok {
      ok := stream.Write(data);
      stream.PastBoth(old(stream.Here()), EncodeVarint(|data|), data);
    }
  }

  /** The field encoders, one for each type. */
  method EncodeValue(stream: OStream, f: Field, v: Value) returns (ok: bool)
    requires stream.Valid() && ValidField(f) && Holds(f, v) && |ValueBytes(f, v)| < TWO_64
    modifies stream.Footprint()
    ensures ok == (Encodable(f, v) && old(stream.Fits(|ValueBytes(f, v)|)))
    ensures if ok then stream.Wrote(old(stream.Here()), ValueBytes(f, v)) else stream.Kept(old(stream.Here()))
    decreases f, 0
  {
    match f.ltype {
      case LBool => ok := WriteVarint(stream, if v.b then 1 else 0);
      case LVarint =>
        SizesFitIn64(f.dataSize);
        ok := WriteVarint(stream, ToUnsigned(v.n, TWO_64));
      case LUVarint =>
        SizesFitIn64(f.dataSize);
        ok := WriteVarint(stream, v.n);
      case LSVarint =>
        SizesFitIn64(f.dataSize);
        ok := WriteVarint(stream, Zigzag(v.n));
      case LFixed32 => ok := stream.Write(PutFixed(v.n, 4));
      case LFixed64 => ok := stream.Write(PutFixed(v.n, 8));
      case LBytes =>
        if |v.data| + BYTES_OFFSET > f.dataSize {
          return false;
        }
        ok := WritePrefixed(stream, v.data);
      case LSubmessage => ok := EncodeSubmessage(stream, f.sub, v.slots);
      case LString => ok := WritePrefixed(stream, v.data);
      case LFixedLengthBytes => ok := WritePrefixed(stream, v.data);
    }
  }

  /** The size pass over a nested message, its length, and the pass that writes it. */
  method EncodeSubmessage(stream: OStream, fs: seq<Field>, slots: seq<Slot>) returns (ok: bool)
    requires stream.Valid() && ValidFields(fs) && Conforms(fs, slots) && |MessageBytes(fs, slots, 0)| < TWO_64
    modifies stream.Footprint()
    ensures ok == (EncodableMessage(fs, slots, 0) && old(stream.Fits(|LengthPrefixed(MessageBytes(fs, slots, 0))|)))
    ensures if ok then stream.Wrote(old(stream.Here()), LengthPrefixed(MessageBytes(fs, slots, 0)))
            else stream.Kept(old(stream.Here()))
    decreases fs, 8
  {
    hide MessageBytes, EncodableMessage, ValidFields, Conforms, EncodeVarint;
    ghost var body := MessageBytes(fs, slots, 0);
    var sizing := new OStream.Sizing();
    ok := Encode(sizing, fs, slots);
    if !ok {
      return;
    }
    var size := sizing.bytesWritten;
    ok := WriteVarint(stream, size);
    if !ok {
      return;
    }
    if stream.buffer == null {
      stream.Count(size);
      return;
    }
    if stream.bytesWritten + size > stream.maxSize {
      return false;
    }
    stream.PastBoth(old(stream.Here()), EncodeVarint(size), body);
    ok := WriteSubmessage(stream, fs, slots, size);
  }

  /** The second pass, through a stream that ends where the first one says. */
  method WriteSubmessage(stream: OStream, fs: seq<Field>, slots: seq<Slot>, size: nat) returns (ok: bool)
    requires stream.Valid() && ValidFields(fs) && Conforms(fs, slots) && EncodableMessage(fs, slots, 0)
    requires size == |MessageBytes(fs, slots, 0)| < TWO_64
    requires stream.buffer != null && stream.Fits(size)
    modifies stream.Footprint()
    ensures ok && stream.Wrote(old(stream.Here()), MessageBytes(fs, slots, 0))
    decreases fs, 7
  {
    hide MessageBytes, EncodableMessage, ValidFields, Conforms;
    var substream := new OStream.FromBuffer(stream.buffer, stream.state, size);
    assert substream.Output() == stream.Output();
    ok := Encode(substream, fs, slots);
    assert substream.state == |substream.Output()| == old(stream.state) + size;
    stream.bytesWritten := stream.bytesWritten + substream.bytesWritten;
    stream.state := substream.state;
    // The second pass writes what the first one counted, so the size cannot have changed.
    assert substream.bytesWritten == size;
    assert stream.Valid();
    assert stream.Output() == substream.Output();
  }

  /** Array entries, packed whenever the type allows it: a first pass over the entries gives the length. */
  method EncodeArray(stream: OStream, f: Field, items: Slot) returns (ok: bool)
    requires stream.Valid() && ValidField(f) && f.htype.Repeated? && HoldsSlot(f, items) &&
             |SlotBytes(f, items)| < TWO_64
    modifies stream.Footprint()
    ensures ok == (EncodableSlot(f, items) && old(stream.Fits(|SlotBytes(f, items)|)))
    ensures if ok then stream.Wrote(old(stream.Here()), SlotBytes(f, items)) else stream.Kept(old(stream.Here()))
    decreases f, 4
  {
    stream.PastNothing(stream.Here());
    if items == [] {
      return true;
    }
    if |items| > f.arraySize {
      return false;
    }
    if f.ltype.Packable() {
      PackedItemsEncodable(f, items);
      ok := EncodePacked(stream, f, items);
    } else {
      ok := EncodeTagged(stream, f, items);
    }
  }

  lemma PackedItemsEncodable(f: Field, items: Slot)
    requires HoldsSlot(f, items) && f.ltype.Packable()
    ensures forall i: nat :: i < |items| ==> Encodable(f, items[i])
  {
  }

  method EncodePacked(stream: OStream, f: Field, items: Slot) returns (ok: bool)
    requires stream.Valid() && ValidField(f) && f.ltype.Packable() && items != []
    requires forall i: nat :: i < |items| ==> Holds(f, items[i])
    requires |ItemsBytes(f, items)| < TWO_64
    modifies stream.Footprint()
    ensures ok == old(stream.Fits(|TagBytes(f, 2) + LengthPrefixed(ItemsBytes(f, items))|))
    ensures if ok then stream.Wrote(old(stream.Here()), TagBytes(f, 2) + LengthPrefixed(ItemsBytes(f, items)))
            else stream.Kept(old(stream.Here()))
    decreases f, 3
  {
    hide ItemsBytes, EncodeVarint;
    ghost var body := ItemsBytes(f, items);
    ok := WriteTag(stream, f, 2);
    if !ok {
      return;
    }
    var size := PackedSize(f, items);
    ok := WriteVarint(stream, size);
    if !ok {
      return;
    }
    stream.PastBoth(old(stream.Here()), TagBytes(f, 2), EncodeVarint(size));
    stream.PastBoth(old(stream.Here()), TagBytes(f, 2) + EncodeVarint(size), body);
    assert TagBytes(f, 2) + EncodeVarint(size) + body == TagBytes(f, 2) + LengthPrefixed(body);
    if stream.buffer == null {
      stream.Count(size);
      return;
    }
    ok := EncodeItems(stream, f, items);
  }

  /** By multiplication for the fixed-size types, and by a counting pass for the others. */
  method PackedSize(f: Field, items: Slot) returns (size: nat)
    requires ValidField(f) && f.ltype.Packable()
    requires forall i: nat :: i < |items| ==> Holds(f, items[i])
    requires |ItemsBytes(f, items)| < TWO_64
    ensures size == |ItemsBytes(f, items)|
    decreases f, 2
  {
    if f.ltype.LFixed32? {
      FixedItemsSize(f, items);
      size := 4 * |items|;
    } else if f.ltype.LFixed64? {
      FixedItemsSize(f, items);
      size := 8 * |items|;
    } else {
      var sizing := new OStream.Sizing();
      var _ := EncodeItems(sizing, f, items);
      size := sizing.bytesWritten;
    }
  }

  lemma {:induction false} FixedItemsSize(f: Field, items: seq<Value>)
    requires ValidField(f) && (f.ltype.LFixed32? || f.ltype.LFixed64?)
    requires forall i: nat :: i < |items| ==> Holds(f, items[i])
    ensures |ItemsBytes(f, items)| == (if f.ltype.LFixed32? then 4 else 8) * |items|
  {
    if items != [] {
      FixedItemsSize(f, items[1..]);
    }
  }

  /** The entries one after the other. */
  method EncodeItems(stream: OStream, f: Field, items: Slot) returns (ok: bool)
    requires stream.Valid() && ValidField(f) && f.ltype.Packable()
    requires forall i: nat :: i < |items| ==> Holds(f, items[i])
    requires |ItemsBytes(f, items)| < TWO_64
    modifies stream.Footprint()
    ensures ok == old(stream.Fits(|ItemsBytes(f, items)|))
    ensures if ok then stream.Wrote(old(stream.Here()), ItemsBytes(f, items)) else stream.Kept(old(stream.Here()))
    decreases f, 1
  {
    ghost var mark := stream.Here();
    stream.WroteNothing();
    ok := true;
    var i := 0;
    ghost var done: seq<Byte> := [];
    while i < |items|
      invariant 0 <= i <= |items| && ok
      invariant stream.Wrote(mark, done)
      invariant done + ItemsBytes(f, items[i..]) == ItemsBytes(f, items)
    {
      ghost var bytes := ValueBytes(f, items[i]);
      FirstOfItems(f, items, i, done);
      ok := EncodeValue(stream, f, items[i]);
      if !ok {
        stream.KeptMore(mark, done);
        return;
      }
      stream.WroteMore(mark, done, bytes);
      done := done + bytes;
      i := i + 1;
    }
    assert items[i..] == [] && done + [] == done;
  }

  lemma FirstOfItems(f: Field, items: seq<Value>, i: nat, done: seq<Byte>)
    requires ValidField(f) && i < |items| && forall i: nat :: i < |items| ==> Holds(f, items[i])
    ensures done + ItemsBytes(f, items[i..]) == done + ValueBytes(f, items[i]) + ItemsBytes(f, items[i + 1..])
  {
    assert items[i..][1..] == items[i + 1..];
  }

  method EncodeTagged(stream: OStream, f: Field, items: Slot) returns (ok: bool)
    requires stream.Valid() && ValidField(f)
    requires forall i: nat :: i < |items| ==> Holds(f, items[i])
    requires |TaggedItemsBytes(f, items)| < TWO_64
    modifies stream.Footprint()
    ensures ok == ((forall i: nat :: i < |items| ==> Encodable(f, items[i])) &&
                   old(stream.Fits(|TaggedItemsBytes(f, items)|)))
    ensures if ok then stream.Wrote(old(stream.Here()), TaggedItemsBytes(f, items)) else stream.Kept(old(stream.Here()))
    decreases f, 2
  {
    ghost var mark := stream.Here();
    stream.WroteNothing();
    ok := true;
    var i := 0;
    ghost var done: seq<Byte> := [];
    while i < |items|
      invariant 0 <= i <= |items| && ok
      invariant stream.Wrote(mark, done)
      invariant done + TaggedItemsBytes(f, items[i..]) == TaggedItemsBytes(f, items)
      invariant forall j: nat :: j < i ==> Encodable(f, items[j])
    {
      ghost var bytes := TagBytes(f, WireType(f.ltype)) + ValueBytes(f, items[i]);
      FirstOfTagged(f, items, i, done);
      ok := EncodeOccurrence(stream, f, items[i]);
      if !ok {
        stream.KeptMore(mark, done);
        return;
      }
      stream.WroteMore(mark, done, bytes);
      done := done + bytes;
      i := i + 1;
    }
    assert items[i..] == [] && done + [] == done;
  }

  lemma FirstOfTagged(f: Field, items: seq<Value>, i: nat, done: seq<Byte>)
    requires ValidField(f) && i < |items| && forall i: nat :: i < |items| ==> Holds(f, items[i])
    ensures done + TaggedItemsBytes(f, items[i..]) ==
            done + (TagBytes(f, WireType(f.ltype)) + ValueBytes(f, items[i])) + TaggedItemsBytes(f, items[i + 1..])
  {
    assert items[i..][1..] == items[i + 1..];
  }

  /** A tag and a value. */
  method EncodeOccurrence(stream: OStream, f: Field, v: Value) returns (ok: bool)
    requires stream.Valid() && ValidField(f) && Holds(f, v) &&
             |TagBytes(f, WireType(f.ltype)) + ValueBytes(f, v)| < TWO_64
    modifies stream.Footprint()
    ensures var bytes := TagBytes(f, WireType(f.ltype)) + ValueBytes(f, v);
            && ok == (Encodable(f, v) && old(stream.Fits(|bytes|)))
            && if ok then stream.Wrote(old(stream.Here()), bytes) else stream.Kept(old(stream.Here()))
    decreases f, 1
  {
    var wireType := WireType(f.ltype);
    ok := WriteTag(stream, f, wireType);
    if ok {
      ok := EncodeValue(stream, f, v);
      stream.PastBoth(old(stream.Here()), TagBytes(f, wireType), ValueBytes(f, v));
    }
  }

  /** One field: required ones always, optional and oneof ones when present, proto3-style ones when not zero. */
  method EncodeField(stream: OStream, f: Field, slot: Slot) returns (ok: bool)
    requires stream.Valid() && ValidField(f) && HoldsSlot(f, slot) && |SlotBytes(f, slot)| < TWO_64
    modifies stream.Footprint()
    ensures ok == (EncodableSlot(f, slot) && old(stream.Fits(|SlotBytes(f, slot)|)))
    ensures if ok then stream.Wrote(old(stream.Here()), SlotBytes(f, slot)) else stream.Kept(old(stream.Here()))
    decreases f, 5
  {
    if f.htype.Repeated? {
      ok := EncodeArray(stream, f, slot);
    } else {
      var present := if f.htype.Singular? then !SlotIsDefault(f, slot) else slot != [];
      if present {
        SingleOccurrence(f, slot);
        ok := EncodeOccurrence(stream, f, slot[0]);
      } else {
        stream.PastNothing(stream.Here());
        ok := true;
      }
    }
  }

  lemma SingleOccurrence(f: Field, slot: Slot)
    requires ValidField(f) && HoldsSlot(f, slot) && !f.htype.Repeated? && slot != []
    requires f.htype.Singular? ==> !SlotIsDefault(f, slot)
    ensures SlotBytes(f, slot) == TagBytes(f, WireType(f.ltype)) + ValueBytes(f, slot[0])
    ensures EncodableSlot(f, slot) <==> Encodable(f, slot[0])
  {
    assert Emitted(f, slot) == slot && slot[1..] == [];
    assert TaggedItemsBytes(f, slot[1..]) == [];
  }

  /** The bytes of the first i fields. */
  ghost function FrontBytes(fs: seq<Field>, slots: seq<Slot>, i: nat): seq<Byte>
    requires ValidFields(fs) && Conforms(fs, slots) && i <= |fs|
  {
    if i == 0 then [] else FrontBytes(fs, slots, i - 1) + SlotBytes(fs[i - 1], slots[i - 1])
  }

  lemma {:induction false} FrontAndRest(fs: seq<Field>, slots: seq<Slot>, i: nat)
    requires ValidFields(fs) && Conforms(fs, slots) && i <= |fs|
    ensures FrontBytes(fs, slots, i) + MessageBytes(fs, slots, i) == MessageBytes(fs, slots, 0)
    ensures i == |fs| ==> FrontBytes(fs, slots, i) == MessageBytes(fs, slots, 0)
  {
    hide SlotBytes, HoldsSlot, ValidField;
    if i > 0 {
      FrontAndRest(fs, slots, i - 1);
      var front, slot, rest := FrontBytes(fs, slots, i - 1), SlotBytes(fs[i - 1], slots[i - 1]),
        MessageBytes(fs, slots, i);
      calc {
        FrontBytes(fs, slots, i) + rest;
        (front + slot) + rest;
        front + (slot + rest);
        front + MessageBytes(fs, slots, i - 1);
      }
    }
  }

  /** Encodable from field 0 means: the first i fields are, and the rest is. */
  ghost predicate FrontEncodable(fs: seq<Field>, slots: seq<Slot>, i: nat)
    requires Conforms(fs, slots) && i <= |fs|
  {
    forall j: nat :: j < i ==> EncodableSlot(fs[j], slots[j])
  }

  lemma FrontBegins(stream: OStream, fs: seq<Field>, slots: seq<Slot>)
    requires stream.Valid() && ValidFields(fs) && Conforms(fs, slots)
    ensures stream.Wrote(stream.Here(), FrontBytes(fs, slots, 0)) && FrontEncodable(fs, slots, 0)
    ensures stream.Here().count == stream.bytesWritten && stream.Fits(0)
    ensures fs == [] ==> MessageBytes(fs, slots, 0) == []
  {
    stream.WroteNothing();
  }

  lemma FrontEnds(fs: seq<Field>, slots: seq<Slot>)
    requires ValidFields(fs) && Conforms(fs, slots)
    ensures FrontBytes(fs, slots, |fs|) == MessageBytes(fs, slots, 0)
    ensures FrontEncodable(fs, slots, |fs|) == EncodableMessage(fs, slots, 0)
  {
    FrontAndRest(fs, slots, |fs|);
  }

  method EncodeNext(stream: OStream, fs: seq<Field>, slots: seq<Slot>, i: nat, ghost mark: Mark) returns (ok: bool)
    requires ValidFields(fs) && Conforms(fs, slots) && i < |fs| && |MessageBytes(fs, slots, 0)| < TWO_64
    requires stream.Wrote(mark, FrontBytes(fs, slots, i)) && FrontEncodable(fs, slots, i)
    modifies stream.Footprint()
    ensures if ok then stream.Wrote(mark, FrontBytes(fs, slots, i + 1)) && FrontEncodable(fs, slots, i + 1)
            else
              && stream.Kept(mark)
              && !(EncodableMessage(fs, slots, 0) &&
                   (stream.IsSizing() || mark.count + |MessageBytes(fs, slots, 0)| <= stream.maxSize))
    decreases fs, 5
  {
    FrontAndRest(fs, slots, i);
    FrontAndRest(fs, slots, i + 1);
    hide MessageBytes, SlotBytes, EncodableSlot;
    ok := EncodeField(stream, fs[i], slots[i]);
    if ok {
      stream.WroteMore(mark, FrontBytes(fs, slots, i), SlotBytes(fs[i], slots[i]));
    } else {
      stream.KeptMore(mark, FrontBytes(fs, slots, i));
    }
  }

  /** All fields, in descriptor order. */
  method Encode(stream: OStream, fs: seq<Field>, slots: seq<Slot>) returns (ok: bool)
    requires stream.Valid() && ValidFields(fs) && Conforms(fs, slots) && |MessageBytes(fs, slots, 0)| < TWO_64
    modifies stream.Footprint()
    ensures ok == (EncodableMessage(fs, slots, 0) && old(stream.Fits(|MessageBytes(fs, slots, 0)|)))
    ensures if ok then stream.Wrote(old(stream.Here()), MessageBytes(fs, slots, 0)) else stream.Kept(old(stream.Here()))
    decreases fs, 6
  {
    hide MessageBytes, EncodableMessage, FrontBytes, FrontEncodable, ValidFields, Conforms, LaidOut, FieldIter.Valid;
    hide OStream.Valid, OStream.Here, OStream.Wrote, OStream.Kept;
    ghost var mark := stream.Here();
    FrontBegins(stream, fs, slots);
    FrontEnds(fs, slots);
    if fs == [] {
      return true;
    }
    var iter := new FieldIter(fs, Layout(fs));
    var more := true;
    ghost var i := 0;
    while more
      invariant iter.Valid() && fresh(iter)
      invariant 0 <= i <= |fs| && more == (i < |fs|) && (more ==> iter.pos == i)
      invariant stream.Wrote(mark, FrontBytes(fs, slots, i)) && FrontEncodable(fs, slots, i)
      decreases |fs| - i
    {
      ok := EncodeNext(stream, fs, slots, iter.pos, mark);
      if !ok {
        return;
      }
      more := iter.Next();
      i := i + 1;
    }
    stream.WroteFits(mark, FrontBytes(fs, slots, |fs|));
    return true;
  }

  /** The size a message will have, by a counting run alone. */
  method GetEncodedSize(fs: seq<Field>, slots: seq<Slot>) returns (ok: bool, size: nat)
    requires ValidFields(fs) && Conforms(fs, slots) && |MessageBytes(fs, slots, 0)| < TWO_64
    ensures ok == EncodableMessage(fs, slots, 0)
    ensures ok ==> size == |MessageBytes(fs, slots, 0)|
  {
    var stream := new OStream.Sizing();
    ok := Encode(stream, fs, slots);
    size := stream.bytesWritten;
  }
}

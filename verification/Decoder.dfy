/** The decoder: it reads a stream of limited length and fills message structures. */
module Decoder {
  import opened MachineWords
  import opened FixedWidth
  import opened Varints
  import opened Descriptors
  import opened WireFormat
  import opened FieldIterators

  /** A view of a buffer: a position and how many bytes may still be read. */
  class IStream {
    const data: seq<Byte>
    var state: nat
    var bytesLeft: nat

    constructor FromBuffer(data: seq<Byte>, start: nat, size: nat)
      requires start + size <= |data|
      ensures Valid() && this.data == data && state == start && bytesLeft == size
    {
      this.data, state, bytesLeft := data, start, size;
    }

    ghost predicate Valid()
      reads this
    {
      state + bytesLeft <= |data|
    }

    ghost function Remaining(): seq<Byte>
      requires Valid()
      reads this
    {
      data[state..state + bytesLeft]
    }

    /** Where the stream ends. */
    ghost function End(): nat
      reads this
    {
      state + bytesLeft
    }

    method Read(count: nat) returns (ok: bool, bytes: seq<Byte>)
      requires Valid()
      modifies this
      ensures Valid() && End() == old(End())
      ensures Gives(TakeBytes(old(Remaining()), count), ok, bytes, Remaining())
    {
      if bytesLeft < count {
        return false, [];
      }
      bytes := data[state..state + count];
      assert bytes == Remaining()[..count];
      state := state + count;
      bytesLeft := bytesLeft - count;
      ok := true;
    }

    method Skip(count: nat) returns (ok: bool)
      requires Valid()
      modifies this
      ensures Valid() && End() == old(End())
      ensures Gives(Skipped(TakeBytes(old(Remaining()), count)), ok, (), Remaining())
    {
      ok := bytesLeft >= count;
      if ok {
        state := state + count;
        bytesLeft := bytesLeft - count;
      }
    }

    method ReadByte() returns (ok: bool, b: Byte)
      requires Valid()
      modifies this
      ensures Valid() && End() == old(End())
      ensures ok == (old(Remaining()) != [])
      ensures ok ==> b == old(Remaining())[0] && Remaining() == old(Remaining())[1..]
      ensures !ok ==> unchanged(this)
    {
      if bytesLeft == 0 {
        return false, 0;
      }
      b := data[state];
      state := state + 1;
      bytesLeft := bytesLeft - 1;
      ok := true;
    }
  }

  /** The outcome of a read is the one that the wire format describes. */
  ghost predicate Gives<T>(p: Parse<T>, ok: bool, value: T, rest: seq<Byte>) {
    ok == p.Parsed? && (ok ==> value == p.value && rest == p.rest)
  }

  method ReadVarint(stream: IStream) returns (ok: bool, value: nat)
    requires stream.Valid()
    modifies stream
    ensures stream.Valid() && stream.End() == old(stream.End())
    ensures Gives(DecodeVarint(old(stream.Remaining())), ok, value, stream.Remaining())
  {
    ghost var p := DecodeVarint(stream.Remaining());
    var k, scale := 0, 1;
    value := 0;
    while true
      invariant stream.Valid() && stream.End() == old(stream.End())
      invariant k <= 10 && scale == Power128(k)
      invariant VarintFrom(stream.Remaining(), k, value) == p
      decreases 10 - k
    {
      if k >= 10 {
        return false, 0;
      }
      var b: Byte;
      ok, b := stream.ReadByte();
      if !ok {
        return false, 0;
      }
      value := (value + b % 128 * scale) % TWO_64;
      if b < 128 {
        return true, value;
      }
      k, scale := k + 1, 128 * scale;
    }
  }

  method ReadVarint32(stream: IStream) returns (ok: bool, value: nat)
    requires stream.Valid()
    modifies stream
    ensures stream.Valid() && stream.End() == old(stream.End())
    ensures Gives(DecodeVarint32(old(stream.Remaining())), ok, value, stream.Remaining())
  {
    ghost var p := DecodeVarint32(stream.Remaining());
    var k, scale := 0, 1;
    value := 0;
    while true
      invariant stream.Valid() && stream.End() == old(stream.End())
      invariant k <= 10 && scale == Power128(k)
      invariant Varint32From(stream.Remaining(), k, value) == p
      decreases 10 - k
    {
      if k >= 10 {
        return false, 0;
      }
      var b: Byte;
      ok, b := stream.ReadByte();
      if !ok {
        return false, 0;
      }
      if k >= 5 {
        if b % 128 != 0 && (value < TWO_31 || b != SignExtension(k)) {
          return false, 0;
        }
      } else {
        value := (value + b % 128 * scale) % TWO_32;
      }
      if b < 128 {
        ok := !(k == 4 && b >= 16);
        return;
      }
      k, scale := k + 1, 128 * scale;
    }
  }

  method SkipVarintBytes(stream: IStream) returns (ok: bool)
    requires stream.Valid()
    modifies stream
    ensures stream.Valid() && stream.End() == old(stream.End())
    ensures Gives(SkipVarint(old(stream.Remaining())), ok, (), stream.Remaining())
  {
    ghost var p := SkipVarint(stream.Remaining());
    while true
      invariant stream.Valid() && stream.End() == old(stream.End())
      invariant SkipVarint(stream.Remaining()) == p
      decreases stream.bytesLeft
    {
      var b: Byte;
      ok, b := stream.ReadByte();
      if !ok || b < 128 {
        return;
      }
    }
  }

  method SkipString(stream: IStream) returns (ok: bool)
    requires stream.Valid()
    modifies stream
    ensures stream.Valid() && stream.End() == old(stream.End())
    ensures Gives(Skipped(TakePrefixed(old(stream.Remaining()))), ok, (), stream.Remaining())
  {
    var length;
    ok, length := ReadVarint32(stream);
    if ok {
      ok := stream.Skip(length);
    }
  }

  method SkipValue(stream: IStream, wireType: nat) returns (ok: bool)
    requires stream.Valid()
    modifies stream
    ensures stream.Valid() && stream.End() == old(stream.End())
    ensures Gives(SkipField(wireType, old(stream.Remaining())), ok, (), stream.Remaining())
  {
    match wireType {
      case 0 => ok := SkipVarintBytes(stream);
      case 1 => ok := stream.Skip(8);
      case 2 => ok := SkipString(stream);
      case 5 => ok := stream.Skip(4);
      case _ => ok := false;
    }
  }

  lemma Sliced(data: seq<Byte>, from: nat, count: nat, to: nat)
    requires from + count <= to <= |data|
    ensures data[from..to][..count] == data[from..from + count] && data[from..to][count..] == data[from + count..to]
  {
  }

  /** What a length announces, in terms of positions in the data. */
  lemma Announced(bytes: seq<Byte>, size: nat, data: seq<Byte>, from: nat, to: nat)
    requires from <= to <= |data| && DecodeVarint32(bytes) == Parsed(size, data[from..to])
    ensures to - from < |bytes|
    ensures TakePrefixed(bytes)
         == if size <= to - from then Parsed(data[from..from + size], data[from + size..to]) else Failed
  {
    hide DecodeVarint32;
    if size <= to - from {
      Sliced(data, from, size, to);
    }
  }

  /** Reads a length and opens a stream of that length; until it is closed, the parent is that much shorter. */
  method OpenSubstream(stream: IStream) returns (ok: bool, substream: IStream?)
    requires stream.Valid()
    modifies stream
    ensures stream.Valid()
    ensures ok == TakePrefixed(old(stream.Remaining())).Parsed?
    ensures ok ==>
              var p := TakePrefixed(old(stream.Remaining()));
              && substream != null && fresh(substream) && substream.Valid() && substream.data == stream.data
              && substream.Remaining() == p.value && substream.state == stream.state
              && |p.value| < old(stream.bytesLeft)
              && stream.End() + |p.value| == old(stream.End())
              && stream.data[substream.End()..old(stream.End())] == p.rest
    ensures !ok ==> stream.End() == old(stream.End())
  {
    hide DecodeVarint32, TakeBytes;
    ghost var bytes := stream.Remaining();
    var size;
    ok, size := ReadVarint32(stream);
    if !ok {
      return false, null;
    }
    Announced(bytes, size, stream.data, stream.state, stream.End());
    hide TakePrefixed;
    if stream.bytesLeft < size {
      return false, null;
    }
    substream := new IStream.FromBuffer(stream.data, stream.state, size);
    stream.bytesLeft := stream.bytesLeft - size;
  }

  /** Skips what is left of the substream, and moves the parent to its end. */
  method CloseSubstream(stream: IStream, substream: IStream)
    requires stream != substream && stream.Valid() && substream.Valid() && substream.data == stream.data
    requires substream.End() + stream.bytesLeft <= |stream.data|
    modifies stream, substream
    ensures stream.Valid() && stream.bytesLeft == old(stream.bytesLeft) &&
            stream.End() == old(substream.End() + stream.bytesLeft)
    ensures stream.Remaining() == stream.data[old(substream.End())..old(substream.End() + stream.bytesLeft)]
  {
    if substream.bytesLeft > 0 {
      var _ := substream.Skip(substream.bytesLeft);
    }
    stream.state := substream.state;
  }

  /** A read that succeeds does not move the end of the stream; one that fails may leave a substream open, and the
      stream shorter by its length. */
  ghost predicate EndKept(ok: bool, end: nat, before: nat) {
    if ok then end == before else end <= before
  }

  /** The field decoders that need no nested message. */
  method DecodeScalar(stream: IStream, f: Field) returns (ok: bool, v: Value)
    requires stream.Valid() && !f.ltype.LSubmessage? && ValidField(f)
    modifies stream
    ensures stream.Valid() && stream.End() == old(stream.End())
    ensures Gives(ReadValue(f, old(stream.Remaining()), DefaultSlots(f.sub)), ok, v, stream.Remaining())
  {
    v := Number(0);
    var n: nat;
    match f.ltype {
      case LBool =>
        ok, n := ReadVarint32(stream);
        v := Flag(n != 0);
      case LVarint =>
        ok, n := ReadVarint(stream);
        if ok {
          var svalue := if f.dataSize == 8 then ToSigned(n, TWO_64) else ToSigned(n % TWO_32, TWO_32);
          ok, v := SignedFits(svalue, f.dataSize), Number(svalue);
        }
      case LUVarint =>
        ok, n := ReadVarint(stream);
        if ok {
          ok, v := UnsignedFits(n, f.dataSize), Number(n);
        }
      case LSVarint =>
        ok, n := ReadVarint(stream);
        if ok {
          ok, v := SignedFits(Unzigzag(n), f.dataSize), Number(Unzigzag(n));
        }
      case LFixed32 => ok, v := DecodeFixed(stream, 4);
      case LFixed64 => ok, v := DecodeFixed(stream, 8);
      case LBytes => ok, v := DecodeBlob(stream, f);
      case LString => ok, v := DecodeBlob(stream, f);
      case LFixedLengthBytes => ok, v := DecodeBlob(stream, f);
    }
  }

  method DecodeFixed(stream: IStream, width: nat) returns (ok: bool, v: Value)
    requires stream.Valid() && width > 0
    modifies stream
    ensures stream.Valid() && stream.End() == old(stream.End())
    ensures Gives(ReadFixed(old(stream.Remaining()), width), ok, v, stream.Remaining())
  {
    var bytes;
    ok, bytes := stream.Read(width);
    v := Number(GetFixed(bytes));
  }

  method DecodeBlob(stream: IStream, f: Field) returns (ok: bool, v: Value)
    requires stream.Valid() && (f.ltype.LBytes? || f.ltype.LString? || f.ltype.LFixedLengthBytes?)
    modifies stream
    ensures stream.Valid() && stream.End() == old(stream.End())
    ensures Gives(ReadValue(f, old(stream.Remaining()), DefaultSlots(f.sub)), ok, v, stream.Remaining())
  {
    v := Blob([]);
    var size;
    ok, size := ReadVarint32(stream);
    if !ok {
      return;
    }
    var bytes;
    match f.ltype {
      case LBytes =>
        if size + BYTES_OFFSET > f.dataSize {
          return false, v;
        }
      case LString =>
        if size + 1 > f.dataSize {
          return false, v;
        }
      case LFixedLengthBytes =>
        if size == 0 {
          return true, Blob(Zeros(f.dataSize));
        }
        if size != f.dataSize {
          return false, v;
        }
    }
    ok, bytes := stream.Read(size);
    v := Blob(if f.ltype.LString? then UpToNul(bytes) else bytes);
  }

  method DecodeValue(stream: IStream, f: Field, existing: seq<Slot>) returns (ok: bool, v: Value)
    requires stream.Valid() && ValidField(f) && |existing| == |f.sub|
    modifies stream
    ensures stream.Valid() && EndKept(ok, stream.End(), old(stream.End()))
    ensures Gives(ReadValue(f, old(stream.Remaining()), existing), ok, v, stream.Remaining())
    decreases stream.bytesLeft, 0
  {
    if !f.ltype.LSubmessage? {
      ScalarIgnoresExisting(f, stream.Remaining(), existing);
      ok, v := DecodeScalar(stream, f);
      return;
    }
    v := Number(0);
    var substream;
    ok, substream := OpenSubstream(stream);
    if !ok {
      return;
    }
    var slots;
    var status;
    status, slots := DecodeNoInit(substream, f.sub, existing);
    CloseSubstream(stream, substream);
    ok, v := status, Message(slots);
  }

  lemma ScalarIgnoresExisting(f: Field, bytes: seq<Byte>, existing: seq<Slot>)
    requires !f.ltype.LSubmessage? && |existing| == |f.sub|
    ensures ReadValue(f, bytes, existing) == ReadValue(f, bytes, DefaultSlots(f.sub))
  {
  }

  /** The entries of a packed array. */
  method DecodePacked(stream: IStream, f: Field, slot: Slot) returns (ok: bool, items: Slot)
    requires stream.Valid() && f.ltype.Packable() && ValidField(f)
    modifies stream
    ensures stream.Valid() && stream.End() == old(stream.End())
    ensures Gives(ReadPacked(f, old(stream.Remaining()), slot), ok, items, stream.Remaining())
    ensures ok ==> stream.bytesLeft == 0
  {
    ghost var p := ReadPacked(f, stream.Remaining(), slot);
    items := slot;
    while stream.bytesLeft > 0 && |items| < f.arraySize
      invariant stream.Valid() && stream.End() == old(stream.End())
      invariant ReadPacked(f, stream.Remaining(), items) == p
      decreases stream.bytesLeft
    {
      var v;
      ok, v := DecodeScalar(stream, f);
      if !ok {
        return;
      }
      items := items + [v];
    }
    ok := stream.bytesLeft == 0;
  }

  /** A packed array. If its items do not use up its bytes, the substream is left open. */
  method DecodePackedField(stream: IStream, f: Field, slot: Slot) returns (ok: bool, filled: Slot)
    requires stream.Valid() && ValidField(f) && f.htype.Repeated? && f.ltype.Packable()
    modifies stream
    ensures stream.Valid() && EndKept(ok, stream.End(), old(stream.End()))
    ensures Gives(ReadInto(f, 2, old(stream.Remaining()), slot), ok, filled, stream.Remaining())
  {
    filled := slot;
    var substream;
    ok, substream := OpenSubstream(stream);
    if !ok {
      return;
    }
    var status;
    status, filled := DecodePacked(substream, f, slot);
    if substream.bytesLeft != 0 {
      return false, filled;
    }
    CloseSubstream(stream, substream);
    ok := status;
  }

  /** One occurrence of a field. */
  method DecodeField(stream: IStream, f: Field, wireType: nat, slot: Slot) returns (ok: bool, filled: Slot)
    requires stream.Valid() && ValidField(f)
    modifies stream
    ensures stream.Valid() && EndKept(ok, stream.End(), old(stream.End()))
    ensures Gives(ReadInto(f, wireType, old(stream.Remaining()), slot), ok, filled, stream.Remaining())
    decreases stream.bytesLeft, 1
  {
    filled := slot;
    var v;
    if f.htype.Repeated? {
      if wireType == 2 && f.ltype.Packable() {
        ok, filled := DecodePackedField(stream, f, slot);
      } else if |slot| >= f.arraySize {
        ok := false;
      } else {
        ok, v := DecodeValue(stream, f, DefaultSlots(f.sub));
        filled := slot + [v];
      }
    } else {
      ok, v := DecodeValue(stream, f, Existing(f, slot));
      filled := [v];
    }
  }

  /** A 32-bit word, as the set of its one bits. */
  type Word = set<nat>

  /** Two words hold the required fields seen so far, by their index among the required fields. */
  ghost predicate Recorded(words: seq<Word>, seen: set<nat>, n: nat) {
    && |words| == 2
    && (forall r: nat :: r in seen ==> r < n && r < MAX_REQUIRED)
    && (forall r: nat :: r < MAX_REQUIRED ==> (r in seen <==> r % 32 in words[r / 32]))
    && (forall b: nat :: b in words[0] || b in words[1] ==> b < 32)
  }

  function SetBit(words: seq<Word>, r: nat): seq<Word>
    requires |words| == 2 && r < MAX_REQUIRED
  {
    words[r / 32 := words[r / 32] + {r % 32}]
  }

  lemma BitRecorded(words: seq<Word>, seen: set<nat>, r: nat, n: nat)
    requires Recorded(words, seen, n) && r < n && r < MAX_REQUIRED
    ensures |words| == 2 && Recorded(SetBit(words, r), seen + {r}, n)
  {
  }

  lemma NothingRecorded(n: nat)
    ensures Recorded([{}, {}], {}, n)
  {
  }

  lemma RecordedBelow(words: seq<Word>, seen: set<nat>, n: nat)
    requires Recorded(words, seen, n)
    ensures Recorded(words, seen, if n > MAX_REQUIRED then MAX_REQUIRED else n)
  {
  }

  /** Comparing whole words with all ones, and the last one with a mask, says whether the first n fields were seen. */
  method CheckRequired(words: seq<Word>, ghost seen: set<nat>, n: nat) returns (ok: bool)
    requires n <= MAX_REQUIRED && Recorded(words, seen, n)
    ensures ok <==> forall r: nat :: r < n ==> r in seen
  {
    for i := 0 to n / 32
      invariant forall r: nat :: r < 32 * i ==> r in seen
    {
      if words[i] != Below(32) {
        ghost var b: nat :| b < 32 && b !in words[i];
        assert (32 * i + b) % 32 == b && (32 * i + b) / 32 == i && 32 * i + b !in seen;
        return false;
      }
      assert forall r: nat :: 32 * i <= r < 32 * i + 32 ==> r / 32 == i;
    }
    var rest := n % 32;
    ok := true;
    if rest != 0 {
      var i := n / 32;
      assert forall r: nat :: 32 * i <= r < 32 * i + 32 ==> r / 32 == i && r % 32 == r - 32 * i;
      if words[i] != Below(rest) {
        ghost var b: nat :| b < 32 && (b in words[i]) != (b < rest);
        assert (32 * i + b) % 32 == b && (32 * i + b) / 32 == i && 32 * i + b !in seen;
        ok := false;
      }
    }
  }

  /** The number of required fields, by running the iterator to the end of the list. */
  method CountRequired(iter: FieldIter) returns (count: nat)
    requires iter.Valid()
    modifies iter
    ensures iter.Valid() && count == RequiredBefore(iter.start, |iter.start|)
  {
    if iter.start == [] {
      return 0;
    }
    var last := iter.pos;
    var more := true;
    count := 0;
    while more
      invariant iter.Valid()
      invariant !more ==> last + 1 == |iter.start| && count == RequiredBefore(iter.start, last)
      decreases if more then |iter.start| - iter.pos else 0
    {
      count := iter.requiredFieldIndex;
      last := iter.pos;
      more := iter.Next();
    }
    if iter.start[last].htype.Required? {
      count := count + 1;
    }
  }

  lemma FindIsFirst(fs: seq<Field>, i: nat, tag: nat)
    requires ValidFields(fs) && i < |fs| && fs[i].tag == tag
    ensures Find(fs, tag) == i
  {
    assert !(Find(fs, tag) < i);
  }

  /** The next key: a field number and a wire type, or the end of the message. */
  method DecodeTag(stream: IStream) returns (ok: bool, eof: bool, wireType: nat, tag: nat)
    requires stream.Valid()
    modifies stream
    ensures stream.Valid() && stream.End() == old(stream.End())
    ensures match DecodeVarint32(old(stream.Remaining()))
            case Failed => !ok && eof == (old(stream.Remaining()) == [])
            case Parsed(key, rest) =>
              stream.Remaining() == rest && eof == (key == 0) && ok == (key != 0) &&
                (ok ==> tag == key / 8 && wireType == key % 8)
  {
    eof, wireType, tag := stream.bytesLeft == 0, 0, 0;
    var key;
    ok, key := ReadVarint32(stream);
    if !ok {
      return;
    }
    if key == 0 {
      return false, true, 0, 0;
    }
    eof, tag, wireType := false, key / 8, key % 8;
  }

  /** Reads one field, or skips it if the list has no such tag, and keeps the record of required fields. */
  method DecodeOne(stream: IStream, iter: FieldIter, tag: nat, wireType: nat, slots: seq<Slot>, words: seq<Word>,
                   ghost seen: set<nat>)
    returns (ok: bool, newSlots: seq<Slot>, newWords: seq<Word>, ghost newSeen: set<nat>)
    requires stream.Valid() && iter.Valid() && ValidFields(iter.start) && |slots| == |iter.start|
    requires Recorded(words, seen, RequiredBefore(iter.start, |iter.start|))
    modifies stream, iter
    ensures stream.Valid() && iter.Valid() && EndKept(ok, stream.End(), old(stream.End()))
    ensures Recorded(newWords, newSeen, RequiredBefore(iter.start, |iter.start|))
    ensures |newSlots| == |iter.start|
    ensures var i := Find(iter.start, tag);
            if i == |iter.start| then
              Gives(SkipField(wireType, old(stream.Remaining())), ok, (), stream.Remaining()) && newSlots == slots &&
                newSeen == seen
            else
              var p := ReadInto(iter.start[i], wireType, old(stream.Remaining()), slots[i]);
              && ok == p.Parsed?
              && (ok ==> stream.Remaining() == p.rest && newSlots == Store(iter.start, slots, i, p.value)
                         && newSeen == Seen(iter.start, seen, i))
    decreases stream.bytesLeft, 2
  {
    hide ReadInto, SkipField, Store, Recorded, ValidField, LaidOut;
    newSlots, newWords, newSeen := slots, words, seen;
    var found := false;
    if iter.start != [] || tag != 0 {
      found := iter.Find(tag);
    }
    if !found {
      ok := SkipValue(stream, wireType);
      return;
    }
    FindIsFirst(iter.start, iter.pos, tag);
    var f := iter.start[iter.pos];
    if f.htype.Required? && iter.requiredFieldIndex < MAX_REQUIRED {
      RequiredGrows(iter.start, iter.pos, |iter.start|);
      BitRecorded(words, seen, iter.requiredFieldIndex, RequiredBefore(iter.start, |iter.start|));
      newWords := SetBit(words, iter.requiredFieldIndex);
      newSeen := seen + {iter.requiredFieldIndex};
    }
    var slot;
    ok, slot := DecodeField(stream, f, wireType, slots[iter.pos]);
    if ok {
      newSlots := Store(iter.start, slots, iter.pos, slot);
    }
  }

  /** The field loop and the check for required fields, on top of what the structure holds. */
  method DecodeNoInit(stream: IStream, fs: seq<Field>, init: seq<Slot>) returns (ok: bool, slots: seq<Slot>)
    requires stream.Valid() && ValidFields(fs) && |init| == |fs|
    modifies stream
    ensures stream.Valid() && EndKept(ok, stream.End(), old(stream.End()))
    ensures Gives(ReadMessage(fs, old(stream.Remaining()), init), ok, slots, stream.Remaining())
    decreases stream.bytesLeft, 3
  {
    hide ReadInto, SkipField, Store, Seen, Recorded, ValidFields, LaidOut;
    ghost var p := ReadFields(fs, stream.Remaining(), init, {});
    NothingRecorded(RequiredBefore(fs, |fs|));
    var words: seq<Word> := [{}, {}];
    ghost var seen: set<nat> := {};
    var iter := new FieldIter(fs, Layout(fs));
    slots := init;
    while stream.bytesLeft > 0
      invariant stream.Valid() && stream.End() == old(stream.End()) && stream.bytesLeft <= old(stream.bytesLeft)
      invariant iter.Valid() && fresh(iter) && iter.start == fs && |slots| == |fs|
      invariant Recorded(words, seen, RequiredBefore(fs, |fs|))
      invariant ReadFields(fs, stream.Remaining(), slots, seen) == p
      decreases stream.bytesLeft
    {
      var eof, wireType, tag;
      ok, eof, wireType, tag := DecodeTag(stream);
      if !ok {
        if eof {
          break;
        }
        return;
      }
      ok, slots, words, seen := DecodeOne(stream, iter, tag, wireType, slots, words, seen);
      if !ok {
        return;
      }
    }
    assert p == Parsed((slots, seen), stream.Remaining());
    var count := CountRequired(iter);
    RecordedBelow(words, seen, count);
    if count > MAX_REQUIRED {
      count := MAX_REQUIRED;
    }
    ok := CheckRequired(words, seen, count);
  }

  /** Decoding into a structure set to its defaults first. */
  method Decode(stream: IStream, fs: seq<Field>) returns (ok: bool, slots: seq<Slot>)
    requires stream.Valid() && ValidFields(fs)
    modifies stream
    ensures stream.Valid() && EndKept(ok, stream.End(), old(stream.End()))
    ensures Gives(ReadMessage(fs, old(stream.Remaining()), DefaultSlots(fs)), ok, slots, stream.Remaining())
  {
    ok, slots := DecodeNoInit(stream, fs, DefaultSlots(fs));
  }
}

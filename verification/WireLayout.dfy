/** The bytes themselves: what the encoder writes, digit by digit, and what the decoder makes of any integer it
    meets. */
module WireLayout {
  import opened MachineWords
  import opened FixedWidth
  import opened Varints
  import opened Products
  import opened Descriptors
  import opened WireFormat
  import opened WireRoundTrip

  // ---------- digits ----------

  /** Seven bits a byte, least significant first, the top bit on all bytes but the last. */
  lemma {:induction false} VarintByte(v: nat, k: nat)
    requires k < |EncodeVarint(v)|
    ensures EncodeVarint(v)[k] == v / Power128(k) % 128 + if k + 1 < |EncodeVarint(v)| then 128 else 0
    decreases k
  {
    if k > 0 {
      VarintByte(v / 128, k - 1);
      DivideTwice(v, 128, Power128(k - 1));
    }
  }

  /** As many bytes as the value needs, and no more. */
  lemma {:induction false} VarintSize(v: nat)
    ensures v < Power128(|EncodeVarint(v)|)
    ensures |EncodeVarint(v)| > 1 ==> v >= Power128(|EncodeVarint(v)| - 1)
  {
    if v >= 128 {
      VarintSize(v / 128);
    }
  }

  // ---------- fields ----------

  function Int(n: int): nat
    requires -TWO_63 <= n < TWO_63
  {
    if n < 0 then n + 0x1_0000_0000_0000_0000 else n
  }

  /** The number that stands for a signed one in the zigzag types. */
  function Sint(n: int): nat {
    if n < 0 then -2 * n - 1 else 2 * n
  }

  function Delimited(data: seq<Byte>): seq<Byte> {
    EncodeVarint(|data|) + data
  }

  /** One value of a field: its number and wire type, and its contents. */
  ghost function Item(f: Field, v: Value): seq<Byte>
    requires ValidField(f) && Holds(f, v)
  {
    IntegersFit(f, v);
    match f.ltype
    case LBool => EncodeVarint(8 * f.tag + 0) + [if v.b then 1 else 0]
    case LVarint => EncodeVarint(8 * f.tag + 0) + EncodeVarint(Int(v.n))
    case LUVarint => EncodeVarint(8 * f.tag + 0) + EncodeVarint(v.n)
    case LSVarint => EncodeVarint(8 * f.tag + 0) + EncodeVarint(Sint(v.n))
    case LFixed64 => EncodeVarint(8 * f.tag + 1) + seq(8, k requires 0 <= k < 8 => v.n / Power256(k) % 256)
    case LFixed32 => EncodeVarint(8 * f.tag + 5) + seq(4, k requires 0 <= k < 4 => v.n / Power256(k) % 256)
    case LSubmessage => EncodeVarint(8 * f.tag + 2) + Delimited(MessageBytes(f.sub, v.slots, 0))
    case _ => EncodeVarint(8 * f.tag + 2) + Delimited(v.data)
  }

  lemma IntegersFit(f: Field, v: Value)
    requires ValidField(f) && Holds(f, v)
    ensures f.ltype.LVarint? || f.ltype.LSVarint? ==> -TWO_63 <= v.n < TWO_63
    ensures f.ltype.LUVarint? ==> 0 <= v.n < TWO_64
  {
    if f.ltype.Integer() {
      SizesFitIn64(f.dataSize);
      if !f.ltype.LUVarint? {
        SignedRoundTrip(v.n, f.dataSize);
      }
    }
  }

  /** Several values of a field, one by one. */
  ghost function Items(f: Field, items: seq<Value>): seq<Byte>
    requires ValidField(f) && forall i: nat :: i < |items| ==> Holds(f, items[i])
  {
    if items == [] then [] else Item(f, items[0]) + Items(f, items[1..])
  }

  lemma {:induction false} ItemIsWritten(f: Field, v: Value)
    requires ValidField(f) && Holds(f, v)
    ensures TagBytes(f, WireType(f.ltype)) + ValueBytes(f, v) == Item(f, v)
  {
    IntegersFit(f, v);
    match f.ltype {
      case LBool =>
        assert EncodeVarint(1) == [1] && EncodeVarint(0) == [0];
      case LSVarint => ZigzagRoundTrip(v.n);
      case LFixed32 => FixedIsWritten(v.n, 4);
      case LFixed64 => FixedIsWritten(v.n, 8);
      case _ =>
    }
  }

  lemma FixedIsWritten(n: nat, width: nat)
    ensures PutFixed(n, width) == seq(width, k requires 0 <= k < width => n / Power256(k) % 256)
  {
    forall k: nat | k < width ensures PutFixed(n, width)[k] == n / Power256(k) % 256 {
      FixedByte(n, width, k);
    }
  }

  /** What the encoder writes one by one. */
  lemma {:induction false} ItemsAreWritten(f: Field, items: seq<Value>)
    requires ValidField(f) && forall i: nat :: i < |items| ==> Holds(f, items[i])
    ensures TaggedItemsBytes(f, items) == Items(f, items)
    decreases |items|
  {
    hide ValueBytes, Item, Holds, TagBytes;
    if items != [] {
      ItemIsWritten(f, items[0]);
      ItemsAreWritten(f, items[1..]);
    }
  }

  /** What is written for a member: a required one always, an optional one if it is there, one without a has-flag if it
      differs from a cleared one as far as that is seen, and arrays packed if their type can be. */
  lemma {:induction false} SlotIsWritten(f: Field, slot: Slot)
    requires ValidField(f) && HoldsSlot(f, slot)
    ensures SlotBytes(f, slot) ==
            match f.htype
            case Repeated =>
              if !f.ltype.Packable() then Items(f, slot)
              else if slot == [] then []
              else EncodeVarint(8 * f.tag + 2) + Delimited(ItemsBytes(f, slot))
            case Singular => if slot[0] == ZeroValue(f) && ZeroIsSeen(f) then [] else Items(f, slot)
            case _ => Items(f, slot)
  {
    ItemsAreWritten(f, slot);
    if f.htype.Singular? {
      DefaultExactly(f, slot[0]);
    }
    assert TaggedItemsBytes(f, []) == [];
    hide ValueIsDefault, ZeroValue, ZeroIsSeen, Items, TaggedItemsBytes, ItemsBytes, Holds, ValidField;
  }

  /** A packed array is its items without their tags. */
  lemma {:induction false} PackedItems(f: Field, items: seq<Value>)
    requires ValidField(f) && items != [] && forall i: nat :: i < |items| ==> Holds(f, items[i])
    ensures EncodeVarint(8 * f.tag + WireType(f.ltype)) + ItemsBytes(f, items) ==
            Item(f, items[0]) + ItemsBytes(f, items[1..])
  {
    hide ValueBytes, Item, Holds;
    ItemIsWritten(f, items[0]);
    assert TagBytes(f, WireType(f.ltype)) + ValueBytes(f, items[0]) + ItemsBytes(f, items[1..]) ==
           TagBytes(f, WireType(f.ltype)) + (ValueBytes(f, items[0]) + ItemsBytes(f, items[1..]));
  }

  /** Negative integers of the types without zigzag take ten bytes, whatever the size of the member. */
  lemma NegativeTakesTen(n: int)
    requires -TWO_63 <= n < 0
    ensures |EncodeVarint(Int(n))| == 10
  {
    Power128Values();
    VarintLength(Int(n), 10);
    VarintSize(Int(n));
    var size := |EncodeVarint(Int(n))|;
    assert Power128(9) == 0x8000_0000_0000_0000 by {
      assert 128 * Power128(9) == Power128(10);
    }
    if size < 10 {
      PowersGrow(size, 9);
    }
  }

  lemma {:induction false} PowersGrow(j: nat, k: nat)
    requires j <= k
    ensures Power128(j) <= Power128(k)
    decreases k
  {
    if j < k {
      PowersGrow(j, k - 1);
    }
  }

  lemma {:induction false} Ones(k: nat)
    ensures EncodeVarint(2 * Power128(k) - 1) == seq(k, _ => 255) + [1]
  {
    if k == 0 {
      assert EncodeVarint(1) == [1];
    } else {
      var v, rest := 2 * Power128(k) - 1, 2 * Power128(k - 1) - 1;
      assert v == 128 * rest + 127;
      Ones(k - 1);
      assert seq(k, _ => 255) == [255] + seq(k - 1, _ => 255);
      assert EncodeVarint(v) == [255] + EncodeVarint(rest);
    }
  }

  /** Field 1 with the value -1. */
  lemma {:induction false} MinusOne(f: Field)
    requires ValidField(f) && f.tag == 1 && f.ltype.LVarint? && Holds(f, Number(-1))
    ensures Item(f, Number(-1)) == [8] + seq(9, _ => 255) + [1]
  {
    Power128Values();
    Ones(9);
    assert EncodeVarint(8) == [8];
    assert 128 * Power128(9) == Power128(10);
    hide EncodeVarint;
    assert [8] + (seq(9, _ => 255) + [1]) == [8] + seq(9, _ => 255) + [1];
  }

  // ---------- any width ----------

  /** What was written from a member of one width is read into every member at least as wide. */
  lemma {:induction false} WidthDoesNotMatter(f: Field, g: Field, v: Value, rest: seq<Byte>)
    requires ValidField(f) && ValidField(g) && Holds(f, v)
    requires f.ltype.Integer() && g.ltype == f.ltype && f.dataSize <= g.dataSize
    ensures ReadValue(g, ValueBytes(f, v) + rest, DefaultSlots(g.sub)) == Parsed(v, rest)
  {
    WiderHolds(f, g, v);
    assert ValueBytes(g, v) == ValueBytes(f, v);
    hide ValueBytes, ReadValue, ValidField, Holds;
    IntegerRoundTrip(g, v, rest);
  }

  lemma WiderHolds(f: Field, g: Field, v: Value)
    requires ValidField(f) && ValidField(g) && Holds(f, v)
    requires f.ltype.Integer() && g.ltype == f.ltype && f.dataSize <= g.dataSize
    ensures Holds(g, v)
  {
    Power256Values();
    assert Power256(1) == 256 && Power256(2) == 65536;
    hide Power256;
  }

  // ---------- reading any integer ----------

  /** Signed integers are taken modulo 2^64, or modulo 2^32 for members of at most four bytes, which refuse what does
      not fit. */
  lemma {:induction false} ReadsInt(f: Field, u: nat, rest: seq<Byte>)
    requires ValidField(f) && f.ltype.LVarint? && u < TWO_64
    ensures var m := if f.dataSize == 8 then 0x1_0000_0000_0000_0000 else 0x1_0000_0000;
            var n := if u % m < m / 2 then u % m else u % m - m;
            ReadValue(f, EncodeVarint(u) + rest, DefaultSlots(f.sub)) ==
            if SignedFits(n, f.dataSize) then Parsed(Number(n), rest) else Failed
  {
    VarintRoundTrip(u, rest);
    hide EncodeVarint, DecodeVarint, SignedFits;
  }

  lemma {:induction false} ReadsUnsigned(f: Field, u: nat, rest: seq<Byte>)
    requires ValidField(f) && f.ltype.LUVarint? && u < TWO_64
    ensures ReadValue(f, EncodeVarint(u) + rest, DefaultSlots(f.sub)) ==
            if u < Power256(f.dataSize) then Parsed(Number(u), rest) else Failed
  {
    VarintRoundTrip(u, rest);
    hide EncodeVarint, DecodeVarint, Power256;
  }

  lemma {:induction false} ReadsSint(f: Field, u: nat, rest: seq<Byte>)
    requires ValidField(f) && f.ltype.LSVarint? && u < TWO_64
    ensures var n := if u % 2 == 0 then u / 2 else -(u / 2) - 1;
            ReadValue(f, EncodeVarint(u) + rest, DefaultSlots(f.sub)) ==
            if SignedFits(n, f.dataSize) then Parsed(Number(n), rest) else Failed
  {
    VarintRoundTrip(u, rest);
    hide EncodeVarint, DecodeVarint, SignedFits;
  }

  /** Every number but zero is true. */
  lemma {:induction false} ReadsBool(f: Field, u: nat, rest: seq<Byte>)
    requires f.ltype.LBool? && u < TWO_32
    ensures ReadValue(f, EncodeVarint(u) + rest, DefaultSlots(f.sub)) == Parsed(Flag(u != 0), rest)
  {
    Varint32RoundTrip(u, rest);
    hide EncodeVarint, DecodeVarint32;
  }

  /** A string ends before its first zero byte. */
  lemma {:induction false} UpToNulIs(data: seq<Byte>, k: nat)
    requires k <= |data| && 0 !in data[..k] && (k < |data| ==> data[k] == 0)
    ensures UpToNul(data) == data[..k]
  {
    if k > 0 {
      assert data[0] in data[..k] && data[1..][..k - 1] == data[..k][1..];
      UpToNulIs(data[1..], k - 1);
      assert data[..k] == [data[0]] + data[1..][..k - 1];
    }
  }

  lemma {:induction false} ReadsPrefix(data: seq<Byte>, rest: seq<Byte>)
    requires |data| < TWO_32
    ensures DecodeVarint32(EncodeVarint(|data|) + data + rest) == Parsed(|data|, data + rest)
    ensures TakeBytes(data + rest, |data|) == Parsed(data, rest)
  {
    TakeFront(data, rest);
    Varint32RoundTrip(|data|, data + rest);
    hide EncodeVarint, DecodeVarint32;
    assert EncodeVarint(|data|) + data + rest == EncodeVarint(|data|) + (data + rest);
  }

  /** A string needs room for its terminator. */
  lemma {:induction false} ReadsString(f: Field, data: seq<Byte>, k: nat, rest: seq<Byte>)
    requires ValidField(f) && f.ltype.LString? && |data| < TWO_32
    requires k <= |data| && 0 !in data[..k] && (k < |data| ==> data[k] == 0)
    ensures ReadValue(f, EncodeVarint(|data|) + data + rest, DefaultSlots(f.sub)) ==
            if |data| < f.dataSize then Parsed(Blob(data[..k]), rest) else Failed
  {
    UpToNulIs(data, k);
    ReadsPrefix(data, rest);
    hide EncodeVarint, DecodeVarint32, UpToNul, TakeBytes, ValidField;
  }

  /** A bytes member needs room for its size. */
  lemma {:induction false} ReadsBytes(f: Field, data: seq<Byte>, rest: seq<Byte>)
    requires ValidField(f) && f.ltype.LBytes? && |data| < TWO_32
    ensures ReadValue(f, EncodeVarint(|data|) + data + rest, DefaultSlots(f.sub)) ==
            if |data| + 4 <= f.dataSize then Parsed(Blob(data), rest) else Failed
  {
    ReadsPrefix(data, rest);
    hide EncodeVarint, DecodeVarint32, TakeBytes, ValidField;
  }

  /** Bytes of a fixed length are all there, or none, which stands for zeros. */
  lemma {:induction false} ReadsFixedLength(f: Field, data: seq<Byte>, rest: seq<Byte>)
    requires ValidField(f) && f.ltype.LFixedLengthBytes? && |data| < TWO_32
    ensures ReadValue(f, EncodeVarint(|data|) + data + rest, DefaultSlots(f.sub)) ==
            if |data| == f.dataSize then Parsed(Blob(data), rest)
            else if data == [] then Parsed(Blob(Zeros(f.dataSize)), rest)
            else Failed
  {
    ReadsPrefix(data, rest);
    if data == [] {
      assert data + rest == rest && data == Zeros(0);
    }
    hide EncodeVarint, DecodeVarint32, TakeBytes, ValidField, Zeros;
  }

  /** Too short a stream fails. */
  lemma {:induction false} ReadsTooShort(f: Field, n: nat, data: seq<Byte>)
    requires ValidField(f) && n < TWO_32 && |data| < n
    requires f.ltype.LBytes? || f.ltype.LString? || f.ltype.LFixedLengthBytes? || f.ltype.LSubmessage?
    ensures ReadValue(f, EncodeVarint(n) + data, DefaultSlots(f.sub)) == Failed
  {
    Varint32RoundTrip(n, data);
    hide EncodeVarint, DecodeVarint32;
  }
}

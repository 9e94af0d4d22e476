/** Message descriptors, and message structures as values: what an array of field descriptors says about the
    members of a C structure, with static allocation. */
module Descriptors {
  import opened FixedWidth

  const SIZE_MAX: nat := 0xFFFF_FFFF   // largest count or size: descriptors use 32-bit fields
  const BYTES_OFFSET: nat := 4         // where the data of a bytes member starts, after its size
  const MAX_TAG: nat := 0x1FFF_FFFF

  datatype LType =
    | LBool | LVarint | LUVarint | LSVarint | LFixed32 | LFixed64
    | LBytes | LString | LSubmessage | LFixedLengthBytes
  {
    predicate Packable() {
      LBool? || LVarint? || LUVarint? || LSVarint? || LFixed32? || LFixed64?
    }

    predicate Integer() {
      LVarint? || LUVarint? || LSVarint?
    }
  }

  /** Singular is the proto3 style: optional without a has-flag. Members of a oneof share its union. */
  datatype HType = Required | Optional | Singular | Repeated | Oneof(union: nat)

  /** dataOffset is relative to the end of the previous member, and SIZE_MAX marks a further member of a union. */
  datatype Field = Field(tag: nat, htype: HType, ltype: LType, dataOffset: nat, dataSize: nat, arraySize: nat,
                         sub: seq<Field>)

  /** The contents of one structure member, or of one entry of an array member. */
  datatype Value = Flag(b: bool) | Number(n: int) | Blob(data: seq<Byte>) | Message(slots: seq<Slot>)

  /** What a structure holds for one field: one value, none or one, or as many as the count says. */
  type Slot = seq<Value>

  ghost predicate ValidField(f: Field)
    decreases f, 0
  {
    && 1 <= f.tag <= MAX_TAG && f.dataSize <= SIZE_MAX && f.arraySize <= SIZE_MAX
    && (f.ltype.Integer() ==> f.dataSize in {1, 2, 4, 8})
    && (f.ltype.LBytes? ==> BYTES_OFFSET <= f.dataSize)
    && (f.ltype.LString? ==> 1 <= f.dataSize)
    && (f.ltype.LSubmessage? ==> ValidFields(f.sub))
  }

  ghost predicate ValidFields(fs: seq<Field>)
    decreases fs, 1
  {
    && (forall i: nat :: i < |fs| ==> ValidField(fs[i]))
    && (forall i: nat, j: nat :: i < j < |fs| ==> fs[i].tag != fs[j].tag)
  }

  predicate SignedFits(n: int, size: nat) {
    -(Power256(size) / 2) <= n < Power256(size) / 2
  }

  predicate UnsignedFits(n: int, size: nat) {
    0 <= n < Power256(size)
  }

  /** The value is one that memory of the field's type can hold. A string is what precedes its terminator,
      or the whole buffer when there is none. */
  ghost predicate Holds(f: Field, v: Value)
    decreases f, 0
  {
    match f.ltype
    case LBool => v.Flag?
    case LVarint => v.Number? && SignedFits(v.n, f.dataSize)
    case LSVarint => v.Number? && SignedFits(v.n, f.dataSize)
    case LUVarint => v.Number? && UnsignedFits(v.n, f.dataSize)
    case LFixed32 => v.Number? && UnsignedFits(v.n, 4)
    case LFixed64 => v.Number? && UnsignedFits(v.n, 8)
    case LBytes => v.Blob? && |v.data| <= SIZE_MAX
    case LString => v.Blob? && |v.data| <= f.dataSize && 0 !in v.data
    case LFixedLengthBytes => v.Blob? && |v.data| == f.dataSize
    case LSubmessage => v.Message? && Conforms(f.sub, v.slots)
  }

  ghost predicate HoldsSlot(f: Field, slot: Slot)
    decreases f, 1
  {
    && (forall i: nat :: i < |slot| ==> Holds(f, slot[i]))
    && match f.htype
       case Required => |slot| == 1
       case Singular => |slot| == 1
       case Optional => |slot| <= 1
       case Oneof(_) => |slot| <= 1
       case Repeated => |slot| <= SIZE_MAX
  }

  predicate SameUnion(f: Field, g: Field) {
    f.htype.Oneof? && g.htype == f.htype
  }

  ghost predicate Conforms(fs: seq<Field>, slots: seq<Slot>)
    decreases fs, 2
  {
    && |slots| == |fs|
    && (forall i: nat :: i < |fs| ==> HoldsSlot(fs[i], slots[i]))
    && (forall i: nat, j: nat :: i < j < |fs| && SameUnion(fs[i], fs[j]) ==> slots[i] == [] || slots[j] == [])
  }

  function ZeroValue(f: Field): Value
    decreases f, 0
  {
    match f.ltype
    case LBool => Flag(false)
    case LBytes => Blob([])
    case LString => Blob([])
    case LFixedLengthBytes => Blob(Zeros(f.dataSize))
    case LSubmessage => Message(DefaultSlots(f.sub))
    case _ => Number(0)
  }

  function DefaultSlot(f: Field): Slot
    decreases f, 1
  {
    if f.htype.Required? || f.htype.Singular? then [ZeroValue(f)] else []
  }

  /** A structure set to its defaults. */
  function DefaultSlots(fs: seq<Field>): (slots: seq<Slot>)
    ensures |slots| == |fs|
    decreases fs, 2
  {
    seq(|fs|, i requires 0 <= i < |fs| => DefaultSlot(fs[i]))
  }

  /** The zero check that decides whether a proto3-style member is written. */
  predicate SlotIsDefault(f: Field, slot: Slot)
    decreases f, 1
  {
    match f.htype
    case Required => false
    case Singular => slot != [] && ValueIsDefault(f, slot[0])
    case _ => slot == []
  }

  predicate ValueIsDefault(f: Field, v: Value)
    decreases f, 0
  {
    match f.ltype
    case LBool => v == Flag(false)
    case LBytes => v == Blob([])
    case LString => v == Blob([])
    case LFixedLengthBytes => f.dataSize == 0
    case LSubmessage =>
      v.Message? && |v.slots| == |f.sub| &&
      forall i: nat :: i < |f.sub| ==> SlotIsDefault(f.sub[i], v.slots[i])
    case _ => v == Number(0)
  }

  /** The values of a slot that are written. */
  function Emitted(f: Field, slot: Slot): Slot {
    if f.htype.Singular? && SlotIsDefault(f, slot) then [] else slot
  }

  /** What is not written is what a fresh structure holds. */
  lemma {:induction false} DefaultValueIsZero(f: Field, v: Value)
    requires Holds(f, v) && ValueIsDefault(f, v)
    ensures v == ZeroValue(f)
    decreases f
  {
    if f.ltype.LSubmessage? {
      forall i: nat | i < |f.sub| ensures v.slots[i] == DefaultSlots(f.sub)[i] {
        assert SlotIsDefault(f.sub[i], v.slots[i]) && HoldsSlot(f.sub[i], v.slots[i]);
        if f.sub[i].htype.Singular? {
          assert Holds(f.sub[i], v.slots[i][0]);
          DefaultValueIsZero(f.sub[i], v.slots[i][0]);
          assert v.slots[i] == [v.slots[i][0]];
        }
      }
      assert v.slots == DefaultSlots(f.sub);
    }
  }

  /** The types for which the test sees that a value is all zero: it looks neither at the bytes of a fixed-length member
      nor past a required member. */
  predicate ZeroIsSeen(f: Field)
    decreases f
  {
    match f.ltype
    case LFixedLengthBytes => f.dataSize == 0
    case LSubmessage =>
      forall i: nat :: i < |f.sub| ==> !f.sub[i].htype.Required? && (f.sub[i].htype.Singular? ==> ZeroIsSeen(f.sub[i]))
    case _ => true
  }

  lemma {:induction false} ZeroIsDefault(f: Field)
    ensures ValueIsDefault(f, ZeroValue(f)) <==> ZeroIsSeen(f)
    decreases f
  {
    if f.ltype.LSubmessage? {
      forall i: nat | i < |f.sub|
        ensures SlotIsDefault(f.sub[i], DefaultSlots(f.sub)[i])
           <==> !f.sub[i].htype.Required? && (f.sub[i].htype.Singular? ==> ZeroIsSeen(f.sub[i]))
      {
        ZeroIsDefault(f.sub[i]);
      }
    }
  }

  /** The test holds exactly of the cleared value, of the types for which it sees that. */
  lemma DefaultExactly(f: Field, v: Value)
    requires Holds(f, v)
    ensures ValueIsDefault(f, v) <==> v == ZeroValue(f) && ZeroIsSeen(f)
  {
    hide ValueIsDefault, ZeroValue, ZeroIsSeen, Holds;
    ZeroIsDefault(f);
    if ValueIsDefault(f, v) {
      DefaultValueIsZero(f, v);
    }
  }

  /** A fresh structure is one that its descriptors describe. */
  lemma {:induction false} ZeroValueHolds(f: Field)
    requires ValidField(f)
    ensures Holds(f, ZeroValue(f))
    decreases f, 0
  {
    ZeroFits(f.dataSize);
    ZeroFits(4);
    ZeroFits(8);
    hide Power256, SignedFits, UnsignedFits;
    if f.ltype.LSubmessage? {
      DefaultSlotsConform(f.sub);
    }
  }

  lemma ZeroFits(size: nat)
    ensures UnsignedFits(0, size) && (size >= 1 ==> SignedFits(0, size))
  {
  }

  lemma {:induction false} DefaultSlotsConform(fs: seq<Field>)
    requires ValidFields(fs)
    ensures Conforms(fs, DefaultSlots(fs))
    decreases fs, 1
  {
    var slots := DefaultSlots(fs);
    forall i: nat | i < |fs| ensures HoldsSlot(fs[i], slots[i]) {
      ZeroValueHolds(fs[i]);
    }
  }
}

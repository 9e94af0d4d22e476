/** The cyclic iterator over a descriptor list that the encoder and the decoder share. */
module FieldIterators {
  import opened Descriptors
  import opened WireFormat

  /** The room a member takes in the structure. */
  function MemberSize(f: Field): nat {
    if f.htype.Repeated? then f.dataSize * f.arraySize else f.dataSize
  }

  predicate ContinuesUnion(prev: Field, f: Field) {
    prev.htype.Oneof? && f.htype.Oneof? && f.dataOffset == SIZE_MAX
  }

  /** offsets are the positions of the members in the structure, when the descriptors record the padding between
      them: the members of a union share a position. */
  ghost predicate LaidOut(fs: seq<Field>, offsets: seq<nat>) {
    && |offsets| == |fs|
    && (fs != [] ==> offsets[0] == fs[0].dataOffset)
    && forall i: nat :: 0 < i < |fs| ==>
         offsets[i] == if ContinuesUnion(fs[i - 1], fs[i]) then offsets[i - 1]
                       else offsets[i - 1] + MemberSize(fs[i - 1]) + fs[i].dataOffset
  }

  /** Every descriptor list lays out some structure. */
  ghost function Layout(fs: seq<Field>): (offsets: seq<nat>)
    ensures LaidOut(fs, offsets)
  {
    if fs == [] then []
    else
      var n := |fs| - 1;
      var front := Layout(fs[..n]);
      front + [if n == 0 then fs[0].dataOffset
               else if ContinuesUnion(fs[n - 1], fs[n]) then front[n - 1]
               else front[n - 1] + MemberSize(fs[n - 1]) + fs[n].dataOffset]
  }

  /** The steps from position p forward to position q, going round a list of n. */
  function Distance(p: nat, q: nat, n: nat): nat
    requires p < n && q < n
  {
    if p <= q then q - p else q + n - p
  }

  class FieldIter {
    const start: seq<Field>
    var pos: nat
    var requiredFieldIndex: nat
    var pData: nat
    ghost const offsets: seq<nat>

    /** On a non-empty list: a position, the number of required fields before it, and where its data is. */
    ghost predicate Valid()
      reads this
    {
      && LaidOut(start, offsets)
      && (if start == [] then pos == 0 && requiredFieldIndex == 0
          else pos < |start| && requiredFieldIndex == RequiredBefore(start, pos) && pData == offsets[pos])
    }

    constructor (fields: seq<Field>, ghost layout: seq<nat>)
      requires LaidOut(fields, layout)
      ensures Valid() && pos == 0 && start == fields && offsets == layout
    {
      start, offsets := fields, layout;
      pos, requiredFieldIndex := 0, 0;
      pData := if fields == [] then 0 else fields[0].dataOffset;
    }

    method Begin() returns (nonEmpty: bool)
      requires LaidOut(start, offsets)
      modifies this
      ensures Valid() && pos == 0 && nonEmpty == (start != [])
    {
      pos, requiredFieldIndex := 0, 0;
      if start != [] {
        pData := start[0].dataOffset;
      }
      nonEmpty := start != [];
    }

    /** One step; false when it wraps round, and always on an empty list. */
    method Next() returns (more: bool)
      requires Valid()
      modifies this
      ensures Valid()
      ensures more == (old(pos) + 1 < |start|)
      ensures pos == if more then old(pos) + 1 else 0
    {
      if start == [] {
        return false;
      }
      var prev := start[pos];
      pos := pos + 1;
      if pos == |start| {
        var _ := Begin();
        return false;
      }
      if ContinuesUnion(prev, start[pos]) {
        return true;
      }
      if prev.htype.Required? {
        requiredFieldIndex := requiredFieldIndex + 1;
      }
      pData := pData + MemberSize(prev) + start[pos].dataOffset;
      return true;
    }

    /** The cyclic search: finds the nearest field with the tag, counting from here, or comes back to the start. On an
        empty list it looks at the terminator, whose tag is zero. */
    method Find(tag: nat) returns (found: bool)
      requires Valid() && (start == [] ==> tag != 0)
      modifies this
      ensures Valid()
      ensures found <==> exists i: nat :: i < |start| && start[i].tag == tag
      ensures found ==> start[pos].tag == tag
      ensures found ==> forall i: nat :: i < |start| && start[i].tag == tag ==>
                Distance(old(pos), pos, |start|) <= Distance(old(pos), i, |start|)
      ensures !found ==> pos == old(pos)
    {
      if start == [] {
        return false;
      }
      var first := pos;
      ghost var steps := 0;
      while true
        invariant Valid() && steps < |start| && steps == Distance(first, pos, |start|)
        invariant forall i: nat :: i < |start| && Distance(first, i, |start|) < steps ==> start[i].tag != tag
        decreases |start| - steps
      {
        if start[pos].tag == tag {
          return true;
        }
        var _ := Next();
        if pos == first {
          return false;
        }
        steps := steps + 1;
      }
    }
  }
}

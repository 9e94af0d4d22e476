/** Circular doubly linked lists whose links are part of their elements. A list is known by its head, which is a link
    like the others; a link that is in no list is linked to itself, or left pointing into the list it was removed
    from. */
module IntrusiveQueues {

  class Link {
    var next: Link
    var prev: Link

    constructor ()
      ensures Ring([this])
    {
      next, prev := this, this;
    }

    predicate Empty()
      reads this
    {
      next == this
    }
  }

  function Succ(i: nat, n: nat): nat {
    if i + 1 == n then 0 else i + 1
  }

  /** The links of a list in order, its head first: all different, each pointing to the next and back, around to the
      head. */
  ghost predicate Ring(ring: seq<Link>)
    reads ring
  {
    && ring != []
    && (forall i: nat, j: nat :: i < j < |ring| ==> ring[i] != ring[j])
    && (forall i: nat :: i < |ring| ==> Joined(ring, i))
  }

  ghost predicate Joined(ring: seq<Link>, i: nat)
    requires i < |ring|
    reads ring
  {
    ring[i].next == ring[Succ(i, |ring|)] && ring[Succ(i, |ring|)].prev == ring[i]
  }

  method Init(q: Link)
    modifies q
    ensures Ring([q])
  {
    q.next := q;
    q.prev := q;
  }

  /** A list is empty exactly if its head is linked to itself; otherwise the head points to the first element. */
  lemma EmptyExactly(ring: seq<Link>)
    requires Ring(ring)
    ensures ring[0].Empty() <==> |ring| == 1
    ensures |ring| > 1 ==> ring[0].next == ring[1]
  {
    assert Joined(ring, 0);
  }

  method InsertTail(h: Link, q: Link, ghost ring: seq<Link>)
    requires Ring(ring) && ring[0] == h && q !in ring
    modifies q, h`prev, h.prev`next
    ensures Ring(ring + [q])
  {
    assert Joined(ring, |ring| - 1);
    q.next := h;
    q.prev := h.prev;
    q.prev.next := q;
    h.prev := q;
    forall i: nat | i < |ring + [q]| ensures Joined(ring + [q], i) {
      if i < |ring| {
        assert old(Joined(ring, i));
      }
    }
  }

  method InsertHead(h: Link, q: Link, ghost ring: seq<Link>)
    requires Ring(ring) && ring[0] == h && q !in ring
    modifies q, h`next, h.next`prev
    ensures Ring([h, q] + ring[1..])
  {
    assert Joined(ring, 0);
    q.next := h.next;
    q.prev := h;
    q.next.prev := q;
    h.next := q;
    ghost var r := [h, q] + ring[1..];
    forall i: nat | i < |r| ensures Joined(r, i) {
      if i > 0 {
        assert old(Joined(ring, i - 1));
      }
    }
  }

  /** Unlinks an element. Its own links are left as they are, so it does not look empty. */
  method Remove(q: Link, ghost ring: seq<Link>, ghost i: nat)
    requires Ring(ring) && 0 < i < |ring| && ring[i] == q
    modifies q.prev`next, q.next`prev
    ensures Ring(ring[..i] + ring[i + 1..]) && !q.Empty()
  {
    assert Joined(ring, i - 1) && Joined(ring, i);
    q.prev.next := q.next;
    q.next.prev := q.prev;
    ghost var r := ring[..i] + ring[i + 1..];
    forall k: nat | k < |r| ensures Joined(r, k) {
      assert old(Joined(ring, k));
      assert k + 1 < |ring| ==> old(Joined(ring, k + 1));
    }
  }

  /** The elements from q on go to the list of n. */
  method Split(h: Link, q: Link, n: Link, ghost ring: seq<Link>, ghost i: nat)
    requires Ring(ring) && ring[0] == h && 0 < i < |ring| && ring[i] == q && n !in ring
    modifies n, h`prev, h.prev`next, q`prev, q.prev`next
    ensures Ring(ring[..i]) && Ring([n] + ring[i..])
  {
    assert Joined(ring, i - 1) && Joined(ring, |ring| - 1);
    n.prev := h.prev;
    n.prev.next := n;
    n.next := q;
    h.prev := q.prev;
    h.prev.next := h;
    q.prev := n;
    ghost var r := [n] + ring[i..];
    forall k: nat | k < i ensures Joined(ring[..i], k) {
      assert old(Joined(ring, k));
    }
    forall k: nat | k < |r| ensures Joined(r, k) {
      if k > 0 {
        assert old(Joined(ring, k + i - 1));
      }
    }
  }

  /** All elements of a list go to the list of n. */
  method Move(h: Link, n: Link, ghost ring: seq<Link>)
    requires Ring(ring) && ring[0] == h && n !in ring
    modifies n, h, h.prev`next, h.next`prev
    ensures Ring([h]) && Ring([n] + ring[1..])
  {
    EmptyExactly(ring);
    if h.Empty() {
      assert ring == [h] && [n] + ring[1..] == [n];
      Init(n);
    } else {
      assert ring[..1] == [h] && Joined(ring, 0);
      var q := h.next;
      Split(h, q, n, ring, 1);
    }
  }

  /** The elements of n's list go to the end of h's; n itself is in no list any more. */
  method Add(h: Link, n: Link, ghost ring: seq<Link>, ghost other: seq<Link>)
    requires Ring(ring) && ring[0] == h && Ring(other) && other[0] == n
    requires forall x :: x in ring ==> x !in other
    modifies h`prev, h.prev`next, n.next`prev, n.prev`next
    ensures Ring(ring + other[1..])
  {
    assert Joined(ring, |ring| - 1) && Joined(other, 0) && Joined(other, |other| - 1);
    assert forall i: nat, j: nat :: i < |ring| && j < |other| ==> ring[i] != other[j] by {
      assert forall i: nat :: i < |ring| ==> ring[i] in ring;
    }
    h.prev.next := n.next;
    n.next.prev := h.prev;
    h.prev := n.prev;
    h.prev.next := h;
    ghost var r := ring + other[1..];
    forall i: nat, j: nat | i < j < |r| ensures r[i] != r[j] {
      assert i < |ring| ==> r[i] in ring;
      assert j >= |ring| ==> r[j] == other[j - |ring| + 1];
    }
    forall k: nat | k < |r| ensures Joined(r, k) {
      if k < |ring| {
        assert old(Joined(ring, k));
      } else {
        assert old(Joined(other, k - |ring| + 1));
      }
    }
  }
}

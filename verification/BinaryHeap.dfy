/** A binary min-heap of nodes linked by parent, left and right pointers. The tree is complete: the node at
    level-order position k has its children at 2k and 2k + 1, and the path to position k is spelled by the bits of k. */
module BinaryHeap {

  /** A node is part of a larger object, which the source finds by address arithmetic: the key is what that object is
      compared by, and the container is the rest of it. */
  class HeapNode<K(!new), C> {
    var left: HeapNode?<K, C>
    var right: HeapNode?<K, C>
    var parent: HeapNode?<K, C>
    var key: K
    var container: C

    constructor (key: K, container: C)
      ensures this.key == key && this.container == container
    {
      left, right, parent := null, null, null;
      this.key, this.container := key, container;
    }
  }

  /** Irreflexivity and negative transitivity; together they say that "not less, either way" is an equivalence. */
  ghost predicate StrictWeakOrder<K(!new)>(less: (K, K) -> bool) {
    && (forall a, b :: less(a, b) ==> !less(b, a))
    && (forall a, b, c :: less(a, c) ==> less(a, b) || less(b, c))
  }

  /** The place a pointer to a node is stored in. */
  datatype Link<K(!new), C> = Min | Left(of: HeapNode<K, C>) | Right(of: HeapNode<K, C>)

  /** What a pointer to one of two nodes becomes when they change places. */
  ghost function Renamed<K(!new), C>(x: HeapNode?<K, C>, a: HeapNode<K, C>, b: HeapNode<K, C>): HeapNode?<K, C> {
    if x == a then b else if x == b then a else x
  }

  ghost predicate Neither<K(!new), C>(x: HeapNode?<K, C>, a: HeapNode?<K, C>, b: HeapNode?<K, C>) {
    x != a && x != b
  }

  /** The pointers of a node. */
  datatype Links<K(!new), C> = Links(left: HeapNode?<K, C>, right: HeapNode?<K, C>, parent: HeapNode?<K, C>) {
    ghost function Exchange(a: HeapNode<K, C>, b: HeapNode<K, C>): Links<K, C> {
      Links(Renamed(left, a, b), Renamed(right, a, b), Renamed(parent, a, b))
    }
  }

  /** The node at level-order position k, counting from one. */
  ghost function InOrder<K(!new), C>(nodes: seq<HeapNode<K, C>>, k: nat): HeapNode?<K, C> {
    if 1 <= k <= |nodes| then nodes[k - 1] else null
  }

  ghost predicate IsTree<K(!new), C>(nodes: seq<HeapNode<K, C>>, links: seq<Links<K, C>>) {
    && |links| == |nodes|
    && (forall i: nat, j: nat :: i < j < |nodes| ==> nodes[i] != nodes[j])
    && forall k: nat :: 1 <= k <= |nodes| ==> LinkedIn(nodes, links, k)
  }

  ghost predicate LinkedIn<K(!new), C>(nodes: seq<HeapNode<K, C>>, links: seq<Links<K, C>>, k: nat)
    requires 1 <= k <= |links|
  {
    links[k - 1] == Links(InOrder(nodes, 2 * k), InOrder(nodes, 2 * k + 1), InOrder(nodes, k / 2))
  }

  /** Following k bits of path from position p, least significant bit first. */
  function Walk(p: nat, path: nat, k: nat): nat
    decreases k
  {
    if k == 0 then p else Walk(2 * p + path % 2, path / 2, k - 1)
  }

  lemma {:induction false} WalkDescends(p: nat, path: nat, k: nat)
    ensures p <= Walk(p, path, k)
    ensures k > 0 ==> 2 * p <= Walk(p, path, k)
    decreases k
  {
    if k > 0 {
      WalkDescends(2 * p + path % 2, path / 2, k - 1);
    }
  }

  lemma WalkStep(n: nat, path: nat, k: nat)
    ensures Walk(n / 2, 2 * path + n % 2, k + 1) == Walk(n, path, k)
  {
    assert (2 * path + n % 2) % 2 == n % 2 && (2 * path + n % 2) / 2 == path;
  }

  /** The bits of n below the leading one, in the order they are followed. */
  method PathTo(target: nat) returns (path: nat, k: nat)
    requires target >= 1
    ensures Walk(1, path, k) == target
  {
    path, k := 0, 0;
    var n := target;
    assert Walk(n, 0, 0) == n;
    hide Walk;
    while n >= 2
      invariant n >= 1 && Walk(n, path, k) == target
    {
      WalkStep(n, path, k);
      path := 2 * path + n % 2;
      k := k + 1;
      n := n / 2;
    }
  }

  /** The key at position k is not less than the one at position m. */
  ghost predicate Under<K(!new)>(less: (K, K) -> bool, keys: seq<K>, k: nat, m: nat) {
    1 <= m <= |keys| && 1 <= k <= |keys| ==> !less(keys[k - 1], keys[m - 1])
  }

  ghost predicate InPlace<K(!new)>(less: (K, K) -> bool, keys: seq<K>, k: nat) {
    Under(less, keys, k, k / 2)
  }

  /** No child is less than its parent. */
  ghost predicate Ordered<K(!new)>(less: (K, K) -> bool, keys: seq<K>) {
    forall k: nat :: InPlace(less, keys, k)
  }

  /** Ordered, but for the key at p, which may be less than its parent. */
  ghost predicate OrderedUp<K(!new)>(less: (K, K) -> bool, keys: seq<K>, p: nat) {
    && (forall k: nat :: k != p ==> InPlace(less, keys, k))
    && Under(less, keys, 2 * p, p / 2) && Under(less, keys, 2 * p + 1, p / 2)
  }

  /** Ordered, but for the key at p, which may be less than its parent, or greater than its children. */
  ghost predicate OrderedDown<K(!new)>(less: (K, K) -> bool, keys: seq<K>, p: nat) {
    && (forall k: nat :: k != p && k / 2 != p ==> InPlace(less, keys, k))
    && Under(less, keys, 2 * p, p / 2) && Under(less, keys, 2 * p + 1, p / 2)
  }

  ghost function Elements<T>(s: seq<T>): set<T> {
    set x | x in s
  }

  ghost function Swapped<T>(s: seq<T>, i: nat, j: nat): (r: seq<T>)
    requires 1 <= i <= |s| && 1 <= j <= |s|
    ensures |r| == |s|
  {
    s[i - 1 := s[j - 1]][j - 1 := s[i - 1]]
  }

  lemma SwappedAt<T>(s: seq<T>, i: nat, j: nat)
    requires 1 <= i < j <= |s|
    ensures Swapped(s, i, j)[j - 1] == s[i - 1]
  {
  }

  lemma SwappedContents<T>(s: seq<T>, i: nat, j: nat)
    requires 1 <= i <= |s| && 1 <= j <= |s|
    ensures Elements(Swapped(s, i, j)) == Elements(s)
  {
    forall x | x in s ensures x in Swapped(s, i, j) {
      var k :| 0 <= k < |s| && s[k] == x;
      var r := Swapped(s, i, j);
      assert r[if k == i - 1 then j - 1 else if k == j - 1 then i - 1 else k] == x;
    }
  }

  /** One step of sifting up. */
  lemma SiftedUp<K(!new)>(less: (K, K) -> bool, keys: seq<K>, p: nat)
    requires StrictWeakOrder(less) && 2 <= p <= |keys| && OrderedUp(less, keys, p)
    requires less(keys[p - 1], keys[p / 2 - 1])
    ensures OrderedUp(less, Swapped(keys, p / 2, p), p / 2)
  {
    var q, r := p / 2, Swapped(keys, p / 2, p);
    forall k: nat | k != q ensures InPlace(less, r, k) {
      assert InPlace(less, keys, k) || k == p;
    }
    var s := if p % 2 == 0 then p + 1 else p - 1;
    assert InPlace(less, keys, s) && InPlace(less, keys, q);
  }

  /** One step of sifting down: c is the smaller child. */
  lemma SiftedDown<K(!new)>(less: (K, K) -> bool, keys: seq<K>, p: nat, c: nat)
    requires StrictWeakOrder(less) && 1 <= p && c / 2 == p && c <= |keys| && OrderedDown(less, keys, p)
    requires less(keys[c - 1], keys[p - 1])
    requires forall s: nat {:trigger Under(less, keys, s, c)} :: s / 2 == p ==> Under(less, keys, s, c)
    ensures OrderedDown(less, Swapped(keys, p, c), c)
  {
    var r := Swapped(keys, p, c);
    forall k: nat | k != c && k / 2 != c ensures InPlace(less, r, k) {
      if k / 2 == p {
        assert Under(less, keys, k, c);
      } else if k == p {
        assert Under(less, keys, c, p / 2);
      } else {
        assert InPlace(less, keys, k);
      }
    }
    assert InPlace(less, keys, 2 * c) && InPlace(less, keys, 2 * c + 1);
  }

  /** The position of the least of a key and its children: the left child before the right one, and both only if
      less. */
  ghost function Smallest<K(!new)>(less: (K, K) -> bool, keys: seq<K>, p: nat): (c: nat)
    requires 1 <= p <= |keys|
    ensures 1 <= c <= |keys|
  {
    var c := if 2 * p <= |keys| && less(keys[2 * p - 1], keys[p - 1]) then 2 * p else p;
    if 2 * p + 1 <= |keys| && less(keys[2 * p], keys[c - 1]) then 2 * p + 1 else c
  }

  /** If a child is the smallest, swapping it up restores the order there; if none is, the order holds below. */
  lemma SmallestSiftsDown<K(!new)>(less: (K, K) -> bool, keys: seq<K>, p: nat)
    requires StrictWeakOrder(less) && 1 <= p <= |keys| && OrderedDown(less, keys, p)
    ensures var c := Smallest(less, keys, p);
            if c == p then OrderedUp(less, keys, p)
              else c > p && c / 2 == p && OrderedDown(less, Swapped(keys, p, c), c)
  {
    var c := Smallest(less, keys, p);
    if c == p {
      DownIsUp(less, keys, p);
    } else {
      forall s: nat | s / 2 == p ensures Under(less, keys, s, c) {
        assert s == 2 * p || s == 2 * p + 1;
      }
      SiftedDown(less, keys, p, c);
    }
  }

  lemma DownIsUp<K(!new)>(less: (K, K) -> bool, keys: seq<K>, p: nat)
    requires OrderedDown(less, keys, p) && Under(less, keys, 2 * p, p) && Under(less, keys, 2 * p + 1, p)
    ensures OrderedUp(less, keys, p)
  {
    forall k: nat | k != p ensures InPlace(less, keys, k) {
      if k / 2 == p {
        assert k == 2 * p || k == 2 * p + 1;
      }
    }
  }

  lemma UpIsOrdered<K(!new)>(less: (K, K) -> bool, keys: seq<K>, p: nat)
    requires OrderedUp(less, keys, p) && InPlace(less, keys, p)
    ensures Ordered(less, keys)
  {
  }

  lemma AppendedKey<K(!new)>(less: (K, K) -> bool, keys: seq<K>, key: K)
    requires Ordered(less, keys)
    ensures OrderedUp(less, keys + [key], |keys| + 1)
  {
    forall k: nat | k != |keys| + 1 ensures InPlace(less, keys + [key], k) {
      assert InPlace(less, keys, k);
    }
  }

  /** The root of an ordered heap is a least element. */
  lemma {:induction false} RootIsLeast<K(!new)>(less: (K, K) -> bool, keys: seq<K>, k: nat)
    requires StrictWeakOrder(less) && Ordered(less, keys) && 1 <= k <= |keys|
    ensures !less(keys[k - 1], keys[0])
    decreases k
  {
    if k > 1 {
      assert InPlace(less, keys, k);
      RootIsLeast(less, keys, k / 2);
    }
  }

  class Heap<K(!new), C> {
    var min: HeapNode?<K, C>
    var nelts: nat
    ghost var nodes: seq<HeapNode<K, C>>  // in level order

    constructor ()
      ensures Shape() && nodes == []
    {
      min, nelts, nodes := null, 0, [];
    }

    ghost function At(k: nat): HeapNode?<K, C>
      reads this
    {
      InOrder(nodes, k)
    }

    ghost function NodeSet(): set<HeapNode<K, C>>
      reads this
    {
      Elements(nodes)
    }

    ghost predicate Linked(k: nat)
      requires 1 <= k <= |nodes|
      reads this, nodes
    {
      nodes[k - 1].left == At(2 * k) && nodes[k - 1].right == At(2 * k + 1) && nodes[k - 1].parent == At(k / 2)
    }

    /** The pointers form the complete tree of the nodes. */
    ghost predicate Shape()
      reads this, nodes
    {
      && nelts == |nodes|
      && min == At(1)
      && (forall i: nat, j: nat :: i < j < |nodes| ==> nodes[i] != nodes[j])
      && forall k: nat :: 1 <= k <= |nodes| ==> Linked(k)
    }

    ghost function LinksOf(x: HeapNode<K, C>): Links<K, C>
      reads x
    {
      Links(x.left, x.right, x.parent)
    }

    method AdoptChildren(x: HeapNode<K, C>)
      requires x != x.left && x != x.right
      modifies {x.left, x.right}`parent
      ensures x.left != null ==> x.left.parent == x
      ensures x.right != null ==> x.right.parent == x
      ensures x.parent == old(x.parent)
    {
      if x.left != null {
        x.left.parent := x;
      }
      if x.right != null {
        x.right.parent := x;
      }
    }

    /** y takes the place of x under y's parent, or as the root. */
    method ReplaceUnderParent(x: HeapNode<K, C>, y: HeapNode<K, C>)
      requires y.parent != y
      modifies this`min, {y.parent}`left, {y.parent}`right
      ensures y.parent == null ==> min == y
      ensures y.parent != null ==>
                && min == old(min)
                && (if old(y.parent.left) == x then y.parent.left == y && y.parent.right == old(y.parent.right)
                    else y.parent.right == y && y.parent.left == old(y.parent.left))
    {
      if y.parent == null {
        min := y;
      } else if y.parent.left == x {
        y.parent.left := y;
      } else {
        y.parent.right := y;
      }
    }

    /** Child and parent trade their links, and the child's sibling gets its new parent. */
    method ExchangePlaces(parent: HeapNode<K, C>, child: HeapNode<K, C>, ghost other: HeapNode?<K, C>)
      requires Neither(other, parent, child) && parent != child
      requires if parent.left == child then parent.right == other else parent.left == other && parent.right == child
      requires child.left != child
      modifies {parent, child}`left, {parent, child}`right, {parent, child, other}`parent
      ensures child.parent == old(parent.parent) && parent.parent == child
      ensures parent.left == old(child.left) && parent.right == old(child.right)
      ensures if old(parent.left) == child then child.left == parent && child.right == other
              else child.left == other && child.right == parent
      ensures other != null ==> other.parent == child
    {
      var l, r, p := parent.left, parent.right, parent.parent;
      parent.left, parent.right, parent.parent := child.left, child.right, child.parent;
      child.left, child.right, child.parent := l, r, p;

      parent.parent := child;
      var sibling: HeapNode?<K, C>;
      if child.left == child {
        child.left := parent;
        sibling := child.right;
      } else {
        child.right := parent;
        sibling := child.left;
      }
      if sibling != null {
        sibling.parent := child;
      }
    }

    /** The nodes around a child and its parent: the sibling, the grandparent and the grandchildren. */
    ghost predicate Around(parent: HeapNode<K, C>, child: HeapNode<K, C>, other: HeapNode?<K, C>,
                           above: HeapNode?<K, C>,
                           below1: HeapNode?<K, C>, below2: HeapNode?<K, C>)
      reads parent, child, other, above, below1, below2
    {
      && parent != child && Neither(other, parent, child) && Neither(above, parent, child)
      && Neither(below1, parent, child) && Neither(below2, parent, child)
      && (other != null ==>
            && other != above && Neither(other, below1, below2)
            && other.parent == parent && Neither(other.left, parent, child) && Neither(other.right, parent, child))
      && (above != null ==> Neither(above, below1, below2) && Neither(above.parent, parent, child))
      && (below1 != null ==>
            && below1 != below2
            && below1.parent == child && Neither(below1.left, parent, child) && Neither(below1.right, parent, child))
      && (below2 != null ==>
            below2.parent == child && Neither(below2.left, parent, child) && Neither(below2.right, parent, child))
      && (if parent.left == child then parent.right == other else parent.left == other && parent.right == child)
      && parent.parent == above && child.parent == parent && child.left == below1 && child.right == below2
      && (above != null ==>
            || (above.left == parent && Neither(above.right, parent, child))
            || (above.right == parent && Neither(above.left, parent, child)))
    }

    /** The pointer updates of a swap, around a child and its parent: the child takes the parent's place under
        `above`, the parent takes the child's place over `below1` and `below2`, and the sibling changes parent. */
    method Relink(parent: HeapNode<K, C>, child: HeapNode<K, C>, ghost other: HeapNode?<K, C>,
                  ghost above: HeapNode?<K, C>,
                  ghost below1: HeapNode?<K, C>, ghost below2: HeapNode?<K, C>)
      requires Around(parent, child, other, above, below1, below2)
      modifies this`min, {parent, child}`left, {parent, child}`right, {parent, child}`parent
      modifies {other, below1, below2}`parent, {above}`left, {above}`right
      ensures LinksOf(child) == old(LinksOf(parent)).Exchange(parent, child)
      ensures LinksOf(parent) == old(LinksOf(child)).Exchange(parent, child)
      ensures other != null ==> LinksOf(other) == old(LinksOf(other)).Exchange(parent, child)
      ensures above != null ==> LinksOf(above) == old(LinksOf(above)).Exchange(parent, child)
      ensures below1 != null ==> LinksOf(below1) == old(LinksOf(below1)).Exchange(parent, child)
      ensures below2 != null ==> LinksOf(below2) == old(LinksOf(below2)).Exchange(parent, child)
      ensures min == if above == null then child else old(min)
    {
      ExchangePlaces(parent, child, other);
      AdoptChildren(parent);
      ReplaceUnderParent(parent, child);
    }

    /** The position next to j under the same parent. */
    static function Sibling(j: nat): nat
      requires j >= 2
    {
      if j % 2 == 0 then j + 1 else j - 1
    }

    lemma NeighboursOfSwap(j: nat)
      requires Shape() && 2 <= j <= |nodes|
      ensures Around(At(j / 2), At(j), At(Sibling(j)), At(j / 4), At(2 * j), At(2 * j + 1))
    {
      NeighboursDiffer(j);
      PointToNeither(j / 4, j);
      PointToNeither(Sibling(j), j);
      PointToNeither(2 * j, j);
      PointToNeither(2 * j + 1, j);
      PointToNeither(j / 2, j);
      PointToNeither(j, j);
      hide Heap.Shape;
    }

    lemma NeighboursDiffer(j: nat)
      requires Shape() && 2 <= j <= |nodes|
      ensures var parent, child, other, above, below1, below2 :=
                At(j / 2), At(j), At(Sibling(j)), At(j / 4), At(2 * j), At(2 * j + 1);
              && parent != null && child != null
              && parent != child && Neither(other, parent, child) && Neither(above, parent, child)
              && Neither(below1, parent, child) && Neither(below2, parent, child)
              && (other != null ==> other != above && Neither(other, below1, below2))
              && (above != null ==> Neither(above, below1, below2))
              && (below1 != null ==> below1 != below2)
    {
    }

    /** Which of the neighbours' pointers lead to the swapped nodes. */
    lemma PointToNeither(k: nat, j: nat)
      requires Shape() && 2 <= j <= |nodes|
      ensures 1 <= k <= |nodes| ==>
                && Linked(k)
                && (2 * k != j / 2 && 2 * k != j ==> Neither(nodes[k - 1].left, At(j / 2), At(j)))
                && (2 * k + 1 != j / 2 && 2 * k + 1 != j ==> Neither(nodes[k - 1].right, At(j / 2), At(j)))
                && (k / 2 != j / 2 && k / 2 != j ==> Neither(nodes[k - 1].parent, At(j / 2), At(j)))
    {
      if 1 <= k <= |nodes| {
        assert Linked(k);
      }
    }

    /** Position k is not next to positions j and j / 2. */
    static predicate Far(k: nat, j: nat)
      requires j >= 2
    {
      k != j / 2 && k != j && k != Sibling(j) && k != j / 4 && k != 2 * j && k != 2 * j + 1
    }

    /** The node at position k is none of those around the swapped ones, and does not point to them. */
    ghost predicate Apart(k: nat, j: nat)
      requires 1 <= k <= |nodes| && 2 <= j <= |nodes|
      reads this, nodes
    {
      && Neither(nodes[k - 1], At(j / 2), At(j)) && Neither(nodes[k - 1], At(Sibling(j)), At(j / 4))
      && Neither(nodes[k - 1], At(2 * j), At(2 * j + 1))
      && LinksAt(k).Exchange(nodes[j / 2 - 1], nodes[j - 1]) == LinksAt(k)
    }

    lemma FarIsApart(j: nat)
      requires Shape() && 2 <= j <= |nodes|
      ensures forall k: nat :: 1 <= k <= |nodes| && Far(k, j) ==> Apart(k, j)
    {
      forall k: nat | 1 <= k <= |nodes| && Far(k, j) ensures Apart(k, j) {
        assert Linked(k);
      }
    }

    ghost function LinksAt(k: nat): Links<K, C>
      requires 1 <= k <= |nodes|
      reads this, nodes
    {
      LinksOf(nodes[k - 1])
    }

    ghost function AllLinks(): (links: seq<Links<K, C>>)
      reads this, nodes
      ensures |links| == |nodes| && forall k: nat :: 1 <= k <= |nodes| ==> links[k - 1] == LinksAt(k)
    {
      seq(|nodes|, i requires 0 <= i < |nodes| reads this, nodes => LinksAt(i + 1))
    }

    lemma ShapeIsTree()
      requires Shape()
      ensures IsTree(nodes, AllLinks())
    {
      forall k: nat | 1 <= k <= |nodes| ensures LinkedIn(nodes, AllLinks(), k) {
        assert Linked(k) && AllLinks()[k - 1] == LinksAt(k);
      }
    }

    /** Exchanging two nodes in the level order and in every link gives a tree again. */
    lemma ExchangedTree(oldNodes: seq<HeapNode<K, C>>, oldLinks: seq<Links<K, C>>, i: nat, j: nat)
      requires IsTree(oldNodes, oldLinks) && 1 <= i < j <= |oldNodes|
      requires nodes == oldNodes[i - 1 := oldNodes[j - 1]][j - 1 := oldNodes[i - 1]]
      requires forall k: nat :: 1 <= k <= |nodes| ==>
               LinksAt(k) == oldLinks[k - 1].Exchange(oldNodes[i - 1], oldNodes[j - 1])
      ensures forall k: nat :: 1 <= k <= |nodes| ==> Linked(k)
    {
      var a, b := oldNodes[i - 1], oldNodes[j - 1];
      forall k: nat | 1 <= k <= |nodes| ensures Linked(k) {
        assert LinkedIn(oldNodes, oldLinks, k);
        assert LinksAt(k) == oldLinks[k - 1].Exchange(a, b);
        assert forall m: nat :: At(m) == Renamed(InOrder(oldNodes, m), a, b);
      }
    }

    /** The node at position k, or the one it changes places with, has the exchanged links of that position. */
    ghost predicate TradedAt(links: seq<Links<K, C>>, k: nat, a: HeapNode<K, C>, b: HeapNode<K, C>)
      requires 1 <= k <= |nodes| == |links|
      reads this, nodes, a, b
    {
      LinksOf(if nodes[k - 1] == a then b else if nodes[k - 1] == b then a else nodes[k - 1]) ==
        links[k - 1].Exchange(a, b)
    }

    /** The pointer updates of a swap, over the whole tree. */
    method RelinkTree(parent: HeapNode<K, C>, child: HeapNode<K, C>, ghost j: nat, ghost links: seq<Links<K, C>>)
      requires Shape() && 2 <= j <= |nodes| && child == nodes[j - 1] && parent == nodes[j / 2 - 1] &&
               links == AllLinks()
      modifies this`min, NodeSet()`left, NodeSet()`right, NodeSet()`parent
      ensures forall k: nat :: 1 <= k <= |nodes| ==> TradedAt(links, k, parent, child)
      ensures min == if j / 2 == 1 then child else old(min)
    {
      NeighboursOfSwap(j);
      FarIsApart(j);
      hide Heap.Around, Heap.Linked, Heap.Shape;
      Relink(parent, child, At(Sibling(j)), At(j / 4), At(2 * j), At(2 * j + 1));
      forall k: nat | 1 <= k <= |nodes| ensures TradedAt(links, k, parent, child) {
        assert links[k - 1] == old(LinksAt(k));
        if Far(k, j) {
          assert old(Apart(k, j));
        }
      }
    }

    /** Swapping a node with its parent swaps their positions in the tree, and nothing else. */
    method SwapNodes(parent: HeapNode<K, C>, child: HeapNode<K, C>, ghost j: nat)
      requires Shape() && 2 <= j <= |nodes| && child == nodes[j - 1] && parent == nodes[j / 2 - 1]
      modifies this`min, this`nodes, NodeSet()`left, NodeSet()`right, NodeSet()`parent
      ensures Shape() && nodes == Swapped(old(nodes), j / 2, j)
    {
      hide Heap.Linked, IsTree;
      ghost var i := j / 2;
      ghost var oldNodes, oldLinks := nodes, AllLinks();
      ShapeIsTree();
      RelinkTree(parent, child, j, oldLinks);
      label relinked:
      nodes := nodes[i - 1 := child][j - 1 := parent];
      forall k: nat | 1 <= k <= |nodes| ensures LinksAt(k) == oldLinks[k - 1].Exchange(parent, child) {
        assert old@relinked(TradedAt(oldLinks, k, parent, child));
      }
      ExchangedTree(oldNodes, oldLinks, i, j);
    }

    method Swap(parent: HeapNode<K, C>, child: HeapNode<K, C>, ghost j: nat)
      requires Shape() && 2 <= j <= |nodes| && child == nodes[j - 1] && parent == nodes[j / 2 - 1]
      modifies this`min, this`nodes, NodeSet()`left, NodeSet()`right, NodeSet()`parent
      ensures Shape() && nodes == Swapped(old(nodes), j / 2, j)
      ensures Keys() == Swapped(old(Keys()), j / 2, j) && NodeSet() == old(NodeSet())
    {
      hide Heap.Shape;
      SwappedContents(nodes, j / 2, j);
      SwapNodes(parent, child, j);
    }

    ghost function Keys(): (keys: seq<K>)
      reads this, nodes
      ensures |keys| == |nodes|
    {
      seq(|nodes|, i requires 0 <= i < |nodes| reads this, nodes => nodes[i].key)
    }

    /** A complete tree in which no child is less than its parent. */
    ghost predicate Valid(less: (K, K) -> bool)
      reads this, nodes
    {
      Shape() && Ordered(less, Keys())
    }

    function Deref(link: Link<K, C>): HeapNode?<K, C>
      reads this, if link.Min? then {} else {link.of}
    {
      match link
      case Min => min
      case Left(of) => of.left
      case Right(of) => of.right
    }

    /** The pointer that leads to position k. */
    ghost function LinkTo(k: nat): Link<K, C>
      requires 1 <= k && (k == 1 || k / 2 <= |nodes|)
      reads this
    {
      if k == 1 then Min else if k % 2 == 0 then Left(nodes[k / 2 - 1]) else Right(nodes[k / 2 - 1])
    }

    lemma LinkLeadsTo(k: nat)
      requires Shape() && 1 <= k && (k == 1 || k / 2 <= |nodes|)
      ensures Deref(LinkTo(k)) == At(k)
    {
      if k > 1 {
        assert Linked(k / 2);
      }
    }

    /** Follows the path to a position, keeping the pointer that leads there and the one before it. */
    method Traverse(ghost target: nat, path0: nat, k0: nat) returns (parent: Link<K, C>, child: Link<K, C>)
      requires Shape() && 1 <= target <= |nodes| + 1 && Walk(1, path0, k0) == target
      ensures child == LinkTo(target)
      ensures parent == if target == 1 then Min else LinkTo(target / 2)
    {
      var path, k := path0, k0;
      parent, child := Min, Min;
      ghost var p := 1;
      while k > 0
        invariant 1 <= p <= target && (p == 1 || p / 2 <= |nodes|) && Walk(p, path, k) == target
        invariant child == LinkTo(p)
        invariant parent == if p == 1 then Min else LinkTo(p / 2)
      {
        WalkDescends(p, path, k);
        WalkDescends(2 * p + path % 2, path / 2, k - 1);
        LinkLeadsTo(p);
        parent := child;
        child := if path % 2 == 1 then Right(Deref(child)) else Left(Deref(child));
        p := 2 * p + path % 2;
        path := path / 2;
        k := k - 1;
      }
    }

    method Store(link: Link<K, C>, x: HeapNode?<K, C>)
      modifies this`min, if link.Left? then {link.of} else {}`left, if link.Right? then {link.of} else {}`right
      ensures Deref(link) == x
      ensures !link.Min? ==> min == old(min)
    {
      match link
      case Min => min := x;
      case Left(of) => of.left := x;
      case Right(of) => of.right := x;
    }

    /** The links of position k once x hangs at position n. */
    ghost function Hung(links: Links<K, C>, k: nat, n: nat, x: HeapNode?<K, C>): Links<K, C> {
      if n == 2 * k then links.(left := x) else if n == 2 * k + 1 then links.(right := x) else links
    }

    lemma AppendedTree(oldNodes: seq<HeapNode<K, C>>, oldLinks: seq<Links<K, C>>, x: HeapNode<K, C>)
      requires IsTree(oldNodes, oldLinks) && nodes == oldNodes + [x]
      requires forall k: nat :: 1 <= k < |nodes| ==> LinksAt(k) == Hung(oldLinks[k - 1], k, |nodes|, x)
      requires LinksAt(|nodes|) == Links(null, null, InOrder(oldNodes, |nodes| / 2))
      ensures forall k: nat :: 1 <= k <= |nodes| ==> Linked(k)
    {
      forall k: nat | 1 <= k <= |nodes| ensures Linked(k) {
        if k < |nodes| {
          assert LinkedIn(oldNodes, oldLinks, k) && LinksAt(k) == Hung(oldLinks[k - 1], k, |nodes|, x);
        }
      }
    }

    /** Hangs a node in the left-most free place of the bottom row, given the pointers that lead there. */
    method Hang(newnode: HeapNode<K, C>, parent: Link<K, C>, child: Link<K, C>)
      requires Shape() && newnode !in nodes && newnode.left == null && newnode.right == null
      requires child == LinkTo(|nodes| + 1) && parent == if nodes == [] then Min else LinkTo((|nodes| + 1) / 2)
      modifies this, newnode`parent, NodeSet()`left, NodeSet()`right
      ensures Shape() && nodes == old(nodes) + [newnode]
    {
      ghost var n, oldNodes, oldLinks := |nodes| + 1, nodes, AllLinks();
      ShapeIsTree();
      if n >= 2 {
        LinkLeadsTo(n / 2);
      }
      hide Heap.Linked, IsTree;
      newnode.parent := Deref(parent);
      Store(child, newnode);
      nelts := nelts + 1;
      nodes := nodes + [newnode];
      forall k: nat | 1 <= k < n ensures LinksAt(k) == Hung(oldLinks[k - 1], k, n, newnode) {
        assert old(LinksAt(k)) == oldLinks[k - 1];
      }
      AppendedTree(oldNodes, oldLinks, newnode);
    }

    /** Puts a node in the left-most free place of the bottom row. */
    method Append(newnode: HeapNode<K, C>)
      requires Shape() && newnode !in nodes
      modifies this, newnode`left, newnode`right, newnode`parent, NodeSet()`left, NodeSet()`right
      ensures Shape() && nodes == old(nodes) + [newnode] && Keys() == old(Keys()) + [newnode.key]
    {
      newnode.left, newnode.right, newnode.parent := null, null, null;
      assert Shape() && Keys() == old(Keys());
      var path, k := PathTo(1 + nelts);
      var parent, child := Traverse(|nodes| + 1, path, k);
      Hang(newnode, parent, child);
    }

    /** Insertion: append, and sift up. */
    method Insert(newnode: HeapNode<K, C>, less: (K, K) -> bool)
      requires StrictWeakOrder(less) && Valid(less) && newnode !in NodeSet()
      modifies this, newnode`left, newnode`right, newnode`parent, NodeSet()`left, NodeSet()`right, NodeSet()`parent
      ensures Valid(less) && NodeSet() == old(NodeSet()) + {newnode} && |nodes| == |old(nodes)| + 1
    {
      hide StrictWeakOrder, Ordered, OrderedUp, Heap.Shape, Heap.Keys;
      AppendedKey(less, Keys(), newnode.key);
      Append(newnode);
      assert NodeSet() == old(NodeSet()) + {newnode};
      SiftUp(newnode, less, |nodes|);
    }

    /** Moves a node away from the root while one of its children is less. */
    method SiftDown(node: HeapNode<K, C>, less: (K, K) -> bool, ghost p0: nat) returns (ghost p: nat)
      requires StrictWeakOrder(less) && Shape() && 1 <= p0 <= |nodes| && nodes[p0 - 1] == node
      requires OrderedDown(less, Keys(), p0)
      modifies this`min, this`nodes, NodeSet()`left, NodeSet()`right, NodeSet()`parent
      ensures Shape() && 1 <= p <= |nodes| == |old(nodes)| && nodes[p - 1] == node
      ensures OrderedUp(less, Keys(), p) && NodeSet() == old(NodeSet())
    {
      hide OrderedDown, OrderedUp, Heap.Shape, Heap.Keys, StrictWeakOrder, Heap.NodeSet, Swapped;
      p := p0;
      while true
        invariant Shape() && 1 <= p <= |nodes| == |old(nodes)| && nodes[p - 1] == node
        invariant OrderedDown(less, Keys(), p) && NodeSet() == old(NodeSet())
        decreases |nodes| - p
      {
        ChildrenAt(p);
        var smallest := node;
        ghost var c := p;
        if node.left != null && less(node.left.key, smallest.key) {
          smallest, c := node.left, 2 * p;
        }
        if node.right != null && less(node.right.key, smallest.key) {
          smallest, c := node.right, 2 * p + 1;
        }
        SmallestIs(less, p, c);
        if smallest == node {
          break;
        }
        SwappedAt(nodes, p, c);
        Swap(node, smallest, c);
        p := c;
      }
    }

    lemma SmallestIs(less: (K, K) -> bool, p: nat, c: nat)
      requires StrictWeakOrder(less) && 1 <= p <= |nodes| && OrderedDown(less, Keys(), p)
      requires var left := if 2 * p <= |nodes| && less(nodes[2 * p - 1].key, nodes[p - 1].key) then 2 * p else p;
               c == if 2 * p + 1 <= |nodes| && less(nodes[2 * p].key, nodes[left - 1].key) then 2 * p + 1 else left
      ensures if c == p then OrderedUp(less, Keys(), p)
              else c > p && c / 2 == p && OrderedDown(less, Swapped(Keys(), p, c), c)
    {
      hide StrictWeakOrder, OrderedDown, OrderedUp, Swapped;
      SmallestSiftsDown(less, Keys(), p);
    }

    lemma ChildrenAt(k: nat)
      requires Shape() && 1 <= k <= |nodes|
      ensures nodes[k - 1].left == At(2 * k) && nodes[k - 1].right == At(2 * k + 1)
      ensures nodes[k - 1].left != nodes[k - 1] && nodes[k - 1].right != nodes[k - 1]
    {
      assert Linked(k);
    }

    /** Moves a node towards the root while it is less than its parent. */
    method SiftUp(node: HeapNode<K, C>, less: (K, K) -> bool, ghost p0: nat)
      requires StrictWeakOrder(less) && Shape() && 1 <= p0 <= |nodes| && nodes[p0 - 1] == node
      requires OrderedUp(less, Keys(), p0)
      modifies this`min, this`nodes, NodeSet()`left, NodeSet()`right, NodeSet()`parent
      ensures Valid(less) && NodeSet() == old(NodeSet()) && |nodes| == |old(nodes)|
    {
      hide OrderedUp, Ordered, Heap.Shape, Heap.Keys, StrictWeakOrder, Heap.NodeSet;
      ghost var p := p0;
      ParentAt(p);
      while node.parent != null && less(node.key, node.parent.key)
        invariant Shape() && 1 <= p <= |nodes| == |old(nodes)| && nodes[p - 1] == node && node.parent == At(p / 2)
        invariant OrderedUp(less, Keys(), p) && NodeSet() == old(NodeSet())
        decreases p
      {
        KeyAt(p);
        KeyAt(p / 2);
        SiftedUp(less, Keys(), p);
        Swap(node.parent, node, p);
        p := p / 2;
        ParentAt(p);
      }
      KeyAt(p);
      if p > 1 {
        KeyAt(p / 2);
      }
      UpIsOrdered(less, Keys(), p);
    }

    lemma ParentAt(k: nat)
      requires Shape() && 1 <= k <= |nodes|
      ensures nodes[k - 1].parent == At(k / 2)
    {
      assert Linked(k);
    }

    lemma KeyAt(k: nat)
      requires 1 <= k <= |nodes|
      ensures Keys()[k - 1] == nodes[k - 1].key
    {
    }

    lemma DetachedTree(oldNodes: seq<HeapNode<K, C>>, oldLinks: seq<Links<K, C>>)
      requires IsTree(oldNodes, oldLinks) && oldNodes != [] && nodes == oldNodes[..|oldNodes| - 1]
      requires forall k: nat :: 1 <= k <= |nodes| ==> LinksAt(k) == Hung(oldLinks[k - 1], k, |oldNodes|, null)
      ensures forall k: nat :: 1 <= k <= |nodes| ==> Linked(k)
    {
      forall k: nat | 1 <= k <= |nodes| ensures Linked(k) {
        assert LinkedIn(oldNodes, oldLinks, k) && LinksAt(k) == Hung(oldLinks[k - 1], k, |oldNodes|, null);
      }
    }

    /** Unlinks the last node of the bottom row. */
    method DetachLast() returns (last: HeapNode<K, C>)
      requires Shape() && nodes != []
      modifies this, NodeSet()`left, NodeSet()`right
      ensures Shape() && nodes == old(nodes)[..|old(nodes)| - 1] && last == old(nodes)[|nodes|]
      ensures last !in nodes && last != min
    {
      ghost var n, oldNodes, oldLinks := |nodes|, nodes, AllLinks();
      ShapeIsTree();
      hide Heap.Linked, IsTree, Walk;
      var path, k := PathTo(nelts);
      var _, max := Traverse(n, path, k);
      LinkLeadsTo(n);
      nelts := nelts - 1;
      last := Deref(max);
      Store(max, null);
      nodes := nodes[..n - 1];
      forall k: nat | 1 <= k < n ensures LinksAt(k) == Hung(oldLinks[k - 1], k, n, null) {
        assert old(LinksAt(k)) == oldLinks[k - 1];
      }
      DetachedTree(oldNodes, oldLinks);
    }

    lemma ReplacedTree(oldNodes: seq<HeapNode<K, C>>, oldLinks: seq<Links<K, C>>, q: nat, x: HeapNode<K, C>)
      requires IsTree(oldNodes, oldLinks) && 1 <= q <= |oldNodes| && x !in oldNodes && nodes == oldNodes[q - 1 := x]
      requires forall k: nat :: 1 <= k <= |nodes| ==> LinksAt(k) == oldLinks[k - 1].Exchange(oldNodes[q - 1], x)
      ensures forall k: nat :: 1 <= k <= |nodes| ==> Linked(k)
    {
      forall k: nat | 1 <= k <= |nodes| ensures Linked(k) {
        assert LinkedIn(oldNodes, oldLinks, k) && LinksAt(k) == oldLinks[k - 1].Exchange(oldNodes[q - 1], x);
        assert forall m: nat :: At(m) == Renamed(InOrder(oldNodes, m), oldNodes[q - 1], x);
      }
    }

    /** The node at position k is not next to the one at position q, and points neither there nor to x. */
    ghost predicate Unrelated(k: nat, q: nat, x: HeapNode<K, C>)
      requires 1 <= k <= |nodes| && 1 <= q <= |nodes|
      reads this, nodes
    {
      && Neither(nodes[k - 1], At(q), At(q / 2)) && Neither(nodes[k - 1], At(2 * q), At(2 * q + 1))
      && LinksAt(k).Exchange(nodes[q - 1], x) == LinksAt(k)
    }

    lemma FarIsUnrelated(q: nat, x: HeapNode<K, C>)
      requires Shape() && 1 <= q <= |nodes| && x !in nodes
      ensures forall k: nat :: 1 <= k <= |nodes| && k != q && k / 2 != q && k != q / 2 ==> Unrelated(k, q, x)
    {
      forall k: nat | 1 <= k <= |nodes| && k != q && k / 2 != q && k != q / 2 ensures Unrelated(k, q, x) {
        assert Linked(k);
      }
    }

    /** The nodes around one that x is to replace: its parent and its children. */
    ghost predicate Surrounds(node: HeapNode<K, C>, x: HeapNode<K, C>, above: HeapNode?<K, C>, below1: HeapNode?<K, C>,
                              below2: HeapNode?<K, C>)
      reads node, above, below1, below2
    {
      && node.parent == above && node.left == below1 && node.right == below2 && x != node
      && Neither(above, node, x) && Neither(below1, node, x) && Neither(below2, node, x)
      && (above != null ==>
            && Neither(above, below1, below2) && Neither(above.parent, node, x)
            && ((above.left == node && Neither(above.right, node, x)) ||
                (above.right == node && Neither(above.left, node, x))))
      && (below1 != null ==>
            && below1 != below2 && below1.parent == node
            && Neither(below1.left, node, x) && Neither(below1.right, node, x))
      && (below2 != null ==> below2.parent == node && Neither(below2.left, node, x) && Neither(below2.right, node, x))
    }

    lemma NeighboursSurround(q: nat, x: HeapNode<K, C>)
      requires Shape() && 1 <= q <= |nodes| && x !in nodes
      ensures Surrounds(nodes[q - 1], x, At(q / 2), At(2 * q), At(2 * q + 1))
    {
      assert Linked(q);
      assert q > 1 ==> Linked(q / 2);
      assert 2 * q <= |nodes| ==> Linked(2 * q);
      assert 2 * q + 1 <= |nodes| ==> Linked(2 * q + 1);
    }

    /** The pointer updates of a replacement, around the replaced node. */
    method TakePlace(node: HeapNode<K, C>, x: HeapNode<K, C>, ghost above: HeapNode?<K, C>,
                     ghost below1: HeapNode?<K, C>,
                     ghost below2: HeapNode?<K, C>)
      requires Surrounds(node, x, above, below1, below2)
      modifies this`min, {x, above}`left, {x, above}`right, {x, below1, below2}`parent
      ensures LinksOf(x) == old(LinksOf(node)).Exchange(node, x)
      ensures above != null ==> LinksOf(above) == old(LinksOf(above)).Exchange(node, x)
      ensures below1 != null ==> LinksOf(below1) == old(LinksOf(below1)).Exchange(node, x)
      ensures below2 != null ==> LinksOf(below2) == old(LinksOf(below2)).Exchange(node, x)
      ensures min == if above == null then x else old(min)
    {
      x.left := node.left;
      x.right := node.right;
      x.parent := node.parent;
      AdoptChildren(x);
      ReplaceUnderParent(node, x);
    }

    /** The pointer updates of a replacement, over the whole tree. */
    method RelinkReplaced(node: HeapNode<K, C>, x: HeapNode<K, C>, ghost q: nat, ghost links: seq<Links<K, C>>)
      requires Shape() && 1 <= q <= |nodes| && nodes[q - 1] == node && x !in nodes && links == AllLinks()
      modifies this`min, x`left, x`right, x`parent, NodeSet()`left, NodeSet()`right, NodeSet()`parent
      ensures forall k: nat :: 1 <= k <= |nodes| ==> TradedAt(links, k, node, x)
      ensures min == if q == 1 then x else old(min)
    {
      NeighboursSurround(q, x);
      FarIsUnrelated(q, x);
      assert forall i: nat :: i < |nodes| && i != q - 1 ==> nodes[i] != node;
      hide Heap.Surrounds, Heap.Linked, Heap.Shape;
      TakePlace(node, x, At(q / 2), At(2 * q), At(2 * q + 1));
      forall k: nat | 1 <= k <= |nodes| ensures TradedAt(links, k, node, x) {
        assert links[k - 1] == old(LinksAt(k));
        if k != q && k / 2 != q && k != q / 2 {
          assert old(Unrelated(k, q, x));
        }
      }
    }

    /** A node that is not in the tree takes the place of one that is. */
    method ReplaceNode(node: HeapNode<K, C>, x: HeapNode<K, C>, ghost q: nat)
      requires Shape() && 1 <= q <= |nodes| && nodes[q - 1] == node && x !in nodes
      modifies this`min, this`nodes, x`left, x`right, x`parent, NodeSet()`left, NodeSet()`right, NodeSet()`parent
      ensures Shape() && nodes == old(nodes)[q - 1 := x]
    {
      hide Heap.Linked, IsTree;
      ghost var oldNodes, oldLinks := nodes, AllLinks();
      ShapeIsTree();
      RelinkReplaced(node, x, q, oldLinks);
      label relinked:
      nodes := nodes[q - 1 := x];
      forall k: nat | 1 <= k <= |nodes| ensures LinksAt(k) == oldLinks[k - 1].Exchange(node, x) {
        assert old@relinked(TradedAt(oldLinks, k, node, x));
      }
      ReplacedTree(oldNodes, oldLinks, q, x);
    }

    lemma NodesAreCounted()
      requires Shape()
      ensures nelts == |nodes|
      ensures forall i: nat, j: nat :: i < j < |nodes| ==> nodes[i] != nodes[j]
    {
    }

    /** Removal: the last node takes the place of the removed one, and is sifted down, then up. */
    method Remove(node: HeapNode?<K, C>, less: (K, K) -> bool)
      requires StrictWeakOrder(less) && Valid(less) && (nodes != [] ==> node in NodeSet())
      modifies this, NodeSet()`left, NodeSet()`right, NodeSet()`parent
      ensures Valid(less)
      ensures if old(nodes) == [] then nodes == []
              else NodeSet() == old(NodeSet()) - {node} && |nodes| == |old(nodes)| - 1
    {
      hide Heap.Shape, Heap.Linked, StrictWeakOrder, Ordered, OrderedUp, OrderedDown;
      NodesAreCounted();
      if nelts == 0 {
        return;
      }
      ghost var i: nat :| i < |nodes| && nodes[i] == node;
      ghost var q := i + 1;
      ghost var keys := Keys();
      var child := DetachLast();
      assert Keys() == keys[..|keys| - 1];
      DetachedContents(old(nodes));
      if child == node {
        // The root's own pointer was cleared with the rest if it was the last node, so clearing it again is never
        // needed.
        assert child != min;
        DetachedKeys(less, keys);
        return;
      }
      ReplaceNode(node, child, q);
      assert Keys() == keys[..|keys| - 1][q - 1 := keys[|keys| - 1]];
      ReplacedContents(old(nodes), q);
      ReplacedKeys(less, keys, q);
      ghost var p := SiftDown(child, less, q);
      SiftUp(child, less, p);
    }

    /** Removal of a least node. */
    method Dequeue(less: (K, K) -> bool)
      requires StrictWeakOrder(less) && Valid(less)
      modifies this, NodeSet()`left, NodeSet()`right, NodeSet()`parent
      ensures Valid(less)
      ensures if old(nodes) == [] then nodes == []
              else NodeSet() == old(NodeSet()) - {old(min)} && |nodes| == |old(nodes)| - 1
    {
      Remove(min, less);
    }
  }

  lemma DetachedContents<T>(s: seq<T>)
    requires s != [] && forall i: nat, j: nat :: i < j < |s| ==> s[i] != s[j]
    ensures Elements(s[..|s| - 1]) == Elements(s) - {s[|s| - 1]}
  {
  }

  lemma ReplacedContents<T>(s: seq<T>, q: nat)
    requires 1 <= q < |s| && forall i: nat, j: nat :: i < j < |s| ==> s[i] != s[j]
    ensures Elements(s[..|s| - 1][q - 1 := s[|s| - 1]]) == Elements(s) - {s[q - 1]}
  {
    var r := s[..|s| - 1][q - 1 := s[|s| - 1]];
    forall x | x in s && x != s[q - 1] ensures x in r {
      var k :| 0 <= k < |s| && s[k] == x;
      assert r[if k == |s| - 1 then q - 1 else k] == x;
    }
  }

  lemma DetachedKeys<K(!new)>(less: (K, K) -> bool, keys: seq<K>)
    requires Ordered(less, keys) && keys != []
    ensures Ordered(less, keys[..|keys| - 1])
  {
    var r := keys[..|keys| - 1];
    forall k: nat ensures InPlace(less, r, k) {
      assert InPlace(less, keys, k);
    }
  }

  /** Putting the last key in place of another one leaves it as the only one out of order. */
  lemma ReplacedKeys<K(!new)>(less: (K, K) -> bool, keys: seq<K>, q: nat)
    requires StrictWeakOrder(less) && Ordered(less, keys) && 1 <= q < |keys|
    ensures OrderedDown(less, keys[..|keys| - 1][q - 1 := keys[|keys| - 1]], q)
  {
    var r := keys[..|keys| - 1][q - 1 := keys[|keys| - 1]];
    forall k: nat | k != q && k / 2 != q ensures InPlace(less, r, k) {
      assert InPlace(less, keys, k);
    }
    assert InPlace(less, keys, q) && InPlace(less, keys, 2 * q) && InPlace(less, keys, 2 * q + 1);
  }
}

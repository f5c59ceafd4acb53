/** The binary tree with parent pointers: insertion, deletion by relinking the
    successor, search, and the step to the next node in order. */
module BinTree {

  class Node<D> {
    var left: Node?<D>
    var right: Node?<D>
    var parent: Node?<D>
    const data: D

    // The nodes whose keys bound the keys below this node; null is no bound.
    ghost var lo: Node?<D>
    ghost var hi: Node?<D>

    constructor (data: D, parent: Node?<D>)
      ensures this.data == data && this.parent == parent && left == null && right == null
    {
      this.data, this.parent, left, right := data, parent, null, null;
    }
  }

  // The two comparison functions of the tree compare integer keys.
  class Tree<D> {
    var root: Node?<D>
    var noInTree: int
    const key: D -> int
    ghost var nodes: set<Node<D>>

    function K(n: Node<D>): int {
      key(n.data)
    }

    // Bounds on a key, and one bound within another.
    predicate Below(a: Node?<D>, k: int) {
      a == null || K(a) < k
    }

    predicate Above(b: Node?<D>, k: int) {
      b == null || k < K(b)
    }

    predicate NotAbove(a: Node?<D>, b: Node?<D>) {
      b == null || (a != null && K(a) <= K(b))
    }

    predicate NotBelow(a: Node?<D>, b: Node?<D>) {
      b == null || (a != null && K(a) >= K(b))
    }

    ghost predicate Bounded(n: Node<D>)
      reads `root, `nodes, nodes, n
    {
      && (n.lo != null ==> n.lo in nodes && K(n.lo) < K(n) && Above(n.lo.hi, K(n)))
      && (n.hi != null ==> n.hi in nodes && K(n) < K(n.hi) && Below(n.hi.lo, K(n)))
    }

    ghost predicate Linked(n: Node<D>)
      reads `root, `nodes, nodes, n
    {
      && (n.left != null ==> n.left in nodes && n.left.parent == n && n.left.lo == n.lo && n.left.hi == n)
      && (n.right != null ==> n.right in nodes && n.right.parent == n && n.right.lo == n && n.right.hi == n.hi)
      && (n.parent == null ==> n == root)
      && (n.parent != null ==> n.parent in nodes && (n.parent.left == n || n.parent.right == n))
    }

    // Where a link is missing there is no key to reach through it.
    ghost predicate NoneLeft(n: Node<D>, k: int)
      reads n
    {
      n.left == null && Below(n.lo, k) ==> K(n) <= k
    }

    ghost predicate NoneRight(n: Node<D>, k: int)
      reads n
    {
      n.right == null && Above(n.hi, k) ==> k <= K(n)
    }

    // What lies below a node has its bounds within the bounds on that side.
    ghost predicate Nested(x: Node<D>, y: Node<D>)
      reads x, y
    {
      && (K(x) < K(y) && Above(x.hi, K(y)) ==> NotBelow(y.lo, x) && NotAbove(y.hi, x.hi))
      && (K(y) < K(x) && Below(x.lo, K(y)) ==> NotAbove(y.hi, x) && NotBelow(y.lo, x.lo))
    }

    ghost predicate Rooted()
      reads `root, `nodes, nodes
    {
      && (root == null <==> nodes == {})
      && (root != null ==> root in nodes && root.parent == null && root.lo == null && root.hi == null)
    }

    ghost predicate Distinct()
      reads `root, `nodes
    {
      forall x, y {:trigger Differ(x, y)} :: x in nodes && y in nodes ==> Differ(x, y)
    }

    ghost predicate Differ(x: Node<D>, y: Node<D>) {
      K(x) == K(y) ==> x == y
    }

    ghost predicate Full()
      reads `root, `nodes, nodes
    {
      && (forall x, y {:trigger NoneLeft(x, K(y))} :: x in nodes && y in nodes ==> NoneLeft(x, K(y)))
      && (forall x, y {:trigger NoneRight(x, K(y))} :: x in nodes && y in nodes ==> NoneRight(x, K(y)))
      && (forall x, y {:trigger Nested(x, y)} :: x in nodes && y in nodes ==> Nested(x, y))
    }

    /** An ordered tree over the nodes, every parent link the inverse of a child
        link, every node reached from the root by comparing keys. */
    ghost predicate Shape()
      reads `root, `nodes, nodes
    {
      && Rooted() && Distinct() && Full()
      && (forall n {:trigger Bounded(n)} :: n in nodes ==> Bounded(n))
      && (forall n {:trigger Linked(n)} :: n in nodes ==> Linked(n))
    }

    ghost predicate Valid()
      reads this, nodes
    {
      Shape() && noInTree == |nodes|
    }

    constructor (key: D -> int)
      ensures Valid() && nodes == {} && this.key == key
    {
      this.key := key;
      root, noInTree, nodes := null, 0, {};
    }

    ghost predicate Has(k: int)
      reads `root, `nodes
    {
      exists n :: n in nodes && K(n) == k
    }

    // The nodes that can lie below a node.
    ghost function Span(n: Node?<D>): set<Node<D>>
      reads `root, `nodes, n
    {
      if n == null then {} else set m | m in nodes && Below(n.lo, K(m)) && Above(n.hi, K(m))
    }

    // A key within a node's bounds stays within those of the child on its side,
    // and a missing child means that no node has it.
    lemma Step(n: Node<D>, k: int)
      requires Shape() && n in nodes && Below(n.lo, k) && Above(n.hi, k) && k != K(n)
      ensures var c := if k < K(n) then n.left else n.right;
        && (c == null ==> !Has(k))
        && (c != null ==> c in nodes && Below(c.lo, k) && Above(c.hi, k) && Span(c) < Span(n))
    {
      hide Nested;
      assert Linked(n) && Bounded(n);
      assert forall y :: y in nodes ==> NoneLeft(n, K(y)) && NoneRight(n, K(y));
      var c := if k < K(n) then n.left else n.right;
      if c != null {
        assert n in Span(n) && n !in Span(c);
      }
    }

    /** FindNode: the node with the key, if there is one. */
    method FindNode(data: D) returns (r: Node?<D>)
      requires Valid()
      ensures r != null <==> Has(key(data))
      ensures r != null ==> r in nodes && K(r) == key(data)
    {
      hide Shape;
      Start();
      var current := root;
      while current != null
        invariant current == null ==> !Has(key(data))
        invariant current != null ==>
          current in nodes && Below(current.lo, key(data)) && Above(current.hi, key(data))
        decreases Span(current), current != null
      {
        if key(data) == K(current) {
          return current;
        }
        Step(current, key(data));
        current := if key(data) < K(current) then current.left else current.right;
      }
      return null;
    }

    lemma Start()
      requires Shape()
      ensures Rooted() && Distinct()
    {
    }

    // ---------- the next node ----------

    // r is the node right above the key of a, the least of all when a is null.
    ghost predicate IsNext(a: Node?<D>, r: Node?<D>)
      reads `nodes
    {
      && (r != null ==> r in nodes && Below(a, K(r)))
      && forall y :: y in nodes && Below(a, K(y)) ==> r != null && K(r) <= K(y)
    }

    // The left-most node below n is next to the lower bound of n.
    method LeftMost(n: Node<D>) returns (r: Node<D>)
      requires Shape() && n in nodes
      ensures r in nodes && r.lo == n.lo && r.left == null && IsNext(n.lo, r)
      ensures r != n ==> r.parent != null && r.parent in nodes && r.parent.left == r
    {
      hide Shape;
      r := n;
      while r.left != null
        invariant r in nodes && r.lo == n.lo
        invariant r != n ==> r.parent != null && r.parent in nodes && r.parent.left == r
        decreases Span(r)
      {
        GoLeft(r);
        r := r.left;
      }
      LeftEnd(r);
    }

    lemma GoLeft(n: Node<D>)
      requires Shape() && n in nodes && n.left != null
      ensures n.left in nodes && n.left.lo == n.lo && n.left.hi == n && n.left.parent == n
      ensures Span(n.left) < Span(n)
    {
      hide Nested;
      assert Linked(n) && Bounded(n);
      assert n in Span(n) && n !in Span(n.left);
    }

    lemma GoRight(n: Node<D>)
      requires Shape() && n in nodes && n.right != null
      ensures n.right in nodes && n.right.lo == n && n.right.hi == n.hi && n.right.parent == n
      ensures Span(n.right) < Span(n)
    {
      hide Nested;
      assert Linked(n) && Bounded(n);
      assert n in Span(n) && n !in Span(n.right);
    }

    lemma LeftEnd(n: Node<D>)
      requires Shape() && n in nodes && n.left == null
      ensures IsNext(n.lo, n)
    {
      hide Nested, Linked;
      assert Bounded(n);
      assert forall y :: y in nodes ==> NoneLeft(n, K(y));
    }

    lemma RightEnd(n: Node<D>)
      requires Shape() && n in nodes && n.right == null
      ensures IsNext(n, n.hi)
    {
      hide Nested, Linked;
      assert Bounded(n);
      assert forall y :: y in nodes ==> NoneRight(n, K(y));
    }

    // Climbing one link keeps the upper bound, or arrives at it.
    lemma Climb(n: Node<D>)
      requires Shape() && n in nodes
      ensures n.parent == null ==> n.hi == null
      ensures n.parent != null ==> n.parent in nodes && Span(n) < Span(n.parent)
      ensures n.parent != null && n.parent.right == n ==> n.hi == n.parent.hi
      ensures n.parent != null && n.parent.right != n ==> n.hi == n.parent
    {
      hide Nested;
      assert Rooted() && Linked(n);
      if n.parent != null {
        var p := n.parent;
        assert Linked(p) && Bounded(p);
        assert p in Span(p) && p !in Span(n);
      }
    }

    /** NextNode: the least node, or the one that follows an element. */
    method NextNode(element: Node?<D>) returns (r: Node?<D>)
      requires Valid() && (element != null ==> element in nodes)
      ensures IsNext(element, r)
    {
      hide Shape, IsNext;
      Start();
      if element == null {
        r := root;
        if r != null {
          r := LeftMost(r);
        } else {
          NextOfNone();
        }
      } else if element.right != null {
        GoRight(element);
        r := LeftMost(element.right);
      } else {
        RightEnd(element);
        var father: Node<D> := element;
        r := father.parent;
        Climb(father);
        while r != null && r.right == father
          invariant father in nodes && r == father.parent && father.hi == element.hi
          decreases nodes - Span(father)
        {
          Climb(father);
          father := r;
          r := father.parent;
        }
        Climb(father);
      }
    }

    lemma NextOfNone()
      requires nodes == {}
      ensures IsNext(null, null)
    {
    }

    // ---------- insertion ----------

    // p is where the search for an absent key ends.
    ghost predicate Slot(p: Node<D>, k: int)
      reads `root, `nodes, p
    {
      && p in nodes && Below(p.lo, k) && Above(p.hi, k)
      && (if k < K(p) then p.left == null else k > K(p) && p.right == null)
    }

    // No other node misses the new key, and the new node misses none.
    ghost predicate FitsAt(p: Node<D>, k: int)
      reads `root, `nodes, p, nodes
    {
      && (forall n :: n in nodes && n != p ==> NoneLeft(n, k) && NoneRight(n, k))
      && (forall n :: n in nodes ==> NestsNew(p, k, n))
      && (forall y :: y in nodes ==> Below(LowerFor(p, k), K(y)) ==> k < K(y))
      && (forall y :: y in nodes ==> Above(UpperFor(p, k), K(y)) ==> K(y) < k)
    }

    ghost predicate NestsNew(p: Node<D>, k: int, x: Node<D>)
      reads p, x
    {
      && (K(x) < k && Above(x.hi, k) ==> NotBelow(LowerFor(p, k), x) && NotAbove(UpperFor(p, k), x.hi))
      && (k < K(x) && Below(x.lo, k) ==> NotAbove(UpperFor(p, k), x) && NotBelow(LowerFor(p, k), x.lo))
    }

    lemma NewNests(p: Node<D>, k: int, x: Node<D>)
      requires Shape() && Slot(p, k) && x in nodes
      ensures NestsNew(p, k, x)
    {
      hide Linked, Nested;
      assert Bounded(p) && Bounded(x);
      assert NoneLeft(p, K(x)) && NoneRight(p, K(x));
      if x.lo != null {
        assert NoneLeft(p, K(x.lo)) && NoneRight(p, K(x.lo));
      }
      if x.hi != null {
        assert NoneLeft(p, K(x.hi)) && NoneRight(p, K(x.hi));
      }
    }

    // The bounds of a new node below p.
    ghost function LowerFor(p: Node<D>, k: int): Node?<D>
      reads p
    {
      if k < K(p) then p.lo else p
    }

    ghost function UpperFor(p: Node<D>, k: int): Node?<D>
      reads p
    {
      if k < K(p) then p else p.hi
    }

    lemma NewFits(p: Node<D>, k: int)
      requires Shape() && Slot(p, k)
      ensures FitsAt(p, k)
    {
      hide Shape, LowerFor, UpperFor, NoneLeft, NoneRight, Slot, NestsNew;
      forall n | n in nodes
        ensures NestsNew(p, k, n)
      {
        NewNests(p, k, n);
      }
      forall n | n in nodes && n != p
        ensures NoneLeft(n, k) && NoneRight(n, k)
      {
        NewFitsAt(p, k, n);
      }
      forall y | y in nodes
        ensures (Below(LowerFor(p, k), K(y)) ==> k < K(y)) && (Above(UpperFor(p, k), K(y)) ==> K(y) < k)
      {
        FitsUnder(p, k, y);
      }
    }

    lemma FitsUnder(p: Node<D>, k: int, y: Node<D>)
      requires Shape() && Slot(p, k) && y in nodes
      ensures (Below(LowerFor(p, k), K(y)) ==> k < K(y)) && (Above(UpperFor(p, k), K(y)) ==> K(y) < k)
    {
      assert Bounded(p) && NoneLeft(p, K(y)) && NoneRight(p, K(y));
    }

    lemma NewFitsAt(p: Node<D>, k: int, n: Node<D>)
      requires Shape() && Slot(p, k) && n in nodes && n != p
      ensures NoneLeft(n, k) && NoneRight(n, k)
    {
      assert Bounded(p) && Bounded(n);
      assert Differ(n, p);
      assert (n.lo != null ==> Differ(n.lo, p)) && (n.hi != null ==> Differ(n.hi, p));
      assert (p.lo != null ==> Differ(p.lo, n)) && (p.hi != null ==> Differ(p.hi, n));
      assert NoneLeft(n, K(p)) && NoneRight(n, K(p)) && NoneLeft(p, K(n)) && NoneRight(p, K(n));
      if p.lo != null {
        assert NoneRight(n, K(p.lo)) && Bounded(p.lo);
      }
      if p.hi != null {
        assert NoneLeft(n, K(p.hi)) && Bounded(p.hi);
      }
      if n.lo != null {
        assert NoneLeft(p, K(n.lo)) && NoneRight(p, K(n.lo)) && Bounded(n.lo);
      }
      if n.hi != null {
        assert NoneLeft(p, K(n.hi)) && NoneRight(p, K(n.hi)) && Bounded(n.hi);
      }
    }

    // The parent of a new node, null in an empty tree; or the node that has the key.
    method FindParent(data: D) returns (current: Node?<D>, parent: Node?<D>)
      requires Valid()
      ensures current != null ==> current in nodes && K(current) == key(data)
      ensures current == null ==>
        !Has(key(data)) && if parent == null then nodes == {} else Slot(parent, key(data))
    {
      hide Shape;
      Start();
      current, parent := root, null;
      while current != null
        invariant current != null ==>
          current in nodes && Below(current.lo, key(data)) && Above(current.hi, key(data))
        invariant current == null ==>
          !Has(key(data)) && if parent == null then nodes == {} else Slot(parent, key(data))
        decreases Span(current), current != null
      {
        if key(data) == K(current) {
          return;
        }
        Step(current, key(data));
        parent := current;
        current := if key(data) < K(current) then current.left else current.right;
      }
    }

    // The first node of an empty tree.
    method InsertRoot(x: Node<D>)
      requires Valid() && nodes == {} && x.left == null && x.right == null && x.parent == null
      modifies this, x
      ensures Valid() && nodes == {x}
      ensures unchanged(x`left, x`right, x`parent)
    {
      noInTree := noInTree + 1;
      root := x;
      x.lo, x.hi, nodes := null, null, {x};
    }

    // What linking a new node changes.
    twostate predicate Attached(x: Node<D>)
      reads this, nodes, x
    {
      && x !in old(nodes) && x.parent != null && x.parent in old(nodes)
      && nodes == old(nodes) + {x} && root == old(root)
      && x.left == null && x.right == null
      && (forall n :: n in old(nodes) ==>
        n.lo == old(n.lo) && n.hi == old(n.hi) && n.parent == old(n.parent)
        && (n.left == if n == x.parent && K(x) < K(n) then x else old(n.left))
        && (n.right == if n == x.parent && K(x) >= K(n) then x else old(n.right)))
      && x.parent == old(x.parent) && x.lo == old(LowerFor(x.parent, K(x))) && x.hi == old(UpperFor(x.parent, K(x)))
    }

    twostate lemma KeepBounded(x: Node<D>)
      requires old(x.parent != null && Valid() && Slot(x.parent, K(x))) && Attached(x)
      ensures forall n :: n in nodes ==> Bounded(n)
    {
      hide Linked, Full;
      assert old(Bounded(x.parent));
      forall n | n in nodes
        ensures Bounded(n)
      {
        assert n != x ==> old(Bounded(n));
      }
    }

    twostate lemma KeepLinked(x: Node<D>)
      requires old(x.parent != null && Valid() && Slot(x.parent, K(x))) && Attached(x)
      ensures forall n :: n in nodes ==> Linked(n)
    {
      hide Bounded, Full;
      assert old(Linked(x.parent));
      forall n | n in nodes
        ensures Linked(n)
      {
        assert n != x ==> old(Linked(n));
      }
    }

    twostate lemma KeepFull(x: Node<D>)
      requires old(x.parent != null && Full() && FitsAt(x.parent, K(x))) && Attached(x)
      ensures Full()
    {
      forall u, y | u in nodes && y in nodes
        ensures NoneLeft(u, K(y)) && NoneRight(u, K(y)) && Nested(u, y)
      {
        if u != x {
          if y != x {
            assert old(NoneLeft(u, K(y)) && NoneRight(u, K(y)) && Nested(u, y));
          } else {
            assert old(u != x.parent ==> NoneLeft(u, K(y)) && NoneRight(u, K(y)));
            assert old(NestsNew(x.parent, K(x), u));
          }
        }
      }
    }

    method LinkBelow(x: Node<D>, parent: Node<D>)
      requires x !in nodes && parent in nodes && x.left == null && x.right == null && x.parent == parent
      modifies this, parent, x
      ensures Attached(x)
      ensures noInTree == old(noInTree) + 1 && nodes == old(nodes) + {x} && root == old(root)
    {
      noInTree := noInTree + 1;
      x.lo, x.hi := LowerFor(parent, K(x)), UpperFor(parent, K(x));
      if K(x) < K(parent) {
        parent.left := x;
      } else {
        parent.right := x;
      }
      nodes := nodes + {x};
    }

    // Linking a new node below its parent.
    method InsertBelow(x: Node<D>, parent: Node<D>)
      requires Valid() && x !in nodes && Slot(parent, K(x)) && !Has(K(x))
      requires x.left == null && x.right == null && x.parent == parent
      modifies this, parent, x
      ensures Valid() && nodes == old(nodes) + {x}
    {
      hide Bounded, Linked, Full, FitsAt, Attached;
      NewFits(parent, K(x));
      LinkBelow(x, parent);
      KeepBounded(x);
      KeepLinked(x);
      KeepFull(x);
    }

    /** InsertNode: a new node for the data, or nothing when the key is there. */
    method InsertNode(data: D) returns (r: Node?<D>)
      requires Valid()
      modifies this, nodes
      ensures Valid()
      ensures old(Has(key(data))) ==> r == null && unchanged(this) && unchanged(nodes)
      ensures !old(Has(key(data))) ==>
        r != null && fresh(r) && r.data == data && nodes == old(nodes) + {r}
    {
      hide Bounded, Linked, Full, Rooted;
      var current, parent := FindParent(data);
      if current != null {
        return null;
      }
      var x := new Node(data, parent);
      if parent != null {
        InsertBelow(x, parent);
      } else {
        InsertRoot(x);
      }
      r := x;
    }

    // ---------- deletion ----------

    function Child(y: Node<D>): Node?<D>
      reads y
    {
      if y.left != null then y.left else y.right
    }

    // Without a left child a node is nobody's upper bound, and the mirror image.
    ghost predicate OneSided(y: Node<D>)
      reads y, `root, `nodes, nodes
    {
      && (y.left == null ==> forall n :: n in nodes ==> n.hi != y)
      && (y.right == null ==> forall n :: n in nodes ==> n.lo != y)
    }

    lemma MissingSide(y: Node<D>)
      requires Shape() && y in nodes
      ensures OneSided(y)
    {
      forall n | n in nodes
        ensures (y.left == null ==> n.hi != y) && (y.right == null ==> n.lo != y)
      {
        assert Bounded(n) && NoneLeft(y, K(n)) && NoneRight(y, K(n));
      }
    }

    // What cutting a node with one child at most out of its parent chain changes.
    twostate predicate Spliced(y: Node<D>)
      reads this, nodes, y
    {
      && y in old(nodes) && nodes == old(nodes) - {y}
      && root == (if old(y.parent) == null then old(Child(y)) else old(root))
      && (forall n :: n in nodes ==>
        && n.left == (if n == old(y.parent) && old(n.left) == y then old(Child(y)) else old(n.left))
        && n.right == (if n == old(y.parent) && old(n.left) != y then old(Child(y)) else old(n.right))
        && n.parent == (if n == old(Child(y)) then old(y.parent) else old(n.parent))
        && n.lo == (if old(n.lo) == y then old(y.lo) else old(n.lo))
        && n.hi == (if old(n.hi) == y then old(y.hi) else old(n.hi)))
    }

    twostate lemma SpliceBounded(y: Node<D>)
      requires old(Shape() && y in nodes && OneSided(y) && (y.left == null || y.right == null)) && Spliced(y)
      ensures forall n :: n in nodes ==> Bounded(n)
    {
      hide Linked, Child, Rooted, Distinct;
      assert old(Bounded(y));
      assert old(y.lo != null ==> Nested(y.lo, y));
      assert old(y.hi != null ==> Nested(y.hi, y));
      forall n | n in nodes
        ensures Bounded(n)
      {
        assert old(Bounded(n));
        assert old(n.lo != null ==> Bounded(n.lo));
        assert old(n.hi != null ==> Bounded(n.hi));
      }
    }

    twostate lemma SpliceLinked(y: Node<D>)
      requires old(Shape() && y in nodes && OneSided(y) && (y.left == null || y.right == null)) && Spliced(y)
      ensures Rooted() && forall n :: n in nodes ==> Linked(n)
    {
      hide Nested;
      assert old(Linked(y) && Bounded(y));
      assert Rooted() by {
        assert forall m :: m in nodes ==> old(NoneLeft(y, K(m)) && NoneRight(y, K(m))) && Differ(y, m);
      }
      forall n | n in nodes
        ensures Linked(n)
      {
        assert old(Linked(n) && Bounded(n));
      }
    }

    twostate lemma SpliceFull(y: Node<D>)
      requires old(Shape() && y in nodes && OneSided(y) && (y.left == null || y.right == null)) && Spliced(y)
      ensures Full()
    {
      hide Rooted;
      assert old(Linked(y) && Bounded(y));
      forall x, v | x in nodes && v in nodes
        ensures NoneLeft(x, K(v)) && NoneRight(x, K(v)) && Nested(x, v)
      {
        assert old(NoneLeft(x, K(v)) && NoneRight(x, K(v)) && NoneLeft(y, K(v)) && NoneRight(y, K(v)));
        assert old(NoneLeft(y, K(x)) && NoneRight(y, K(x)));
        assert old(Linked(x) && Bounded(x) && Bounded(v) && Nested(x, v));
        assert Differ(x, y) && Differ(v, y);
        assert old((x.lo != null ==> Differ(x.lo, y)) && (x.hi != null ==> Differ(x.hi, y)));
        assert old(x.lo != null ==> NoneLeft(y, K(x.lo)) && NoneRight(y, K(x.lo)));
        assert old(x.hi != null ==> NoneLeft(y, K(x.hi)) && NoneRight(y, K(x.hi)));
      }
    }

    method Splice(y: Node<D>)
      requires Shape() && y in nodes && (y.left == null || y.right == null)
      modifies this, nodes
      ensures Shape() && nodes == old(nodes) - {y} && noInTree == old(noInTree)
    {
      hide Bounded, Linked, Full, Rooted, OneSided, Spliced;
      MissingSide(y);
      CutOut(y);
      SpliceBounded(y);
      SpliceLinked(y);
      SpliceFull(y);
    }

    // A node is none of its own neighbours.
    lemma Apart(n: Node<D>)
      requires Shape() && n in nodes
      ensures n.left != n && n.right != n && n.parent != n && n.lo != n && n.hi != n
      ensures n.left != null ==> n.left in nodes
      ensures n.right != null ==> n.right in nodes
      ensures n.parent != null ==> n.parent in nodes && (n.parent.left == n || n.parent.right == n)
    {
      hide Full, Rooted, Distinct;
      assert Linked(n) && Bounded(n);
      assert n.parent != null ==> Linked(n.parent);
    }

    // The bounds that were one node become others.
    ghost method Rebound(from: Node<D>, lo: Node?<D>, hi: Node?<D>)
      modifies nodes`lo, nodes`hi
      ensures forall n :: n in nodes ==>
        n.lo == (if old(n.lo) == from then lo else old(n.lo)) && n.hi == (if old(n.hi) == from then hi else old(n.hi))
    {
      forall n | n in nodes && n.lo == from {
        n.lo := lo;
      }
      forall n | n in nodes && n.hi == from {
        n.hi := hi;
      }
    }

    method CutOut(y: Node<D>)
      requires Shape() && y in nodes
      modifies this, nodes
      ensures Spliced(y) && nodes == old(nodes) - {y} && noInTree == old(noInTree)
    {
      hide Shape;
      Apart(y);
      var x := Child(y);
      if x != null {
        x.parent := y.parent;
      }
      if y.parent != null {
        if y == y.parent.left {
          y.parent.left := x;
        } else {
          y.parent.right := x;
        }
      } else {
        root := x;
      }
      nodes := nodes - {y};
      Rebound(y, y.lo, y.hi);
    }

    // ---------- a node taking over the links of another ----------

    // y fits right above z.
    ghost predicate Heir(z: Node<D>, y: Node<D>)
      reads `root, `nodes, z
    {
      && z in nodes && y !in nodes && K(z) < K(y) && Above(z.hi, K(y))
      && forall n {:trigger n in nodes} :: n in nodes ==> K(n) <= K(z) || K(y) < K(n)
    }

    // What replacing the first node of the pair by the second changes.
    twostate predicate Replaced(p: (Node<D>, Node<D>))
      reads this, nodes, p.1
    {
      var z, y := p.0, p.1;
      && z in old(nodes) && y !in old(nodes) && nodes == old(nodes) - {z} + {y}
      && root == (if old(z.parent) == null then y else old(root))
      && y.left == old(z.left) && y.right == old(z.right) && y.parent == old(z.parent)
      && y.lo == old(z.lo) && y.hi == old(z.hi)
      && (forall n :: n in old(nodes) && n != z ==>
        && n.left == (if n == old(z.parent) && old(n.left) == z then y else old(n.left))
        && n.right == (if n == old(z.parent) && old(n.left) != z then y else old(n.right))
        && n.parent == (if n == old(z.left) || n == old(z.right) then y else old(n.parent))
        && n.lo == (if old(n.lo) == z then y else old(n.lo))
        && n.hi == (if old(n.hi) == z then y else old(n.hi)))
    }

    twostate lemma ReplaceBounded(p: (Node<D>, Node<D>))
      requires old(Shape() && Heir(p.0, p.1)) && Replaced(p)
      ensures forall n :: n in nodes ==> Bounded(n)
    {
      hide Linked, Rooted, Full;
      assert old(Bounded(p.0));
      assert old(p.0.lo != null ==> Bounded(p.0.lo));
      assert old(p.0.hi != null ==> Bounded(p.0.hi));
      forall n | n in nodes
        ensures Bounded(n)
      {
        assert n != p.1 ==> old(Bounded(n));
        assert n != p.1 && old(n.lo) != null ==> old(Bounded(n.lo));
        assert n != p.1 && old(n.hi) != null ==> old(Bounded(n.hi));
      }
    }

    twostate lemma ReplaceLinked(p: (Node<D>, Node<D>))
      requires old(Shape() && Heir(p.0, p.1)) && Replaced(p)
      ensures Rooted() && forall n :: n in nodes ==> Linked(n)
    {
      hide Full, Distinct, Heir;
      assert old(Bounded(p.0) && Linked(p.0));
      forall n | n in nodes
        ensures Linked(n)
      {
        assert n != p.1 ==> old(Bounded(n) && Linked(n));
      }
    }

    twostate lemma ReplaceGaps(p: (Node<D>, Node<D>))
      requires old(Shape() && Heir(p.0, p.1)) && Replaced(p)
      ensures forall x, v {:trigger NoneLeft(x, K(v))} :: x in nodes && v in nodes ==> NoneLeft(x, K(v))
      ensures forall x, v {:trigger NoneRight(x, K(v))} :: x in nodes && v in nodes ==> NoneRight(x, K(v))
    {
      hide Rooted, Linked, Nested;
      var z, y := p.0, p.1;
      assert old(Bounded(z));
      forall x, v | x in nodes && v in nodes
        ensures NoneLeft(x, K(v)) && NoneRight(x, K(v))
      {
        var x0, y0 := if x == y then z else x, if v == y then z else v;
        assert old(NoneLeft(x0, K(y0)) && NoneRight(x0, K(y0)) && Bounded(x0));
        assert Differ(x0, z) && Differ(y0, z);
        assert old((x0.lo != null ==> Differ(x0.lo, z)) && (x0.hi != null ==> Differ(x0.hi, z)));
      }
    }

    twostate lemma ReplaceNested(p: (Node<D>, Node<D>))
      requires old(Shape() && Heir(p.0, p.1)) && Replaced(p)
      ensures Distinct()
      ensures forall x, v {:trigger Nested(x, v)} :: x in nodes && v in nodes ==> Nested(x, v)
    {
      hide Rooted, Linked, NoneLeft, NoneRight;
      var z, y := p.0, p.1;
      assert old(Bounded(z));
      forall x, v | x in nodes && v in nodes
        ensures Nested(x, v) && Differ(x, v)
      {
        var x0, y0 := if x == y then z else x, if v == y then z else v;
        assert old(Nested(x0, y0) && Bounded(x0) && Bounded(y0));
        assert Differ(x0, z) && Differ(y0, z) && Differ(x0, y0);
        assert old((x0.lo != null ==> Differ(x0.lo, z)) && (x0.hi != null ==> Differ(x0.hi, z)));
        assert old((y0.lo != null ==> Differ(y0.lo, z)) && (y0.hi != null ==> Differ(y0.hi, z)));
      }
    }

    twostate predicate LinksMoved(p: (Node<D>, Node<D>))
      reads this, nodes, p.1
    {
      var z, y := p.0, p.1;
      && nodes == old(nodes)
      && root == (if old(z.parent) == null then y else old(root))
      && y.left == old(z.left) && y.right == old(z.right) && y.parent == old(z.parent)
      && (forall n :: n in old(nodes) && n != z ==>
        && n.left == (if n == old(z.parent) && old(n.left) == z then y else old(n.left))
        && n.right == (if n == old(z.parent) && old(n.left) != z then y else old(n.right))
        && n.parent == (if n == old(z.left) || n == old(z.right) then y else old(n.parent)))
    }

    method MoveLinks(z: Node<D>, y: Node<D>)
      requires Shape() && z in nodes && y !in nodes
      modifies `root, nodes`left, nodes`right, nodes`parent, y`left, y`right, y`parent
      ensures LinksMoved((z, y))
    {
      hide Shape;
      Apart(z);
      y.left := z.left;
      if y.left != null {
        y.left.parent := y;
      }
      y.right := z.right;
      if y.right != null {
        y.right.parent := y;
      }
      y.parent := z.parent;
      if z.parent != null {
        if z == z.parent.left {
          z.parent.left := y;
        } else {
          z.parent.right := y;
        }
      } else {
        root := y;
      }
    }

    method TakeOver(z: Node<D>, y: Node<D>)
      requires Shape() && Heir(z, y)
      modifies this, nodes, y
      ensures Replaced((z, y)) && nodes == old(nodes) - {z} + {y} && noInTree == old(noInTree)
    {
      hide Shape;
      Apart(z);
      MoveLinks(z, y);
      Rebound(z, y, y);
      y.lo, y.hi, nodes := z.lo, z.hi, nodes - {z} + {y};
    }

    method Replace(z: Node<D>, y: Node<D>)
      requires Shape() && Heir(z, y)
      modifies this, nodes, y
      ensures Shape() && nodes == old(nodes) - {z} + {y} && noInTree == old(noInTree)
    {
      hide Bounded, Linked, NoneLeft, NoneRight, Nested, Rooted, Heir, Replaced, Distinct;
      TakeOver(z, y);
      ReplaceBounded((z, y));
      ReplaceLinked((z, y));
      ReplaceGaps((z, y));
      ReplaceNested((z, y));
    }

    // The successor of a node with two children can take its place.
    lemma SuccessorFits(z: Node<D>, y: Node<D>)
      requires Shape() && z in nodes && z.right != null && y in nodes && IsNext(z, y)
      ensures y != z && K(z) < K(y)
      ensures forall n :: n in nodes - {y} ==> K(n) <= K(z) || K(y) < K(n)
    {
      hide Full;
      assert Linked(z) && Bounded(z) && Bounded(z.right);
      assert forall n :: n in nodes ==> Differ(n, y);
    }

    lemma HeirFits(z: Node<D>, y: Node<D>)
      requires Shape() && z in nodes && y !in nodes && K(z) < K(y)
      requires forall n :: n in nodes ==> K(n) <= K(z) || K(y) < K(n)
      ensures Heir(z, y)
    {
      hide Full, Rooted, Linked, Distinct;
      assert Bounded(z);
    }

    /** wvDeleteNode: of the data exactly that of z goes. */
    method DeleteNode(z: Node?<D>)
      requires Valid() && (z != null ==> z in nodes)
      modifies this, nodes
      ensures Valid() && nodes == old(nodes) - {z}
    {
      hide Shape, Heir, IsNext;
      if z == null {
        return;
      }
      noInTree := noInTree - 1;
      var y := z;
      if z.left != null && z.right != null {
        GoRight(z);
        y := LeftMost(z.right);
        SuccessorFits(z, y);
      }
      Splice(y);
      if y != z {
        HeirFits(z, y);
        Replace(z, y);
      }
    }

    // ---------- going through all nodes ----------

    // The nodes that repeated calls of NextNode give, from the first to the last.
    ghost predicate Iterates(s: seq<Node<D>>)
      reads `nodes
    {
      && IsNext(null, At(s, 0))
      && forall i :: 0 <= i < |s| ==> Follows(s, i)
    }

    ghost predicate Follows(s: seq<Node<D>>, i: nat)
      requires i < |s|
      reads `nodes
    {
      IsNext(s[i], At(s, i + 1))
    }

    ghost function At(s: seq<Node<D>>, i: nat): Node?<D> {
      if i < |s| then s[i] else null
    }

    /** Repeated calls give every node, each once, in increasing order. */
    lemma IterationVisitsAll(s: seq<Node<D>>)
      requires Valid() && Iterates(s)
      ensures forall i, j :: 0 <= i < j < |s| ==> K(s[i]) < K(s[j])
      ensures forall n :: n in nodes <==> n in s
    {
      forall j | 0 <= j < |s|
        ensures s[j] in nodes && forall i :: 0 <= i < j ==> K(s[i]) < K(s[j])
      {
        Rising(s, j);
      }
      forall n | n in nodes
        ensures n in s
      {
        assert s != [];
        Reached(s, n, |s|);
        assert Follows(s, |s| - 1);
      }
    }

    lemma {:induction false} Rising(s: seq<Node<D>>, j: nat)
      requires Iterates(s) && j < |s|
      ensures s[j] in nodes && forall i :: 0 <= i < j ==> K(s[i]) < K(s[j])
    {
      if j > 0 {
        Rising(s, j - 1);
        assert Follows(s, j - 1);
      }
    }

    lemma {:induction false} Reached(s: seq<Node<D>>, n: Node<D>, j: nat)
      requires Iterates(s) && Distinct() && n in nodes && 0 < j <= |s|
      ensures n in s[..j] || K(s[j - 1]) < K(n)
    {
      if j == 1 {
        Rising(s, 0);
        assert Differ(n, s[0]);
      } else {
        Reached(s, n, j - 1);
        Rising(s, j - 1);
        assert Follows(s, j - 2) && Differ(n, s[j - 1]);
      }
    }
  }
}

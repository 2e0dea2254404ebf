/**
 * Value model of the unbalanced multiset binary search tree of bst.go.
 *
 * A `Tree` is the value a `*BstNode` denotes: `Nil` for nil, and
 * `Node(left, value, right)` for a node.  The read-only operations of bst.go are
 * structural recursions and appear here as functions; `Insert` and `Delete` are the
 * functional meaning of the in-place `Add` and `Remove`, which bst_node.dfy proves
 * its mutating methods against.
 */
module BstTree {
  import opened Seqs

  datatype Tree = Nil | Node(left: Tree, value: int, right: Tree)

  /** The values stored in `t`, with their multiplicities. */
  function Elems(t: Tree): multiset<int>
  {
    match t
    case Nil => multiset{}
    case Node(l, v, r) => Elems(l) + multiset{v} + Elems(r)
  }

  /** Every value in `t` is smaller than `b`. */
  predicate AllBelow(t: Tree, b: int)
  {
    match t
    case Nil => true
    case Node(l, x, r) => x < b && AllBelow(l, b) && AllBelow(r, b)
  }

  /** Every value in `t` is at least `b`. */
  predicate AllAtLeast(t: Tree, b: int)
  {
    match t
    case Nil => true
    case Node(l, x, r) => b <= x && AllAtLeast(l, b) && AllAtLeast(r, b)
  }

  /**
   * The global ordering invariant of the tree: at every node, the whole left
   * subtree is strictly smaller than the node and the whole right subtree is
   * greater than or equal to it (equal values go right).
   */
  predicate Ordered(t: Tree)
  {
    match t
    case Nil => true
    case Node(l, v, r) => Ordered(l) && Ordered(r) && AllBelow(l, v) && AllAtLeast(r, v)
  }

  lemma {:induction false} BelowElems(t: Tree, b: int)
    requires AllBelow(t, b)
    ensures forall x | x in Elems(t) :: x < b
  {
    if t.Node? {
      BelowElems(t.left, b);
      BelowElems(t.right, b);
    }
  }

  lemma {:induction false} AtLeastElems(t: Tree, b: int)
    requires AllAtLeast(t, b)
    ensures forall x | x in Elems(t) :: b <= x
  {
    if t.Node? {
      AtLeastElems(t.left, b);
      AtLeastElems(t.right, b);
    }
  }

  lemma {:induction false} BelowMonotone(t: Tree, a: int, b: int)
    requires AllBelow(t, a) && a <= b
    ensures AllBelow(t, b)
  {
    if t.Node? {
      BelowMonotone(t.left, a, b);
      BelowMonotone(t.right, a, b);
    }
  }

  // ---------------------------------------------------------------------------
  // Size, Par, Height

  /** Size: the number of nodes. */
  function Size(t: Tree): (n: nat)
    ensures n == 0 <==> t == Nil
  {
    match t
    case Nil => 0
    case Node(l, _, r) => 1 + Size(l) + Size(r)
  }

  /** Size counts every stored value once. */
  lemma {:induction false} SizeCountsElems(t: Tree)
    ensures Size(t) == |Elems(t)|
  {
    if t.Node? {
      SizeCountsElems(t.left);
      SizeCountsElems(t.right);
    }
  }

  /** Par: the number of nodes holding an even value. */
  function Par(t: Tree): (n: nat)
    ensures n <= Size(t)
  {
    match t
    case Nil => 0
    case Node(l, v, r) => (if v % 2 == 0 then 1 else 0) + Par(l) + Par(r)
  }

  /** Height: -1 for the empty tree, 0 for a leaf, one more than the taller child otherwise. */
  function Height(t: Tree): (h: int)
    ensures -1 <= h < Size(t)
    ensures h == -1 <==> t == Nil
  {
    match t
    case Nil => -1
    case Node(l, _, r) =>
      var hl, hr := Height(l), Height(r);
      if hl > hr then hl + 1 else hr + 1
  }

  function Pow2(n: nat): (p: nat)
    ensures p >= 1
  {
    if n == 0 then 1 else 2 * Pow2(n - 1)
  }

  /** A tree of height h has at most 2^(h+1) - 1 nodes. */
  lemma {:induction false} SizeBoundedByHeight(t: Tree)
    ensures Size(t) < Pow2(Height(t) + 1)
  {
    SizeBelowPow2(t, Height(t) + 1);
  }

  /** A tree lower than h has fewer than 2^h nodes. */
  lemma {:induction false} SizeBelowPow2(t: Tree, h: nat)
    requires Height(t) < h
    ensures Size(t) < Pow2(h)
  {
    if t.Node? {
      SizeBelowPow2(t.left, h - 1);
      SizeBelowPow2(t.right, h - 1);
    }
  }

  // ---------------------------------------------------------------------------
  // Traversals (the value sequences PrintPre, PrintIn and PrintPos emit)

  /** PrintPre: node, then left subtree, then right subtree. */
  function PreOrder(t: Tree): (s: seq<int>)
    ensures |s| == Size(t)
    ensures t.Node? ==> s[0] == t.value
  {
    match t
    case Nil => []
    case Node(l, v, r) => [v] + PreOrder(l) + PreOrder(r)
  }

  /** PrintIn: left subtree, then node, then right subtree. */
  function InOrder(t: Tree): (s: seq<int>)
    ensures |s| == Size(t)
  {
    match t
    case Nil => []
    case Node(l, v, r) => InOrder(l) + [v] + InOrder(r)
  }

  /** PrintPos: left subtree, then right subtree, then node. */
  function PostOrder(t: Tree): (s: seq<int>)
    ensures |s| == Size(t)
    ensures t.Node? ==> s[|s| - 1] == t.value
  {
    match t
    case Nil => []
    case Node(l, v, r) => PostOrder(l) + PostOrder(r) + [v]
  }

  lemma {:induction false} PreOrderElems(t: Tree)
    ensures multiset(PreOrder(t)) == Elems(t)
  {
    if t.Node? {
      PreOrderElems(t.left);
      PreOrderElems(t.right);
    }
  }

  lemma {:induction false} InOrderElems(t: Tree)
    ensures multiset(InOrder(t)) == Elems(t)
  {
    if t.Node? {
      InOrderElems(t.left);
      InOrderElems(t.right);
    }
  }

  lemma {:induction false} PostOrderElems(t: Tree)
    ensures multiset(PostOrder(t)) == Elems(t)
  {
    if t.Node? {
      PostOrderElems(t.left);
      PostOrderElems(t.right);
    }
  }

  /** The three depth-first walks list exactly the stored values, each node once. */
  lemma {:induction false} TraversalsArePermutations(t: Tree)
    ensures multiset(PreOrder(t)) == multiset(InOrder(t)) == multiset(PostOrder(t)) == Elems(t)
    ensures |PreOrder(t)| == |InOrder(t)| == |PostOrder(t)| == Size(t)
  {
    PreOrderElems(t);
    InOrderElems(t);
    PostOrderElems(t);
    SizeCountsElems(t);
  }

  /** Every value the in-order walk lists is stored in the tree. */
  lemma {:induction false} InOrderMembers(t: Tree)
    ensures forall x | x in InOrder(t) :: x in Elems(t)
  {
    InOrderElems(t);
    assert forall x | x in InOrder(t) :: x in multiset(InOrder(t));
  }

  /** The in-order walk of an ordered tree is non-decreasing. */
  lemma {:induction false} InOrderSorted(t: Tree)
    requires Ordered(t)
    ensures Sorted(InOrder(t))
  {
    match t
    case Nil =>
    case Node(l, v, r) =>
      InOrderSorted(l);
      InOrderSorted(r);
      var a, b := InOrder(l), InOrder(r);
      InOrderMembers(l);
      InOrderMembers(r);
      BelowElems(l, v);
      AtLeastElems(r, v);
      SortedConcat(a, [v]);
      SortedConcat(a + [v], b);
  }

  /** Par counts exactly the even values the pre-order walk lists. */
  lemma {:induction false} ParCountsEvens(t: Tree)
    ensures Par(t) == |Evens(PreOrder(t))|
  {
    match t
    case Nil =>
    case Node(l, v, r) =>
      ParCountsEvens(l);
      ParCountsEvens(r);
      EvensAppend([v], PreOrder(l));
      EvensAppend([v] + PreOrder(l), PreOrder(r));
  }

  // ---------------------------------------------------------------------------
  // Search, Min, Max

  /** Search: descend by comparison, stop at the first node equal to `v`. */
  function Search(t: Tree, v: int): (found: bool)
    ensures found ==> v in Elems(t)
    ensures Ordered(t) ==> (found <==> v in Elems(t))
  {
    match t
    case Nil => false
    case Node(l, x, r) =>
      if v < x then
        assert Ordered(t) ==> v !in Elems(r) by {
          if Ordered(t) { AtLeastElems(r, x); }
        }
        Search(l, v)
      else if v > x then
        assert Ordered(t) ==> v !in Elems(l) by {
          if Ordered(t) { BelowElems(l, x); }
        }
        Search(r, v)
      else true
  }

  /** Min: the value of the leftmost node. */
  function Min(t: Tree): (m: int)
    requires t.Node?
    ensures m in Elems(t)
    ensures Ordered(t) ==> AllAtLeast(t, m)
  {
    if t.left == Nil then t.value
    else
      var m := Min(t.left);
      assert Ordered(t) ==> AllAtLeast(t.right, m) by {
        if Ordered(t) {
          BelowElems(t.left, t.value);
          AtLeastMonotone(t.right, m, t.value);
        }
      }
      m
  }

  /** Max: the value of the rightmost node. */
  function Max(t: Tree): (m: int)
    requires t.Node?
    ensures m in Elems(t)
    ensures Ordered(t) ==> AllAtMostTree(t, m)
  {
    if t.right == Nil then
      assert Ordered(t) ==> AllAtMostTree(t.left, t.value) by {
        if Ordered(t) { BelowAtMost(t.left, t.value); }
      }
      t.value
    else
      var m := Max(t.right);
      assert Ordered(t) ==> AllAtMostTree(t.left, m) by {
        if Ordered(t) {
          AtLeastElems(t.right, t.value);
          BelowAtMost(t.left, t.value);
          AtMostMonotone(t.left, t.value, m);
        }
      }
      m
  }

  /** Every value in `t` is at most `b`. */
  predicate AllAtMostTree(t: Tree, b: int)
  {
    match t
    case Nil => true
    case Node(l, x, r) => x <= b && AllAtMostTree(l, b) && AllAtMostTree(r, b)
  }

  lemma {:induction false} AtLeastMonotone(t: Tree, a: int, b: int)
    requires AllAtLeast(t, b) && a <= b
    ensures AllAtLeast(t, a)
  {
    if t.Node? {
      AtLeastMonotone(t.left, a, b);
      AtLeastMonotone(t.right, a, b);
    }
  }

  lemma {:induction false} AtMostMonotone(t: Tree, a: int, b: int)
    requires AllAtMostTree(t, a) && a <= b
    ensures AllAtMostTree(t, b)
  {
    if t.Node? {
      AtMostMonotone(t.left, a, b);
      AtMostMonotone(t.right, a, b);
    }
  }

  lemma {:induction false} BelowAtMost(t: Tree, b: int)
    requires AllBelow(t, b)
    ensures AllAtMostTree(t, b)
  {
    if t.Node? {
      BelowAtMost(t.left, b);
      BelowAtMost(t.right, b);
    }
  }

  /** On an ordered tree Min is a lower bound and Max an upper bound of every stored value. */
  lemma {:induction false} MinMaxBound(t: Tree)
    requires t.Node? && Ordered(t)
    ensures forall x | x in Elems(t) :: Min(t) <= x <= Max(t)
  {
    AtLeastElems(t, Min(t));
    AtMostElems(t, Max(t));
  }

  lemma {:induction false} AtMostElems(t: Tree, b: int)
    requires AllAtMostTree(t, b)
    ensures forall x | x in Elems(t) :: x <= b
  {
    if t.Node? {
      AtMostElems(t.left, b);
      AtMostElems(t.right, b);
    }
  }

  /** The leftmost node's value opens the in-order walk, ordered or not. */
  lemma {:induction false} MinStartsInOrder(t: Tree)
    requires t.Node?
    ensures InOrder(t)[0] == Min(t)
  {
    if t.left != Nil {
      MinStartsInOrder(t.left);
    }
  }

  // ---------------------------------------------------------------------------
  // isBst: the local check

  /**
   * isBst: each existing child is compared with its own parent only (left child
   * strictly smaller, right child greater or equal) and checked recursively.
   */
  function IsBst(t: Tree): (ok: bool)
    requires t.Node?
    ensures Ordered(t) ==> ok
  {
    if t.left == Nil && t.right == Nil then true
    else
      var leftOK := t.left == Nil || (t.left.value < t.value && IsBst(t.left));
      var rightOK := t.right == Nil || (t.right.value >= t.value && IsBst(t.right));
      leftOK && rightOK
  }

  /** Global ordering implies that the local check passes. */
  lemma {:induction false} OrderedPassesIsBst(t: Tree)
    requires t.Node? && Ordered(t)
    ensures IsBst(t)
  {
    if t.left != Nil {
      OrderedPassesIsBst(t.left);
    }
    if t.right != Nil {
      OrderedPassesIsBst(t.right);
    }
  }

  /**
   * The converse fails: whenever a left child's right child is at least the
   * grandparent, the local check passes but the tree is not ordered
   * (50 with left child 30 whose right child is 99 is one such tree).
   */
  lemma {:induction false} LocalCheckMissesGrandchild(top: int, mid: int, low: int)
    requires mid < top <= low
    ensures var t := Node(Node(Nil, mid, Node(Nil, low, Nil)), top, Nil);
            IsBst(t) && !Ordered(t)
  {
    assert !AllBelow(Node(Nil, low, Nil), top);
  }

  // ---------------------------------------------------------------------------
  // Add

  /**
   * Add: a value smaller than the node goes left, a value greater or equal goes
   * right; where the child is missing, a new leaf takes its place.
   */
  function Insert(t: Tree, v: int): (r: Tree)
    ensures r.Node?
  {
    match t
    case Nil => Node(Nil, v, Nil)
    case Node(l, x, rt) =>
      if v < x then Node(Insert(l, v), x, rt)
      else Node(l, x, Insert(rt, v))
  }

  /** Add stores exactly one more copy of `v` and keeps every other value. */
  lemma {:induction false} InsertElems(t: Tree, v: int)
    ensures Elems(Insert(t, v)) == Elems(t) + multiset{v}
  {
    match t
    case Nil =>
    case Node(l, x, r) =>
      if v < x {
        InsertElems(l, v);
        assert Insert(t, v) == Node(Insert(l, v), x, r);
        AddOneCopy(Elems(l), Elems(r), x, v);
      } else {
        InsertElems(r, v);
        assert Insert(t, v) == Node(l, x, Insert(r, v));
        AddOneCopy(Elems(l), Elems(r), x, v);
      }
  }

  /** One more copy of `v` on either side of a node adds one copy of `v` to the whole. */
  lemma {:induction false} AddOneCopy(a: multiset<int>, b: multiset<int>, x: int, v: int)
    ensures (a + multiset{v}) + multiset{x} + b == a + multiset{x} + b + multiset{v}
    ensures a + multiset{x} + (b + multiset{v}) == a + multiset{x} + b + multiset{v}
  {
  }

  lemma {:induction false} InsertBounds(t: Tree, v: int, b: int)
    ensures AllBelow(t, b) && v < b ==> AllBelow(Insert(t, v), b)
    ensures AllAtLeast(t, b) && b <= v ==> AllAtLeast(Insert(t, v), b)
  {
    if t.Node? {
      InsertBounds(t.left, v, b);
      InsertBounds(t.right, v, b);
    }
  }

  /** Add keeps the ordering invariant. */
  lemma {:induction false} InsertOrdered(t: Tree, v: int)
    requires Ordered(t)
    ensures Ordered(Insert(t, v))
  {
    match t
    case Nil =>
    case Node(l, x, r) =>
      if v < x {
        InsertOrdered(l, v);
        InsertBounds(l, v, x);
      } else {
        InsertOrdered(r, v);
        InsertBounds(r, v, x);
      }
  }

  /**
   * On an ordered tree, Add puts the new value into the in-order walk right
   * after every value less than or equal to it: duplicates go after the copies
   * already present.
   */
  lemma {:induction false} InsertInOrder(t: Tree, v: int)
    requires Ordered(t)
    ensures InOrder(Insert(t, v)) == InsertRight(InOrder(t), v)
  {
    match t
    case Nil =>
    case Node(l, x, r) =>
      var a, b := InOrder(l), InOrder(r);
      if v < x {
        InsertInOrder(l, v);
        InsertBeforeGreater(a, x, b, v);
      } else {
        InsertInOrder(r, v);
        InOrderMembers(l);
        BelowElems(l, x);
        InsertAfterSmaller(a, x, b, v);
      }
  }

  lemma {:induction false} InsertBeforeGreater(a: seq<int>, x: int, b: seq<int>, v: int)
    requires v < x
    ensures InsertRight(a, v) + [x] + b == InsertRight(a + [x] + b, v)
  {
    assert a + [x] + b == a + ([x] + b);
    InsertRightAppend(a, [x] + b, v);
    if AllAtMost(a, v) {
      InsertRightAtEnd(a, v);
      assert InsertRight([x] + b, v) == [v] + ([x] + b);
    }
  }

  lemma {:induction false} InsertAfterSmaller(a: seq<int>, x: int, b: seq<int>, v: int)
    requires x <= v
    requires forall y | y in a :: y < x
    ensures a + [x] + InsertRight(b, v) == InsertRight(a + [x] + b, v)
  {
    assert AllAtMost(a + [x], v) by {
      forall i | 0 <= i < |a + [x]| ensures (a + [x])[i] <= v {
        if i < |a| {
          assert (a + [x])[i] == a[i] && a[i] in a;
        }
      }
    }
    InsertRightAppend(a + [x], b, v);
  }

  /** Size grows by exactly one under Add. */
  lemma {:induction false} InsertSize(t: Tree, v: int)
    ensures Size(Insert(t, v)) == Size(t) + 1
  {
    if t.Node? {
      InsertSize(t.left, v);
      InsertSize(t.right, v);
    }
  }

  /** The tree main builds: a root node, then Add of each value in turn. */
  function Build(root: int, vs: seq<int>): (t: Tree)
    ensures t.Node? && t.value == root
    ensures Size(t) == |vs| + 1
  {
    if vs == [] then Node(Nil, root, Nil)
    else
      InsertSize(Build(root, vs[..|vs| - 1]), vs[|vs| - 1]);
      Insert(Build(root, vs[..|vs| - 1]), vs[|vs| - 1])
  }

  /** Every tree built by Add from a root is ordered and passes isBst. */
  lemma {:induction false} BuildOrdered(root: int, vs: seq<int>)
    ensures Ordered(Build(root, vs))
    ensures IsBst(Build(root, vs))
  {
    if vs != [] {
      BuildOrdered(root, vs[..|vs| - 1]);
      InsertOrdered(Build(root, vs[..|vs| - 1]), vs[|vs| - 1]);
    }
    OrderedPassesIsBst(Build(root, vs));
  }

  /** A tree built by Add from a root holds the root and exactly the added values. */
  lemma {:induction false} BuildElems(root: int, vs: seq<int>)
    ensures Elems(Build(root, vs)) == multiset{root} + multiset(vs)
  {
    if vs != [] {
      var init, last := vs[..|vs| - 1], vs[|vs| - 1];
      BuildElems(root, init);
      InsertElems(Build(root, init), last);
      LastMultiset(vs);
    }
  }

  lemma {:induction false} LastMultiset(vs: seq<int>)
    requires vs != []
    ensures multiset(vs) == multiset(vs[..|vs| - 1]) + multiset{vs[|vs| - 1]}
  {
    assert vs == vs[..|vs| - 1] + [vs[|vs| - 1]];
  }

  // ---------------------------------------------------------------------------
  // Remove

  /**
   * Remove: find the first node equal to `v` on the search path; a node with at
   * most one child is replaced by that child, a node with two children takes the
   * value of its in-order successor (the minimum of its right subtree), which is
   * then removed from the right subtree.  An absent value leaves the tree as it is.
   */
  function Delete(t: Tree, v: int): (r: Tree)
    ensures Size(t) - 1 <= Size(r) <= Size(t)
    ensures !Search(t, v) ==> r == t
  {
    match t
    case Nil => Nil
    case Node(l, x, r) =>
      if v < x then Node(Delete(l, v), x, r)
      else if v > x then Node(l, x, Delete(r, v))
      else if l == Nil then r
      else if r == Nil then l
      else
        var m := Min(r);
        Node(l, m, Delete(r, m))
  }

  /** On an ordered tree, Remove takes out the first copy of `v` in the in-order walk. */
  lemma {:induction false} DeleteInOrder(t: Tree, v: int)
    requires Ordered(t)
    ensures InOrder(Delete(t, v)) == RemoveFirst(InOrder(t), v)
  {
    match t
    case Nil =>
    case Node(l, x, r) =>
      if v < x {
        DeleteInOrder(l, v);
        DeleteLeftInOrder(l, x, r, v);
      } else if v > x {
        DeleteInOrder(r, v);
        DeleteRightInOrder(l, x, r, v);
      } else if l != Nil && r != Nil {
        DeleteInOrder(r, Min(r));
        DeleteRootInOrder(l, x, r);
      } else {
        DeleteOneChildInOrder(l, x, r);
      }
  }

  lemma {:induction false} DeleteLeftInOrder(l: Tree, x: int, r: Tree, v: int)
    requires Ordered(Node(l, x, r)) && v < x
    requires InOrder(Delete(l, v)) == RemoveFirst(InOrder(l), v)
    ensures InOrder(Delete(Node(l, x, r), v)) == RemoveFirst(InOrder(Node(l, x, r)), v)
  {
    InOrderMembers(r);
    AtLeastElems(r, x);
    RemoveBeforeGreater(InOrder(l), x, InOrder(r), v);
  }

  lemma {:induction false} DeleteRightInOrder(l: Tree, x: int, r: Tree, v: int)
    requires Ordered(Node(l, x, r)) && x < v
    requires InOrder(Delete(r, v)) == RemoveFirst(InOrder(r), v)
    ensures InOrder(Delete(Node(l, x, r), v)) == RemoveFirst(InOrder(Node(l, x, r)), v)
  {
    var a, b := InOrder(l), InOrder(r);
    assert RemoveFirst(a + [x] + b, v) == a + RemoveFirst([x] + b, v) by {
      InOrderMembers(l);
      BelowElems(l, x);
      RemoveAfterSmaller(a, x, b, v);
    }
    assert RemoveFirst([x] + b, v) == [x] + RemoveFirst(b, v) by {
      assert ([x] + b)[1..] == b;
    }
    assert InOrder(Delete(Node(l, x, r), v)) == a + [x] + RemoveFirst(b, v);
    ConcatAssoc(a, [x], RemoveFirst(b, v));
  }

  /** A node holding `v` with at most one child is replaced by that child. */
  lemma {:induction false} DeleteOneChildInOrder(l: Tree, x: int, r: Tree)
    requires Ordered(Node(l, x, r)) && (l == Nil || r == Nil)
    ensures InOrder(Delete(Node(l, x, r), x)) == RemoveFirst(InOrder(Node(l, x, r)), x)
  {
    InOrderMembers(l);
    BelowElems(l, x);
    RemoveAfterSmaller(InOrder(l), x, InOrder(r), x);
    assert ([x] + InOrder(r))[1..] == InOrder(r);
    if l == Nil {
      assert [] + InOrder(r) == InOrder(r);
    } else {
      assert InOrder(l) + [] == InOrder(l);
    }
  }

  lemma {:induction false} DeleteRootInOrder(l: Tree, x: int, r: Tree)
    requires Ordered(Node(l, x, r)) && l != Nil && r != Nil
    requires InOrder(Delete(r, Min(r))) == RemoveFirst(InOrder(r), Min(r))
    ensures InOrder(Delete(Node(l, x, r), x)) == RemoveFirst(InOrder(Node(l, x, r)), x)
  {
    InOrderMembers(l);
    BelowElems(l, x);
    RemoveAfterSmaller(InOrder(l), x, InOrder(r), x);
    MinStartsInOrder(r);
    var a, b, m := InOrder(l), InOrder(r), Min(r);
    RemoveHead(b, m);
    assert ([x] + b)[1..] == b;
    assert InOrder(Delete(Node(l, x, r), x)) == a + [m] + RemoveFirst(b, m);
    ConcatAssoc(a, [m], RemoveFirst(b, m));
  }

  lemma {:induction false} RemoveBeforeGreater(a: seq<int>, x: int, b: seq<int>, v: int)
    requires v < x
    requires forall y | y in b :: x <= y
    ensures RemoveFirst(a, v) + [x] + b == RemoveFirst(a + [x] + b, v)
  {
    assert a + [x] + b == a + ([x] + b);
    RemoveFirstAppend(a, [x] + b, v);
    if v !in a {
      assert v !in [x] + b;
      RemoveFirstAbsent(a, v);
      RemoveFirstAbsent([x] + b, v);
    }
  }

  lemma {:induction false} RemoveAfterSmaller(a: seq<int>, x: int, b: seq<int>, v: int)
    requires x <= v
    requires forall y | y in a :: y < x
    ensures RemoveFirst(a + [x] + b, v) == a + RemoveFirst([x] + b, v)
  {
    assert a + [x] + b == a + ([x] + b);
    RemoveFirstAppend(a, [x] + b, v);
  }

  lemma {:induction false} RemoveHead(b: seq<int>, m: int)
    requires |b| > 0 && b[0] == m
    ensures [m] + RemoveFirst(b, m) == b
  {
  }

  /** On an ordered tree, Remove takes exactly one occurrence of `v` out, or none when absent. */
  lemma {:induction false} DeleteElems(t: Tree, v: int)
    requires Ordered(t)
    ensures Elems(Delete(t, v)) == Elems(t) - multiset{v}
  {
    DeleteInOrder(t, v);
    InOrderElems(t);
    InOrderElems(Delete(t, v));
    RemoveFirstMultiset(InOrder(t), v);
  }

  /** Size drops by one exactly when `v` was present. */
  lemma {:induction false} DeleteSize(t: Tree, v: int)
    requires Ordered(t)
    ensures Size(Delete(t, v)) == if v in Elems(t) then Size(t) - 1 else Size(t)
  {
    DeleteElems(t, v);
    SizeCountsElems(t);
    SizeCountsElems(Delete(t, v));
  }

  lemma {:induction false} MinWithin(t: Tree, b: int)
    requires t.Node?
    ensures AllBelow(t, b) ==> Min(t) < b
    ensures AllAtLeast(t, b) ==> b <= Min(t)
  {
    if t.left != Nil {
      MinWithin(t.left, b);
    }
  }

  lemma {:induction false} DeleteBounds(t: Tree, v: int, b: int)
    ensures AllBelow(t, b) ==> AllBelow(Delete(t, v), b)
    ensures AllAtLeast(t, b) ==> AllAtLeast(Delete(t, v), b)
  {
    match t
    case Nil =>
    case Node(l, x, r) =>
      if v < x {
        DeleteBounds(l, v, b);
      } else if v > x {
        DeleteBounds(r, v, b);
      } else if l != Nil && r != Nil {
        DeleteBounds(r, Min(r), b);
        MinWithin(r, b);
      }
  }

  /** Remove keeps the ordering invariant. */
  lemma {:induction false} DeleteOrdered(t: Tree, v: int)
    requires Ordered(t)
    ensures Ordered(Delete(t, v))
  {
    match t
    case Nil =>
    case Node(l, x, r) =>
      if v < x {
        DeleteOrdered(l, v);
        DeleteBounds(l, v, x);
      } else if v > x {
        DeleteOrdered(r, v);
        DeleteBounds(r, v, x);
      } else if l != Nil && r != Nil {
        var m := Min(r);
        DeleteOrdered(r, m);
        DeleteBounds(r, m, m);
        MinWithin(r, x);
        BelowMonotone(l, x, m);
      }
  }

  /** After Remove, `v` is still found exactly when the tree held more than one copy of it. */
  lemma {:induction false} SearchAfterDelete(t: Tree, v: int)
    requires Ordered(t)
    ensures Search(Delete(t, v), v) <==> Elems(t)[v] >= 2
  {
    DeleteOrdered(t, v);
    DeleteElems(t, v);
  }

  /** Cutting out the leftmost node: its right child takes its place. */
  function DeleteMin(t: Tree): Tree
    requires t.Node?
  {
    if t.left == Nil then t.right else Node(DeleteMin(t.left), t.value, t.right)
  }

  /**
   * In the two-children case the successor is removed from an ordered right
   * subtree by walking its left spine down to the node without a left child,
   * which Remove then replaces by its right child.
   */
  lemma {:induction false} SuccessorRemovalCutsLeftmost(t: Tree)
    requires t.Node? && Ordered(t)
    ensures Delete(t, Min(t)) == DeleteMin(t)
  {
    if t.left != Nil {
      MinWithin(t.left, t.value);
      SuccessorRemovalCutsLeftmost(t.left);
    }
  }

  // ---------------------------------------------------------------------------
  // Level order

  /** The children that exist, left before right: what the level walk enqueues. */
  function Kids(t: Tree): seq<Tree>
  {
    match t
    case Nil => []
    case Node(l, _, r) => (if l == Nil then [] else [l]) + (if r == Nil then [] else [r])
  }

  function SizeSum(q: seq<Tree>): nat
  {
    if q == [] then 0 else Size(q[0]) + SizeSum(q[1..])
  }

  lemma {:induction false} SizeSumAppend(a: seq<Tree>, b: seq<Tree>)
    ensures SizeSum(a + b) == SizeSum(a) + SizeSum(b)
  {
    if a == [] {
      assert a + b == b;
    } else {
      assert (a + b)[1..] == a[1..] + b;
      SizeSumAppend(a[1..], b);
    }
  }

  lemma {:induction false} KidsSize(t: Tree)
    requires t.Node?
    ensures SizeSum(Kids(t)) == Size(t) - 1
  {
    var l, r := t.left, t.right;
    var kl: seq<Tree> := if l == Nil then [] else [l];
    var kr: seq<Tree> := if r == Nil then [] else [r];
    SizeSumAppend(kl, kr);
  }

  /**
   * The level walk as `PrintLevels` runs it: dequeue the head, emit its value,
   * enqueue its existing children.
   */
  function QueueOrder(q: seq<Tree>): (s: seq<int>)
    ensures |s| == SizeSum(q)
    decreases SizeSum(q), |q|
  {
    if q == [] then []
    else
      match q[0]
      case Nil => QueueOrder(q[1..])
      case Node(_, v, _) =>
        SizeSumAppend(q[1..], Kids(q[0]));
        KidsSize(q[0]);
        [v] + QueueOrder(q[1..] + Kids(q[0]))
  }

  /** The values at the roots of a row of trees, left to right. */
  function Roots(q: seq<Tree>): seq<int>
  {
    if q == [] then [] else (if q[0].Node? then [q[0].value] else []) + Roots(q[1..])
  }

  /** The next row: the existing children of a row, left to right. */
  function Children(q: seq<Tree>): seq<Tree>
  {
    if q == [] then [] else Kids(q[0]) + Children(q[1..])
  }

  lemma {:induction false} ChildrenSize(q: seq<Tree>)
    ensures SizeSum(Children(q)) + |Roots(q)| == SizeSum(q)
    ensures SizeSum(q) > 0 ==> |Roots(q)| > 0
  {
    if q != [] {
      ChildrenSize(q[1..]);
      SizeSumAppend(Kids(q[0]), Children(q[1..]));
      if q[0].Node? {
        KidsSize(q[0]);
      }
    }
  }

  /** Level by level: the roots of a row, then the levels of the row of their children. */
  function Levels(q: seq<Tree>): (s: seq<int>)
    ensures |s| == SizeSum(q)
    decreases SizeSum(q)
  {
    if SizeSum(q) == 0 then []
    else
      ChildrenSize(q);
      Roots(q) + Levels(Children(q))
  }

  /** PrintLevels: depth 0, then depth 1 left to right, and so on. */
  function LevelOrder(t: Tree): (s: seq<int>)
    ensures |s| == Size(t)
    ensures t.Node? ==> s[0] == t.value
  {
    assert SizeSum([t]) == Size(t) + SizeSum([]);
    assert Roots([t]) == (if t.Node? then [t.value] else []) + Roots([]);
    Levels([t])
  }

  lemma {:induction false} QueueOrderOfEmpty(q: seq<Tree>)
    requires SizeSum(q) == 0
    ensures QueueOrder(q) == []
    decreases |q|
  {
    if q != [] {
      QueueOrderOfEmpty(q[1..]);
    }
  }

  /**
   * A queue holding the rest `a` of one row followed by the start `b` of the next
   * is walked as the roots of `a`, then level by level from `b` extended with the
   * children of `a`.
   */
  lemma {:induction false} QueueOrderByLevels(a: seq<Tree>, b: seq<Tree>)
    ensures QueueOrder(a + b) == Roots(a) + Levels(b + Children(a))
    decreases SizeSum(a + b), |b|, |a|
  {
    if a == [] {
      assert a + b == b && b + Children(a) == b;
      if SizeSum(b) == 0 {
        QueueOrderOfEmpty(b);
      } else {
        ChildrenSize(b);
        QueueOrderByLevels(b, []);
        LevelsStep(b);
      }
    } else {
      var h, rest := a[0], a[1..];
      SizeSumAppend(a, b);
      SizeSumAppend(rest, b);
      if h.Nil? {
        QueueOrderByLevels(rest, b);
        QueueSkipsEmpty(a, b);
      } else {
        KidsSize(h);
        SizeSumAppend(rest + b, Kids(h));
        assert rest + b + Kids(h) == rest + (b + Kids(h));
        QueueOrderByLevels(rest, b + Kids(h));
        QueueEmitsRoot(a, b);
      }
    }
  }

  lemma {:induction false} LevelsStep(b: seq<Tree>)
    requires SizeSum(b) > 0
    requires QueueOrder(b + []) == Roots(b) + Levels([] + Children(b))
    ensures QueueOrder(b) == Levels(b)
  {
    assert b + [] == b && [] + Children(b) == Children(b);
  }

  lemma {:induction false} QueueSkipsEmpty(a: seq<Tree>, b: seq<Tree>)
    requires a != [] && a[0] == Nil
    requires QueueOrder(a[1..] + b) == Roots(a[1..]) + Levels(b + Children(a[1..]))
    ensures QueueOrder(a + b) == Roots(a) + Levels(b + Children(a))
  {
    var rest := a[1..];
    assert QueueOrder(a + b) == QueueOrder(rest + b) by {
      var q := a + b;
      assert q[0] == Nil && q[1..] == rest + b;
      QueueOrderSkip(q);
    }
    RowSkip(a);
    SameLevels(b + Children(a), b + Children(rest));
  }

  lemma {:induction false} SameLevels(x: seq<Tree>, y: seq<Tree>)
    requires x == y
    ensures Levels(x) == Levels(y)
  {
  }

  lemma {:induction false} QueueOrderSkip(q: seq<Tree>)
    requires q != [] && q[0] == Nil
    ensures QueueOrder(q) == QueueOrder(q[1..])
  {
  }

  /** An empty tree at the head of a row adds no root and no children. */
  lemma {:induction false} RowSkip(a: seq<Tree>)
    requires a != [] && a[0] == Nil
    ensures Roots(a) == Roots(a[1..])
    ensures Children(a) == Children(a[1..])
  {
    assert [] + Roots(a[1..]) == Roots(a[1..]);
    assert [] + Children(a[1..]) == Children(a[1..]);
  }

  lemma {:induction false} QueueEmitsRoot(a: seq<Tree>, b: seq<Tree>)
    requires a != [] && a[0].Node?
    requires QueueOrder(a[1..] + (b + Kids(a[0]))) ==
      Roots(a[1..]) + Levels(b + Kids(a[0]) + Children(a[1..]))
    ensures QueueOrder(a + b) == Roots(a) + Levels(b + Children(a))
  {
    var h, rest := a[0], a[1..];
    QueueOrderCons(a, b);
    assert Roots(a) == [h.value] + Roots(rest);
    assert Children(a) == Kids(h) + Children(rest);
    ConcatAssoc(b, Kids(h), Children(rest));
    var L := Levels(b + Children(a));
    ConcatAssoc([h.value], Roots(rest), L);
  }


  lemma {:induction false} QueueOrderCons(a: seq<Tree>, b: seq<Tree>)
    requires a != [] && a[0].Node?
    ensures QueueOrder(a + b) == [a[0].value] + QueueOrder(a[1..] + (b + Kids(a[0])))
  {
    var q := a + b;
    assert q[0] == a[0] && q[1..] == a[1..] + b;
    QueueOrderUnfold(q);
    assert a[1..] + b + Kids(a[0]) == a[1..] + (b + Kids(a[0]));
  }

  lemma {:induction false} QueueOrderUnfold(q: seq<Tree>)
    requires q != [] && q[0].Node?
    ensures QueueOrder(q) == [q[0].value] + QueueOrder(q[1..] + Kids(q[0]))
  {
  }

  /** The queue-driven walk of PrintLevels lists the tree level by level. */
  lemma {:induction false} QueueOrderIsLevelOrder(t: Tree)
    ensures QueueOrder([t]) == LevelOrder(t)
  {
    QueueOrderByLevels([], [t]);
    assert [] + [t] == [t] && [t] + Children([]) == [t];
  }

  function ElemsSum(q: seq<Tree>): multiset<int>
  {
    if q == [] then multiset{} else Elems(q[0]) + ElemsSum(q[1..])
  }

  lemma {:induction false} ElemsSumAppend(a: seq<Tree>, b: seq<Tree>)
    ensures ElemsSum(a + b) == ElemsSum(a) + ElemsSum(b)
  {
    if a == [] {
      assert a + b == b;
    } else {
      assert (a + b)[1..] == a[1..] + b;
      ElemsSumAppend(a[1..], b);
    }
  }

  lemma {:induction false} QueueOrderElems(q: seq<Tree>)
    ensures multiset(QueueOrder(q)) == ElemsSum(q)
    decreases SizeSum(q), |q|
  {
    if q != [] {
      var h, rest := q[0], q[1..];
      if h.Nil? {
        QueueOrderElems(rest);
        assert ElemsSum(q) == ElemsSum(rest);
      } else {
        SizeSumAppend(rest, Kids(h));
        KidsSize(h);
        QueueOrderElems(rest + Kids(h));
        ElemsSumAppend(rest, Kids(h));
        KidsElems(h);
        assert QueueOrder(q) == [h.value] + QueueOrder(rest + Kids(h));
        assert ElemsSum(q) == Elems(h) + ElemsSum(rest);
      }
    }
  }

  lemma {:induction false} KidsElems(t: Tree)
    requires t.Node?
    ensures ElemsSum(Kids(t)) + multiset{t.value} == Elems(t)
  {
    var l, r := t.left, t.right;
    var kl: seq<Tree> := if l == Nil then [] else [l];
    var kr: seq<Tree> := if r == Nil then [] else [r];
    ElemsSumAppend(kl, kr);
    if l != Nil {
      ElemsSumSingle(l);
    }
    if r != Nil {
      ElemsSumSingle(r);
    }
  }

  lemma {:induction false} ElemsSumSingle(c: Tree)
    ensures ElemsSum([c]) == Elems(c)
  {
    assert [c][1..] == [];
  }

  /** The level walk visits every node exactly once. */
  lemma {:induction false} LevelOrderIsPermutation(t: Tree)
    ensures multiset(LevelOrder(t)) == Elems(t)
    ensures |LevelOrder(t)| == Size(t)
  {
    SizeCountsElems(t);
    QueueOrderIsLevelOrder(t);
    QueueOrderElems([t]);
    assert ElemsSum([t]) == Elems(t) + ElemsSum([]);
  }
  // ---------------------------------------------------------------------------
  // The demo of bst.go

  function Leaf(v: int): Tree
  {
    Node(Nil, v, Nil)
  }

  /** The tree the demo builds: root 50, then Add of 30, 70, 20, 40, 60, 80, 10, 25, 35, 45. */
  function DemoBuilt(): Tree
  {
    Insert(Insert(Insert(Insert(Insert(Insert(Insert(Insert(Insert(Insert(
      Leaf(50), 30), 70), 20), 40), 60), 80), 10), 25), 35), 45)
  }

  /** The tree the demo ends with: the built tree after removing 10, 20, 30 and 50. */
  function DemoTree(): Tree
  {
    Delete(Delete(Delete(Delete(DemoBuilt(), 10), 20), 30), 50)
  }

  /** `root.left.right.value = w` where both nodes exist; the tree as it is otherwise. */
  function SetLeftRight(t: Tree, w: int): (r: Tree)
    ensures Size(r) == Size(t)
    ensures !(t.Node? && t.left.Node? && t.left.right.Node?) ==> r == t
    ensures t.Node? && t.left.Node? && t.left.right.Node? ==>
              r.Node? && r.value == t.value && r.right == t.right &&
              r.left.Node? && r.left.value == t.left.value && r.left.left == t.left.left &&
              r.left.right.Node? && r.left.right.left == t.left.right.left &&
              r.left.right.right == t.left.right.right && r.left.right.value == w
  {
    if t.Node? && t.left.Node? && t.left.right.Node? then
      var l, lr := t.left, t.left.right;
      var changed := Node(lr.left, w, lr.right);
      assert Size(changed) == Size(lr);
      assert Size(Node(l.left, l.value, changed)) == Size(l);
      Node(Node(l.left, l.value, changed), t.value, t.right)
    else t
  }

  /** Overwriting the value swaps one stored copy of the old value for the new one. */
  lemma {:induction false} SetLeftRightElems(t: Tree, w: int)
    requires t.Node? && t.left.Node? && t.left.right.Node?
    ensures Elems(SetLeftRight(t, w)) == Elems(t) - multiset{t.left.right.value} + multiset{w}
  {
    var l, lr := t.left, t.left.right;
    var r := SetLeftRight(t, w);
    var n := r.left.right;
    assert Elems(t.left) == Elems(l.left) + multiset{l.value} + Elems(lr);
    assert Elems(r.left) == Elems(l.left) + multiset{l.value} + Elems(n);
    NodeInContext(Elems(l.left), l.value, lr, t.value, Elems(t.right), Elems(t));
    NodeInContext(Elems(l.left), l.value, r.left.right, t.value, Elems(t.right), Elems(r));
    ReplaceCopy(Elems(l.left) + multiset{l.value} + Elems(lr.left), Elems(lr.right) + multiset{t.value} + Elems(t.right),
      lr.value, w, Elems(t), Elems(r));
  }

  /** The values of the tree around the node `n` that sits at root.left.right. */
  lemma {:induction false} NodeInContext(ll: multiset<int>, lv: int, n: Tree, tv: int, tr: multiset<int>, all: multiset<int>)
    requires n.Node? && all == ll + multiset{lv} + Elems(n) + multiset{tv} + tr
    ensures all == (ll + multiset{lv} + Elems(n.left)) + multiset{n.value} + (Elems(n.right) + multiset{tv} + tr)
  {
  }

  lemma {:induction false} ReplaceCopy(p: multiset<int>, q: multiset<int>, u: int, w: int, x: multiset<int>, y: multiset<int>)
    requires x == p + multiset{u} + q && y == p + multiset{w} + q
    ensures y == x - multiset{u} + multiset{w}
  {
  }

  lemma {:induction false} DemoBuiltShape()
    ensures DemoBuilt() ==
      Node(Node(Node(Leaf(10), 20, Leaf(25)), 30, Node(Leaf(35), 40, Leaf(45))), 50,
           Node(Leaf(60), 70, Leaf(80)))
  {
  }

  /** The demo tree after removing the leaf 10. */
  function DemoAfter10(): Tree
  {
    Node(Node(Node(Nil, 20, Leaf(25)), 30, Node(Leaf(35), 40, Leaf(45))), 50, Node(Leaf(60), 70, Leaf(80)))
  }

  /** ... then the node 20, which has one child. */
  function DemoAfter20(): Tree
  {
    Node(Node(Leaf(25), 30, Node(Leaf(35), 40, Leaf(45))), 50, Node(Leaf(60), 70, Leaf(80)))
  }

  /** ... then the node 30, which has two children and takes its successor 35. */
  function DemoAfter30(): Tree
  {
    Node(Node(Leaf(25), 35, Node(Nil, 40, Leaf(45))), 50, Node(Leaf(60), 70, Leaf(80)))
  }

  lemma {:induction false} DemoRemove10()
    ensures Delete(DemoBuilt(), 10) == DemoAfter10()
  {
    DemoBuiltShape();
  }

  lemma {:induction false} DemoRemove20()
    ensures Delete(DemoAfter10(), 20) == DemoAfter20()
  {
  }

  lemma {:induction false} DemoRemove30()
    ensures Delete(DemoAfter20(), 30) == DemoAfter30()
  {
  }

  lemma {:induction false} DemoRemove50()
    ensures Delete(DemoAfter30(), 50) ==
      Node(Node(Leaf(25), 35, Node(Nil, 40, Leaf(45))), 60, Node(Nil, 70, Leaf(80)))
  {
  }

  /**
   * The demo's removals: a leaf (10), a node with one child (20), a node with
   * two children (30) and the root (50), after which 60 is the root.
   */
  lemma {:induction false} DemoRemovals()
    ensures DemoTree() ==
      Node(Node(Leaf(25), 35, Node(Nil, 40, Leaf(45))), 60, Node(Nil, 70, Leaf(80)))
  {
    DemoRemove10();
    DemoRemove20();
    DemoRemove30();
    DemoRemove50();
  }

  /**
   * The demo's corruption of root.left.right is caught: the node 40 becomes 99
   * while its right child 45 stays, and isBst compares that pair.
   */
  lemma {:induction false} DemoCorruptionCaught()
    ensures IsBst(DemoTree())
    ensures !IsBst(SetLeftRight(DemoTree(), 99))
  {
    DemoRemovals();
    var final := Node(Node(Leaf(25), 35, Node(Nil, 40, Leaf(45))), 60, Node(Nil, 70, Leaf(80)));
    var caught := Node(Nil, 99, Leaf(45));
    var corrupted := Node(Node(Leaf(25), 35, caught), 60, Node(Nil, 70, Leaf(80)));
    assert IsBst(final.left) && IsBst(final.right);
    assert IsBst(final);
    var c := SetLeftRight(final, 99);
    assert c.left.right == caught;
    assert c.left == corrupted.left;
    assert c == corrupted;
    assert !IsBst(caught);
    assert !IsBst(corrupted.left);
  }
}

/**
 * The linked tree of bst.go: a `BstNode` object owns its two children,
 * and `Add` and `Remove` change the structure in place.  Each node carries the
 * `Tree` value it denotes as the ghost field `Model`, and its footprint (the
 * node and all nodes below it) as the ghost field `Repr`; `Valid` ties the two
 * to the child links.  The mutating methods are proved against the functions
 * `Insert` and `Delete` of BstTree, whose properties are proved there.
 */
module Bst {
  import opened Seqs
  import opened BstTree

  /** The tree a possibly-nil reference denotes. */
  ghost function ModelOf(n: BstNode?): Tree
    reads n
  {
    if n == null then Nil else n.Model
  }

  class BstNode {
    var left: BstNode?
    var value: int
    var right: BstNode?

    ghost var Model: Tree
    ghost var Repr: set<object>

    /**
     * The object invariant: the children are distinct, non-overlapping
     * subtrees below this node (so the structure is a finite tree without
     * sharing or cycles), and `Model` is the tree the links spell out.
     */
    ghost predicate Valid()
      reads this, Repr
      decreases Repr
    {
      this in Repr &&
      (left != null ==>
        left in Repr && left.Repr <= Repr && this !in left.Repr && left.Valid()) &&
      (right != null ==>
        right in Repr && right.Repr <= Repr && this !in right.Repr && right.Valid()) &&
      (left != null && right != null ==> left.Repr !! right.Repr) &&
      Model == Node(ModelOf(left), value, ModelOf(right))
    }

    /** `&BstNode{value: v}`: a leaf. */
    constructor (v: int)
      ensures Valid() && fresh(Repr)
      ensures Model == Node(Nil, v, Nil)
    {
      left := null;
      value := v;
      right := null;
      Model := Node(Nil, v, Nil);
      Repr := {this};
    }

    /**
     * Add: walk left for a smaller value and right for a greater or equal
     * one, and hang a new leaf where the child is missing.
     */
    method Add(v: int)
      requires Valid()
      modifies Repr
      ensures Valid() && fresh(Repr - old(Repr))
      ensures Model == Insert(old(Model), v)
      decreases Repr, 1
    {
      if v < value {
        AddLeft(v);
      } else {
        AddRight(v);
      }
    }

    /** The `v < n.value` branch of Add: a new left leaf, or an Add on the left child. */
    method AddLeft(v: int)
      requires Valid()
      modifies Repr
      ensures Valid() && fresh(Repr - old(Repr))
      ensures Model == Node(Insert(old(ModelOf(left)), v), old(value), old(ModelOf(right)))
      decreases Repr, 0
    {
      if left == null {
        var leaf := new BstNode(v);
        left := leaf;
        Repr := Repr + leaf.Repr;
      } else {
        ghost var below := left.Repr;
        left.Add(v);
        Repr := Repr + left.Repr;
        assert Repr - old(Repr) <= left.Repr - below;
      }
      Model := Node(ModelOf(left), value, ModelOf(right));
    }

    /** The `v >= n.value` branch of Add: a new right leaf, or an Add on the right child. */
    method AddRight(v: int)
      requires Valid()
      modifies Repr
      ensures Valid() && fresh(Repr - old(Repr))
      ensures Model == Node(old(ModelOf(left)), old(value), Insert(old(ModelOf(right)), v))
      decreases Repr, 0
    {
      if right == null {
        var leaf := new BstNode(v);
        right := leaf;
        Repr := Repr + leaf.Repr;
      } else {
        ghost var below := right.Repr;
        right.Add(v);
        Repr := Repr + right.Repr;
        assert Repr - old(Repr) <= right.Repr - below;
      }
      Model := Node(ModelOf(left), value, ModelOf(right));
    }

    /** Min: follow left children to the end. */
    method Min() returns (m: int)
      requires Valid()
      ensures m == BstTree.Min(Model)
      decreases Repr
    {
      if left == null {
        m := value;
      } else {
        m := left.Min();
      }
    }

    /** Max: follow right children to the end. */
    method Max() returns (m: int)
      requires Valid()
      ensures m == BstTree.Max(Model)
      decreases Repr
    {
      if right == null {
        m := value;
      } else {
        m := right.Max();
      }
    }

    /**
     * Remove: returns the new root of this subtree, which is nil when the
     * subtree was a single node holding `v`.  A removal below this node
     * replaces the child link with what the child's removal returns; a
     * node with at most one child is replaced by that child; a node with two
     * children copies in its successor and removes the successor on the right.
     * A nil child stands for Go's call on a nil receiver, which returns nil.
     */
    method Remove(v: int) returns (r: BstNode?)
      requires Valid()
      modifies Repr
      ensures r != null ==> r.Valid() && r.Repr <= old(Repr)
      ensures ModelOf(r) == Delete(old(Model), v)
      decreases Repr, 1
    {
      ghost var l, r0 := ModelOf(left), ModelOf(right);
      if v < value {
        if left != null {
          RemoveLeft(v);
        }
        assert Model == Node(Delete(l, v), value, r0);
      } else if v > value {
        if right != null {
          RemoveRight(v);
        }
        assert Model == Node(l, value, Delete(r0, v));
      } else {
        if left == null {
          return right;
        }
        if right == null {
          return left;
        }
        var m := right.Min();
        value := m;
        Model := Node(ModelOf(left), value, ModelOf(right));
        RemoveRight(m);
        assert Model == Node(l, m, Delete(r0, m));
      }
      r := this;
    }

    /** `n.left = n.left.Remove(v)`, keeping this node's invariant. */
    method RemoveLeft(v: int)
      requires Valid() && left != null
      modifies Repr
      ensures Valid() && Repr <= old(Repr)
      ensures Model == Node(Delete(old(left.Model), v), old(value), old(ModelOf(right)))
      decreases Repr, 0
    {
      left := left.Remove(v);
      Model := Node(ModelOf(left), value, ModelOf(right));
    }

    /** `n.right = n.right.Remove(v)`, keeping this node's invariant. */
    method RemoveRight(v: int)
      requires Valid() && right != null
      modifies Repr
      ensures Valid() && Repr <= old(Repr)
      ensures Model == Node(old(ModelOf(left)), old(value), Delete(old(right.Model), v))
      decreases Repr, 0
    {
      right := right.Remove(v);
      Model := Node(ModelOf(left), value, ModelOf(right));
    }
  }

  /** The trees the nodes of a queue denote, in queue order. */
  ghost function Models(q: seq<BstNode>): seq<Tree>
    reads set i | 0 <= i < |q| :: q[i]
    ensures |Models(q)| == |q|
  {
    if q == [] then [] else [q[0].Model] + Models(q[1..])
  }

  lemma {:induction false} ModelsAppend(a: seq<BstNode>, b: seq<BstNode>)
    ensures Models(a + b) == Models(a) + Models(b)
  {
    if a == [] {
      assert a + b == b;
    } else {
      assert (a + b)[0] == a[0] && (a + b)[1..] == a[1..] + b;
      ModelsAppend(a[1..], b);
      ConcatAssoc([a[0].Model], Models(a[1..]), Models(b));
    }
  }

  /**
   * The existing children of `n`, left first: what the two conditional appends
   * of a PrintLevels round add to the back of the queue.
   */
  function ChildNodes(n: BstNode): (kids: seq<BstNode>)
    reads n
    ensures |kids| <= 2
    ensures forall k | k in kids :: k == n.left || k == n.right
    ensures kids == [] <==> n.left == null && n.right == null
    ensures n.left != null ==> kids[0] == n.left
    ensures n.right != null ==> kids[|kids| - 1] == n.right
  {
    (if n.left == null then [] else [n.left]) + (if n.right == null then [] else [n.right])
  }

  /** One round of the level walk: the dequeued tree's value, then its children at the back. */
  lemma {:induction false} DequeueStep(whole: seq<BstNode>, kids: seq<BstNode>, after: seq<BstNode>)
    requires whole != [] && whole[0].Valid()
    requires after == whole[1..] + kids
    requires kids == ChildNodes(whole[0])
    ensures QueueOrder(Models(whole)) == [whole[0].value] + QueueOrder(Models(after))
    ensures SizeSum(Models(after)) < SizeSum(Models(whole))
  {
    var current, rest := whole[0], whole[1..];
    ChildModels(current, kids);
    var before := Models(whole);
    assert before[0] == current.Model && before[1..] == Models(rest) by {
      assert whole == [current] + rest;
      ModelsAppend([current], rest);
    }
    ModelsAppend(rest, kids);
    QueueOrderUnfold(before);
    SizeSumAppend(Models(rest), Kids(current.Model));
    KidsSize(current.Model);
  }

  /** Every node still queued after a round is a valid subtree. */
  lemma {:induction false} DequeueKeepsValid(whole: seq<BstNode>, kids: seq<BstNode>, after: seq<BstNode>)
    requires whole != [] && forall i | 0 <= i < |whole| :: whole[i].Valid()
    requires after == whole[1..] + kids
    requires kids == ChildNodes(whole[0])
    ensures forall i | 0 <= i < |after| :: after[i].Valid()
  {
    ChildModels(whole[0], kids);
    forall i | 0 <= i < |after| ensures after[i].Valid() {
      if i < |whole| - 1 {
        assert after[i] == whole[i + 1];
      } else {
        assert after[i] == kids[i - (|whole| - 1)];
      }
    }
  }

  /** The children a node enqueues denote exactly the existing subtrees of its tree. */
  lemma {:induction false} ChildModels(n: BstNode, kids: seq<BstNode>)
    requires n.Valid()
    requires kids == ChildNodes(n)
    ensures Models(kids) == Kids(n.Model)
    ensures forall i | 0 <= i < |kids| :: kids[i].Valid()
  {
    var l: seq<BstNode> := if n.left == null then [] else [n.left];
    var r: seq<BstNode> := if n.right == null then [] else [n.right];
    ModelsAppend(l, r);
  }

  /**
   * PrintLevels: a queue starts with the root; each round dequeues a node,
   * emits its value and enqueues its existing children, left first.  The
   * values come out level by level.
   */
  method PrintLevels(root: BstNode?) returns (s: seq<int>)
    requires root != null ==> root.Valid()
    ensures s == LevelOrder(ModelOf(root))
  {
    s := [];
    if root == null {
      return;
    }
    var queue: seq<BstNode> := [root];
    while |queue| > 0
      invariant forall i | 0 <= i < |queue| :: queue[i].Valid()
      invariant s + QueueOrder(Models(queue)) == QueueOrder([root.Model])
      decreases SizeSum(Models(queue))
    {
      ghost var whole, s0 := queue, s;
      var current := queue[0];
      s := s + [current.value];
      var kids := ChildNodes(current);
      queue := queue[1..] + kids;
      DequeueStep(whole, kids, queue);
      DequeueKeepsValid(whole, kids, queue);
      ConcatAssoc(s0, [current.value], QueueOrder(Models(queue)));
    }
    QueueOrderIsLevelOrder(root.Model);
  }
}

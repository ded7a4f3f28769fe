/**
 * The priority queue of ku_psort.c: the AVL tree of the shared module plus a
 * general delete-by-value (`deleteNode`), and the queue object whose `root`
 * field `enqueue` and `dequeue` reassign.
 */
module KuPsort {
  import opened AvlTree
  import opened Results

  // ---------------------------------------------------------------------------
  // Deletion
  // ---------------------------------------------------------------------------

  /**
   * The tail of `deleteNode`, run on every non-null node the call returns:
   * update the height, then choose among the four rotation cases by the sign of
   * the heavy child's balance. A consistent node that is already balanced is
   * returned as it is.
   */
  function RebalanceAfterDelete(n: Tree): (r: Tree)
    requires n.Node?
    ensures r.Node?
    ensures Inorder(r) == Inorder(n)
    ensures ChildrenOk(n) ==> HeightsOk(r)
    ensures HeightsOk(n) ==> HeightsOk(r)
    ensures HeightsOk(n) && -1 <= Balance(n) <= 1 ==> r == n
  {
    var n := UpdateHeight(n);
    var balance := Balance(n);
    if balance > 1 && Balance(n.left) >= 0 then RightRotate(n)
    else if balance > 1 && Balance(n.left) < 0 then RightRotate(n.(left := LeftRotate(n.left)))
    else if balance < -1 && Balance(n.right) <= 0 then LeftRotate(n)
    else if balance < -1 && Balance(n.right) > 0 then LeftRotate(n.(right := RightRotate(n.right)))
    else n
  }

  /**
   * `deleteNode`: search by value; a smaller byte goes left, a larger one right.
   * On an equal byte, a node with at most one child is replaced by that child
   * (null when it has none); a node with two children takes the smallest byte of
   * its right subtree, which is then deleted from that subtree. Every non-null
   * node on the way back is rebalanced.
   */
  function DeleteNode(t: Tree, v: byte): (r: Tree)
    ensures HeightsOk(t) ==> HeightsOk(r)
    ensures |Inorder(r)| <= |Inorder(t)|
    decreases t
  {
    match t
    case Nil => Nil
    case Node(d, h, l, rt) =>
      var root :=
        if v < d then Node(d, h, DeleteNode(l, v), rt)
        else if v > d then Node(d, h, l, DeleteNode(rt, v))
        else if l.Nil? || rt.Nil? then (if l.Node? then l else rt)
        else
          var m := MinOf(rt);
          Node(m, h, l, DeleteNode(rt, m));
      if root.Nil? then Nil else RebalanceAfterDelete(root)
  }

  /**
   * On an ordered tree, `deleteNode` removes exactly one copy of `v` when there is
   * one, nothing otherwise, and keeps the in-order sequence non-decreasing.
   */
  lemma {:induction false} DeleteNodeSpec(t: Tree, v: byte)
    requires Sorted(Inorder(t))
    ensures Sorted(Inorder(DeleteNode(t, v)))
    ensures Contents(DeleteNode(t, v)) == Contents(t) - multiset{v}
    decreases t
  {
    if t.Node? {
      SortedChildren(t);
      if v < t.data {
        DeleteNodeSpec(t.left, v);
        DeleteLeftCase(t, v);
      } else if v > t.data {
        DeleteNodeSpec(t.right, v);
        DeleteRightCase(t, v);
      } else {
        assert v == t.data;
        if t.left.Nil? || t.right.Nil? {
          DeleteSpliceCase(t);
        } else {
          DeleteNodeSpec(t.right, MinOf(t.right));
          DeleteSuccessorCase(t);
        }
      }
    }
  }

  lemma SortedChildren(t: Tree)
    requires t.Node? && Sorted(Inorder(t))
    ensures Sorted(Inorder(t.left)) && Sorted(Inorder(t.right))
  {
    SortedParts(Inorder(t.left), t.data, Inorder(t.right));
  }

  /** Deleting `v` below the root of an ordered tree, from the left subtree. */
  lemma DeleteLeftCase(t: Tree, v: byte)
    requires t.Node? && v < t.data && Sorted(Inorder(t))
    requires Sorted(Inorder(DeleteNode(t.left, v)))
    requires Contents(DeleteNode(t.left, v)) == Contents(t.left) - multiset{v}
    ensures Sorted(Inorder(DeleteNode(t, v)))
    ensures Contents(DeleteNode(t, v)) == Contents(t) - multiset{v}
  {
    var a, b := Inorder(t.left), Inorder(t.right);
    var l' := DeleteNode(t.left, v);
    var n := Node(t.data, t.height, l', t.right);
    assert Inorder(t) == a + [t.data] + b;
    SortedParts(a, t.data, b);
    RemoveFromLeft(a, Inorder(l'), t.data, b, v);
    assert Inorder(n) == Inorder(l') + [t.data] + b;
    LeftShape(t, v);
  }

  /** Deleting `v` above the root of an ordered tree, from the right subtree. */
  lemma DeleteRightCase(t: Tree, v: byte)
    requires t.Node? && v > t.data && Sorted(Inorder(t))
    requires Sorted(Inorder(DeleteNode(t.right, v)))
    requires Contents(DeleteNode(t.right, v)) == Contents(t.right) - multiset{v}
    ensures Sorted(Inorder(DeleteNode(t, v)))
    ensures Contents(DeleteNode(t, v)) == Contents(t) - multiset{v}
  {
    var a, b := Inorder(t.left), Inorder(t.right);
    var r' := DeleteNode(t.right, v);
    var n := Node(t.data, t.height, t.left, r');
    assert Inorder(t) == a + [t.data] + b;
    SortedParts(a, t.data, b);
    RemoveFromRight(a, t.data, b, Inorder(r'), v);
    assert Inorder(n) == a + [t.data] + Inorder(r');
    RightShape(t, v);
  }

  /** Deleting the root of an ordered tree with two children: its in-order successor takes its place. */
  lemma DeleteSuccessorCase(t: Tree)
    requires t.Node? && t.left.Node? && t.right.Node? && Sorted(Inorder(t))
    requires Sorted(Inorder(DeleteNode(t.right, MinOf(t.right))))
    requires Contents(DeleteNode(t.right, MinOf(t.right))) == Contents(t.right) - multiset{MinOf(t.right)}
    ensures Sorted(Inorder(DeleteNode(t, t.data)))
    ensures Contents(DeleteNode(t, t.data)) == Contents(t) - multiset{t.data}
  {
    var a, b := Inorder(t.left), Inorder(t.right);
    var m := MinOf(t.right);
    var r' := DeleteNode(t.right, m);
    var n := Node(m, t.height, t.left, r');
    assert Inorder(t) == a + [t.data] + b;
    SortedParts(a, t.data, b);
    ReplaceByMin(a, t.data, b, Inorder(r'));
    assert Inorder(n) == a + [m] + Inorder(r');
    SuccessorShape(t);
  }

  // What `deleteNode` builds in each recursive case, before any reasoning about order.

  lemma LeftShape(t: Tree, v: byte)
    requires t.Node? && v < t.data
    ensures DeleteNode(t, v) == RebalanceAfterDelete(Node(t.data, t.height, DeleteNode(t.left, v), t.right))
  {
  }

  lemma RightShape(t: Tree, v: byte)
    requires t.Node? && v > t.data
    ensures DeleteNode(t, v) == RebalanceAfterDelete(Node(t.data, t.height, t.left, DeleteNode(t.right, v)))
  {
  }

  lemma SuccessorShape(t: Tree)
    requires t.Node? && t.left.Node? && t.right.Node?
    ensures var m := MinOf(t.right);
      DeleteNode(t, t.data) == RebalanceAfterDelete(Node(m, t.height, t.left, DeleteNode(t.right, m)))
  {
  }

  /** Deleting the byte of a node with at most one child leaves that child's bytes. */
  lemma DeleteSpliceCase(t: Tree)
    requires t.Node? && (t.left.Nil? || t.right.Nil?) && Sorted(Inorder(t))
    ensures Sorted(Inorder(DeleteNode(t, t.data)))
    ensures Contents(DeleteNode(t, t.data)) == Contents(t) - multiset{t.data}
  {
    SortedChildren(t);
    ContentsNode(t.data, t.height, t.left, t.right);
    SpliceChild(Contents(t.left), t.data, Contents(t.right));
    assert Contents(Nil) == multiset{};
    if t.left.Node? {
      SpliceOnto(t, t.left);
    } else {
      SpliceOnto(t, t.right);
    }
  }

  /** `deleteNode` at a node whose only child (possibly null) is `c` returns `c`, rebalanced. */
  lemma SpliceOnto(t: Tree, c: Tree)
    requires t.Node? && (t.left.Nil? || t.right.Nil?)
    requires c == if t.left.Node? then t.left else t.right
    ensures Inorder(DeleteNode(t, t.data)) == Inorder(c)
    ensures Contents(DeleteNode(t, t.data)) == Contents(c)
  {
    if c.Node? {
      assert DeleteNode(t, t.data) == RebalanceAfterDelete(c);
    } else {
      assert DeleteNode(t, t.data) == Nil;
    }
  }

  // The three deletion steps on in-order sequences: `a + [d] + b` is an ordered
  // node's sequence, and the step replaces one part of it.

  /** Removing `v < d` from the left part keeps the order and removes one `v`. */
  lemma RemoveFromLeft(a: seq<byte>, a': seq<byte>, d: byte, b: seq<byte>, v: byte)
    requires Sorted(a') && Sorted(b)
    requires forall x | x in a :: x <= d
    requires forall x | x in b :: d <= x
    requires multiset(a') == multiset(a) - multiset{v} && v < d
    ensures Sorted(a' + [d] + b)
    ensures multiset(a' + [d] + b) == multiset(a + [d] + b) - multiset{v}
  {
    BagBound(a', a, d, true);
    SortedJoin(a', d, b);
    AbsentAbove(b, d, v);
    SplitMultiset(a', d, b);
    SplitMultiset(a, d, b);
    RemoveLeft(multiset(a), multiset(a'), d, multiset(b), v);
  }

  /** Removing `v > d` from the right part keeps the order and removes one `v`. */
  lemma RemoveFromRight(a: seq<byte>, d: byte, b: seq<byte>, b': seq<byte>, v: byte)
    requires Sorted(a) && Sorted(b')
    requires forall x | x in a :: x <= d
    requires forall x | x in b :: d <= x
    requires multiset(b') == multiset(b) - multiset{v} && v > d
    ensures Sorted(a + [d] + b')
    ensures multiset(a + [d] + b') == multiset(a + [d] + b) - multiset{v}
  {
    BagBound(b', b, d, false);
    SortedJoin(a, d, b');
    AbsentBelow(a, d, v);
    SplitMultiset(a, d, b');
    SplitMultiset(a, d, b);
    RemoveRight(multiset(a), d, multiset(b), multiset(b'), v);
  }

  /**
   * Replacing the middle `d` by the first byte of the right part, and that part
   * by its tail's bytes, keeps the order and removes one `d`.
   */
  lemma ReplaceByMin(a: seq<byte>, d: byte, b: seq<byte>, c: seq<byte>)
    requires Sorted(a) && Sorted(b) && Sorted(c) && b != []
    requires forall x | x in a :: x <= d
    requires forall x | x in b :: d <= x
    requires multiset(c) == multiset(b) - multiset{b[0]}
    ensures Sorted(a + [b[0]] + c)
    ensures multiset(a + [b[0]] + c) == multiset(a + [d] + b) - multiset{d}
  {
    var m := b[0];
    assert m in b;
    SortedHeadIsMin(b);
    forall x | x in a
      ensures x <= m
    {
      assert x <= d;
    }
    forall x | x in b
      ensures m <= x
    {
      assert x in multiset(b);
    }
    BagBound(c, b, m, false);
    SortedJoin(a, m, c);
    SplitMultiset(a, m, c);
    SplitMultiset(a, d, b);
    assert m in multiset(b);
    ReplaceRoot(multiset(a), d, multiset(b), multiset(c), m);
  }

  // Multiset arithmetic behind the three deletion steps.

  lemma RemoveLeft(a: multiset<byte>, a': multiset<byte>, d: byte, b: multiset<byte>, v: byte)
    requires a' == a - multiset{v} && v != d && v !in b
    ensures a' + multiset{d} + b == (a + multiset{d} + b) - multiset{v}
  {
  }

  lemma RemoveRight(a: multiset<byte>, d: byte, b: multiset<byte>, b': multiset<byte>, v: byte)
    requires b' == b - multiset{v} && v != d && v !in a
    ensures a + multiset{d} + b' == (a + multiset{d} + b) - multiset{v}
  {
  }

  lemma ReplaceRoot(a: multiset<byte>, d: byte, b: multiset<byte>, b': multiset<byte>, m: byte)
    requires m in b && b' == b - multiset{m}
    ensures a + multiset{m} + b' == (a + multiset{d} + b) - multiset{d}
  {
  }

  lemma SpliceChild(a: multiset<byte>, d: byte, b: multiset<byte>)
    ensures a + b == (a + multiset{d} + b) - multiset{d}
  {
  }

  /** A sequence whose bytes are a sub-multiset of `t`'s inherits `t`'s bound `d` (above or below). */
  lemma BagBound(s: seq<byte>, t: seq<byte>, d: byte, below: bool)
    requires multiset(s) <= multiset(t)
    requires below ==> forall x | x in t :: x <= d
    requires !below ==> forall x | x in t :: d <= x
    ensures below ==> forall x | x in s :: x <= d
    ensures !below ==> forall x | x in s :: d <= x
  {
    forall x | x in s
      ensures x in t
    {
      assert x in multiset(s);
      assert x in multiset(t);
    }
  }


  lemma AbsentAbove(s: seq<byte>, d: byte, v: byte)
    requires forall x | x in s :: d <= x
    requires v < d
    ensures v !in multiset(s)
  {
    forall x | x in multiset(s) ensures x != v {
      assert x in s;
    }
  }

  lemma AbsentBelow(s: seq<byte>, d: byte, v: byte)
    requires forall x | x in s :: x <= d
    requires v > d
    ensures v !in multiset(s)
  {
    forall x | x in multiset(s) ensures x != v {
      assert x in s;
    }
  }

  /**
   * Deleting the first byte of an ordered tree removes the head of its in-order
   * sequence, and nothing else.
   */
  lemma DeleteMinIsTail(t: Tree)
    requires t.Node? && Sorted(Inorder(t))
    ensures Sorted(Inorder(DeleteNode(t, MinOf(t))))
    ensures Contents(DeleteNode(t, MinOf(t))) == Contents(t) - multiset{MinOf(t)}
    ensures Inorder(DeleteNode(t, MinOf(t))) == Inorder(t)[1..]
  {
    DeleteNodeSpec(t, MinOf(t));
    SortedWithoutHead(Inorder(t), Inorder(DeleteNode(t, MinOf(t))));
  }

  /** A sorted sequence holding the bytes of sorted `s` less its head is the tail of `s`. */
  lemma SortedWithoutHead(s: seq<byte>, u: seq<byte>)
    requires Sorted(s) && s != []
    requires Sorted(u) && multiset(u) == multiset(s) - multiset{s[0]}
    ensures u == s[1..]
  {
    assert Sorted(s[1..]);
    assert multiset(s[1..]) == multiset(s) - multiset{s[0]} by {
      assert s == [s[0]] + s[1..];
    }
    SortedUnique(u, s[1..]);
  }

  /** Deleting a byte an ordered tree does not hold leaves its in-order sequence as it was. */
  lemma DeleteNodeAbsent(t: Tree, v: byte)
    requires Sorted(Inorder(t))
    requires v !in Inorder(t)
    ensures Inorder(DeleteNode(t, v)) == Inorder(t)
  {
    DeleteNodeSpec(t, v);
    AbsentUnchanged(Inorder(DeleteNode(t, v)), Inorder(t), v);
  }

  /** A sorted sequence with the bytes of a sorted `s` less an absent `v` is `s` itself. */
  lemma AbsentUnchanged(u: seq<byte>, s: seq<byte>, v: byte)
    requires Sorted(u) && Sorted(s) && v !in s
    requires multiset(u) == multiset(s) - multiset{v}
    ensures u == s
  {
    assert v !in multiset(s);
    assert multiset(s) - multiset{v} == multiset(s);
    SortedUnique(u, s);
  }


  /**
   * Deleting the root's byte when the root has at most one child splices that
   * child in: the in-order sequence becomes the child's, and a consistent child
   * that is balanced at its root is returned exactly.
   */
  lemma DeleteNodeSplicesChild(t: Tree)
    requires t.Node? && (t.left.Nil? || t.right.Nil?)
    ensures var c := if t.left.Node? then t.left else t.right;
      && Inorder(DeleteNode(t, t.data)) == Inorder(c)
      && (HeightsOk(c) && -1 <= Balance(c) <= 1 ==> DeleteNode(t, t.data) == c)
  {
  }

  /**
   * Deleting an absent byte can still change the tree's shape: after inserting
   * 10, 5, 5 the root is unbalanced (balance 2), and deleting 20 walks through
   * the root, whose rebalancing then rotates it.
   */
  lemma DeleteAbsentReshapes()
    ensures var t := Node(10, 3, Node(5, 2, Nil, Node(5, 1, Nil, Nil)), Nil);
      && t == InsertNode(InsertNode(InsertNode(Nil, 10), 5), 5)
      && DeleteNode(t, 20) != t
  {
    InsertTenFiveFive();
    DeleteTwentyRotates();
  }



  lemma DeleteTwentyRotates()
    ensures DeleteNode(Node(10, 3, Node(5, 2, Nil, Node(5, 1, Nil, Nil)), Nil), 20)
         == Node(5, 2, Node(5, 1, Nil, Nil), Node(10, 1, Nil, Nil))
  {
    var leaf5 := Node(5, 1, Nil, Nil);
    var left := Node(5, 2, Nil, leaf5);
    var n := Node(10, 3, left, Nil);
    assert Balance(n) == 2;
    assert Balance(left) == -1;
    assert LeftRotate(left) == Node(5, 2, leaf5, Nil);
    assert RightRotate(Node(10, 3, Node(5, 2, leaf5, Nil), Nil))
        == Node(5, 2, leaf5, Node(10, 1, Nil, Nil));
    assert RebalanceAfterDelete(n) == Node(5, 2, leaf5, Node(10, 1, Nil, Nil));
  }

  // ---------------------------------------------------------------------------
  // The queue
  // ---------------------------------------------------------------------------

  /** `PriorityQueue`: the root of an AVL tree; a null root is the empty queue. */
  class PriorityQueue {
    var root: Tree

    /**
     * The queue's invariant: consistent height fields and the search-tree order,
     * which `OrderedIff` shows to be a non-decreasing in-order sequence.
     */
    ghost predicate Valid()
      reads this
    {
      HeightsOk(root) && Ordered(root)
    }

    /** `createPriorityQueue`: an empty queue. */
    constructor ()
      ensures Valid() && root == Nil
    {
      root := Nil;
    }

    /** `isEmpty`: true exactly when the root is null, that is, when the queue holds no byte. */
    method IsEmpty() returns (e: bool)
      ensures e <==> root.Nil?
      ensures e <==> Inorder(root) == []
    {
      e := root.Nil?;
    }

    /** `enqueue`: insert one byte into the tree. */
    method Enqueue(data: byte)
      requires Valid()
      modifies this
      ensures Valid()
      ensures Contents(root) == old(Contents(root)) + multiset{data}
    {
      OrderedIff(root);
      InsertNodeSorted(root, data);
      root := InsertNode(root, data);
      OrderedIff(root);
    }

    /**
     * `dequeue`: an error on an empty queue; otherwise find the leftmost byte,
     * delete one copy of it and return it. The returned byte is the smallest one,
     * and the in-order sequence loses exactly its first element.
     */
    method Dequeue() returns (r: Result<byte>)
      requires Valid()
      modifies this
      ensures Valid()
      ensures old(root).Nil? ==> r == Err(EmptyQueue) && root == old(root)
      ensures old(root).Node? ==>
        && r.Ok?
        && r.value == old(Inorder(root))[0]
        && (forall x | x in old(Contents(root)) :: r.value <= x)
        && Contents(root) == old(Contents(root)) - multiset{r.value}
        && Inorder(root) == old(Inorder(root))[1..]
    {
      var empty := IsEmpty();
      if empty {
        return Err(EmptyQueue);
      }
      OrderedIff(root);
      var minNode := FindMinNode(root);
      var minData := minNode.data;
      DeleteMinIsTail(root);
      root := DeleteNode(root, minData);
      OrderedIff(root);
      r := Ok(minData);
    }

    /** `peek`: the smallest byte, without changing the queue; an error when it is empty. */
    method Peek() returns (r: Result<byte>)
      requires Valid()
      ensures root.Nil? ==> r == Err(EmptyQueue)
      ensures root.Node? ==>
        && r.Ok?
        && r.value == Inorder(root)[0]
        && forall x | x in Contents(root) :: r.value <= x
    {
      var empty := IsEmpty();
      if empty {
        return Err(EmptyQueue);
      }
      OrderedIff(root);
      var minNode := FindMinNode(root);
      r := Ok(minNode.data);
    }
  }
}

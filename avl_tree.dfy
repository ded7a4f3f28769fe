/**
 * The AVL tree of bytes shared by both priority-queue variants: node layout,
 * height bookkeeping, the two rotations, insertion and the leftmost-node search.
 *
 * A C subtree pointer is a `Tree`: `Nil` is the null pointer and a `Node` holds
 * the byte, the stored `height` field and the two children. Every C tree
 * function returns the root of the rewritten subtree, so each one is a function
 * from the old subtree to the new one.
 */
module AvlTree {

  /** An `unsigned char`. */
  newtype byte = x: int | 0 <= x < 256

  datatype Tree = Nil | Node(data: byte, height: nat, left: Tree, right: Tree)

  // ---------------------------------------------------------------------------
  // Specification functions
  // ---------------------------------------------------------------------------

  /** The bytes of the tree in in-order (left, node, right) order. */
  ghost function Inorder(t: Tree): seq<byte>
  {
    match t
    case Nil => []
    case Node(d, _, l, r) => Inorder(l) + [d] + Inorder(r)
  }

  /** The multiset of bytes the tree holds. */
  ghost function Contents(t: Tree): multiset<byte>
  {
    multiset(Inorder(t))
  }

  /** The bytes of a node: those of its left subtree, its own, and those of its right subtree. */
  lemma ContentsNode(d: byte, h: nat, l: Tree, r: Tree)
    ensures Contents(Node(d, h, l, r)) == Contents(l) + multiset{d} + Contents(r)
  {
    assert Inorder(Node(d, h, l, r)) == Inorder(l) + [d] + Inorder(r);
    SplitMultiset(Inorder(l), d, Inorder(r));
  }

  /** The bytes of `a + [d] + b`: those of `a`, then `d`, then those of `b`. */
  lemma SplitMultiset(a: seq<byte>, d: byte, b: seq<byte>)
    ensures multiset(a + [d] + b) == multiset(a) + multiset{d} + multiset(b)
  {
    assert multiset(a + [d] + b) == multiset(a + [d]) + multiset(b);
    assert multiset(a + [d]) == multiset(a) + multiset([d]);
  }


  ghost predicate Sorted(s: seq<byte>)
  {
    forall i, j | 0 <= i < j < |s| :: s[i] <= s[j]
  }

  /** The real height of a tree: the number of nodes on its longest path. */
  ghost function Depth(t: Tree): nat
  {
    match t
    case Nil => 0
    case Node(_, _, l, r) => 1 + if Depth(l) > Depth(r) then Depth(l) else Depth(r)
  }

  /** Every stored height field equals 1 + the larger stored height of its children (null counts 0). */
  ghost predicate HeightsOk(t: Tree)
  {
    match t
    case Nil => true
    case Node(_, h, l, r) => HeightsOk(l) && HeightsOk(r) && h == 1 + Max(Height(l), Height(r))
  }

  /** The height fields are consistent everywhere below the root (the root's own field may be stale). */
  ghost predicate ChildrenOk(t: Tree)
  {
    t.Node? ==> HeightsOk(t.left) && HeightsOk(t.right)
  }

  // ---------------------------------------------------------------------------
  // Height bookkeeping
  // ---------------------------------------------------------------------------

  /** `max`: the larger of two ints. */
  function Max(a: int, b: int): (m: int)
    ensures m >= a && m >= b
    ensures m == a || m == b
  {
    if a > b then a else b
  }

  /** `getHeight`: the stored height field, 0 for null. */
  function Height(t: Tree): (h: nat)
    ensures t.Nil? ==> h == 0
    ensures t.Node? ==> h == t.height
  {
    if t.Nil? then 0 else t.height
  }

  /** On a tree whose height fields are consistent, `getHeight` is the real height. */
  lemma {:induction false} HeightIsDepth(t: Tree)
    ensures HeightsOk(t) ==> Height(t) == Depth(t)
  {
    match t
    case Nil =>
    case Node(_, _, l, r) =>
      HeightIsDepth(l);
      HeightIsDepth(r);
  }

  /** `getBalance` / `getBalanceFactor`: left height minus right height, 0 for null. */
  function Balance(t: Tree): (b: int)
    ensures t.Nil? ==> b == 0
    ensures HeightsOk(t) && t.Node? ==> b == Depth(t.left) - Depth(t.right)
  {
    if t.Nil? then 0
    else
      HeightIsDepth(t.left);
      HeightIsDepth(t.right);
      Height(t.left) - Height(t.right)
  }

  /** `createNode`: a leaf of height 1. */
  function CreateNode(d: byte): (t: Tree)
    ensures Inorder(t) == [d]
    ensures HeightsOk(t) && Height(t) == 1 && Depth(t) == 1
  {
    Node(d, 1, Nil, Nil)
  }

  /**
   * `updateHeight`: set the node's height field to 1 + the larger child height;
   * nothing happens on null and nothing but the height field changes.
   */
  function UpdateHeight(t: Tree): (r: Tree)
    ensures t.Nil? ==> r == Nil
    ensures t.Node? ==> r.Node? && r.data == t.data && r.left == t.left && r.right == t.right
    ensures Inorder(r) == Inorder(t)
    ensures ChildrenOk(t) ==> HeightsOk(r)
    ensures HeightsOk(t) ==> r == t
  {
    if t.Nil? then t else t.(height := 1 + Max(Height(t.left), Height(t.right)))
  }

  // ---------------------------------------------------------------------------
  // Rotations (with the null guards of ku_psort.c)
  // ---------------------------------------------------------------------------

  /**
   * `rightRotate`: the left child becomes the root. Returns the node unchanged
   * when it or its left child is null. The in-order sequence is kept and the
   * moved node's height is recomputed before the new root's.
   */
  function RightRotate(y: Tree): (x: Tree)
    ensures y.Nil? || y.left.Nil? ==> x == y
    ensures y.Node? ==> x.Node?
    ensures Inorder(x) == Inorder(y)
    ensures y.Node? && y.left.Node? && ChildrenOk(y) ==> HeightsOk(x)
  {
    if y.Nil? || y.left.Nil? then y
    else
      var x := y.left;
      var t2 := x.right;
      var y' := UpdateHeight(y.(left := t2));
      UpdateHeight(x.(right := y'))
  }

  /**
   * `leftRotate`: the right child becomes the root. Returns the node unchanged
   * when it or its right child is null.
   */
  function LeftRotate(x: Tree): (y: Tree)
    ensures x.Nil? || x.right.Nil? ==> y == x
    ensures x.Node? ==> y.Node?
    ensures Inorder(y) == Inorder(x)
    ensures x.Node? && x.right.Node? && ChildrenOk(x) ==> HeightsOk(y)
  {
    if x.Nil? || x.right.Nil? then x
    else
      var y := x.right;
      var t2 := y.left;
      var x' := UpdateHeight(x.(right := t2));
      UpdateHeight(y.(left := x'))
  }

  // ---------------------------------------------------------------------------
  // Insertion
  // ---------------------------------------------------------------------------

  /**
   * The part of `insertNode` after the recursive call: update the height, then
   * choose among the four rotation cases by comparing the inserted byte with the
   * heavy child's byte. When neither comparison is strict no rotation happens.
   */
  function RebalanceAfterInsert(n: Tree, v: byte): (r: Tree)
    requires n.Node?
    ensures r.Node?
    ensures Inorder(r) == Inorder(n)
    ensures ChildrenOk(n) ==> HeightsOk(r)
  {
    var n := UpdateHeight(n);
    var balance := Balance(n);
    if balance > 1 && v < n.left.data then RightRotate(n)
    else if balance < -1 && v > n.right.data then LeftRotate(n)
    else if balance > 1 && v > n.left.data then RightRotate(n.(left := LeftRotate(n.left)))
    else if balance < -1 && v < n.right.data then LeftRotate(n.(right := RightRotate(n.right)))
    else n
  }

  /**
   * `insertNode`: a byte smaller than the node's goes left, an equal or larger
   * one goes right; every node on the way back is rebalanced. Adds exactly one
   * copy of `v` and keeps the height fields consistent.
   */
  function InsertNode(t: Tree, v: byte): (r: Tree)
    ensures t.Nil? ==> r == Node(v, 1, Nil, Nil)
    ensures r.Node?
    ensures Contents(r) == Contents(t) + multiset{v}
    ensures HeightsOk(t) ==> HeightsOk(r)
    decreases t
  {
    match t
    case Nil => CreateNode(v)
    case Node(d, h, l, rt) =>
      if v < d then RebalanceAfterInsert(Node(d, h, InsertNode(l, v), rt), v)
      else RebalanceAfterInsert(Node(d, h, l, InsertNode(rt, v)), v)
  }

  /** Insertion keeps the in-order sequence non-decreasing. */
  lemma {:induction false} InsertNodeSorted(t: Tree, v: byte)
    requires Sorted(Inorder(t))
    ensures Sorted(Inorder(InsertNode(t, v)))
    decreases t
  {
    match t
    case Nil =>
    case Node(d, h, l, rt) =>
      SortedParts(Inorder(l), d, Inorder(rt));
      if v < d {
        var l' := InsertNode(l, v);
        InsertNodeSorted(l, v);
        forall x | x in Inorder(l') ensures x <= d {
          assert x in Contents(l');
          if x != v {
            assert x in multiset(Inorder(l));
            assert x in Inorder(l);
          }
        }
        SortedJoin(Inorder(l'), d, Inorder(rt));
        assert InsertNode(t, v) == RebalanceAfterInsert(Node(d, h, l', rt), v);
      } else {
        var r' := InsertNode(rt, v);
        InsertNodeSorted(rt, v);
        forall x | x in Inorder(r') ensures d <= x {
          assert x in Contents(r');
          if x != v {
            assert x in multiset(Inorder(rt));
            assert x in Inorder(rt);
          }
        }
        SortedJoin(Inorder(l), d, Inorder(r'));
        assert InsertNode(t, v) == RebalanceAfterInsert(Node(d, h, l, r'), v);
      }
  }

  /**
   * The AVL bound |balance| <= 1 is not kept by insertion: after 10, 5, 5
   * the root has balance 2, because the second 5 equals the left child's byte and
   * neither the left-left nor the left-right comparison is strict.
   */
  lemma DuplicateInsertUnbalances()
    ensures Balance(InsertNode(InsertNode(InsertNode(Nil, 10), 5), 5)) == 2
  {
    InsertTenFiveFive();
    RootBalanceTwo();
  }

  /** Inserting 10, 5, 5 into the empty tree builds a left child with a right child. */
  lemma InsertTenFiveFive()
    ensures var t := Node(10, 3, Node(5, 2, Nil, Node(5, 1, Nil, Nil)), Nil);
      InsertNode(InsertNode(InsertNode(Nil, 10), 5), 5) == t
  {
    InsertIntoEmpty();
    InsertFiveUnderTen();
    InsertSecondFive();
  }

  lemma InsertIntoEmpty()
    ensures InsertNode(Nil, 10) == Node(10, 1, Nil, Nil)
  {
  }

  lemma InsertFiveUnderTen()
    ensures InsertNode(Node(10, 1, Nil, Nil), 5) == Node(10, 2, Node(5, 1, Nil, Nil), Nil)
  {
    var leaf5 := Node(5, 1, Nil, Nil);
    assert InsertNode(Nil, 5) == leaf5;
    assert Balance(Node(10, 2, leaf5, Nil)) == 1;
  }

  lemma InsertSecondFive()
    ensures InsertNode(Node(10, 2, Node(5, 1, Nil, Nil), Nil), 5)
         == Node(10, 3, Node(5, 2, Nil, Node(5, 1, Nil, Nil)), Nil)
  {
    var leaf5 := Node(5, 1, Nil, Nil);
    assert InsertNode(Nil, 5) == leaf5;
    assert Balance(Node(5, 2, Nil, leaf5)) == -1;
    assert InsertNode(leaf5, 5) == Node(5, 2, Nil, leaf5);
    assert Balance(Node(10, 3, Node(5, 2, Nil, leaf5), Nil)) == 2;
  }

  lemma RootBalanceTwo()
    ensures Balance(Node(10, 3, Node(5, 2, Nil, Node(5, 1, Nil, Nil)), Nil)) == 2
  {
  }

  // ---------------------------------------------------------------------------
  // Minimum
  // ---------------------------------------------------------------------------

  /** The byte of the leftmost node: the functional counterpart of `findMinNode`. */
  function MinOf(t: Tree): (m: byte)
    requires t.Node?
    ensures m == Inorder(t)[0]
    decreases t
  {
    if t.left.Nil? then t.data else MinOf(t.left)
  }

  /**
   * `findMinNode` / `findMin`: walk left children until there is none. The node
   * found has no left child and its subtree is a prefix of the in-order sequence,
   * so its byte is the first in order and, in an ordered tree, the smallest.
   */
  method FindMinNode(t: Tree) returns (m: Tree)
    requires t.Node?
    ensures m.Node? && m.left.Nil?
    ensures |Inorder(m)| <= |Inorder(t)| && Inorder(m) == Inorder(t)[..|Inorder(m)|]
    ensures m.data == Inorder(t)[0] == MinOf(t)
    ensures Sorted(Inorder(t)) ==> forall x | x in Contents(t) :: m.data <= x
  {
    var current := t;
    while current.left.Node?
      invariant current.Node?
      invariant |Inorder(current)| <= |Inorder(t)|
      invariant Inorder(current) == Inorder(t)[..|Inorder(current)|]
      invariant MinOf(current) == MinOf(t)
      decreases current
    {
      current := current.left;
    }
    m := current;
    if Sorted(Inorder(t)) {
      SortedHeadIsMin(Inorder(t));
    }
  }

  // ---------------------------------------------------------------------------
  // The search-tree order
  // ---------------------------------------------------------------------------

  /** Every byte of `t` is at most `d`. */
  ghost predicate AtMost(t: Tree, d: byte)
  {
    match t
    case Nil => true
    case Node(e, _, l, r) => e <= d && AtMost(l, d) && AtMost(r, d)
  }

  /** Every byte of `t` is at least `d`. */
  ghost predicate AtLeast(t: Tree, d: byte)
  {
    match t
    case Nil => true
    case Node(e, _, l, r) => d <= e && AtLeast(l, d) && AtLeast(r, d)
  }

  /**
   * The order `insertNode` and `deleteNode` keep: at every node, the left subtree
   * holds no larger byte and the right subtree no smaller one.
   */
  ghost predicate Ordered(t: Tree)
  {
    match t
    case Nil => true
    case Node(d, _, l, r) => Ordered(l) && Ordered(r) && AtMost(l, d) && AtLeast(r, d)
  }

  /** Every element of `s` is at most `d`. */
  ghost predicate AllAtMost(s: seq<byte>, d: byte)
  {
    forall x | x in s :: x <= d
  }

  /** Every element of `s` is at least `d`. */
  ghost predicate AllAtLeast(s: seq<byte>, d: byte)
  {
    forall x | x in s :: d <= x
  }

  /** `AtMost` bounds exactly the bytes of the in-order sequence. */
  lemma {:induction false} AtMostIff(t: Tree, d: byte)
    ensures AtMost(t, d) <==> AllAtMost(Inorder(t), d)
  {
    if t.Node? {
      var a, b := Inorder(t.left), Inorder(t.right);
      AtMostIff(t.left, d);
      AtMostIff(t.right, d);
      assert Inorder(t) == a + [t.data] + b;
      if AtMost(t, d) {
        assert AllAtMost(a, d) && AllAtMost(b, d);
        assert AllAtMost(Inorder(t), d);
      } else if AllAtMost(Inorder(t), d) {
        assert t.data in Inorder(t);
        forall x | x in a ensures x <= d { assert x in Inorder(t); }
        forall x | x in b ensures x <= d { assert x in Inorder(t); }
        assert false;
      }
    }
  }

  /** `AtLeast` bounds exactly the bytes of the in-order sequence. */
  lemma {:induction false} AtLeastIff(t: Tree, d: byte)
    ensures AtLeast(t, d) <==> AllAtLeast(Inorder(t), d)
  {
    if t.Node? {
      var a, b := Inorder(t.left), Inorder(t.right);
      AtLeastIff(t.left, d);
      AtLeastIff(t.right, d);
      assert Inorder(t) == a + [t.data] + b;
      if AtLeast(t, d) {
        assert AllAtLeast(a, d) && AllAtLeast(b, d);
        assert AllAtLeast(Inorder(t), d);
      } else if AllAtLeast(Inorder(t), d) {
        assert t.data in Inorder(t);
        forall x | x in a ensures d <= x { assert x in Inorder(t); }
        forall x | x in b ensures d <= x { assert x in Inorder(t); }
        assert false;
      }
    }
  }

  /** A tree is a search tree exactly when its in-order sequence is non-decreasing. */
  lemma {:induction false} OrderedIff(t: Tree)
    ensures Ordered(t) <==> Sorted(Inorder(t))
  {
    if t.Node? {
      var a, d, b := Inorder(t.left), t.data, Inorder(t.right);
      OrderedIff(t.left);
      OrderedIff(t.right);
      AtMostIff(t.left, d);
      AtLeastIff(t.right, d);
      assert Inorder(t) == a + [d] + b;
      if Sorted(a + [d] + b) {
        SortedParts(a, d, b);
      }
      if Ordered(t) {
        SortedJoin(a, d, b);
      }
    }
  }

  // ---------------------------------------------------------------------------
  // Bytes added one at a time
  // ---------------------------------------------------------------------------

  /** The bytes of a queue that held `base` after `s[lo..hi]` are enqueued one at a time. */
  ghost function Fed(base: multiset<byte>, s: seq<byte>, lo: nat, hi: nat): multiset<byte>
    requires lo <= hi <= |s|
    decreases hi - lo
  {
    if lo == hi then base else Fed(base, s, lo, hi - 1) + multiset{s[hi - 1]}
  }

  /** Feeding `s[lo..hi]` adds exactly the bytes of that slice. */
  lemma {:induction false} FedAddsSlice(base: multiset<byte>, s: seq<byte>, lo: nat, hi: nat)
    requires lo <= hi <= |s|
    ensures Fed(base, s, lo, hi) == base + multiset(s[lo..hi])
    decreases hi - lo
  {
    if lo < hi {
      FedAddsSlice(base, s, lo, hi - 1);
      LastOfSlice(s, lo, hi);
    }
  }

  /** The bytes of `s[lo..hi]` are those of `s[lo..hi - 1]` and the last one. */
  lemma LastOfSlice(s: seq<byte>, lo: nat, hi: nat)
    requires lo < hi <= |s|
    ensures multiset(s[lo..hi]) == multiset(s[lo..hi - 1]) + multiset{s[hi - 1]}
  {
    assert s[lo..hi] == s[lo..hi - 1] + [s[hi - 1]];
  }

  // ---------------------------------------------------------------------------
  // Facts about sorted sequences
  // ---------------------------------------------------------------------------

  /** The parts of a sorted sequence `a + [d] + b` are sorted and `d` separates them. */
  lemma SortedParts(a: seq<byte>, d: byte, b: seq<byte>)
    requires Sorted(a + [d] + b)
    ensures Sorted(a) && Sorted(b)
    ensures forall x | x in a :: x <= d
    ensures forall x | x in b :: d <= x
  {
    var s := a + [d] + b;
    assert s[|a|] == d;
    forall i, j | 0 <= i < j < |a|
      ensures a[i] <= a[j]
    {
      assert a[i] == s[i] && a[j] == s[j];
    }
    forall i, j | 0 <= i < j < |b|
      ensures b[i] <= b[j]
    {
      assert b[i] == s[|a| + 1 + i] && b[j] == s[|a| + 1 + j];
    }
    forall x | x in a
      ensures x <= d
    {
      var i :| 0 <= i < |a| && a[i] == x;
      assert s[i] == x;
    }
    forall x | x in b
      ensures d <= x
    {
      var i :| 0 <= i < |b| && b[i] == x;
      assert s[|a| + 1 + i] == x;
    }
  }

  /** Two sorted sequences separated by `d` join into the sorted sequence `a + [d] + b`. */
  lemma SortedJoin(a: seq<byte>, d: byte, b: seq<byte>)
    requires Sorted(a) && Sorted(b)
    requires forall x | x in a :: x <= d
    requires forall x | x in b :: d <= x
    ensures Sorted(a + [d] + b)
  {
    var s := a + [d] + b;
    forall i, j | 0 <= i < j < |s| ensures s[i] <= s[j] {
      if j < |a| {
        assert s[i] == a[i] && s[j] == a[j];
      } else if i < |a| {
        assert s[i] == a[i] && a[i] in a;
        if j > |a| {
          assert s[j] == b[j - |a| - 1] && b[j - |a| - 1] in b;
        }
      } else if i == |a| {
        assert s[j] == b[j - |a| - 1] && b[j - |a| - 1] in b;
      } else {
        assert s[i] == b[i - |a| - 1] && s[j] == b[j - |a| - 1];
      }
    }
  }

  /** The first element of a sorted sequence is no larger than any element. */
  lemma SortedHeadIsMin(s: seq<byte>)
    requires Sorted(s) && s != []
    ensures forall x | x in multiset(s) :: s[0] <= x
  {
    forall x | x in multiset(s) ensures s[0] <= x {
      assert x in s;
      var i :| 0 <= i < |s| && s[i] == x;
    }
  }

  /** Moving the head of `rest` to the end of `done` keeps their concatenation. */
  lemma MoveHead(done: seq<byte>, rest: seq<byte>)
    requires rest != []
    ensures (done + [rest[0]]) + rest[1..] == done + rest
  {
    assert rest == [rest[0]] + rest[1..];
  }

  /** Two sorted sequences with the same multiset of bytes are equal. */
  lemma {:induction false} SortedUnique(a: seq<byte>, b: seq<byte>)
    requires Sorted(a) && Sorted(b) && multiset(a) == multiset(b)
    ensures a == b
    decreases |a|
  {
    if a == [] {
      assert |multiset(b)| == 0;
    } else {
      assert |multiset(b)| == |a| > 0;
      SortedHeads(a, b);
      HeadSplit(a);
      HeadSplit(b);
      SortedUnique(a[1..], b[1..]);
    }
  }

  /** Two sorted sequences with the same bytes start with the same byte. */
  lemma SortedHeads(a: seq<byte>, b: seq<byte>)
    requires Sorted(a) && Sorted(b) && multiset(a) == multiset(b) && a != [] && b != []
    ensures a[0] == b[0]
  {
    assert a[0] in multiset(b) && b[0] in multiset(a);
    var i :| 0 <= i < |b| && b[i] == a[0];
    var j :| 0 <= j < |a| && a[j] == b[0];
    assert b[0] <= b[i] && a[0] <= a[j];
  }

  /** A non-empty sequence is its head followed by its tail. */
  lemma HeadSplit(s: seq<byte>)
    requires s != []
    ensures s == [s[0]] + s[1..]
    ensures multiset(s[1..]) == multiset(s) - multiset{s[0]}
  {
    assert s == [s[0]] + s[1..];
    assert multiset(s) == multiset{s[0]} + multiset(s[1..]);
  }


}

/**
 * The priority queue of main.c: the same AVL tree with rotations that have no
 * null guard, a dedicated `deleteMin`, and queue functions that take a possibly
 * null queue pointer.
 *
 * `insertNode` as main.c writes it can hand a rotation a null child and then
 * dereference it; `InsertNodeAsWritten` returns `None` exactly there. The queue
 * below inserts with the guarded rotations of the shared module instead.
 */
module MainQueue {
  import opened AvlTree
  import opened Results
  import KuPsort

  // ---------------------------------------------------------------------------
  // Rotations without null guards
  // ---------------------------------------------------------------------------

  /**
   * `rotateRight`: the left child becomes the root. The C code reads
   * `y->left->right` unchecked, so both `y` and its left child must be present.
   * Wherever it is defined it does what the guarded rotation does.
   */
  function RotateRight(y: Tree): (x: Tree)
    requires y.Node? && y.left.Node?
    ensures x == RightRotate(y)
    ensures x.Node? && Inorder(x) == Inorder(y)
    ensures ChildrenOk(y) ==> HeightsOk(x)
  {
    var x := y.left;
    var t2 := x.right;
    var y' := UpdateHeight(y.(left := t2));
    UpdateHeight(x.(right := y'))
  }

  /** `rotateLeft`: the right child becomes the root; `x` and its right child must be present. */
  function RotateLeft(x: Tree): (y: Tree)
    requires x.Node? && x.right.Node?
    ensures y == LeftRotate(x)
    ensures y.Node? && Inorder(y) == Inorder(x)
    ensures ChildrenOk(x) ==> HeightsOk(y)
  {
    var y := x.right;
    var t2 := y.left;
    var x' := UpdateHeight(x.(right := t2));
    UpdateHeight(y.(left := x'))
  }

  // ---------------------------------------------------------------------------
  // Insertion as written
  // ---------------------------------------------------------------------------

  /**
   * The part of main.c's `insertNode` after the recursive call. The outer
   * rotations always find their child (a balance above 1 needs a child of
   * height 2), but the inner rotation of the left-right and right-left cases
   * finds a null grandchild when the inserted byte equals the heavy child's
   * byte further down; that is a null dereference, written `None`.
   */
  function RebalanceAsWritten(n: Tree, v: byte): (r: Option<Tree>)
    requires n.Node?
    ensures r.Some? ==> r.value == RebalanceAfterInsert(n, v)
  {
    var n := UpdateHeight(n);
    var balance := Balance(n);
    if balance > 1 && v < n.left.data then Some(RotateRight(n))
    else if balance < -1 && v > n.right.data then Some(RotateLeft(n))
    else if balance > 1 && v > n.left.data then
      if n.left.right.Nil? then None else Some(RotateRight(n.(left := RotateLeft(n.left))))
    else if balance < -1 && v < n.right.data then
      if n.right.left.Nil? then None else Some(RotateLeft(n.(right := RotateRight(n.right))))
    else Some(n)
  }

  /**
   * `insertNode` of main.c: `None` when some rotation on the way back would
   * dereference a null child. When it does not crash it builds the same tree as
   * the insertion with guarded rotations.
   */
  function InsertNodeAsWritten(t: Tree, v: byte): (r: Option<Tree>)
    ensures t.Nil? ==> r == Some(Node(v, 1, Nil, Nil))
    ensures r.Some? ==> r.value == InsertNode(t, v)
    decreases t
  {
    match t
    case Nil => Some(CreateNode(v))
    case Node(d, h, l, rt) =>
      if v < d then
        match InsertNodeAsWritten(l, v)
        case None => None
        case Some(l') => RebalanceAsWritten(Node(d, h, l', rt), v)
      else
        match InsertNodeAsWritten(rt, v)
        case None => None
        case Some(r') => RebalanceAsWritten(Node(d, h, l, r'), v)
  }

  /**
   * Four fives are inserted without a rotation, into a chain of right children
   * (every comparison with an equal byte fails). Inserting 3 then goes left of
   * the root, which has balance -2 and a right child holding 5 > 3: the
   * right-left case rotates that child right, and its left child is null.
   */
  lemma FourFivesThenThreeCrashes()
    ensures var c1 := Node(5, 1, Nil, Nil);
      var c2 := Node(5, 2, Nil, c1);
      var c3 := Node(5, 3, Nil, c2);
      var c4 := Node(5, 4, Nil, c3);
      && InsertNodeAsWritten(Nil, 5) == Some(c1)
      && InsertNodeAsWritten(c1, 5) == Some(c2)
      && InsertNodeAsWritten(c2, 5) == Some(c3)
      && InsertNodeAsWritten(c3, 5) == Some(c4)
      && InsertNodeAsWritten(c4, 3) == None
  {
    FifthFiveStep1();
    FifthFiveStep2();
    FifthFiveStep3();
    ThreeAfterFives();
  }

  lemma FifthFiveStep1()
    ensures var c1 := Node(5, 1, Nil, Nil);
      InsertNodeAsWritten(c1, 5) == Some(Node(5, 2, Nil, c1))
  {
  }

  lemma FifthFiveStep2()
    ensures var c1 := Node(5, 1, Nil, Nil);
      var c2 := Node(5, 2, Nil, c1);
      InsertNodeAsWritten(c2, 5) == Some(Node(5, 3, Nil, c2))
  {
    FifthFiveStep1();
  }

  lemma FifthFiveStep3()
    ensures var c1 := Node(5, 1, Nil, Nil);
      var c2 := Node(5, 2, Nil, c1);
      var c3 := Node(5, 3, Nil, c2);
      InsertNodeAsWritten(c3, 5) == Some(Node(5, 4, Nil, c3))
  {
    FifthFiveStep2();
  }

  lemma ThreeAfterFives()
    ensures var c1 := Node(5, 1, Nil, Nil);
      var c2 := Node(5, 2, Nil, c1);
      var c4 := Node(5, 4, Nil, Node(5, 3, Nil, c2));
      InsertNodeAsWritten(c4, 3) == None
  {
  }

  // ---------------------------------------------------------------------------
  // deleteMin
  // ---------------------------------------------------------------------------

  /**
   * The tail of `deleteMin`: update the height, then the four rotation cases
   * chosen by the sign of the heavy child's balance. Each rotation finds the
   * child it needs, since a positive balance means a taller, hence present,
   * left side and a negative one a present right side. It is the rebalancing
   * of `deleteNode`.
   */
  function RebalanceAfterDeleteMin(n: Tree): (r: Tree)
    requires n.Node?
    ensures r == KuPsort.RebalanceAfterDelete(n)
    ensures r.Node? && Inorder(r) == Inorder(n)
    ensures ChildrenOk(n) ==> HeightsOk(r)
  {
    var n := UpdateHeight(n);
    var balance := Balance(n);
    if balance > 1 && Balance(n.left) >= 0 then RotateRight(n)
    else if balance > 1 && Balance(n.left) < 0 then RotateRight(n.(left := RotateLeft(n.left)))
    else if balance < -1 && Balance(n.right) <= 0 then RotateLeft(n)
    else if balance < -1 && Balance(n.right) > 0 then RotateLeft(n.(right := RotateRight(n.right)))
    else n
  }

  /**
   * `deleteMin`: null stays null; a node without a left child is replaced by its
   * right subtree; otherwise delete from the left and rebalance. The in-order
   * sequence loses exactly its first byte, and height fields stay consistent.
   */
  function DeleteMin(t: Tree): (r: Tree)
    ensures t.Nil? ==> r == Nil
    ensures t.Node? && t.left.Nil? ==> r == t.right
    ensures t.Node? ==> Inorder(r) == Inorder(t)[1..]
    ensures HeightsOk(t) ==> HeightsOk(r)
    decreases t
  {
    match t
    case Nil => Nil
    case Node(d, h, l, rt) =>
      if l.Nil? then rt
      else
        var l' := DeleteMin(l);
        TailOfNode(Inorder(l), d, Inorder(rt));
        RebalanceAfterDeleteMin(Node(d, h, l', rt))
  }

  /** Dropping the first byte of `a + [d] + b` with `a` non-empty drops the first byte of `a`. */
  lemma TailOfNode(a: seq<byte>, d: byte, b: seq<byte>)
    requires a != []
    ensures (a + [d] + b)[1..] == a[1..] + [d] + b
  {
  }

  /**
   * On an ordered tree, `deleteMin` removes one copy of the smallest byte and
   * keeps the order.
   */
  lemma DeleteMinSpec(t: Tree)
    requires t.Node? && Sorted(Inorder(t))
    ensures Sorted(Inorder(DeleteMin(t)))
    ensures Contents(DeleteMin(t)) == Contents(t) - multiset{Inorder(t)[0]}
    ensures forall x | x in Contents(t) :: Inorder(t)[0] <= x
  {
    var s := Inorder(t);
    HeadSplit(s);
    SortedHeadIsMin(s);
    SortedTail(s);
  }

  /** The tail of a sorted sequence is sorted. */
  lemma SortedTail(s: seq<byte>)
    requires Sorted(s) && s != []
    ensures Sorted(s[1..])
  {
    forall i, j | 0 <= i < j < |s| - 1
      ensures s[1..][i] <= s[1..][j]
    {
      assert s[1..][i] == s[i + 1] && s[1..][j] == s[j + 1];
    }
  }

  // ---------------------------------------------------------------------------
  // The queue
  // ---------------------------------------------------------------------------

  /** `PriorityQueue`: a struct holding the root pointer. */
  class PriorityQueue {
    var root: Tree

    /** Consistent height fields and the search-tree order. */
    ghost predicate Valid()
      reads this
    {
      HeightsOk(root) && Ordered(root)
    }
  }

  /** `initPriorityQueue`: set the root to null; nothing happens on a null queue. */
  method InitPriorityQueue(pq: PriorityQueue?)
    modifies pq
    ensures pq != null ==> pq.root == Nil && pq.Valid()
  {
    if pq == null {
      return;
    }
    pq.root := Nil;
  }

  /**
   * `enqueue`: insert one byte; nothing happens on a null queue. The insertion
   * uses the guarded rotations, so it never fails.
   */
  method Enqueue(pq: PriorityQueue?, data: byte)
    requires pq != null ==> pq.Valid()
    modifies pq
    ensures pq != null ==> pq.Valid() && Contents(pq.root) == old(Contents(pq.root)) + multiset{data}
  {
    if pq == null {
      return;
    }
    OrderedIff(pq.root);
    InsertNodeSorted(pq.root, data);
    pq.root := InsertNode(pq.root, data);
    OrderedIff(pq.root);
  }

  /**
   * `dequeue`: an error on a null or empty queue; otherwise the byte of the
   * leftmost node, which is the smallest, and the in-order sequence loses its
   * first byte.
   */
  method Dequeue(pq: PriorityQueue?) returns (r: Result<byte>)
    requires pq != null ==> pq.Valid()
    modifies pq
    ensures pq == null ==> r == Err(EmptyQueue)
    ensures pq != null ==> pq.Valid()
    ensures pq != null && old(pq.root).Nil? ==> r == Err(EmptyQueue) && pq.root == Nil
    ensures pq != null && old(pq.root).Node? ==>
      && r.Ok?
      && r.value == old(Inorder(pq.root))[0]
      && (forall x | x in old(Contents(pq.root)) :: r.value <= x)
      && Contents(pq.root) == old(Contents(pq.root)) - multiset{r.value}
      && Inorder(pq.root) == old(Inorder(pq.root))[1..]
  {
    if pq == null || pq.root.Nil? {
      return Err(EmptyQueue);
    }
    OrderedIff(pq.root);
    var minNode := FindMinNode(pq.root);
    var minValue := minNode.data;
    DeleteMinSpec(pq.root);
    pq.root := DeleteMin(pq.root);
    OrderedIff(pq.root);
    r := Ok(minValue);
  }

  /** `getRoot`: the root pointer, null for a null queue; nothing changes. */
  method GetRoot(pq: PriorityQueue?) returns (r: Tree)
    ensures pq == null ==> r == Nil
    ensures pq != null ==> r == pq.root
  {
    if pq == null {
      return Nil;
    }
    r := pq.root;
  }

  /**
   * The loops of `main`: enqueue the bytes read from the file, then dequeue as
   * many times. The bytes come back non-decreasing, each exactly as often as it
   * was read, and the queue ends empty. The file holds 30 bytes in the C code.
   */
  method EnqueueThenDequeue(bytes: seq<byte>) returns (out: seq<byte>)
    ensures |out| == |bytes|
    ensures Sorted(out) && multiset(out) == multiset(bytes)
  {
    var pq := new PriorityQueue;
    InitPriorityQueue(pq);
    for i := 0 to |bytes|
      invariant pq.Valid()
      invariant Contents(pq.root) == Fed(multiset{}, bytes, 0, i)
    {
      Enqueue(pq, bytes[i]);
    }
    FedAddsSlice(multiset{}, bytes, 0, |bytes|);
    assert bytes[0..|bytes|] == bytes;
    out := DequeueAll(pq, |bytes|);
  }

  /**
   * The dequeue loop of `main`, run `n` times on a queue holding `n` bytes: the
   * bytes come out in in-order order and the queue ends empty.
   */
  method DequeueAll(pq: PriorityQueue, n: nat) returns (out: seq<byte>)
    requires pq.Valid() && |Inorder(pq.root)| == n
    modifies pq
    ensures pq.Valid() && pq.root == Nil
    ensures out == old(Inorder(pq.root))
    ensures Sorted(out) && multiset(out) == old(Contents(pq.root))
  {
    OrderedIff(pq.root);
    ghost var initial := Inorder(pq.root);
    out := [];
    for i := 0 to n
      invariant pq.Valid()
      invariant |out| == i && out + Inorder(pq.root) == initial
    {
      ghost var before := Inorder(pq.root);
      var r := Dequeue(pq);
      MoveHead(out, before);
      out := out + [r.value];
    }
  }
}

# AVL priority queue of bytes, modelled in Dafny

This project models the byte-sorting core of the repository. That core is a
min-priority queue of `unsigned char` values kept in an AVL tree. It comes in
two near-duplicate variants:

- `ku_psort.c`: a general `deleteNode`, plus the program around the queue.
  The program decodes the payload offset of a BMP file header (the
  little-endian `bfOffBits` field at bytes 10..13), splits the payload into
  one byte range per worker, has each worker enqueue its bytes, then writes
  the header followed by the drained queue.
- `main.c`: the same tree with rotations that have no null guard, a
  dedicated `deleteMin`, and queue functions that accept a null queue
  pointer.

Files:

- `results.dfy` (module `Results`): the error cases and the `Result` and
  `Option` wrappers.
- `bits.dfy` (module `Bits`): facts about the bit-vector `|` and `<<` used
  by the offset decode.
- `avl_tree.dfy` (module `AvlTree`): the tree both variants share.
  - A C subtree pointer is the datatype `Tree`, where `Nil` is `NULL`.
  - Every C tree function returns the new subtree root, so each is a
    function from the old subtree to the new one.
  - The module holds the height helpers, the guarded rotations, `insertNode`
    and the `findMinNode` loop.
  - The ghost functions `Inorder`, `Contents` and `Sorted` give the
    specification.
- `ku_psort.dfy` (module `KuPsort`): `deleteNode` and the ku_psort queue.
  The queue is a class whose `root` field the methods reassign.
- `psort_main.dfy` (module `PsortMain`): the ku_psort program as a method
  on the input file's bytes:
  - decoding the offset;
  - filling the per-worker arguments;
  - running the workers one after another;
  - draining the queue behind the copied header.
- `main_queue.dfy` (module `MainQueue`): the main.c variant.
  - Its unguarded rotations and `insertNode` are modelled as written.
  - `deleteMin` and the queue functions on a possibly null queue pointer.
  - The enqueue-then-dequeue loops of its `main`.

The queue invariant is `HeightsOk(root) && Ordered(root)`:

- `HeightsOk`: every stored height is one more than the larger child height,
  with null counting as 0.
- `Ordered`: every left subtree is at most the node's byte and every right
  subtree at least it.

`OrderedIff` shows that `Ordered` is the same as a non-decreasing in-order
sequence. The ordering is non-strict because equal bytes are sent right on
insert but a rotation can move them to the left.

## Model

| member | source | states |
|---|---|---|
| AvlTree.Max | ku_psort.c:46-48 | the result is at least both arguments and equals one of them |
| AvlTree.Height | ku_psort.c:39-43 | a null subtree has height 0; otherwise the stored height field is returned; main.c's `getHeight` is the same function |
| AvlTree.HeightIsDepth | ku_psort.c:39-43 | when every height field is consistent, the stored height is the tree's real depth |
| AvlTree.Balance | ku_psort.c:106-110 | a null node has balance 0; otherwise the balance is left depth minus right depth when the heights are consistent; main.c's `getBalanceFactor` is the same function |
| AvlTree.CreateNode | ku_psort.c:51-61 | a new leaf holds exactly the byte, has height 1 and consistent heights; main.c's `createNode` builds the same leaf |
| AvlTree.UpdateHeight | main.c:164-170 | a no-op on null; otherwise it keeps byte and children and makes the height field consistent when the children are; it changes nothing already consistent |
| AvlTree.RightRotate | ku_psort.c:64-82 | returns the node unchanged when it or its left child is null; otherwise the in-order sequence is kept and the heights become consistent when the children's were |
| AvlTree.LeftRotate | ku_psort.c:85-103 | the mirror image: unchanged when the node or its right child is null; otherwise the in-order sequence is kept and the heights become consistent |
| AvlTree.RebalanceAfterInsert | ku_psort.c:123-152 | the four rotation cases keep the in-order sequence and leave every height field consistent when the children's heights were |
| AvlTree.InsertNode | ku_psort.c:113-153 | on an empty tree the result is a height-1 leaf; in general the result is non-empty, its multiset gains exactly one copy of the byte, and height fields stay consistent |
| AvlTree.InsertNodeSorted | ku_psort.c:113-153 | inserting into a tree with a non-decreasing in-order sequence keeps that sequence non-decreasing |
| AvlTree.DuplicateInsertUnbalances | ku_psort.c:130-148 | inserting 10, 5, 5 leaves a root with balance 2, because no rotation case matches a byte equal to the left child's |
| AvlTree.MinOf | ku_psort.c:156-161 | the byte of the leftmost node is the first element of the in-order sequence |
| AvlTree.FindMinNode | ku_psort.c:156-161 | the loop returns a node with no left child whose in-order sequence is a prefix of the tree's; its byte is the first in-order element and, in an ordered tree, at most every byte of the tree; main.c's `findMin` is the same walk |
| AvlTree.OrderedIff | ku_psort.c:118-121 | the recursive ordering invariant (left at most node, right at least node) holds exactly when the in-order sequence is non-decreasing |
| AvlTree.FedAddsSlice | ku_psort.c:359-370 | adding bytes `lo` to `hi` of a sequence one at a time yields the multiset of that slice |
| KuPsort.RebalanceAfterDelete | ku_psort.c:197-228 | the four delete rebalancing cases keep the in-order sequence, keep consistent heights, and return an already balanced node unchanged |
| KuPsort.DeleteNode | ku_psort.c:164-229 | keeps height fields consistent and never grows the in-order sequence |
| KuPsort.DeleteNodeSpec | ku_psort.c:164-229 | on an ordered tree the result is ordered and its multiset loses exactly one copy of the byte (none when it is absent) |
| KuPsort.DeleteNodeSplicesChild | ku_psort.c:175-187 | deleting the byte of a node with at most one child gives a tree with that child's in-order sequence |
| KuPsort.DeleteNodeAbsent | ku_psort.c:164-199 | deleting a byte that is absent from an ordered tree leaves the in-order sequence unchanged |
| KuPsort.DeleteAbsentReshapes | ku_psort.c:197-228 | deleting absent 20 from the tree built by 10, 5, 5 returns a different, rotated tree |
| KuPsort.DeleteMinIsTail | ku_psort.c:260-264 | deleting the minimum of an ordered tree drops exactly the first in-order element |
| KuPsort.PriorityQueue.constructor | ku_psort.c:232-240 | a new queue has a null root and satisfies the invariant |
| KuPsort.PriorityQueue.IsEmpty | ku_psort.c:243-245 | true exactly when the root is null, which is exactly when the queue holds no byte |
| KuPsort.PriorityQueue.Enqueue | ku_psort.c:248-250 | keeps the invariant and adds exactly one copy of the byte to the queue's multiset |
| KuPsort.PriorityQueue.Dequeue | ku_psort.c:253-267 | on an empty queue an `EmptyQueue` error and no change; otherwise returns the minimum, removes one copy of it, and the in-order sequence becomes its tail |
| KuPsort.PriorityQueue.Peek | ku_psort.c:270-277 | an error on an empty queue; otherwise the minimum, with the queue unchanged |
| PsortMain.StartOffset | ku_psort.c:322 | the decoded offset is b10 + 256·b11 + 65536·b12 + 16777216·b13 and lies below 2^32 |
| PsortMain.OffsetBits | ku_psort.c:322 | the bit-vector expression `b0 \| b1<<8 \| b2<<16 \| b3<<24` on 64-bit values equals that sum |
| PsortMain.PayloadStart | ku_psort.c:309-327 | a file shorter than 14 bytes and an offset past the end are errors; otherwise the offset from bytes 10..13 |
| PsortMain.WorkerArgument | ku_psort.c:394-406 | worker i's range lies within the payload, and every worker but the last gets quota size / n |
| PsortMain.PartitionContiguous | ku_psort.c:394-406 | worker 0 starts at the payload start, worker i starts at start + i·(size / n), and each worker's range ends where the next begins (the last ends at start + size) |
| PsortMain.PartitionDisjoint | ku_psort.c:394-406 | the ranges of two different workers do not overlap |
| PsortMain.PartitionCovers | ku_psort.c:394-406 | a position lies in [start, start + size) exactly when some worker owns it, and no two workers own it |
| PsortMain.Owner | ku_psort.c:394-406 | every payload position has a worker below n that owns it |
| PsortMain.PartitionArguments | ku_psort.c:394-406 | fills a fresh array of n worker arguments with exactly the partition above |
| PsortMain.PartitionTiles | ku_psort.c:394-406 | the argument list tiles [start, start + size) in worker order |
| PsortMain.Worker | ku_psort.c:345-375 | keeps the queue invariant and adds the worker's bytes, one at a time, to the queue |
| PsortMain.Feed | ku_psort.c:359-370 | the bytes a worker adds after the earlier workers' bytes make up the payload prefix up to the end of its range |
| PsortMain.RunWorkers | ku_psort.c:408-424 | running every worker on an empty queue leaves it holding exactly the payload's multiset |
| PsortMain.Drain | ku_psort.c:454-462 | dequeueing until the root is null yields the queue's in-order sequence: non-decreasing, a permutation of its contents, and the queue ends empty |
| PsortMain.Run | ku_psort.c:377-475 | a header error is reported as such; otherwise the output has the input's length, the header bytes unchanged, and the payload sorted and permuted |
| MainQueue.RotateRight | main.c:173-186 | defined only when the node and its left child are present; there it is the guarded rotation, keeps the in-order sequence and makes heights consistent |
| MainQueue.RotateLeft | main.c:189-202 | defined only when the node and its right child are present; the mirror image of `RotateRight` |
| MainQueue.RebalanceAsWritten | main.c:229-255 | wherever main.c's rebalancing does not dereference null, it agrees with the guarded rebalancing |
| MainQueue.InsertNodeAsWritten | main.c:219-256 | on null it is a height-1 leaf; wherever main.c's insert does not dereference null, it equals the guarded insert |
| MainQueue.FourFivesThenThreeCrashes | main.c:250-253 | inserting 5, 5, 5, 5 succeeds, and inserting 3 next reaches a right rotation of a node with no left child |
| MainQueue.RebalanceAfterDeleteMin | main.c:280-306 | main.c's delete rebalancing is the same as ku_psort's, keeps the in-order sequence and makes heights consistent |
| MainQueue.DeleteMin | main.c:267-307 | null gives null; a root with no left child gives its right subtree; otherwise the in-order sequence loses its first element; heights stay consistent |
| MainQueue.DeleteMinSpec | main.c:267-307 | on an ordered tree the result is ordered and the multiset loses one copy of the minimum, which is at most every byte |
| MainQueue.InitPriorityQueue | main.c:310-314 | sets a non-null queue's root to null; nothing happens on null |
| MainQueue.Enqueue | main.c:317-321 | nothing happens on a null queue; otherwise the invariant is kept and one copy of the byte is added |
| MainQueue.Dequeue | main.c:324-334 | a null or empty queue is an `EmptyQueue` error; otherwise returns the minimum, and the in-order sequence becomes its tail |
| MainQueue.GetRoot | main.c:337-343 | returns null for a null queue and the root otherwise, changing nothing |
| MainQueue.EnqueueThenDequeue | main.c:133-140 | enqueueing bytes and then dequeueing as many yields them non-decreasing and permuted, with the same count |
| MainQueue.DequeueAll | main.c:138-140 | dequeueing as many times as the queue holds bytes yields its in-order sequence and empties it |

## Left out

- Threads and the mutex: the workers run one after another in index order. The sorted output depends only on the multiset of bytes enqueued, so the order does not matter.
- File I/O is left out: opening, seeking, byte-by-byte reads and writes, the EINTR retry, and the `exit` on a failed call. The input file is a byte sequence, and the output is a returned byte sequence.
- PsortMain.Worker: requires its range to lie within the input. The source does not handle a zero-byte read at end of file; it would enqueue the previous byte again. A correct partition never reaches that case.
- PsortMain.PayloadStart: a file shorter than 14 bytes, and an offset past the end of the file, are reported as errors. The source would read uninitialised bytes or compute a negative size there.
- Memory management is left out: `malloc` failure, `free`, `freeAVLTree`, `destroyPriorityQueue`, `freeTree`. Nodes are values, so in-place rewriting of node fields and pointer aliasing are not modelled.
- `deleteNode` overwrites a node with its only child (`*root = *temp`). This is modelled as replacing the subtree by that child.
- Debug printing is left out: `inorderTraversal`, `printPriorityQueue`, `inOrder` and the `printf` calls of main.c's `main`.
- KuPsort.PriorityQueue.Dequeue: on an empty queue the source prints a message and exits the process. The model returns `Err(EmptyQueue)` and leaves the queue unchanged. The same holds for `Peek` and for `MainQueue.Dequeue`.
- MainQueue.GetRoot: the message printed for a null queue is left out.
- AvlTree.InsertNode: does not state the AVL bound |balance| <= 1. The bound does not hold after duplicate inserts (`DuplicateInsertUnbalances`). Ordering, multiset and height-field consistency are proved instead.
- KuPsort.DeleteNode: does not claim the tree is returned unchanged when the byte is absent. On the search path the rebalancing can rotate a node left unbalanced by duplicates (`DeleteAbsentReshapes`). Only the in-order sequence is unchanged (`DeleteNodeAbsent`).
- MainQueue.Enqueue: inserts with the guarded rotations (`AvlTree.InsertNode`), not as written. See Findings for where main.c's insert dereferences null.
- MainQueue.EnqueueThenDequeue: any number of bytes, instead of the fixed 30 read from a fixed file.
- The fixed worker count `n = 1` and the fixed file names of ku_psort.c's `main` are generalised: `Run` takes any `n >= 1` and any input.
- `off_t` width: offsets and sizes are unbounded integers. The decoded offset is below 2^32, and 64-bit arithmetic never overflows on it.

The structure is called an AVL tree (ku_psort.c:18) and applies the four AVL rotation cases (ku_psort.c:129-149). Insertion still does not keep |balance| <= 1 when a duplicate is inserted (`DuplicateInsertUnbalances`), and the model follows the code.

## Findings

| source | as written | input that shows it | evidently intended | confidence | as-written member | corrected member |
|---|---|---|---|---|---|---|
| main.c:173-186, main.c:250-253 | the right-left case calls `rotateRight(node->right)` without checking `node->right->left`; `rotateRight` then reads `x->right` through a null `x` | insert 5, 5, 5, 5 into an empty tree, then 3 | the inner rotation is skipped when the child it would lift is missing, as in ku_psort.c's guarded rotations; the insert then adds one copy and keeps the tree ordered with consistent heights | not executed | MainQueue.InsertNodeAsWritten (shown by MainQueue.FourFivesThenThreeCrashes) | AvlTree.InsertNode (with AvlTree.InsertNodeSorted) |

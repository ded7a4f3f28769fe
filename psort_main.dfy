/**
 * The driver of ku_psort.c, run sequentially on the bytes of one BMP file:
 * decode where the pixel data starts, split the pixel data into one range per
 * worker, let every worker enqueue its range into the shared queue, then write
 * the header unchanged followed by the queue drained in order.
 */
module PsortMain {
  import opened AvlTree
  import opened KuPsort
  import opened Results
  import opened Bits

  // ---------------------------------------------------------------------------
  // The start offset
  // ---------------------------------------------------------------------------

  /**
   * `getStartOffset`: the four bytes at 10..13 of the file (the little-endian
   * `bfOffBits` field of the BMP file header), each widened to the 64-bit
   * `off_t` and shifted into place with `|`.
   */
  function StartOffset(b10: byte, b11: byte, b12: byte, b13: byte): (offset: nat)
    ensures offset == b10 as int + 256 * b11 as int + 65536 * b12 as int + 16777216 * b13 as int
    ensures offset < 0x1_0000_0000
  {
    OffsetBits(b10, b11, b12, b13);
    (Widen(b10) | (Widen(b11) << 8) | (Widen(b12) << 16) | (Widen(b13) << 24)) as int
  }

  lemma OffsetBits(b10: byte, b11: byte, b12: byte, b13: byte)
    ensures var w := Widen(b10) | (Widen(b11) << 8) | (Widen(b12) << 16) | (Widen(b13) << 24);
      w as int == b10 as int + 256 * b11 as int + 65536 * b12 as int + 16777216 * b13 as int
  {
    LowBits24(b10, b11, b12);
    WidenKeepsValue(b13);
    OrInto24(Widen(b10) | (Widen(b11) << 8) | (Widen(b12) << 16), Widen(b13));
  }

  lemma LowBits24(b10: byte, b11: byte, b12: byte)
    ensures var w := Widen(b10) | (Widen(b11) << 8) | (Widen(b12) << 16);
      && w < 0x100_0000
      && w as int == b10 as int + 256 * b11 as int + 65536 * b12 as int
  {
    LowBits16(b10, b11);
    WidenKeepsValue(b12);
    OrInto16(Widen(b10) | (Widen(b11) << 8), Widen(b12));
  }

  lemma LowBits16(b10: byte, b11: byte)
    ensures var w := Widen(b10) | (Widen(b11) << 8);
      && w < 0x1_0000
      && w as int == b10 as int + 256 * b11 as int
  {
    WidenKeepsValue(b10);
    WidenKeepsValue(b11);
    OrInto8(Widen(b10), Widen(b11));
  }

  /** An `unsigned char` widened to the 64-bit `off_t`. */
  function Widen(b: byte): bv64
  {
    (b as bv8) as bv64
  }

  lemma WidenKeepsValue(b: byte)
    ensures Widen(b) < 256 && Widen(b) as int == b as int
  {
    ByteBits(b as int);
    ZeroExtend(b as bv8);
  }

  /**
   * Where the pixel data starts: an error when the file is too short to hold the
   * offset field, or when the offset lies past the end of the file (in the C
   * code both make the size and the ranges meaningless).
   */
  function PayloadStart(input: seq<byte>): (r: Result<nat>)
    ensures |input| < 14 <==> r == Err(HeaderTooShort)
    ensures r.Ok? ==>
      && 14 <= |input| && r.value <= |input|
      && r.value == input[10] as int + 256 * input[11] as int + 65536 * input[12] as int + 16777216 * input[13] as int
    ensures r == Err(OffsetPastEnd) <==>
      14 <= |input| && StartOffset(input[10], input[11], input[12], input[13]) > |input|
  {
    if |input| < 14 then Err(HeaderTooShort)
    else
      var start := StartOffset(input[10], input[11], input[12], input[13]);
      if start > |input| then Err(OffsetPastEnd) else Ok(start)
  }

  // ---------------------------------------------------------------------------
  // Splitting the pixel data among the workers
  // ---------------------------------------------------------------------------

  /** `thread_argument` without the file name and the queue pointer: where a worker starts and how many bytes it reads. */
  datatype ThreadArgument = ThreadArgument(offset: int, quota: int)

  /**
   * The argument of worker `i` of `n` over `size` bytes from `start`: every
   * worker but the last reads `size / n` bytes from `start + i * (size / n)`,
   * the last one reads what remains.
   */
  function WorkerArgument(start: nat, size: nat, n: nat, i: nat): (arg: ThreadArgument)
    requires 1 <= n && i < n
    ensures start <= arg.offset && 0 <= arg.quota && arg.offset + arg.quota <= start + size
    ensures i < n - 1 ==> arg.quota == size / n
  {
    var quota := size / n;
    MulDivBound(size, n, i);
    if i < n - 1 then ThreadArgument(start + i * quota, quota)
    else ThreadArgument(start + (n - 1) * quota, size - (n - 1) * quota)
  }

  /** `i * (size / n)` with `i < n` lies in `[0, size - size / n]`. */
  lemma MulDivBound(size: nat, n: nat, i: nat)
    requires 1 <= n && i < n
    ensures 0 <= i * (size / n) && i * (size / n) + size / n <= size
  {
    var q := size / n;
    assert n * q <= size;
    MulMonotone(i + 1, n, q);
  }

  lemma MulMonotone(a: nat, b: nat, q: nat)
    requires a <= b
    ensures a * q <= b * q
  {
  }

  /** The first byte not yet given out before worker `i` (all `start + size` once every worker has its range). */
  function Frontier(start: nat, size: nat, n: nat, i: nat): (f: int)
    requires 1 <= n && i <= n
    ensures start <= f <= start + size
  {
    if i < n then WorkerArgument(start, size, n, i).offset else start + size
  }

  /**
   * The ranges are contiguous: the first starts at `start`, each one ends where
   * the next begins, and the last ends at `start + size`.
   */
  lemma PartitionContiguous(start: nat, size: nat, n: nat, i: nat)
    requires 1 <= n && i < n
    ensures Frontier(start, size, n, 0) == start
    ensures var arg := WorkerArgument(start, size, n, i);
      arg.offset == start + i * (size / n) && arg.offset + arg.quota == Frontier(start, size, n, i + 1)
  {
    var q := size / n;
    if i + 1 < n {
      assert WorkerArgument(start, size, n, i + 1).offset == start + (i + 1) * q;
      assert (i + 1) * q == i * q + q;
    }
  }

  /** Ranges of different workers are disjoint: a lower worker's range ends before a higher one's begins. */
  lemma PartitionDisjoint(start: nat, size: nat, n: nat, i: nat, j: nat)
    requires 1 <= n && i < j < n
    ensures var a, b := WorkerArgument(start, size, n, i), WorkerArgument(start, size, n, j);
      a.offset + a.quota <= b.offset
  {
    var q := size / n;
    PartitionContiguous(start, size, n, i);
    assert WorkerArgument(start, size, n, i).offset + q == start + (i + 1) * q by {
      assert (i + 1) * q == i * q + q;
    }
    MulMonotone(i + 1, j, q);
  }

  /** Whether byte position `p` falls in worker `i`'s range. */
  ghost predicate Owns(start: nat, size: nat, n: nat, i: nat, p: int)
    requires 1 <= n && i < n
  {
    var arg := WorkerArgument(start, size, n, i);
    arg.offset <= p < arg.offset + arg.quota
  }

  /**
   * Every position of the pixel data falls in exactly one worker's range; no
   * worker reads outside it.
   */
  lemma PartitionCovers(start: nat, size: nat, n: nat, p: int)
    requires 1 <= n
    ensures start <= p < start + size <==> exists i | 0 <= i < n :: Owns(start, size, n, i, p)
    ensures forall i, j | 0 <= i < n && 0 <= j < n && Owns(start, size, n, i, p) && Owns(start, size, n, j, p) :: i == j
  {
    if start <= p < start + size {
      var i := Owner(start, size, n, p);
      assert Owns(start, size, n, i, p);
    }
    forall i, j | 0 <= i < n && 0 <= j < n && Owns(start, size, n, i, p) && Owns(start, size, n, j, p)
      ensures i == j
    {
      if i < j {
        PartitionDisjoint(start, size, n, i, j);
      } else if j < i {
        PartitionDisjoint(start, size, n, j, i);
      }
    }
  }

  /** The worker whose range holds position `p` of the pixel data. */
  function Owner(start: nat, size: nat, n: nat, p: int): (i: nat)
    requires 1 <= n && start <= p < start + size
    ensures i < n && Owns(start, size, n, i, p)
  {
    var q := size / n;
    var k := if q == 0 then n - 1 else (p - start) / q;
    if k < n - 1 then
      InnerOwns(start, size, n, p, k);
      k
    else
      LastOwns(start, size, n, p);
      n - 1
  }

  /** A position whose quotient by the quota is below `n - 1` lies in that worker's range. */
  lemma InnerOwns(start: nat, size: nat, n: nat, p: int, k: nat)
    requires 1 <= n && start <= p < start + size && size / n > 0
    requires k == (p - start) / (size / n) && k < n - 1
    ensures Owns(start, size, n, k, p)
  {
    var q := size / n;
    DivBracket(p - start, q);
    assert WorkerArgument(start, size, n, k) == ThreadArgument(start + k * q, q);
  }

  /** A position at or past `n - 1` quotas from the start lies in the last worker's range. */
  lemma LastOwns(start: nat, size: nat, n: nat, p: int)
    requires 1 <= n && start <= p < start + size
    requires size / n == 0 || (p - start) / (size / n) >= n - 1
    ensures Owns(start, size, n, n - 1, p)
  {
    var q := size / n;
    if q != 0 {
      var k := (p - start) / q;
      DivBracket(p - start, q);
      MulMonotone(n - 1, k, q);
    }
    assert (n - 1) * q <= p - start;
    assert WorkerArgument(start, size, n, n - 1) == ThreadArgument(start + (n - 1) * q, size - (n - 1) * q);
  }

  /** The quotient brackets the dividend: `(r / q) * q <= r < (r / q) * q + q`. */
  lemma DivBracket(r: nat, q: nat)
    requires q > 0
    ensures (r / q) * q <= r < (r / q) * q + q
  {
  }

  /**
   * The loops of `main` that fill `thread_args`: workers `0 .. n - 2` in a loop,
   * then the last one.
   */
  method PartitionArguments(start: nat, size: nat, n: nat) returns (args: array<ThreadArgument>)
    requires 1 <= n
    ensures fresh(args) && args.Length == n
    ensures forall i | 0 <= i < n :: args[i] == WorkerArgument(start, size, n, i)
  {
    args := new ThreadArgument[n](_ => ThreadArgument(0, 0));
    var quota := size / n;
    for i := 0 to n - 1
      invariant forall k | 0 <= k < i :: args[k] == WorkerArgument(start, size, n, k)
    {
      args[i] := ThreadArgument(start + i * quota, quota);
    }
    args[n - 1] := ThreadArgument(start + (n - 1) * quota, size - (n - 1) * quota);
  }

  // ---------------------------------------------------------------------------
  // Workers and draining
  // ---------------------------------------------------------------------------

  /** `thread_function`: enqueue the bytes of the worker's range, in file order. */
  method Worker(pq: PriorityQueue, input: seq<byte>, arg: ThreadArgument)
    requires pq.Valid()
    requires 0 <= arg.offset && 0 <= arg.quota && arg.offset + arg.quota <= |input|
    modifies pq
    ensures pq.Valid()
    ensures Contents(pq.root) == Fed(old(Contents(pq.root)), input, arg.offset, arg.offset + arg.quota)
  {
    ghost var before := Contents(pq.root);
    var i := 0;
    while i < arg.quota
      invariant 0 <= i <= arg.quota
      invariant pq.Valid()
      invariant Contents(pq.root) == Fed(before, input, arg.offset, arg.offset + i)
    {
      pq.Enqueue(input[arg.offset + i]);
      i := i + 1;
    }
  }

  /**
   * The output loop of `main`: dequeue until the root is null. The bytes come
   * out in in-order order, so they are non-decreasing and are exactly the bytes
   * the queue held.
   */
  method Drain(pq: PriorityQueue) returns (out: seq<byte>)
    requires pq.Valid()
    modifies pq
    ensures pq.Valid() && pq.root == Nil
    ensures out == old(Inorder(pq.root))
    ensures Sorted(out) && multiset(out) == old(Contents(pq.root))
  {
    OrderedIff(pq.root);
    ghost var initial := Inorder(pq.root);
    out := [];
    while pq.root != Nil
      invariant pq.Valid()
      invariant out + Inorder(pq.root) == initial
      decreases |Inorder(pq.root)|
    {
      ghost var before := Inorder(pq.root);
      var r := pq.Dequeue();
      MoveHead(out, before);
      out := out + [r.value];
    }
  }

  /**
   * The arguments tile `[start, end)`: the first range starts at `start`, each
   * one ends where the next begins, the last ends at `end`, and every range lies
   * within `[start, end)`.
   */
  ghost predicate Tiles(args: seq<ThreadArgument>, start: int, end: int)
  {
    && |args| >= 1
    && args[0].offset == start
    && (forall k | 0 <= k < |args| :: start <= args[k].offset && 0 <= args[k].quota && args[k].offset + args[k].quota <= end)
    && (forall j, k | 0 <= j < k < |args| && k == j + 1 :: args[j].offset + args[j].quota == args[k].offset)
    && args[|args| - 1].offset + args[|args| - 1].quota == end
  }

  /** The arguments `main` computes tile the pixel data. */
  lemma PartitionTiles(args: seq<ThreadArgument>, start: nat, size: nat, n: nat)
    requires 1 <= n && |args| == n
    requires forall k | 0 <= k < n :: args[k] == WorkerArgument(start, size, n, k)
    ensures Tiles(args, start, start + size)
  {
    PartitionContiguous(start, size, n, 0);
    forall k | 0 <= k < n - 1
      ensures args[k].offset + args[k].quota == args[k + 1].offset
    {
      PartitionContiguous(start, size, n, k);
    }
    PartitionContiguous(start, size, n, n - 1);
  }

  /**
   * The thread loops of `main`, run one worker after the other on the shared
   * queue. Afterwards the queue holds exactly the bytes from `start` to the end
   * of the file.
   */
  method RunWorkers(pq: PriorityQueue, input: seq<byte>, start: nat, args: seq<ThreadArgument>)
    requires Tiles(args, start, |input|)
    requires pq.Valid() && pq.root == Nil
    modifies pq
    ensures pq.Valid()
    ensures Contents(pq.root) == multiset(input[start..])
  {
    ghost var pos := start;
    assert Contents(pq.root) == multiset(input[start..pos]);
    for i := 0 to |args|
      invariant pq.Valid()
      invariant pos == if i < |args| then args[i].offset else |input|
      invariant start <= pos <= |input|
      invariant Contents(pq.root) == multiset(input[start..pos])
    {
      var arg := args[i];
      Resume(pq, input, start, arg);
      pos := arg.offset + arg.quota;
    }
    SliceToEnd(input, start, pos);
  }

  lemma SliceToEnd(input: seq<byte>, start: nat, pos: int)
    requires start <= pos == |input|
    ensures input[start..pos] == input[start..]
  {
  }

  /** One worker run on a queue that holds the bytes from `start` up to the worker's range. */
  method Resume(pq: PriorityQueue, input: seq<byte>, ghost start: nat, arg: ThreadArgument)
    requires pq.Valid()
    requires start <= arg.offset && 0 <= arg.quota && arg.offset + arg.quota <= |input|
    requires Contents(pq.root) == multiset(input[start..arg.offset])
    modifies pq
    ensures pq.Valid()
    ensures Contents(pq.root) == multiset(input[start..arg.offset + arg.quota])
  {
    ghost var done := Contents(pq.root);
    Worker(pq, input, arg);
    Feed(input, start, arg, done);
  }

  /** Feeding the range of `arg` to the bytes of `input[start..arg.offset]` gives those up to the end of that range. */
  lemma Feed(input: seq<byte>, start: nat, arg: ThreadArgument, before: multiset<byte>)
    requires start <= arg.offset && 0 <= arg.quota && arg.offset + arg.quota <= |input|
    requires before == multiset(input[start..arg.offset])
    ensures Fed(before, input, arg.offset, arg.offset + arg.quota) == multiset(input[start..arg.offset + arg.quota])
  {
    FedAddsSlice(before, input, arg.offset, arg.offset + arg.quota);
    assert input[start..arg.offset + arg.quota] == input[start..arg.offset] + input[arg.offset..arg.offset + arg.quota];
  }

  /**
   * The whole run on the bytes of the input file with `n` workers: the output
   * file is the header (everything before the start offset) unchanged, then the
   * pixel bytes sorted. `n` is 1 in the C code.
   */
  method Run(input: seq<byte>, n: nat) returns (r: Result<seq<byte>>)
    requires 1 <= n
    ensures PayloadStart(input).Err? ==> r == Err(PayloadStart(input).error)
    ensures PayloadStart(input).Ok? ==> r.Ok?
    ensures r.Ok? ==>
      && PayloadStart(input).Ok?
      && var start := PayloadStart(input).value;
      && |r.value| == |input|
      && r.value[..start] == input[..start]
      && Sorted(r.value[start..])
      && multiset(r.value[start..]) == multiset(input[start..])
  {
    var header := PayloadStart(input);
    if header.Err? {
      return Err(header.error);
    }
    var start := header.value;
    var size := |input| - start;
    var args := PartitionArguments(start, size, n);
    PartitionTiles(args[..], start, size, n);
    var pq := new PriorityQueue();
    RunWorkers(pq, input, start, args[..]);
    var sorted := Drain(pq);
    assert |sorted| == |input[start..]| by {
      assert |multiset(sorted)| == |multiset(input[start..])|;
    }
    r := Ok(input[..start] + sorted);
    assert r.value[start..] == sorted;
  }
}

/**
 Basic blocks and ring positions shared by the two bandbridge control queues.
 A queue is a ring of `depth` basic blocks of 32 bytes each; a message occupies
 consecutive blocks and may wrap around the end of the ring.
 */
module RingBlocks {
  import opened Arith

  const BB_SIZE := 32
  const ENOSPC := 28
  const ETIMEDOUT := 110

  type Byte = b: int | 0 <= b < 256
  type Block = b: seq<Byte> | |b| == 32 witness seq(32, _ => 0)

  /** DIV_ROUND_UP(n, CTRLQ_BB_SIZE). */
  function BlockCount(n: nat): nat {
    (n + BB_SIZE - 1) / BB_SIZE
  }

  /** The position k places after pos, for at most one lap. */
  function At(depth: nat, pos: nat, k: nat): (p: nat)
    requires pos < depth && k <= depth
    ensures p < depth
  {
    if pos + k < depth then pos + k else pos + k - depth
  }

  /** The number of blocks between a head and a tail; equal positions read as empty. */
  function Used(depth: nat, head: nat, tail: nat): (u: nat)
    requires head < depth && tail < depth
    ensures u < depth && At(depth, head, u) == tail
  {
    if head <= tail then tail - head else tail + depth - head
  }

  /** The n blocks that start at pos, in ring order. */
  function Window(depth: nat, mem: seq<Block>, pos: nat, n: nat): (w: seq<Block>)
    requires |mem| == depth && pos < depth
    ensures |w| == n
    decreases n
  {
    if n == 0 then [] else [mem[pos]] + Window(depth, mem, At(depth, pos, 1), n - 1)
  }

  function Flatten(blocks: seq<Block>): (bytes: seq<Byte>)
    ensures |bytes| == BB_SIZE * |blocks|
  {
    if blocks == [] then [] else blocks[0] + Flatten(blocks[1..])
  }

  /** `x % depth` for a sum of two positions: at most one subtraction. */
  lemma ModOneLap(x: nat, depth: nat)
    requires 0 < depth && x < 2 * depth
    ensures x % depth == if x < depth then x else x - depth
  {
  }

  /** A position any number of laps ahead. */
  function Wrap(x: nat, depth: nat): (p: nat)
    requires 0 < depth
    ensures p < depth
  {
    if x < depth then x else Wrap(x - depth, depth)
  }

  lemma {:induction false} WrapIsMod(x: nat, depth: nat)
    requires 0 < depth
    ensures Wrap(x, depth) == x % depth
  {
    if x >= depth {
      WrapIsMod(x - depth, depth);
      ModAddMultiple(x - depth, depth, 1);
    }
  }

  lemma {:induction false} WindowAt(depth: nat, mem: seq<Block>, pos: nat, n: nat, k: nat)
    requires |mem| == depth && pos < depth && k < n <= depth
    ensures Window(depth, mem, pos, n)[k] == mem[At(depth, pos, k)]
    decreases n
  {
    if k > 0 {
      WindowAt(depth, mem, At(depth, pos, 1), n - 1, k - 1);
      assert At(depth, At(depth, pos, 1), k - 1) == At(depth, pos, k);
    }
  }

  lemma {:induction false} WindowSplit(depth: nat, mem: seq<Block>, pos: nat, a: nat, b: nat)
    requires |mem| == depth && pos < depth && a + b <= depth
    ensures Window(depth, mem, pos, a + b)
         == Window(depth, mem, pos, a) + Window(depth, mem, At(depth, pos, a), b)
    decreases a
  {
    if a > 0 {
      var next := At(depth, pos, 1);
      WindowSplit(depth, mem, next, a - 1, b);
      assert At(depth, next, a - 1) == At(depth, pos, a);
      assert (a + b) - 1 == (a - 1) + b;
    }
  }

  /** Two memories that agree on n places from pos have the same window there. */
  lemma WindowEqual(depth: nat, mem: seq<Block>, mem': seq<Block>, pos: nat, n: nat)
    requires |mem| == depth == |mem'| && pos < depth && n <= depth
    requires forall k :: 0 <= k < n ==> mem[At(depth, pos, k)] == mem'[At(depth, pos, k)]
    ensures Window(depth, mem, pos, n) == Window(depth, mem', pos, n)
  {
    forall k | 0 <= k < n
      ensures Window(depth, mem, pos, n)[k] == Window(depth, mem', pos, n)[k]
    {
      WindowAt(depth, mem, pos, n, k);
      WindowAt(depth, mem', pos, n, k);
    }
  }

  lemma AppendAssoc<T>(a: seq<T>, b: seq<T>, c: seq<T>)
    ensures (a + b) + c == a + (b + c)
  {
  }

  lemma {:induction false} FlattenConcat(a: seq<Block>, b: seq<Block>)
    ensures Flatten(a + b) == Flatten(a) + Flatten(b)
  {
    if a == [] {
      assert a + b == b;
    } else {
      FlattenConcat(a[1..], b);
      assert (a + b)[0] == a[0] && (a + b)[1..] == a[1..] + b;
      AppendAssoc(a[0], Flatten(a[1..]), Flatten(b));
    }
  }

  /** Byte k stands in block k / 32. */
  lemma {:induction false} FlattenAt(blocks: seq<Block>, k: nat)
    requires k < 32 * |blocks|
    ensures Flatten(blocks)[k] == blocks[k / 32][k % 32]
  {
    if k >= 32 {
      FlattenAt(blocks[1..], k - 32);
    }
  }

  /** The blocks of a message are as many as needed and no more. */
  lemma BlockCountIsLeast(n: nat)
    ensures n <= 32 * BlockCount(n) < n + 32
  {
  }
}

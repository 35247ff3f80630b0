/**
 The receive side of the bandbridge control queue. The device appends whole
 messages at the tail, the driver scans from the head for the reply to its
 request and throws away everything in front of it.
 */
module RecvQueue {
  import opened Arith
  import opened RingBlocks
  import opened Sets

  /** Header fields of the first block: bb_num is byte 2, seq is little endian in bytes 5 and 6. */
  function BbNum(b: Block): nat { b[2] }
  function SeqNo(b: Block): nat { (b[5] as int) + 256 * (b[6] as int) }

  /** Both ends use the top sequence bit for themselves. */
  predicate Matches(b: Block, sseq: nat) {
    SeqNo(b) % 0x8000 == sseq % 0x8000
  }

  type Message = seq<Block>

  predicate Answers(m: Message, sseq: nat) {
    m != [] && Matches(m[0], sseq)
  }

  /** A header answers a request if it carries the same sequence bytes, the top bit aside. */
  lemma MatchesInBytes(b: Block, sseq: nat)
    ensures Matches(b, sseq) <==> b[5] == sseq % 256 && b[6] % 128 == sseq / 256 % 128
  {
    var low, high := sseq % 256, sseq / 256;
    assert sseq == 0x8000 * (high / 128) + (low + 256 * (high % 128));
    DivModUnique(sseq, 0x8000, high / 128, low + 256 * (high % 128));
    var l: nat, h: nat := b[5], b[6];
    assert SeqNo(b) == 0x8000 * (h / 128) + (l + 256 * (h % 128));
    DivModUnique(SeqNo(b), 0x8000, h / 128, l + 256 * (h % 128));
  }

  /** The bytes of n blocks from the head, in ring order. */
  lemma WindowBytes(depth: nat, mem: seq<Block>, head: nat, n: nat)
    requires |mem| == depth && head < depth && n <= depth
    ensures
      var data := Flatten(Window(depth, mem, head, n));
      && |data| == 32 * n
      && forall k :: 0 <= k < 32 * n ==> data[k] == mem[(head + k / 32) % depth][k % 32]
  {
    var w := Window(depth, mem, head, n);
    forall k | 0 <= k < 32 * n
      ensures Flatten(w)[k] == mem[(head + k / 32) % depth][k % 32]
    {
      FlattenAt(w, k);
      WindowAt(depth, mem, head, n, k / 32);
      ModOneLap(head + k / 32, depth);
    }
  }

  /** One pass in terms of header bytes and positions. */
  lemma ExamineInBytes(q: Rq, bufSize: nat, sseq: nat)
    requires q.Valid()
    ensures
      var b, r := q.mem[q.head], Examine(q, bufSize, sseq);
      var n, next := b[2], (q.head + b[2]) % q.depth;
      if n == 0 then r == (q.(head := q.tail), Return(-28, []))
      else if b[5] != sseq % 256 || b[6] % 128 != sseq / 256 % 128 then r == (q.(head := next), Skip)
      else if n > q.depth || 32 * n > bufSize then r == (q.(head := next), Return(-28, []))
      else
        && r.0 == q.(head := next) && r.1.Return? && r.1.ret == 0 && |r.1.data| == 32 * n
        && forall k :: 0 <= k < 32 * n ==> r.1.data[k] == q.mem[(q.head + k / 32) % q.depth][k % 32]
  {
    var b := q.mem[q.head];
    MatchesInBytes(b, sseq);
    WrapIsMod(q.head + b[2], q.depth);
    if b[2] <= q.depth {
      WindowBytes(q.depth, q.mem, q.head, b[2]);
    }
  }

  /** The sequence bytes, the length byte and the contents of a whole message. */
  lemma MessageInBytes(m: Message, sseq: nat)
    requires Whole(m)
    ensures Answers(m, sseq) <==> m[0][5] == sseq % 256 && m[0][6] % 128 == sseq / 256 % 128
    ensures |m| == m[0][2] && |Flatten(m)| == 32 * |m|
    ensures forall k :: 0 <= k < 32 * |m| ==> Flatten(m)[k] == m[k / 32][k % 32]
  {
    MatchesInBytes(m[0], sseq);
    forall k | 0 <= k < 32 * |m|
      ensures Flatten(m)[k] == m[k / 32][k % 32]
    {
      FlattenAt(m, k);
    }
  }

  lemma MessagesInBytes(msgs: seq<Message>, sseq: nat)
    requires forall j :: 0 <= j < |msgs| ==> Whole(msgs[j])
    ensures forall j :: 0 <= j < |msgs| ==>
      var m := msgs[j];
      && m != [] && |m| == m[0][2]
      && (Answers(m, sseq) <==> m[0][5] == sseq % 256 && m[0][6] % 128 == sseq / 256 % 128)
  {
    forall j | 0 <= j < |msgs|
      ensures
        var m := msgs[j];
        && m != [] && |m| == m[0][2]
        && (Answers(m, sseq) <==> m[0][5] == sseq % 256 && m[0][6] % 128 == sseq / 256 % 128)
    {
      MessageInBytes(msgs[j], sseq);
    }
  }

  ghost predicate Whole(m: Message) {
    0 < |m| && BbNum(m[0]) == |m|
  }

  /** Messages lo to hi (exclusive) are no answers to the request. */
  ghost predicate Foreign(msgs: seq<Message>, lo: nat, hi: nat, sseq: nat)
    requires hi <= |msgs|
  {
    forall j :: lo <= j < hi ==> !Answers(msgs[j], sseq)
  }

  /** Messages appended meanwhile do not change what was scanned. */
  lemma ForeignGrows(msgs: seq<Message>, msgs': seq<Message>, lo: nat, hi: nat, sseq: nat)
    requires hi <= |msgs| && msgs <= msgs' && Foreign(msgs, lo, hi, sseq)
    ensures Foreign(msgs', lo, hi, sseq)
  {
  }

  function Concat(msgs: seq<Message>): seq<Block> {
    if msgs == [] then [] else msgs[0] + Concat(msgs[1..])
  }

  lemma {:induction false} ConcatAppend(a: seq<Message>, m: Message)
    ensures Concat(a + [m]) == Concat(a) + m
  {
    if a == [] {
      assert Concat([m]) == m + Concat([]) == m;
    } else {
      ConcatAppend(a[1..], m);
      assert (a + [m])[0] == a[0] && (a + [m])[1..] == a[1..] + [m];
      AppendAssoc(a[0], Concat(a[1..]), m);
    }
  }

  datatype Rq = Rq(depth: nat, mem: seq<Block>, head: nat, tail: nat) {
    ghost predicate Valid() {
      |mem| == depth && head < depth && tail < depth
    }

    ghost function Unread(): seq<Block>
      requires Valid()
    {
      Window(depth, mem, head, Used(depth, head, tail))
    }

    /** bandbridge_ctrlq_update_rq_ci */
    ghost function Advanced(n: nat): Rq
      requires Valid()
    {
      this.(head := Wrap(head + n, depth))
    }
  }

  datatype Verdict = Skip | Return(ret: int, data: seq<Byte>)

  /** One pass of the receive loop over a non-empty queue, for any header the device may have written. */
  ghost function Examine(q: Rq, bufSize: nat, sseq: nat): (r: (Rq, Verdict))
    requires q.Valid()
    ensures r.0.Valid() && r.0.mem == q.mem && r.0.depth == q.depth && r.0.tail == q.tail
  {
    var n := BbNum(q.mem[q.head]);
    if n == 0 then
      (q.(head := q.tail), Return(-ENOSPC, []))
    else if !Matches(q.mem[q.head], sseq) then
      (q.Advanced(n), Skip)
    else if n > q.depth || n * BB_SIZE > bufSize then
      (q.Advanced(n), Return(-ENOSPC, []))
    else
      (q.Advanced(n), Return(0, Flatten(Window(q.depth, q.mem, q.head, n))))
  }

  lemma AdvanceWithinLap(q: Rq, n: nat)
    requires q.Valid() && n <= q.depth
    ensures q.Advanced(n) == q.(head := At(q.depth, q.head, n))
  {
    if q.head + n >= q.depth {
      assert Wrap(q.head + n - q.depth, q.depth) == q.head + n - q.depth;
    }
  }

  lemma UsedBehind(depth: nat, head: nat, tail: nat, n: nat)
    requires head < depth && tail < depth && n <= Used(depth, head, tail)
    ensures Used(depth, At(depth, head, n), tail) == Used(depth, head, tail) - n
  {
  }

  lemma FirstSplit(depth: nat, mem: seq<Block>, head: nat, u: nat, m: Message, rest: seq<Block>)
    requires |mem| == depth && head < depth && u < depth
    requires Window(depth, mem, head, u) == m + rest
    ensures |m| <= u && Window(depth, mem, head, |m|) == m
    ensures Window(depth, mem, At(depth, head, |m|), u - |m|) == rest
  {
    assert u == |m + rest|;
    WindowSplit(depth, mem, head, |m|, u - |m|);
    SplitEqual(Window(depth, mem, head, |m|), Window(depth, mem, At(depth, head, |m|), u - |m|), m, rest);
  }

  /** The first message stands at the head and the rest behind it. */
  lemma FirstMessage(q: Rq, m: Message, rest: seq<Block>)
    requires q.Valid() && m != [] && q.Unread() == m + rest
    ensures q.mem[q.head] == m[0] && |m| < q.depth
    ensures Window(q.depth, q.mem, q.head, |m|) == m
    ensures q.(head := At(q.depth, q.head, |m|)).Unread() == rest
  {
    FirstSplit(q.depth, q.mem, q.head, Used(q.depth, q.head, q.tail), m, rest);
    WindowAt(q.depth, q.mem, q.head, |m|, 0);
    UsedBehind(q.depth, q.head, q.tail, |m|);
  }

  lemma SplitEqual(a: seq<Block>, b: seq<Block>, c: seq<Block>, d: seq<Block>)
    requires a + b == c + d && |a| == |c|
    ensures a == c && b == d
  {
    assert a == (a + b)[..|a|] && c == (c + d)[..|c|];
    assert b == (a + b)[|a|..] && d == (c + d)[|c|..];
  }

  /** On a queue of whole messages one pass consumes exactly the first message;
      it is skipped, refused or returned intact. */
  lemma ExamineTakesFirst(q: Rq, m: Message, rest: seq<Block>, bufSize: nat, sseq: nat)
    requires q.Valid() && Whole(m) && q.Unread() == m + rest
    ensures Examine(q, bufSize, sseq).0.Unread() == rest
    ensures Examine(q, bufSize, sseq).1
         == if !Answers(m, sseq) then Skip
            else if BB_SIZE * |m| > bufSize then Return(-ENOSPC, [])
            else Return(0, Flatten(m))
  {
    FirstMessage(q, m, rest);
    AdvanceWithinLap(q, |m|);
  }

  /** A foreign message whose block count is a multiple of the ring depth is
      skipped onto itself, and no other is: exactly then the scan cannot move on. */
  lemma SkipStandsStill(q: Rq, bufSize: nat, sseq: nat)
    requires q.Valid() && !Matches(q.mem[q.head], sseq) && BbNum(q.mem[q.head]) > 0
    ensures Examine(q, bufSize, sseq) == (q, Skip) <==> BbNum(q.mem[q.head]) % q.depth == 0
  {
    WrapIsMod(q.head + BbNum(q.mem[q.head]), q.depth);
    WholeLaps(q.head, BbNum(q.mem[q.head]), q.depth);
  }

  // ---- Any headers, and a device that keeps quiet ----

  /** The scan goes no further: the queue is empty, or its first block is no
      message, or answers the request. */
  ghost predicate Stops(q: Rq, sseq: nat)
    requires q.Valid()
  {
    q.head == q.tail || BbNum(q.mem[q.head]) == 0 || Matches(q.mem[q.head], sseq)
  }

  /** The queue after k skips, whatever they skip. */
  ghost function Skipped(q: Rq, k: nat): (r: Rq)
    requires q.Valid()
    ensures r.Valid() && r == q.(head := r.head)
  {
    if k == 0 then q
    else
      var r := Skipped(q, k - 1);
      r.Advanced(BbNum(r.mem[r.head]))
  }

  ghost predicate StopsAfter(q: Rq, sseq: nat, k: nat)
    requires q.Valid()
  {
    Stops(Skipped(q, k), sseq)
  }

  ghost predicate GoesOn(q: Rq, sseq: nat, k: nat)
    requires q.Valid()
  {
    forall j: nat :: j < k ==> !StopsAfter(q, sseq, j)
  }

  /** The scan stops after this many skips and not before. */
  ghost predicate FirstStop(q: Rq, sseq: nat, k: nat)
    requires q.Valid()
  {
    StopsAfter(q, sseq, k) && GoesOn(q, sseq, k)
  }

  /** What a receive call comes to that stops at q. */
  ghost predicate EndsAs(q: Rq, bufSize: nat, sseq: nat, now: Rq, ret: int, data: seq<Byte>)
    requires q.Valid()
  {
    if q.head == q.tail then now == q && ret == -ETIMEDOUT
    else (now, Return(ret, data)) == Examine(q, bufSize, sseq)
  }

  lemma StopBound(q: Rq, sseq: nat, k: nat, last: nat)
    requires q.Valid() && GoesOn(q, sseq, k) && StopsAfter(q, sseq, last)
    ensures k <= last && (!StopsAfter(q, sseq, k) ==> k < last && GoesOn(q, sseq, k + 1))
  {
  }

  /** On a non-empty queue a pass of the loop skips exactly if the scan does not stop. */
  lemma SkipMeansGoingOn(q: Rq, bufSize: nat, sseq: nat)
    requires q.Valid() && q.head != q.tail
    ensures Examine(q, bufSize, sseq).1.Skip? <==> !Stops(q, sseq)
    ensures !Stops(q, sseq) ==> Examine(q, bufSize, sseq).0 == q.Advanced(BbNum(q.mem[q.head]))
  {
  }

  /** From equal heads the scan goes on equally. */
  lemma {:induction false} SameHeadSameScan(q: Rq, i: nat, j: nat, n: nat)
    requires q.Valid() && Skipped(q, i).head == Skipped(q, j).head
    ensures Skipped(q, i + n) == Skipped(q, j + n)
  {
    if n > 0 {
      SameHeadSameScan(q, i, j, n - 1);
    }
  }

  ghost function Heads(q: Rq, n: nat): (heads: seq<nat>)
    requires q.Valid()
    ensures |heads| == n && forall i :: 0 <= i < n ==> heads[i] == Skipped(q, i).head
  {
    if n == 0 then [] else Heads(q, n - 1) + [Skipped(q, n - 1).head]
  }

  /** Among more skips than the ring has blocks two end at the same head. */
  lemma HeadRepeats(q: Rq) returns (i: nat, j: nat)
    requires q.Valid()
    ensures i < j <= q.depth && Skipped(q, i).head == Skipped(q, j).head
  {
    var heads := Heads(q, q.depth + 1);
    forall k | 0 <= k < |heads|
      ensures heads[k] < q.depth
    {
      assert Skipped(q, k).Valid();
    }
    i, j := Pigeonhole(heads, q.depth);
  }

  /** So a stop after a lap's worth of skips is preceded by one within the lap. */
  lemma {:induction false} StopWithinALap(q: Rq, sseq: nat, k: nat) returns (first: nat)
    requires q.Valid() && StopsAfter(q, sseq, k)
    ensures first < q.depth && StopsAfter(q, sseq, first)
    decreases k
  {
    if k < q.depth {
      first := k;
    } else {
      var i, j := HeadRepeats(q);
      SameHeadSameScan(q, i, j, k - j);
      assert j + (k - j) == k;
      first := StopWithinALap(q, sseq, i + (k - j));
    }
  }

  /** With a quiet device the scan of any queue ends exactly if it meets the tail,
      a zero count or a match within fewer skips than the ring has blocks. */
  lemma ScanEndsWithinALap(q: Rq, sseq: nat)
    requires q.Valid()
    ensures (exists k: nat :: StopsAfter(q, sseq, k)) <==> exists k: nat :: k < q.depth && StopsAfter(q, sseq, k)
  {
    if k: nat :| StopsAfter(q, sseq, k) {
      var first := StopWithinALap(q, sseq, k);
    }
  }

  /** Not every scan ends although no block count is a multiple of the depth:
      eight foreign blocks that each claim to be two, and an odd tail. */
  lemma {:induction false} ScanCanCycle(q: Rq, sseq: nat, k: nat)
    requires q.Valid() && q.depth == 8 && q.head == 0 && q.tail == 1
    requires forall i :: 0 <= i < 8 ==> BbNum(q.mem[i]) == 2 && !Matches(q.mem[i], sseq)
    ensures Skipped(q, k).head % 2 == 0 && !StopsAfter(q, sseq, k)
  {
    if k > 0 {
      ScanCanCycle(q, sseq, k - 1);
      var h := Skipped(q, k - 1).head;
      assert Skipped(q, k).head == Wrap(h + 2, 8) == if h == 6 then 0 else h + 2;
    }
  }

  // ---- Any headers, and a device that writes what it likes for a while ----

  /** What the device leaves in the ring before a poll. */
  datatype Write = Write(mem: seq<Block>, tail: nat)

  ghost predicate WritesFit(q: Rq, device: seq<Write>) {
    forall k :: 0 <= k < |device| ==> |device[k].mem| == q.depth && device[k].tail < q.depth
  }

  /** The receive loop in front of a pass: the queue, and the empty polls so far. */
  datatype Loop = Loop(q: Rq, timeouts: nat)

  /** The queue that pass k finds: the device writes before each of its first passes. */
  ghost function Polled(l: Loop, device: seq<Write>, k: nat): Rq {
    if k < |device| then l.q.(mem := device[k].mem, tail := device[k].tail) else l.q
  }

  /** A pass that does not end the call. */
  ghost function Onward(q: Rq, timeouts: nat): (l: Loop)
    requires q.Valid()
    ensures l.q.Valid() && l.q.depth == q.depth
  {
    if q.head == q.tail then Loop(q, timeouts + 1)
    else Loop(q.Advanced(BbNum(q.mem[q.head])), timeouts)
  }

  ghost function LoopAt(q: Rq, device: seq<Write>, k: nat): (l: Loop)
    requires q.Valid() && WritesFit(q, device)
    ensures l.q.Valid() && l.q.depth == q.depth
  {
    if k == 0 then Loop(q, 0)
    else
      var l := LoopAt(q, device, k - 1);
      Onward(Polled(l, device, k - 1), l.timeouts)
  }

  /** The call ends in front of pass k or in it. */
  ghost predicate EndsAt(q: Rq, device: seq<Write>, limit: nat, sseq: nat, k: nat)
    requires q.Valid() && WritesFit(q, device)
  {
    var l := LoopAt(q, device, k);
    var p := Polled(l, device, k);
    l.timeouts == limit || (p.head != p.tail && Stops(p, sseq))
  }

  /** After the last write the queues are those of the quiet scan, until that stops. */
  lemma {:induction false} QuietPasses(q: Rq, device: seq<Write>, sseq: nat, i: nat)
    requires q.Valid() && WritesFit(q, device)
    requires GoesOn(LoopAt(q, device, |device|).q, sseq, i)
    ensures
      var l := LoopAt(q, device, |device|);
      LoopAt(q, device, |device| + i) == Loop(Skipped(l.q, i), l.timeouts)
  {
    if i > 0 {
      var start := LoopAt(q, device, |device|).q;
      assert GoesOn(start, sseq, i - 1) && !StopsAfter(start, sseq, i - 1);
      QuietPasses(q, device, sseq, i - 1);
    }
  }

  lemma {:induction false} EmptyPasses(q: Rq, device: seq<Write>, m: nat, t: nat)
    requires q.Valid() && WritesFit(q, device) && m >= |device|
    requires LoopAt(q, device, m).q.head == LoopAt(q, device, m).q.tail
    ensures LoopAt(q, device, m + t) == LoopAt(q, device, m).(timeouts := LoopAt(q, device, m).timeouts + t)
  {
    if t > 0 {
      EmptyPasses(q, device, m, t - 1);
    }
  }

  /** The least stop of a scan that stops. */
  lemma {:induction false} LeastStop(q: Rq, sseq: nat, k: nat) returns (first: nat)
    requires q.Valid() && StopsAfter(q, sseq, k)
    ensures first <= k && FirstStop(q, sseq, first)
    decreases k
  {
    if j: nat :| j < k && StopsAfter(q, sseq, j) {
      first := LeastStop(q, sseq, j);
    } else {
      first := k;
    }
  }

  /** In front of an empty queue the polls run out. */
  lemma EmptyEnds(q: Rq, device: seq<Write>, limit: nat, sseq: nat, m: nat)
    requires q.Valid() && WritesFit(q, device) && m >= |device|
    requires LoopAt(q, device, m).q.head == LoopAt(q, device, m).q.tail && LoopAt(q, device, m).timeouts <= limit
    ensures EndsAt(q, device, limit, sseq, m + (limit - LoopAt(q, device, m).timeouts))
  {
    EmptyPasses(q, device, m, limit - LoopAt(q, device, m).timeouts);
  }

  /** A stop of the scan after the last write ends the call, at the latest when the
      polls of the empty queue have run out. */
  lemma StopEndsCall(q: Rq, device: seq<Write>, limit: nat, sseq: nat, j: nat) returns (k: nat)
    requires q.Valid() && WritesFit(q, device) && LoopAt(q, device, |device|).timeouts <= limit
    requires StopsAfter(LoopAt(q, device, |device|).q, sseq, j)
    ensures EndsAt(q, device, limit, sseq, k)
  {
    var first := LeastStop(LoopAt(q, device, |device|).q, sseq, j);
    QuietPasses(q, device, sseq, first);
    k := |device| + first;
    var r := LoopAt(q, device, k);
    if r.q.head == r.q.tail {
      EmptyEnds(q, device, limit, sseq, k);
      k := k + (limit - r.timeouts);
    }
  }

  lemma {:induction false} TimeoutsGrowByOne(q: Rq, device: seq<Write>, limit: nat, sseq: nat, k: nat)
    requires q.Valid() && WritesFit(q, device)
    requires forall i: nat :: i < k ==> !EndsAt(q, device, limit, sseq, i)
    ensures LoopAt(q, device, k).timeouts <= limit
  {
    if k > 0 {
      TimeoutsGrowByOne(q, device, limit, sseq, k - 1);
      assert !EndsAt(q, device, limit, sseq, k - 1);
    }
  }

  /** Whatever the device writes before finitely many polls, the call returns if and
      only if it does so by the last write, or the skip orbit of the head it has
      then meets a stop within a lap. */
  lemma CallReturns(q: Rq, device: seq<Write>, limit: nat, sseq: nat)
    requires q.Valid() && WritesFit(q, device)
    ensures (exists k: nat :: EndsAt(q, device, limit, sseq, k)) <==>
      || (exists k: nat :: k <= |device| && EndsAt(q, device, limit, sseq, k))
      || (exists j: nat :: j < q.depth && StopsAfter(LoopAt(q, device, |device|).q, sseq, j))
  {
    var l := LoopAt(q, device, |device|);
    if forall k: nat :: k <= |device| ==> !EndsAt(q, device, limit, sseq, k) {
      TimeoutsGrowByOne(q, device, limit, sseq, |device|);
      if j: nat :| j < q.depth && StopsAfter(l.q, sseq, j) {
        var k := StopEndsCall(q, device, limit, sseq, j);
      } else {
        forall k: nat
          ensures !EndsAt(q, device, limit, sseq, k)
        {
          if k > |device| {
            NoStopNoEnd(q, device, limit, sseq, k - |device|);
          }
        }
      }
    }
  }

  lemma NoStopNoEnd(q: Rq, device: seq<Write>, limit: nat, sseq: nat, i: nat)
    requires q.Valid() && WritesFit(q, device) && !EndsAt(q, device, limit, sseq, |device|)
    requires forall j: nat :: j < q.depth ==> !StopsAfter(LoopAt(q, device, |device|).q, sseq, j)
    ensures !EndsAt(q, device, limit, sseq, |device| + i)
  {
    var l := LoopAt(q, device, |device|);
    ScanEndsWithinALap(l.q, sseq);
    assert GoesOn(l.q, sseq, i);
    QuietPasses(q, device, sseq, i);
    assert !StopsAfter(l.q, sseq, i);
  }

  /** Writing the block just past a window extends the window. */
  lemma WindowPush(depth: nat, mem: seq<Block>, pos: nat, n: nat, b: Block)
    requires |mem| == depth && pos < depth && n < depth
    ensures Window(depth, mem[At(depth, pos, n) := b], pos, n + 1) == Window(depth, mem, pos, n) + [b]
  {
    var at := At(depth, pos, n);
    var mem' := mem[at := b];
    WindowSplit(depth, mem', pos, n, 1);
    assert Window(depth, mem', at, 1) == [b] + Window(depth, mem', At(depth, at, 1), 0) == [b];
    assert forall k :: 0 <= k < n ==> At(depth, pos, k) != at;
    WindowEqual(depth, mem, mem', pos, n);
  }

  /** The driver's ring fields, the device registers, and the device itself:
      it has a finite `schedule` of messages to deliver and appends as many of
      them as it likes, if they fit, whenever the driver polls. */
  class RecvRing {
    const depth: nat
    const base: array<Block>
    var ci: nat
    var pi: nat
    var rxHead: nat   // CTRLQ_RX_HEAD_REG
    var rxTail: nat   // CTRLQ_RX_TAIL_REG
    var schedule: seq<Message>
    ghost var appended: seq<Message>   // every message the device has put in the ring
    ghost var taken: nat               // how many of them the driver has consumed

    ghost predicate Valid()
      reads this, base
    {
      && 0 < depth < 0x1_0000
      && base.Length == depth
      && rxHead < depth && rxTail < depth
      && ci == rxHead
      && taken <= |appended|
      && (forall i :: 0 <= i < |appended| ==> Whole(appended[i]))
      && (forall i :: 0 <= i < |schedule| ==> Whole(schedule[i]))
      && State().Unread() == Concat(appended[taken..])
    }

    ghost function State(): Rq
      reads this, base
    {
      Rq(depth, base[..], rxHead, rxTail)
    }

    /** The device writes the blocks of a message behind the unread ones. */
    method DeviceWrite(m: Message) returns (pos: nat)
      requires base.Length == depth && rxHead < depth && rxTail < depth
      requires Used(depth, rxHead, rxTail) + |m| < depth
      modifies base
      ensures pos < depth && Used(depth, rxHead, pos) == Used(depth, rxHead, rxTail) + |m|
      ensures Window(depth, base[..], rxHead, Used(depth, rxHead, pos)) == old(State().Unread()) + m
    {
      ghost var u, unread := Used(depth, rxHead, rxTail), State().Unread();
      pos := rxTail;
      for n := 0 to |m|
        invariant pos == At(depth, rxHead, u + n)
        invariant Window(depth, base[..], rxHead, u + n) == unread + m[..n]
      {
        WindowPush(depth, base[..], rxHead, u + n, m[n]);
        ghost var before := base[..];
        base[pos] := m[n];
        assert base[..] == before[pos := m[n]];
        assert unread + m[..n] + [m[n]] == unread + m[..n + 1];
        pos := if pos + 1 == depth then 0 else pos + 1;
      }
      assert m[..|m|] == m;
    }

    method DeviceAppend()
      requires Valid() && schedule != []
      requires Used(depth, rxHead, rxTail) + |schedule[0]| < depth
      modifies this`rxTail, this`schedule, this`appended, base
      ensures Valid()
      ensures appended == old(appended) + [old(schedule)[0]]
      ensures schedule == old(schedule)[1..]
    {
      var m := schedule[0];
      rxTail := DeviceWrite(m);
      ConcatAppend(appended[taken..], m);
      assert (appended + [m])[taken..] == appended[taken..] + [m];
      appended, schedule := appended + [m], schedule[1..];
    }

    /** bandbridge_ctrlq_rq_is_empty, with the device free to append first. */
    method RqIsEmpty() returns (empty: bool)
      requires Valid()
      modifies this`pi, this`rxTail, this`schedule, this`appended, base
      ensures Valid() && old(appended) <= appended
      ensures empty <==> taken == |appended|
      ensures |appended| + |schedule| == |old(appended)| + |old(schedule)|
    {
      var more: bool := *;
      while more && schedule != [] && Used(depth, rxHead, rxTail) + |schedule[0]| < depth
        invariant Valid() && old(appended) <= appended
        invariant |appended| + |schedule| == |old(appended)| + |old(schedule)|
        decreases |schedule|
      {
        DeviceAppend();
        more := *;
      }
      empty := Poll();
      if taken < |appended| {
        assert Whole(appended[taken]) && appended[taken..][0] == appended[taken];
        assert |Concat(appended[taken..])| > 0;
      }
    }

    method Poll() returns (empty: bool)
      requires rxTail < depth < 0x1_0000
      modifies this`pi
      ensures empty <==> rxTail == ci
    {
      pi := rxTail % 0x1_0000;
      empty := pi == ci;
    }

    method UpdateRqCi(n: nat)
      requires 0 < depth && rxHead < depth && ci == rxHead
      modifies this`ci, this`rxHead
      ensures rxHead < depth && ci == rxHead && rxHead == Wrap(old(rxHead) + n, depth)
    {
      WrapIsMod(ci + n, depth);
      ci := (ci + n) % depth;
      rxHead := ci;
    }

    method ReadDataFromRq(n: nat) returns (data: seq<Byte>)
      requires base.Length == depth && ci < depth && n <= depth
      ensures data == Flatten(Window(depth, base[..], ci, n))
    {
      data := [];
      var pos := ci;
      for i := 0 to n
        invariant pos < depth && pos == At(depth, ci, i)
        invariant data == Flatten(Window(depth, base[..], ci, i))
      {
        WindowSplit(depth, base[..], ci, i, 1);
        var w := base[pos];
        assert Window(depth, base[..], pos, 1) == [w] + Window(depth, base[..], At(depth, pos, 1), 0) == [w];
        FlattenConcat(Window(depth, base[..], ci, i), [w]);
        assert Flatten([w]) == w + Flatten([]) == w;
        data := data + w;
        ModOneLap(pos + 1, depth);
        pos := (pos + 1) % depth;
      }
    }

    /** The part of the receive loop that looks at the first block of a non-empty
        queue; it copes with any header. */
    method TakeHead(bufSize: nat, sseq: nat) returns (v: Verdict)
      requires 0 < depth < 0x1_0000 && base.Length == depth
      requires rxHead < depth && rxTail < depth && ci == rxHead
      modifies this`ci, this`pi, this`rxHead
      ensures (State(), v) == Examine(old(State()), bufSize, sseq)
      ensures ci == rxHead
      ensures
        var b, n, next := base[old(rxHead)], base[old(rxHead)][2], (old(rxHead) + base[old(rxHead)][2]) % depth;
        if n == 0 then rxHead == rxTail && v == Return(-28, [])
        else if b[5] != sseq % 256 || b[6] % 128 != sseq / 256 % 128 then rxHead == next && v == Skip
        else if n > depth || 32 * n > bufSize then rxHead == next && v == Return(-28, [])
        else
          && rxHead == next && v.Return? && v.ret == 0 && |v.data| == 32 * n
          && forall k :: 0 <= k < 32 * n ==> v.data[k] == base[(old(rxHead) + k / 32) % depth][k % 32]
    {
      ExamineInBytes(State(), bufSize, sseq);
      ci := rxHead % 0x1_0000;
      var head := base[ci];
      var n := BbNum(head);
      if n == 0 {
        pi := rxTail % 0x1_0000;
        ci := pi;
        rxHead := ci;
        return Return(-ENOSPC, []);
      }
      if !Matches(head, sseq) {
        UpdateRqCi(n);
        return Skip;
      }
      if n * BB_SIZE > depth * BB_SIZE {
        UpdateRqCi(n);
        return Return(-ENOSPC, []);
      }
      if n * BB_SIZE > bufSize {
        UpdateRqCi(n);
        return Return(-ENOSPC, []);
      }
      var data := ReadDataFromRq(n);
      UpdateRqCi(n);
      return Return(0, data);
    }

    /** A non-empty poll: the first message leaves the queue. */
    method TakeFirst(bufSize: nat, sseq: nat) returns (v: Verdict)
      requires Valid() && taken < |appended|
      modifies this`ci, this`pi, this`rxHead, this`taken
      ensures Valid() && taken == old(taken) + 1
      ensures
        var m := appended[old(taken)];
        v == if !Answers(m, sseq) then Skip
             else if BB_SIZE * |m| > bufSize then Return(-ENOSPC, [])
             else Return(0, Flatten(m))
    {
      ghost var m, rest := appended[taken], appended[taken + 1..];
      assert Whole(m);
      assert appended[taken..][0] == m && appended[taken..][1..] == rest;
      ExamineTakesFirst(State(), m, Concat(rest), bufSize, sseq);
      v := TakeHead(bufSize, sseq);
      taken := taken + 1;
    }

    /** The receive loop. */
    method ScanForReply(bufSize: nat, sseq: nat, timeoutLimit: nat)
      returns (ret: int, data: seq<Byte>)
      requires Valid()
      modifies this, base
      ensures Valid() && old(appended) <= appended && old(taken) <= taken
      ensures ret == 0 || ret == -ENOSPC || ret == -ETIMEDOUT
      ensures ret == -ETIMEDOUT ==>
        && (timeoutLimit > 0 ==> taken == |appended|)
        && Foreign(appended, old(taken), taken, sseq)
      ensures ret != -ETIMEDOUT ==>
        && old(taken) < taken
        && Foreign(appended, old(taken), taken - 1, sseq)
        && Answers(appended[taken - 1], sseq)
        && (ret == 0 <==> BB_SIZE * |appended[taken - 1]| <= bufSize)
        && (ret == 0 ==> data == Flatten(appended[taken - 1]))
    {
      var timeout := 0;
      while timeout < timeoutLimit
        invariant Valid() && old(appended) <= appended && old(taken) <= taken
        invariant Foreign(appended, old(taken), taken, sseq)
        invariant timeout > 0 && timeout == timeoutLimit ==> taken == |appended|
        invariant 0 <= timeout <= timeoutLimit
        decreases |appended| - taken + |schedule|, timeoutLimit - timeout
      {
        ghost var before := appended;
        var empty := RqIsEmpty();
        ForeignGrows(before, appended, old(taken), taken, sseq);
        if empty {
          timeout := timeout + 1;
          continue;
        }
        var v := TakeFirst(bufSize, sseq);
        if v.Return? {
          return v.ret, v.data;
        }
      }
      ret, data := -ETIMEDOUT, [];
    }

    /** The messages consumed by a call are a run of foreign messages, then, unless
        the call timed out on an empty queue, the first match: returned intact if
        it fits the buffer, dropped with -ENOSPC otherwise. At every exit the
        head stands on a message boundary (Valid). */
    method ReceiveFromRq(bufSize: nat, sseq: nat, timeoutLimit: nat)
      returns (ret: int, data: seq<Byte>)
      requires Valid()
      modifies this, base
      ensures Valid() && old(appended) <= appended && old(taken) <= taken
      ensures ret == 0 || ret == -ENOSPC || ret == -ETIMEDOUT
      ensures ret == -ETIMEDOUT ==>
        && (timeoutLimit > 0 ==> taken == |appended|)
        && Foreign(appended, old(taken), taken, sseq)
      ensures ret != -ETIMEDOUT ==>
        && old(taken) < taken
        && Foreign(appended, old(taken), taken - 1, sseq)
        && Answers(appended[taken - 1], sseq)
        && (ret == 0 <==> BB_SIZE * |appended[taken - 1]| <= bufSize)
        && (ret == 0 ==> data == Flatten(appended[taken - 1]))
      ensures forall j :: old(taken) <= j < taken ==>
        var m := appended[j];
        && m != [] && |m| == m[0][2]
        && (m[0][5] == sseq % 256 && m[0][6] % 128 == sseq / 256 % 128 <==> ret != -110 && j == taken - 1)
      ensures ret == -110 && timeoutLimit > 0 ==> taken == |appended|
      ensures ret != -110 ==>
        var m := appended[taken - 1];
        && ret == (if 32 * |m| <= bufSize then 0 else -28)
        && (ret == 0 ==>
              |data| == 32 * |m| && forall k :: 0 <= k < 32 * |m| ==> data[k] == m[k / 32][k % 32])
    {
      ret, data := ScanForReply(bufSize, sseq, timeoutLimit);
      MessagesInBytes(appended, sseq);
      if ret != -ETIMEDOUT {
        MessageInBytes(appended[taken - 1], sseq);
      }
    }

    /** The receive half of an exchange: the sequence number is the one in the header
        of the request that was sent. If a message whose sequence bytes are those
        of the request is or comes into the queue, the first such is the one
        returned, or refused for its length. */
    method ReceiveReply(request: Block, bufSize: nat, timeoutLimit: nat) returns (ret: int, data: seq<Byte>)
      requires Valid() && timeoutLimit > 0
      modifies this, base
      ensures Valid() && old(appended) <= appended && old(taken) <= taken <= |appended|
      ensures forall j :: old(taken) <= j < (if ret == -110 then |appended| else taken - 1) ==>
        var m := appended[j];
        m != [] && !(m[0][5] == request[5] && m[0][6] % 128 == request[6] % 128)
      ensures ret != -110 ==> old(taken) < taken
      ensures ret != -110 ==>
        var m := appended[taken - 1];
        && m != [] && m[0][5] == request[5] && m[0][6] % 128 == request[6] % 128
        && |m| == m[0][2] && ret == (if 32 * |m| <= bufSize then 0 else -28)
        && (ret == 0 ==>
              |data| == 32 * |m| && forall k :: 0 <= k < 32 * |m| ==> data[k] == m[k / 32][k % 32])
    {
      var low: nat, high: nat := request[5], request[6];
      DivModUnique(SeqNo(request), 256, high, low);
      ret, data := ReceiveFromRq(bufSize, SeqNo(request), timeoutLimit);
    }

    /** One pass of the loop on a non-empty queue, after `skips` others. */
    method QuietPass(bufSize: nat, sseq: nat, ghost start: Rq, ghost skips: nat) returns (v: Verdict)
      requires 0 < depth < 0x1_0000 && base.Length == depth
      requires rxHead < depth && rxTail < depth && ci == rxHead && rxHead != rxTail
      requires start.Valid() && State() == Skipped(start, skips)
      modifies this`ci, this`pi, this`rxHead
      ensures rxHead < depth && ci == rxHead
      ensures v.Return? <==> StopsAfter(start, sseq, skips)
      ensures v.Return? ==> (State(), v) == Examine(Skipped(start, skips), bufSize, sseq)
      ensures v.Skip? ==> State() == Skipped(start, skips + 1)
    {
      SkipMeansGoingOn(State(), bufSize, sseq);
      v := TakeHead(bufSize, sseq);
      assert State().Valid();
    }

    /** The receive loop with a quiet device, when a stop is known to come. */
    method ScanToStop(bufSize: nat, sseq: nat, timeoutLimit: nat, ghost last: nat)
      returns (ret: int, data: seq<Byte>, ghost skips: nat)
      requires 0 < depth < 0x1_0000 && base.Length == depth
      requires rxHead < depth && rxTail < depth && ci == rxHead
      requires timeoutLimit > 0 && StopsAfter(State(), sseq, last)
      modifies this`ci, this`pi, this`rxHead
      ensures skips <= last && FirstStop(old(State()), sseq, skips)
      ensures EndsAs(Skipped(old(State()), skips), bufSize, sseq, State(), ret, data)
    {
      skips := 0;
      ret, data := -ETIMEDOUT, [];
      ghost var start := State();
      var timeout := 0;
      while timeout < timeoutLimit
        invariant 0 <= timeout <= timeoutLimit && ci == rxHead < depth
        invariant State() == Skipped(start, skips) && GoesOn(start, sseq, skips) && skips <= last
        invariant timeout > 0 ==> rxHead == rxTail
        decreases last - skips, timeoutLimit - timeout
      {
        StopBound(start, sseq, skips, last);
        var empty := Poll();
        if empty {
          timeout := timeout + 1;
          continue;
        }
        var v := QuietPass(bufSize, sseq, start, skips);
        if v.Return? {
          return v.ret, v.data, skips;
        }
        skips := skips + 1;
      }
    }

    /** On a queue that may hold anything: if the scan ends at all, the first stop
        decides, and it comes within a lap. */
    method ReceiveWhileQuiet(bufSize: nat, sseq: nat, timeoutLimit: nat)
      returns (ret: int, data: seq<Byte>, ghost skips: nat)
      requires 0 < depth < 0x1_0000 && base.Length == depth
      requires rxHead < depth && rxTail < depth && ci == rxHead
      requires exists k: nat :: StopsAfter(State(), sseq, k)
      modifies this`ci, this`pi, this`rxHead
      ensures timeoutLimit == 0 ==> State() == old(State()) && ret == -ETIMEDOUT
      ensures timeoutLimit > 0 ==>
        && skips < depth && FirstStop(old(State()), sseq, skips)
        && EndsAs(Skipped(old(State()), skips), bufSize, sseq, State(), ret, data)
    {
      if timeoutLimit == 0 {
        return -ETIMEDOUT, [], 0;
      }
      ScanEndsWithinALap(State(), sseq);
      ghost var last: nat :| last < depth && StopsAfter(State(), sseq, last);
      ret, data, skips := ScanToStop(bufSize, sseq, timeoutLimit, last);
    }

    /** The device fills the ring as it likes and publishes a tail. */
    method DeviceWrites(w: Write)
      requires base.Length == depth == |w.mem|
      modifies base, this`rxTail
      ensures base[..] == w.mem && rxTail == w.tail
    {
      for i := 0 to depth
        invariant base[..i] == w.mem[..i]
      {
        base[i] := w.mem[i];
      }
      assert base[..] == base[..depth] && w.mem[..depth] == w.mem;
      rxTail := w.tail;
    }

    /** One poll and pass of the loop: the call goes on, or the head decides. */
    method PassUnderWrites(bufSize: nat, sseq: nat, device: seq<Write>, k: nat, timeout: nat,
                           ghost limit: nat, ghost start: Rq)
      returns (v: Verdict, timeout': nat)
      requires 0 < depth < 0x1_0000 && base.Length == depth
      requires rxHead < depth && rxTail < depth && ci == rxHead
      requires start.Valid() && start.depth == depth && WritesFit(start, device)
      requires LoopAt(start, device, k) == Loop(State(), timeout) && timeout < limit
      modifies this`ci, this`pi, this`rxHead, this`rxTail, base
      ensures rxHead < depth && rxTail < depth && ci == rxHead
      ensures v.Return? <==> EndsAt(start, device, limit, sseq, k)
      ensures v.Return? ==>
        (State(), v) == Examine(Polled(LoopAt(start, device, k), device, k), bufSize, sseq)
      ensures v.Skip? ==> LoopAt(start, device, k + 1) == Loop(State(), timeout')
    {
      ghost var l := LoopAt(start, device, k);
      if k < |device| {
        DeviceWrites(device[k]);
      }
      assert State() == Polled(l, device, k);
      var empty := Poll();
      if empty {
        return Skip, timeout + 1;
      }
      SkipMeansGoingOn(State(), bufSize, sseq);
      timeout' := timeout;
      v := TakeHead(bufSize, sseq);
    }

    /** The receive loop over any headers, with a device that writes whatever it
        likes before its first polls: the first ending decides. */
    method ReceiveUnderWrites(bufSize: nat, sseq: nat, timeoutLimit: nat, device: seq<Write>)
      returns (ret: int, data: seq<Byte>, ghost passes: nat)
      requires 0 < depth < 0x1_0000 && base.Length == depth
      requires rxHead < depth && rxTail < depth && ci == rxHead
      requires WritesFit(State(), device)
      requires exists k: nat :: EndsAt(State(), device, timeoutLimit, sseq, k)
      modifies this`ci, this`pi, this`rxHead, this`rxTail, base
      ensures EndsAt(old(State()), device, timeoutLimit, sseq, passes)
      ensures forall i: nat :: i < passes ==> !EndsAt(old(State()), device, timeoutLimit, sseq, i)
      ensures
        var l := LoopAt(old(State()), device, passes);
        if l.timeouts == timeoutLimit then State() == l.q && ret == -ETIMEDOUT
        else (State(), Return(ret, data)) == Examine(Polled(l, device, passes), bufSize, sseq)
    {
      ghost var start := State();
      ghost var last: nat :| EndsAt(start, device, timeoutLimit, sseq, last);
      passes := 0;
      var k, timeout := 0, 0;
      while timeout < timeoutLimit
        invariant 0 <= timeout <= timeoutLimit && k == passes <= last
        invariant rxHead < depth && rxTail < depth && ci == rxHead
        invariant LoopAt(start, device, passes) == Loop(State(), timeout)
        invariant forall i: nat :: i < passes ==> !EndsAt(start, device, timeoutLimit, sseq, i)
        decreases last - passes
      {
        var v;
        v, timeout := PassUnderWrites(bufSize, sseq, device, k, timeout, timeoutLimit, start);
        if v.Return? {
          return v.ret, v.data, passes;
        }
        TimeoutsGrowByOne(start, device, timeoutLimit, sseq, passes + 1);
        k, passes := k + 1, passes + 1;
      }
      ret, data := -ETIMEDOUT, [];
    }
  }
}

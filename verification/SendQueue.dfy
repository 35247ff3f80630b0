/**
 The send side of the bandbridge control queue. The driver writes a message
 block by block at the tail (`pi`), the device consumes blocks from the head
 (`ci`), and both positions are published through registers.
 */
module SendQueue {
  import opened RingBlocks

  /** What both sides can observe: the ring memory and the two registers. */
  datatype Sq = Sq(depth: nat, mem: seq<Block>, head: nat, tail: nat) {
    ghost predicate Valid() {
      |mem| == depth && head < depth && tail < depth
    }

    /** The blocks the device has yet to read. */
    ghost function Unconsumed(): seq<Block>
      requires Valid()
    {
      Window(depth, mem, head, Used(depth, head, tail))
    }

    ghost function Remaining(): nat
      requires Valid()
    {
      depth - Used(depth, head, tail)
    }
  }

  function Min(a: nat, b: nat): nat { if a < b then a else b }

  /** memcpy_toio of a whole or partial block: the rest of the block keeps its old bytes. */
  function Overlay(prior: Block, data: seq<Byte>): (b: Block)
    requires |data| <= BB_SIZE
    ensures b[..|data|] == data && b[|data|..] == prior[|data|..]
  {
    data + prior[|data|..]
  }

  /** The memory and tail after writing `data` block by block from `pos`. */
  ghost function Put(depth: nat, mem: seq<Block>, pos: nat, data: seq<Byte>): (r: (seq<Block>, nat))
    requires |mem| == depth && pos < depth
    ensures |r.0| == depth && r.1 < depth
    decreases |data|
  {
    if data == [] then (mem, pos)
    else
      var size := Min(|data|, BB_SIZE);
      Put(depth, mem[pos := Overlay(mem[pos], data[..size])], At(depth, pos, 1), data[size..])
  }

  lemma PutStep(depth: nat, mem: seq<Block>, pos: nat, buf: seq<Byte>, offset: nat, size: nat)
    requires |mem| == depth && pos < depth && offset < |buf| && size == Min(|buf| - offset, BB_SIZE)
    ensures Put(depth, mem, pos, buf[offset..])
         == Put(depth, mem[pos := Overlay(mem[pos], buf[offset..offset + size])],
                At(depth, pos, 1), buf[offset + size..])
  {
    assert buf[offset..][..size] == buf[offset..offset + size];
    assert buf[offset..][size..] == buf[offset + size..];
  }

  ghost function Sent(s: Sq, buf: seq<Byte>): (s': Sq)
    requires s.Valid()
    ensures s'.Valid() && s'.depth == s.depth && s'.head == s.head
  {
    var (mem, tail) := Put(s.depth, s.mem, s.tail, buf);
    s.(mem := mem, tail := tail)
  }

  lemma BlockCountStep(n: nat)
    requires n > 0
    ensures BlockCount(n) == 1 + BlockCount(n - Min(n, BB_SIZE))
  {
  }

  /** A write of n blocks ends n places on and leaves the other depth - n places alone. */
  lemma {:induction false} PutFrame(depth: nat, mem: seq<Block>, pos: nat, data: seq<Byte>)
    requires |mem| == depth && pos < depth && BlockCount(|data|) <= depth
    ensures Put(depth, mem, pos, data).1 == At(depth, pos, BlockCount(|data|))
    ensures forall k :: BlockCount(|data|) <= k < depth ==>
      Put(depth, mem, pos, data).0[At(depth, pos, k)] == mem[At(depth, pos, k)]
    decreases |data|
  {
    if data != [] {
      var size, n := Min(|data|, BB_SIZE), BlockCount(|data|);
      BlockCountStep(|data|);
      var mem1, next := mem[pos := Overlay(mem[pos], data[..size])], At(depth, pos, 1);
      PutFrame(depth, mem1, next, data[size..]);
      forall k | n <= k < depth
        ensures Put(depth, mem, pos, data).0[At(depth, pos, k)] == mem[At(depth, pos, k)]
      {
        assert At(depth, next, k - 1) == At(depth, pos, k) != pos;
      }
    }
  }

  /** The written places hold the data in order. */
  lemma {:induction false} PutWrites(depth: nat, mem: seq<Block>, pos: nat, data: seq<Byte>)
    requires |mem| == depth && pos < depth && BlockCount(|data|) <= depth
    ensures |data| <= BB_SIZE * BlockCount(|data|)
    ensures Flatten(Window(depth, Put(depth, mem, pos, data).0, pos, BlockCount(|data|)))[..|data|] == data
    decreases |data|
  {
    if data != [] {
      var size, n := Min(|data|, BB_SIZE), BlockCount(|data|);
      BlockCountStep(|data|);
      var mem1, next := mem[pos := Overlay(mem[pos], data[..size])], At(depth, pos, 1);
      var mem' := Put(depth, mem1, next, data[size..]).0;
      PutWrites(depth, mem1, next, data[size..]);
      PutFrame(depth, mem1, next, data[size..]);
      assert At(depth, next, depth - 1) == pos;
      FlattenHead(depth, mem', pos, n, data, size);
    }
  }

  lemma FlattenHead(depth: nat, mem: seq<Block>, pos: nat, n: nat, data: seq<Byte>, size: nat)
    requires |mem| == depth && pos < depth && 0 < n && size == Min(|data|, BB_SIZE)
    requires |data| <= BB_SIZE * n && mem[pos][..size] == data[..size]
    requires
      var rest := Window(depth, mem, At(depth, pos, 1), n - 1);
      |data| - size <= |Flatten(rest)| && Flatten(rest)[..|data| - size] == data[size..]
    ensures Flatten(Window(depth, mem, pos, n))[..|data|] == data
  {
  }

  /** Byte k of the places from pos on, after a write: the data as far as they go, and
      what was there before behind them, also in a block written in part. */
  lemma {:induction false} PutByte(depth: nat, mem: seq<Block>, pos: nat, data: seq<Byte>, k: nat)
    requires |mem| == depth && pos < depth && BlockCount(|data|) <= depth && k < 32 * depth
    ensures Put(depth, mem, pos, data).0[At(depth, pos, k / 32)][k % 32]
         == if k < |data| then data[k] else mem[At(depth, pos, k / 32)][k % 32]
    decreases |data|
  {
    if data != [] {
      var size := Min(|data|, BB_SIZE);
      BlockCountStep(|data|);
      var mem1, next := mem[pos := Overlay(mem[pos], data[..size])], At(depth, pos, 1);
      if k < 32 {
        PutFrame(depth, mem1, next, data[size..]);
        assert At(depth, next, depth - 1) == pos;
      } else {
        PutByte(depth, mem1, next, data[size..], k - 32);
        assert At(depth, next, (k - 32) / 32) == At(depth, pos, k / 32) != pos;
      }
    }
  }

  /** A send in bytes: the message stands from the tail on, around the ring, all other
      bytes are as they were, and the tail has moved on by the blocks it takes. */
  lemma SentBytes(s: Sq, buf: seq<Byte>)
    requires s.Valid() && (|buf| + 31) / 32 <= s.depth
    ensures Sent(s, buf).tail == (s.tail + (|buf| + 31) / 32) % s.depth
    ensures forall k :: 0 <= k < 32 * s.depth ==>
      Sent(s, buf).mem[(s.tail + k / 32) % s.depth][k % 32]
        == if k < |buf| then buf[k] else s.mem[(s.tail + k / 32) % s.depth][k % 32]
  {
    PutFrame(s.depth, s.mem, s.tail, buf);
    ModOneLap(s.tail + (|buf| + 31) / 32, s.depth);
    forall k | 0 <= k < 32 * s.depth
      ensures Sent(s, buf).mem[(s.tail + k / 32) % s.depth][k % 32]
           == if k < |buf| then buf[k] else s.mem[(s.tail + k / 32) % s.depth][k % 32]
    {
      PutByte(s.depth, s.mem, s.tail, buf, k);
      ModOneLap(s.tail + k / 32, s.depth);
    }
  }

  /** The free blocks are those not between head and tail. */
  lemma AcceptsInNumbers(s: Sq, size: nat)
    requires s.Valid()
    ensures s.Remaining() == s.depth - (s.tail + s.depth - s.head) % s.depth
    ensures Accepts(s, size) <==> (size + 31) / 32 <= s.depth - (s.tail + s.depth - s.head) % s.depth
  {
    ModOneLap(s.tail + s.depth - s.head, s.depth);
  }

  /** The blocks that a send of `buf` writes, as the device will read them. */
  ghost function Written(s: Sq, buf: seq<Byte>): seq<Block>
    requires s.Valid()
  {
    Window(s.depth, Sent(s, buf).mem, s.tail, BlockCount(|buf|))
  }

  /** Guard of bandbridge_ctrlq_check_sq_enough. */
  ghost predicate Accepts(s: Sq, size: nat)
    requires s.Valid()
  {
    BlockCount(size) <= s.Remaining()
  }

  /** Blocks not yet read are never written by an accepted send. */
  lemma UnreadKept(s: Sq, buf: seq<Byte>)
    requires s.Valid() && Accepts(s, |buf|)
    ensures Window(s.depth, Sent(s, buf).mem, s.head, Used(s.depth, s.head, s.tail)) == s.Unconsumed()
  {
    var u, s' := Used(s.depth, s.head, s.tail), Sent(s, buf);
    PutFrame(s.depth, s.mem, s.tail, buf);
    forall k | 0 <= k < u
      ensures s'.mem[At(s.depth, s.head, k)] == s.mem[At(s.depth, s.head, k)]
    {
      assert At(s.depth, s.head, k) == At(s.depth, s.tail, s.depth - u + k);
    }
    WindowEqual(s.depth, s'.mem, s.mem, s.head, u);
  }

  /** An accepted message is appended to what the device will read, with its
      bytes intact and nothing unread disturbed, exactly when the send leaves
      one block of the ring free. */
  lemma SendAppends(s: Sq, buf: seq<Byte>)
    requires s.Valid() && buf != [] && Accepts(s, |buf|)
    ensures Sent(s, buf).Unconsumed() == s.Unconsumed() + Written(s, buf)
       <==> BlockCount(|buf|) < s.Remaining()
    ensures |buf| <= BB_SIZE * BlockCount(|buf|) && Flatten(Written(s, buf))[..|buf|] == buf
  {
    var n, u, s' := BlockCount(|buf|), Used(s.depth, s.head, s.tail), Sent(s, buf);
    PutWrites(s.depth, s.mem, s.tail, buf);
    assert s'.tail == At(s.depth, s.tail, n) by { PutFrame(s.depth, s.mem, s.tail, buf); }
    if n < s.Remaining() {
      UnreadKept(s, buf);
      WindowSplit(s.depth, s'.mem, s.head, u, n);
    }
  }

  /** The boundary case: the guard accepts a message that fills the ring exactly,
      and the full ring then reads as an empty one, so a following message of
      any acceptable size is again accepted while nothing has been consumed. */
  lemma ExactFillReadsEmpty(s: Sq, buf: seq<Byte>, next: seq<Byte>)
    requires s.Valid() && BlockCount(|buf|) == s.Remaining()
    requires BlockCount(|next|) <= s.depth
    ensures Accepts(s, |buf|) && Sent(s, buf).Unconsumed() == []
    ensures Accepts(Sent(s, buf), |next|)
  {
    PutFrame(s.depth, s.mem, s.tail, buf);
  }

  datatype Event =
    | Send(buf: seq<Byte>)   // one locked check-and-send by the driver
    | Advance(k: nat)        // the device consumes k blocks

  ghost predicate Enabled(s: Sq, e: Event)
    requires s.Valid()
  {
    match e
    case Send(buf) => buf != []
    case Advance(k) => k <= Used(s.depth, s.head, s.tail)
  }

  ghost function Step(s: Sq, e: Event): (s': Sq)
    requires s.Valid() && Enabled(s, e)
    ensures s'.Valid() && s'.depth == s.depth
  {
    match e
    case Send(buf) => if Accepts(s, |buf|) then Sent(s, buf) else s
    case Advance(k) => s.(head := At(s.depth, s.head, k))
  }

  /** A run in which every accepted send leaves one block free. */
  ghost predicate Guarded(s: Sq, events: seq<Event>)
    requires s.Valid()
    decreases |events|
  {
    events != [] ==>
      && Enabled(s, events[0])
      && (events[0].Send? && Accepts(s, |events[0].buf|) ==> BlockCount(|events[0].buf|) < s.Remaining())
      && Guarded(Step(s, events[0]), events[1..])
  }

  ghost function Final(s: Sq, events: seq<Event>): (s': Sq)
    requires s.Valid() && Guarded(s, events)
    ensures s'.Valid()
    decreases |events|
  {
    if events == [] then s else Final(Step(s, events[0]), events[1..])
  }

  /** The blocks the device read during a run. */
  ghost function Delivered(s: Sq, events: seq<Event>): seq<Block>
    requires s.Valid() && Guarded(s, events)
    decreases |events|
  {
    if events == [] then []
    else
      (if events[0].Advance? then Window(s.depth, s.mem, s.head, events[0].k) else [])
      + Delivered(Step(s, events[0]), events[1..])
  }

  /** The messages accepted during a run. */
  ghost function Accepted(s: Sq, events: seq<Event>): seq<seq<Byte>>
    requires s.Valid() && Guarded(s, events)
    decreases |events|
  {
    if events == [] then []
    else
      (if events[0].Send? && Accepts(s, |events[0].buf|) then [events[0].buf] else [])
      + Accepted(Step(s, events[0]), events[1..])
  }

  /** The blocks hold exactly these messages, one after the other. */
  ghost predicate HoldMessages(blocks: seq<Block>, msgs: seq<seq<Byte>>) {
    if msgs == [] then blocks == []
    else
      var n := BlockCount(|msgs[0]|);
      && n <= |blocks|
      && |msgs[0]| <= BB_SIZE * n
      && Flatten(blocks[..n])[..|msgs[0]|] == msgs[0]
      && HoldMessages(blocks[n..], msgs[1..])
  }

  lemma AdvanceConsumes(s: Sq, k: nat)
    requires s.Valid() && k <= Used(s.depth, s.head, s.tail)
    ensures s.Unconsumed() == Window(s.depth, s.mem, s.head, k) + Step(s, Advance(k)).Unconsumed()
  {
    var u := Used(s.depth, s.head, s.tail);
    WindowSplit(s.depth, s.mem, s.head, k, u - k);
    assert Used(s.depth, At(s.depth, s.head, k), s.tail) == u - k;
  }

  lemma HoldOneMore(blocks: seq<Block>, buf: seq<Byte>, rest: seq<Block>, msgs: seq<seq<Byte>>)
    requires |blocks| == BlockCount(|buf|) && |buf| <= BB_SIZE * |blocks| && Flatten(blocks)[..|buf|] == buf
    requires HoldMessages(rest, msgs)
    ensures HoldMessages(blocks + rest, [buf] + msgs)
  {
    assert (blocks + rest)[..|blocks|] == blocks && (blocks + rest)[|blocks|..] == rest;
    assert ([buf] + msgs)[1..] == msgs;
  }

  lemma {:induction false} AfterSend(s: Sq, buf: seq<Byte>, rest: seq<Block>, msgs: seq<seq<Byte>>)
    requires s.Valid() && buf != [] && BlockCount(|buf|) < s.Remaining()
    requires HoldMessages(rest, msgs)
    ensures HoldMessages(Written(s, buf) + rest, [buf] + msgs)
    ensures Sent(s, buf).Unconsumed() + rest == s.Unconsumed() + (Written(s, buf) + rest)
  {
    SendAppends(s, buf);
    HoldOneMore(Written(s, buf), buf, rest, msgs);
    AppendAssoc(s.Unconsumed(), Written(s, buf), rest);
  }

  /** In every guarded run, what the device has read followed by what it has yet
      to read is what was in the ring at the start followed by every accepted
      message, in order and with its bytes intact. */
  lemma {:induction false} RunDelivers(s: Sq, events: seq<Event>) returns (added: seq<Block>)
    requires s.Valid() && Guarded(s, events)
    ensures Delivered(s, events) + Final(s, events).Unconsumed() == s.Unconsumed() + added
    ensures HoldMessages(added, Accepted(s, events))
    decreases |events|
  {
    if events == [] {
      added := [];
    } else {
      var e, s1, rest := events[0], Step(s, events[0]), events[1..];
      added := RunDelivers(s1, rest);
      if e.Advance? {
        AdvanceConsumes(s, e.k);
        Regroup(Window(s.depth, s.mem, s.head, e.k), Delivered(s1, rest),
                Final(s1, rest).Unconsumed(), s1.Unconsumed(), added);
        assert Accepted(s, events) == [] + Accepted(s1, rest) == Accepted(s1, rest);
      } else if Accepts(s, |e.buf|) {
        AfterSend(s, e.buf, added, Accepted(s1, rest));
        added := Written(s, e.buf) + added;
        assert Delivered(s, events) == [] + Delivered(s1, rest) == Delivered(s1, rest);
      } else {
        assert Accepted(s, events) == [] + Accepted(s1, rest) == Accepted(s1, rest);
        assert Delivered(s, events) == [] + Delivered(s1, rest) == Delivered(s1, rest);
      }
    }
  }

  /** Reassociation of the blocks of an advance. */
  lemma Regroup(w: seq<Block>, d: seq<Block>, f: seq<Block>, u: seq<Block>, a: seq<Block>)
    requires d + f == u + a
    ensures (w + d) + f == (w + u) + a
  {
    assert (w + d) + f == w + (d + f);
    assert (w + u) + a == w + (u + a);
  }

  /** The driver's view: cached ring fields beside the device registers. */
  class SendRing {
    const depth: nat
    const base: array<Block>
    var ci: nat
    var pi: nat
    var txHead: nat   // CTRLQ_TX_HEAD_REG
    var txTail: nat   // CTRLQ_TX_TAIL_REG

    ghost predicate Valid()
      reads this, base
    {
      && 0 < depth < 0x1_0000
      && base.Length == depth
      && txHead < depth && txTail < depth
      && pi == txTail
    }

    ghost function State(): (s: Sq)
      requires Valid()
      reads this, base
      ensures s.Valid()
    {
      Sq(depth, base[..], txHead, txTail)
    }

    /** bandbridge_ctrlq_map_queue: the depth register counts units of 8 blocks.
        The positions are taken as the registers have them. */
    constructor (depthReg: nat, head: nat, tail: nat)
      requires depthReg <= 0x7FF
      ensures depth == depthReg * 8 && base.Length == depth && fresh(base)
      ensures txHead == ci == head && txTail == pi == tail
      ensures Valid() <==> head < depth && tail < depth
    {
      depth := depthReg * 8;
      base := new Block[depthReg * 8];
      txHead, txTail := head, tail;
      ci, pi := head, tail;
    }

    method RemainSpace() returns (free: nat)
      requires Valid()
      modifies this`ci
      ensures Valid() && State() == old(State())
      ensures ci == txHead && free == State().Remaining()
    {
      ci := txHead % 0x1_0000;
      ModOneLap(pi + depth - ci, depth);
      var used := (pi + depth - ci) % depth;
      free := depth - used;
    }

    method CheckSqEnough(size: nat) returns (ret: int)
      requires Valid()
      modifies this`ci
      ensures Valid() && State() == old(State())
      ensures ret == if Accepts(State(), size) then 0 else -ENOSPC
      ensures ret == if (size + 31) / 32 <= depth - (txTail + depth - txHead) % depth then 0 else -28
    {
      AcceptsInNumbers(State(), size);
      var free := RemainSpace();
      ret := if BlockCount(size) > free then -ENOSPC else 0;
    }

    /** One block of the message, or its partial last one. */
    method WriteBlock(data: seq<Byte>)
      requires base.Length == depth && pi < depth && |data| <= BB_SIZE
      modifies this`pi, base
      ensures base[..] == old(base[..])[old(pi) := Overlay(old(base[..])[old(pi)], data)]
      ensures pi == At(depth, old(pi), 1)
    {
      base[pi] := Overlay(base[pi], data);
      pi := pi + 1;
      if pi >= depth {
        pi := 0;
      }
    }

    /** Writes whatever it is given: the space check is the caller's. */
    method SendToSq(buf: seq<Byte>)
      requires Valid()
      modifies this`pi, this`txTail, base
      ensures Valid() && State() == Sent(old(State()), buf)
    {
      var total: nat, offset, cnt := |buf|, 0, 0;
      var num := BlockCount(|buf|);
      pi := txTail % 0x1_0000;
      while cnt < num
        invariant 0 <= offset && offset + total == |buf| && num == cnt + BlockCount(total)
        invariant pi < depth && txTail == old(txTail)
        invariant Put(depth, base[..], pi, buf[offset..]) == Put(depth, old(base[..]), old(txTail), buf)
      {
        BlockCountStep(total);
        var size := Min(total, BB_SIZE);
        PutStep(depth, base[..], pi, buf, offset, size);
        WriteBlock(buf[offset..offset + size]);
        total, offset := total - size, offset + size;
        cnt := cnt + 1;
      }
      assert buf[offset..] == [];
      txTail := pi;
    }

    /** The locked part of a request: check, then send. */
    method SendRequest(buf: seq<Byte>) returns (ret: int)
      requires Valid() && buf != []
      modifies this`ci, this`pi, this`txTail, base
      ensures Valid() && State() == Step(old(State()), Send(buf))
      ensures ret == if Accepts(old(State()), |buf|) then 0 else -ENOSPC
    {
      ret := CheckSqEnough(|buf|);
      if ret != 0 {
        return;
      }
      SendToSq(buf);
    }

    /** The device consumes k blocks and publishes its new head. */
    method DeviceAdvance(k: nat)
      requires Valid() && k <= Used(depth, txHead, txTail)
      modifies this`txHead
      ensures Valid() && State() == Step(old(State()), Advance(k))
    {
      txHead := At(depth, txHead, k);
    }
  }
}

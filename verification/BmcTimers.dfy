/**
 The BMC fault path of a node that reports its own failing BMC to the master.
 A retryable answer arms a timer for the node and keeps quiet; when the timer
 expires a final acknowledgement blocks the BMC and the node is silent from
 then on. Any other answer is acknowledged at once.
 */
module BmcTimers {
  import opened Options

  const UBSE_OK := 0
  const IPC_ERROR := 1
  const LACK_LOCAL_MEM := 3
  const PARTIAL_SUCCESS := 8
  const INTERNAL_ERROR_BASE := 10000

  /** IsBmcFaultRetryableCode */
  predicate Retryable(code: nat) {
    IPC_ERROR <= code <= PARTIAL_SUCCESS && code != LACK_LOCAL_MEM
  }

  /** System errors on the way to the master count as a communication failure. */
  function CodeOf(ret: nat): nat {
    if ret >= INTERNAL_ERROR_BASE then IPC_ERROR else ret
  }

  datatype FaultState = FaultState(msgId: string, lastError: nat, finalAckSent: bool)

  /** A timer object stays in the table after its thread has run out. */
  datatype Timer = Running(msgId: string) | Over

  datatype Ack = Ack(node: string, msgId: string, code: nat)

  datatype Machine = Machine(states: map<string, FaultState>, timers: map<string, Timer>, acks: seq<Ack>) {
    predicate Armed(n: string) {
      n in timers && timers[n].Running?
    }
  }

  const Start := Machine(map[], map[], [])

  datatype Event =
    | Report(node: string, msgId: string, ret: nat)   // HandleBMCFault, past the early exits
    | Expire(node: string)                            // the node's running timer runs out

  predicate Enabled(m: Machine, e: Event) {
    e.Expire? ==> m.Armed(e.node)
  }

  ghost function Next(m: Machine, e: Event): Machine
    requires Enabled(m, e)
  {
    var n := e.node;
    match e
    case Report(_, msgId, ret) =>
      var code := CodeOf(ret);
      if n in m.states && m.states[n].finalAckSent then m
      else if !Retryable(code) then
        Machine(m.states - {n}, m.timers - {n}, m.acks + [Ack(n, msgId, code)])
      else if n in m.states && m.states[n].msgId == msgId then
        m.(states := m.states[n := m.states[n].(lastError := code)])
      else
        m.(states := m.states[n := FaultState(msgId, code, false)], timers := m.timers[n := Running(msgId)])
    case Expire(_) =>
      var timers := m.timers[n := Over];
      if n !in m.states then m.(timers := timers)
      else
        var st := m.states[n];
        Machine(m.states[n := st.(finalAckSent := true)], timers,
                if st.lastError != 0 then m.acks + [Ack(n, st.msgId, st.lastError)] else m.acks)
  }

  // ---- The same behaviour told from the history alone ----

  /** The message id and the code of the latest report of a node; codes from 10000
      on, the system errors, count as 1. */
  ghost function Latest(h: seq<Event>, n: string): Option<(string, nat)> {
    if h == [] then None
    else if h[|h| - 1].Report? && h[|h| - 1].node == n then
      Some((h[|h| - 1].msgId, if h[|h| - 1].ret >= 10000 then 1 else h[|h| - 1].ret))
    else Latest(h[..|h| - 1], n)
  }

  ghost predicate Silenced(h: seq<Event>, n: string) {
    Expire(n) in h
  }

  /** The report of a node that is waiting for its timer: its latest one, if it
      was answered with a retryable code and no timer has expired. */
  ghost predicate Waiting(h: seq<Event>, n: string) {
    !Silenced(h, n) && Latest(h, n).Some? && TriedAgain(Latest(h, n).value.1)
  }

  /** The codes after which the master is asked again. */
  ghost predicate TriedAgain(code: nat) {
    code == 1 || code == 2 || code == 4 || code == 5 || code == 6 || code == 7 || code == 8
  }

  /** What each step of a history acknowledges. */
  ghost function AckOf(h: seq<Event>, e: Event): seq<Ack> {
    match e
    case Report(n, msgId, ret) =>
      var code := if ret >= 10000 then 1 else ret;
      if Silenced(h, n) || TriedAgain(code) then [] else [Ack(n, msgId, code)]
    case Expire(n) =>
      match Latest(h, n)
      case Some((msgId, code)) => [Ack(n, msgId, code)]
      case None => []
  }

  ghost function AckLog(h: seq<Event>): seq<Ack> {
    if h == [] then [] else AckLog(h[..|h| - 1]) + AckOf(h[..|h| - 1], h[|h| - 1])
  }

  ghost predicate IsRun(h: seq<Event>)
    decreases |h|, 0
  {
    h != [] ==> IsRun(h[..|h| - 1]) && Enabled(After(h[..|h| - 1]), h[|h| - 1])
  }

  ghost function After(h: seq<Event>): Machine
    requires IsRun(h)
    decreases |h|, 1
  {
    if h == [] then Start else Next(After(h[..|h| - 1]), h[|h| - 1])
  }

  /** In every reachable state, for every node: a timer runs exactly when the
      latest report got a retryable answer and no final acknowledgement has
      gone out; that timer was started for, and the stored state carries, the
      message id and code of that report; and the acknowledgements sent are
      exactly those the history calls for. */
  lemma {:induction false} StateTellsHistory(h: seq<Event>, n: string)
    requires IsRun(h)
    ensures
      var m := After(h);
      && (m.Armed(n) <==> Waiting(h, n))
      && (m.Armed(n) <==> n in m.states && !m.states[n].finalAckSent)
      && (Waiting(h, n) ==>
            var (msgId, code) := Latest(h, n).value;
            && m.timers[n] == Running(msgId)
            && m.states[n] == FaultState(msgId, code, false))
      && (Silenced(h, n) <==> n in m.states && m.states[n].finalAckSent)
    decreases |h|
  {
    if h != [] {
      var h0, e := h[..|h| - 1], h[|h| - 1];
      assert h == h0 + [e];
      StateTellsHistory(h0, n);
      assert Silenced(h, n) <==> Silenced(h0, n) || e == Expire(n);
    }
  }

  lemma {:induction false} AcksTellHistory(h: seq<Event>)
    requires IsRun(h)
    ensures After(h).acks == AckLog(h)
    decreases |h|
  {
    if h != [] {
      var h0, e := h[..|h| - 1], h[|h| - 1];
      AcksTellHistory(h0);
      StateTellsHistory(h0, e.node);
    }
  }

  /** An expiry sends exactly one acknowledgement, with the message id and the
      code of the node's latest report, which is a retryable one. */
  lemma ExpirySendsFinalAck(h: seq<Event>, n: string)
    requires IsRun(h + [Expire(n)])
    ensures Latest(h, n).Some? && 1 <= Latest(h, n).value.1 <= 8 && Latest(h, n).value.1 != 3
    ensures
      var (msgId, code) := Latest(h, n).value;
      AckLog(h + [Expire(n)]) == AckLog(h) + [Ack(n, msgId, code)]
  {
    assert (h + [Expire(n)])[..|h|] == h;
    StateTellsHistory(h, n);
  }

  /** No step after a node's expiry acknowledges that node again, whatever
      message ids it is reported under. */
  lemma {:induction false} SilentAfterExpiry(h: seq<Event>, later: seq<Event>, n: string)
    requires IsRun(h + [Expire(n)] + later)
    ensures AckLog(h + [Expire(n)]) <= AckLog(h + [Expire(n)] + later)
    ensures forall a :: a in AckLog(h + [Expire(n)] + later)[|AckLog(h + [Expire(n)])|..] ==> a.node != n
    decreases |later|
  {
    var g := h + [Expire(n)];
    if later == [] {
      assert g + later == g;
    } else {
      var l0, e := later[..|later| - 1], later[|later| - 1];
      var g0 := g + l0;
      assert (g + later)[..|g + later| - 1] == g0 && (g + later)[|g + later| - 1] == e;
      SilentAfterExpiry(h, l0, n);
      assert g[|h|] == Expire(n) && g0[|h|] == Expire(n);
      if e == Expire(n) {
        StateTellsHistory(g0, n);
        assert false;
      }
    }
  }

  /** The two tables and the acknowledgement channel. */
  class BmcFaults {
    var states: map<string, FaultState>
    var timers: map<string, Timer>
    var acks: seq<Ack>

    ghost function State(): Machine
      reads this
    {
      Machine(states, timers, acks)
    }

    constructor ()
      ensures State() == Start
    {
      states, timers, acks := map[], map[], [];
    }

    method ReportAck(node: string, msgId: string, code: nat)
      modifies this`acks
      ensures acks == old(acks) + [Ack(node, msgId, code)]
    {
      acks := acks + [Ack(node, msgId, code)];
    }

    /** A table entry whose thread was never joined blocks a new timer, even when it has run out. */
    method StartTimer(node: string, msgId: string)
      modifies this`timers
      ensures timers == if node in old(timers) then old(timers) else old(timers)[node := Running(msgId)]
    {
      if node in timers {
        return;
      }
      timers := timers[node := Running(msgId)];
    }

    method StopTimer(node: string)
      modifies this`timers
      ensures timers == old(timers) - {node}
    {
      timers := timers - {node};
    }

    /** True when the message id is new for the node, whose state is then reset. */
    method UpdateState(node: string, msgId: string) returns (isNew: bool)
      modifies this`states
      ensures isNew <==> node !in old(states) || old(states)[node].msgId != msgId
      ensures states == if isNew then old(states)[node := FaultState(msgId, 0, false)] else old(states)
    {
      isNew := node !in states || states[node].msgId != msgId;
      if isNew {
        states := states[node := FaultState(msgId, 0, false)];
      }
    }

    method SetLastError(node: string, code: nat)
      requires node in states
      modifies this`states
      ensures states == old(states)[node := old(states)[node].(lastError := code)]
    {
      states := states[node := states[node].(lastError := code)];
    }

    method HandleBMCFault(node: string, msgId: string, ret: nat)
      modifies this
      ensures State() == Next(old(State()), Report(node, msgId, ret))
      ensures
        var code := if ret >= 10000 then 1 else ret;
        acks == old(acks)
          + if (node in old(states) && old(states)[node].finalAckSent) || (1 <= code <= 8 && code != 3) then []
            else [Ack(node, msgId, code)]
    {
      var code := ret;
      if code >= INTERNAL_ERROR_BASE {
        code := IPC_ERROR;
      }
      if node in states && states[node].finalAckSent {
        return;
      }
      if code == UBSE_OK {
        StopTimer(node);
        states := states - {node};
        ReportAck(node, msgId, code);
        return;
      }
      if !Retryable(code) {
        StopTimer(node);
        states := states - {node};
        ReportAck(node, msgId, code);
        return;
      }
      var isNew := UpdateState(node, msgId);
      SetLastError(node, code);
      if isNew {
        StopTimer(node);
        StartTimer(node, msgId);
      }
    }

    method OnTimerExpired(node: string)
      requires State().Armed(node)
      modifies this
      ensures State() == Next(old(State()), Expire(node))
    {
      timers := timers[node := Over];
      if node !in states {
        return;
      }
      var st := states[node];
      states := states[node := st.(finalAckSent := true)];
      if st.lastError != 0 {
        ReportAck(node, st.msgId, st.lastError);
      }
    }
  }
}

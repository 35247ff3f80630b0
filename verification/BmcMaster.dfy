/**
 The master's side of the BMC fault path: the request handler that runs the
 registered reboot handlers for the failing node and answers whether the node
 may be powered down.
 */
module BmcMaster {
  import opened HandlerPasses

  const UBSE_ERROR := 10000
  const UBSE_ERROR_INVAL := 10003
  const UBSE_ERROR_AGAIN := 10009

  predicate IsDigitString(s: string) {
    forall i :: 0 <= i < |s| ==> '0' <= s[i] <= '9'
  }

  /** The cache key of a BMC fault. */
  function Key(nodeId: string, msgId: string): string {
    "BMC-" + nodeId + "-" + msgId
  }

  /** For the ids the request handler lets through, different faults have different keys. */
  lemma KeyInjective(n1: string, m1: string, n2: string, m2: string)
    requires IsDigitString(n1) && IsDigitString(n2)
    requires Key(n1, m1) == Key(n2, m2)
    ensures n1 == n2 && m1 == m2
  {
    var k1, k2 := Key(n1, m1), Key(n2, m2);
    assert k1[4..] == n1 + "-" + m1 && k2[4..] == n2 + "-" + m2;
    var t := k1[4..];
    assert t[..|n1|] == n1 && t[|n1|] == '-' && t[|n1| + 1..] == m1;
    assert t[..|n2|] == n2 && t[|n2|] == '-' && t[|n2| + 1..] == m2;
    assert |n1| == |n2|;
  }

  /** What the rest of the system answers during one request. */
  datatype Env = Env(
    nodeFound: bool,        // GetNodeById
    nodeFault: bool,        // the node is already in the FAULT state
    enterPreFault: nat,     // PRE_FAULT_STATE_HANDLER_TYPE
    backToSmoothing: nat,   // PRE_FAULT_STATE_FAIL_HANDLER_TYPE
    enterFault: nat,        // NODE_FAULT_STATE_HANDLER_TYPE
    clearFault: nat,        // NODE_FAULT_STATE_CLEAR_HANDLER_TYPE
    outcome: seq<nat>)      // what each registered handler returns if it is called

  datatype Reply = Untouched | Result(code: nat)

  datatype Req = Req(nodeId: string, msgId: string, env: Env)

  /** The handlers registered for reboots, fixed over a run. */
  datatype Config = Config(known: bool, order: seq<string>) {
    ghost predicate Valid() {
      Distinct(order) && (!known ==> order == [])
    }
  }

  /** The latest message id of each node and the records of every key. */
  datatype Master = Master(last: map<string, string>, recs: imap<string, Records>) {
    ghost function Rec(key: string): Records {
      if key in recs then recs[key] else map[]
    }

    ghost predicate Current(nodeId: string, msgId: string) {
      nodeId in last && last[nodeId] == msgId
    }
  }

  /** The request gets as far as the handlers' records. */
  ghost predicate Admitted(r: Req) {
    IsDigitString(r.nodeId) && IsDigitString(r.msgId) && r.env.nodeFound && !r.env.nodeFault
  }

  /** And the node enters the pre-fault state, so that the handlers are run. */
  ghost predicate Reaches(r: Req) {
    Admitted(r) && r.env.enterPreFault == UBSE_OK
  }

  /** The records a report starts from: none for a new message id. */
  ghost function Before(m: Master, r: Req): Records {
    if m.Current(r.nodeId, r.msgId) then m.Rec(Key(r.nodeId, r.msgId)) else map[]
  }

  ghost function Passed(c: Config, m: Master, r: Req): Records
    requires |r.env.outcome| == |c.order|
  {
    Pass(c.order, r.env.outcome, Before(m, r)).0
  }

  /** The pass went well and the node went into FAULT and was cleaned up. */
  ghost predicate GoesDown(known: bool, env: Env, records: Records) {
    (known ==> AllOk(records)) && env.enterFault == env.clearFault == UBSE_OK
  }

  ghost predicate PowersDown(c: Config, m: Master, r: Req)
    requires |r.env.outcome| == |c.order|
  {
    Reaches(r) && GoesDown(c.known, r.env, Passed(c, m, r))
  }

  /** What a request that ran the handlers may be answered with. */
  ghost predicate Concludes(known: bool, env: Env, records: Records, ret: nat, reply: Reply) {
    if known && !AllOk(records) then
      if env.backToSmoothing != UBSE_OK then ret == UBSE_ERROR_AGAIN && reply == Result(UBSE_ERROR_AGAIN)
      else ret == UBSE_OK && reply.Result? && reply.code != UBSE_OK && reply.code in records.Values
    else if GoesDown(known, env, records) then ret == UBSE_OK && reply == Result(UBSE_OK)
    else ret == UBSE_ERROR_AGAIN && reply == Result(UBSE_ERROR_AGAIN)
  }

  ghost function WithRecords(m: Master, key: string, records: Records): Master {
    m.(recs := m.recs[key := records])
  }

  /** The id is noted, and the records of a new one are dropped. */
  ghost function Prepared(m: Master, r: Req): Master {
    WithRecords(m.(last := m.last[r.nodeId := r.msgId]), Key(r.nodeId, r.msgId), Before(m, r))
  }

  lemma PreparedRecord(m: Master, r: Req)
    ensures Prepared(m, r).Rec(Key(r.nodeId, r.msgId)) == Before(m, r)
  {
  }

  /** The records after the handlers have run: dropped with a power-down, and
      otherwise kept for the next report. */
  ghost function Concluded(c: Config, m: Master, r: Req, prepared: Master): Master
    requires |r.env.outcome| == |c.order|
  {
    WithRecords(prepared, Key(r.nodeId, r.msgId), if PowersDown(c, m, r) then map[] else Passed(c, m, r))
  }

  ghost function Next(c: Config, m: Master, r: Req): Master
    requires |r.env.outcome| == |c.order|
  {
    if !Admitted(r) then m
    else if !Reaches(r) then Prepared(m, r)
    else Concluded(c, m, r, Prepared(m, r))
  }

  /** What a request may be answered with. */
  ghost predicate Answers(c: Config, m: Master, r: Req, ret: nat, reply: Reply)
    requires |r.env.outcome| == |c.order|
  {
    if !IsDigitString(r.nodeId) || !IsDigitString(r.msgId) then ret == UBSE_ERROR_INVAL && reply == Untouched
    else if !r.env.nodeFound then ret == UBSE_ERROR && reply == Untouched
    else if r.env.nodeFault then ret == UBSE_OK && reply == Result(UBSE_OK)
    else if !Reaches(r) then ret == r.env.enterPreFault && reply == Result(ret)
    else Concludes(c.known, r.env, Passed(c, m, r), ret, reply)
  }

  // ---- Sequences of reports ----

  ghost const Start: Master := Master(map[], imap k: string :: map[])

  ghost predicate IsRun(c: Config, h: seq<Req>) {
    forall k :: 0 <= k < |h| ==> |h[k].env.outcome| == |c.order|
  }

  ghost function After(c: Config, h: seq<Req>): Master
    requires IsRun(c, h)
  {
    if h == [] then Start else Next(c, After(c, h[..|h| - 1]), h[|h| - 1])
  }

  /** Report j is one of (nodeId, msgId). */
  ghost predicate Reports(h: seq<Req>, j: int, nodeId: string, msgId: string)
    requires 0 <= j < |h|
  {
    Admitted(h[j]) && h[j].nodeId == nodeId && h[j].msgId == msgId
  }

  /** In report j of (nodeId, msgId) the i-th handler returns success, if it is called. */
  ghost predicate Succeeds(c: Config, h: seq<Req>, j: int, nodeId: string, msgId: string, i: nat)
    requires IsRun(c, h) && 0 <= j < |h| && i < |c.order|
  {
    Reports(h, j, nodeId, msgId) && Reaches(h[j]) && h[j].env.outcome[i] == UBSE_OK
  }

  /** Between report j and report k the node has reported no other message id,
      and this one has not been answered with a power-down. */
  ghost predicate Unbroken(c: Config, h: seq<Req>, j: int, k: int, nodeId: string, msgId: string)
    requires IsRun(c, h) && 0 <= j && k <= |h|
  {
    && (forall l :: j < l < k && Admitted(h[l]) && h[l].nodeId == nodeId ==> h[l].msgId == msgId)
    && (forall l :: j <= l < k ==> !EndsAt(c, h, l, nodeId, msgId))
  }

  ghost predicate EndsAt(c: Config, h: seq<Req>, l: int, nodeId: string, msgId: string)
    requires IsRun(c, h) && 0 <= l < |h|
  {
    Reports(h, l, nodeId, msgId) && PowersDown(c, After(c, h[..l]), h[l])
  }

  /** Some report up to the k-th saw the i-th handler succeed, and nothing has
      been forgotten since. */
  ghost predicate HasSucceeded(c: Config, h: seq<Req>, k: int, nodeId: string, msgId: string, i: nat)
    requires IsRun(c, h) && 0 <= k <= |h| && i < |c.order|
  {
    exists j :: 0 <= j < k && Succeeds(c, h, j, nodeId, msgId, i) && Unbroken(c, h, j, k, nodeId, msgId)
  }

  lemma SamePast(c: Config, h: seq<Req>, r: Req, nodeId: string, msgId: string)
    requires IsRun(c, h + [r]) && IsRun(c, h)
    ensures forall l :: 0 <= l < |h| ==> EndsAt(c, h + [r], l, nodeId, msgId) == EndsAt(c, h, l, nodeId, msgId)
    ensures forall l :: 0 <= l < |h| ==> (h + [r])[l] == h[l]
  {
    forall l | 0 <= l < |h|
      ensures EndsAt(c, h + [r], l, nodeId, msgId) == EndsAt(c, h, l, nodeId, msgId)
    {
      assert (h + [r])[..l] == h[..l];
    }
  }

  /** Whether report r lets what counted before it stand. */
  ghost predicate Keeps(c: Config, h: seq<Req>, r: Req, nodeId: string, msgId: string)
    requires IsRun(c, h + [r])
  {
    && (Admitted(r) && r.nodeId == nodeId ==> r.msgId == msgId)
    && !EndsAt(c, h + [r], |h|, nodeId, msgId)
  }

  lemma UnbrokenMore(c: Config, h: seq<Req>, r: Req, j: nat, nodeId: string, msgId: string)
    requires IsRun(c, h + [r]) && IsRun(c, h) && j < |h|
    ensures Unbroken(c, h + [r], j, |h| + 1, nodeId, msgId)
       <==> Unbroken(c, h, j, |h|, nodeId, msgId) && Keeps(c, h, r, nodeId, msgId)
  {
    var g := h + [r];
    SamePast(c, h, r, nodeId, msgId);
    assert g[|h|] == r;
    if Unbroken(c, g, j, |g|, nodeId, msgId) {
      assert forall l :: j < l < |h| && Admitted(h[l]) && h[l].nodeId == nodeId ==> g[l].msgId == msgId;
    }
    if Unbroken(c, h, j, |h|, nodeId, msgId) && Keeps(c, h, r, nodeId, msgId) {
      assert forall l :: j <= l < |g| ==> !EndsAt(c, g, l, nodeId, msgId);
    }
  }

  /** One report more: what counted still counts unless that report forgets it. */
  lemma OneReportMore(c: Config, h: seq<Req>, r: Req, nodeId: string, msgId: string, i: nat)
    requires IsRun(c, h + [r]) && IsRun(c, h) && i < |c.order|
    ensures HasSucceeded(c, h + [r], |h| + 1, nodeId, msgId, i) <==>
      && Keeps(c, h, r, nodeId, msgId)
      && (HasSucceeded(c, h, |h|, nodeId, msgId, i) || Succeeds(c, h + [r], |h|, nodeId, msgId, i))
  {
    var g := h + [r];
    forall j | 0 <= j < |h|
      ensures Succeeds(c, g, j, nodeId, msgId, i) == Succeeds(c, h, j, nodeId, msgId, i)
      ensures Unbroken(c, g, j, |g|, nodeId, msgId)
         <==> Unbroken(c, h, j, |h|, nodeId, msgId) && Keeps(c, h, r, nodeId, msgId)
    {
      UnbrokenMore(c, h, r, j, nodeId, msgId);
    }
    assert Succeeds(c, g, |h|, nodeId, msgId, i) ==>
      (Unbroken(c, g, |h|, |g|, nodeId, msgId) <==> Keeps(c, h, r, nodeId, msgId));
  }

  /** A success that still counts belongs to the node's current message id. */
  lemma {:induction false} CountedIsCurrent(c: Config, h: seq<Req>, nodeId: string, msgId: string, i: nat)
    requires IsRun(c, h) && i < |c.order| && HasSucceeded(c, h, |h|, nodeId, msgId, i)
    ensures After(c, h).Current(nodeId, msgId)
  {
    var h0, r := h[..|h| - 1], h[|h| - 1];
    assert h == h0 + [r];
    OneReportMore(c, h0, r, nodeId, msgId, i);
    if !Succeeds(c, h, |h0|, nodeId, msgId, i) {
      CountedIsCurrent(c, h0, nodeId, msgId, i);
    }
  }

  lemma {:induction false} OnlyRegistered(c: Config, h: seq<Req>, key: string)
    requires IsRun(c, h) && c.Valid()
    ensures After(c, h).Rec(key).Keys <= set x | x in c.order
  {
    if h != [] {
      var h0, r := h[..|h| - 1], h[|h| - 1];
      OnlyRegistered(c, h0, key);
      PassRunsOutstanding(c.order, r.env.outcome, Before(After(c, h0), r));
    }
  }

  lemma PassedDone(c: Config, m: Master, r: Req, i: nat)
    requires c.Valid() && |r.env.outcome| == |c.order| && i < |c.order|
    ensures Done(Passed(c, m, r), c.order[i]) <==> Done(Before(m, r), c.order[i]) || r.env.outcome[i] == UBSE_OK
  {
    PassRunsOutstanding(c.order, r.env.outcome, Before(m, r));
  }

  /** The master's records in closed form: for the current message id of a node
      they show a success of a handler exactly if some report saw it succeed and
      nothing has been forgotten since. */
  lemma {:induction false} RecordsTellHistory(c: Config, h: seq<Req>, nodeId: string, msgId: string, i: nat)
    requires IsRun(c, h) && c.Valid() && IsDigitString(nodeId) && i < |c.order|
    requires After(c, h).Current(nodeId, msgId)
    ensures Done(After(c, h).Rec(Key(nodeId, msgId)), c.order[i]) <==> HasSucceeded(c, h, |h|, nodeId, msgId, i)
  {
    var h0, r := h[..|h| - 1], h[|h| - 1];
    var m := After(c, h0);
    assert h == h0 + [r];
    OneReportMore(c, h0, r, nodeId, msgId, i);
    if Admitted(r) && Key(r.nodeId, r.msgId) == Key(nodeId, msgId) {
      KeyInjective(r.nodeId, r.msgId, nodeId, msgId);
      BeforeTells(c, h0, r, i);
      PassedDone(c, m, r, i);
    } else {
      RecordsTellHistory(c, h0, nodeId, msgId, i);
    }
  }

  /** What the next report of an id starts from. */
  lemma {:induction false} BeforeTells(c: Config, h: seq<Req>, r: Req, i: nat)
    requires IsRun(c, h) && c.Valid() && IsDigitString(r.nodeId) && i < |c.order|
    ensures Done(Before(After(c, h), r), c.order[i]) <==> HasSucceeded(c, h, |h|, r.nodeId, r.msgId, i)
  {
    if After(c, h).Current(r.nodeId, r.msgId) {
      RecordsTellHistory(c, h, r.nodeId, r.msgId, i);
    } else if HasSucceeded(c, h, |h|, r.nodeId, r.msgId, i) {
      CountedIsCurrent(c, h, r.nodeId, r.msgId, i);
    }
  }

  /** Over any sequence of reports from an empty cache: a request about a node not
      yet in FAULT is answered with OK exactly if it reaches the handlers, each of
      them succeeds in it or has succeeded in an earlier report of the same node
      and message id since that id was last new or powered down, and the node
      goes into FAULT and is cleaned up. */
  lemma OkMeansAllSucceeded(c: Config, h: seq<Req>, r: Req, ret: nat, reply: Reply)
    requires IsRun(c, h + [r]) && IsRun(c, h) && c.Valid()
    requires |r.env.outcome| == |c.order| && !r.env.nodeFault
    requires Answers(c, After(c, h), r, ret, reply)
    ensures ret == UBSE_OK && reply == Result(UBSE_OK) <==>
      && Reaches(r) && r.env.enterFault == r.env.clearFault == UBSE_OK
      && forall i :: 0 <= i < |c.order| ==>
           r.env.outcome[i] == UBSE_OK || HasSucceeded(c, h, |h|, r.nodeId, r.msgId, i)
  {
    var m := After(c, h);
    var rec := Passed(c, m, r);
    if Reaches(r) {
      forall i | 0 <= i < |c.order|
        ensures Done(rec, c.order[i]) <==>
          r.env.outcome[i] == UBSE_OK || HasSucceeded(c, h, |h|, r.nodeId, r.msgId, i)
      {
        PassedDone(c, m, r, i);
        BeforeTells(c, h, r, i);
      }
      AllOkIsAllDone(c, h, r);
    }
  }

  lemma AllOkIsAllDone(c: Config, h: seq<Req>, r: Req)
    requires IsRun(c, h) && c.Valid() && |r.env.outcome| == |c.order|
    ensures
      var rec := Passed(c, After(c, h), r);
      AllOk(rec) <==> forall i :: 0 <= i < |c.order| ==> Done(rec, c.order[i])
  {
    var m := After(c, h);
    OnlyRegistered(c, h, Key(r.nodeId, r.msgId));
    PassRunsOutstanding(c.order, r.env.outcome, Before(m, r));
    var rec := Passed(c, m, r);
    assert rec.Keys == set x | x in c.order;
    if forall i :: 0 <= i < |c.order| ==> Done(rec, c.order[i]) {
      forall x | x in rec
        ensures rec[x] == UBSE_OK
      {
        var i :| 0 <= i < |c.order| && c.order[i] == x;
        assert Done(rec, c.order[i]);
      }
    }
  }

  /** Every registered handler succeeds in this request or has succeeded before it. */
  ghost predicate AllSucceed(c: Config, h: seq<Req>, r: Req)
    requires IsRun(c, h) && |r.env.outcome| == |c.order|
  {
    forall i :: 0 <= i < |c.order| ==> r.env.outcome[i] == 0 || HasSucceeded(c, h, |h|, r.nodeId, r.msgId, i)
  }

  lemma PassGood(c: Config, h: seq<Req>, r: Req)
    requires IsRun(c, h) && c.Valid() && |r.env.outcome| == |c.order| && IsDigitString(r.nodeId)
    ensures (c.known ==> AllOk(Passed(c, After(c, h), r))) <==> AllSucceed(c, h, r)
  {
    var rec := Passed(c, After(c, h), r);
    forall i | 0 <= i < |c.order|
      ensures Done(rec, c.order[i]) <==> r.env.outcome[i] == 0 || HasSucceeded(c, h, |h|, r.nodeId, r.msgId, i)
    {
      PassedDone(c, After(c, h), r, i);
      BeforeTells(c, h, r, i);
    }
    AllOkIsAllDone(c, h, r);
  }

  /** A failing code on record after a pass was returned in this pass. */
  lemma FailedNow(c: Config, h: seq<Req>, r: Req, code: nat) returns (i: nat)
    requires IsRun(c, h) && c.Valid() && |r.env.outcome| == |c.order| && IsDigitString(r.nodeId)
    requires code != 0 && code in Passed(c, After(c, h), r).Values
    ensures i < |c.order| && r.env.outcome[i] == code && !HasSucceeded(c, h, |h|, r.nodeId, r.msgId, i)
  {
    var m := After(c, h);
    var rec := Passed(c, m, r);
    OnlyRegistered(c, h, Key(r.nodeId, r.msgId));
    PassRunsOutstanding(c.order, r.env.outcome, Before(m, r));
    var x :| x in rec && rec[x] == code;
    i :| i < |c.order| && c.order[i] == x;
    PassedDone(c, m, r, i);
    BeforeTells(c, h, r, i);
  }

  /** All other answers over any sequence of reports: 10003 for ids that are not
      digits, 10000 for an unknown node, OK for one already in FAULT, the code of
      the pre-fault state that was not entered. If a handler has not succeeded,
      10009 when the node cannot go back either, and else the code of a handler
      that failed in this request. 10009 when FAULT is not entered or not cleared. */
  lemma RefusalsTold(c: Config, h: seq<Req>, r: Req, ret: nat, reply: Reply)
    requires IsRun(c, h) && c.Valid() && |r.env.outcome| == |c.order|
    requires Answers(c, After(c, h), r, ret, reply)
    ensures !IsDigitString(r.nodeId) || !IsDigitString(r.msgId) ==> ret == 10003 && reply == Untouched
    ensures IsDigitString(r.nodeId) && IsDigitString(r.msgId) ==>
      && (!r.env.nodeFound ==> ret == 10000 && reply == Untouched)
      && (r.env.nodeFound && r.env.nodeFault ==> ret == 0 && reply == Result(0))
      && (r.env.nodeFound && !r.env.nodeFault && r.env.enterPreFault != 0 ==>
            ret == r.env.enterPreFault && reply == Result(ret))
      && (r.env.nodeFound && !r.env.nodeFault && r.env.enterPreFault == 0 ==>
            && (!AllSucceed(c, h, r) && r.env.backToSmoothing != 0 ==> ret == 10009 && reply == Result(10009))
            && (!AllSucceed(c, h, r) && r.env.backToSmoothing == 0 ==>
                  && ret == 0 && reply.Result? && reply.code != 0
                  && exists i :: 0 <= i < |c.order| && r.env.outcome[i] == reply.code
                       && !HasSucceeded(c, h, |h|, r.nodeId, r.msgId, i))
            && (AllSucceed(c, h, r) && (r.env.enterFault != 0 || r.env.clearFault != 0) ==>
                  ret == 10009 && reply == Result(10009)))
  {
    if Reaches(r) {
      PassGood(c, h, r);
      if !AllSucceed(c, h, r) && r.env.backToSmoothing == 0 {
        var i := FailedNow(c, h, r, reply.code);
      }
    }
  }

  // ---- The object ----

  class BmcHandler {
    const handlers: FaultHandlers
    var lastMsg: map<string, string>   // g_nodeBmcFaultMsgId

    ghost function View(): Master
      reads this, handlers
    {
      Master(lastMsg, imap k: string :: handlers.RecordsOf(k))
    }

    ghost function Registered(): Config
      requires handlers.Valid()
      reads this, handlers
    {
      Config(handlers.known, handlers.Order())
    }

    constructor (handlers: FaultHandlers)
      ensures this.handlers == handlers && lastMsg == map[]
      ensures handlers.results == map[] ==> View() == Start
    {
      this.handlers := handlers;
      lastMsg := map[];
    }

    /** UpdateNodeBmcFaultMsgId: true when the message id differs from the node's last one. */
    method UpdateMsgId(nodeId: string, msgId: string) returns (isNew: bool)
      modifies this`lastMsg
      ensures isNew <==> nodeId !in old(lastMsg) || old(lastMsg)[nodeId] != msgId
      ensures lastMsg == old(lastMsg)[nodeId := msgId]
    {
      isNew := nodeId !in lastMsg || lastMsg[nodeId] != msgId;
      if isNew {
        lastMsg := lastMsg[nodeId := msgId];
      } else {
        assert lastMsg == lastMsg[nodeId := msgId];
      }
    }

    /** HandleBmcFaultPreSet */
    method PreSet(nodeId: string, msgId: string, env: Env) returns (ret: nat)
      requires handlers.Valid()
      modifies this`lastMsg, handlers`results
      ensures handlers.Valid()
      ensures View() == Prepared(old(View()), Req(nodeId, msgId, env))
      ensures ret == env.enterPreFault
    {
      var isNew := UpdateMsgId(nodeId, msgId);
      if isNew {
        handlers.Clear(Key(nodeId, msgId));
      }
      ret := env.enterPreFault;
    }

    /** The rest of a request once the node is in the pre-fault state. */
    method RunHandlers(key: string, env: Env) returns (ret: nat, reply: Reply)
      requires handlers.Valid() && |env.outcome| == |handlers.Order()|
      modifies handlers`results
      ensures handlers.Valid()
      ensures
        var records := Pass(handlers.Order(), env.outcome, old(handlers.RecordsOf(key))).0;
        && Concludes(handlers.known, env, records, ret, reply)
        && handlers.RecordsOf(key) == if GoesDown(handlers.known, env, records) then map[] else records
      ensures forall k :: k != key ==> handlers.RecordsOf(k) == old(handlers.RecordsOf(k))
    {
      var pass, ran := handlers.ExecuteFaultHandler(key, env.outcome);
      reply := Result(UBSE_ERROR_AGAIN);
      if pass == UBSE_OK {
        if env.enterFault != UBSE_OK {
          return UBSE_ERROR_AGAIN, reply;
        }
        if env.clearFault != UBSE_OK {
          return UBSE_ERROR_AGAIN, reply;
        }
        handlers.Clear(key);
      } else if env.backToSmoothing != UBSE_OK {
        return UBSE_ERROR_AGAIN, reply;
      }
      return UBSE_OK, Result(pass);
    }

    /** The request handler: every request is one step of the master, and is
        answered as the step calls for. */
    method Handle(nodeId: string, msgId: string, env: Env) returns (ret: nat, reply: Reply)
      requires handlers.Valid() && |env.outcome| == |handlers.Order()|
      modifies this`lastMsg, handlers`results
      ensures handlers.Valid() && Registered() == old(Registered())
      ensures View() == Next(Registered(), old(View()), Req(nodeId, msgId, env))
      ensures Answers(Registered(), old(View()), Req(nodeId, msgId, env), ret, reply)
    {
      reply := Untouched;
      if !IsDigitString(nodeId) || !IsDigitString(msgId) {
        return UBSE_ERROR_INVAL, reply;
      }
      if !env.nodeFound {
        return UBSE_ERROR, reply;
      }
      if env.nodeFault {
        return UBSE_OK, Result(UBSE_OK);
      }
      ret, reply := HandleAdmitted(nodeId, msgId, env);
    }

    method HandleAdmitted(nodeId: string, msgId: string, env: Env) returns (ret: nat, reply: Reply)
      requires handlers.Valid() && |env.outcome| == |handlers.Order()|
      requires Admitted(Req(nodeId, msgId, env))
      modifies this`lastMsg, handlers`results
      ensures handlers.Valid() && Registered() == old(Registered())
      ensures View() == Next(Registered(), old(View()), Req(nodeId, msgId, env))
      ensures Answers(Registered(), old(View()), Req(nodeId, msgId, env), ret, reply)
    {
      ret := PreSet(nodeId, msgId, env);
      if ret != UBSE_OK {
        return ret, Result(ret);
      }
      PreparedRecord(old(View()), Req(nodeId, msgId, env));
      ret, reply := RunOn(Key(nodeId, msgId), env);
    }

    method RunOn(key: string, env: Env) returns (ret: nat, reply: Reply)
      requires handlers.Valid() && |env.outcome| == |handlers.Order()|
      modifies handlers`results
      ensures handlers.Valid()
      ensures
        var records := Pass(handlers.Order(), env.outcome, old(View()).Rec(key)).0;
        && Concludes(handlers.known, env, records, ret, reply)
        && View() == WithRecords(old(View()), key, if GoesDown(handlers.known, env, records) then map[] else records)
    {
      assert View().Rec(key) == handlers.RecordsOf(key);
      ret, reply := RunHandlers(key, env);
    }
  }
}

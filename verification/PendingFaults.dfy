/**
 Pool threads handling OOM faults. Every report of a fault submits a task; a
 task first claims the fault id in the pending set, then makes a pass over the
 handlers, acknowledges a pass that ended well, and gives the id up again. The
 locks only cover single accesses, so passes of different threads interleave
 at every access to the pending set and to the result cache.
 */
module PendingFaults {
  import opened HandlerPasses
  import opened Options

  type Tid = nat

  /** Where a thread is. `start` and `outcome` remember, for the proofs only,
      the id's records when it was claimed and what the handlers looked at so
      far returned (UBSE_OK for those that were not called). */
  datatype Phase =
    | Idle
    | Scanning(id: string, needAck: bool, k: nat, start: Records, outcome: seq<nat>)   // about to look handler k up
    | Calling(id: string, needAck: bool, k: nat, start: Records, outcome: seq<nat>)    // handler k is running
    | Judged(id: string, needAck: bool, ok: bool, start: Records, outcome: seq<nat>)   // the pass is over
    | Leaving(id: string)                                                              // about to release the id

  datatype Event =
    | Succeeded(id: string, handler: string)
    | Failed(id: string, handler: string)
    | Acked(id: string)

  datatype State = State(
    order: seq<string>,
    pending: set<string>,
    results: map<string, Records>,
    threads: map<Tid, Phase>,
    log: seq<Event>)
  {
    function Rec(id: string): Records {
      if id in results then results[id] else map[]
    }

    function Put(t: Tid, p: Phase): State {
      this.(threads := threads[t := p])
    }
  }

  datatype Step =
    | Begin(t: Tid, id: string, needAck: bool)   // AddPendingFaultId
    | Look(t: Tid)                               // IsHandlerDone, or the final result query
    | Finish(t: Tid, code: nat)                  // a handler returns and its result is stored
    | Report(t: Tid)                             // the acknowledgement, if one is due
    | Leave(t: Tid)                              // DelPendingFaultId

  predicate Enabled(s: State, e: Step) {
    && e.t in s.threads
    && match e
       case Begin(t, _, _) => s.threads[t].Idle?
       case Look(t) => s.threads[t].Scanning? && s.threads[t].k <= |s.order|
       case Finish(t, _) => s.threads[t].Calling? && s.threads[t].k < |s.order|
       case Report(t) => s.threads[t].Judged?
       case Leave(t) => s.threads[t].Leaving?
  }

  ghost function Next(s: State, e: Step): State
    requires Enabled(s, e)
  {
    var p := s.threads[e.t];
    match e
    case Begin(t, id, needAck) =>
      if id in s.pending then s
      else s.Put(t, Scanning(id, needAck, 0, s.Rec(id), [])).(pending := s.pending + {id})
    case Look(t) =>
      if p.k == |s.order| then s.Put(t, Judged(p.id, p.needAck, AllOk(s.Rec(p.id)), p.start, p.outcome))
      else if Done(s.Rec(p.id), s.order[p.k]) then
        s.Put(t, Scanning(p.id, p.needAck, p.k + 1, p.start, p.outcome + [UBSE_OK]))
      else s.Put(t, Calling(p.id, p.needAck, p.k, p.start, p.outcome))
    case Finish(t, code) =>
      var h := s.order[p.k];
      s.Put(t, Scanning(p.id, p.needAck, p.k + 1, p.start, p.outcome + [code])).(
        results := s.results[p.id := s.Rec(p.id)[h := code]],
        log := s.log + [if code == UBSE_OK then Succeeded(p.id, h) else Failed(p.id, h)])
    case Report(t) =>
      s.Put(t, Leaving(p.id)).(log := if p.ok && p.needAck then s.log + [Acked(p.id)] else s.log)
    case Leave(t) =>
      s.Put(t, Idle).(pending := s.pending - {p.id})
  }

  ghost predicate Init(s: State) {
    && Distinct(s.order)
    && s.pending == {} && s.results == map[] && s.log == []
    && forall t :: t in s.threads ==> s.threads[t] == Idle
  }

  ghost predicate IsRun(s: State, steps: seq<Step>)
    decreases |steps|
  {
    steps != [] ==> Enabled(s, steps[0]) && IsRun(Next(s, steps[0]), steps[1..])
  }

  ghost function Final(s: State, steps: seq<Step>): State
    requires IsRun(s, steps)
    decreases |steps|
  {
    if steps == [] then s else Final(Next(s, steps[0]), steps[1..])
  }

  // ---- What is claimed of every reachable state ----

  /** At most one thread is between claiming and releasing an id, and the
      pending set holds exactly the ids so claimed. */
  ghost predicate Exclusive(s: State) {
    && (forall t, u :: t in s.threads && u in s.threads && t != u && !s.threads[t].Idle? && !s.threads[u].Idle?
          ==> s.threads[t].id != s.threads[u].id)
    && (forall t :: t in s.threads && !s.threads[t].Idle? ==> s.threads[t].id in s.pending)
    && (forall id :: id in s.pending ==> exists t :: t in s.threads && !s.threads[t].Idle? && s.threads[t].id == id)
  }

  /** No handler succeeds twice for one id. */
  ghost predicate SuccessOnce(log: seq<Event>) {
    forall i, j :: 0 <= i < j < |log| && log[i].Succeeded? ==> log[i] != log[j]
  }

  /** Every acknowledgement comes after a success of every registered handler. */
  ghost predicate AckAfterAll(order: seq<string>, log: seq<Event>) {
    forall i, h :: 0 <= i < |log| && log[i].Acked? && h in order ==> Succeeded(log[i].id, h) in log[..i]
  }

  // ---- The invariant that carries the claims ----

  /** The cache records a success exactly when one was logged. */
  ghost predicate CacheMatchesLog(s: State) {
    forall id, h :: Done(s.Rec(id), h) <==> Succeeded(id, h) in s.log
  }

  /** The work of a thread so far is a pass over the handlers it has looked at. */
  ghost predicate PhaseOk(order: seq<string>, rec: Records, p: Phase) {
    match p
    case Idle => true
    case Scanning(_, _, k, start, outcome) =>
      k <= |order| && |outcome| == k && rec == Pass(order[..k], outcome, start).0
    case Calling(_, _, k, start, outcome) =>
      && k < |order| && |outcome| == k && rec == Pass(order[..k], outcome, start).0
      && !Done(rec, order[k])
    case Judged(_, _, ok, start, outcome) =>
      |outcome| == |order| && rec == Pass(order, outcome, start).0 && (ok <==> AllOk(rec))
    case Leaving(_) => true
  }

  ghost predicate Inv(s: State) {
    && Distinct(s.order)
    && Exclusive(s)
    && SuccessOnce(s.log)
    && AckAfterAll(s.order, s.log)
    && CacheMatchesLog(s)
    && (forall t :: t in s.threads && !s.threads[t].Idle? ==> PhaseOk(s.order, s.Rec(s.threads[t].id), s.threads[t]))
  }

  lemma BeginKeepsInv(s: State, e: Step)
    requires Inv(s) && Enabled(s, e) && e.Begin?
    ensures Inv(Next(s, e))
  {
    var s' := Next(s, e);
    if e.id !in s.pending {
      forall id | id in s'.pending
        ensures exists t :: t in s'.threads && !s'.threads[t].Idle? && s'.threads[t].id == id
      {
        if id == e.id {
          assert s'.threads[e.t].id == id;
        } else {
          var t :| t in s.threads && !s.threads[t].Idle? && s.threads[t].id == id;
          assert s'.threads[t] == s.threads[t];
        }
      }
      assert forall id :: s'.Rec(id) == s.Rec(id);
    }
  }

  lemma StillClaimed(s: State, t: Tid, p: Phase)
    requires Inv(s) && t in s.threads && !s.threads[t].Idle? && !p.Idle? && p.id == s.threads[t].id
    ensures Exclusive(s.Put(t, p))
  {
    var s' := s.Put(t, p);
    forall id | id in s'.pending
      ensures exists u :: u in s'.threads && !s'.threads[u].Idle? && s'.threads[u].id == id
    {
      var u :| u in s.threads && !s.threads[u].Idle? && s.threads[u].id == id;
      assert s'.threads[u].id == id;
    }
  }

  lemma OneMore(order: seq<string>, k: nat, outcome: seq<nat>, start: Records, code: nat)
    requires k < |order| && |outcome| == k
    ensures
      var rec := Pass(order[..k], outcome, start).0;
      Pass(order[..k + 1], outcome + [code], start).0
        == if Done(rec, order[k]) then rec else rec[order[k] := code]
  {
    PassExtend(order[..k], outcome, start, order[k], code);
    assert order[..k + 1] == order[..k] + [order[k]];
  }

  lemma LookKeepsInv(s: State, e: Step)
    requires Inv(s) && Enabled(s, e) && e.Look?
    ensures Inv(Next(s, e))
  {
    var s', p := Next(s, e), s.threads[e.t];
    StillClaimed(s, e.t, s'.threads[e.t]);
    assert forall id :: s'.Rec(id) == s.Rec(id);
    if p.k == |s.order| {
      assert s.order[..p.k] == s.order;
    } else {
      OneMore(s.order, p.k, p.outcome, p.start, UBSE_OK);
    }
    assert PhaseOk(s.order, s.Rec(p.id), s'.threads[e.t]);
  }

  lemma FinishKeepsInv(s: State, e: Step)
    requires Inv(s) && Enabled(s, e) && e.Finish?
    ensures Inv(Next(s, e))
  {
    var s', p := Next(s, e), s.threads[e.t];
    var h := s.order[p.k];
    StillClaimed(s, e.t, s'.threads[e.t]);
    assert Exclusive(s');
    assert forall id :: id != p.id ==> s'.Rec(id) == s.Rec(id);
    assert s'.Rec(p.id) == s.Rec(p.id)[h := e.code];
    OneMore(s.order, p.k, p.outcome, p.start, e.code);
    assert PhaseOk(s.order, s'.Rec(p.id), s'.threads[e.t]);
    assert Succeeded(p.id, h) !in s.log;
    assert CacheMatchesLog(s') by {
      forall id, g
        ensures Done(s'.Rec(id), g) <==> Succeeded(id, g) in s'.log
      {
        assert Done(s.Rec(id), g) <==> Succeeded(id, g) in s.log;
      }
    }
    LogGrows(s.order, s.log, s'.log[|s.log|]);
  }

  /** Appending an event that is neither an acknowledgement nor a repeated success. */
  lemma LogGrows(order: seq<string>, log: seq<Event>, e: Event)
    requires SuccessOnce(log) && AckAfterAll(order, log)
    requires e.Succeeded? ==> e !in log
    requires e.Acked? ==> forall h :: h in order ==> Succeeded(e.id, h) in log
    ensures SuccessOnce(log + [e]) && AckAfterAll(order, log + [e])
  {
    var log' := log + [e];
    forall i, h | 0 <= i < |log'| && log'[i].Acked? && h in order
      ensures Succeeded(log'[i].id, h) in log'[..i]
    {
      if i < |log| {
        assert log'[..i] == log[..i];
      } else {
        assert log'[..i] == log;
      }
    }
  }

  lemma ReportKeepsInv(s: State, e: Step)
    requires Inv(s) && Enabled(s, e) && e.Report?
    ensures Inv(Next(s, e))
  {
    var s', p := Next(s, e), s.threads[e.t];
    StillClaimed(s, e.t, s'.threads[e.t]);
    assert Exclusive(s');
    assert forall id :: s'.Rec(id) == s.Rec(id);
    if p.ok && p.needAck {
      PassRunsOutstanding(s.order, p.outcome, p.start);
      LogGrows(s.order, s.log, Acked(p.id));
    }
  }

  lemma LeaveKeepsInv(s: State, e: Step)
    requires Inv(s) && Enabled(s, e) && e.Leave?
    ensures Inv(Next(s, e))
  {
    var s', p := Next(s, e), s.threads[e.t];
    assert forall id :: s'.Rec(id) == s.Rec(id);
    forall id | id in s'.pending
      ensures exists t :: t in s'.threads && !s'.threads[t].Idle? && s'.threads[t].id == id
    {
      var t :| t in s.threads && !s.threads[t].Idle? && s.threads[t].id == id;
      assert s'.threads[t] == s.threads[t];
    }
  }

  lemma {:induction false} RunKeepsInv(s: State, steps: seq<Step>)
    requires Inv(s) && IsRun(s, steps)
    ensures Inv(Final(s, steps)) && Final(s, steps).order == s.order
    decreases |steps|
  {
    if steps != [] {
      var e := steps[0];
      match e {
        case Begin(_, _, _) => BeginKeepsInv(s, e);
        case Look(_) => LookKeepsInv(s, e);
        case Finish(_, _) => FinishKeepsInv(s, e);
        case Report(_) => ReportKeepsInv(s, e);
        case Leave(_) => LeaveKeepsInv(s, e);
      }
      RunKeepsInv(Next(s, e), steps[1..]);
    }
  }

  /** In every interleaving of any number of threads over a fixed registration
      of distinct names: one thread at a time works on an id, no handler
      succeeds twice for an id, and every acknowledgement follows the success
      of every handler. */
  lemma EveryInterleaving(s: State, steps: seq<Step>)
    requires Init(s) && IsRun(s, steps)
    ensures Exclusive(Final(s, steps))
    ensures SuccessOnce(Final(s, steps).log)
    ensures AckAfterAll(s.order, Final(s, steps).log)
  {
    RunKeepsInv(s, steps);
  }

  // ---- Acknowledgements, told by the steps of the run ----

  /** What the last Begin of a thread asked for. */
  ghost function Begun(steps: seq<Step>, t: Tid): Option<(string, bool)> {
    if steps == [] then None
    else
      var last := steps[|steps| - 1];
      if last.Begin? && last.t == t then Some((last.id, last.needAck)) else Begun(steps[..|steps| - 1], t)
  }

  /** The task of this thread began with this id and asked for an acknowledgement,
      and the log holds a success of every registered handler for the id. */
  ghost predicate Due(order: seq<string>, log: seq<Event>, steps: seq<Step>, t: Tid, id: string) {
    Begun(steps, t) == Some((id, true)) && forall h :: h in order ==> Succeeded(id, h) in log
  }

  /** How many Report steps of a run are those of such tasks. */
  ghost function DueReports(s: State, steps: seq<Step>, id: string): nat
    requires IsRun(s, steps)
    decreases |steps|
  {
    if steps == [] then 0
    else
      var front, last := steps[..|steps| - 1], steps[|steps| - 1];
      RunFront(s, steps);
      DueReports(s, front, id)
      + if last.Report? && Due(s.order, Final(s, front).log, front, last.t, id) then 1 else 0
  }

  ghost function Acks(log: seq<Event>, id: string): nat {
    if log == [] then 0 else Acks(log[..|log| - 1], id) + if log[|log| - 1] == Acked(id) then 1 else 0
  }

  lemma AcksAppend(log: seq<Event>, e: Event, id: string)
    ensures Acks(log + [e], id) == Acks(log, id) + if e == Acked(id) then 1 else 0
  {
    assert (log + [e])[..|log|] == log;
  }

  lemma {:induction false} RunFront(s: State, steps: seq<Step>)
    requires IsRun(s, steps) && steps != []
    ensures IsRun(s, steps[..|steps| - 1])
    ensures Enabled(Final(s, steps[..|steps| - 1]), steps[|steps| - 1])
    ensures Final(s, steps) == Next(Final(s, steps[..|steps| - 1]), steps[|steps| - 1])
    decreases |steps|
  {
    var front := steps[..|steps| - 1];
    if |steps| > 1 {
      RunFront(Next(s, steps[0]), steps[1..]);
      assert front[1..] == steps[1..][..|steps| - 2];
    }
  }

  /** A thread at work remembers what it began with, and only registered handlers have records. */
  ghost predicate Remembers(f: State, steps: seq<Step>) {
    && (forall t :: t in f.threads && !f.threads[t].Idle? && !f.threads[t].Leaving? ==>
          Begun(steps, t) == Some((f.threads[t].id, f.threads[t].needAck)))
    && (forall id, h :: h in f.Rec(id) ==> h in f.order)
  }

  lemma BegunStep(steps: seq<Step>, e: Step, t: Tid)
    ensures Begun(steps + [e], t) == if e.Begin? && e.t == t then Some((e.id, e.needAck)) else Begun(steps, t)
  {
    assert (steps + [e])[..|steps|] == steps;
  }

  lemma RemembersStep(f: State, steps: seq<Step>, e: Step)
    requires Remembers(f, steps) && Enabled(f, e)
    ensures Remembers(Next(f, e), steps + [e])
  {
    var f' := Next(f, e);
    forall t | t in f'.threads && !f'.threads[t].Idle? && !f'.threads[t].Leaving?
      ensures Begun(steps + [e], t) == Some((f'.threads[t].id, f'.threads[t].needAck))
    {
      BegunStep(steps, e, t);
    }
    forall id, h | h in f'.Rec(id)
      ensures h in f'.order
    {
      assert h in f.Rec(id) || (e.Finish? && h == f.order[f.threads[e.t].k]);
    }
  }

  lemma {:induction false} RunRemembers(s: State, steps: seq<Step>)
    requires Init(s) && IsRun(s, steps)
    ensures Remembers(Final(s, steps), steps)
    decreases |steps|
  {
    if steps != [] {
      var front, last := steps[..|steps| - 1], steps[|steps| - 1];
      RunFront(s, steps);
      RunRemembers(s, front);
      RemembersStep(Final(s, front), front, last);
      assert steps == front + [last];
    }
  }

  /** A pass is good exactly when every registered handler has succeeded. */
  lemma OkMeansAllLogged(f: State, t: Tid)
    requires Inv(f) && t in f.threads && f.threads[t].Judged?
    requires forall id, h :: h in f.Rec(id) ==> h in f.order
    ensures f.threads[t].ok <==> forall h :: h in f.order ==> Succeeded(f.threads[t].id, h) in f.log
  {
    var p := f.threads[t];
    var rec := f.Rec(p.id);
    assert PhaseOk(f.order, rec, p);
    PassRunsOutstanding(f.order, p.outcome, p.start);
    forall h | h in f.order
      ensures rec[h] == UBSE_OK <==> Succeeded(p.id, h) in f.log
    {
      assert Done(rec, h) <==> Succeeded(p.id, h) in f.log;
    }
  }

  lemma AcksStep(f: State, steps: seq<Step>, e: Step, id: string)
    requires Inv(f) && Remembers(f, steps) && Enabled(f, e)
    ensures Acks(Next(f, e).log, id)
         == Acks(f.log, id) + if e.Report? && Due(f.order, f.log, steps, e.t, id) then 1 else 0
  {
    var f' := Next(f, e);
    if |f'.log| > |f.log| {
      AcksAppend(f.log, f'.log[|f.log|], id);
    }
    if e.Report? {
      OkMeansAllLogged(f, e.t);
    }
  }

  /** In every interleaving the acknowledgements logged for an id are as many as
      the Report steps of tasks that began with it, asked for one, and had by then
      a success of every registered handler in the log. */
  lemma {:induction false} AcksTellRun(s: State, steps: seq<Step>, id: string)
    requires Init(s) && IsRun(s, steps)
    ensures Acks(Final(s, steps).log, id) == DueReports(s, steps, id)
    decreases |steps|
  {
    if steps != [] {
      var front, last := steps[..|steps| - 1], steps[|steps| - 1];
      RunFront(s, steps);
      AcksTellRun(s, front, id);
      RunKeepsInv(s, front);
      RunRemembers(s, front);
      AcksStep(Final(s, front), front, last, id);
    }
  }

  lemma {:induction false} BegunIsAStep(steps: seq<Step>, t: Tid)
    ensures Begun(steps, t).Some? ==> Begin(t, Begun(steps, t).value.0, Begun(steps, t).value.1) in steps
  {
    if steps != [] {
      var front, last := steps[..|steps| - 1], steps[|steps| - 1];
      assert steps == front + [last];
      BegunIsAStep(front, t);
    }
  }

  /** Without a task that asks for an acknowledgement of the id there is none. */
  lemma {:induction false} NoRequestNoAck(s: State, steps: seq<Step>, id: string)
    requires Init(s) && IsRun(s, steps)
    requires forall e :: e in steps && e.Begin? ==> e.id != id || !e.needAck
    ensures Acks(Final(s, steps).log, id) == 0 && Acked(id) !in Final(s, steps).log
    decreases |steps|
  {
    AcksTellRun(s, steps, id);
    AcksCount(Final(s, steps).log, id);
    if steps != [] {
      var front, last := steps[..|steps| - 1], steps[|steps| - 1];
      assert steps == front + [last];
      RunFront(s, steps);
      NoRequestNoAck(s, front, id);
      AcksTellRun(s, front, id);
      BegunIsAStep(front, last.t);
    }
  }

  lemma {:induction false} AcksCount(log: seq<Event>, id: string)
    ensures Acks(log, id) > 0 <==> Acked(id) in log
  {
    if log != [] {
      var front, last := log[..|log| - 1], log[|log| - 1];
      assert log == front + [last];
      AcksCount(front, id);
    }
  }

  /** However the threads interleave, a task whose pass is over has done to its
      id exactly what one uninterrupted pass over all the handlers does; it takes
      the pass as good exactly when that leaves only successes on record, which
      is when every registered handler has succeeded for the id by now. Which
      tasks then acknowledge is told by `AcksTellRun`. */
  lemma TaskIsOnePass(s: State, steps: seq<Step>, t: Tid)
    requires Init(s) && IsRun(s, steps)
    requires t in Final(s, steps).threads && Final(s, steps).threads[t].Judged?
    ensures
      var f := Final(s, steps);
      var p := f.threads[t];
      && Begun(steps, t) == Some((p.id, p.needAck))
      && |p.outcome| == |s.order|
      && f.Rec(p.id) == Pass(s.order, p.outcome, p.start).0
      && (p.ok <==> AllOk(f.Rec(p.id)))
      && (p.ok <==> forall h :: h in s.order ==> Succeeded(p.id, h) in f.log)
  {
    RunKeepsInv(s, steps);
    RunRemembers(s, steps);
    OkMeansAllLogged(Final(s, steps), t);
  }
}

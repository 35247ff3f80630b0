/**
 Borrowing by address. Importing an address list takes two resources per entry,
 a memid from the kernel and a remote NUMA id from a local pool, and the two
 must be kept in step on every way out.
 */
module AddrBorrow {
  import opened ObmmKernel
  import opened ObmmBatch
  import opened Options

  const MIN_ADDR_REMOTE_NUMA_ID := 34
  const MAX_ADDR_REMOTE_NUMA_ID := 256

  datatype ImportResult = ImportResult(memId: MemId, numaId: int)

  function MemIds(results: seq<ImportResult>): set<MemId> {
    set r | r in results :: r.memId
  }

  function NumaIds(results: seq<ImportResult>): set<int> {
    set r | r in results :: r.numaId
  }

  /** The least id of the pool that is not reserved. */
  ghost predicate LeastFree(reserved: set<int>, id: int) {
    && MIN_ADDR_REMOTE_NUMA_ID <= id < MAX_ADDR_REMOTE_NUMA_ID
    && id !in reserved
    && forall i :: MIN_ADDR_REMOTE_NUMA_ID <= i < id ==> i in reserved
  }

  ghost predicate Exhausted(reserved: set<int>) {
    forall i :: MIN_ADDR_REMOTE_NUMA_ID <= i < MAX_ADDR_REMOTE_NUMA_ID ==> i in reserved
  }

  /** The pool of remote NUMA ids. */
  class NumaPool {
    var reserved: set<int>

    constructor ()
      ensures reserved == {}
    {
      reserved := {};
    }

    method Add(id: int)
      modifies this
      ensures reserved == old(reserved) + {id}
    {
      reserved := reserved + {id};
    }

    method Delete(id: int)
      modifies this
      ensures reserved == old(reserved) - {id}
    {
      reserved := reserved - {id};
    }

    /** GenerateAddrRemoteNuma: fails only when every id of the pool is reserved. */
    method Generate() returns (ret: nat, id: int)
      modifies this
      ensures ret == UBSE_OK <==> !Exhausted(old(reserved))
      ensures ret == UBSE_OK ==> LeastFree(old(reserved), id) && reserved == old(reserved) + {id}
      ensures ret != UBSE_OK ==> id == INVALID_NUMAID && reserved == old(reserved)
      ensures ret == UBSE_OK ==> 34 <= id < 256 && id !in old(reserved) && forall i :: 34 <= i < id ==> i in old(reserved)
      ensures ret != UBSE_OK ==> forall i :: 34 <= i < 256 ==> i in old(reserved)
    {
      for i := MIN_ADDR_REMOTE_NUMA_ID to MAX_ADDR_REMOTE_NUMA_ID
        invariant reserved == old(reserved)
        invariant forall k :: MIN_ADDR_REMOTE_NUMA_ID <= k < i ==> k in reserved
      {
        if i !in reserved {
          reserved := reserved + {i};
          return UBSE_OK, i;
        }
      }
      return OBMM_OP_FAILED, INVALID_NUMAID;
    }
  }

  class AddrImportObj {
    const name: string
    const exports: seq<MemId>         // exportObmmInfo
    const addrCount: nat              // exportAddrList.size()
    var importResults: seq<ImportResult>
    var errCode: nat

    constructor (name: string, exports: seq<MemId>, addrCount: nat)
      ensures this.name == name && this.exports == exports && this.addrCount == addrCount
      ensures importResults == []
    {
      this.name, this.exports, this.addrCount := name, exports, addrCount;
      importResults, errCode := [], UBSE_OK;
    }
  }

  function Ids(results: seq<ImportResult>): (ids: seq<MemId>)
    ensures |ids| == |results|
  {
    seq(|results|, i requires 0 <= i < |results| => results[i].memId)
  }

  function Numas(results: seq<ImportResult>): (ids: seq<int>)
    ensures |ids| == |results|
  {
    seq(|results|, i requires 0 <= i < |results| => results[i].numaId)
  }

  lemma IdsAreMemIds(results: seq<ImportResult>)
    ensures IdSet(Ids(results)) == MemIds(results)
    ensures (set n | n in Numas(results)) == NumaIds(results)
  {
    forall r | r in results
      ensures r.memId in Ids(results) && r.numaId in Numas(results)
    {
      var i :| 0 <= i < |results| && results[i] == r;
      assert Ids(results)[i] == r.memId && Numas(results)[i] == r.numaId;
    }
  }

  /** The metadata an address import writes. */
  function AddrMeta(name: string, count: nat): Meta {
    Meta(true, Addr, name, count % U16, INVALID_MEM_ID, [])
  }

  /** Live memids and reserved ids are the old ones plus those of `added`. */
  ghost predicate InStep(added: seq<ImportResult>, before: map<MemId, Meta>, now: map<MemId, Meta>,
                         reserved: set<int>, reserved': set<int>) {
    && DistinctIds(Ids(added))
    && GrownBy(before, now, MemIds(added))
    && reserved' == reserved + NumaIds(added)
  }

  lemma InStepAppend(added: seq<ImportResult>, before: map<MemId, Meta>, now: map<MemId, Meta>,
                     reserved: set<int>, reserved': set<int>, meta: Meta, r: ImportResult)
    requires InStep(added, before, now, reserved, reserved') && r.memId !in now
    ensures InStep(added + [r], before, now[r.memId := meta], reserved, reserved' + {r.numaId})
    ensures Ids(added + [r]) == Ids(added) + [r.memId] && Numas(added + [r]) == Numas(added) + [r.numaId]
  {
    assert Ids(added + [r]) == Ids(added) + [r.memId];
    FreedAppend(added, r);
  }

  lemma FreedAppend(freed: seq<ImportResult>, r: ImportResult)
    ensures MemIds(freed + [r]) == MemIds(freed) + {r.memId}
    ensures NumaIds(freed + [r]) == NumaIds(freed) + {r.numaId}
  {
  }

  /** The results whose memid an unimport on behalf of `name` is aimed at. */
  ghost function Reached(results: seq<ImportResult>, live: map<MemId, Meta>, unreadable: set<MemId>, name: string):
    seq<ImportResult>
  {
    if results == [] then []
    else
      var r := results[|results| - 1];
      Reached(results[..|results| - 1], live, unreadable, name)
      + if Spared(live, unreadable, r.memId, Addr, name) then [] else [r]
  }

  lemma {:induction false} ReachedAll(results: seq<ImportResult>, live: map<MemId, Meta>, unreadable: set<MemId>, name: string)
    requires forall r :: r in results && r.memId in live ==> Own(live[r.memId], Addr, name)
    ensures Reached(results, live, unreadable, name) == results
  {
    if results != [] {
      ReachedAll(results[..|results| - 1], live, unreadable, name);
      assert results == results[..|results| - 1] + [results[|results| - 1]];
    }
  }

  lemma OwnReached(results: seq<ImportResult>, live: map<MemId, Meta>, unreadable: set<MemId>, name: string, count: nat)
    requires AllMarked(results, live, AddrMeta(name, count))
    ensures Reached(results, live, unreadable, name) == results
  {
    ReachedAll(results, live, unreadable, name);
  }

  lemma {:induction false} ReachedNotSpared(results: seq<ImportResult>, live: map<MemId, Meta>, unreadable: set<MemId>,
                                            name: string, id: MemId)
    requires id in MemIds(Reached(results, live, unreadable, name))
    ensures !Spared(live, unreadable, id, Addr, name)
  {
    var last := |results| - 1;
    var rest := Reached(results[..last], live, unreadable, name);
    if id in MemIds(rest) {
      ReachedNotSpared(results[..last], live, unreadable, name, id);
    } else {
      var r :| r in Reached(results, live, unreadable, name) && r.memId == id;
      assert r == results[last];
    }
  }

  lemma {:induction false} ReachedMembers(results: seq<ImportResult>, live: map<MemId, Meta>, unreadable: set<MemId>,
                                          name: string, r: ImportResult)
    ensures r in Reached(results, live, unreadable, name)
       <==> r in results && !Spared(live, unreadable, r.memId, Addr, name)
  {
    if results != [] {
      var last := |results| - 1;
      ReachedMembers(results[..last], live, unreadable, name, r);
      assert results == results[..last] + [results[last]];
    }
  }

  /** Which live memids go: those listed so far whose metadata cannot be read or
      name an address borrow of this name. */
  lemma FreedAre(results: seq<ImportResult>, done: nat, live: map<MemId, Meta>, unreadable: set<MemId>, name: string)
    requires done <= |results|
    ensures forall id :: id in live ==>
      (id in MemIds(Reached(results[..done], live, unreadable, name)) <==>
         && (exists i :: 0 <= i < done && results[i].memId == id)
         && (id in unreadable || (live[id].borrowType.Addr? && live[id].name == name)))
  {
    var reached := Reached(results[..done], live, unreadable, name);
    forall r: ImportResult
      ensures r in reached <==> r in results[..done] && !Spared(live, unreadable, r.memId, Addr, name)
    {
      ReachedMembers(results[..done], live, unreadable, name, r);
    }
    forall id | id in live
      ensures id in MemIds(reached) <==>
        && (exists i :: 0 <= i < done && results[i].memId == id)
        && (id in unreadable || (live[id].borrowType.Addr? && live[id].name == name))
    {
      if i :| 0 <= i < done && results[i].memId == id {
        assert results[..done][i] in results[..done];
      }
    }
  }

  /** The NUMA ids of the results that an unimport reaches and finds live. */
  ghost function LiveNumas(results: seq<ImportResult>, live: map<MemId, Meta>, unreadable: set<MemId>, name: string): set<int> {
    set r | r in Reached(results, live, unreadable, name) && r.memId in live :: r.numaId
  }

  /** A listed memid was gone already, and its NUMA id is reserved although no listed
      memid that goes now has it: the id was given back and reserved again since. */
  ghost predicate TakenSince(results: seq<ImportResult>, live: map<MemId, Meta>, unreadable: set<MemId>, name: string,
                             reserved: set<int>)
  {
    exists r :: r in results && r.memId !in live && r.numaId in reserved && r.numaId !in LiveNumas(results, live, unreadable, name)
  }

  /** An unimport takes out the NUMA ids of memids that were gone already, too. It
      takes out just those of the memids it frees if and only if none of the other
      ids has been reserved again since. */
  lemma AgainInStep(results: seq<ImportResult>, live: map<MemId, Meta>, unreadable: set<MemId>, name: string, reserved: set<int>)
    ensures reserved - NumaIds(Reached(results, live, unreadable, name)) == reserved - LiveNumas(results, live, unreadable, name)
       <==> !TakenSince(results, live, unreadable, name, reserved)
  {
    var all, alive := NumaIds(Reached(results, live, unreadable, name)), LiveNumas(results, live, unreadable, name);
    forall r: ImportResult
      ensures r in Reached(results, live, unreadable, name)
         <==> r in results && !Spared(live, unreadable, r.memId, Addr, name)
    {
      ReachedMembers(results, live, unreadable, name, r);
    }
    if r :| r in results && r.memId !in live && r.numaId in reserved && r.numaId !in alive {
      assert r.numaId in all && r.numaId in reserved - alive && r.numaId !in reserved - all;
    } else {
      forall x
        ensures x in reserved - all <==> x in reserved - alive
      {
      }
    }
  }

  /** One entry further; what has gone already does not change whether an entry is spared. */
  lemma ReachedStep(results: seq<ImportResult>, i: nat, before: map<MemId, Meta>, now: map<MemId, Meta>,
                    unreadable: set<MemId>, name: string)
    requires i < |results| && now == before - MemIds(Reached(results[..i], before, unreadable, name))
    ensures
      var freed, r := Reached(results[..i], before, unreadable, name), results[i];
      var freed' := Reached(results[..i + 1], before, unreadable, name);
      if Spared(now, unreadable, r.memId, Addr, name) then freed' == freed
      else MemIds(freed') == MemIds(freed) + {r.memId} && NumaIds(freed') == NumaIds(freed) + {r.numaId}
  {
    var freed, r := Reached(results[..i], before, unreadable, name), results[i];
    assert results[..i + 1][..i] == results[..i];
    FreedAppend(freed, r);
    assert freed + [] == freed;
    if r.memId in MemIds(freed) {
      ReachedNotSpared(results[..i], before, unreadable, name, r.memId);
    }
  }

  // ---- What the kernel's answers to one call amount to ----

  ghost function AnswersSince(before: seq<Answer>, now: seq<Answer>): seq<Answer>
    requires before <= now
  {
    now[|before|..]
  }

  /** Each answer granted one of these results its NUMA id. */
  ghost predicate AllTaken(answers: seq<Answer>, added: seq<ImportResult>) {
    && |answers| == |added|
    && forall i :: 0 <= i < |added| ==> added[i].numaId != INVALID_NUMAID && answers[i] == Granted(added[i].numaId)
  }

  /** The last answer makes the call give everything back. */
  ghost predicate Failed(answers: seq<Answer>) {
    answers != [] && (answers[|answers| - 1].Refused? || answers[|answers| - 1] == Granted(INVALID_NUMAID))
  }

  /** The NUMA ids granted, in order. */
  ghost function GrantedIds(answers: seq<Answer>): seq<int> {
    if answers == [] then []
    else
      var last := answers[|answers| - 1];
      GrantedIds(answers[..|answers| - 1])
      + if last.Granted? && last.numaId != INVALID_NUMAID then [last.numaId] else []
  }

  ghost function Given(answers: seq<Answer>): set<int> {
    set n | n in GrantedIds(answers)
  }

  /** The pool after a call that met with these answers. */
  ghost function PoolOnExit(reserved: set<int>, answers: seq<Answer>): set<int> {
    if Failed(answers) then reserved - Given(answers) else reserved + Given(answers)
  }

  lemma {:induction false} TakenIds(answers: seq<Answer>, added: seq<ImportResult>)
    requires AllTaken(answers, added)
    ensures GrantedIds(answers) == Numas(added) && Given(answers) == NumaIds(added) && !Failed(answers)
  {
    if added != [] {
      TakenIds(answers[..|answers| - 1], added[..|added| - 1]);
      assert Numas(added) == Numas(added[..|added| - 1]) + [added[|added| - 1].numaId];
    }
    IdsAreMemIds(added);
  }

  lemma LastFails(answers: seq<Answer>, added: seq<ImportResult>, last: Answer, reserved: set<int>)
    requires AllTaken(answers, added) && (last.Refused? || last == Granted(INVALID_NUMAID))
    ensures Failed(answers + [last]) && Given(answers + [last]) == NumaIds(added)
    ensures PoolOnExit(reserved, answers + [last]) == reserved - NumaIds(added)
  {
    TakenIds(answers, added);
    assert (answers + [last])[..|answers|] == answers;
  }

  /** A call that gives everything back leaves the pool as it was exactly when the
      kernel had granted it no id that was already reserved. */
  lemma RollbackKeepsPool(reserved: set<int>, answers: seq<Answer>)
    requires Failed(answers)
    ensures PoolOnExit(reserved, answers) == reserved
       <==> forall n :: Granted(n) in answers && n != -1 ==> n !in reserved
  {
    GrantedMembers(answers);
    var given := Given(answers);
    if forall n :: n in given ==> n !in reserved {
      assert reserved - given == reserved;
    } else {
      var n :| n in given && n in reserved;
      assert Granted(n) in answers && n !in reserved - given;
    }
  }

  lemma {:induction false} GrantedMembers(answers: seq<Answer>)
    ensures forall n :: n in Given(answers) <==> n != INVALID_NUMAID && Granted(n) in answers
  {
    if answers != [] {
      var front, last := answers[..|answers| - 1], answers[|answers| - 1];
      assert answers == front + [last];
      GrantedMembers(front);
    }
  }

  /** It is not always so: the first entry is granted an id that another borrow
      holds, the second entry is refused, and the other borrow's id is out of the pool. */
  lemma RollbackLosesReserved()
    ensures PoolOnExit({34, 40}, [Granted(40), Refused]) == {34}
  {
    var answers := [Granted(40), Refused];
    assert answers[..1] == [Granted(40)] && [Granted(40)][..0] == [];
    assert GrantedIds([Granted(40)]) == [] + [40] == [40];
    assert GrantedIds(answers) == [40] + [] == [40];
  }

  /** The memids of these results are live with this metadata. */
  ghost predicate AllMarked(added: seq<ImportResult>, live: map<MemId, Meta>, meta: Meta) {
    forall r :: r in added ==> r.memId in live && live[r.memId] == meta
  }

  /** The memids of these results are live and say that they are address imports of
      this borrow, and how many of them there are. */
  ghost predicate SaysOf(added: seq<ImportResult>, live: map<MemId, Meta>, name: string, count: nat) {
    forall r :: r in added ==>
      && r.memId in live && live[r.memId].isImport && live[r.memId].borrowType.Addr?
      && live[r.memId].name == name && live[r.memId].memidCount == count
  }

  lemma MarkedSays(added: seq<ImportResult>, live: map<MemId, Meta>, name: string, count: nat)
    requires AllMarked(added, live, AddrMeta(name, count))
    ensures SaysOf(added, live, name, count % 65536)
  {
  }

  /** All answers so far were taken, and what they granted is all that is new. */
  ghost predicate SoFar(answers: seq<Answer>, added: seq<ImportResult>, meta: Meta,
                        start: map<MemId, Meta>, live: map<MemId, Meta>, reserved: set<int>, reserved': set<int>)
  {
    && AllTaken(answers, added) && !Failed(answers)
    && InStep(added, start, live, reserved, reserved')
    && AllMarked(added, live, meta)
  }

  lemma MarkedStep(added: seq<ImportResult>, live: map<MemId, Meta>, r: ImportResult, meta: Meta)
    requires AllMarked(added, live, meta) && r.memId !in live
    ensures AllMarked(added + [r], live[r.memId := meta], meta)
  {
  }

  lemma TakenStep(answers: seq<Answer>, added: seq<ImportResult>, r: ImportResult)
    requires AllTaken(answers, added) && r.numaId != INVALID_NUMAID
    ensures AllTaken(answers + [Granted(r.numaId)], added + [r]) && !Failed(answers + [Granted(r.numaId)])
  {
  }

  /** What was added and has all gone again. */
  lemma GrownThenGone(before: map<MemId, Meta>, mid: map<MemId, Meta>, results: seq<ImportResult>,
                      reserved: set<int>, reserved': set<int>)
    requires InStep(results, before, mid, reserved, reserved')
    ensures mid - MemIds(results) == before
    ensures reserved' - NumaIds(results) == reserved - NumaIds(results)
    ensures reserved' - NumaIds(results) == reserved <==> NumaIds(results) !! reserved
  {
    assert (mid - MemIds(results)).Keys == before.Keys;
  }

  /** What a call starts from. */
  datatype Snapshot = Snapshot(results: seq<ImportResult>, live: map<MemId, Meta>, fails: seq<MemId>,
                               answers: seq<Answer>, reserved: set<int>)

  datatype EntryExit = Taken(r: ImportResult) | Stopped(ret: nat) | RolledBack(last: Answer)

  class AddrImporter {
    const kernel: Kernel
    const executor: Executor
    const pool: NumaPool

    ghost predicate Valid() {
      executor.kernel == kernel
    }

    constructor (kernel: Kernel, pool: NumaPool)
      ensures Valid() && this.kernel == kernel && this.pool == pool
    {
      this.kernel := kernel;
      this.pool := pool;
      executor := new Executor(kernel);
    }

    /** RollbackImport: every id is tried, failures are only logged. */
    method RollbackImport(ids: seq<MemId>)
      requires Valid()
      modifies kernel`live, kernel`undoFailures
      ensures old(kernel.undoFailures) <= kernel.undoFailures
      ensures Attempted(old(kernel.live), kernel.live, ids, Since(old(kernel.undoFailures), kernel.undoFailures))
    {
      ghost var fails: seq<MemId> := [];
      for i := 0 to |ids|
        invariant kernel.undoFailures == old(kernel.undoFailures) + fails
        invariant Attempted(old(kernel.live), kernel.live, ids[..i], fails)
      {
        assert ids[..i + 1] == ids[..i] + [ids[i]];
        var ret := executor.UndoNext(ids[i], old(kernel.live), ids[..i], fails);
        fails := fails + if ret == UBSE_OK then [] else [ids[i]];
      }
      assert ids[..|ids|] == ids;
    }

    method RollBackNuma(ids: seq<int>)
      modifies pool
      ensures pool.reserved == old(pool.reserved) - set n | n in ids
    {
      for i := 0 to |ids|
        invariant pool.reserved == old(pool.reserved) - set n | n in ids[..i]
      {
        assert ids[..i + 1] == ids[..i] + [ids[i]];
        pool.Delete(ids[i]);
      }
      assert ids[..|ids|] == ids;
    }

    /** The error path of the import: everything this call took is given back,
        apart from the memids that cannot be undone. A NUMA id is given back
        whether or not its memid was, and whoever had reserved it before. */
    method RollBack(obj: AddrImportObj, ids: seq<MemId>, numas: seq<int>,
                    ghost start: map<MemId, Meta>, ghost mid: map<MemId, Meta>, ghost fails: seq<MemId>)
      requires Valid() && DistinctIds(ids) && GrownBy(start, mid, IdSet(ids)) && fails <= kernel.undoFailures
      requires GrownBy(mid, kernel.live, IdSet(Since(fails, kernel.undoFailures)))
      modifies obj, kernel`live, kernel`undoFailures, pool
      ensures obj.importResults == [] && obj.errCode == OBMM_OP_FAILED
      ensures pool.reserved == old(pool.reserved) - set n | n in numas
      ensures fails <= kernel.undoFailures
      ensures GrownBy(start, kernel.live, IdSet(Since(fails, kernel.undoFailures)))
    {
      ghost var end, fails1 := kernel.live, kernel.undoFailures;
      RollbackImport(ids);
      AttemptedOnce(end, kernel.live, ids, Since(fails1, kernel.undoFailures));
      SinceConcat(fails, fails1, kernel.undoFailures);
      AfterRollback(start, mid, end, IdSet(ids), IdSet(Since(fails, fails1)), IdSet(Since(fails1, kernel.undoFailures)));
      RollBackNuma(numas);
      obj.errCode := OBMM_OP_FAILED;
      obj.importResults := [];
    }

    /** The kernel may hand out another NUMA id than the one set aside for it. */
    method Settle(setAside: int, actual: int)
      modifies pool
      ensures setAside in old(pool.reserved) ==> pool.reserved == old(pool.reserved) - {setAside} + {actual}
    {
      if actual != setAside {
        pool.Delete(setAside);
        pool.Add(actual);
      }
    }

    /** One entry of the import: it is taken, the call stops with what it has, or
        everything is rolled back. */
    method ImportEntry(obj: AddrImportObj, memIds: seq<MemId>, numaIds: seq<int>, ghost added: seq<ImportResult>,
                       ghost start: map<MemId, Meta>, ghost reserved: set<int>)
      returns (exit: EntryExit)
      requires Valid() && memIds == Ids(added) && numaIds == Numas(added)
      requires InStep(added, start, kernel.live, reserved, pool.reserved)
      modifies obj, kernel`live, kernel`undoFailures, kernel`answers, pool
      ensures old(kernel.undoFailures) <= kernel.undoFailures
      ensures exit.Taken? ==>
        && obj.importResults == old(obj.importResults) + [exit.r]
        && InStep(added + [exit.r], start, kernel.live, reserved, pool.reserved)
        && memIds + [exit.r.memId] == Ids(added + [exit.r])
        && numaIds + [exit.r.numaId] == Numas(added + [exit.r])
        && exit.r.memId !in old(kernel.live)
        && kernel.live == old(kernel.live)[exit.r.memId := AddrMeta(obj.name, |obj.exports|)]
        && kernel.undoFailures == old(kernel.undoFailures)
        && exit.r.numaId != INVALID_NUMAID && kernel.answers == old(kernel.answers) + [Granted(exit.r.numaId)]
      ensures exit.Stopped? ==>
        && exit.ret != UBSE_OK && obj.importResults == old(obj.importResults)
        && kernel.live == old(kernel.live) && kernel.undoFailures == old(kernel.undoFailures)
        && pool.reserved == old(pool.reserved) && kernel.answers == old(kernel.answers)
      ensures exit.RolledBack? ==>
        && obj.importResults == [] && obj.errCode == OBMM_OP_FAILED
        && (exit.last == Refused || exit.last == Granted(INVALID_NUMAID))
        && kernel.answers == old(kernel.answers) + [exit.last]
        && GrownBy(start, kernel.live, IdSet(Since(old(kernel.undoFailures), kernel.undoFailures)))
        && pool.reserved == reserved - NumaIds(added)
    {
      var metaRet: nat := *;
      if metaRet != UBSE_OK {
        obj.errCode := metaRet;
        return Stopped(metaRet);
      }
      var ret, numa := pool.Generate();
      if ret != UBSE_OK {
        return Stopped(ret);
      }
      ghost var mid := kernel.live;
      IdsAreMemIds(added);
      var id, written := executor.ImportOne(AddrMeta(obj.name, |obj.exports|), Some(numa));
      if id == INVALID_MEM_ID {
        RollBack(obj, memIds, numaIds + [numa], start, mid, old(kernel.undoFailures));
        return RolledBack(Refused);
      }
      exit := Accept(obj, memIds, numaIds, added, start, mid, reserved, numa, ImportResult(id, written.value));
    }

    /** What becomes of a memid the kernel has granted. */
    method Accept(obj: AddrImportObj, memIds: seq<MemId>, numaIds: seq<int>, ghost added: seq<ImportResult>,
                  ghost start: map<MemId, Meta>, ghost mid: map<MemId, Meta>, ghost reserved: set<int>,
                  numa: int, r: ImportResult)
      returns (exit: EntryExit)
      requires Valid() && memIds == Ids(added) && numaIds == Numas(added) && r.memId !in mid
      requires r.memId in kernel.live && kernel.live == mid[r.memId := kernel.live[r.memId]]
      requires numa in pool.reserved && numa !in reserved + NumaIds(added)
      requires InStep(added, start, mid, reserved, pool.reserved - {numa})
      modifies obj, kernel`live, kernel`undoFailures, pool
      ensures old(kernel.undoFailures) <= kernel.undoFailures
      ensures exit == if r.numaId == INVALID_NUMAID then RolledBack(Granted(r.numaId)) else Taken(r)
      ensures exit.Taken? ==>
        && obj.importResults == old(obj.importResults) + [r]
        && InStep(added + [r], start, kernel.live, reserved, pool.reserved)
        && memIds + [r.memId] == Ids(added + [r]) && numaIds + [r.numaId] == Numas(added + [r])
        && kernel.live == old(kernel.live) && kernel.undoFailures == old(kernel.undoFailures)
      ensures exit.RolledBack? ==>
        && obj.importResults == [] && obj.errCode == OBMM_OP_FAILED
        && GrownBy(start, kernel.live, IdSet(Since(old(kernel.undoFailures), kernel.undoFailures)))
        && pool.reserved == reserved - NumaIds(added)
    {
      InStepAppend(added, start, mid, reserved, pool.reserved - {numa}, kernel.live[r.memId], r);
      if r.numaId == INVALID_NUMAID {
        IdsAreMemIds(added);
        IdsAreMemIds(added + [r]);
        assert pool.reserved == reserved + NumaIds(added) + {numa};
        assert (set n | n in numaIds + [numa]) == (set n | n in numaIds) + {numa};
        RollBack(obj, memIds + [r.memId], numaIds + [numa], start, kernel.live, old(kernel.undoFailures));
        return RolledBack(Granted(INVALID_NUMAID));
      }
      Settle(numa, r.numaId);
      obj.importResults := obj.importResults + [r];
      return Taken(r);
    }

    /** Whatever the kernel answers, at every exit the pool is what the answers
        make of it. Unless the last answer failed, memids and NUMA ids taken are
        exactly those of the results added, also when the call stops half way
        with an error. If it failed there are no results and what is still live
        in excess could not be undone. */
    method Import(obj: AddrImportObj) returns (ret: nat)
      requires Valid()
      modifies obj, kernel`live, kernel`undoFailures, kernel`answers, pool
      ensures old(kernel.undoFailures) <= kernel.undoFailures && old(kernel.answers) <= kernel.answers
      ensures pool.reserved == PoolOnExit(old(pool.reserved), AnswersSince(old(kernel.answers), kernel.answers))
      ensures !Failed(AnswersSince(old(kernel.answers), kernel.answers)) ==>
        && old(obj.importResults) <= obj.importResults
        && AllTaken(AnswersSince(old(kernel.answers), kernel.answers), obj.importResults[|old(obj.importResults)|..])
        && InStep(obj.importResults[|old(obj.importResults)|..],
                  old(kernel.live), kernel.live, old(pool.reserved), pool.reserved)
        && kernel.undoFailures == old(kernel.undoFailures)
      ensures Failed(AnswersSince(old(kernel.answers), kernel.answers)) ==>
        && ret == obj.errCode == 10700 && obj.importResults == []
        && GrownBy(old(kernel.live), kernel.live, IdSet(Since(old(kernel.undoFailures), kernel.undoFailures)))
      ensures ret == UBSE_OK <==>
        && |obj.exports| == obj.addrCount == |kernel.answers| - |old(kernel.answers)|
        && !Failed(AnswersSince(old(kernel.answers), kernel.answers))
      ensures ret == UBSE_OK ==>
        AllMarked(obj.importResults[|old(obj.importResults)|..], kernel.live, AddrMeta(obj.name, |obj.exports|))
      ensures |obj.exports| != obj.addrCount ==>
        && ret == 10003 && kernel.answers == old(kernel.answers)
        && kernel.live == old(kernel.live) && pool.reserved == old(pool.reserved)
      ensures ret == UBSE_OK ==>
        SaysOf(obj.importResults[|old(obj.importResults)|..], kernel.live, obj.name, |obj.exports| % 65536)
    {
      if |obj.exports| != obj.addrCount {
        return UBSE_ERROR_INVAL;
      }
      ghost var snap := Snapshot(obj.importResults, kernel.live, kernel.undoFailures, kernel.answers, pool.reserved);
      ghost var added, answers;
      var exit;
      exit, added, answers := ImportEntries(obj, snap);
      assert AnswersSince(old(kernel.answers), kernel.answers) == answers;
      if exit.Some? && exit.value.RolledBack? {
        return OBMM_OP_FAILED;
      }
      TakenIds(answers, added);
      assert obj.importResults[|old(obj.importResults)|..] == added;
      MarkedSays(added, kernel.live, obj.name, |obj.exports|);
      ret := if exit.Some? then exit.value.ret else UBSE_OK;
    }

    ghost predicate IsNow(obj: AddrImportObj, snap: Snapshot)
      reads obj, kernel, pool
    {
      snap == Snapshot(obj.importResults, kernel.live, kernel.undoFailures, kernel.answers, pool.reserved)
    }

    /** A call that began at `snap` has taken these results, with these answers, and nothing else. */
    ghost predicate Took(obj: AddrImportObj, memIds: seq<MemId>, numaIds: seq<int>, added: seq<ImportResult>,
                         answers: seq<Answer>, snap: Snapshot)
      reads obj, kernel, pool
    {
      && memIds == Ids(added) && numaIds == Numas(added) && |added| == |answers|
      && obj.importResults == snap.results + added
      && kernel.answers == snap.answers + answers && kernel.undoFailures == snap.fails
      && SoFar(answers, added, AddrMeta(obj.name, |obj.exports|), snap.live, kernel.live, snap.reserved, pool.reserved)
    }

    /** A call that began at `snap` has given everything back after these answers. */
    ghost predicate GaveBack(obj: AddrImportObj, answers: seq<Answer>, snap: Snapshot)
      reads obj, kernel, pool
    {
      && obj.importResults == [] && obj.errCode == OBMM_OP_FAILED
      && kernel.answers == snap.answers + answers && Failed(answers)
      && snap.fails <= kernel.undoFailures
      && GrownBy(snap.live, kernel.live, IdSet(Since(snap.fails, kernel.undoFailures)))
      && pool.reserved == PoolOnExit(snap.reserved, answers)
    }

    /** The loop over the entries, and how it was left if not at its end. */
    method ImportEntries(obj: AddrImportObj, ghost snap: Snapshot)
      returns (exit: Option<EntryExit>, ghost added: seq<ImportResult>, ghost answers: seq<Answer>)
      requires Valid() && IsNow(obj, snap)
      modifies obj, kernel`live, kernel`undoFailures, kernel`answers, pool
      ensures exit.None? ==> |answers| == |obj.exports|
      ensures exit.Some? ==> !exit.value.Taken?
      ensures exit.Some? && exit.value.Stopped? ==> |answers| < |obj.exports| && exit.value.ret != UBSE_OK
      ensures
        if exit.Some? && exit.value.RolledBack? then GaveBack(obj, answers, snap)
        else Took(obj, Ids(added), Numas(added), added, answers, snap)
    {
      var memIds: seq<MemId>, numaIds: seq<int> := [], [];
      added, answers := [], [];
      for i := 0 to |obj.exports|
        invariant |answers| == i && Took(obj, memIds, numaIds, added, answers, snap)
      {
        var next;
        next, memIds, numaIds, added, answers := ImportNext(obj, memIds, numaIds, added, answers, snap);
        if !next.Taken? {
          return Some(next), added, answers;
        }
      }
      exit := None;
    }

    /** One entry, after those in `added`. */
    method ImportNext(obj: AddrImportObj, memIds: seq<MemId>, numaIds: seq<int>,
                      ghost added: seq<ImportResult>, ghost answers: seq<Answer>, ghost snap: Snapshot)
      returns (exit: EntryExit, memIds': seq<MemId>, numaIds': seq<int>,
               ghost added': seq<ImportResult>, ghost answers': seq<Answer>)
      requires Valid() && Took(obj, memIds, numaIds, added, answers, snap)
      modifies obj, kernel`live, kernel`undoFailures, kernel`answers, pool
      ensures exit.Taken? ==> |answers'| == |answers| + 1
      ensures exit.Stopped? ==> exit.ret != UBSE_OK && answers' == answers
      ensures
        if exit.RolledBack? then GaveBack(obj, answers', snap)
        else Took(obj, memIds', numaIds', added', answers', snap)
    {
      memIds', numaIds', added', answers' := memIds, numaIds, added, answers;
      ghost var before, meta := kernel.live, AddrMeta(obj.name, |obj.exports|);
      exit := ImportEntry(obj, memIds, numaIds, added, snap.live, snap.reserved);
      match exit
      case Stopped(_) =>
      case RolledBack(last) =>
        LastFails(answers, added, last, snap.reserved);
        answers' := answers + [last];
      case Taken(r) =>
        MarkedStep(added, before, r, meta);
        TakenStep(answers, added, r);
        memIds', numaIds' := memIds + [r.memId], numaIds + [r.numaId];
        added', answers' := added + [r], answers + [Granted(r.numaId)];
    }

    /** One entry of an unimport. */
    method UnImportOne(r: ImportResult, name: string) returns (ret: nat)
      modifies kernel`live, kernel`undoFailures, pool
      ensures Spared(old(kernel.live), kernel.unreadable, r.memId, Addr, name) ==>
        && ret == UBSE_OK && kernel.live == old(kernel.live) && pool.reserved == old(pool.reserved)
      ensures !Spared(old(kernel.live), kernel.unreadable, r.memId, Addr, name) && ret == UBSE_OK ==>
        && kernel.live == old(kernel.live) - {r.memId} && pool.reserved == old(pool.reserved) - {r.numaId}
      ensures ret == UBSE_OK ==> kernel.undoFailures == old(kernel.undoFailures)
      ensures ret != UBSE_OK ==>
        && r.memId in kernel.live && kernel.live == old(kernel.live) && pool.reserved == old(pool.reserved)
        && kernel.undoFailures == old(kernel.undoFailures) + [r.memId]
    {
      var typeRead, typeMeta := kernel.ReadMeta(r.memId);
      if typeRead && typeMeta.borrowType != Addr {
        return UBSE_OK;
      }
      var nameRead, nameMeta := kernel.ReadMeta(r.memId);
      if nameRead && nameMeta.name != name {
        return UBSE_OK;
      }
      ret := kernel.Undo(r.memId);
      if ret == UBSE_OK {
        pool.Delete(r.numaId);
      }
    }

    /** Gives back what a list of results holds: a memid whose metadata can be
        read and name another borrow is left alone with its NUMA id, everything
        else goes, up to the first memid that cannot be undone. */
    method UnImport(obj: AddrImportObj) returns (ret: nat, ghost done: nat)
      modifies kernel`live, kernel`undoFailures, pool
      ensures done <= |obj.importResults|
      ensures
        var freed := Reached(obj.importResults[..done], old(kernel.live), kernel.unreadable, obj.name);
        && kernel.live == old(kernel.live) - MemIds(freed)
        && pool.reserved == old(pool.reserved) - NumaIds(freed)
      ensures ret == UBSE_OK ==> done == |obj.importResults| && kernel.undoFailures == old(kernel.undoFailures)
      ensures ret != UBSE_OK ==>
        && done < |obj.importResults| && obj.importResults[done].memId in kernel.live
        && kernel.undoFailures == old(kernel.undoFailures) + [obj.importResults[done].memId]
      ensures forall id :: id in old(kernel.live) ==>
        (id !in kernel.live <==>
           && (exists i :: 0 <= i < done && obj.importResults[i].memId == id)
           && (id in kernel.unreadable
               || (old(kernel.live)[id].borrowType.Addr? && old(kernel.live)[id].name == obj.name)))
    {
      ret, done := UBSE_OK, 0;
      ghost var live, reserved := kernel.live, pool.reserved;
      for i := 0 to |obj.importResults|
        invariant ret == UBSE_OK && done == i && kernel.undoFailures == old(kernel.undoFailures)
        invariant FreedSoFar(obj.importResults[..i], obj.name, live, reserved)
      {
        ret := UnImportNext(obj.importResults, i, obj.name, live, reserved);
        if ret != UBSE_OK {
          FreedAre(obj.importResults, done, live, kernel.unreadable, obj.name);
          return;
        }
        done := i + 1;
      }
      FreedAre(obj.importResults, done, live, kernel.unreadable, obj.name);
      assert obj.importResults[..done] == obj.importResults;
    }

    /** What these results held, as far as they are this borrow's, and nothing else is gone. */
    ghost predicate FreedSoFar(results: seq<ImportResult>, name: string, live: map<MemId, Meta>, reserved: set<int>)
      reads kernel, pool
    {
      var freed := Reached(results, live, kernel.unreadable, name);
      && kernel.live == live - MemIds(freed)
      && pool.reserved == reserved - NumaIds(freed)
    }

    /** The next entry, after the first i. */
    method UnImportNext(results: seq<ImportResult>, i: nat, name: string, ghost live: map<MemId, Meta>, ghost reserved: set<int>)
      returns (ret: nat)
      requires i < |results| && FreedSoFar(results[..i], name, live, reserved)
      modifies kernel`live, kernel`undoFailures, pool
      ensures ret == UBSE_OK ==>
        FreedSoFar(results[..i + 1], name, live, reserved) && kernel.undoFailures == old(kernel.undoFailures)
      ensures ret != UBSE_OK ==>
        && FreedSoFar(results[..i], name, live, reserved)
        && results[i].memId in kernel.live && kernel.undoFailures == old(kernel.undoFailures) + [results[i].memId]
    {
      ReachedStep(results, i, live, kernel.live, kernel.unreadable, name);
      ret := UnImportOne(results[i], name);
    }

    /** The same seen from the pool, for a list that may have been unimported in
        part before: it is taken down by the ids of the memids freed now if and
        only if no id given back before has been reserved again since. */
    method UnImportAgain(obj: AddrImportObj) returns (ret: nat, ghost done: nat)
      modifies kernel`live, kernel`undoFailures, pool
      ensures done <= |obj.importResults|
      ensures ret == UBSE_OK ==> done == |obj.importResults|
      ensures ret != UBSE_OK ==> done < |obj.importResults| && obj.importResults[done].memId in kernel.live
      ensures
        var tried := obj.importResults[..done];
        && kernel.live == old(kernel.live) - MemIds(Reached(tried, old(kernel.live), kernel.unreadable, obj.name))
        && (pool.reserved == old(pool.reserved) - LiveNumas(tried, old(kernel.live), kernel.unreadable, obj.name)
            <==> !TakenSince(tried, old(kernel.live), kernel.unreadable, obj.name, old(pool.reserved)))
    {
      ret, done := UnImport(obj);
      AgainInStep(obj.importResults[..done], old(kernel.live), kernel.unreadable, obj.name, old(pool.reserved));
    }

    /** An import followed by the unimport of its results, both successful,
        leaves the kernel as it was, and the pool too exactly when the kernel
        granted none of the results an id that was already reserved. */
    method ImportThenUnImport(name: string, exports: seq<MemId>) returns (ret: nat, results: seq<ImportResult>)
      requires Valid()
      modifies kernel`live, kernel`undoFailures, kernel`answers, pool
      ensures old(kernel.answers) <= kernel.answers
      ensures ret == UBSE_OK ==>
        && AllTaken(AnswersSince(old(kernel.answers), kernel.answers), results) && |results| == |exports|
        && kernel.live == old(kernel.live)
        && pool.reserved == old(pool.reserved) - NumaIds(results)
        && (pool.reserved == old(pool.reserved) <==> NumaIds(results) !! old(pool.reserved))
    {
      var obj := new AddrImportObj(name, exports, |exports|);
      ret := Import(obj);
      results := obj.importResults;
      if ret != UBSE_OK {
        return;
      }
      assert results[0..] == results;
      GrownThenGone(old(kernel.live), kernel.live, results, old(pool.reserved), pool.reserved);
      OwnReached(results, kernel.live, kernel.unreadable, name, |exports|);
      ghost var done;
      ret, done := UnImport(obj);
      assert ret == UBSE_OK ==> results[..done] == results;
    }
  }
}

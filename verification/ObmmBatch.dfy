/**
 Exporting or importing a list of blocks as a unit. When one of them fails the
 ones already done are undone; an undo may itself fail, and the two directions
 treat that differently: unexporting goes on with the rest of the list,
 unimporting stops.
 */
module ObmmBatch {
  import opened BlockSplit
  import opened ObmmKernel
  import opened Options

  const U16 := 0x1_0000

  ghost predicate DistinctIds(ids: seq<MemId>) {
    forall i, j :: 0 <= i < j < |ids| ==> ids[i] != ids[j]
  }

  /** id is in the list behind an entry whose undo failed. */
  ghost predicate Behind(ids: seq<MemId>, fails: seq<MemId>, id: MemId) {
    exists i, j :: 0 <= i < j < |ids| && ids[i] in fails && ids[j] == id
  }

  /** What a failed import leaves live: the ids that could not be undone and,
      as unimporting stops there, those behind one of them in the list. */
  ghost function LeftOver(created: seq<MemId>, fails: seq<MemId>): set<MemId> {
    IdSet(fails) + set id | id in created && Behind(created, fails, id)
  }

  /** Rolling a partly created batch back: what is left over is what a failed
      creation left (f1) and what could not be undone (kept). */
  lemma AfterRollback(start: map<MemId, Meta>, mid: map<MemId, Meta>, end: map<MemId, Meta>,
                   ids: set<MemId>, f1: set<MemId>, kept: set<MemId>)
    requires GrownBy(start, mid, ids) && GrownBy(mid, end, f1) && kept <= ids
    ensures GrownBy(start, end - (ids - kept), f1 + kept)
  {
  }

  /** With one failing entry, at `done`, the ids behind it are the rest of the list. */
  lemma BehindOne(ids: seq<MemId>, done: nat, fails: seq<MemId>, id: MemId)
    requires done < |ids| && ids[done] in fails
    requires forall i :: 0 <= i < |ids| && i != done ==> ids[i] !in fails
    ensures Behind(ids, fails, id) <==> id in ids[done + 1..]
  {
  }

  lemma LeftOverIsRest(ids: seq<MemId>, done: nat, f1: seq<MemId>)
    requires DistinctIds(ids) && done < |ids| && IdSet(f1) !! IdSet(ids)
    ensures LeftOver(ids, f1 + [ids[done]]) == IdSet(f1) + IdSet(ids[done..])
  {
    var fails := f1 + [ids[done]];
    IdSetAppend(f1, [ids[done]]);
    forall i | 0 <= i < |ids| && i != done
      ensures ids[i] !in fails
    {
      assert ids[i] in IdSet(ids);
    }
    forall id
      ensures Behind(ids, fails, id) <==> id in ids[done + 1..]
    {
      BehindOne(ids, done, fails, id);
    }
    assert ids[done..] == [ids[done]] + ids[done + 1..];
  }

  lemma LeftOverIsNothing(ids: seq<MemId>, f1: seq<MemId>)
    requires IdSet(f1) !! IdSet(ids)
    ensures LeftOver(ids, f1) == IdSet(f1)
  {
    forall i | 0 <= i < |ids|
      ensures ids[i] !in f1
    {
      assert ids[i] in IdSet(ids);
    }
  }

  /** When no undo failed, a failed batch has changed nothing. */
  lemma AllOrNothing(before: map<MemId, Meta>, now: map<MemId, Meta>, created: seq<MemId>)
    requires GrownBy(before, now, LeftOver(created, []))
    ensures now == before
  {
  }

  /** Unimporting a partly created batch stops behind the first `done` ids. */
  lemma StoppedRollback(start: map<MemId, Meta>, mid: map<MemId, Meta>, end: map<MemId, Meta>,
                        ids: seq<MemId>, done: nat, f1: seq<MemId>, f2: seq<MemId>)
    requires DistinctIds(ids) && done <= |ids| && f2 == if done < |ids| then [ids[done]] else []
    requires GrownBy(start, mid, IdSet(ids)) && GrownBy(mid, end, IdSet(f1))
    ensures GrownBy(start, end - IdSet(ids[..done]), LeftOver(ids, f1 + f2))
  {
    assert ids == ids[..done] + ids[done..];
    IdSetAppend(ids[..done], ids[done..]);
    assert IdSet(ids[..done]) !! IdSet(ids[done..]);
    if done < |ids| {
      LeftOverIsRest(ids, done, f1);
    } else {
      assert f1 + f2 == f1;
      LeftOverIsNothing(ids, f1);
    }
    AfterRollback(start, mid, end, IdSet(ids), IdSet(f1), IdSet(ids[done..]));
    assert IdSet(ids) - IdSet(ids[done..]) == IdSet(ids[..done]);
  }

  /** The metadata of the blocks of an export and of an import. */
  ghost function ExportMetas(meta: Meta, rows: seq<seq<nat>>, count: nat): (metas: seq<Meta>)
    ensures |metas| == |rows|
  {
    seq(|rows|, i requires 0 <= i < |rows| => meta.(sizes := rows[i], memidCount := count % U16))
  }

  ghost function ImportMetas(meta: Meta, descs: seq<MemId>, count: nat): (metas: seq<Meta>)
    ensures |metas| == |descs|
  {
    seq(|descs|, i requires 0 <= i < |descs| => meta.(exportMemid := descs[i], memidCount := count % U16))
  }

  lemma ImportMetasAppend(meta: Meta, descs: seq<MemId>, i: nat)
    requires i < |descs|
    ensures ImportMetas(meta, descs[..i + 1], |descs|)
         == ImportMetas(meta, descs[..i], |descs|) + [meta.(exportMemid := descs[i], memidCount := |descs| % U16)]
  {
  }

  /** One live memid for every block, in order, and nothing else new. */
  ghost predicate Complete(metas: seq<Meta>, ids: seq<MemId>, before: map<MemId, Meta>, now: map<MemId, Meta>) {
    && |ids| == |metas| && DistinctIds(ids)
    && GrownBy(before, now, IdSet(ids))
    && forall i :: 0 <= i < |ids| ==> ids[i] != INVALID_MEM_ID && ids[i] in now && now[ids[i]] == metas[i]
  }

  /** What the live memids of a complete batch say of themselves: the borrow's
      metadata, their own block, and how many of them there are, in 16 bits. */
  lemma CompleteExport(meta: Meta, rows: seq<seq<nat>>, ids: seq<MemId>, before: map<MemId, Meta>, now: map<MemId, Meta>)
    requires Complete(ExportMetas(meta, rows, |rows|), ids, before, now)
    ensures |ids| == |rows|
    ensures forall i :: 0 <= i < |ids| ==>
      && ids[i] in now && now[ids[i]].name == meta.name && now[ids[i]].borrowType == meta.borrowType
      && now[ids[i]].isImport == meta.isImport && now[ids[i]].sizes == rows[i] && now[ids[i]].memidCount == |ids| % 65536
  {
  }

  lemma CompleteImport(meta: Meta, descs: seq<MemId>, ids: seq<MemId>, before: map<MemId, Meta>, now: map<MemId, Meta>)
    requires Complete(ImportMetas(meta, descs, |descs|), ids, before, now)
    ensures |ids| == |descs|
    ensures forall i :: 0 <= i < |ids| ==>
      && ids[i] in now && now[ids[i]].name == meta.name && now[ids[i]].borrowType == meta.borrowType
      && now[ids[i]].isImport == meta.isImport && now[ids[i]].exportMemid == descs[i]
      && now[ids[i]].memidCount == |ids| % 65536
  {
  }

  lemma CompleteAppend(metas: seq<Meta>, ids: seq<MemId>, before: map<MemId, Meta>, now: map<MemId, Meta>,
                       meta: Meta, id: MemId)
    requires Complete(metas, ids, before, now) && id !in now && id != INVALID_MEM_ID
    ensures Complete(metas + [meta], ids + [id], before, now[id := meta])
  {
  }

  /** After an import that stopped behind the blocks in `created`: nothing new
      is live but what could not be undone and what stands behind such a block,
      and that still is the block it was created as. */
  ghost predicate Aborted(metas: seq<Meta>, created: seq<MemId>, before: map<MemId, Meta>, now: map<MemId, Meta>,
                          fails: seq<MemId>) {
    && |created| == |metas| && DistinctIds(created) && IdSet(created) !! before.Keys
    && (forall i :: 0 <= i < |created| && created[i] in now ==> now[created[i]] == metas[i])
    && GrownBy(before, now, LeftOver(created, fails))
  }

  lemma AbortedAfterRollback(metas: seq<Meta>, ids: seq<MemId>, start: map<MemId, Meta>, mid: map<MemId, Meta>,
                             end: map<MemId, Meta>, done: nat, f1: seq<MemId>, f2: seq<MemId>)
    requires Complete(metas, ids, start, mid) && GrownBy(mid, end, IdSet(f1))
    requires done <= |ids| && f2 == if done < |ids| then [ids[done]] else []
    ensures Aborted(metas, ids, start, end - IdSet(ids[..done]), f1 + f2)
  {
    StoppedRollback(start, mid, end, ids, done, f1, f2);
  }

  /** How often a memid is in a list. */
  ghost function Times(ids: seq<MemId>, id: MemId): nat {
    if ids == [] then 0 else Times(ids[..|ids| - 1], id) + if ids[|ids| - 1] == id then 1 else 0
  }

  lemma TimesAppend(ids: seq<MemId>, x: MemId, id: MemId)
    ensures Times(ids + [x], id) == Times(ids, id) + if x == id then 1 else 0
  {
    assert (ids + [x])[..|ids|] == ids;
  }

  /** What of the live memids is left after one undo attempt for each entry of a
      list: exactly those for which every attempt failed. */
  ghost predicate Attempted(before: map<MemId, Meta>, now: map<MemId, Meta>, ids: seq<MemId>, fails: seq<MemId>) {
    && (forall id :: Times(fails, id) <= Times(ids, id))
    && (forall id :: id in now <==> id in before && Times(fails, id) == Times(ids, id))
    && (forall id :: id in now ==> now[id] == before[id])
  }

  lemma OneAttempt(before: map<MemId, Meta>, now: map<MemId, Meta>, ids: seq<MemId>, fails: seq<MemId>, x: MemId)
    requires Attempted(before, now, ids, fails)
    ensures Attempted(before, now - {x}, ids + [x], fails)
    ensures x in now ==> Attempted(before, now, ids + [x], fails + [x])
  {
    forall id
      ensures Times(ids + [x], id) == Times(ids, id) + if x == id then 1 else 0
      ensures Times(fails + [x], id) == Times(fails, id) + if x == id then 1 else 0
    {
      TimesAppend(ids, x, id);
      TimesAppend(fails, x, id);
    }
  }

  lemma {:induction false} TimesPositive(ids: seq<MemId>, id: MemId)
    ensures Times(ids, id) > 0 <==> id in ids
    ensures DistinctIds(ids) ==> Times(ids, id) <= 1
  {
    if ids != [] {
      var front, last := ids[..|ids| - 1], ids[|ids| - 1];
      assert ids == front + [last];
      TimesPositive(front, id);
    }
  }

  /** Without repetitions each memid has one attempt, and exactly those that failed stay. */
  lemma AttemptedOnce(before: map<MemId, Meta>, now: map<MemId, Meta>, ids: seq<MemId>, fails: seq<MemId>)
    requires DistinctIds(ids) && Attempted(before, now, ids, fails)
    ensures IdSet(fails) <= IdSet(ids) && now == before - (IdSet(ids) - IdSet(fails))
  {
    forall id
      ensures (id in ids <==> Times(ids, id) == 1) && (id in fails <==> Times(fails, id) > 0) && Times(ids, id) <= 1
    {
      TimesPositive(ids, id);
      TimesPositive(fails, id);
    }
  }

  class Executor {
    const kernel: Kernel

    constructor (kernel: Kernel)
      ensures this.kernel == kernel
    {
      this.kernel := kernel;
    }

    /** ObmmDevChangeUidGid: handing the device file over to the borrower; when that
        fails the memid is given back, whatever comes of it. */
    method ChangeUidGid(id: MemId, isImport: bool, borrowType: BorrowType) returns (id': MemId)
      requires id != INVALID_MEM_ID
      modifies kernel`live, kernel`undoFailures
      ensures old(kernel.undoFailures) <= kernel.undoFailures
      ensures id' == INVALID_MEM_ID || id' == id
      ensures borrowType == Numa || borrowType == Addr || (borrowType == Fd && !isImport) ==> id' == id
      ensures id' == id ==> kernel.live == old(kernel.live) && kernel.undoFailures == old(kernel.undoFailures)
      ensures id' != id && kernel.undoFailures == old(kernel.undoFailures) ==> kernel.live == old(kernel.live) - {id}
      ensures id' != id && kernel.undoFailures != old(kernel.undoFailures) ==>
        kernel.live == old(kernel.live) && kernel.undoFailures == old(kernel.undoFailures) + [id]
    {
      if borrowType == Numa || borrowType == Addr {
        return id;
      }
      if borrowType == Fd && !isImport {
        return id;
      }
      var changed: bool := *;
      if !changed {
        var ret := kernel.Undo(id);
        return INVALID_MEM_ID;
      }
      return id;
    }

    /** One export or import, including the change of owner. */
    method CreateOne(meta: Meta) returns (id: MemId)
      modifies kernel`live, kernel`undoFailures
      ensures old(kernel.undoFailures) <= kernel.undoFailures
      ensures id != INVALID_MEM_ID ==>
        && id !in old(kernel.live)
        && kernel.live == old(kernel.live)[id := meta]
        && kernel.undoFailures == old(kernel.undoFailures)
      ensures id == INVALID_MEM_ID ==>
        GrownBy(old(kernel.live), kernel.live, IdSet(Since(old(kernel.undoFailures), kernel.undoFailures)))
    {
      id := kernel.Create(meta);
      if id == INVALID_MEM_ID {
        return;
      }
      ghost var created := id;
      id := ChangeUidGid(id, meta.isImport, meta.borrowType);
      if id == INVALID_MEM_ID && kernel.undoFailures == old(kernel.undoFailures) {
        assert kernel.live == old(kernel.live);
      }
    }

    /** One more attempt, after those for `ids`. */
    method UndoNext(id: MemId, ghost start: map<MemId, Meta>, ghost ids: seq<MemId>, ghost fails: seq<MemId>)
      returns (ret: nat)
      requires Attempted(start, kernel.live, ids, fails)
      modifies kernel`live, kernel`undoFailures
      ensures kernel.undoFailures == old(kernel.undoFailures) + if ret == UBSE_OK then [] else [id]
      ensures Attempted(start, kernel.live, ids + [id], fails + if ret == UBSE_OK then [] else [id])
    {
      OneAttempt(start, kernel.live, ids, fails, id);
      ret := kernel.Undo(id);
      assert fails + [] == fails;
    }

    /** Batch ObmmUnExport: every id is tried; the first error is reported. */
    method UnExportAll(ids: seq<MemId>) returns (ret: nat)
      modifies kernel`live, kernel`undoFailures
      ensures old(kernel.undoFailures) <= kernel.undoFailures
      ensures
        var fails := Since(old(kernel.undoFailures), kernel.undoFailures);
        && Attempted(old(kernel.live), kernel.live, ids, fails)
        && (ret == UBSE_OK <==> fails == [])
    {
      ret := UBSE_OK;
      ghost var fails: seq<MemId> := [];
      for i := 0 to |ids|
        invariant kernel.undoFailures == old(kernel.undoFailures) + fails
        invariant Attempted(old(kernel.live), kernel.live, ids[..i], fails)
        invariant ret == UBSE_OK <==> fails == []
      {
        assert ids[..i + 1] == ids[..i] + [ids[i]];
        var r := UndoNext(ids[i], old(kernel.live), ids[..i], fails);
        fails := fails + if r == UBSE_OK then [] else [ids[i]];
        if r != UBSE_OK {
          if ret == UBSE_OK {
            ret := r;
          }
          continue;
        }
      }
      assert ids[..|ids|] == ids;
    }

    /** Batch ObmmUnImport: stops at the first id that cannot be undone. */
    method UnImportAll(ids: seq<MemId>) returns (ret: nat, ghost done: nat)
      modifies kernel`live, kernel`undoFailures
      ensures done <= |ids| && kernel.live == old(kernel.live) - IdSet(ids[..done])
      ensures ret == UBSE_OK ==> done == |ids| && kernel.undoFailures == old(kernel.undoFailures)
      ensures ret != UBSE_OK ==> done < |ids| && kernel.undoFailures == old(kernel.undoFailures) + [ids[done]]
    {
      done := 0;
      for i := 0 to |ids|
        invariant done == i && kernel.live == old(kernel.live) - IdSet(ids[..i])
        invariant kernel.undoFailures == old(kernel.undoFailures)
      {
        assert ids[..i + 1] == ids[..i] + [ids[i]];
        ret := kernel.Undo(ids[i]);
        if ret != UBSE_OK {
          return;
        }
        done := i + 1;
      }
      ret := UBSE_OK;
    }

    /** The export loop: one memid per row, in order, or none. */
    method ExportRows(meta: Meta, rows: seq<seq<nat>>) returns (result: seq<MemId>)
      requires !meta.isImport
      modifies kernel`live, kernel`undoFailures
      ensures old(kernel.undoFailures) <= kernel.undoFailures
      ensures result != [] ==> Complete(ExportMetas(meta, rows, |rows|), result, old(kernel.live), kernel.live)
      ensures result != [] ==> kernel.undoFailures == old(kernel.undoFailures)
      ensures result == [] ==>
        GrownBy(old(kernel.live), kernel.live, IdSet(Since(old(kernel.undoFailures), kernel.undoFailures)))
    {
      result := [];
      for i := 0 to |rows|
        invariant |result| == i && kernel.undoFailures == old(kernel.undoFailures)
        invariant Complete(ExportMetas(meta, rows[..i], |rows|), result, old(kernel.live), kernel.live)
      {
        assert rows[..i + 1] == rows[..i] + [rows[i]];
        ghost var mid := kernel.live;
        var id := CreateOne(meta.(sizes := rows[i], memidCount := |rows| % U16));
        if id == INVALID_MEM_ID {
          ghost var end, fails := kernel.live, kernel.undoFailures;
          var ret := UnExportAll(result);
          AttemptedOnce(end, kernel.live, result, Since(fails, kernel.undoFailures));
          SinceConcat(old(kernel.undoFailures), fails, kernel.undoFailures);
          AfterRollback(old(kernel.live), mid, end, IdSet(result),
                     IdSet(Since(old(kernel.undoFailures), fails)), IdSet(Since(fails, kernel.undoFailures)));
          return [];
        }
        CompleteAppend(ExportMetas(meta, rows[..i], |rows|), result, old(kernel.live), mid, kernel.live[id], id);
        assert ExportMetas(meta, rows[..i + 1], |rows|) == ExportMetas(meta, rows[..i], |rows|) + [kernel.live[id]];
        result := result + [id];
      }
      assert rows[..|rows|] == rows;
    }

    /** Batch ObmmExport. `descs` is the number of descriptors the caller has reserved. */
    method ExportBatch(meta: Meta, sizes: seq<nat>, descs: nat, blockSize: nat) returns (result: seq<MemId>)
      requires |sizes| == MAX_NUMA_NODES && !meta.isImport
      requires !SplitFails(sizes, blockSize) ==> Total(Counts(sizes, blockSize)) < 0x8000_0000
      modifies kernel`live, kernel`undoFailures
      ensures old(kernel.undoFailures) <= kernel.undoFailures
      ensures result != [] ==>
        && !SplitFails(sizes, blockSize)
        && descs == |Rows(Counts(sizes, blockSize), MAX_NUMA_NODES, blockSize)|
        && Complete(ExportMetas(meta, Rows(Counts(sizes, blockSize), MAX_NUMA_NODES, blockSize), descs), result,
                    old(kernel.live), kernel.live)
        && kernel.undoFailures == old(kernel.undoFailures)
      ensures forall i :: 0 <= i < |result| ==>
        && result[i] in kernel.live && result[i] !in old(kernel.live)
        && kernel.live[result[i]].name == meta.name && kernel.live[result[i]].borrowType == meta.borrowType
        && !kernel.live[result[i]].isImport && kernel.live[result[i]].memidCount == |result| % 65536
      ensures result == [] ==>
        GrownBy(old(kernel.live), kernel.live, IdSet(Since(old(kernel.undoFailures), kernel.undoFailures)))
    {
      var ok, rows := Split(sizes, blockSize);
      if !ok {
        return [];
      }
      if descs == 0 {
        return [];
      }
      if descs != |rows| {
        return [];
      }
      result := ExportRows(meta, rows);
      if result != [] {
        CompleteExport(meta, rows, result, old(kernel.live), kernel.live);
      }
    }

    /** Gives the blocks of a batch back whose next block could not be imported. */
    method AbandonImport(ids: seq<MemId>, ghost metas: seq<Meta>, ghost start: map<MemId, Meta>,
                         ghost mid: map<MemId, Meta>, ghost fails: seq<MemId>)
      requires Complete(metas, ids, start, mid) && fails <= kernel.undoFailures
      requires GrownBy(mid, kernel.live, IdSet(Since(fails, kernel.undoFailures)))
      modifies kernel`live, kernel`undoFailures
      ensures fails <= kernel.undoFailures
      ensures Aborted(metas, ids, start, kernel.live, Since(fails, kernel.undoFailures))
    {
      ghost var end, fails1 := kernel.live, kernel.undoFailures;
      var ret, done := UnImportAll(ids);
      SinceConcat(fails, fails1, kernel.undoFailures);
      AbortedAfterRollback(metas, ids, start, mid, end, done, Since(fails, fails1), Since(fails1, kernel.undoFailures));
    }

    /** One import. The kernel may rewrite the NUMA id, which must not be 0. */
    method ImportOne(meta: Meta, numa: Option<int>) returns (id: MemId, numa': Option<int>)
      modifies kernel`live, kernel`undoFailures, kernel`answers
      ensures old(kernel.undoFailures) <= kernel.undoFailures
      ensures numa == Some(0) ==> id == INVALID_MEM_ID && kernel.live == old(kernel.live)
      ensures id != INVALID_MEM_ID ==>
        && id !in old(kernel.live)
        && kernel.live == old(kernel.live)[id := meta]
        && kernel.undoFailures == old(kernel.undoFailures)
      ensures id == INVALID_MEM_ID ==>
        GrownBy(old(kernel.live), kernel.live, IdSet(Since(old(kernel.undoFailures), kernel.undoFailures)))
      ensures numa'.Some? <==> numa.Some?
      ensures kernel.answers == old(kernel.answers)
        + if numa.None? || numa == Some(0) then []
          else if id == INVALID_MEM_ID then [Refused] else [Granted(numa'.value)]
    {
      if numa == Some(0) {
        return INVALID_MEM_ID, numa;
      }
      id := CreateOne(meta);
      var written: int := *;
      numa' := if numa.Some? then Some(written) else None;
      if numa.Some? {
        kernel.answers := kernel.answers + [if id == INVALID_MEM_ID then Refused else Granted(written)];
      }
    }

    /** Batch ObmmImport: one memid per exported block, in order, or none up to
        the failures of the rollback. All blocks share the caller's NUMA id. */
    method ImportBatch(meta: Meta, descs: seq<MemId>, decoderResults: nat, numa: Option<int>)
      returns (result: seq<MemId>, numa': Option<int>, ghost created: seq<MemId>)
      requires meta.isImport
      modifies kernel`live, kernel`undoFailures, kernel`answers
      ensures old(kernel.undoFailures) <= kernel.undoFailures
      ensures result != [] ==> |descs| == decoderResults
      ensures result != [] ==> Complete(ImportMetas(meta, descs, |descs|), result, old(kernel.live), kernel.live)
      ensures result != [] ==> kernel.undoFailures == old(kernel.undoFailures)
      ensures forall i :: 0 <= i < |result| ==>
        && i < |descs| && result[i] in kernel.live && result[i] !in old(kernel.live)
        && kernel.live[result[i]].name == meta.name && kernel.live[result[i]].borrowType == meta.borrowType
        && kernel.live[result[i]].isImport && kernel.live[result[i]].exportMemid == descs[i]
        && kernel.live[result[i]].memidCount == |result| % 65536
      ensures result == [] ==>
        && |created| <= |descs|
        && Aborted(ImportMetas(meta, descs[..|created|], |descs|), created, old(kernel.live), kernel.live,
                   Since(old(kernel.undoFailures), kernel.undoFailures))
    {
      result, numa', created := [], numa, [];
      if descs == [] || |descs| != decoderResults {
        return;
      }
      for i := 0 to |descs|
        invariant |result| == i && kernel.undoFailures == old(kernel.undoFailures)
        invariant Complete(ImportMetas(meta, descs[..i], |descs|), result, old(kernel.live), kernel.live)
      {
        ghost var mid, metas := kernel.live, ImportMetas(meta, descs[..i], |descs|);
        var id;
        id, numa' := ImportOne(meta.(exportMemid := descs[i], memidCount := |descs| % U16), numa');
        if id == INVALID_MEM_ID {
          AbandonImport(result, metas, old(kernel.live), mid, old(kernel.undoFailures));
          return [], numa', result;
        }
        CompleteAppend(metas, result, old(kernel.live), mid, kernel.live[id], id);
        ImportMetasAppend(meta, descs, i);
        result := result + [id];
      }
      assert descs[..|descs|] == descs;
      CompleteImport(meta, descs, result, old(kernel.live), kernel.live);
    }
  }
}

/**
 The name an export carries in its metadata. It is built from the borrow's name
 and the importing node, checked again before the memory is taken back, and
 taken apart when the borrow is restored after a restart.
 */
module ExportNames {
  import opened BlockSplit
  import opened ObmmBatch
  import opened ObmmKernel
  import opened Options

  const MAX_NAME_LENGTH := 52

  /** GenerateExportKey */
  function ExportKey(name: string, importNodeId: string): string {
    name + "_" + importNodeId
  }

  /** What remains of a string that passes through a C buffer. */
  function CString(s: string): (c: string)
    ensures c <= s && '\0' !in c
    ensures |c| < |s| ==> s[|c|] == '\0'
    ensures c == s <==> '\0' !in s
  {
    if s == [] || s[0] == '\0' then [] else [s[0]] + CString(s[1..])
  }

  /** strcpy_s into a buffer of `size` characters, terminator included. */
  function StrCopy(s: string, size: nat): Option<string> {
    if |CString(s)| < size then Some(CString(s)) else None
  }

  /** find_last_of('_') */
  function LastUnderscore(s: string): (pos: Option<nat>)
    ensures pos.Some? ==> pos.value < |s| && s[pos.value] == '_' && '_' !in s[pos.value + 1..]
    ensures pos.None? ==> '_' !in s
  {
    if s == [] then None
    else if s[|s| - 1] == '_' then Some(|s| - 1)
    else
      var pos := LastUnderscore(s[..|s| - 1]);
      assert s == s[..|s| - 1] + [s[|s| - 1]];
      assert pos.Some? ==> s[pos.value + 1..] == s[..|s| - 1][pos.value + 1..] + [s[|s| - 1]];
      pos
  }

  /** The borrow's name as restored from the metadata of an export. */
  function RestoredName(stored: string): string {
    var pos := LastUnderscore(stored);
    if pos.Some? then stored[..pos.value] else stored
  }

  /** Restoring undoes the key exactly for importing nodes without an underscore
      in their id; the borrow's own name may contain as many as it likes. */
  lemma RestoreUndoesKey(name: string, importNodeId: string)
    ensures RestoredName(ExportKey(name, importNodeId)) == name <==> '_' !in importNodeId
  {
    var key := ExportKey(name, importNodeId);
    assert key[|name|] == '_' && key[|name| + 1..] == importNodeId && key[..|name|] == name;
    var pos := LastUnderscore(key).value;
    assert pos >= |name|;
    if '_' in importNodeId {
      var i :| 0 <= i < |importNodeId| && importNodeId[i] == '_';
      assert key[|name| + 1 + i] == '_';
      assert pos > |name|;
    }
  }

  /** The name recomputed at unexport, from the borrow as it was exported or as
      it was restored, against the name that the export stored. */
  lemma RecomputedNameMatches(name: string, importNodeId: string, stored: string)
    requires StrCopy(ExportKey(name, importNodeId), MAX_NAME_LENGTH) == Some(stored)
    ensures ExportKey(name, importNodeId) == stored <==> '\0' !in name && '\0' !in importNodeId
    ensures ExportKey(name, importNodeId) == stored ==>
      (ExportKey(RestoredName(stored), importNodeId) == stored <==> '_' !in importNodeId)
  {
    var key := ExportKey(name, importNodeId);
    assert '\0' in key <==> '\0' in name || '\0' in importNodeId by {
      assert forall c :: c in key <==> c in name || c == '_' || c in importNodeId;
    }
    RestoreUndoesKey(name, importNodeId);
    if key == stored && ExportKey(RestoredName(stored), importNodeId) == stored {
      var r := RestoredName(stored);
      assert |r| == |name|;
      assert r == stored[..|r|] == name;
    }
  }

  /** The listed memids that are live belong to the borrow of this type and name. */
  ghost predicate OwnIds(ids: seq<MemId>, live: map<MemId, Meta>, borrowType: BorrowType, name: string) {
    forall id :: id in ids && id in live ==> Own(live[id], borrowType, name)
  }

  class UnExporter {
    const kernel: Kernel

    constructor (kernel: Kernel)
      ensures this.kernel == kernel
    {
      this.kernel := kernel;
    }

    method UnExportOne(id: MemId, expectedName: string, expectedType: BorrowType) returns (ret: nat)
      modifies kernel`live, kernel`undoFailures
      ensures Spared(old(kernel.live), kernel.unreadable, id, expectedType, expectedName) ==>
        && ret == UBSE_OK && kernel.live == old(kernel.live)
      ensures !Spared(old(kernel.live), kernel.unreadable, id, expectedType, expectedName) && ret == UBSE_OK ==>
        kernel.live == old(kernel.live) - {id}
      ensures ret == UBSE_OK ==> kernel.undoFailures == old(kernel.undoFailures)
      ensures ret != UBSE_OK ==>
        && id in kernel.live && kernel.live == old(kernel.live)
        && kernel.undoFailures == old(kernel.undoFailures) + [id]
    {
      var typeRead, typeMeta := kernel.ReadMeta(id);
      if typeRead && typeMeta.borrowType != expectedType {
        return UBSE_OK;
      }
      var nameRead, nameMeta := kernel.ReadMeta(id);
      if nameRead && nameMeta.name != expectedName {
        return UBSE_OK;
      }
      ret := kernel.Undo(id);
    }

    /** UnExportExecutor: takes back exactly the listed memids up to the first
        invalid or failing one, except those whose readable metadata name
        another borrow, which are never touched. */
    method UnExport(ids: seq<MemId>, expectedName: string, expectedType: BorrowType) returns (ret: nat, ghost done: nat)
      modifies kernel`live, kernel`undoFailures
      ensures done <= |ids|
      ensures kernel.live
           == old(kernel.live) - Aimed(ids[..done], old(kernel.live), kernel.unreadable, expectedType, expectedName)
      ensures forall id :: id in old(kernel.live) ==>
        (id !in kernel.live <==>
           && id in ids[..done]
           && (id in kernel.unreadable
               || (old(kernel.live)[id].borrowType == expectedType && old(kernel.live)[id].name == expectedName)))
      ensures ret == UBSE_OK <==> done == |ids|
      ensures ret == UBSE_OK && OwnIds(ids, old(kernel.live), expectedType, expectedName) ==>
        kernel.live == old(kernel.live) - IdSet(ids)
      ensures forall id :: Spared(old(kernel.live), kernel.unreadable, id, expectedType, expectedName) ==>
        id in kernel.live && kernel.live[id] == old(kernel.live)[id]
      ensures old(kernel.undoFailures) <= kernel.undoFailures
      ensures ret == UBSE_OK ==> kernel.undoFailures == old(kernel.undoFailures)
      ensures ret != UBSE_OK ==>
        if ids[done] == INVALID_MEM_ID then kernel.undoFailures == old(kernel.undoFailures)
        else kernel.undoFailures == old(kernel.undoFailures) + [ids[done]] && ids[done] in kernel.live
    {
      ret, done := UBSE_OK, 0;
      for i := 0 to |ids|
        invariant ret == UBSE_OK && done == i && kernel.undoFailures == old(kernel.undoFailures)
        invariant kernel.live
               == old(kernel.live) - Aimed(ids[..i], old(kernel.live), kernel.unreadable, expectedType, expectedName)
      {
        assert ids[..i + 1] == ids[..i] + [ids[i]];
        if ids[i] == INVALID_MEM_ID {
          return UBSE_ERROR_INVAL, i;
        }
        ret := UnExportOne(ids[i], expectedName, expectedType);
        if ret != UBSE_OK {
          return;
        }
        done := i + 1;
      }
      assert ids[..done] == ids;
    }

    /** A batch export under a stored name: its memids are new and its own. */
    method ExportNamed(stored: string, borrowType: BorrowType, sizes: seq<nat>, descs: nat, blockSize: nat)
      returns (ids: seq<MemId>)
      requires |sizes| == MAX_NUMA_NODES
      requires !SplitFails(sizes, blockSize) ==> Total(Counts(sizes, blockSize)) < 0x8000_0000
      modifies kernel`live, kernel`undoFailures
      ensures ids != [] ==>
        GrownBy(old(kernel.live), kernel.live, IdSet(ids)) && OwnIds(ids, kernel.live, borrowType, stored)
    {
      var executor := new Executor(kernel);
      ids := executor.ExportBatch(Meta(false, borrowType, stored, 0, INVALID_MEM_ID, []), sizes, descs, blockSize);
    }

    /** An export and the unexport of its memids. The name is recomputed from the
        borrow as it was exported or as it was restored. If that gives the stored
        one again and all succeeds, the kernel is left as it was; if not, every
        memid with readable metadata stays behind, whatever the unexport reports. */
    method ExportThenUnExport(name: string, importNodeId: string, borrowType: BorrowType, restored: bool,
                              sizes: seq<nat>, descs: nat, blockSize: nat)
      returns (exported: bool, ret: nat, ghost ids: seq<MemId>)
      requires |sizes| == MAX_NUMA_NODES && borrowType != Share
      requires !SplitFails(sizes, blockSize) ==> Total(Counts(sizes, blockSize)) < 0x8000_0000
      modifies kernel`live, kernel`undoFailures
      ensures exported ==> ids != [] && IdSet(ids) !! old(kernel.live).Keys
      ensures exported && ret == UBSE_OK && NameKept(name, importNodeId, restored) ==> kernel.live == old(kernel.live)
      ensures exported && NameLost(name, importNodeId, restored) ==>
        forall id :: id in ids && id !in kernel.unreadable ==> id in kernel.live
    {
      exported, ret, ids := false, OBMM_OP_FAILED, [];
      var stored := StrCopy(ExportKey(name, importNodeId), MAX_NAME_LENGTH);
      if stored.None? {
        return;
      }
      var memIds := ExportNamed(stored.value, borrowType, sizes, descs, blockSize);
      if memIds == [] {
        return;
      }
      exported, ids := true, memIds;
      RecomputedNameMatches(name, importNodeId, stored.value);
      var current := if restored then RestoredName(stored.value) else name;
      ghost var mid, done := kernel.live, 0;
      ret, done := UnExport(memIds, ExportKey(current, importNodeId), borrowType);
      assert forall id :: id in ids ==> id in mid && id in IdSet(ids);
    }
  }

  /** When the name recomputed at unexport is the stored one, and when it is not. */
  ghost predicate NameKept(name: string, importNodeId: string, restored: bool) {
    '\0' !in name && '\0' !in importNodeId && (restored ==> '_' !in importNodeId)
  }

  ghost predicate NameLost(name: string, importNodeId: string, restored: bool) {
    if restored then '\0' !in name && '\0' !in importNodeId && '_' in importNodeId
    else '\0' in name || '\0' in importNodeId
  }
}

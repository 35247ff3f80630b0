/**
 The OBMM kernel interface as an oracle. It keeps the live memids with the
 metadata they were created with; creating may fail, undoing a live memid may
 fail and leaves it live, and a memid that no longer exists undoes successfully
 (ENOENT counts as success).
 */
module ObmmKernel {

  const UBSE_OK := 0
  const UBSE_ERROR_INVAL := 10003
  const OBMM_OP_FAILED := 10700
  const OBMM_OP_TIMEOUT := 10703
  const INVALID_MEM_ID := 0
  const INVALID_NUMAID := -1

  type MemId = nat

  datatype BorrowType = Fd | Numa | Share | Addr

  /** The kernel's answer to an import for which a NUMA id was set aside: the id
      it actually gives, which may be another one. */
  datatype Answer = Refused | Granted(numaId: int)

  /** What the daemon writes into the private area of a memid and can read back. */
  datatype Meta = Meta(
    isImport: bool,
    borrowType: BorrowType,
    name: string,
    memidCount: nat,
    exportMemid: MemId,
    sizes: seq<nat>)

  lemma FreshId(live: set<MemId>) returns (id: MemId)
    ensures id > 0 && id !in live
  {
    var s := live + {0};
    id := Largest(s) + 1;
  }

  ghost function Largest(s: set<MemId>): (m: MemId)
    requires s != {}
    ensures forall x :: x in s ==> x <= m
  {
    var x :| x in s;
    if s == {x} then x
    else
      assert s == (s - {x}) + {x};
      var y := Largest(s - {x});
      if x < y then y else x
  }

  function IdSet(ids: seq<MemId>): set<MemId> {
    set x | x in ids
  }

  /** The memid belongs to the borrow of this type and name. */
  predicate Own(meta: Meta, borrowType: BorrowType, name: string) {
    meta.borrowType == borrowType && meta.name == name
  }

  /** The metadata of the memid can be read and name another borrow. */
  ghost predicate Spared(live: map<MemId, Meta>, unreadable: set<MemId>, id: MemId, borrowType: BorrowType, name: string) {
    id in live && id !in unreadable && !Own(live[id], borrowType, name)
  }

  /** The listed memids that an undo on behalf of a borrow is aimed at. */
  ghost function Aimed(ids: seq<MemId>, live: map<MemId, Meta>, unreadable: set<MemId>,
                       borrowType: BorrowType, name: string): set<MemId> {
    set id | id in ids && !Spared(live, unreadable, id, borrowType, name)
  }

  lemma IdSetAppend(a: seq<MemId>, b: seq<MemId>)
    ensures IdSet(a + b) == IdSet(a) + IdSet(b)
  {
  }

  /** Memory `now` is memory `before` plus exactly the ids in `extra`, all of them new. */
  ghost predicate GrownBy(before: map<MemId, Meta>, now: map<MemId, Meta>, extra: set<MemId>) {
    && extra !! before.Keys
    && now.Keys == before.Keys + extra
    && forall id :: id in before ==> now[id] == before[id]
  }

  /** The ids whose undo failed after the failure list was `before`. */
  ghost function Since(before: seq<MemId>, now: seq<MemId>): seq<MemId>
    requires before <= now
  {
    now[|before|..]
  }

  lemma SinceConcat(a: seq<MemId>, b: seq<MemId>, c: seq<MemId>)
    requires a <= b <= c
    ensures a <= c && Since(a, c) == Since(a, b) + Since(b, c)
    ensures IdSet(Since(a, c)) == IdSet(Since(a, b)) + IdSet(Since(b, c))
  {
  }

  class Kernel {
    var live: map<MemId, Meta>
    /** The memids whose metadata cannot be read back. */
    var unreadable: set<MemId>
    /** Every memid whose undo call has failed, in order. */
    var undoFailures: seq<MemId>
    /** The answers to all imports that named a NUMA id, in order. */
    ghost var answers: seq<Answer>

    /** obmm_export or obmm_import: INVALID_MEM_ID, or a memid that was not live. */
    method Create(meta: Meta) returns (id: MemId)
      modifies this`live
      ensures id == INVALID_MEM_ID ==> live == old(live)
      ensures id != INVALID_MEM_ID ==> id !in old(live) && live == old(live)[id := meta]
    {
      var refused: bool := *;
      if refused {
        return INVALID_MEM_ID;
      }
      ghost var another := FreshId(live.Keys);
      id :| id > 0 && id !in live;
      live := live[id := meta];
    }

    /** ObmmUnExport or ObmmUnImport of one memid. */
    method Undo(id: MemId) returns (ret: nat)
      modifies this`live, this`undoFailures
      ensures ret == UBSE_OK ==> live == old(live) - {id} && undoFailures == old(undoFailures)
      ensures ret != UBSE_OK ==> id in live && live == old(live) && undoFailures == old(undoFailures) + [id]
    {
      var refused: bool := *;
      if id in live && refused {
        undoFailures := undoFailures + [id];
        var interrupted: bool := *;
        return if interrupted then OBMM_OP_TIMEOUT else OBMM_OP_FAILED;
      }
      live := live - {id};
      return UBSE_OK;
    }

    /** Reading the metadata of a memid through sysfs. */
    method ReadMeta(id: MemId) returns (readable: bool, meta: Meta)
      ensures readable <==> id in live && id !in unreadable
      ensures readable ==> meta == live[id]
    {
      readable := id in live && id !in unreadable;
      meta := if readable then live[id] else Meta(false, Fd, "", 0, INVALID_MEM_ID, []);
    }
  }
}

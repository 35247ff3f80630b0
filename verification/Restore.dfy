/**
 Rebuilding the ledger of borrows after a restart from the flat list of OBMM
 records found in the kernel. Records are sorted into eight families, grouped by
 name, and a group is kept when it is complete and torn down when it is not.
 */
module Restore {
  import opened AddrBorrow
  import opened ObmmKernel
  import opened ObmmBatch
  import opened Options

  const U64 := 0x1_0000_0000_0000_0000

  datatype Record = Record(
    memId: MemId,
    obmmType: nat,         // UbseObmmType: 0 import, 1 export
    borrowType: nat,       // UbseBorrowType: 0 FD, 1 NUMA, 2 share, 3 address
    name: string,
    memidCount: nat,
    remoteNumaId: int,
    usedPidCount: nat,
    numaSizes: seq<nat>)

  datatype Family =
    | FdImport | NumaImport | ShareImport | AddrImport
    | FdExport | NumaExport | ShareExport | AddrExport

  function FamilyOf(r: Record): Option<Family> {
    match (r.obmmType, r.borrowType)
    case (0, 0) => Some(FdImport)
    case (0, 1) => Some(NumaImport)
    case (0, 2) => Some(ShareImport)
    case (0, 3) => Some(AddrImport)
    case (1, 0) => Some(FdExport)
    case (1, 1) => Some(NumaExport)
    case (1, 2) => Some(ShareExport)
    case (1, 3) => Some(AddrExport)
    case (_, _) => None
  }

  /** The records of one family, in order. */
  function Bucket(recs: seq<Record>, f: Family): seq<Record> {
    if recs == [] then []
    else Bucket(recs[..|recs| - 1], f)
         + if FamilyOf(recs[|recs| - 1]) == Some(f) then [recs[|recs| - 1]] else []
  }

  /** The records of one name, in order. */
  function Named(recs: seq<Record>, name: string): seq<Record> {
    if recs == [] then []
    else Named(recs[..|recs| - 1], name) + if recs[|recs| - 1].name == name then [recs[|recs| - 1]] else []
  }

  function Names(recs: seq<Record>): set<string> {
    set r | r in recs :: r.name
  }

  function MemIdsOf(recs: seq<Record>): (ids: seq<MemId>)
    ensures |ids| == |recs|
  {
    seq(|recs|, i requires 0 <= i < |recs| => recs[i].memId)
  }

  lemma {:induction false} BucketMembers(recs: seq<Record>, f: Family, r: Record)
    ensures r in Bucket(recs, f) <==> r in recs && FamilyOf(r) == Some(f)
  {
    if recs != [] {
      BucketMembers(recs[..|recs| - 1], f, r);
      assert recs == recs[..|recs| - 1] + [recs[|recs| - 1]];
    }
  }

  lemma {:induction false} NamedMembers(recs: seq<Record>, name: string, r: Record)
    ensures r in Named(recs, name) <==> r in recs && r.name == name
  {
    if recs != [] {
      NamedMembers(recs[..|recs| - 1], name, r);
      assert recs == recs[..|recs| - 1] + [recs[|recs| - 1]];
    }
  }

  /** No memid occurs in two records. */
  ghost predicate DistinctRecords(recs: seq<Record>) {
    forall i, j :: 0 <= i < j < |recs| ==> recs[i].memId != recs[j].memId
  }

  lemma {:induction false} BucketDistinct(recs: seq<Record>, f: Family)
    requires DistinctRecords(recs)
    ensures DistinctRecords(Bucket(recs, f))
  {
    if recs != [] {
      var before, last := recs[..|recs| - 1], recs[|recs| - 1];
      BucketDistinct(before, f);
      forall i | 0 <= i < |Bucket(before, f)|
        ensures Bucket(before, f)[i].memId != last.memId
      {
        BucketMembers(before, f, Bucket(before, f)[i]);
      }
    }
  }

  lemma {:induction false} NamedDistinct(recs: seq<Record>, name: string)
    requires DistinctRecords(recs)
    ensures DistinctRecords(Named(recs, name))
  {
    if recs != [] {
      var before, last := recs[..|recs| - 1], recs[|recs| - 1];
      NamedDistinct(before, name);
      forall i | 0 <= i < |Named(before, name)|
        ensures Named(before, name)[i].memId != last.memId
      {
        NamedMembers(before, name, Named(before, name)[i]);
      }
    }
  }

  /** A restored object: its memids (importResults or exportObmmInfo), their
      remote NUMA ids, and the error it is marked with. */
  datatype Obj = Obj(memIds: seq<MemId>, numaIds: seq<int>, errCode: nat)

  function Sum(sizes: seq<nat>): nat {
    if sizes == [] then 0 else Sum(sizes[..|sizes| - 1]) + sizes[|sizes| - 1]
  }

  /** The families whose construction gives up when the NUMA sizes overflow 64 bits. */
  predicate ChecksSum(f: Family) {
    f == FdImport || f == FdExport || f == ShareImport
  }

  /** Such a group leaves an empty object behind, with nothing to tear down. */
  predicate Dropped(f: Family, group: seq<Record>) {
    group != [] && ChecksSum(f) && Sum(group[0].numaSizes) >= U64
  }

  predicate CompleteGroup(group: seq<Record>) {
    group != [] && |group| == group[0].memidCount
  }

  function RemoteNuma(f: Family, r: Record): int {
    if f == NumaImport || f == AddrImport then r.remoteNumaId else -1
  }

  function ObjOf(f: Family, group: seq<Record>): (o: Obj)
    ensures |o.memIds| == |o.numaIds| == |group|
  {
    Obj(MemIdsOf(group), seq(|group|, i requires 0 <= i < |group| => RemoteNuma(f, group[i])), UBSE_OK)
  }

  const EmptyObj := Obj([], [], UBSE_OK)

  /** ConstructSingle...Obj: the object and whether it is normal. */
  function Constructed(f: Family, group: seq<Record>): (Obj, bool) {
    if group == [] || Dropped(f, group) then (EmptyObj, false)
    else (ObjOf(f, group), CompleteGroup(group))
  }

  function Lookup<T>(m: map<string, T>, name: string): Option<T> {
    if name in m then Some(m[name]) else None
  }

  /** From position k on the ids are live, in front of it they are not. */
  ghost predicate Cut(ids: seq<MemId>, k: nat, live: map<MemId, Meta>) {
    k <= |ids| && forall i :: 0 <= i < |ids| ==> (ids[i] in live <==> k <= i)
  }

  /** After a teardown: gone without trace, or kept as faulty with the memids
      from the failing one on still live. */
  ghost predicate TornDown(o: Obj, entry: Option<Obj>, live: map<MemId, Meta>) {
    match entry
    case None => Cut(o.memIds, |o.memIds|, live)
    case Some(e) =>
      && e == o.(errCode := e.errCode) && e.errCode != UBSE_OK
      && exists k: nat :: k < |o.memIds| && Cut(o.memIds, k, live)
  }

  /** What restoring makes of one group. */
  ghost predicate Settled(f: Family, group: seq<Record>, entry: Option<Obj>, live: map<MemId, Meta>) {
    if Dropped(f, group) then entry.None? && Cut(MemIdsOf(group), 0, live)
    else if CompleteGroup(group) then entry == Some(ObjOf(f, group)) && Cut(MemIdsOf(group), 0, live)
    else TornDown(ObjOf(f, group), entry, live)
  }

  /** Settling depends only on which of the group's own memids are live. */
  lemma SettledFrame(f: Family, group: seq<Record>, entry: Option<Obj>, live: map<MemId, Meta>, live': map<MemId, Meta>)
    requires Settled(f, group, entry, live)
    requires forall r :: r in group ==> (r.memId in live <==> r.memId in live')
    ensures Settled(f, group, entry, live')
  {
    var ids := MemIdsOf(group);
    assert forall i :: 0 <= i < |ids| ==> (ids[i] in live <==> ids[i] in live') by {
      forall i | 0 <= i < |ids|
        ensures ids[i] in live <==> ids[i] in live'
      {
        assert group[i] in group;
      }
    }
    assert forall k: nat :: Cut(ids, k, live) ==> Cut(ids, k, live');
  }

  // ---- Maps of objects ----

  /** The objects list pairwise different memids, all of them live. */
  ghost predicate Disjoint(objs: map<string, Obj>, live: map<MemId, Meta>) {
    && (forall n :: n in objs ==> |objs[n].memIds| == |objs[n].numaIds|)
    && (forall n :: n in objs ==> DistinctIds(objs[n].memIds) && Cut(objs[n].memIds, 0, live))
    && Apart(objs)
  }

  ghost predicate Apart(objs: map<string, Obj>) {
    forall n, m, i, j ::
      (n in objs && m in objs && n != m && 0 <= i < |objs[n].memIds| && 0 <= j < |objs[m].memIds|)
      ==> objs[n].memIds[i] != objs[m].memIds[j]
  }

  /** Nothing but listed memids has gone, and nothing has come. */
  ghost predicate OnlyListedGone(objs: map<string, Obj>, before: map<MemId, Meta>, now: map<MemId, Meta>) {
    && (forall id :: id in now ==> id in before && now[id] == before[id])
    && (forall id :: id in before && id !in now ==> exists n :: n in objs && id in objs[n].memIds)
  }

  /** x is the NUMA id of a listed memid that is gone. */
  ghost predicate DeadNuma(objs: map<string, Obj>, live: map<MemId, Meta>, x: int) {
    exists n, i :: n in objs && 0 <= i < |objs[n].memIds| && i < |objs[n].numaIds|
      && objs[n].memIds[i] !in live && objs[n].numaIds[i] == x
  }

  /** For address imports the NUMA ids of the memids gone, and only those, have
      left the pool; for the others the pool is as it was. */
  ghost predicate NumasFollow(f: Family, objs: map<string, Obj>, live: map<MemId, Meta>,
                              before: set<int>, now: set<int>)
  {
    if f == AddrImport then forall x :: x in now <==> x in before && !DeadNuma(objs, live, x)
    else now == before
  }

  lemma TornDownFrame(o: Obj, entry: Option<Obj>, live: map<MemId, Meta>, live': map<MemId, Meta>)
    requires TornDown(o, entry, live)
    requires forall i :: 0 <= i < |o.memIds| ==> (o.memIds[i] in live <==> o.memIds[i] in live')
    ensures TornDown(o, entry, live')
  {
    assert forall k: nat :: Cut(o.memIds, k, live) ==> Cut(o.memIds, k, live');
  }

  /** Undoing memids of one object leaves those of the others alone. */
  lemma OthersUntouched(objs: map<string, Obj>, name: string, done: nat, before: map<MemId, Meta>, now: map<MemId, Meta>)
    requires name in objs && done <= |objs[name].memIds| && now == before - IdSet(objs[name].memIds[..done])
    requires Apart(objs)
    ensures forall n, i :: n in objs && n != name && 0 <= i < |objs[n].memIds| ==>
      (objs[n].memIds[i] in before <==> objs[n].memIds[i] in now)
  {
  }

  /** One teardown: the object's memids are cut at `done`, and the pool follows. */
  lemma TearDownStep(f: Family, objs: map<string, Obj>, name: string, done: nat,
                     before: map<MemId, Meta>, now: map<MemId, Meta>,
                     reserved: set<int>, reserved': set<int>, start: set<int>)
    requires forall n :: n in objs ==> |objs[n].memIds| == |objs[n].numaIds|
    requires name in objs && done <= |objs[name].memIds|
    requires DistinctIds(objs[name].memIds) && Cut(objs[name].memIds, 0, before) && Apart(objs)
    requires now == before - IdSet(objs[name].memIds[..done])
    requires reserved' == reserved - if f == AddrImport then set n | n in objs[name].numaIds[..done] else {}
    requires NumasFollow(f, objs, before, start, reserved)
    ensures Cut(objs[name].memIds, done, now)
    ensures NumasFollow(f, objs, now, start, reserved')
  {
  }

  // ---- From records to objects ----

  ghost predicate AllLive(recs: seq<Record>, live: map<MemId, Meta>) {
    forall r :: r in recs ==> r.memId in live
  }

  /** The objects are those built from the groups of these records. */
  ghost predicate BuiltFrom(f: Family, recs: seq<Record>, objs: map<string, Obj>) {
    forall n :: n in objs ==> objs[n] == Constructed(f, Named(recs, n)).0
  }

  lemma SameIdSameRecord(recs: seq<Record>, r: Record, s: Record)
    requires DistinctRecords(recs) && r in recs && s in recs && r.memId == s.memId
    ensures r == s
  {
  }

  /** What a built object lists comes from the records of its name, each once. */
  lemma BuiltMembers(f: Family, recs: seq<Record>, objs: map<string, Obj>, n: string)
    requires DistinctRecords(recs) && BuiltFrom(f, recs, objs) && n in objs
    ensures |objs[n].memIds| == |objs[n].numaIds| <= |Named(recs, n)| && DistinctIds(objs[n].memIds)
    ensures forall i :: 0 <= i < |objs[n].memIds| ==>
      && objs[n].memIds[i] == Named(recs, n)[i].memId
      && Named(recs, n)[i] in recs && Named(recs, n)[i].name == n
  {
    NamedDistinct(recs, n);
    ConstructedLists(f, Named(recs, n));
    forall i | 0 <= i < |objs[n].memIds|
      ensures Named(recs, n)[i] in recs && Named(recs, n)[i].name == n
    {
      NamedMembers(recs, n, Named(recs, n)[i]);
    }
  }

  /** An object lists the memids of its group, in order, or nothing. */
  lemma ConstructedLists(f: Family, group: seq<Record>)
    requires DistinctRecords(group)
    ensures
      var o := Constructed(f, group).0;
      && |o.memIds| == |o.numaIds| <= |group| && DistinctIds(o.memIds)
      && forall i :: 0 <= i < |o.memIds| ==> o.memIds[i] == group[i].memId
  {
  }

  lemma BuiltApart(f: Family, recs: seq<Record>, objs: map<string, Obj>, n: string, m: string, i: nat, j: nat)
    requires DistinctRecords(recs) && BuiltFrom(f, recs, objs)
    requires n in objs && m in objs && n != m && i < |objs[n].memIds| && j < |objs[m].memIds|
    ensures objs[n].memIds[i] != objs[m].memIds[j]
  {
    BuiltMembers(f, recs, objs, n);
    BuiltMembers(f, recs, objs, m);
    var r, s := Named(recs, n)[i], Named(recs, m)[j];
    if r.memId == s.memId {
      SameIdSameRecord(recs, r, s);
    }
  }

  /** Objects built from groups of different names share no memid. */
  lemma BuiltDisjoint(f: Family, recs: seq<Record>, objs: map<string, Obj>, live: map<MemId, Meta>)
    requires DistinctRecords(recs) && AllLive(recs, live)
    requires BuiltFrom(f, recs, objs)
    ensures Disjoint(objs, live)
  {
    forall n | n in objs
      ensures |objs[n].memIds| == |objs[n].numaIds| && DistinctIds(objs[n].memIds) && Cut(objs[n].memIds, 0, live)
    {
      BuiltMembers(f, recs, objs, n);
    }
    forall n, m, i, j |
      n in objs && m in objs && n != m && 0 <= i < |objs[n].memIds| && 0 <= j < |objs[m].memIds|
      ensures objs[n].memIds[i] != objs[m].memIds[j]
    {
      BuiltApart(f, recs, objs, n, m, i, j);
    }
  }

  /** A memid listed by an object comes from a record of the object's name. */
  lemma ListedHasRecord(f: Family, recs: seq<Record>, objs: map<string, Obj>, n: string, id: MemId)
    returns (r: Record, i: nat)
    requires BuiltFrom(f, recs, objs) && n in objs && id in objs[n].memIds
    ensures r in recs && r.name == n && r.memId == id
    ensures i < |Named(recs, n)| && r == Named(recs, n)[i] && objs[n] == ObjOf(f, Named(recs, n))
  {
    i :| 0 <= i < |objs[n].memIds| && objs[n].memIds[i] == id;
    r := Named(recs, n)[i];
    NamedMembers(recs, n, r);
  }

  /** A record whose group lists nothing for teardown keeps its memid. */
  lemma UnlistedStaysLive(f: Family, recs: seq<Record>, objs: map<string, Obj>, r: Record,
                          before: map<MemId, Meta>, now: map<MemId, Meta>)
    requires DistinctRecords(recs) && AllLive(recs, before) && OnlyListedGone(objs, before, now)
    requires BuiltFrom(f, recs, objs)
    requires r in recs && (r.name in objs ==> objs[r.name] == EmptyObj)
    ensures r.memId in now
  {
    if r.memId !in now {
      var n :| n in objs && r.memId in objs[n].memIds;
      var s, i := ListedHasRecord(f, recs, objs, n, r.memId);
      SameIdSameRecord(recs, r, s);
    }
  }

  lemma GroupSettled(f: Family, recs: seq<Record>, name: string, abnormal: map<string, Obj>, entry: Option<Obj>,
                     before: map<MemId, Meta>, now: map<MemId, Meta>)
    requires DistinctRecords(recs) && AllLive(recs, before) && OnlyListedGone(abnormal, before, now)
    requires forall n :: n in abnormal ==> Constructed(f, Named(recs, n)) == (abnormal[n], false)
    requires Named(recs, name) != []
    requires name !in abnormal ==>
      Constructed(f, Named(recs, name)).1 && entry == Some(Constructed(f, Named(recs, name)).0)
    requires name in abnormal ==> TornDown(abnormal[name], entry, now)
    ensures Settled(f, Named(recs, name), entry, now)
  {
    var group := Named(recs, name);
    if name !in abnormal || Dropped(f, group) {
      forall i | 0 <= i < |group|
        ensures MemIdsOf(group)[i] in now
      {
        NamedMembers(recs, name, group[i]);
        UnlistedStaysLive(f, recs, abnormal, group[i], before, now);
      }
    }
  }

  ghost predicate OnlyTheseGone(recs: seq<Record>, before: map<MemId, Meta>, now: map<MemId, Meta>) {
    && (forall id :: id in now ==> id in before && now[id] == before[id])
    && (forall id :: id in before && id !in now ==> exists r :: r in recs && r.memId == id)
  }

  lemma GoneAreRecords(f: Family, recs: seq<Record>, objs: map<string, Obj>,
                       before: map<MemId, Meta>, now: map<MemId, Meta>)
    requires OnlyListedGone(objs, before, now)
    requires BuiltFrom(f, recs, objs)
    ensures OnlyTheseGone(recs, before, now)
  {
    forall id | id in before && id !in now
      ensures exists r :: r in recs && r.memId == id
    {
      var n :| n in objs && id in objs[n].memIds;
      var r, i := ListedHasRecord(f, recs, objs, n, id);
    }
  }

  /** The remote NUMA ids of the records whose memid is live, or is not. */
  ghost function NumasWhere(recs: seq<Record>, live: map<MemId, Meta>, alive: bool): set<int> {
    set r | r in recs && (r.memId in live <==> alive) :: r.remoteNumaId
  }

  /** The NUMA ids listed by the objects of the address imports are those of the records. */
  lemma ListedNumas(recs: seq<Record>, x: int, live: map<MemId, Meta>)
    ensures x in NumasWhere(recs, live, true) + NumasWhere(recs, live, false)
       <==> exists n :: n in Names(recs) && x in Constructed(AddrImport, Named(recs, n)).0.numaIds
  {
    if r :| r in recs && r.remoteNumaId == x {
      NamedMembers(recs, r.name, r);
      var i :| 0 <= i < |Named(recs, r.name)| && Named(recs, r.name)[i] == r;
      assert Constructed(AddrImport, Named(recs, r.name)).0.numaIds[i] == x;
    }
    if n :| n in Names(recs) && x in Constructed(AddrImport, Named(recs, n)).0.numaIds {
      var o := Constructed(AddrImport, Named(recs, n)).0;
      var i :| 0 <= i < |o.numaIds| && o.numaIds[i] == x;
      NamedMembers(recs, n, Named(recs, n)[i]);
    }
  }

  /** The NUMA ids given back by the teardown are those of the records gone. */
  lemma DeadNumaHasRecord(recs: seq<Record>, objs: map<string, Obj>, x: int, now: map<MemId, Meta>)
    requires BuiltFrom(AddrImport, recs, objs) && DeadNuma(objs, now, x)
    ensures x in NumasWhere(recs, now, false)
  {
    var n, i :| n in objs && 0 <= i < |objs[n].memIds| && i < |objs[n].numaIds|
      && objs[n].memIds[i] !in now && objs[n].numaIds[i] == x;
    var r := Named(recs, n)[i];
    NamedMembers(recs, n, r);
    assert r in recs && r.memId !in now && r.remoteNumaId == x;
  }

  lemma DeadRecordHasNuma(recs: seq<Record>, objs: map<string, Obj>, r: Record,
                          before: map<MemId, Meta>, now: map<MemId, Meta>)
    requires DistinctRecords(recs) && AllLive(recs, before) && OnlyListedGone(objs, before, now)
    requires BuiltFrom(AddrImport, recs, objs) && r in recs && r.memId !in now
    ensures DeadNuma(objs, now, r.remoteNumaId)
  {
    var n :| n in objs && r.memId in objs[n].memIds;
    var s, i := ListedHasRecord(AddrImport, recs, objs, n, r.memId);
    SameIdSameRecord(recs, r, s);
    assert objs[n].numaIds[i] == r.remoteNumaId;
  }

  /** The pool after the address imports have been restored. */
  lemma PoolAfter(recs: seq<Record>, objs: map<string, Obj>, before: map<MemId, Meta>, now: map<MemId, Meta>,
                  start: set<int>, mid: set<int>, end: set<int>)
    requires DistinctRecords(recs) && AllLive(recs, before) && OnlyListedGone(objs, before, now)
    requires BuiltFrom(AddrImport, recs, objs)
    requires forall x :: x in mid <==>
      x in start || exists n :: n in Names(recs) && x in Constructed(AddrImport, Named(recs, n)).0.numaIds
    requires NumasFollow(AddrImport, objs, now, mid, end)
    ensures end == start + NumasWhere(recs, now, true) + NumasWhere(recs, now, false) - NumasWhere(recs, now, false)
  {
    var alive, dead := NumasWhere(recs, now, true), NumasWhere(recs, now, false);
    forall x
      ensures x in end <==> x in start + alive + dead - dead
    {
      ListedNumas(recs, x, now);
      if DeadNuma(objs, now, x) {
        DeadNumaHasRecord(recs, objs, x, now);
      }
      if x in dead {
        var r :| r in recs && r.memId !in now && r.remoteNumaId == x;
        DeadRecordHasNuma(recs, objs, r, before, now);
      }
      assert x in end <==> x in mid && !DeadNuma(objs, now, x);
    }
  }

  /** The settled groups of a family, given its normal and its torn down objects. */
  lemma FamilySettled(f: Family, recs: seq<Record>, normal: map<string, Obj>, abnormal: map<string, Obj>,
                      faults: map<string, Obj>, before: map<MemId, Meta>, now: map<MemId, Meta>)
    requires DistinctRecords(recs) && AllLive(recs, before) && OnlyListedGone(abnormal, before, now)
    requires normal.Keys !! abnormal.Keys && normal.Keys + abnormal.Keys == Names(recs) && faults.Keys <= abnormal.Keys
    requires forall n :: n in normal ==> Constructed(f, Named(recs, n)) == (normal[n], true)
    requires forall n :: n in abnormal ==> Constructed(f, Named(recs, n)) == (abnormal[n], false)
    requires forall n :: n in abnormal ==> TornDown(abnormal[n], Lookup(faults, n), now)
    ensures forall n :: n in Names(recs) ==> Settled(f, Named(recs, n), Lookup(normal + faults, n), now)
  {
    forall n | n in Names(recs)
      ensures Settled(f, Named(recs, n), Lookup(normal + faults, n), now)
    {
      var r :| r in recs && r.name == n;
      NamedMembers(recs, n, r);
      GroupSettled(f, recs, n, abnormal, Lookup(normal + faults, n), before, now);
    }
  }

  ghost predicate Grouped(groups: map<string, seq<Record>>, recs: seq<Record>) {
    && groups.Keys == Names(recs)
    && forall n :: n in groups ==> groups[n] == Named(recs, n)
  }

  lemma NamedAppend(recs: seq<Record>, r: Record, n: string)
    ensures Named(recs + [r], n) == Named(recs, n) + if r.name == n then [r] else []
  {
    assert (recs + [r])[..|recs|] == recs;
  }

  lemma NamelessEmpty(recs: seq<Record>, n: string)
    requires n !in Names(recs)
    ensures Named(recs, n) == []
  {
    if Named(recs, n) != [] {
      NamedMembers(recs, n, Named(recs, n)[0]);
    }
  }

  lemma GroupOneMore(groups: map<string, seq<Record>>, recs: seq<Record>, r: Record)
    requires Grouped(groups, recs)
    ensures Grouped(groups[r.name := (if r.name in groups then groups[r.name] else []) + [r]], recs + [r])
    ensures [] + [r] == [r]
  {
    var groups' := groups[r.name := (if r.name in groups then groups[r.name] else []) + [r]];
    forall n | n in groups'
      ensures groups'[n] == Named(recs + [r], n)
    {
      NamedAppend(recs, r, n);
      if n !in groups {
        NamelessEmpty(recs, n);
      }
    }
    assert Names(recs + [r]) == Names(recs) + {r.name};
  }

  class Restorer {
    const kernel: Kernel
    const pool: NumaPool

    constructor (kernel: Kernel, pool: NumaPool)
      ensures this.kernel == kernel && this.pool == pool
    {
      this.kernel := kernel;
      this.pool := pool;
    }

    /** ClassifyLocalObmmMetaData; records of no known kind are left out. */
    method Classify(recs: seq<Record>) returns (buckets: map<Family, seq<Record>>)
      ensures forall f: Family :: f in buckets && buckets[f] == Bucket(recs, f)
    {
      buckets := map[FdImport := [], NumaImport := [], ShareImport := [], AddrImport := [],
                     FdExport := [], NumaExport := [], ShareExport := [], AddrExport := []];
      forall f: Family
        ensures f in buckets && buckets[f] == []
      {
        match f case FdImport => case NumaImport => case ShareImport => case AddrImport =>
                case FdExport => case NumaExport => case ShareExport => case AddrExport =>
      }
      for i := 0 to |recs|
        invariant forall f: Family :: f in buckets && buckets[f] == Bucket(recs[..i], f)
      {
        assert recs[..i + 1][..i] == recs[..i];
        var f := FamilyOf(recs[i]);
        if f.Some? {
          buckets := buckets[f.value := buckets[f.value] + [recs[i]]];
        }
      }
      assert recs[..|recs|] == recs;
    }

    /** GetBorrowObjMap */
    method GroupByName(recs: seq<Record>) returns (groups: map<string, seq<Record>>)
      ensures groups.Keys == Names(recs)
      ensures forall n :: n in groups ==> groups[n] == Named(recs, n)
    {
      groups := map[];
      for i := 0 to |recs|
        invariant Grouped(groups, recs[..i])
      {
        groups := AddToGroup(groups, recs[i], recs[..i]);
        assert recs[..i + 1] == recs[..i] + [recs[i]];
      }
      assert recs[..|recs|] == recs;
    }

    method AddToGroup(groups: map<string, seq<Record>>, r: Record, ghost recs: seq<Record>)
      returns (groups': map<string, seq<Record>>)
      requires Grouped(groups, recs)
      ensures Grouped(groups', recs + [r])
    {
      GroupOneMore(groups, recs, r);
      if r.name in groups {
        groups' := groups[r.name := groups[r.name] + [r]];
      } else {
        groups' := groups[r.name := [r]];
      }
    }

    method SumOverflows(sizes: seq<nat>) returns (overflow: bool)
      ensures overflow <==> Sum(sizes) >= U64
    {
      var total := 0;
      for i := 0 to |sizes|
        invariant total == Sum(sizes[..i]) < U64
      {
        assert sizes[..i + 1][..i] == sizes[..i];
        if sizes[i] != 0 {
          if total + sizes[i] >= U64 {
            SumGrows(sizes, i + 1);
            return true;
          }
          total := total + sizes[i];
        }
      }
      assert sizes[..|sizes|] == sizes;
      return false;
    }

    lemma {:induction false} SumGrows(sizes: seq<nat>, k: nat)
      requires k <= |sizes|
      ensures Sum(sizes[..k]) <= Sum(sizes)
    {
      if k == |sizes| {
        assert sizes[..k] == sizes;
      } else {
        var shorter := sizes[..|sizes| - 1];
        SumGrows(shorter, k);
        assert shorter[..k] == sizes[..k];
      }
    }

    method ConstructSingle(f: Family, group: seq<Record>) returns (obj: Obj, isNormal: bool)
      modifies pool
      ensures (obj, isNormal) == Constructed(f, group)
      ensures pool.reserved == old(pool.reserved) + if f == AddrImport then set n | n in obj.numaIds else {}
      ensures isNormal <==>
        && |group| > 0 && |group| == group[0].memidCount
        && ((f == FdImport || f == FdExport || f == ShareImport) ==> Sum(group[0].numaSizes) < 0x1_0000_0000_0000_0000)
      ensures isNormal ==>
        && obj.errCode == 0 && |obj.memIds| == |obj.numaIds| == |group|
        && forall i :: 0 <= i < |group| ==>
             && obj.memIds[i] == group[i].memId
             && obj.numaIds[i] == if f == NumaImport || f == AddrImport then group[i].remoteNumaId else -1
    {
      if group == [] {
        return EmptyObj, false;
      }
      if ChecksSum(f) {
        var overflow := SumOverflows(group[0].numaSizes);
        if overflow {
          return EmptyObj, false;
        }
      }
      var memIds: seq<MemId>, numaIds: seq<int> := [], [];
      for i := 0 to |group|
        invariant memIds == MemIdsOf(group[..i])
        invariant |numaIds| == i && forall k :: 0 <= k < i ==> numaIds[k] == RemoteNuma(f, group[k])
        invariant pool.reserved == old(pool.reserved) + if f == AddrImport then set n | n in numaIds else {}
      {
        memIds, numaIds := memIds + [group[i].memId], numaIds + [RemoteNuma(f, group[i])];
        if f == AddrImport {
          pool.Add(group[i].remoteNumaId);
        }
      }
      assert group[..|group|] == group;
      obj, isNormal := Obj(memIds, numaIds, UBSE_OK), |memIds| == group[0].memidCount;
      assert obj == ObjOf(f, group);
    }

    /** Undoing the memids of an object up to the first failure. An address import
        gives its NUMA ids back as it goes. */
    method TearDown(f: Family, obj: Obj) returns (ret: nat, ghost done: nat)
      requires |obj.numaIds| == |obj.memIds|
      modifies kernel`live, kernel`undoFailures, pool
      ensures done <= |obj.memIds| && kernel.live == old(kernel.live) - IdSet(obj.memIds[..done])
      ensures ret == UBSE_OK <==> done == |obj.memIds|
      ensures pool.reserved
           == old(pool.reserved) - if f == AddrImport then set n | n in obj.numaIds[..done] else {}
    {
      ret, done := UBSE_OK, 0;
      for i := 0 to |obj.memIds|
        invariant ret == UBSE_OK && done == i
        invariant kernel.live == old(kernel.live) - IdSet(obj.memIds[..i])
        invariant pool.reserved
               == old(pool.reserved) - if f == AddrImport then set n | n in obj.numaIds[..i] else {}
      {
        assert obj.memIds[..i + 1] == obj.memIds[..i] + [obj.memIds[i]];
        assert obj.numaIds[..i + 1] == obj.numaIds[..i] + [obj.numaIds[i]];
        ret := kernel.Undo(obj.memIds[i]);
        if ret != UBSE_OK {
          return;
        }
        if f == AddrImport {
          pool.Delete(obj.numaIds[i]);
        }
        done := i + 1;
      }
    }

    /** ProcessAbnormalImportObjMap, ProcessAbnormalExportObjMap and ProcessAbnormalAddrImportObjMap. */
    method ProcessAbnormal(f: Family, objs: map<string, Obj>) returns (faults: map<string, Obj>)
      requires Disjoint(objs, kernel.live)
      modifies kernel`live, kernel`undoFailures, pool
      ensures faults.Keys <= objs.Keys
      ensures forall n :: n in objs ==> TornDown(objs[n], Lookup(faults, n), kernel.live)
      ensures OnlyListedGone(objs, old(kernel.live), kernel.live)
      ensures NumasFollow(f, objs, kernel.live, old(pool.reserved), pool.reserved)
    {
      faults := map[];
      var left := objs.Keys;
      while left != {}
        invariant left <= objs.Keys && faults.Keys <= objs.Keys - left
        invariant forall n :: n in objs && n !in left ==> TornDown(objs[n], Lookup(faults, n), kernel.live)
        invariant forall n :: n in left ==> Cut(objs[n].memIds, 0, kernel.live)
        invariant OnlyListedGone(objs, old(kernel.live), kernel.live)
        invariant NumasFollow(f, objs, kernel.live, old(pool.reserved), pool.reserved)
        decreases left
      {
        var name :| name in left;
        left := left - {name};
        ghost var before, reserved := kernel.live, pool.reserved;
        var ret, done := TearDown(f, objs[name]);
        TearDownStep(f, objs, name, done, before, kernel.live, reserved, pool.reserved, old(pool.reserved));
        OthersUntouched(objs, name, done, before, kernel.live);
        if ret != UBSE_OK {
          faults := faults[name := objs[name].(errCode := ret)];
          assert Cut(objs[name].memIds, done, kernel.live);
        }
        forall n | n in objs && n !in left
          ensures TornDown(objs[n], Lookup(faults, n), kernel.live)
        {
          if n != name {
            TornDownFrame(objs[n], Lookup(faults, n), before, kernel.live);
          }
        }
      }
    }

    /** The first half of every Construct...Obj: build all objects, then sort them. */
    method ConstructAll(f: Family, groups: map<string, seq<Record>>)
      returns (normal: map<string, Obj>, abnormal: map<string, Obj>)
      modifies pool
      ensures normal.Keys !! abnormal.Keys && normal.Keys + abnormal.Keys == groups.Keys
      ensures forall n :: n in normal ==> Constructed(f, groups[n]) == (normal[n], true)
      ensures forall n :: n in abnormal ==> Constructed(f, groups[n]) == (abnormal[n], false)
      ensures forall x :: x in pool.reserved <==>
        x in old(pool.reserved) || (f == AddrImport && exists n :: n in groups && x in Constructed(f, groups[n]).0.numaIds)
      ensures f != AddrImport ==> pool.reserved == old(pool.reserved)
    {
      normal, abnormal := map[], map[];
      var left := groups.Keys;
      while left != {}
        invariant left <= groups.Keys
        invariant normal.Keys !! abnormal.Keys && normal.Keys + abnormal.Keys == groups.Keys - left
        invariant forall n :: n in normal ==> Constructed(f, groups[n]) == (normal[n], true)
        invariant forall n :: n in abnormal ==> Constructed(f, groups[n]) == (abnormal[n], false)
        invariant forall x :: x in pool.reserved <==>
          x in old(pool.reserved)
          || (f == AddrImport && exists n :: n in groups.Keys - left && x in Constructed(f, groups[n]).0.numaIds)
        decreases left
      {
        var name :| name in left;
        var obj, isNormal := ConstructSingle(f, groups[name]);
        left := left - {name};
        if isNormal {
          normal := normal[name := obj];
        } else {
          abnormal := abnormal[name := obj];
        }
      }
    }

    /** Construct...Obj of one family. */
    method RestoreFamily(f: Family, recs: seq<Record>) returns (objs: map<string, Obj>)
      requires DistinctRecords(recs) && AllLive(recs, kernel.live)
      modifies kernel`live, kernel`undoFailures, pool
      ensures objs.Keys <= Names(recs)
      ensures forall n :: n in Names(recs) ==> Settled(f, Named(recs, n), Lookup(objs, n), kernel.live)
      ensures OnlyTheseGone(recs, old(kernel.live), kernel.live)
      ensures pool.reserved == if f == AddrImport
        then old(pool.reserved) + NumasWhere(recs, kernel.live, true) + NumasWhere(recs, kernel.live, false)
             - NumasWhere(recs, kernel.live, false)
        else old(pool.reserved)
    {
      var groups := GroupByName(recs);
      var normal, abnormal := ConstructAll(f, groups);
      ghost var mid := pool.reserved;
      BuiltDisjoint(f, recs, abnormal, kernel.live);
      var faults := ProcessAbnormal(f, abnormal);
      objs := normal + faults;
      FamilySettled(f, recs, normal, abnormal, faults, old(kernel.live), kernel.live);
      GoneAreRecords(f, recs, abnormal, old(kernel.live), kernel.live);
      if f == AddrImport {
        PoolAfter(recs, abnormal, old(kernel.live), kernel.live, old(pool.reserved), mid, pool.reserved);
      }
    }
  }
}

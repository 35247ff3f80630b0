/**
 The whole ledger after a restart: all eight families restored one after the
 other, and what that keeps of the memory that was live before.
 */
module RestoreLedger {
  import opened AddrBorrow
  import opened ObmmBatch
  import opened ObmmKernel
  import opened Options
  import opened Restore
  import opened Sets

  type Ledger = map<Family, map<string, Obj>>

  ghost function Group(recs: seq<Record>, f: Family, name: string): seq<Record> {
    Named(Bucket(recs, f), name)
  }

  ghost predicate FamilyOk(recs: seq<Record>, f: Family, objs: map<string, Obj>, live: map<MemId, Meta>) {
    && objs.Keys <= Names(Bucket(recs, f))
    && forall n :: n in Names(Bucket(recs, f)) ==> Settled(f, Group(recs, f, n), Lookup(objs, n), live)
  }

  /** What restoring makes of all the records. */
  ghost predicate Outcome(recs: seq<Record>, ledger: Ledger, live: map<MemId, Meta>) {
    forall f: Family :: f in ledger && FamilyOk(recs, f, ledger[f], live)
  }

  ghost predicate Listed(ledger: Ledger, f: Family, name: string, id: MemId) {
    f in ledger && name in ledger[f] && id in ledger[f][name].memIds
  }

  lemma GroupMembers(recs: seq<Record>, f: Family, name: string, r: Record)
    ensures r in Group(recs, f, name) <==> r in recs && FamilyOf(r) == Some(f) && r.name == name
  {
    BucketMembers(recs, f, r);
    NamedMembers(Bucket(recs, f), name, r);
  }

  // ---- Groups and what becomes of them, told by counts and positions ----

  /** A record of this kind and name. */
  predicate IsOf(r: Record, f: Family, name: string) {
    && r.name == name
    && r.obmmType == (if f == FdImport || f == NumaImport || f == ShareImport || f == AddrImport then 0 else 1)
    && r.borrowType
       == (if f == FdImport || f == FdExport then 0 else if f == NumaImport || f == NumaExport then 1
           else if f == ShareImport || f == ShareExport then 2 else 3)
  }

  lemma KindIsFamily(r: Record, f: Family, name: string)
    ensures IsOf(r, f, name) <==> FamilyOf(r) == Some(f) && r.name == name
  {
  }

  lemma GroupOneMoreRecord(recs: seq<Record>, f: Family, name: string)
    requires recs != []
    ensures
      var front, last := recs[..|recs| - 1], recs[|recs| - 1];
      Group(recs, f, name) == Group(front, f, name) + if IsOf(last, f, name) then [last] else []
  {
    var front, last := recs[..|recs| - 1], recs[|recs| - 1];
    KindIsFamily(last, f, name);
    if FamilyOf(last) == Some(f) {
      NamedAppend(Bucket(front, f), last, name);
    } else {
      assert Bucket(front, f) + [] == Bucket(front, f);
    }
  }

  /** These records stand at these positions, in this order. */
  ghost predicate StandAt(g: seq<Record>, recs: seq<Record>, at: seq<nat>) {
    && |at| == |g|
    && (forall k :: 0 <= k < |at| ==> at[k] < |recs| && g[k] == recs[at[k]])
    && (forall j, k :: 0 <= j < k < |at| ==> at[j] < at[k])
  }

  lemma StandOneMore(g: seq<Record>, recs: seq<Record>, at: seq<nat>, r: Record)
    requires StandAt(g, recs, at)
    ensures StandAt(g, recs + [r], at) && StandAt(g + [r], recs + [r], at + [|recs|])
  {
  }

  /** A group holds the records of its two type codes and name, in their order. */
  lemma {:induction false} GroupInOrder(recs: seq<Record>, f: Family, name: string) returns (at: seq<nat>)
    ensures StandAt(Group(recs, f, name), recs, at)
    ensures forall r :: r in Group(recs, f, name) <==> r in recs && IsOf(r, f, name)
  {
    at := [];
    if recs != [] {
      var front, last := recs[..|recs| - 1], recs[|recs| - 1];
      assert recs == front + [last];
      at := GroupInOrder(front, f, name);
      GroupOneMoreRecord(recs, f, name);
      StandOneMore(Group(front, f, name), front, at, last);
      if IsOf(last, f, name) {
        at := at + [|front|];
      } else {
        assert Group(recs, f, name) == Group(front, f, name);
      }
    }
  }

  lemma SumAppend(sizes: seq<nat>, x: nat)
    ensures Sum([]) == 0 && Sum(sizes + [x]) == Sum(sizes) + x
  {
    assert (sizes + [x])[..|sizes|] == sizes;
  }

  /** The sizes of a kind of records that adds them up do not fit 64 bits. */
  ghost predicate Overflows(f: Family, r: Record) {
    (f == FdImport || f == FdExport || f == ShareImport) && Sum(r.numaSizes) >= 0x1_0000_0000_0000_0000
  }

  ghost predicate Intact(ledger: Ledger, f: Family, name: string) {
    f in ledger && name in ledger[f] && ledger[f][name].errCode == 0
  }

  /** The memids of the group are live from position k on. */
  ghost predicate LiveFrom(g: seq<Record>, k: nat, live: map<MemId, Meta>) {
    forall i :: 0 <= i < |g| ==> (g[i].memId in live <==> k <= i)
  }

  /** What becomes of a group, told by its counts. A group that overflows is lost
      from the ledger while its memids stay live. Another one stays live and is
      listed without an error if it has as many records as the first of them
      counts; if not, all its memids have gone, or it is listed as faulty and
      those from one position on are still live. */
  ghost predicate Told(f: Family, g: seq<Record>, entry: Option<Obj>, live: map<MemId, Meta>) {
    if |g| == 0 then entry.None?
    else if Overflows(f, g[0]) then entry.None? && LiveFrom(g, 0, live)
    else if |g| == g[0].memidCount then
      entry.Some? && entry.value.errCode == 0 && ListsAll(entry.value, f, g) && LiveFrom(g, 0, live)
    else
      && (entry.None? ==> LiveFrom(g, |g|, live))
      && (entry.Some? ==>
            && entry.value.errCode != 0 && ListsAll(entry.value, f, g)
            && exists k :: 0 <= k < |g| && LiveFrom(g, k, live))
  }

  /** The entry lists the group's memids in order, imports that have one with the remote NUMA id. */
  ghost predicate ListsAll(o: Obj, f: Family, g: seq<Record>) {
    && |o.memIds| == |o.numaIds| == |g|
    && forall i :: 0 <= i < |g| ==>
         && o.memIds[i] == g[i].memId
         && o.numaIds[i] == if f == NumaImport || f == AddrImport then g[i].remoteNumaId else -1
  }

  lemma NamelessGroup(recs: seq<Record>, f: Family, name: string)
    ensures name in Names(Bucket(recs, f)) <==> |Group(recs, f, name)| > 0
  {
    if name in Names(Bucket(recs, f)) {
      var r :| r in Bucket(recs, f) && r.name == name;
      NamedMembers(Bucket(recs, f), name, r);
    } else {
      NamelessEmpty(Bucket(recs, f), name);
    }
  }

  lemma KeptIsLive(group: seq<Record>, k: nat, live: map<MemId, Meta>)
    requires Cut(MemIdsOf(group), k, live)
    ensures LiveFrom(group, k, live)
  {
    forall i | 0 <= i < |group|
      ensures group[i].memId in live <==> k <= i
    {
      assert MemIdsOf(group)[i] == group[i].memId;
    }
  }

  lemma SettledTells(f: Family, g: seq<Record>, entry: Option<Obj>, live: map<MemId, Meta>)
    requires g != [] && Settled(f, g, entry, live)
    ensures Told(f, g, entry, live)
  {
    if Dropped(f, g) || CompleteGroup(g) {
      KeptIsLive(g, 0, live);
    } else if entry.Some? {
      var k: nat :| k < |g| && Cut(MemIdsOf(g), k, live);
      KeptIsLive(g, k, live);
    } else {
      KeptIsLive(g, |g|, live);
    }
  }

  lemma EntryTells(recs: seq<Record>, ledger: Ledger, live: map<MemId, Meta>, f: Family, name: string)
    requires Outcome(recs, ledger, live)
    ensures Told(f, Group(recs, f, name), Lookup(ledger[f], name), live)
  {
    NamelessGroup(recs, f, name);
    assert FamilyOk(recs, f, ledger[f], live);
    if name in Names(Bucket(recs, f)) {
      SettledTells(f, Group(recs, f, name), Lookup(ledger[f], name), live);
    }
  }

  lemma AllTold(recs: seq<Record>, ledger: Ledger, live: map<MemId, Meta>)
    requires Outcome(recs, ledger, live)
    ensures forall f: Family, n ::
      var g := Group(recs, f, n);
      f in ledger
      && (n in ledger[f] && ledger[f][n].errCode == 0 <==>
            && |g| > 0 && |g| == g[0].memidCount
            && ((f == FdImport || f == FdExport || f == ShareImport) ==>
                  Sum(g[0].numaSizes) < 0x1_0000_0000_0000_0000))
    ensures forall f: Family, n :: Told(f, Group(recs, f, n), Lookup(ledger[f], n), live)
  {
    forall f: Family, n
      ensures
        var g := Group(recs, f, n);
        f in ledger
        && (n in ledger[f] && ledger[f][n].errCode == 0 <==>
              && |g| > 0 && |g| == g[0].memidCount
              && ((f == FdImport || f == FdExport || f == ShareImport) ==>
                    Sum(g[0].numaSizes) < 0x1_0000_0000_0000_0000))
      ensures Told(f, Group(recs, f, n), Lookup(ledger[f], n), live)
    {
      EntryTells(recs, ledger, live, f, n);
      assert f in ledger;
    }
  }

  lemma {:induction false} DistinctBound(ids: seq<MemId>, others: seq<MemId>)
    requires DistinctIds(ids) && DistinctIds(others) && IdSet(ids) <= IdSet(others)
    ensures |ids| <= |others| && (|ids| == |others| <==> IdSet(ids) == IdSet(others))
  {
    DistinctElements(ids);
    DistinctElements(others);
    assert IdSet(ids) == Elements(ids) && IdSet(others) == Elements(others);
    SubsetSize(IdSet(ids), IdSet(others));
    if |ids| == |others| {
      SubsetSize(IdSet(others) - IdSet(ids), IdSet(others) - IdSet(ids));
      assert |IdSet(others)| == |IdSet(ids)| + |IdSet(others) - IdSet(ids)|;
    }
  }

  /** The records of this kind and name are some of a batch of memids, each with
      the memid count that the batch wrote. */
  ghost predicate FromBatch(recs: seq<Record>, f: Family, name: string, ids: seq<MemId>, made: map<MemId, Meta>) {
    forall r :: r in recs && IsOf(r, f, name) ==>
      r.memId in ids && r.memId in made && r.memidCount == made[r.memId].memidCount
  }

  ghost predicate AllThere(recs: seq<Record>, f: Family, name: string, ids: seq<MemId>) {
    forall id :: id in ids ==> exists r :: r in recs && IsOf(r, f, name) && r.memId == id
  }

  lemma GroupMemIds(recs: seq<Record>, f: Family, name: string)
    ensures forall id :: id in IdSet(MemIdsOf(Group(recs, f, name)))
                    <==> exists r :: r in recs && IsOf(r, f, name) && r.memId == id
  {
    var g := Group(recs, f, name);
    var at := GroupInOrder(recs, f, name);
    forall id
      ensures id in IdSet(MemIdsOf(g)) <==> exists r :: r in recs && IsOf(r, f, name) && r.memId == id
    {
      if id in MemIdsOf(g) {
        var i :| 0 <= i < |g| && MemIdsOf(g)[i] == id;
        assert g[i] in g;
      }
      if r :| r in recs && IsOf(r, f, name) && r.memId == id {
        var i :| 0 <= i < |g| && g[i] == r;
        assert MemIdsOf(g)[i] == id;
      }
    }
  }

  lemma GroupIsPart(recs: seq<Record>, f: Family, name: string, ids: seq<MemId>, made: map<MemId, Meta>)
    requires DistinctRecords(recs) && DistinctIds(ids) && FromBatch(recs, f, name, ids, made)
    ensures
      var g := Group(recs, f, name);
      |g| <= |ids| && (|g| == |ids| <==> AllThere(recs, f, name, ids))
  {
    var g := Group(recs, f, name);
    BucketDistinct(recs, f);
    NamedDistinct(Bucket(recs, f), name);
    var part := MemIdsOf(g);
    GroupMemIds(recs, f, name);
    DistinctBound(part, ids);
    if IdSet(part) == IdSet(ids) {
      forall id | id in ids
        ensures exists r :: r in recs && IsOf(r, f, name) && r.memId == id
      {
        assert id in IdSet(part);
      }
    }
    if AllThere(recs, f, name, ids) {
      forall id | id in ids
        ensures id in IdSet(part)
      {
      }
    }
  }

  lemma FirstCounts(recs: seq<Record>, f: Family, name: string, ids: seq<MemId>, made: map<MemId, Meta>)
    requires DistinctRecords(recs) && DistinctIds(ids) && FromBatch(recs, f, name, ids, made)
    requires forall id :: id in ids ==> id in made && made[id].memidCount == |ids| % 65536
    requires forall r :: r in recs && IsOf(r, f, name) ==> !Overflows(f, r)
    ensures
      var g := Group(recs, f, name);
      |g| > 0 ==> g[0].memidCount == |ids| % 65536 && !Overflows(f, g[0])
  {
    var g := Group(recs, f, name);
    if |g| > 0 {
      GroupMembers(recs, f, name, g[0]);
      KindIsFamily(g[0], f, name);
    }
  }

  /** A batch of memids comes back whole or not at all: whatever part of it is
      found after a restart, the entry is without an error exactly if that is all of
      it. The count written has 16 bits, so that this holds of batches below 65536
      memids, and a larger one is not restored even if all of it is found. */
  lemma BatchComesBackWhole(recs: seq<Record>, ledger: Ledger, live: map<MemId, Meta>, f: Family, name: string,
                            ids: seq<MemId>, made: map<MemId, Meta>)
    requires Outcome(recs, ledger, live) && DistinctRecords(recs)
    requires DistinctIds(ids) && ids != [] && FromBatch(recs, f, name, ids, made)
    requires forall id :: id in ids ==> id in made && made[id].memidCount == |ids| % 65536
    requires forall r :: r in recs && IsOf(r, f, name) ==> !Overflows(f, r)
    ensures |ids| < 65536 ==> (Intact(ledger, f, name) <==> AllThere(recs, f, name, ids))
    ensures AllThere(recs, f, name, ids) ==> (Intact(ledger, f, name) <==> |ids| < 65536)
  {
    GroupIsPart(recs, f, name, ids, made);
    EntryTells(recs, ledger, live, f, name);
    FirstCounts(recs, f, name, ids, made);
  }

  lemma ExportComesBackWhole(recs: seq<Record>, ledger: Ledger, live: map<MemId, Meta>, f: Family, name: string,
                             meta: Meta, rows: seq<seq<nat>>, ids: seq<MemId>, before: map<MemId, Meta>, made: map<MemId, Meta>)
    requires Outcome(recs, ledger, live) && DistinctRecords(recs)
    requires Complete(ExportMetas(meta, rows, |rows|), ids, before, made) && ids != []
    requires FromBatch(recs, f, name, ids, made)
    requires forall r :: r in recs && IsOf(r, f, name) ==> !Overflows(f, r)
    ensures |ids| < 65536 ==> (Intact(ledger, f, name) <==> AllThere(recs, f, name, ids))
    ensures AllThere(recs, f, name, ids) ==> (Intact(ledger, f, name) <==> |ids| < 65536)
  {
    BatchComesBackWhole(recs, ledger, live, f, name, ids, made);
  }

  lemma ImportComesBackWhole(recs: seq<Record>, ledger: Ledger, live: map<MemId, Meta>, f: Family, name: string,
                             meta: Meta, descs: seq<MemId>, ids: seq<MemId>, before: map<MemId, Meta>, made: map<MemId, Meta>)
    requires Outcome(recs, ledger, live) && DistinctRecords(recs)
    requires Complete(ImportMetas(meta, descs, |descs|), ids, before, made) && ids != []
    requires FromBatch(recs, f, name, ids, made)
    requires forall r :: r in recs && IsOf(r, f, name) ==> !Overflows(f, r)
    ensures |ids| < 65536 ==> (Intact(ledger, f, name) <==> AllThere(recs, f, name, ids))
    ensures AllThere(recs, f, name, ids) ==> (Intact(ledger, f, name) <==> |ids| < 65536)
  {
    BatchComesBackWhole(recs, ledger, live, f, name, ids, made);
  }

  /** The same for the results of an address import of as many entries. */
  lemma AddrComesBackWhole(recs: seq<Record>, ledger: Ledger, live: map<MemId, Meta>, name: string,
                           results: seq<ImportResult>, made: map<MemId, Meta>)
    requires Outcome(recs, ledger, live) && DistinctRecords(recs)
    requires DistinctIds(Ids(results)) && results != []
    requires AllMarked(results, made, AddrMeta(name, |results|))
    requires FromBatch(recs, AddrImport, name, Ids(results), made)
    ensures |results| < 65536 ==> (Intact(ledger, AddrImport, name) <==> AllThere(recs, AddrImport, name, Ids(results)))
    ensures AllThere(recs, AddrImport, name, Ids(results)) ==> (Intact(ledger, AddrImport, name) <==> |results| < 65536)
  {
    forall id | id in Ids(results)
      ensures id in made && made[id].memidCount == |results| % 65536
    {
      var i :| 0 <= i < |results| && Ids(results)[i] == id;
      assert results[i] in results;
    }
    BatchComesBackWhole(recs, ledger, live, AddrImport, name, Ids(results), made);
  }

  /** Only records of the object's own family and name are listed in an object. */
  lemma ListedComesFromRecord(recs: seq<Record>, ledger: Ledger, live: map<MemId, Meta>, f: Family, name: string, id: MemId)
    returns (r: Record, i: nat)
    requires Outcome(recs, ledger, live) && Listed(ledger, f, name, id)
    ensures r in recs && FamilyOf(r) == Some(f) && r.name == name && r.memId == id
    ensures name in Names(Bucket(recs, f)) && i < |Group(recs, f, name)| && r == Group(recs, f, name)[i]
    ensures !Dropped(f, Group(recs, f, name)) && ledger[f][name].memIds == MemIdsOf(Group(recs, f, name))
    ensures ledger[f][name].memIds[i] == id
  {
    var group := Group(recs, f, name);
    assert FamilyOk(recs, f, ledger[f], live);
    assert Settled(f, group, Lookup(ledger[f], name), live);
    i :| 0 <= i < |ledger[f][name].memIds| && ledger[f][name].memIds[i] == id;
    r := group[i];
    GroupMembers(recs, f, name, r);
  }

  /** No memid is listed in two objects. */
  lemma ListedOnce(recs: seq<Record>, ledger: Ledger, live: map<MemId, Meta>,
                   f: Family, n: string, g: Family, m: string, id: MemId)
    requires Outcome(recs, ledger, live) && DistinctRecords(recs)
    requires Listed(ledger, f, n, id) && Listed(ledger, g, m, id)
    ensures f == g && n == m
  {
    var r, i := ListedComesFromRecord(recs, ledger, live, f, n, id);
    var s, j := ListedComesFromRecord(recs, ledger, live, g, m, id);
    SameIdSameRecord(recs, r, s);
  }

  /** A live recognised memid is listed under its own family and name, unless its group was dropped. */
  lemma LiveIsListed(recs: seq<Record>, ledger: Ledger, live: map<MemId, Meta>, f: Family, r: Record)
    requires Outcome(recs, ledger, live)
    requires r in recs && FamilyOf(r) == Some(f) && r.memId in live
    ensures Listed(ledger, f, r.name, r.memId) <==> !Dropped(f, Group(recs, f, r.name))
  {
    var group := Group(recs, f, r.name);
    GroupMembers(recs, f, r.name, r);
    BucketMembers(recs, f, r);
    assert FamilyOk(recs, f, ledger[f], live) && r.name in Names(Bucket(recs, f));
    assert Settled(f, group, Lookup(ledger[f], r.name), live);
    var i :| 0 <= i < |group| && group[i] == r;
    assert MemIdsOf(group)[i] == r.memId;
  }

  /** Every live recognised memid is listed in exactly one object, namely the
      one of its family and name. */
  ghost predicate NothingLost(recs: seq<Record>, ledger: Ledger, live: map<MemId, Meta>) {
    forall r :: r in recs && FamilyOf(r).Some? && r.memId in live ==>
      && Listed(ledger, FamilyOf(r).value, r.name, r.memId)
      && forall f, n :: Listed(ledger, f, n, r.memId) ==> f == FamilyOf(r).value && n == r.name
  }

  /** No group's NUMA sizes overflow 64 bits where the restorer adds them up. */
  ghost predicate SizesFit(recs: seq<Record>) {
    forall f: Family, n :: n in Names(Bucket(recs, f)) ==> !Dropped(f, Group(recs, f, n))
  }

  /** The ledger loses no live memid exactly when the NUMA sizes of the records
      sum within 64 bits: a group that overflows stays live and unlisted. */
  lemma Conservation(recs: seq<Record>, ledger: Ledger, live: map<MemId, Meta>)
    requires Outcome(recs, ledger, live) && DistinctRecords(recs)
    ensures NothingLost(recs, ledger, live) <==> SizesFit(recs)
  {
    if SizesFit(recs) {
      forall r | r in recs && FamilyOf(r).Some? && r.memId in live
        ensures Listed(ledger, FamilyOf(r).value, r.name, r.memId)
        ensures forall f, n :: Listed(ledger, f, n, r.memId) ==> f == FamilyOf(r).value && n == r.name
      {
        var g := FamilyOf(r).value;
        BucketMembers(recs, g, r);
        LiveIsListed(recs, ledger, live, g, r);
        forall f, n | Listed(ledger, f, n, r.memId)
          ensures f == g && n == r.name
        {
          ListedOnce(recs, ledger, live, f, n, g, r.name, r.memId);
        }
      }
    } else {
      var f: Family, n :| n in Names(Bucket(recs, f)) && Dropped(f, Group(recs, f, n));
      DroppedIsLost(recs, ledger, live, f, n);
    }
  }

  lemma DroppedIsLost(recs: seq<Record>, ledger: Ledger, live: map<MemId, Meta>, f: Family, n: string)
    requires Outcome(recs, ledger, live) && n in Names(Bucket(recs, f)) && Dropped(f, Group(recs, f, n))
    ensures !NothingLost(recs, ledger, live)
  {
    var group := Group(recs, f, n);
    var r := group[0];
    GroupMembers(recs, f, n, r);
    assert FamilyOk(recs, f, ledger[f], live);
    assert Settled(f, group, Lookup(ledger[f], n), live);
    assert MemIdsOf(group)[0] in live;
    LiveIsListed(recs, ledger, live, f, r);
  }

  /** A complete group keeps all its memids and is listed as it stands. */
  lemma CompleteUntouched(recs: seq<Record>, ledger: Ledger, live: map<MemId, Meta>, f: Family, n: string)
    requires Outcome(recs, ledger, live) && n in Names(Bucket(recs, f))
    requires CompleteGroup(Group(recs, f, n)) && !Dropped(f, Group(recs, f, n))
    ensures n in ledger[f] && ledger[f][n] == ObjOf(f, Group(recs, f, n))
    ensures forall r :: r in Group(recs, f, n) ==> r.memId in live
  {
    var group := Group(recs, f, n);
    assert FamilyOk(recs, f, ledger[f], live);
    assert Settled(f, group, Lookup(ledger[f], n), live);
    forall r | r in group
      ensures r.memId in live
    {
      var i :| 0 <= i < |group| && group[i] == r;
      assert MemIdsOf(group)[i] in live;
    }
  }

  /** A listed memid that is no longer live is in an object marked as faulty. */
  lemma DeadOnlyInFaulty(recs: seq<Record>, ledger: Ledger, live: map<MemId, Meta>, f: Family, n: string, id: MemId)
    requires Outcome(recs, ledger, live) && Listed(ledger, f, n, id) && id !in live
    ensures ledger[f][n].errCode != UBSE_OK && !CompleteGroup(Group(recs, f, n))
  {
  }

  /** A restored address import marked as faulty lists memids gone and memids live,
      in this order, each with its NUMA id. */
  lemma FaultyIsCut(recs: seq<Record>, ledger: Ledger, live: map<MemId, Meta>, n: string) returns (k: nat)
    requires Outcome(recs, ledger, live) && AddrImport in ledger && n in ledger[AddrImport]
    requires ledger[AddrImport][n].errCode != UBSE_OK
    ensures
      var o := ledger[AddrImport][n];
      && |o.memIds| == |o.numaIds| && k < |o.memIds| && Cut(o.memIds, k, live)
      && forall i :: 0 <= i < |o.memIds| ==> o.numaIds[i] == Group(recs, AddrImport, n)[i].remoteNumaId
  {
    var group := Group(recs, AddrImport, n);
    assert FamilyOk(recs, AddrImport, ledger[AddrImport], live);
    assert Settled(AddrImport, group, Lookup(ledger[AddrImport], n), live);
    k :| k < |ledger[AddrImport][n].memIds| && Cut(ledger[AddrImport][n].memIds, k, live);
  }

  function Results(obj: Obj): (results: seq<ImportResult>)
    requires |obj.memIds| == |obj.numaIds|
    ensures |results| == |obj.memIds|
  {
    seq(|obj.memIds|, i requires 0 <= i < |obj.memIds| => ImportResult(obj.memIds[i], obj.numaIds[i]))
  }

  ghost predicate DistinctInts(ids: seq<int>) {
    forall i, j :: 0 <= i < j < |ids| ==> ids[i] != ids[j]
  }

  ghost function Slice(ids: seq<int>, i: nat, j: nat): set<int>
    requires i <= j <= |ids|
  {
    set x | x in ids[i..j]
  }

  lemma CutReached(obj: Obj, name: string, k: nat, done: nat, live: map<MemId, Meta>, unreadable: set<MemId>, r: ImportResult)
    requires |obj.memIds| == |obj.numaIds| && Cut(obj.memIds, k, live) && k <= done <= |obj.memIds|
    requires forall i :: k <= i < |obj.memIds| ==> Own(live[obj.memIds[i]], Addr, name)
    ensures r in Reached(Results(obj)[..done], live, unreadable, name) <==> r in Results(obj)[..done]
  {
    ReachedMembers(Results(obj)[..done], live, unreadable, name, r);
    if r in Results(obj)[..done] {
      var i :| 0 <= i < done && Results(obj)[..done][i] == r;
      assert r.memId == obj.memIds[i];
    }
  }

  lemma CutLive(obj: Obj, k: nat, done: nat, live: map<MemId, Meta>, x: int)
    requires |obj.memIds| == |obj.numaIds| && Cut(obj.memIds, k, live) && k <= done <= |obj.memIds|
    ensures (exists r :: r in Results(obj)[..done] && r.memId in live && r.numaId == x) <==> x in Slice(obj.numaIds, k, done)
  {
    var tried := Results(obj)[..done];
    if r :| r in tried && r.memId in live && r.numaId == x {
      var i :| 0 <= i < done && tried[i] == r;
      assert obj.numaIds[k..done][i - k] == x;
    }
    if x in Slice(obj.numaIds, k, done) {
      var i :| 0 <= i < done - k && obj.numaIds[k..done][i] == x;
      assert tried[k + i].numaId == x && tried[k + i].memId in live && tried[k + i] in tried;
    }
  }

  /** Of a list cut at k, tried up to `done`, the live part is k to done. */
  lemma CutNumas(obj: Obj, name: string, k: nat, done: nat, live: map<MemId, Meta>, unreadable: set<MemId>, reserved: set<int>)
    requires |obj.memIds| == |obj.numaIds| && Cut(obj.memIds, k, live) && k <= done <= |obj.memIds|
    requires DistinctInts(obj.numaIds)
    requires forall i :: k <= i < |obj.memIds| ==> Own(live[obj.memIds[i]], Addr, name)
    ensures LiveNumas(Results(obj)[..done], live, unreadable, name) == Slice(obj.numaIds, k, done)
    ensures TakenSince(Results(obj)[..done], live, unreadable, name, reserved)
       <==> exists i :: 0 <= i < k && obj.numaIds[i] in reserved
  {
    forall r: ImportResult
      ensures r in Reached(Results(obj)[..done], live, unreadable, name) <==> r in Results(obj)[..done]
    {
      CutReached(obj, name, k, done, live, unreadable, r);
    }
    forall x
      ensures x in LiveNumas(Results(obj)[..done], live, unreadable, name) <==> x in Slice(obj.numaIds, k, done)
    {
      CutLive(obj, k, done, live, x);
    }
    CutTaken(obj, name, k, done, live, unreadable, reserved);
  }

  lemma CutTaken(obj: Obj, name: string, k: nat, done: nat, live: map<MemId, Meta>, unreadable: set<MemId>, reserved: set<int>)
    requires |obj.memIds| == |obj.numaIds| && Cut(obj.memIds, k, live) && k <= done <= |obj.memIds|
    requires DistinctInts(obj.numaIds)
    requires LiveNumas(Results(obj)[..done], live, unreadable, name) == Slice(obj.numaIds, k, done)
    ensures TakenSince(Results(obj)[..done], live, unreadable, name, reserved)
       <==> exists i :: 0 <= i < k && obj.numaIds[i] in reserved
  {
    var tried := Results(obj)[..done];
    if i :| 0 <= i < k && obj.numaIds[i] in reserved {
      assert tried[i] in tried && tried[i].memId !in live;
      forall j | 0 <= j < done - k
        ensures obj.numaIds[k..done][j] != obj.numaIds[i]
      {
        assert obj.numaIds[k..done][j] == obj.numaIds[k + j];
      }
      assert tried[i].numaId !in Slice(obj.numaIds, k, done);
    }
    if TakenSince(tried, live, unreadable, name, reserved) {
      var r :| r in tried && r.memId !in live && r.numaId in reserved
        && r.numaId !in LiveNumas(tried, live, unreadable, name);
      var i :| 0 <= i < done && tried[i] == r;
      assert i < k && obj.numaIds[i] in reserved;
    }
  }

  // ---- Self-mapped shares ----

  /** The import view of a share that its exporter also uses itself: it lists
      the export's memids, and gives way to a real import of the same name. */
  ghost predicate ViewsOk(recs: seq<Record>, shareImports: map<string, Obj>, views: map<string, Obj>) {
    forall n ::
      && (n in views <==>
            && n in Names(Bucket(recs, ShareExport)) && n !in shareImports
            && CompleteGroup(Group(recs, ShareExport, n)) && Group(recs, ShareExport, n)[0].usedPidCount != 0)
      && (n in views ==> views[n] == ObjOf(ShareImport, Group(recs, ShareExport, n)))
  }

  /** A view lists exactly the memids of a normal share export, all of them live. */
  lemma ViewsMirrorExports(recs: seq<Record>, ledger: Ledger, live: map<MemId, Meta>, views: map<string, Obj>, n: string)
    requires Outcome(recs, ledger, live) && ViewsOk(recs, ledger[ShareImport], views) && n in views
    ensures n in ledger[ShareExport] && views[n].memIds == ledger[ShareExport][n].memIds
    ensures forall id :: id in views[n].memIds ==> id in live
  {
  }

  lemma ViewsTold(recs: seq<Record>, shareImports: map<string, Obj>, views: map<string, Obj>)
    requires ViewsOk(recs, shareImports, views)
    ensures forall n ::
      var g := Group(recs, ShareExport, n);
      && (n in views <==> n !in shareImports && |g| > 0 && |g| == g[0].memidCount && g[0].usedPidCount != 0)
      && (n in views ==> views[n].errCode == 0 && ListsAll(views[n], ShareImport, g))
  {
    forall n
      ensures
        var g := Group(recs, ShareExport, n);
        && (n in views <==> n !in shareImports && |g| > 0 && |g| == g[0].memidCount && g[0].usedPidCount != 0)
        && (n in views ==> views[n].errCode == 0 && ListsAll(views[n], ShareImport, g))
    {
      NamelessGroup(recs, ShareExport, n);
    }
  }

  // ---- The pool of remote NUMA ids ----

  /** The NUMA ids of the address imports still live, and of those torn down. */
  ghost function InUse(recs: seq<Record>, live: map<MemId, Meta>): set<int> {
    NumasWhere(Bucket(recs, AddrImport), live, true)
  }

  ghost function GivenBack(recs: seq<Record>, live: map<MemId, Meta>): set<int> {
    NumasWhere(Bucket(recs, AddrImport), live, false)
  }

  ghost predicate DistinctNumas(recs: seq<Record>) {
    forall r, s :: r in recs && s in recs && r.memId != s.memId ==> r.remoteNumaId != s.remoteNumaId
  }

  /** Starting from a pool that reserves `start`, the pool is `start` and the ids
      in use exactly when no id given back is still needed. */
  lemma PoolExact(recs: seq<Record>, live: map<MemId, Meta>, start: set<int>, reserved: set<int>)
    requires reserved == start + InUse(recs, live) + GivenBack(recs, live) - GivenBack(recs, live)
    ensures reserved == start + InUse(recs, live) <==> GivenBack(recs, live) !! start + InUse(recs, live)
  {
  }

  lemma DistinctMeansApart(recs: seq<Record>, live: map<MemId, Meta>)
    requires DistinctNumas(Bucket(recs, AddrImport))
    ensures GivenBack(recs, live) !! InUse(recs, live)
  {
  }

  /** With different NUMA ids per record and an empty pool at the start, the pool
      ends up with exactly the ids in use; so the next allocation gives an id that
      no live import uses, and fails exactly when all of them are in use. */
  lemma PoolIsInUse(recs: seq<Record>, live: map<MemId, Meta>, reserved: set<int>)
    requires DistinctNumas(Bucket(recs, AddrImport))
    requires reserved == {} + InUse(recs, live) + GivenBack(recs, live) - GivenBack(recs, live)
    ensures reserved == InUse(recs, live)
    ensures forall id, r :: LeastFree(reserved, id) && r in recs && FamilyOf(r) == Some(AddrImport) && r.memId in live
              ==> r.remoteNumaId != id
  {
    PoolExact(recs, live, {}, reserved);
    DistinctMeansApart(recs, live);
    forall id, r | LeastFree(reserved, id) && r in recs && FamilyOf(r) == Some(AddrImport) && r.memId in live
      ensures r.remoteNumaId != id
    {
      BucketMembers(recs, AddrImport, r);
      assert r.remoteNumaId in InUse(recs, live);
    }
  }

  lemma OtherFamilyUntouched(recs: seq<Record>, f: Family, g: Family, before: map<MemId, Meta>, now: map<MemId, Meta>)
    requires DistinctRecords(recs) && f != g && OnlyTheseGone(Bucket(recs, g), before, now)
    ensures forall r :: r in Bucket(recs, f) ==> (r.memId in before <==> r.memId in now)
  {
    forall r | r in Bucket(recs, f)
      ensures r.memId in before <==> r.memId in now
    {
      BucketMembers(recs, f, r);
      if r.memId in before && r.memId !in now {
        var s :| s in Bucket(recs, g) && s.memId == r.memId;
        BucketMembers(recs, g, s);
        SameIdSameRecord(recs, r, s);
      }
    }
  }

  lemma FamilyStaysOk(recs: seq<Record>, f: Family, objs: map<string, Obj>, before: map<MemId, Meta>, now: map<MemId, Meta>)
    requires FamilyOk(recs, f, objs, before)
    requires forall r :: r in Bucket(recs, f) ==> (r.memId in before <==> r.memId in now)
    ensures FamilyOk(recs, f, objs, now)
  {
    forall n | n in Names(Bucket(recs, f))
      ensures Settled(f, Group(recs, f, n), Lookup(objs, n), now)
    {
      forall r | r in Group(recs, f, n)
        ensures r.memId in before <==> r.memId in now
      {
        NamedMembers(Bucket(recs, f), n, r);
      }
      SettledFrame(f, Group(recs, f, n), Lookup(objs, n), before, now);
    }
  }

  const Order: seq<Family> :=
    [FdImport, FdExport, NumaImport, NumaExport, ShareImport, ShareExport, AddrImport, AddrExport]

  lemma OrderIsAll(f: Family) returns (i: nat)
    ensures i < |Order| && Order[i] == f
  {
    match f
    case FdImport => i := 0;
    case FdExport => i := 1;
    case NumaImport => i := 2;
    case NumaExport => i := 3;
    case ShareImport => i := 4;
    case ShareExport => i := 5;
    case AddrImport => i := 6;
    case AddrExport => i := 7;
  }

  lemma BucketsLive(recs: seq<Record>, live: map<MemId, Meta>)
    requires AllLive(recs, live)
    ensures forall f: Family :: AllLive(Bucket(recs, f), live)
  {
    forall f: Family, r | r in Bucket(recs, f)
      ensures r.memId in live
    {
      BucketMembers(recs, f, r);
    }
  }

  lemma OrderDistinct(i: nat, j: nat)
    requires i < |Order| && j < |Order| && i != j
    ensures Order[i] != Order[j]
  {
  }

  /** The first i families are restored, the memids of the others still live. */
  ghost predicate DoneUpTo(recs: seq<Record>, ledger: Ledger, i: nat, live: map<MemId, Meta>)
    requires i <= |Order|
  {
    && (forall k :: 0 <= k < i ==> Order[k] in ledger && FamilyOk(recs, Order[k], ledger[Order[k]], live))
    && (forall k :: i <= k < |Order| ==> AllLive(Bucket(recs, Order[k]), live))
  }

  lemma DoneStep(recs: seq<Record>, ledger: Ledger, i: nat, objs: map<string, Obj>,
                 before: map<MemId, Meta>, now: map<MemId, Meta>)
    requires i < |Order| && DistinctRecords(recs) && DoneUpTo(recs, ledger, i, before)
    requires FamilyOk(recs, Order[i], objs, now) && OnlyTheseGone(Bucket(recs, Order[i]), before, now)
    ensures DoneUpTo(recs, ledger[Order[i] := objs], i + 1, now)
  {
    forall k | 0 <= k < |Order| && k != i
      ensures k < i ==> Order[k] != Order[i] && FamilyOk(recs, Order[k], ledger[Order[k]], now)
      ensures k > i ==> AllLive(Bucket(recs, Order[k]), now)
    {
      OrderDistinct(k, i);
      OtherFamilyUntouched(recs, Order[k], Order[i], before, now);
      if k < i {
        FamilyStaysOk(recs, Order[k], ledger[Order[k]], before, now);
      }
    }
  }

  lemma GoneTransitive(recs: seq<Record>, f: Family, start: map<MemId, Meta>, before: map<MemId, Meta>, now: map<MemId, Meta>)
    requires OnlyTheseGone(recs, start, before) && OnlyTheseGone(Bucket(recs, f), before, now)
    ensures OnlyTheseGone(recs, start, now)
  {
    forall id | id in start && id !in now
      ensures exists r :: r in recs && r.memId == id
    {
      if id in before {
        var r :| r in Bucket(recs, f) && r.memId == id;
        BucketMembers(recs, f, r);
      }
    }
  }

  lemma NumasStay(recs: seq<Record>, f: Family, before: map<MemId, Meta>, now: map<MemId, Meta>)
    requires DistinctRecords(recs) && f != AddrImport && OnlyTheseGone(Bucket(recs, f), before, now)
    ensures InUse(recs, before) == InUse(recs, now) && GivenBack(recs, before) == GivenBack(recs, now)
  {
    OtherFamilyUntouched(recs, AddrImport, f, before, now);
  }

  lemma AllFamiliesDone(recs: seq<Record>, ledger: Ledger, live: map<MemId, Meta>)
    requires DoneUpTo(recs, ledger, |Order|, live)
    ensures Outcome(recs, ledger, live)
  {
    forall f: Family
      ensures f in ledger && FamilyOk(recs, f, ledger[f], live)
    {
      var i := OrderIsAll(f);
    }
  }

  /** The pool once the first i families have been restored. */
  ghost function PoolUpTo(recs: seq<Record>, i: nat, start: set<int>, live: map<MemId, Meta>): set<int> {
    if i <= 6 then start else start + InUse(recs, live) + GivenBack(recs, live) - GivenBack(recs, live)
  }

  /** The state after the first i families, against the live memids and the pool at the start. */
  ghost predicate Progress(recs: seq<Record>, ledger: Ledger, views: map<string, Obj>, i: nat,
                           live0: map<MemId, Meta>, reserved0: set<int>, live: map<MemId, Meta>, reserved: set<int>) {
    && i <= |Order|
    && DoneUpTo(recs, ledger, i, live)
    && OnlyTheseGone(recs, live0, live)
    && reserved == PoolUpTo(recs, i, reserved0, live)
    && (i > 4 ==> ShareImport in ledger)
    && (i > 5 ==> ViewsOk(recs, ledger[ShareImport], views))
  }

  lemma ProgressStep(recs: seq<Record>, ledger: Ledger, views: map<string, Obj>, i: nat, objs: map<string, Obj>,
                     live0: map<MemId, Meta>, reserved0: set<int>,
                     before: map<MemId, Meta>, now: map<MemId, Meta>, reserved: set<int>, reserved': set<int>)
    requires DistinctRecords(recs) && i < |Order|
    requires Progress(recs, ledger, views, i, live0, reserved0, before, reserved)
    requires FamilyOk(recs, Order[i], objs, now) && OnlyTheseGone(Bucket(recs, Order[i]), before, now)
    requires reserved' == if Order[i] == AddrImport
      then reserved + InUse(recs, now) + GivenBack(recs, now) - GivenBack(recs, now) else reserved
    ensures Order[i] != ShareExport ==>
      Progress(recs, ledger[Order[i] := objs], views, i + 1, live0, reserved0, now, reserved')
    ensures Order[i] == ShareExport ==> ShareImport in ledger
    ensures Order[i] == ShareExport ==>
      forall v :: ViewsOk(recs, ledger[ShareImport], v) ==>
        Progress(recs, ledger[Order[i] := objs], v, i + 1, live0, reserved0, now, reserved')
  {
    DoneStep(recs, ledger, i, objs, before, now);
    GoneTransitive(recs, Order[i], live0, before, now);
    assert Order[i] == AddrImport <==> i == 6;
    assert Order[i] == ShareImport <==> i == 4;
    assert Order[i] == ShareExport <==> i == 5;
    if i != 6 {
      NumasStay(recs, Order[i], before, now);
    }
  }

  class LedgerRestorer {
    const kernel: Kernel
    const pool: NumaPool
    const restorer: Restorer

    ghost predicate Valid() {
      restorer.kernel == kernel && restorer.pool == pool
    }

    constructor (kernel: Kernel, pool: NumaPool)
      ensures Valid() && this.kernel == kernel && this.pool == pool
    {
      this.kernel, this.pool := kernel, pool;
      restorer := new Restorer(kernel, pool);
    }

    /** ConstructShareImportObjFromExportMetaData */
    method BuildViews(ghost recs: seq<Record>, exports: seq<Record>, shareImports: map<string, Obj>)
      returns (views: map<string, Obj>)
      requires exports == Bucket(recs, ShareExport)
      ensures ViewsOk(recs, shareImports, views)
    {
      var groups := restorer.GroupByName(exports);
      views := map[];
      var left := groups.Keys;
      while left != {}
        invariant left <= groups.Keys
        invariant forall n ::
          && (n in views <==>
                && n in groups.Keys - left && n !in shareImports
                && CompleteGroup(groups[n]) && groups[n][0].usedPidCount != 0)
          && (n in views ==> views[n] == ObjOf(ShareImport, groups[n]))
        decreases left
      {
        var name :| name in left;
        left := left - {name};
        var group := groups[name];
        if group != [] && group[0].usedPidCount != 0 && CompleteGroup(group) && name !in shareImports {
          views := views[name := ObjOf(ShareImport, group)];
        }
      }
    }

    method RestoreNext(ghost recs: seq<Record>, bucket: seq<Record>, i: nat, ledger: Ledger, views: map<string, Obj>,
                       ghost live0: map<MemId, Meta>, ghost reserved0: set<int>)
      returns (ledger': Ledger, views': map<string, Obj>)
      requires Valid() && DistinctRecords(recs) && i < |Order| && bucket == Bucket(recs, Order[i])
      requires Progress(recs, ledger, views, i, live0, reserved0, kernel.live, pool.reserved)
      modifies kernel`live, kernel`undoFailures, pool
      ensures Progress(recs, ledger', views', i + 1, live0, reserved0, kernel.live, pool.reserved)
    {
      BucketDistinct(recs, Order[i]);
      ghost var before, reserved := kernel.live, pool.reserved;
      var objs := restorer.RestoreFamily(Order[i], bucket);
      ledger', views' := ledger[Order[i] := objs], views;
      ProgressStep(recs, ledger, views, i, objs, live0, reserved0, before, kernel.live, reserved, pool.reserved);
      if Order[i] == ShareExport {
        views' := BuildViews(recs, bucket, ledger'[ShareImport]);
      }
    }

    /** MemGetObjData */
    method RestoreAll(recs: seq<Record>) returns (ledger: Ledger, views: map<string, Obj>)
      requires Valid() && DistinctRecords(recs) && AllLive(recs, kernel.live)
      modifies kernel`live, kernel`undoFailures, pool
      ensures Outcome(recs, ledger, kernel.live)
      ensures forall f: Family, n ::
        var g := Group(recs, f, n);
        f in ledger
        && (n in ledger[f] && ledger[f][n].errCode == 0 <==>
              && |g| > 0 && |g| == g[0].memidCount
              && ((f == FdImport || f == FdExport || f == ShareImport) ==>
                    Sum(g[0].numaSizes) < 0x1_0000_0000_0000_0000))
      ensures forall f: Family, n :: Told(f, Group(recs, f, n), Lookup(ledger[f], n), kernel.live)
      ensures ViewsOk(recs, ledger[ShareImport], views)
      ensures forall n ::
        var g := Group(recs, ShareExport, n);
        n in views <==> n !in ledger[ShareImport] && |g| > 0 && |g| == g[0].memidCount && g[0].usedPidCount != 0
      ensures OnlyTheseGone(recs, old(kernel.live), kernel.live)
      ensures pool.reserved
           == old(pool.reserved) + InUse(recs, kernel.live) + GivenBack(recs, kernel.live) - GivenBack(recs, kernel.live)
    {
      var buckets := restorer.Classify(recs);
      ledger, views := map[], map[];
      BucketsLive(recs, kernel.live);
      for i := 0 to |Order|
        invariant Progress(recs, ledger, views, i, old(kernel.live), old(pool.reserved), kernel.live, pool.reserved)
      {
        ledger, views := RestoreNext(recs, buckets[Order[i]], i, ledger, views, old(kernel.live), old(pool.reserved));
      }
      AllFamiliesDone(recs, ledger, kernel.live);
      AllTold(recs, ledger, kernel.live);
      ViewsTold(recs, ledger[ShareImport], views);
    }

    /** A restart and the next address borrow: from an empty pool, with different
        NUMA ids per record, the allocation gives the least id of the pool that no
        restored import uses, and fails exactly when all of them are in use. */
    method RestoreThenAllocate(recs: seq<Record>)
      returns (ledger: Ledger, views: map<string, Obj>, ret: nat, id: int)
      requires Valid() && DistinctRecords(recs) && AllLive(recs, kernel.live)
      requires pool.reserved == {} && DistinctNumas(Bucket(recs, AddrImport))
      modifies kernel`live, kernel`undoFailures, pool
      ensures Outcome(recs, ledger, kernel.live)
      ensures ret == UBSE_OK <==> !Exhausted(InUse(recs, kernel.live))
      ensures ret == UBSE_OK ==>
        && LeastFree(InUse(recs, kernel.live), id)
        && pool.reserved == InUse(recs, kernel.live) + {id}
        && forall r :: r in recs && FamilyOf(r) == Some(AddrImport) && r.memId in kernel.live ==> r.remoteNumaId != id
      ensures ret != UBSE_OK ==> pool.reserved == InUse(recs, kernel.live)
    {
      ledger, views := RestoreAll(recs);
      PoolIsInUse(recs, kernel.live, pool.reserved);
      ret, id := pool.Generate();
    }

    /** Unimporting a restored object of which the first k memids were gone when it
        was restored, at any later time when they still are: the pool is taken down
        by the ids of the memids freed now if and only if none of the k ids given
        back has been reserved again since. */
    method UnImportFaulty(importer: AddrImporter, name: string, obj: Obj, ghost k: nat) returns (ret: nat, ghost done: nat)
      requires importer.kernel == kernel && importer.pool == pool
      requires |obj.memIds| == |obj.numaIds| && Cut(obj.memIds, k, kernel.live) && DistinctInts(obj.numaIds)
      requires forall i :: k <= i < |obj.memIds| ==> Own(kernel.live[obj.memIds[i]], Addr, name)
      modifies kernel`live, kernel`undoFailures, pool
      ensures k <= done <= |obj.memIds| && (ret == UBSE_OK ==> done == |obj.memIds|)
      ensures pool.reserved == old(pool.reserved) - Slice(obj.numaIds, k, done)
         <==> forall i :: 0 <= i < k ==> obj.numaIds[i] !in old(pool.reserved)
    {
      var results := Results(obj);
      var o := new AddrImportObj(name, [], 0);
      o.importResults := results;
      ret, done := importer.UnImportAgain(o);
      assert ret != UBSE_OK ==> results[done].memId == obj.memIds[done] && obj.memIds[done] in old(kernel.live);
      CutNumas(obj, name, k, done, old(kernel.live), kernel.unreadable, old(pool.reserved));
    }
  }
}

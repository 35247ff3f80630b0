/**
 Storing the result of the placement algorithm in the fixed-size private area of
 a memid, and reading it back after a restart. The area has four NUMA slots, one
 node and socket per side, and one byte per NUMA id.
 */
module MetaCodec {
  import opened BlockSplit
  import opened ExportNames
  import opened ObmmBatch
  import opened ObmmKernel
  import opened Options

  const NUMA_SLOTS := 4              // TOPOLOGY_MAX_NUMA_PER_SOCKET
  const MAX_NODE_ID_LENGTH := 16

  datatype NumaDebt = NumaDebt(nodeId: string, socketId: int, numaId: int, size: nat, portId: nat, chipId: nat)

  datatype AlgoResult = AlgoResult(exports: seq<NumaDebt>, imports: seq<NumaDebt>, attachSocketId: nat)

  /** The fields of the private area that hold an algorithm result. */
  datatype Area = Area(
    exportNumaIds: seq<nat>, importNumaIds: seq<nat>, numaSizes: seq<nat>,
    importSocket: int, exportSocket: int, attachSocket: nat, chipId: nat, portId: nat,
    name: string, exportNodeId: string, importNodeId: string)
  {
    ghost predicate Valid() {
      |exportNumaIds| == |importNumaIds| == |numaSizes| == NUMA_SLOTS
    }
  }

  const Blank := Area([0, 0, 0, 0], [0, 0, 0, 0], [0, 0, 0, 0], 0, 0, 0, 0, 0, "", "", "")

  /** Conversion to uint8_t. */
  function Byte(x: int): nat { x % 256 }

  // ---- Encoding ----

  ghost predicate SizesFit(a: AlgoResult) {
    1 <= |a.exports| <= NUMA_SLOTS && |a.imports| <= |a.exports|
  }

  function ImportNode(a: AlgoResult): string {
    if a.imports == [] then "" else a.imports[0].nodeId
  }

  function StoredKey(a: AlgoResult, name: string, appendNodeId: bool): string {
    if appendNodeId then ExportKey(name, ImportNode(a)) else name
  }

  ghost predicate EncodeOk(a: AlgoResult, name: string, appendNodeId: bool) {
    && SizesFit(a)
    && a.exports[0].nodeId != ""
    && StrCopy(StoredKey(a, name, appendNodeId), MAX_NAME_LENGTH).Some?
    && StrCopy(a.exports[0].nodeId, MAX_NODE_ID_LENGTH).Some?
    && StrCopy(ImportNode(a), MAX_NODE_ID_LENGTH).Some?
  }

  /** The slots after the first |debts| of them have been overwritten. */
  ghost function NumaIdSlots(slots: seq<nat>, debts: seq<NumaDebt>): (slots': seq<nat>)
    requires |debts| <= |slots|
    ensures |slots'| == |slots|
  {
    seq(|slots|, i requires 0 <= i < |slots| => if i < |debts| then Byte(debts[i].numaId) else slots[i])
  }

  ghost function SizeSlots(slots: seq<nat>, debts: seq<NumaDebt>): (slots': seq<nat>)
    requires |debts| <= |slots|
    ensures |slots'| == |slots|
  {
    seq(|slots|, i requires 0 <= i < |slots| => if i < |debts| then debts[i].size else slots[i])
  }

  ghost function WithImports(area: Area, debts: seq<NumaDebt>): (area': Area)
    requires area.Valid() && |debts| <= NUMA_SLOTS
    ensures area'.Valid()
  {
    var x := area.(importNumaIds := NumaIdSlots(area.importNumaIds, debts));
    if debts == [] then x
    else x.(importSocket := debts[0].socketId, chipId := debts[0].chipId, portId := debts[0].portId)
  }

  ghost function Encoded(area: Area, a: AlgoResult, name: string, appendNodeId: bool): (area': Area)
    requires area.Valid() && EncodeOk(a, name, appendNodeId)
    ensures area'.Valid()
  {
    WithImports(area, a.imports).(
      exportNumaIds := NumaIdSlots(area.exportNumaIds, a.exports),
      numaSizes := SizeSlots(area.numaSizes, a.exports),
      attachSocket := a.attachSocketId,
      exportSocket := a.exports[0].socketId,
      name := CString(StoredKey(a, name, appendNodeId)),
      exportNodeId := CString(a.exports[0].nodeId),
      importNodeId := CString(ImportNode(a)))
  }

  // ---- The encoding field by field ----

  /** The name field: the borrow's name, with the importing node's id behind an
      underscore if that is asked for, as far as a C string goes. */
  lemma EncodedName(area: Area, a: AlgoResult, name: string, appendNodeId: bool)
    requires area.Valid() && EncodeOk(a, name, appendNodeId)
    ensures '\0' !in name && !appendNodeId ==> Encoded(area, a, name, appendNodeId).name == name
    ensures '\0' !in name && appendNodeId && a.imports == [] ==> Encoded(area, a, name, appendNodeId).name == name + "_"
    ensures '\0' !in name && appendNodeId && a.imports != [] && '\0' !in a.imports[0].nodeId ==>
      Encoded(area, a, name, appendNodeId).name == name + "_" + a.imports[0].nodeId
    ensures '\0' in name ==>
      exists k :: 0 <= k < |name| && Encoded(area, a, name, appendNodeId).name == name[..k] && name[k] == '\0'
  {
    var key := StoredKey(a, name, appendNodeId);
    assert appendNodeId && a.imports == [] ==> key == name + "_";
    if '\0' in name {
      var c := CString(key);
      assert name <= key;
      assert |c| < |name| by {
        var i :| 0 <= i < |name| && name[i] == '\0';
        assert key[i] == '\0';
        assert key[..|c|] == c;
      }
      assert c == name[..|c|] && name[|c|] == '\0';
    }
  }

  /** The other fields: sockets, node ids, and the slots of which the first are
      overwritten, one byte per NUMA id; port and chip are those of the importing side. */
  lemma EncodedFields(area: Area, a: AlgoResult, name: string, appendNodeId: bool)
    requires area.Valid() && EncodeOk(a, name, appendNodeId)
    ensures
      var x := Encoded(area, a, name, appendNodeId);
      && x.attachSocket == a.attachSocketId && x.exportSocket == a.exports[0].socketId
      && (a.imports == [] ==>
            x.importSocket == area.importSocket && x.portId == area.portId && x.chipId == area.chipId && x.importNodeId == "")
      && (a.imports != [] ==>
            && x.importSocket == a.imports[0].socketId
            && x.portId == a.imports[0].portId && x.chipId == a.imports[0].chipId
            && ('\0' !in a.imports[0].nodeId ==> x.importNodeId == a.imports[0].nodeId))
      && ('\0' !in a.exports[0].nodeId ==> x.exportNodeId == a.exports[0].nodeId)
    ensures
      var x := Encoded(area, a, name, appendNodeId);
      forall i :: 0 <= i < 4 ==>
        && x.exportNumaIds[i] == (if i < |a.exports| then a.exports[i].numaId % 256 else area.exportNumaIds[i])
        && x.numaSizes[i] == (if i < |a.exports| then a.exports[i].size else area.numaSizes[i])
        && x.importNumaIds[i] == (if i < |a.imports| then a.imports[i].numaId % 256 else area.importNumaIds[i])
  {
  }

  /** What can be stored, for names and ids without a zero byte: one to four exports
      and no more imports, and texts shorter than their fields. */
  lemma EncodeOkInNumbers(a: AlgoResult, name: string, appendNodeId: bool)
    requires '\0' !in name
    requires forall i :: 0 <= i < |a.exports| ==> '\0' !in a.exports[i].nodeId
    requires forall i :: 0 <= i < |a.imports| ==> '\0' !in a.imports[i].nodeId
    ensures EncodeOk(a, name, appendNodeId) <==>
      && 1 <= |a.exports| <= 4 && |a.imports| <= |a.exports|
      && 0 < |a.exports[0].nodeId| < 16 && (a.imports != [] ==> |a.imports[0].nodeId| < 16)
      && |name| + (if !appendNodeId then 0 else 1 + if a.imports == [] then 0 else |a.imports[0].nodeId|) < 52
  {
    var key := StoredKey(a, name, appendNodeId);
    assert '\0' !in key;
  }

  // ---- Decoding ----

  function ExportAt(area: Area, i: nat): NumaDebt
    requires area.Valid() && i < NUMA_SLOTS
  {
    NumaDebt(area.exportNodeId, area.exportSocket, area.exportNumaIds[i], area.numaSizes[i], 0, 0)
  }

  function ImportAt(area: Area, node: string, i: nat): NumaDebt
    requires area.Valid() && i < NUMA_SLOTS
  {
    NumaDebt(node, area.importSocket, area.importNumaIds[i], area.numaSizes[i], area.portId, area.chipId)
  }

  /** The occupied slots among the first k. */
  ghost function Occupied(sizes: seq<nat>, k: nat): (slots: seq<nat>)
    requires k <= |sizes|
    ensures forall i :: 0 <= i < |slots| ==> slots[i] < k && sizes[slots[i]] != 0
    ensures |slots| <= k
  {
    if k == 0 then [] else Occupied(sizes, k - 1) + if sizes[k - 1] != 0 then [k - 1] else []
  }

  lemma {:induction false} OccupiedAscending(sizes: seq<nat>, k: nat)
    requires k <= |sizes|
    ensures forall i :: 0 <= i < k ==> (i in Occupied(sizes, k) <==> sizes[i] != 0)
    ensures forall i, j :: 0 <= i < j < |Occupied(sizes, k)| ==> Occupied(sizes, k)[i] < Occupied(sizes, k)[j]
  {
    if k > 0 {
      OccupiedAscending(sizes, k - 1);
    }
  }

  /** The fields a decoder puts together for the slot that it takes as number k. */
  lemma DecodedFields(area: Area, node: string, slots: seq<nat>, k: nat)
    requires area.Valid() && (forall i :: 0 <= i < |slots| ==> slots[i] < NUMA_SLOTS) && k < |slots|
    ensures Gather(area, node, slots).attachSocketId == area.attachSocket
    ensures
      var e := Gather(area, node, slots).exports[k];
      && e.nodeId == area.exportNodeId && e.socketId == area.exportSocket && e.portId == e.chipId == 0
      && e.numaId == area.exportNumaIds[slots[k]] && e.size == area.numaSizes[slots[k]]
    ensures
      var m := Gather(area, node, slots).imports[k];
      && m.nodeId == node && m.socketId == area.importSocket && m.portId == area.portId && m.chipId == area.chipId
      && m.numaId == area.importNumaIds[slots[k]] && m.size == area.numaSizes[slots[k]]
  {
  }

  ghost function FirstSlots(k: nat): (slots: seq<nat>)
    ensures |slots| == k && forall i :: 0 <= i < k ==> slots[i] == i
  {
    seq(k, i => i)
  }

  ghost function Gather(area: Area, node: string, slots: seq<nat>): (a: AlgoResult)
    requires area.Valid() && forall i :: 0 <= i < |slots| ==> slots[i] < NUMA_SLOTS
    ensures |a.exports| == |slots| == |a.imports|
  {
    AlgoResult(seq(|slots|, k requires 0 <= k < |slots| => ExportAt(area, slots[k])),
               seq(|slots|, k requires 0 <= k < |slots| => ImportAt(area, node, slots[k])),
               area.attachSocket)
  }

  /** The NUMA and address decoders take the occupied slots wherever they are. */
  ghost function DecodeSlots(area: Area, node: string): AlgoResult
    requires area.Valid()
  {
    Gather(area, node, Occupied(area.numaSizes, NUMA_SLOTS))
  }

  /** The FD and share decoders count the occupied slots and take that many from the front. */
  ghost function DecodePrefix(area: Area, node: string): AlgoResult
    requires area.Valid()
  {
    Gather(area, node, FirstSlots(|Occupied(area.numaSizes, NUMA_SLOTS)|))
  }

  /** No empty slot in front of an occupied one. */
  ghost predicate Packed(sizes: seq<nat>) {
    forall i, j :: 0 <= i < j < |sizes| && sizes[j] != 0 ==> sizes[i] != 0
  }

  lemma {:induction false} PackedOccupied(sizes: seq<nat>, k: nat)
    requires k <= |sizes| && Packed(sizes)
    ensures Occupied(sizes, k) == FirstSlots(|Occupied(sizes, k)|)
    ensures k > 0 && sizes[k - 1] != 0 ==> |Occupied(sizes, k)| == k
  {
    if k > 0 {
      PackedOccupied(sizes, k - 1);
      if sizes[k - 1] != 0 && k > 1 {
        assert sizes[k - 2] != 0;
      }
      assert FirstSlots(k) == FirstSlots(k - 1) + [k - 1];
    }
  }

  /** If the first slots, as many as are occupied, are all occupied, then no other is. */
  lemma {:induction false} FullPrefixIsAll(sizes: seq<nat>, k: nat, c: nat)
    requires c <= k <= |sizes| && forall i :: 0 <= i < c ==> sizes[i] != 0
    ensures |Occupied(sizes, k)| >= c
    ensures |Occupied(sizes, k)| == c ==> forall i :: c <= i < k ==> sizes[i] == 0
    decreases k
  {
    if k > c {
      FullPrefixIsAll(sizes, k - 1, c);
    } else if k > 0 {
      FullPrefixIsAll(sizes, k - 1, c - 1);
    }
  }

  /** The two decoders agree exactly when no empty slot precedes an occupied one. */
  lemma DecodersAgreeWhenPacked(area: Area, node: string)
    requires area.Valid()
    ensures DecodePrefix(area, node) == DecodeSlots(area, node) <==> Packed(area.numaSizes)
  {
    var slots := Occupied(area.numaSizes, NUMA_SLOTS);
    if Packed(area.numaSizes) {
      PackedOccupied(area.numaSizes, NUMA_SLOTS);
    }
    if DecodePrefix(area, node) == DecodeSlots(area, node) {
      forall i | 0 <= i < |slots|
        ensures area.numaSizes[i] != 0
      {
        assert DecodePrefix(area, node).exports[i].size == area.numaSizes[i];
        assert DecodeSlots(area, node).exports[i].size == area.numaSizes[slots[i]];
      }
      FullPrefixIsAll(area.numaSizes, NUMA_SLOTS, |slots|);
    }
  }

  // ---- The round trip ----

  ghost predicate Uniform(debts: seq<NumaDebt>) {
    forall i :: 0 <= i < |debts| ==>
      && debts[i].nodeId == debts[0].nodeId && debts[i].socketId == debts[0].socketId
      && debts[i].portId == debts[0].portId && debts[i].chipId == debts[0].chipId
      && 0 <= debts[i].numaId < 256 && debts[i].size != 0
  }

  /** Everything the area can hold: equally long lists, non-zero sizes that agree
      on both sides, byte-sized NUMA ids, one node, socket and port per side. */
  ghost predicate WellFormed(a: AlgoResult) {
    && 0 < |a.exports| == |a.imports|
    && Uniform(a.exports) && Uniform(a.imports)
    && a.exports[0].portId == a.exports[0].chipId == 0
    && (forall i :: 0 <= i < |a.exports| ==> a.imports[i].size == a.exports[i].size)
    && '\0' !in a.exports[0].nodeId && '\0' !in a.imports[0].nodeId
  }

  lemma EncodedSizes(a: AlgoResult, name: string, appendNodeId: bool)
    requires EncodeOk(a, name, appendNodeId)
    requires forall i :: 0 <= i < |a.exports| ==> a.exports[i].size != 0
    ensures Occupied(Encoded(Blank, a, name, appendNodeId).numaSizes, NUMA_SLOTS) == FirstSlots(|a.exports|)
  {
    var sizes := Encoded(Blank, a, name, appendNodeId).numaSizes;
    PackedOccupied(sizes, NUMA_SLOTS);
    FullPrefixIsAll(sizes, NUMA_SLOTS, |a.exports|);
    OccupiedOnly(sizes, NUMA_SLOTS, |a.exports|);
  }

  lemma {:induction false} OccupiedOnly(sizes: seq<nat>, k: nat, c: nat)
    requires k <= |sizes| && forall i :: c <= i < k ==> sizes[i] == 0
    ensures |Occupied(sizes, k)| <= c
  {
    if k > c {
      OccupiedOnly(sizes, k - 1, c);
    }
  }

  lemma ExportReadsBack(a: AlgoResult, name: string, appendNodeId: bool, i: nat)
    requires EncodeOk(a, name, appendNodeId) && WellFormed(a) && i < |a.exports|
    ensures ExportAt(Encoded(Blank, a, name, appendNodeId), i) == a.exports[i]
  {
  }

  lemma ImportReadsBack(a: AlgoResult, name: string, appendNodeId: bool, i: nat)
    requires EncodeOk(a, name, appendNodeId) && WellFormed(a) && i < |a.imports|
    ensures
      var area := Encoded(Blank, a, name, appendNodeId);
      ImportAt(area, area.importNodeId, i) == a.imports[i]
  {
  }

  /** The first slots, taken one by one, are the result. */
  lemma GatherFirst(area: Area, node: string, a: AlgoResult)
    requires area.Valid() && |a.exports| == |a.imports| <= NUMA_SLOTS && area.attachSocket == a.attachSocketId
    requires forall i :: 0 <= i < |a.exports| ==> ExportAt(area, i) == a.exports[i] && ImportAt(area, node, i) == a.imports[i]
    ensures Gather(area, node, FirstSlots(|a.exports|)) == a
  {
    var d := Gather(area, node, FirstSlots(|a.exports|));
    assert d.exports == a.exports;
    assert d.imports == a.imports;
  }

  lemma WellFormedReadsBack(a: AlgoResult, name: string, appendNodeId: bool)
    requires EncodeOk(a, name, appendNodeId) && WellFormed(a)
    ensures
      var area := Encoded(Blank, a, name, appendNodeId);
      DecodeSlots(area, area.importNodeId) == a
  {
    var area := Encoded(Blank, a, name, appendNodeId);
    EncodedSizes(a, name, appendNodeId);
    forall i | 0 <= i < |a.exports|
      ensures ExportAt(area, i) == a.exports[i] && ImportAt(area, area.importNodeId, i) == a.imports[i]
    {
      ExportReadsBack(a, name, appendNodeId, i);
      ImportReadsBack(a, name, appendNodeId, i);
    }
    GatherFirst(area, area.importNodeId, a);
  }

  lemma SlotsAreBytes(debts: seq<NumaDebt>, i: nat)
    requires |debts| <= NUMA_SLOTS && i < NUMA_SLOTS
    ensures NumaIdSlots([0, 0, 0, 0], debts)[i] < 256
  {
  }

  /** Ids are stored as bytes and node ids without a terminator. */
  lemma EncodedPlain(a: AlgoResult, name: string, appendNodeId: bool)
    requires EncodeOk(a, name, appendNodeId)
    ensures
      var area := Encoded(Blank, a, name, appendNodeId);
      && (forall i :: 0 <= i < NUMA_SLOTS ==> area.exportNumaIds[i] < 256 && area.importNumaIds[i] < 256)
      && '\0' !in area.exportNodeId && '\0' !in area.importNodeId
  {
    forall i | 0 <= i < NUMA_SLOTS
      ensures NumaIdSlots([0, 0, 0, 0], a.exports)[i] < 256 && NumaIdSlots([0, 0, 0, 0], a.imports)[i] < 256
    {
      SlotsAreBytes(a.exports, i);
      SlotsAreBytes(a.imports, i);
    }
  }

  /** Decoding what was stored gives back the same result exactly for well-formed results. */
  lemma RoundTrip(a: AlgoResult, name: string, appendNodeId: bool)
    requires EncodeOk(a, name, appendNodeId)
    ensures
      var area := Encoded(Blank, a, name, appendNodeId);
      DecodeSlots(area, area.importNodeId) == a <==> WellFormed(a)
  {
    var area := Encoded(Blank, a, name, appendNodeId);
    var d := DecodeSlots(area, area.importNodeId);
    if WellFormed(a) {
      WellFormedReadsBack(a, name, appendNodeId);
    }
    if d == a {
      EncodedPlain(a, name, appendNodeId);
      DecodedIsWellFormed(area);
    }
  }

  /** Whatever is decoded from an area with byte-sized ids is well formed. */
  lemma DecodedIsWellFormed(area: Area)
    requires area.Valid() && Occupied(area.numaSizes, NUMA_SLOTS) != []
    requires forall i :: 0 <= i < NUMA_SLOTS ==> area.exportNumaIds[i] < 256 && area.importNumaIds[i] < 256
    requires '\0' !in area.exportNodeId && '\0' !in area.importNodeId
    ensures WellFormed(DecodeSlots(area, area.importNodeId))
  {
  }

  /** The result with another importing node. */
  ghost function WithNode(a: AlgoResult, node: string): (r: AlgoResult)
    ensures |r.exports| == |a.exports| && |r.imports| == |a.imports|
  {
    a.(imports := seq(|a.imports|, i requires 0 <= i < |a.imports| => a.imports[i].(nodeId := node)))
  }

  /** A decoder that is told another importing node differs in that only. */
  lemma GatherForNode(area: Area, node: string, other: string, slots: seq<nat>)
    requires area.Valid() && forall i :: 0 <= i < |slots| ==> slots[i] < NUMA_SLOTS
    ensures Gather(area, node, slots) == WithNode(Gather(area, other, slots), node)
  {
    var d, e := Gather(area, node, slots), WithNode(Gather(area, other, slots), node);
    assert d.exports == e.exports;
    assert d.imports == e.imports;
  }

  /** For a well-formed result the two families of decoders read the same back,
      whatever importing node they are told: the FD import decoder takes the local
      node, the others the stored one, which gives the result itself. */
  lemma RoundTripBothDecoders(a: AlgoResult, name: string, appendNodeId: bool, node: string)
    requires EncodeOk(a, name, appendNodeId) && WellFormed(a)
    ensures
      var area := Encoded(Blank, a, name, appendNodeId);
      && DecodePrefix(area, node) == WithNode(a, node) == DecodeSlots(area, node)
      && DecodePrefix(area, area.importNodeId) == a == DecodeSlots(area, area.importNodeId)
      && (WithNode(a, node) == a <==> node == ImportNode(a))
  {
    var area := Encoded(Blank, a, name, appendNodeId);
    var slots := FirstSlots(|a.exports|);
    EncodedSizes(a, name, appendNodeId);
    RoundTrip(a, name, appendNodeId);
    GatherForNode(area, node, area.importNodeId, slots);
    SameNode(a, node);
  }

  lemma SameNode(a: AlgoResult, node: string)
    requires WellFormed(a)
    ensures WithNode(a, node) == a <==> node == ImportNode(a)
  {
    if node == ImportNode(a) {
      assert WithNode(a, node).imports == a.imports;
    } else {
      assert WithNode(a, node).imports[0] != a.imports[0];
    }
  }

  // ---- The export side ----

  function WithoutPath(d: NumaDebt): NumaDebt {
    d.(portId := 0, chipId := 0)
  }

  /** What the export decoders of FD and NUMA borrows leave out: the importing
      side's port and chip, and the socket the import is attached to. */
  ghost function Pathless(a: AlgoResult): (p: AlgoResult)
    ensures |p.exports| == |a.exports| && |p.imports| == |a.imports|
  {
    AlgoResult(a.exports, seq(|a.imports|, i requires 0 <= i < |a.imports| => WithoutPath(a.imports[i])), 0)
  }

  ghost predicate HasNoPath(a: AlgoResult) {
    a.attachSocketId == 0 && forall i :: 0 <= i < |a.imports| ==> a.imports[i].portId == a.imports[i].chipId == 0
  }

  /** A well-formed result is its own pathless form exactly if it has no path. */
  lemma PathlessFixed(a: AlgoResult)
    ensures Pathless(a) == a <==> HasNoPath(a)
  {
    if HasNoPath(a) {
      assert forall i :: 0 <= i < |a.imports| ==> WithoutPath(a.imports[i]) == a.imports[i];
    } else if a.attachSocketId == 0 {
      var i :| 0 <= i < |a.imports| && !(a.imports[i].portId == a.imports[i].chipId == 0);
      assert Pathless(a).imports[i] != a.imports[i];
    }
  }

  lemma PathlessWellFormed(d: AlgoResult)
    requires WellFormed(d)
    ensures WellFormed(Pathless(d)) && HasNoPath(Pathless(d))
  {
    assert forall i :: 0 <= i < |d.imports| ==> Pathless(d).imports[i] == WithoutPath(d.imports[i]);
  }

  /** An export restored after a restart has its result without the path. */
  lemma ExportReadsBackPathless(a: AlgoResult, name: string)
    requires EncodeOk(a, name, true) && WellFormed(a)
    ensures
      var area := Encoded(Blank, a, name, true);
      && Pathless(DecodePrefix(area, area.importNodeId)) == Pathless(a)
      && Pathless(DecodeSlots(area, area.importNodeId)) == Pathless(a)
  {
    RoundTripBothDecoders(a, name, true, ImportNode(a));
  }

  lemma EncodedDecodesWellFormed(a: AlgoResult, name: string)
    requires EncodeOk(a, name, true)
    ensures
      var area := Encoded(Blank, a, name, true);
      var d := DecodeSlots(area, area.importNodeId);
      d.exports == [] || WellFormed(d)
  {
    var area := Encoded(Blank, a, name, true);
    EncodedPlain(a, name, true);
    if Occupied(area.numaSizes, NUMA_SLOTS) != [] {
      DecodedIsWellFormed(area);
    }
  }

  /** So it is the same result exactly if that was well formed and had no path. */
  lemma ExportSideRoundTrip(a: AlgoResult, name: string)
    requires EncodeOk(a, name, true)
    ensures
      var area := Encoded(Blank, a, name, true);
      Pathless(DecodeSlots(area, area.importNodeId)) == a <==> WellFormed(a) && HasNoPath(a)
  {
    var area := Encoded(Blank, a, name, true);
    var d := DecodeSlots(area, area.importNodeId);
    if WellFormed(a) && HasNoPath(a) {
      ExportReadsBackPathless(a, name);
      PathlessFixed(a);
    }
    if Pathless(d) == a {
      EncodedDecodesWellFormed(a, name);
      PathlessWellFormed(d);
    }
  }

  /** The private area itself. */
  class CustomMeta {
    const exportNumaIds: array<nat>
    const importNumaIds: array<nat>
    const numaSizes: array<nat>
    var importSocket: int
    var exportSocket: int
    var attachSocket: nat
    var chipId: nat
    var portId: nat
    var name: string
    var exportNodeId: string
    var importNodeId: string

    ghost predicate Valid() {
      && exportNumaIds.Length == importNumaIds.Length == numaSizes.Length == NUMA_SLOTS
      && exportNumaIds != importNumaIds && exportNumaIds != numaSizes && importNumaIds != numaSizes
    }

    ghost function View(): (area: Area)
      requires Valid()
      reads this, exportNumaIds, importNumaIds, numaSizes
      ensures area.Valid()
    {
      Area(exportNumaIds[..], importNumaIds[..], numaSizes[..], importSocket, exportSocket, attachSocket,
           chipId, portId, name, exportNodeId, importNodeId)
    }

    constructor ()
      ensures Valid() && View() == Blank
      ensures fresh(exportNumaIds) && fresh(importNumaIds) && fresh(numaSizes)
    {
      exportNumaIds := new nat[NUMA_SLOTS](_ => 0);
      importNumaIds := new nat[NUMA_SLOTS](_ => 0);
      numaSizes := new nat[NUMA_SLOTS](_ => 0);
      importSocket, exportSocket, attachSocket, chipId, portId := 0, 0, 0, 0, 0;
      name, exportNodeId, importNodeId := "", "", "";
    }

    method WriteExports(debts: seq<NumaDebt>)
      requires Valid() && |debts| <= NUMA_SLOTS
      modifies exportNumaIds, numaSizes
      ensures View() == old(View()).(exportNumaIds := NumaIdSlots(old(exportNumaIds[..]), debts),
                                     numaSizes := SizeSlots(old(numaSizes[..]), debts))
    {
      for i := 0 to |debts|
        invariant exportNumaIds[..] == NumaIdSlots(old(exportNumaIds[..]), debts[..i])
        invariant numaSizes[..] == SizeSlots(old(numaSizes[..]), debts[..i])
      {
        exportNumaIds[i] := Byte(debts[i].numaId);
        numaSizes[i] := debts[i].size;
      }
      assert debts[..|debts|] == debts;
    }

    /** The side-wide fields are taken from the first entry, again for every entry. */
    method WriteImports(debts: seq<NumaDebt>) returns (node: string)
      requires Valid() && |debts| <= NUMA_SLOTS
      modifies importNumaIds, this`importSocket, this`chipId, this`portId
      ensures node == if debts == [] then "" else debts[0].nodeId
      ensures View() == WithImports(old(View()), debts)
    {
      node := "";
      for i := 0 to |debts|
        invariant View() == WithImports(old(View()), debts[..i])
        invariant node == if i == 0 then "" else debts[0].nodeId
      {
        importNumaIds[i] := Byte(debts[i].numaId);
        importSocket := debts[0].socketId;
        node := debts[0].nodeId;
        chipId := debts[0].chipId;
        portId := debts[0].portId;
        assert importNumaIds[..] == NumaIdSlots(old(importNumaIds[..]), debts[..i + 1]);
      }
      assert debts[..|debts|] == debts;
    }

    method StoreNames(key: string, exportNode: string, importNode: string) returns (ok: bool)
      requires Valid()
      modifies this`name, this`exportNodeId, this`importNodeId
      ensures ok <==>
        && StrCopy(key, MAX_NAME_LENGTH).Some?
        && StrCopy(exportNode, MAX_NODE_ID_LENGTH).Some?
        && StrCopy(importNode, MAX_NODE_ID_LENGTH).Some?
      ensures ok ==> View() == old(View()).(name := CString(key), exportNodeId := CString(exportNode),
                                            importNodeId := CString(importNode))
    {
      var k := StrCopy(key, MAX_NAME_LENGTH);
      if k.None? {
        return false;
      }
      name := k.value;
      var e := StrCopy(exportNode, MAX_NODE_ID_LENGTH);
      if e.None? {
        return false;
      }
      exportNodeId := e.value;
      var m := StrCopy(importNode, MAX_NODE_ID_LENGTH);
      if m.None? {
        return false;
      }
      importNodeId := m.value;
      return true;
    }

    /** CopyUbseMemAlgoResult. After an error the caller drops the area. */
    method CopyAlgoResult(a: AlgoResult, borrowName: string, appendNodeId: bool) returns (ok: bool)
      requires Valid()
      modifies this, exportNumaIds, importNumaIds, numaSizes
      ensures ok <==> EncodeOk(a, borrowName, appendNodeId)
      ensures ok ==> View() == Encoded(old(View()), a, borrowName, appendNodeId)
      ensures ok && '\0' !in borrowName && !appendNodeId ==> View().name == borrowName
      ensures ok && '\0' !in borrowName && appendNodeId && a.imports != [] && '\0' !in a.imports[0].nodeId ==>
        View().name == borrowName + "_" + a.imports[0].nodeId
    {
      if |a.exports| == 0 || |a.exports| < |a.imports| || NUMA_SLOTS < |a.exports| {
        return false;
      }
      WriteExports(a.exports);
      var node := WriteImports(a.imports);
      assert node == ImportNode(a);
      attachSocket := a.attachSocketId;
      exportSocket := a.exports[0].socketId;
      if a.exports[0].nodeId == "" {
        return false;
      }
      var key := if appendNodeId then ExportKey(borrowName, node) else borrowName;
      assert key == StoredKey(a, borrowName, appendNodeId);
      ok := StoreNames(key, a.exports[0].nodeId, node);
      if ok {
        EncodedName(old(View()), a, borrowName, appendNodeId);
      }
    }

    /** The NUMA decoder's loop. */
    method ReadSlots(node: string) returns (a: AlgoResult)
      requires Valid()
      ensures a == DecodeSlots(View(), node)
    {
      var exports: seq<NumaDebt>, imports: seq<NumaDebt> := [], [];
      for i := 0 to NUMA_SLOTS
        invariant exports == Gather(View(), node, Occupied(numaSizes[..], i)).exports
        invariant imports == Gather(View(), node, Occupied(numaSizes[..], i)).imports
      {
        if numaSizes[i] != 0 {
          exports := exports + [NumaDebt(exportNodeId, exportSocket, exportNumaIds[i], numaSizes[i], 0, 0)];
          imports := imports + [NumaDebt(node, importSocket, importNumaIds[i], numaSizes[i], portId, chipId)];
        }
      }
      a := AlgoResult(exports, imports, attachSocket);
    }

    /** The FD decoder's two loops. */
    method ReadPrefix(node: string) returns (a: AlgoResult)
      requires Valid()
      ensures a == DecodePrefix(View(), node)
    {
      var numaCount := 0;
      for i := 0 to NUMA_SLOTS
        invariant numaCount == |Occupied(numaSizes[..], i)|
      {
        if numaSizes[i] != 0 {
          numaCount := numaCount + 1;
        }
      }
      var exports: seq<NumaDebt>, imports: seq<NumaDebt> := [], [];
      for i := 0 to numaCount
        invariant exports == Gather(View(), node, FirstSlots(i)).exports
        invariant imports == Gather(View(), node, FirstSlots(i)).imports
      {
        exports := exports + [NumaDebt(exportNodeId, exportSocket, exportNumaIds[i], numaSizes[i], 0, 0)];
        imports := imports + [NumaDebt(node, importSocket, importNumaIds[i], numaSizes[i], portId, chipId)];
      }
      a := AlgoResult(exports, imports, attachSocket);
    }
  }

  /** Exporting under the name that the area holds, and taking the memids back. */
  class Exporter {
    const area: CustomMeta
    const unExporter: UnExporter

    constructor (area: CustomMeta, unExporter: UnExporter)
      ensures this.area == area && this.unExporter == unExporter
    {
      this.area, this.unExporter := area, unExporter;
    }

    /** Storing a result with its importing node, exporting under the stored name and
        unexporting under the key recomputed from the borrow and the result, or, after
        a restart, from the restored name and the stored node: with names free of
        zero bytes, and of underscores in the restored node id, it reaches them all. */
    method StoreExportUnExport(a: AlgoResult, borrowName: string, borrowType: BorrowType, restored: bool,
                               sizes: seq<nat>, descs: nat, blockSize: nat)
      returns (exported: bool, ret: nat, ghost ids: seq<MemId>)
      requires area.Valid() && a.imports != [] && |sizes| == MAX_NUMA_NODES
      requires !SplitFails(sizes, blockSize) ==> Total(Counts(sizes, blockSize)) < 0x8000_0000
      modifies area, area.exportNumaIds, area.importNumaIds, area.numaSizes
      modifies unExporter.kernel`live, unExporter.kernel`undoFailures
      ensures exported ==> ids != [] && IdSet(ids) !! old(unExporter.kernel.live).Keys
      ensures
        (exported && ret == UBSE_OK && '\0' !in borrowName && '\0' !in a.imports[0].nodeId
         && (restored ==> '_' !in a.imports[0].nodeId)) ==>
          unExporter.kernel.live == old(unExporter.kernel.live)
    {
      exported, ret, ids := false, OBMM_OP_FAILED, [];
      var stored := area.CopyAlgoResult(a, borrowName, true);
      if !stored {
        return;
      }
      var memIds := unExporter.ExportNamed(area.name, borrowType, sizes, descs, blockSize);
      if memIds == [] {
        return;
      }
      exported, ids := true, memIds;
      var node := if restored then area.importNodeId else a.imports[0].nodeId;
      var name := if restored then RestoredName(area.name) else borrowName;
      if restored {
        RestoreUndoesKey(borrowName, node);
      }
      ghost var mid, done := unExporter.kernel.live, 0;
      ret, done := unExporter.UnExport(memIds, ExportKey(name, node), borrowType);
    }
  }
}

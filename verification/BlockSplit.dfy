/**
 Splitting an export request into blocks. A request lists NUMA nodes with a size
 each; one descriptor is reserved per block of every entry, the sizes are
 scattered into an array indexed by NUMA id, and the array is then split into
 rows of one block each. The export goes ahead only if the counts agree.
 */
module BlockSplit {
  import opened Arith

  const MAX_NUMA_NODES := 16
  const U64 := 0x1_0000_0000_0000_0000

  datatype NumaInfo = NumaInfo(numaId: int, size: nat)

  const Zeros: seq<nat> := [0, 0, 0, 0, 0, 0, 0, 0, 0, 0, 0, 0, 0, 0, 0, 0]

  ghost predicate Overflows(size: nat, blockSize: nat) {
    size + blockSize >= U64
  }

  /** Blocks needed for a size, where the 64-bit sum does not overflow. */
  function BlocksFor(size: nat, blockSize: nat): nat
    requires blockSize > 0
  {
    (size + blockSize - 1) / blockSize
  }

  /** The block total is the size rounded up to the block size. */
  lemma RoundsUp(size: nat, blockSize: nat)
    requires blockSize > 0
    ensures size <= BlocksFor(size, blockSize) * blockSize < size + blockSize
    ensures BlocksFor(size, blockSize) == 0 <==> size == 0
  {
  }

  // ---- Rows ----

  /** The row of a block on NUMA n. */
  function Row(n: nat, blockSize: nat): (row: seq<nat>)
    requires n < MAX_NUMA_NODES
    ensures |row| == MAX_NUMA_NODES
  {
    Zeros[n := blockSize]
  }

  ghost function Total(nums: seq<nat>): nat {
    if nums == [] then 0 else Total(nums[..|nums| - 1]) + nums[|nums| - 1]
  }

  function Repeat(row: seq<nat>, count: nat): (rows: seq<seq<nat>>)
    ensures |rows| == count && forall r :: 0 <= r < count ==> rows[r] == row
  {
    seq(count, _ => row)
  }

  /** The rows of the first k NUMA nodes, NUMA by NUMA. */
  ghost function Rows(nums: seq<nat>, k: nat, blockSize: nat): (rows: seq<seq<nat>>)
    requires k <= |nums| <= MAX_NUMA_NODES
    ensures |rows| == Total(nums[..k])
  {
    if k == 0 then []
    else
      assert nums[..k][..k - 1] == nums[..k - 1];
      Rows(nums, k - 1, blockSize) + Repeat(Row(k - 1, blockSize), nums[k - 1])
  }

  ghost function Column(rows: seq<seq<nat>>, n: nat): nat
    requires n < MAX_NUMA_NODES && forall r :: 0 <= r < |rows| ==> |rows[r]| == MAX_NUMA_NODES
  {
    if rows == [] then 0 else Column(rows[..|rows| - 1], n) + rows[|rows| - 1][n]
  }

  ghost predicate SingleBlock(row: seq<nat>, blockSize: nat) {
    exists n: nat :: n < MAX_NUMA_NODES && row == Row(n, blockSize)
  }

  /** Every row carries exactly one block, on one NUMA. */
  lemma {:induction false} RowsAreSingleBlocks(nums: seq<nat>, k: nat, blockSize: nat, r: nat)
    requires k <= |nums| <= MAX_NUMA_NODES && r < |Rows(nums, k, blockSize)|
    ensures SingleBlock(Rows(nums, k, blockSize)[r], blockSize)
  {
    assert k > 0;
    if r < |Rows(nums, k - 1, blockSize)| {
      RowsAreSingleBlocks(nums, k - 1, blockSize, r);
    } else {
      assert Rows(nums, k, blockSize)[r] == Row(k - 1, blockSize);
    }
  }

  lemma OneMore(count: nat, x: nat)
    requires count > 0
    ensures count * x == (count - 1) * x + x
  {
  }

  lemma {:induction false} ColumnRepeat(before: seq<seq<nat>>, row: seq<nat>, count: nat, n: nat)
    requires n < MAX_NUMA_NODES && |row| == MAX_NUMA_NODES
    requires forall r :: 0 <= r < |before| ==> |before[r]| == MAX_NUMA_NODES
    ensures Column(before + Repeat(row, count), n) == Column(before, n) + count * row[n]
  {
    if count == 0 {
      assert before + Repeat(row, count) == before;
    } else {
      ColumnRepeat(before, row, count - 1, n);
      var all := before + Repeat(row, count);
      assert Repeat(row, count)[..count - 1] == Repeat(row, count - 1);
      assert all[..|all| - 1] == before + Repeat(row, count - 1);
      assert all[|all| - 1] == row;
      OneMore(count, row[n]);
    }
  }

  /** Each NUMA's blocks add up to its block count times the block size. */
  lemma {:induction false} ColumnTotals(nums: seq<nat>, k: nat, blockSize: nat, n: nat)
    requires k <= |nums| <= MAX_NUMA_NODES && n < MAX_NUMA_NODES
    ensures forall r :: 0 <= r < |Rows(nums, k, blockSize)| ==> |Rows(nums, k, blockSize)[r]| == MAX_NUMA_NODES
    ensures Column(Rows(nums, k, blockSize), n) == if n < k then nums[n] * blockSize else 0
  {
    if k > 0 {
      ColumnTotals(nums, k - 1, blockSize, n);
      var row := Row(k - 1, blockSize);
      ColumnRepeat(Rows(nums, k - 1, blockSize), row, nums[k - 1], n);
      assert Rows(nums, k, blockSize)
          == Rows(nums, k - 1, blockSize) + Repeat(row, nums[k - 1]);
    }
  }

  ghost function Counts(sizes: seq<nat>, blockSize: nat): (nums: seq<nat>)
    requires blockSize > 0
    ensures |nums| == |sizes|
  {
    seq(|sizes|, i requires 0 <= i < |sizes| => BlocksFor(sizes[i], blockSize))
  }

  ghost predicate SplitFails(sizes: seq<nat>, blockSize: nat) {
    blockSize == 0 || exists i :: 0 <= i < |sizes| && Overflows(sizes[i], blockSize)
  }

  /** In which places the blocks of NUMA n stand: behind all those of the lower ones. */
  lemma {:induction false} RowPlace(nums: seq<nat>, k: nat, blockSize: nat, n: nat, j: nat)
    requires n < k <= |nums| <= MAX_NUMA_NODES && j < nums[n]
    ensures Total(nums[..n]) + j < |Rows(nums, k, blockSize)|
    ensures
      var row := Rows(nums, k, blockSize)[Total(nums[..n]) + j];
      |row| == 16 && forall m :: 0 <= m < 16 ==> row[m] == if m == n then blockSize else 0
  {
    assert nums[..k][..k - 1] == nums[..k - 1];
    if n < k - 1 {
      RowPlace(nums, k - 1, blockSize, n, j);
    } else {
      assert Rows(nums, k, blockSize)[Total(nums[..n]) + j] == Row(n, blockSize);
    }
  }

  lemma {:induction false} TotalPositive(nums: seq<nat>)
    ensures Total(nums) > 0 <==> exists i :: 0 <= i < |nums| && nums[i] > 0
  {
    if nums != [] {
      TotalPositive(nums[..|nums| - 1]);
    }
  }

  /** What the rows of a split add up to on each NUMA: the size asked for, rounded
      up to whole blocks; there are some exactly if some size is not zero. */
  lemma SplitTotals(sizes: seq<nat>, blockSize: nat)
    requires |sizes| == MAX_NUMA_NODES && blockSize > 0
    ensures
      var rows := Rows(Counts(sizes, blockSize), MAX_NUMA_NODES, blockSize);
      && (rows != [] <==> exists i :: 0 <= i < 16 && sizes[i] > 0)
      && (forall r :: 0 <= r < |rows| ==> |rows[r]| == MAX_NUMA_NODES)
      && forall n :: 0 <= n < 16 ==>
           Column(rows, n) % blockSize == 0 && sizes[n] <= Column(rows, n) < sizes[n] + blockSize
  {
    var nums := Counts(sizes, blockSize);
    assert nums[..MAX_NUMA_NODES] == nums;
    TotalPositive(nums);
    forall n | 0 <= n < 16
      ensures nums[n] > 0 <==> sizes[n] > 0
    {
      RoundsUp(sizes[n], blockSize);
    }
    ColumnTotals(nums, MAX_NUMA_NODES, blockSize, 0);
    forall n | 0 <= n < 16
      ensures
        var c := Column(Rows(nums, MAX_NUMA_NODES, blockSize), n);
        c % blockSize == 0 && sizes[n] <= c < sizes[n] + blockSize
    {
      ColumnRounded(sizes, blockSize, n);
    }
  }

  lemma ColumnRounded(sizes: seq<nat>, blockSize: nat, n: nat)
    requires |sizes| == MAX_NUMA_NODES && blockSize > 0 && n < MAX_NUMA_NODES
    ensures
      var rows := Rows(Counts(sizes, blockSize), MAX_NUMA_NODES, blockSize);
      && (forall r :: 0 <= r < |rows| ==> |rows[r]| == MAX_NUMA_NODES)
      && Column(rows, n) % blockSize == 0 && sizes[n] <= Column(rows, n) < sizes[n] + blockSize
  {
    var nums := Counts(sizes, blockSize);
    ColumnTotals(nums, MAX_NUMA_NODES, blockSize, n);
    RoundsUp(sizes[n], blockSize);
    DivModUnique(nums[n] * blockSize, blockSize, nums[n], 0);
  }

  lemma SplitFailsInNumbers(sizes: seq<nat>, blockSize: nat)
    ensures SplitFails(sizes, blockSize)
       <==> blockSize == 0 || exists i :: 0 <= i < |sizes| && sizes[i] + blockSize >= 18446744073709551616
  {
    if i :| 0 <= i < |sizes| && sizes[i] + blockSize >= 18446744073709551616 {
      assert Overflows(sizes[i], blockSize);
    }
  }

  /** SplitObmmExportSize. The block loop counts in an int, hence the bound on the total. */
  method Split(sizes: seq<nat>, blockSize: nat) returns (ok: bool, result: seq<seq<nat>>)
    requires |sizes| == MAX_NUMA_NODES
    requires !SplitFails(sizes, blockSize) ==> Total(Counts(sizes, blockSize)) < 0x8000_0000
    ensures SplitFails(sizes, blockSize) ==> !ok && result == []
    ensures !SplitFails(sizes, blockSize) ==>
      && result == Rows(Counts(sizes, blockSize), MAX_NUMA_NODES, blockSize)
      && (ok <==> result != [])
    ensures ok <==>
      && blockSize > 0 && (forall i :: 0 <= i < 16 ==> sizes[i] + blockSize < 18446744073709551616)
      && exists i :: 0 <= i < 16 && sizes[i] > 0
    ensures ok ==>
      && (forall r :: 0 <= r < |result| ==> |result[r]| == MAX_NUMA_NODES)
      && forall n :: 0 <= n < 16 ==>
           Column(result, n) % blockSize == 0 && sizes[n] <= Column(result, n) < sizes[n] + blockSize
  {
    SplitFailsInNumbers(sizes, blockSize);
    if blockSize > 0 {
      SplitTotals(sizes, blockSize);
    }
    ok, result := SplitRows(sizes, blockSize);
  }

  method SplitRows(sizes: seq<nat>, blockSize: nat) returns (ok: bool, result: seq<seq<nat>>)
    requires |sizes| == MAX_NUMA_NODES
    requires !SplitFails(sizes, blockSize) ==> Total(Counts(sizes, blockSize)) < 0x8000_0000
    ensures SplitFails(sizes, blockSize) ==> !ok && result == []
    ensures !SplitFails(sizes, blockSize) ==>
      && result == Rows(Counts(sizes, blockSize), MAX_NUMA_NODES, blockSize)
      && (ok <==> result != [])
  {
    result := [];
    if blockSize == 0 {
      return false, [];
    }
    var blockNum: seq<nat> := [];
    var blockAll := 0;
    for i := 0 to MAX_NUMA_NODES
      invariant |blockNum| == i && blockNum == Counts(sizes, blockSize)[..i]
      invariant blockAll == Total(blockNum)
      invariant forall k :: 0 <= k < i ==> !Overflows(sizes[k], blockSize)
    {
      if sizes[i] + blockSize >= U64 {
        return false, [];
      }
      var n := BlocksFor(sizes[i], blockSize);
      assert (blockNum + [n])[..i] == blockNum;
      blockNum := blockNum + [n];
      blockAll := blockAll + n;
    }
    assert blockNum == Counts(sizes, blockSize);
    result := Repeat(Zeros, blockAll);
    var index := 0;
    for i := 0 to MAX_NUMA_NODES
      invariant |result| == blockAll && index == |Rows(blockNum, i, blockSize)| <= blockAll
      invariant result == Rows(blockNum, i, blockSize) + Repeat(Zeros, blockAll - index)
    {
      TotalMonotone(blockNum, i + 1);
      ghost var before, start := Rows(blockNum, i, blockSize), index;
      for j := 0 to blockNum[i]
        invariant |result| == blockAll && index == start + j && start + blockNum[i] <= blockAll
        invariant result == before + Repeat(Row(i, blockSize), j) + Repeat(Zeros, blockAll - index)
      {
        assert result[index] == Zeros;
        var row: seq<nat> := result[index][i := blockSize];
        result := result[index := row];
        index := index + 1;
      }
    }
    assert blockNum[..MAX_NUMA_NODES] == blockNum;
    ok := result != [];
  }

  lemma {:induction false} TotalMonotone(nums: seq<nat>, k: nat)
    requires 0 < k <= |nums|
    ensures Total(nums[..k]) == Total(nums[..k - 1]) + nums[k - 1] <= Total(nums)
    decreases |nums| - k
  {
    assert nums[..k][..k - 1] == nums[..k - 1];
    if k == |nums| {
      assert nums[..k] == nums;
    } else {
      TotalMonotone(nums, k + 1);
    }
  }

  // ---- The request ----

  /** SetObmmDescDefaultErrorValue: how many descriptors an entry gets. */
  function DescsFor(size: nat, blockSize: nat): nat {
    if blockSize == 0 || size + blockSize >= U64 then 0 else BlocksFor(size, blockSize)
  }

  ghost function DescCount(infos: seq<NumaInfo>, blockSize: nat): nat {
    if infos == [] then 0
    else DescCount(infos[..|infos| - 1], blockSize) + DescsFor(infos[|infos| - 1].size, blockSize)
  }

  predicate Scattered(info: NumaInfo) {
    0 <= info.numaId < MAX_NUMA_NODES && info.size > 0
  }

  ghost function SizesOf(infos: seq<NumaInfo>): (sizes: seq<nat>)
    ensures |sizes| == MAX_NUMA_NODES
  {
    if infos == [] then Zeros
    else
      var before, info := SizesOf(infos[..|infos| - 1]), infos[|infos| - 1];
      if Scattered(info) then before[info.numaId := info.size] else before
  }

  /** An entry gets as many descriptors as it takes blocks, and none if that overflows. */
  lemma DescsInNumbers(size: nat, blockSize: nat)
    ensures blockSize == 0 || size + blockSize >= 18446744073709551616 ==> DescsFor(size, blockSize) == 0
    ensures 0 < blockSize && size + blockSize < 18446744073709551616 ==>
      size <= DescsFor(size, blockSize) * blockSize < size + blockSize
  {
  }

  /** Of several usable entries for a NUMA the last one counts; without one it is 0. */
  lemma {:induction false} LaterEntryWins(infos: seq<NumaInfo>, n: nat)
    requires n < 16
    ensures SizesOf(infos)[n] > 0 ==>
      exists i :: 0 <= i < |infos| && infos[i].numaId == n && infos[i].size == SizesOf(infos)[n]
        && forall k :: i < k < |infos| && infos[k].numaId == n ==> infos[k].size == 0
    ensures SizesOf(infos)[n] == 0 ==> forall k :: 0 <= k < |infos| && infos[k].numaId == n ==> infos[k].size == 0
  {
    if infos != [] {
      LaterEntryWins(infos[..|infos| - 1], n);
    }
  }

  /** GetObmmExportParamFromRequest, with descriptors represented by their number. */
  method ExportParams(infos: seq<NumaInfo>, blockSize: nat) returns (descs: nat, sizes: seq<nat>)
    ensures descs == DescCount(infos, blockSize)
    ensures sizes == SizesOf(infos)
  {
    descs, sizes := 0, Zeros;
    for i := 0 to |infos|
      invariant descs == DescCount(infos[..i], blockSize)
      invariant sizes == SizesOf(infos[..i])
    {
      assert infos[..i + 1][..i] == infos[..i];
      descs := descs + DescsFor(infos[i].size, blockSize);
      if infos[i].numaId >= MAX_NUMA_NODES || infos[i].numaId < 0 || infos[i].size <= 0 {
        continue;
      }
      sizes := sizes[infos[i].numaId := infos[i].size];
    }
    assert infos[..|infos|] == infos;
  }

  /** Positive entries name distinct NUMA nodes below 16. */
  ghost predicate CleanRequest(infos: seq<NumaInfo>) {
    && (forall i :: 0 <= i < |infos| && infos[i].size > 0 ==> 0 <= infos[i].numaId < MAX_NUMA_NODES)
    && (forall i, j :: 0 <= i < j < |infos| && infos[i].size > 0 && infos[j].size > 0
          ==> infos[i].numaId != infos[j].numaId)
  }

  lemma {:induction false} SlotFilled(infos: seq<NumaInfo>, n: nat, blockSize: nat)
    requires n < MAX_NUMA_NODES
    requires forall i :: 0 <= i < |infos| ==> !Overflows(infos[i].size, blockSize)
    requires blockSize < U64
    ensures SizesOf(infos)[n] > 0 <==> exists i :: 0 <= i < |infos| && infos[i].numaId == n && infos[i].size > 0
    ensures !Overflows(SizesOf(infos)[n], blockSize)
  {
    if infos != [] {
      SlotFilled(infos[..|infos| - 1], n, blockSize);
    }
  }

  lemma {:induction false} TotalUpdate(sizes: seq<nat>, n: nat, v: nat, blockSize: nat)
    requires n < |sizes| && blockSize > 0
    ensures Total(Counts(sizes[n := v], blockSize))
         == Total(Counts(sizes, blockSize)) - BlocksFor(sizes[n], blockSize) + BlocksFor(v, blockSize)
  {
    var last := |sizes| - 1;
    var c, c' := Counts(sizes, blockSize), Counts(sizes[n := v], blockSize);
    assert c[..last] == Counts(sizes[..last], blockSize);
    if n == last {
      assert c'[..last] == c[..last];
    } else {
      assert sizes[n := v][..last] == sizes[..last][n := v];
      assert c'[..last] == Counts(sizes[..last][n := v], blockSize);
      TotalUpdate(sizes[..last], n, v, blockSize);
    }
  }

  lemma {:induction false} ZeroTotal(k: nat, blockSize: nat)
    requires k <= MAX_NUMA_NODES && blockSize > 0
    ensures Total(Counts(Zeros[..k], blockSize)) == 0
  {
    if k > 0 {
      ZeroTotal(k - 1, blockSize);
      assert Counts(Zeros[..k], blockSize)[..k - 1] == Counts(Zeros[..k - 1], blockSize);
      RoundsUp(0, blockSize);
    }
  }

  /** There are never fewer descriptors than blocks, and as many exactly for a
      clean request: every repeated or unusable NUMA id leaves descriptors over. */
  lemma {:induction false} CountsAgreeWhenClean(infos: seq<NumaInfo>, blockSize: nat)
    requires 0 < blockSize < U64
    requires forall i :: 0 <= i < |infos| ==> !Overflows(infos[i].size, blockSize)
    ensures DescCount(infos, blockSize) >= Total(Counts(SizesOf(infos), blockSize))
    ensures DescCount(infos, blockSize) == Total(Counts(SizesOf(infos), blockSize)) <==> CleanRequest(infos)
  {
    if infos == [] {
      assert Zeros[..MAX_NUMA_NODES] == Zeros;
      ZeroTotal(MAX_NUMA_NODES, blockSize);
    } else {
      var last := |infos| - 1;
      var before, info := infos[..last], infos[last];
      CountsAgreeWhenClean(before, blockSize);
      RoundsUp(info.size, blockSize);
      assert forall i :: 0 <= i < last ==> before[i] == infos[i];
      if Scattered(info) {
        var n, prior := info.numaId, SizesOf(before)[info.numaId];
        SlotFilled(before, n, blockSize);
        RoundsUp(prior, blockSize);
        TotalUpdate(SizesOf(before), n, info.size, blockSize);
        LastFits(infos);
      }
    }
  }

  /** A clean request stays clean exactly when the new entry's NUMA is unused. */
  lemma LastFits(infos: seq<NumaInfo>)
    requires infos != [] && Scattered(infos[|infos| - 1])
    ensures
      var last := |infos| - 1;
      CleanRequest(infos) <==>
        && CleanRequest(infos[..last])
        && !exists i :: 0 <= i < last && infos[..last][i].numaId == infos[last].numaId && infos[..last][i].size > 0
  {
  }

  lemma {:induction false} SlotValue(infos: seq<NumaInfo>, i: nat)
    requires CleanRequest(infos) && i < |infos| && infos[i].size > 0
    ensures SizesOf(infos)[infos[i].numaId] == infos[i].size
  {
    var last := |infos| - 1;
    if i < last {
      assert infos[..last][i] == infos[i];
      assert CleanRequest(infos[..last]) by {
        assert forall j :: 0 <= j < last ==> infos[..last][j] == infos[j];
      }
      SlotValue(infos[..last], i);
    }
  }

  /** What a clean request exports from the NUMA of one of its entries: the
      entry's size rounded up to whole blocks. */
  lemma EntryIsRoundedUp(infos: seq<NumaInfo>, i: nat, blockSize: nat)
    requires CleanRequest(infos) && i < |infos| && infos[i].size > 0 && blockSize > 0
    ensures
      var rows := Rows(Counts(SizesOf(infos), blockSize), MAX_NUMA_NODES, blockSize);
      && (forall r :: 0 <= r < |rows| ==> |rows[r]| == MAX_NUMA_NODES)
      && Column(rows, infos[i].numaId) % blockSize == 0
      && infos[i].size <= Column(rows, infos[i].numaId) < infos[i].size + blockSize
  {
    SlotValue(infos, i);
    ColumnRounded(SizesOf(infos), blockSize, infos[i].numaId);
  }
}

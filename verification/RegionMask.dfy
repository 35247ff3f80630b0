/**
 The set of nodes a shared memory may be used from, kept as a 32-bit mask in the
 private area of its memids. A mask is modelled as its 32 bits, lowest first.
 */
module RegionMask {

  const MASK_BITS := 32

  type Mask = m: seq<bool> | |m| == 32 witness seq(32, _ => false)

  const EmptyMask: Mask := seq(32, _ => false)

  /** The set bits among the first k, lowest first. */
  ghost function Regions(mask: Mask, k: nat): (nodes: seq<nat>)
    requires k <= MASK_BITS
  {
    if k == 0 then [] else Regions(mask, k - 1) + if mask[k - 1] then [k - 1] else []
  }

  ghost predicate Ascending(nodes: seq<nat>) {
    forall i, j :: 0 <= i < j < |nodes| ==> nodes[i] < nodes[j]
  }

  lemma {:induction false} RegionsAreTheBits(mask: Mask, k: nat)
    requires k <= MASK_BITS
    ensures Ascending(Regions(mask, k))
    ensures forall n: nat :: n in Regions(mask, k) <==> n < k && mask[n]
  {
    if k > 0 {
      RegionsAreTheBits(mask, k - 1);
      var before := Regions(mask, k - 1);
      assert forall i :: 0 <= i < |before| ==> before[i] in before;
    }
  }

  /** SetMaskFromRegionIndex, on a mask that starts out as 0. */
  method SetMask(nodes: seq<nat>) returns (ok: bool, mask: Mask)
    ensures ok <==> forall i :: 0 <= i < |nodes| ==> nodes[i] < MASK_BITS
    ensures ok ==> forall n :: 0 <= n < MASK_BITS ==> (mask[n] <==> n in nodes)
  {
    mask := EmptyMask;
    for i := 0 to |nodes|
      invariant forall j :: 0 <= j < i ==> nodes[j] < MASK_BITS
      invariant forall n :: 0 <= n < MASK_BITS ==> (mask[n] <==> n in nodes[..i])
    {
      assert nodes[..i + 1] == nodes[..i] + [nodes[i]];
      if nodes[i] < MASK_BITS {
        mask := mask[nodes[i] := true];
      } else {
        return false, mask;
      }
    }
    assert nodes[..|nodes|] == nodes;
    ok := true;
  }

  /** The decoder's loop over the node indices. */
  method ReadRegions(mask: Mask) returns (nodes: seq<nat>)
    ensures nodes == Regions(mask, MASK_BITS)
  {
    nodes := [];
    for i := 0 to MASK_BITS
      invariant nodes == Regions(mask, i)
    {
      if mask[i] {
        nodes := nodes + [i];
      }
    }
  }

  /** Storing a list of node indices and reading the mask gives the same nodes,
      ascending and without repetitions. */
  method StoreAndRead(nodes: seq<nat>) returns (ok: bool, read: seq<nat>)
    ensures ok <==> forall i :: 0 <= i < |nodes| ==> nodes[i] < MASK_BITS
    ensures ok ==> Ascending(read) && forall n :: n in read <==> n in nodes
  {
    var mask;
    read := [];
    ok, mask := SetMask(nodes);
    if ok {
      RegionsAreTheBits(mask, MASK_BITS);
      read := ReadRegions(mask);
    }
  }
}

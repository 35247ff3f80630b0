/**
 The server index inside an EID. An EID has 128 bits; bits 96 to 119 hold the
 24-bit CNA, and a configurable rule scatters the bits of a server index over
 ranges of the CNA, adding an offset within each range.
 */
module EidFields {
  import opened Arith
  import opened Sets

  const EID_BITS := 128
  const CNA_BIT_OFFSET := 96
  const CNA_BIT_LEN := 24

  /** A bit range of the CNA, counted from its lowest bit, ends included. */
  datatype Range = Range(start: nat, end: nat, offset: nat) {
    predicate Valid() {
      start <= end < CNA_BIT_LEN && offset < 256
    }

    function Len(): (n: nat)
      requires Valid()
    {
      end - start + 1
    }
  }

  type Bits = b: seq<bool> | |b| == 128 witness seq(128, _ => false)

  /** Where CNA bit c stands in an EID. */
  function Pos(c: nat): (p: nat)
    requires c < CNA_BIT_LEN
    ensures CNA_BIT_OFFSET <= p < CNA_BIT_OFFSET + CNA_BIT_LEN
  {
    CNA_BIT_OFFSET + CNA_BIT_LEN - 1 - c
  }

  predicate ValidRule(rule: seq<Range>) {
    rule != [] && forall k :: 0 <= k < |rule| ==> rule[k].Valid()
  }

  function Width(rule: seq<Range>): nat
    requires forall k :: 0 <= k < |rule| ==> rule[k].Valid()
  {
    if rule == [] then 0 else Width(rule[..|rule| - 1]) + rule[|rule| - 1].Len()
  }

  /** What is written into range k: the index bits it carries plus its offset. */
  ghost function FieldVal(rule: seq<Range>, k: nat, serverId: nat): nat
    requires ValidRule(rule) && k < |rule|
  {
    Low(Shr(serverId, Width(rule[..k])), rule[k].Len()) + rule[k].offset
  }

  /** Bits start .. start + n - 1 of the CNA replaced by the n lowest bits of val. */
  ghost function WriteBits(bits: Bits, start: nat, n: nat, val: nat): Bits
    requires start + n <= CNA_BIT_LEN
  {
    seq(EID_BITS, p requires 0 <= p < EID_BITS =>
      var c := CNA_BIT_OFFSET + CNA_BIT_LEN - 1 - p;
      if start <= c < start + n then Bit(val, c - start) else bits[p])
  }

  /** The bits after the first k ranges have been written. */
  ghost function Write(bits: Bits, rule: seq<Range>, k: nat, serverId: nat): Bits
    requires ValidRule(rule) && k <= |rule|
  {
    if k == 0 then bits
    else WriteBits(Write(bits, rule, k - 1, serverId), rule[k - 1].start, rule[k - 1].Len(),
                   FieldVal(rule, k - 1, serverId))
  }

  ghost function Overwrite(bits: Bits, rule: seq<Range>, idx: nat): Bits
    requires ValidRule(rule)
  {
    Write(bits, rule, |rule|, Low(idx, Width(rule)))
  }

  /** Position p belongs to one of the first k ranges. */
  ghost predicate Covered(rule: seq<Range>, k: nat, p: nat)
    requires k <= |rule|
  {
    exists j :: 0 <= j < k && InRange(rule[j], p)
  }

  predicate InRange(r: Range, p: int) {
    r.start <= CNA_BIT_OFFSET + CNA_BIT_LEN - 1 - p <= r.end
  }

  ghost predicate DisjointRule(rule: seq<Range>) {
    forall j, k :: 0 <= j < k < |rule| ==> rule[j].end < rule[k].start || rule[k].end < rule[j].start
  }

  /** A bit outside the ranges is kept, one inside no longer depends on what was there. */
  lemma {:induction false} WriteFrame(bits: Bits, bits': Bits, rule: seq<Range>, k: nat, sid: nat, p: nat)
    requires ValidRule(rule) && k <= |rule| && p < EID_BITS
    ensures !Covered(rule, k, p) ==> Write(bits, rule, k, sid)[p] == bits[p]
    ensures Covered(rule, k, p) ==> Write(bits, rule, k, sid)[p] == Write(bits', rule, k, sid)[p]
    ensures Covered(rule, k, p) ==> CNA_BIT_OFFSET <= p < CNA_BIT_OFFSET + CNA_BIT_LEN
  {
    if k > 0 {
      WriteFrame(bits, bits', rule, k - 1, sid, p);
      assert Covered(rule, k, p) <==> Covered(rule, k - 1, p) || InRange(rule[k - 1], p);
    }
  }

  /** An overwrite changes only bits of the ranges. */
  lemma OverwriteTouchesRanges(bits: Bits, rule: seq<Range>, idx: nat, p: nat)
    requires ValidRule(rule) && p < EID_BITS && Overwrite(bits, rule, idx)[p] != bits[p]
    ensures Covered(rule, |rule|, p)
  {
    WriteFrame(bits, bits, rule, |rule|, Low(idx, Width(rule)), p);
  }

  /** An overwrite absorbs an earlier one. */
  lemma OverwriteAbsorbs(bits: Bits, rule: seq<Range>, first: nat, second: nat)
    requires ValidRule(rule)
    ensures Overwrite(Overwrite(bits, rule, first), rule, second) == Overwrite(bits, rule, second)
  {
    var mid := Overwrite(bits, rule, first);
    forall p | 0 <= p < EID_BITS
      ensures Overwrite(mid, rule, second)[p] == Overwrite(bits, rule, second)[p]
    {
      WriteFrame(bits, bits, rule, |rule|, Low(first, Width(rule)), p);
      WriteFrame(mid, bits, rule, |rule|, Low(second, Width(rule)), p);
      WriteFrame(bits, mid, rule, |rule|, Low(second, Width(rule)), p);
    }
  }

  /** Everything but the CNA cleared. */
  ghost function CnaOnly(bits: Bits): Bits {
    seq(EID_BITS, p requires 0 <= p < EID_BITS =>
      CNA_BIT_OFFSET <= p < CNA_BIT_OFFSET + CNA_BIT_LEN && bits[p])
  }

  /** Overwriting the index and extracting the CNA can be done in either order. */
  lemma OverwriteCommutesWithCna(bits: Bits, rule: seq<Range>, idx: nat)
    requires ValidRule(rule)
    ensures CnaOnly(Overwrite(bits, rule, idx)) == Overwrite(CnaOnly(bits), rule, idx)
  {
    var cna, sid := CnaOnly(bits), Low(idx, Width(rule));
    forall p | 0 <= p < EID_BITS
      ensures CnaOnly(Overwrite(bits, rule, idx))[p] == Overwrite(cna, rule, idx)[p]
    {
      WriteFrame(bits, cna, rule, |rule|, sid, p);
      WriteFrame(cna, bits, rule, |rule|, sid, p);
    }
  }

  // ---- Disjoint rules ----

  /** The CNA bits of the first k ranges. */
  ghost function Cover(rule: seq<Range>, k: nat): set<nat>
    requires k <= |rule|
  {
    if k == 0 then {} else Cover(rule, k - 1) + Span(rule[k - 1].start, rule[k - 1].end + 1)
  }

  lemma {:induction false} CoverMembers(rule: seq<Range>, k: nat, c: nat)
    requires k <= |rule|
    ensures c in Cover(rule, k) <==> exists j :: 0 <= j < k && rule[j].start <= c <= rule[j].end
  {
    if k > 0 {
      CoverMembers(rule, k - 1, c);
    }
  }

  lemma CoverApart(rule: seq<Range>, k: nat)
    requires ValidRule(rule) && DisjointRule(rule) && k < |rule|
    ensures Cover(rule, k) !! Span(rule[k].start, rule[k].end + 1)
  {
    forall c | c in Span(rule[k].start, rule[k].end + 1)
      ensures c !in Cover(rule, k)
    {
      CoverMembers(rule, k, c);
    }
  }

  lemma UnionSize(a: set<nat>, b: set<nat>)
    requires a !! b
    ensures |a + b| == |a| + |b|
  {
  }

  lemma WidthStep(rule: seq<Range>, k: nat)
    requires ValidRule(rule) && 0 < k <= |rule|
    ensures Width(rule[..0]) == 0
    ensures Width(rule[..k]) == Width(rule[..k - 1]) + (rule[k - 1].end - rule[k - 1].start + 1)
  {
    assert rule[..k][..k - 1] == rule[..k - 1];
  }

  lemma {:induction false} CoverSize(rule: seq<Range>, k: nat)
    requires ValidRule(rule) && DisjointRule(rule) && k <= |rule|
    ensures |Cover(rule, k)| == Width(rule[..k])
  {
    if k > 0 {
      var before, span := Cover(rule, k - 1), Span(rule[k - 1].start, rule[k - 1].end + 1);
      CoverSize(rule, k - 1);
      WidthStep(rule, k);
      SpanSize(rule[k - 1].start, rule[k - 1].end + 1);
      CoverApart(rule, k - 1);
      UnionSize(before, span);
      assert Cover(rule, k) == before + span;
    }
  }

  lemma CoverInCna(rule: seq<Range>, k: nat)
    requires ValidRule(rule) && k <= |rule|
    ensures Cover(rule, k) <= Span(0, CNA_BIT_LEN)
  {
    forall c | c in Cover(rule, k)
      ensures c in Span(0, CNA_BIT_LEN)
    {
      CoverMembers(rule, k, c);
    }
  }

  /** Disjoint ranges are together no wider than the CNA. */
  lemma DisjointWidth(rule: seq<Range>)
    requires ValidRule(rule) && DisjointRule(rule)
    ensures Width(rule) <= CNA_BIT_LEN
  {
    assert rule[..|rule|] == rule;
    CoverSize(rule, |rule|);
    CoverInCna(rule, |rule|);
    SpanSize(0, CNA_BIT_LEN);
    SubsetSize(Cover(rule, |rule|), Span(0, CNA_BIT_LEN));
  }

  /** With disjoint ranges every range keeps what was written into it. */
  lemma {:induction false} RangeKeeps(bits: Bits, rule: seq<Range>, k: nat, sid: nat, j: nat, i: nat)
    requires ValidRule(rule) && DisjointRule(rule) && j < k <= |rule| && i < rule[j].Len()
    ensures Write(bits, rule, k, sid)[Pos(rule[j].start + i)] == Bit(FieldVal(rule, j, sid), i)
  {
    if j < k - 1 {
      RangeKeeps(bits, rule, k - 1, sid, j, i);
      assert !InRange(rule[k - 1], Pos(rule[j].start + i));
    }
  }

  lemma FieldDeterminesBits(x: nat, y: nat, n: nat, offset: nat)
    requires Low(Low(x, n) + offset, n) == Low(Low(y, n) + offset, n)
    ensures Low(x, n) == Low(y, n)
  {
    AddIsInjective(Low(x, n), Low(y, n), offset, n);
    LowOfLow(x, n);
    LowOfLow(y, n);
  }

  ghost predicate SameField(rule: seq<Range>, k: nat, x: nat, y: nat)
    requires ValidRule(rule) && k < |rule|
  {
    Low(FieldVal(rule, k, x), rule[k].Len()) == Low(FieldVal(rule, k, y), rule[k].Len())
  }

  lemma SameFieldSameBits(rule: seq<Range>, k: nat, x: nat, y: nat)
    requires ValidRule(rule) && k < |rule| && SameField(rule, k, x, y)
    ensures Low(Shr(x, Width(rule[..k])), rule[k].Len()) == Low(Shr(y, Width(rule[..k])), rule[k].Len())
  {
    var w, n := Width(rule[..k]), rule[k].Len();
    FieldDeterminesBits(Shr(x, w), Shr(y, w), n, rule[k].offset);
  }

  /** Equal fields in the first k ranges make the index bits carried so far equal. */
  lemma {:induction false} FieldsDetermineIndex(rule: seq<Range>, k: nat, x: nat, y: nat)
    requires ValidRule(rule) && k <= |rule|
    requires forall j :: 0 <= j < k ==> SameField(rule, j, x, y)
    ensures Low(x, Width(rule[..k])) == Low(y, Width(rule[..k]))
  {
    if k > 0 {
      FieldsDetermineIndex(rule, k - 1, x, y);
      WidthStep(rule, k);
      SameFieldSameBits(rule, k - 1, x, y);
      LowSplit(x, y, Width(rule[..k - 1]), rule[k - 1].Len());
    }
  }

  /** Two indices give the same bits exactly when they agree on the bits the rule
      can carry; so indices below 2^width give the same bits only if equal,
      although every offset addition drops its carry. */
  lemma OverwriteInjective(bits: Bits, rule: seq<Range>, x: nat, y: nat)
    requires ValidRule(rule) && DisjointRule(rule)
    ensures Overwrite(bits, rule, x) == Overwrite(bits, rule, y) <==> Low(x, Width(rule)) == Low(y, Width(rule))
    ensures x < Pow2(Width(rule)) && y < Pow2(Width(rule)) && Overwrite(bits, rule, x) == Overwrite(bits, rule, y) ==> x == y
  {
    var sx, sy := Low(x, Width(rule)), Low(y, Width(rule));
    if Overwrite(bits, rule, x) == Overwrite(bits, rule, y) {
      forall j | 0 <= j < |rule|
        ensures SameField(rule, j, sx, sy)
      {
        forall i | 0 <= i < rule[j].Len()
          ensures Bit(FieldVal(rule, j, sx), i) <==> Bit(FieldVal(rule, j, sy), i)
        {
          RangeKeeps(bits, rule, |rule|, sx, j, i);
          RangeKeeps(bits, rule, |rule|, sy, j, i);
        }
        LowFromBits(FieldVal(rule, j, sx), FieldVal(rule, j, sy), rule[j].Len());
      }
      FieldsDetermineIndex(rule, |rule|, sx, sy);
      assert rule[..|rule|] == rule;
      LowOfLow(x, Width(rule));
      LowOfLow(y, Width(rule));
    }
    if x < Pow2(Width(rule)) && y < Pow2(Width(rule)) {
      LowOfSmall(x, Width(rule));
      LowOfSmall(y, Width(rule));
    }
  }

  /** Every range holds the bits that the index puts there. */
  ghost predicate Carries(bits: Bits, rule: seq<Range>, idx: nat)
    requires ValidRule(rule)
  {
    forall j, i :: 0 <= j < |rule| && 0 <= i < rule[j].Len() ==>
      bits[Pos(rule[j].start + i)] == Bit(FieldVal(rule, j, Low(idx, Width(rule))), i)
  }

  /** Under a disjoint rule an overwrite changes nothing exactly when the index is already there. */
  lemma FixedWhenCarried(bits: Bits, rule: seq<Range>, idx: nat)
    requires ValidRule(rule) && DisjointRule(rule)
    ensures Overwrite(bits, rule, idx) == bits <==> Carries(bits, rule, idx)
  {
    var sid := Low(idx, Width(rule));
    forall j, i | 0 <= j < |rule| && 0 <= i < rule[j].Len()
      ensures Overwrite(bits, rule, idx)[Pos(rule[j].start + i)] == Bit(FieldVal(rule, j, sid), i)
    {
      RangeKeeps(bits, rule, |rule|, sid, j, i);
    }
    if Carries(bits, rule, idx) {
      forall p | 0 <= p < EID_BITS
        ensures Overwrite(bits, rule, idx)[p] == bits[p]
      {
        WriteFrame(bits, bits, rule, |rule|, sid, p);
        if Covered(rule, |rule|, p) {
          var j :| 0 <= j < |rule| && InRange(rule[j], p);
          var i: nat := CNA_BIT_OFFSET + CNA_BIT_LEN - 1 - p - rule[j].start;
          assert Pos(rule[j].start + i) == p;
          RangeKeeps(bits, rule, |rule|, sid, j, i);
          assert bits[Pos(rule[j].start + i)] == Bit(FieldVal(rule, j, sid), i);
        }
      }
    }
  }

  // ---- The ranges read as numbers ----

  /** The number that stands in n bits of the CNA from bit `start` on, lowest first;
      bit c of the CNA is bit 119 - c of the EID. */
  ghost function NumberAt(bits: Bits, start: nat, n: nat): nat
    requires start + n <= 24
  {
    if n == 0 then 0
    else NumberAt(bits, start, n - 1) + if bits[119 - (start + n - 1)] then Pow2(n - 1) else 0
  }

  /** Every range, read as a number, holds the share of the index that falls to it
      plus its offset, up to the width of the range. */
  ghost predicate HoldsIndex(bits: Bits, rule: seq<Range>, idx: nat)
    requires ValidRule(rule)
  {
    forall j :: 0 <= j < |rule| ==>
      NumberAt(bits, rule[j].start, rule[j].end - rule[j].start + 1)
        == (idx % Pow2(Width(rule)) / Pow2(Width(rule[..j])) + rule[j].offset) % Pow2(rule[j].end - rule[j].start + 1)
  }

  lemma {:induction false} NumberBits(bits: Bits, start: nat, n: nat, val: nat)
    requires start + n <= 24
    ensures NumberAt(bits, start, n) < Pow2(n)
    ensures NumberAt(bits, start, n) == Low(val, n)
       <==> forall i :: 0 <= i < n ==> bits[119 - (start + i)] == Bit(val, i)
  {
    if n > 0 {
      NumberBits(bits, start, n - 1, val);
      LowTop(val, n);
    }
  }

  lemma FieldValIsShare(rule: seq<Range>, j: nat, idx: nat)
    requires ValidRule(rule) && j < |rule|
    ensures Low(FieldVal(rule, j, Low(idx, Width(rule))), rule[j].end - rule[j].start + 1)
         == (idx % Pow2(Width(rule)) / Pow2(Width(rule[..j])) + rule[j].offset) % Pow2(rule[j].end - rule[j].start + 1)
  {
    var sid := Low(idx, Width(rule));
    LowIsMod(idx, Width(rule));
    ShrIsDiv(sid, Width(rule[..j]));
    LowOfOffset(Shr(sid, Width(rule[..j])), rule[j].offset, rule[j].Len());
  }

  lemma RangeCarries(bits: Bits, rule: seq<Range>, j: nat, idx: nat)
    requires ValidRule(rule) && j < |rule|
    ensures (forall i :: 0 <= i < rule[j].Len() ==>
               bits[Pos(rule[j].start + i)] == Bit(FieldVal(rule, j, Low(idx, Width(rule))), i))
       <==> NumberAt(bits, rule[j].start, rule[j].end - rule[j].start + 1)
              == Low(FieldVal(rule, j, Low(idx, Width(rule))), rule[j].Len())
  {
    NumberBits(bits, rule[j].start, rule[j].Len(), FieldVal(rule, j, Low(idx, Width(rule))));
  }

  /** The ranges hold their bits exactly when they hold their numbers. */
  lemma CarriesNumbers(bits: Bits, rule: seq<Range>, idx: nat)
    requires ValidRule(rule)
    ensures Carries(bits, rule, idx) <==> HoldsIndex(bits, rule, idx)
  {
    forall j | 0 <= j < |rule|
      ensures (forall i :: 0 <= i < rule[j].Len() ==>
                 bits[Pos(rule[j].start + i)] == Bit(FieldVal(rule, j, Low(idx, Width(rule))), i))
         <==> NumberAt(bits, rule[j].start, rule[j].end - rule[j].start + 1)
                == (idx % Pow2(Width(rule)) / Pow2(Width(rule[..j])) + rule[j].offset)
                   % Pow2(rule[j].end - rule[j].start + 1)
    {
      RangeCarries(bits, rule, j, idx);
      FieldValIsShare(rule, j, idx);
    }
  }

  /** After an overwrite under a disjoint rule every range, read as a number, holds
      the share of the index that falls to it plus its offset. */
  lemma OverwriteHolds(bits: Bits, rule: seq<Range>, idx: nat)
    requires ValidRule(rule) && DisjointRule(rule)
    ensures HoldsIndex(Overwrite(bits, rule, idx), rule, idx)
  {
    OverwriteAbsorbs(bits, rule, idx, idx);
    FixedWhenCarried(Overwrite(bits, rule, idx), rule, idx);
    CarriesNumbers(Overwrite(bits, rule, idx), rule, idx);
  }

  lemma RangeHolds(bits: Bits, rule: seq<Range>, idx: nat, j: nat)
    requires ValidRule(rule) && DisjointRule(rule) && j < |rule|
    ensures NumberAt(Overwrite(bits, rule, idx), rule[j].start, rule[j].end - rule[j].start + 1)
         == (idx % Pow2(Width(rule)) / Pow2(Width(rule[..j])) + rule[j].offset) % Pow2(rule[j].end - rule[j].start + 1)
  {
    OverwriteHolds(bits, rule, idx);
  }

  /** Bits that differ belong to a range. */
  ghost predicate SameOutside(bits: Bits, bits': Bits, rule: seq<Range>) {
    forall p :: 0 <= p < 128 && bits'[p] != bits[p] ==>
      exists j :: 0 <= j < |rule| && rule[j].start <= 119 - p <= rule[j].end
  }

  lemma OverwriteKeepsRest(bits: Bits, rule: seq<Range>, idx: nat)
    requires ValidRule(rule)
    ensures SameOutside(bits, Overwrite(bits, rule, idx), rule)
  {
    forall p | 0 <= p < 128 && Overwrite(bits, rule, idx)[p] != bits[p]
      ensures exists j :: 0 <= j < |rule| && rule[j].start <= 119 - p <= rule[j].end
    {
      OverwriteTouchesRanges(bits, rule, idx, p);
      var j :| 0 <= j < |rule| && InRange(rule[j], p);
    }
  }
}

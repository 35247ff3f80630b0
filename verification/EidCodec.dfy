/**
 The EID operations of the management interface: text in, text out, with the
 bit work in between.
 */
module EidCodec {
  import opened Arith
  import opened EidFields
  import opened EidText
  import opened Options

  const NO_BITS: Bits := seq(128, _ => false)

  /** The getline loop. */
  method SplitSegments(e: string) returns (segments: seq<string>)
    ensures segments == Segments(e)
  {
    segments := [];
    var left := e;
    while left != ""
      invariant segments + Segments(left) == Segments(e)
      decreases |left|
    {
      var i := ColonAt(left);
      var rest := if i == |left| then "" else left[i + 1..];
      SegmentStep(left, i, rest, segments);
      segments := segments + [left[..i]];
      left := rest;
    }
  }

  lemma SegmentHead(left: string, i: nat, rest: string)
    requires left != "" && i == ColonAt(left) && rest == if i == |left| then "" else left[i + 1..]
    ensures Segments(left) == [left[..i]] + Segments(rest)
  {
    if i == |left| {
      assert left[..i] == left;
      assert Segments("") == [];
      assert [left] + [] == [left];
    }
  }

  lemma SegmentStep(left: string, i: nat, rest: string, segments: seq<string>)
    requires left != "" && i == ColonAt(left) && rest == if i == |left| then "" else left[i + 1..]
    ensures segments + Segments(left) == (segments + [left[..i]]) + Segments(rest)
  {
    SegmentHead(left, i, rest);
    Assoc(segments, [left[..i]], Segments(rest));
  }

  lemma Assoc(a: seq<string>, b: seq<string>, c: seq<string>)
    ensures a + (b + c) == (a + b) + c
  {
  }

  /** ParseBaseEid: all segments must convert, and give 128 bits together. */
  method ParseBaseEid(e: string) returns (r: Option<seq<bool>>)
    ensures r == Parse(e)
  {
    var segments := SplitSegments(e);
    var bits: seq<bool> := [];
    assert segments[0..] == segments;
    assert Joined([], SegmentBits(segments)) == SegmentBits(segments) by {
      if SegmentBits(segments).Some? {
        assert [] + SegmentBits(segments).value == SegmentBits(segments).value;
      }
    }
    for k := 0 to |segments|
      invariant SegmentBits(segments) == Joined(bits, SegmentBits(segments[k..]))
    {
      assert segments[k..][1..] == segments[k + 1..];
      var v := ToUint16(segments[k]);
      if v.None? {
        return None;
      }
      JoinedAssoc(bits, BitsOf(v.value, GROUP_BITS), SegmentBits(segments[k + 1..]));
      bits := bits + BitsOf(v.value, GROUP_BITS);
    }
    assert segments[|segments|..] == [] && bits + [] == bits;
    if |bits| != EidText.EID_BITS {
      return None;
    }
    return Some(bits);
  }

  ghost function Joined(bits: seq<bool>, rest: Option<seq<bool>>): Option<seq<bool>> {
    if rest.None? then None else Some(bits + rest.value)
  }

  lemma JoinedAssoc(a: seq<bool>, b: seq<bool>, rest: Option<seq<bool>>)
    ensures Joined(a, Joined(b, rest)) == Joined(a + b, rest)
  {
    if rest.Some? {
      assert a + (b + rest.value) == (a + b) + rest.value;
    }
  }

  /** ConstructEid */
  method ConstructEid(bits: seq<bool>) returns (e: string)
    ensures e == Print(bits)
  {
    e := "";
    var i := 0;
    ghost var printed := "";
    while i < |bits|
      invariant 0 <= i
      invariant i >= |bits| ==> e == Print(bits)
      invariant i < |bits| ==> (if i == 0 then e == "" else e + ":" + Print(bits[i..]) == Print(bits))
      decreases |bits| - i
    {
      ghost var e0, left := e, bits[i..];
      if i > 0 {
        e := e + ":";
      }
      var chunk := if i + GROUP_BITS <= |bits| then bits[i..i + GROUP_BITS] else bits[i..];
      var h := HexOf(ValueOf(chunk), 4);
      e := e + h;
      if i + GROUP_BITS < |bits| {
        assert left[..GROUP_BITS] == chunk && left[GROUP_BITS..] == bits[i + GROUP_BITS..];
        assert Print(left) == h + ":" + Print(bits[i + GROUP_BITS..]);
        Regroup(e0, h, Print(bits[i + GROUP_BITS..]));
      } else {
        assert left == chunk;
        assert Print(left) == h;
      }
      if i == 0 {
        assert left == bits;
      }
      i := i + GROUP_BITS;
    }
  }

  lemma Regroup(e: string, h: string, rest: string)
    ensures e + ":" + (h + ":" + rest) == e + ":" + h + ":" + rest
    ensures "" + h + ":" + rest == h + ":" + rest
  {
  }

  /** The first loop of OverwriteEid: every range must lie within the CNA. */
  method CheckRule(rule: seq<Range>) returns (ok: bool, serverIdxLen: nat)
    requires forall k :: 0 <= k < |rule| ==> rule[k].offset < 256
    ensures ok <==> ValidRule(rule)
    ensures ok <==> rule != [] && forall k :: 0 <= k < |rule| ==> rule[k].start <= rule[k].end < 24
    ensures ok ==> serverIdxLen == Width(rule)
  {
    serverIdxLen := 0;
    if rule == [] {
      return false, 0;
    }
    for k := 0 to |rule|
      invariant forall j :: 0 <= j < k ==> rule[j].Valid()
      invariant serverIdxLen == Width(rule[..k])
    {
      if rule[k].start > rule[k].end || rule[k].end >= CNA_BIT_LEN {
        return false, 0;
      }
      assert rule[..k + 1][..k] == rule[..k];
      serverIdxLen := serverIdxLen + (rule[k].end - rule[k].start) + 1;
    }
    assert rule[..|rule|] == rule;
    ok := true;
  }

  lemma WrittenHolds(base: Bits, rule: seq<Range>, serverId: nat)
    requires ValidRule(rule)
    ensures DisjointRule(rule) && serverId < Pow2(Width(rule)) ==>
      HoldsIndex(Write(base, rule, |rule|, serverId), rule, serverId)
  {
    if DisjointRule(rule) && serverId < Pow2(Width(rule)) {
      LowOfSmall(serverId, Width(rule));
      OverwriteHolds(base, rule, serverId);
    }
  }

  /** The second loop: field by field, bit by bit. */
  method WriteRanges(base: Bits, rule: seq<Range>, serverId: nat) returns (bits: Bits)
    requires ValidRule(rule)
    ensures bits == Write(base, rule, |rule|, serverId)
    ensures DisjointRule(rule) && serverId < Pow2(Width(rule)) ==> HoldsIndex(bits, rule, serverId)
  {
    bits := base;
    var bitIdx := 0;
    for k := 0 to |rule|
      invariant bitIdx == Width(rule[..k])
      invariant bits == Write(base, rule, k, serverId)
    {
      assert rule[..k + 1][..k] == rule[..k];
      var r := rule[k];
      var fieldVal := Low(Shr(serverId, bitIdx), r.Len()) + r.offset;
      ghost var before := bits;
      for i := 0 to r.Len()
        invariant bits == WriteBits(before, r.start, i, fieldVal)
      {
        bits := bits[Pos(r.start + i) := Bit(fieldVal, i)];
      }
      bitIdx := bitIdx + r.Len();
    }
    WrittenHolds(base, rule, serverId);
  }

  /** OverwriteEid under a given rule. The total width is used as a shift count of a 32-bit number. */
  method OverwriteEid(rule: seq<Range>, serverIdx: nat, baseEid: string) returns (ok: bool, result: string)
    requires forall k :: 0 <= k < |rule| ==> rule[k].offset < 256
    requires ValidRule(rule) ==> Width(rule) < 32
    ensures ok <==> ValidRule(rule) && Parse(baseEid).Some?
    ensures ok ==> result == Print(Overwrite(Parse(baseEid).value, rule, serverIdx))
    ensures ok ==> Canonical(result) && Parse(result).Some?
    ensures ok && DisjointRule(rule) ==> HoldsIndex(Parse(result).value, rule, serverIdx)
    ensures ok ==> SameOutside(Parse(baseEid).value, Parse(result).value, rule)
  {
    var valid, serverIdxLen := CheckRule(rule);
    if !valid {
      return false, "";
    }
    var parsed := ParseBaseEid(baseEid);
    if parsed.None? {
      return false, "";
    }
    var bits := WriteRanges(parsed.value, rule, Low(serverIdx, serverIdxLen));
    result := ConstructEid(bits);
    ok := true;
    OverwriteTextHolds(rule, serverIdx, baseEid);
  }

  /** ParseCnaFromEid */
  method ParseCnaFromEid(e: string) returns (ok: bool, cna: string)
    ensures ok <==> Parse(e).Some?
    ensures ok ==> cna == Print(CnaOnly(Parse(e).value))
  {
    cna := "";
    var parsed := ParseBaseEid(e);
    if parsed.None? {
      return false, cna;
    }
    var cnaBits: Bits := NO_BITS;
    for i := 0 to CNA_BIT_LEN
      invariant forall p :: 0 <= p < EidFields.EID_BITS ==>
        cnaBits[p] == (CNA_BIT_OFFSET <= p < CNA_BIT_OFFSET + i && parsed.value[p])
    {
      cnaBits := cnaBits[CNA_BIT_OFFSET + i := parsed.value[CNA_BIT_OFFSET + i]];
    }
    assert cnaBits == CnaOnly(parsed.value);
    cna := ConstructEid(cnaBits);
    ok := true;
  }

  // ---- The operations as functions on texts ----

  /** The text after an overwrite holds the index, and differs in the ranges only. */
  lemma OverwriteTextHolds(rule: seq<Range>, idx: nat, e: string)
    requires ValidRule(rule) && Parse(e).Some?
    ensures
      var t := OverwriteText(rule, idx, e);
      && Canonical(t) && Parse(t).Some?
      && (DisjointRule(rule) ==> HoldsIndex(Parse(t).value, rule, idx))
      && SameOutside(Parse(e).value, Parse(t).value, rule)
  {
    var bits := Parse(e).value;
    ParseAfterPrint(Overwrite(bits, rule, idx));
    OverwriteKeepsRest(bits, rule, idx);
    if DisjointRule(rule) {
      OverwriteHolds(bits, rule, idx);
    }
  }

  ghost function OverwriteText(rule: seq<Range>, idx: nat, e: string): string
    requires ValidRule(rule) && Parse(e).Some?
  {
    Print(Overwrite(Parse(e).value, rule, idx))
  }

  ghost function CnaText(e: string): string
    requires Parse(e).Some?
  {
    Print(CnaOnly(Parse(e).value))
  }

  /** An overwrite absorbs an earlier overwrite, commutes with extracting the CNA,
      and under a disjoint rule gives different texts for different indices
      below two to the power of the width. */
  lemma OverwriteLaws(rule: seq<Range>, x: nat, y: nat, e: string)
    requires ValidRule(rule) && Parse(e).Some?
    ensures
      var t := OverwriteText(rule, x, e);
      Canonical(t) && Parse(t).Some? && OverwriteText(rule, y, t) == OverwriteText(rule, y, e)
    ensures Parse(CnaText(e)).Some? && CnaText(OverwriteText(rule, x, e)) == OverwriteText(rule, x, CnaText(e))
    ensures DisjointRule(rule) ==>
      (OverwriteText(rule, x, e) == OverwriteText(rule, y, e) <==> Low(x, Width(rule)) == Low(y, Width(rule)))
    ensures
      (DisjointRule(rule) && x < Pow2(Width(rule)) && y < Pow2(Width(rule)) &&
       OverwriteText(rule, x, e) == OverwriteText(rule, y, e)) ==> x == y
  {
    var bits := Parse(e).value;
    ParseAfterPrint(Overwrite(bits, rule, x));
    ParseAfterPrint(Overwrite(bits, rule, y));
    ParseAfterPrint(CnaOnly(bits));
    OverwriteAbsorbs(bits, rule, x, y);
    OverwriteCommutesWithCna(bits, rule, x);
    if DisjointRule(rule) {
      OverwriteInjective(bits, rule, x, y);
    }
  }

  /** The rule in force until another one is configured. */
  const DEFAULT_RULE: seq<Range> := [Range(7, 15, 0), Range(20, 23, 1)]

  lemma DefaultRuleFits()
    ensures ValidRule(DEFAULT_RULE) && DisjointRule(DEFAULT_RULE) && Width(DEFAULT_RULE) == 13
  {
    assert DEFAULT_RULE[..1] == [Range(7, 15, 0)];
    assert Width([]) == 0 && DEFAULT_RULE[..1][..0] == [];
  }

  lemma SameText(rule: seq<Range>, x: nat, y: nat, e: string)
    requires ValidRule(rule) && DisjointRule(rule) && Parse(e).Some?
    ensures OverwriteText(rule, x, e) == OverwriteText(rule, y, e) <==> Low(x, Width(rule)) == Low(y, Width(rule))
  {
    OverwriteLaws(rule, x, y, e);
  }

  lemma SameLowSameText(rule: seq<Range>, x: nat, y: nat, e: string)
    requires ValidRule(rule) && Parse(e).Some? && Low(x, Width(rule)) == Low(y, Width(rule))
    ensures OverwriteText(rule, x, e) == OverwriteText(rule, y, e)
  {
  }

  /** A disjoint rule of width w tells two to the power of w servers apart, and no more. */
  lemma RuleSeparates(rule: seq<Range>, x: nat, y: nat, e: string)
    requires ValidRule(rule) && DisjointRule(rule) && Parse(e).Some?
    requires x < Pow2(Width(rule)) && y < Pow2(Width(rule))
    ensures OverwriteText(rule, x, e) == OverwriteText(rule, y, e) <==> x == y
    ensures OverwriteText(rule, x + Pow2(Width(rule)), e) == OverwriteText(rule, x, e)
  {
    SameText(rule, x, y, e);
    LowOfSmall(x, Width(rule));
    LowOfSmall(y, Width(rule));
    LowOfSum(x, Width(rule));
    SameLowSameText(rule, x + Pow2(Width(rule)), x, e);
  }

  lemma Pow13()
    ensures Pow2(13) == 8192
  {
    assert Pow2(4) == 16 && Pow2(8) == 256 && Pow2(12) == 4096;
  }

  /** The built-in rule tells 8192 servers apart. */
  lemma DefaultRuleSeparates(x: nat, y: nat, e: string)
    requires Parse(e).Some? && x < 8192 && y < 8192
    ensures ValidRule(DEFAULT_RULE)
    ensures OverwriteText(DEFAULT_RULE, x, e) == OverwriteText(DEFAULT_RULE, y, e) <==> x == y
    ensures OverwriteText(DEFAULT_RULE, x + 8192, e) == OverwriteText(DEFAULT_RULE, x, e)
  {
    DefaultRuleFits();
    Pow13();
    RuleSeparates(DEFAULT_RULE, x, y, e);
  }

  // ---- The built-in rule, digit by digit ----

  /** The character c is the hexadecimal digit d. */
  ghost predicate IsDigit(c: char, d: int) {
    c as int == if d < 10 then 48 + d else 87 + d
  }

  ghost function B(b: bool): nat {
    if b then 1 else 0
  }

  ghost function Nibble(bits: Bits, at: nat): (d: nat)
    requires at + 4 <= 128
    ensures d < 16
  {
    8 * B(bits[at]) + 4 * B(bits[at + 1]) + 2 * B(bits[at + 2]) + B(bits[at + 3])
  }

  lemma NibbleIsDigit(t: string, g: nat, k: nat)
    requires Canonical(t) && g < 8 && k < 4
    ensures Parse(t).Some? && 16 * g + 4 * k + 4 <= 128 && IsDigit(t[5 * g + k], Nibble(Parse(t).value, 16 * g + 4 * k))
  {
    TextDigits(t, g, k);
  }

  lemma FourBits(bits: Bits, start: nat)
    requires start + 4 <= 24
    ensures NumberAt(bits, start, 4) == Nibble(bits, 116 - start)
  {
    assert Pow2(1) == 2 && Pow2(2) == 4 && Pow2(3) == 8;
    assert NumberAt(bits, start, 1) == B(bits[119 - start]);
    assert NumberAt(bits, start, 2) == NumberAt(bits, start, 1) + 2 * B(bits[118 - start]);
    assert NumberAt(bits, start, 3) == NumberAt(bits, start, 2) + 4 * B(bits[117 - start]);
  }

  lemma NineBits(bits: Bits, start: nat)
    requires start + 9 <= 24
    ensures NumberAt(bits, start, 9)
         == 32 * Nibble(bits, 111 - start) + 2 * Nibble(bits, 115 - start) + B(bits[119 - start])
  {
    FourBits(bits, start);
    assert Pow2(4) == 16 && Pow2(5) == 32 && Pow2(6) == 64 && Pow2(7) == 128 && Pow2(8) == 256;
    assert NumberAt(bits, start, 5) == NumberAt(bits, start, 4) + 16 * B(bits[115 - start]);
    assert NumberAt(bits, start, 6) == NumberAt(bits, start, 5) + 32 * B(bits[114 - start]);
    assert NumberAt(bits, start, 7) == NumberAt(bits, start, 6) + 64 * B(bits[113 - start]);
    assert NumberAt(bits, start, 8) == NumberAt(bits, start, 7) + 128 * B(bits[112 - start]);
  }

  lemma DefaultRuleWidths()
    ensures ValidRule(DEFAULT_RULE) && DEFAULT_RULE[0] == Range(7, 15, 0) && DEFAULT_RULE[1] == Range(20, 23, 1)
    ensures Pow2(Width(DEFAULT_RULE)) == 8192 && Pow2(Width(DEFAULT_RULE[..0])) == 1 && Pow2(Width(DEFAULT_RULE[..1])) == 512
    ensures Pow2(9) == 512 && Pow2(4) == 16
  {
    DefaultRuleFits();
    Pow13();
    assert DEFAULT_RULE[..0] == [] && DEFAULT_RULE[..1] == [Range(7, 15, 0)] && [Range(7, 15, 0)][..0] == [];
    assert Width(DEFAULT_RULE[..0]) == 0 && Width(DEFAULT_RULE[..1]) == 9;
    assert Pow2(0) == 1 && Pow2(4) == 16 && Pow2(8) == 256 && Pow2(9) == 512;
  }

  lemma DefaultRuleNumbers(bits: Bits, idx: nat)
    requires ValidRule(DEFAULT_RULE) && HoldsIndex(bits, DEFAULT_RULE, idx)
    ensures NumberAt(bits, 7, 9) == (idx % 8192 / 1 + 0) % 512 && NumberAt(bits, 20, 4) == (idx % 8192 / 512 + 1) % 16
  {
    DefaultRuleWidths();
  }

  lemma UpperDigit(idx: nat, m: nat)
    requires m == (idx % 8192 / 512 + 1) % 16
    ensures m == (idx / 512 + 1) % 16
  {
    var q, r := idx / 512, idx % 512;
    DivModUnique(idx, 8192, q / 16, 512 * (q % 16) + r);
    DivModUnique(512 * (q % 16) + r, 512, q % 16, r);
  }

  lemma LowNine(idx: nat, n: nat)
    requires n == (idx % 8192 / 1 + 0) % 512
    ensures idx == 512 * (idx / 512) + n
  {
    var q := idx / 512;
    DivModUnique(idx, 8192, q / 16, 512 * (q % 16) + idx % 512);
    DivModUnique(512 * (q % 16) + idx % 512, 512, q % 16, idx % 512);
  }

  lemma LowerDigits(idx: nat, q: nat, a: nat, b: nat, c: nat)
    requires idx == 512 * q + 32 * a + 2 * b + c && a < 16 && b < 16 && c < 2
    ensures a == idx / 32 % 16 && b == idx / 2 % 16 && c == idx % 2
  {
    DivModUnique(idx, 32, 16 * q + a, 2 * b + c);
    DivModUnique(16 * q + a, 16, q, a);
    DivModUnique(idx, 2, 256 * q + 16 * a + b, c);
    DivModUnique(256 * q + 16 * a + b, 16, 16 * q + a, b);
  }

  lemma HeldIsDigits(bits: Bits, idx: nat)
    requires ValidRule(DEFAULT_RULE) && HoldsIndex(bits, DEFAULT_RULE, idx)
    ensures Nibble(bits, 96) == (idx / 512 + 1) % 16
    ensures Nibble(bits, 104) == idx / 32 % 16 && Nibble(bits, 108) == idx / 2 % 16 && B(bits[112]) == idx % 2
  {
    DefaultRuleNumbers(bits, idx);
    FourBits(bits, 20);
    NineBits(bits, 7);
    UpperDigit(idx, Nibble(bits, 96));
    LowNine(idx, NumberAt(bits, 7, 9));
    LowerDigits(idx, idx / 512, Nibble(bits, 104), Nibble(bits, 108), B(bits[112]));
  }

  lemma SameDigit(s: string, t: string, g: nat, k: nat)
    requires Canonical(s) && Canonical(t) && g < 8 && k < 4 && Parse(s).Some? && Parse(t).Some?
    requires forall p :: 16 * g + 4 * k <= p < 16 * g + 4 * k + 4 ==> Parse(s).value[p] == Parse(t).value[p]
    ensures s[5 * g + k] == t[5 * g + k]
  {
    TextDigits(s, g, k);
    TextDigits(t, g, k);
  }

  lemma OutsideDefaultRule(bits: Bits, bits': Bits, p: nat)
    requires SameOutside(bits, bits', DEFAULT_RULE) && p < 128 && !(96 <= p < 100 || 104 <= p <= 112)
    ensures bits'[p] == bits[p]
  {
    DefaultRuleWidths();
  }

  lemma OtherDigitsStay(idx: nat, e: string, g: nat, k: nat)
    requires Canonical(e) && Parse(e).Some? && ValidRule(DEFAULT_RULE) && g < 8 && k < 4
    requires !(g == 6 && (k == 0 || k == 2 || k == 3)) && !(g == 7 && k == 0)
    ensures Canonical(OverwriteText(DEFAULT_RULE, idx, e))
    ensures OverwriteText(DEFAULT_RULE, idx, e)[5 * g + k] == e[5 * g + k]
  {
    var t := OverwriteText(DEFAULT_RULE, idx, e);
    OverwriteTextHolds(DEFAULT_RULE, idx, e);
    forall p | 16 * g + 4 * k <= p < 16 * g + 4 * k + 4
      ensures Parse(t).value[p] == Parse(e).value[p]
    {
      OutsideDefaultRule(Parse(e).value, Parse(t).value, p);
    }
    SameDigit(t, e, g, k);
  }

  lemma ValueOfDigit(c: char, m: nat, d: nat)
    requires IsDigit(c, m) && IsDigit(c, d) && m < 16 && d < 16
    ensures m == d
  {
  }

  lemma NibbleMod8(bits: Bits, at: nat)
    requires at + 4 <= 128
    ensures Nibble(bits, at) == 8 * B(bits[at]) + Nibble(bits, at) % 8
    ensures Nibble(bits, at) % 8 == 4 * B(bits[at + 1]) + 2 * B(bits[at + 2]) + B(bits[at + 3])
  {
  }

  /** The built-in rule seen in the text of a canonical EID: the upper four bits of
      the index, one added, are the first digit of the seventh group, the lower nine
      its last two digits and the top bit of the digit behind, which is d in the base. */
  lemma DefaultRuleDigits(idx: nat, e: string, d: nat)
    requires Canonical(e) && d < 16 && IsDigit(e[35], d)
    ensures Parse(e).Some? && ValidRule(DEFAULT_RULE)
    ensures Canonical(OverwriteText(DEFAULT_RULE, idx, e))
    ensures ShowsIndex(OverwriteText(DEFAULT_RULE, idx, e), idx)
    ensures IsDigit(OverwriteText(DEFAULT_RULE, idx, e)[35], 8 * (idx % 2) + d % 8)
  {
    PrintAfterParse(e);
    DefaultRuleFits();
    IndexDigits(idx, e);
    LastDigit(idx, e, d);
  }

  /** The text holds the index where the built-in rule puts it. */
  ghost predicate ShowsIndex(t: string, idx: nat)
    requires |t| == 39
  {
    IsDigit(t[30], (idx / 512 + 1) % 16) && IsDigit(t[32], idx / 32 % 16) && IsDigit(t[33], idx / 2 % 16)
  }

  /** The characters at 30, 32, 33 and 35 stand for these bits. */
  ghost predicate ShowsBits(t: string, bits: Bits)
    requires |t| == 39
  {
    && IsDigit(t[30], Nibble(bits, 96)) && IsDigit(t[32], Nibble(bits, 104))
    && IsDigit(t[33], Nibble(bits, 108)) && IsDigit(t[35], Nibble(bits, 112))
  }

  lemma TextShowsBits(t: string)
    requires Canonical(t)
    ensures Parse(t).Some? && ShowsBits(t, Parse(t).value)
  {
    DigitAt(t, 6, 0, 30, 96);
    DigitAt(t, 6, 2, 32, 104);
    DigitAt(t, 6, 3, 33, 108);
    DigitAt(t, 7, 0, 35, 112);
  }

  lemma DigitAt(t: string, g: nat, k: nat, i: nat, at: nat)
    requires Canonical(t) && g < 8 && k < 4 && i == 5 * g + k && at == 16 * g + 4 * k
    ensures Parse(t).Some? && i < 39 && at <= 124 && IsDigit(t[i], Nibble(Parse(t).value, at))
  {
    NibbleIsDigit(t, g, k);
  }

  lemma HeldIsShown(t: string, bits: Bits, idx: nat)
    requires |t| == 39 && ShowsBits(t, bits)
    requires ValidRule(DEFAULT_RULE) && HoldsIndex(bits, DEFAULT_RULE, idx)
    ensures ShowsIndex(t, idx)
  {
    HeldIsDigits(bits, idx);
  }

  lemma IndexDigits(idx: nat, e: string)
    requires Canonical(e) && Parse(e).Some? && ValidRule(DEFAULT_RULE)
    ensures Canonical(OverwriteText(DEFAULT_RULE, idx, e))
    ensures ShowsIndex(OverwriteText(DEFAULT_RULE, idx, e), idx)
  {
    DefaultRuleFits();
    var t := OverwriteText(DEFAULT_RULE, idx, e);
    OverwriteTextHolds(DEFAULT_RULE, idx, e);
    TextShowsBits(t);
    HeldIsShown(t, Parse(t).value, idx);
  }

  lemma LastDigit(idx: nat, e: string, d: nat)
    requires Canonical(e) && d < 16 && IsDigit(e[35], d) && Parse(e).Some? && ValidRule(DEFAULT_RULE)
    ensures Canonical(OverwriteText(DEFAULT_RULE, idx, e))
    ensures IsDigit(OverwriteText(DEFAULT_RULE, idx, e)[35], 8 * (idx % 2) + d % 8)
  {
    DefaultRuleFits();
    var t := OverwriteText(DEFAULT_RULE, idx, e);
    OverwriteTextHolds(DEFAULT_RULE, idx, e);
    TextShowsBits(e);
    ValueOfDigit(e[35], Nibble(Parse(e).value, 112), d);
    LastNibble(Parse(e).value, Parse(t).value, idx);
    TextShowsBits(t);
  }

  lemma LastNibble(bits: Bits, bits': Bits, idx: nat)
    requires ValidRule(DEFAULT_RULE) && HoldsIndex(bits', DEFAULT_RULE, idx) && SameOutside(bits, bits', DEFAULT_RULE)
    ensures Nibble(bits', 112) == 8 * (idx % 2) + Nibble(bits, 112) % 8
  {
    HeldIsDigits(bits', idx);
    NibbleMod8(bits, 112);
    NibbleMod8(bits', 112);
    OutsideDefaultRule(bits, bits', 113);
    OutsideDefaultRule(bits, bits', 114);
    OutsideDefaultRule(bits, bits', 115);
  }

  /** For example, index 0 put into an EID of zeros gives a one at the first of these
      places and zeros at the others. */
  lemma ZeroIndexZeroBase(idx: nat, e: string)
    requires idx == 0 && Canonical(e) && e[35] == '0'
    ensures Parse(e).Some? && ValidRule(DEFAULT_RULE) && Canonical(OverwriteText(DEFAULT_RULE, idx, e))
    ensures
      var t := OverwriteText(DEFAULT_RULE, idx, e);
      t[30] == '1' && t[32] == t[33] == t[35] == '0'
  {
    DefaultRuleDigits(idx, e, 0);
    ZeroCharacters(idx, OverwriteText(DEFAULT_RULE, idx, e));
  }

  lemma ZeroCharacters(idx: nat, t: string)
    requires idx == 0 && |t| == 39 && ShowsIndex(t, idx) && IsDigit(t[35], 8 * (idx % 2) + 0 % 8)
    ensures t[30] == '1' && t[32] == t[33] == t[35] == '0'
  {
  }

  /** The CNA of a canonical EID in text: the digits of the seventh group and the first
      two of the eighth; all other digits are 0. */
  lemma CnaDigits(e: string, g: nat, k: nat)
    requires Canonical(e) && Parse(e).Some? && g < 8 && k < 4
    ensures Canonical(CnaText(e))
    ensures CnaText(e)[5 * g + k] == if g == 6 || (g == 7 && k < 2) then e[5 * g + k] else '0'
  {
    var t := CnaText(e);
    ParseAfterPrint(CnaOnly(Parse(e).value));
    if g == 6 || (g == 7 && k < 2) {
      SameDigit(t, e, g, k);
    } else {
      TextDigits(t, g, k);
    }
  }

  /** The text is an EID as it would be printed, and overwriting the index changes no bit of it. */
  ghost predicate Verified(rule: seq<Range>, serverIdx: nat, e: string) {
    && ValidRule(rule) && Canonical(e) && Parse(e).Some?
    && Overwrite(Parse(e).value, rule, serverIdx) == Parse(e).value
  }

  /** The text is an EID as it would be printed, and its ranges, read as numbers, hold the index. */
  ghost predicate Bears(rule: seq<Range>, serverIdx: nat, e: string)
    requires ValidRule(rule)
  {
    Canonical(e) && Parse(e).Some? && HoldsIndex(Parse(e).value, rule, serverIdx)
  }

  /** Overwriting a text with the index gives the same text exactly when it is
      verified; under a disjoint rule that means every range holds its bits. */
  lemma FixedTextIsVerified(rule: seq<Range>, serverIdx: nat, e: string)
    requires ValidRule(rule)
    ensures Parse(e).Some? && OverwriteText(rule, serverIdx, e) == e <==> Verified(rule, serverIdx, e)
    ensures DisjointRule(rule) ==>
      (Verified(rule, serverIdx, e)
       <==> Canonical(e) && Parse(e).Some? && Carries(Parse(e).value, rule, serverIdx))
    ensures DisjointRule(rule) ==> (Verified(rule, serverIdx, e) <==> Bears(rule, serverIdx, e))
  {
    PrintAfterParse(e);
    if Parse(e).Some? {
      var bits := Parse(e).value;
      ParseAfterPrint(Overwrite(bits, rule, serverIdx));
      ParseAfterPrint(bits);
      if DisjointRule(rule) {
        FixedWhenCarried(bits, rule, serverIdx);
        CarriesNumbers(bits, rule, serverIdx);
      }
    }
  }

  lemma VerifiedBears(rule: seq<Range>, serverIdx: nat)
    ensures ValidRule(rule) && DisjointRule(rule) ==>
      forall e :: Verified(rule, serverIdx, e) <==> Bears(rule, serverIdx, e)
  {
    if ValidRule(rule) && DisjointRule(rule) {
      forall e
        ensures Verified(rule, serverIdx, e) <==> Bears(rule, serverIdx, e)
      {
        FixedTextIsVerified(rule, serverIdx, e);
      }
    }
  }

  datatype EidGroup = EidGroup(primaryEid: string, portEids: seq<(string, string)>)

  method VerifyOne(rule: seq<Range>, serverIdx: nat, e: string) returns (ok: bool)
    requires forall k :: 0 <= k < |rule| ==> rule[k].offset < 256
    requires ValidRule(rule) ==> Width(rule) < 32
    ensures ok <==> Verified(rule, serverIdx, e)
  {
    if ValidRule(rule) {
      FixedTextIsVerified(rule, serverIdx, e);
    }
    var done, valid := OverwriteEid(rule, serverIdx, e);
    ok := done && valid == e;
  }

  method VerifyPorts(rule: seq<Range>, serverIdx: nat, ports: seq<(string, string)>) returns (ok: bool)
    requires forall k :: 0 <= k < |rule| ==> rule[k].offset < 256
    requires ValidRule(rule) ==> Width(rule) < 32
    ensures ok <==> forall p :: p in ports ==> Verified(rule, serverIdx, p.1)
  {
    for i := 0 to |ports|
      invariant forall j :: 0 <= j < i ==> Verified(rule, serverIdx, ports[j].1)
    {
      var port := ports[i];
      ok := VerifyOne(rule, serverIdx, port.1);
      if !ok {
        assert port in ports;
        return;
      }
    }
    ok := true;
  }

  /** VerifyEids: a group passes exactly when all its EIDs are canonical and
      already carry the server index. */
  method VerifyEids(rule: seq<Range>, serverIdx: nat, group: EidGroup) returns (ok: bool)
    requires forall k :: 0 <= k < |rule| ==> rule[k].offset < 256
    requires ValidRule(rule) ==> Width(rule) < 32
    ensures ok <==>
      && Verified(rule, serverIdx, group.primaryEid)
      && forall p :: p in group.portEids ==> Verified(rule, serverIdx, p.1)
    ensures ValidRule(rule) && DisjointRule(rule) ==>
      (ok <==> Bears(rule, serverIdx, group.primaryEid)
               && forall p :: p in group.portEids ==> Bears(rule, serverIdx, p.1))
  {
    ok := VerifyOne(rule, serverIdx, group.primaryEid);
    if ok {
      ok := VerifyPorts(rule, serverIdx, group.portEids);
    }
    VerifiedBears(rule, serverIdx);
  }
}

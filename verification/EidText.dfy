/**
 EIDs as text: eight groups of four lower-case hexadecimal digits separated by
 colons. Parsing is as liberal as getline and stoul are, printing is canonical.
 */
module EidText {
  import opened Options

  const U64 := 0x1_0000_0000_0000_0000
  const U16 := 0x1_0000
  const GROUP_BITS := 16
  const EID_BITS := 128

  // ---- Characters ----

  predicate IsSpace(c: char) {
    c == ' ' || '\t' <= c <= '\r'
  }

  predicate IsHex(c: char) {
    '0' <= c <= '9' || 'a' <= c <= 'f' || 'A' <= c <= 'F'
  }

  predicate IsLowerHex(c: char) {
    '0' <= c <= '9' || 'a' <= c <= 'f'
  }

  function Digit(c: char): (d: nat)
    requires IsHex(c)
    ensures d < 16
  {
    if '0' <= c <= '9' then c as int - '0' as int
    else if 'a' <= c <= 'f' then c as int - 'a' as int + 10
    else c as int - 'A' as int + 10
  }

  function HexChar(d: nat): (c: char)
    requires d < 16
    ensures IsLowerHex(c) && Digit(c) == d
  {
    if d < 10 then '0' + d as char else 'a' + (d - 10) as char
  }

  // ---- Parsing ----

  function SkipSpaces(s: string): string {
    if s != "" && IsSpace(s[0]) then SkipSpaces(s[1..]) else s
  }

  /** The longest prefix of hexadecimal digits. */
  function HexPrefix(s: string): (h: string)
    ensures forall i :: 0 <= i < |h| ==> IsHex(h[i])
  {
    if s != "" && IsHex(s[0]) then [s[0]] + HexPrefix(s[1..]) else ""
  }

  function HexValue(h: string): nat
    requires forall i :: 0 <= i < |h| ==> IsHex(h[i])
  {
    if h == "" then 0 else 16 * HexValue(h[..|h| - 1]) + Digit(h[|h| - 1])
  }

  /** The digits a number starts with, behind an optional 0x. */
  function Digits(u: string): (h: string)
    ensures forall i :: 0 <= i < |h| ==> IsHex(h[i])
  {
    if |u| >= 3 && u[0] == '0' && (u[1] == 'x' || u[1] == 'X') && IsHex(u[2]) then HexPrefix(u[2..]) else HexPrefix(u)
  }

  function Magnitude(u: string): Option<nat> {
    var h := Digits(u);
    if h == "" || HexValue(h) >= U64 then None else Some(HexValue(h))
  }

  function Negated(v: Option<nat>): Option<nat>
    requires v.Some? ==> v.value < U64
  {
    if v.None? then None else Some((U64 - v.value) % U64)
  }

  /** stoul in base 16: leading spaces, a sign and a 0x prefix are taken, trailing
      characters ignored; a negative number wraps around. */
  function Stoul(s: string): Option<nat> {
    var t := SkipSpaces(s);
    if t != "" && t[0] == '-' then Negated(Magnitude(t[1..]))
    else if t != "" && t[0] == '+' then Magnitude(t[1..])
    else Magnitude(t)
  }

  /** ConvertStrToUint16 */
  function ToUint16(s: string): Option<nat> {
    var v := Stoul(s);
    if v.Some? && v.value < U16 then v else None
  }

  /** getline with ':': a colon at the very end starts no further segment. */
  function Segments(s: string): seq<string>
    decreases |s|
  {
    if s == "" then [] else
      var i := ColonAt(s);
      if i == |s| then [s] else [s[..i]] + Segments(s[i + 1..])
  }

  function ColonAt(s: string): (i: nat)
    ensures i <= |s| && (i < |s| ==> s[i] == ':') && forall k :: 0 <= k < i ==> s[k] != ':'
  {
    if s == "" || s[0] == ':' then 0 else 1 + ColonAt(s[1..])
  }

  /** The n lowest bits of v, highest first. */
  function BitsOf(v: nat, n: nat): (bits: seq<bool>)
    ensures |bits| == n
  {
    if n == 0 then [] else BitsOf(v / 2, n - 1) + [v % 2 == 1]
  }

  function ValueOf(bits: seq<bool>): nat {
    if bits == [] then 0 else 2 * ValueOf(bits[..|bits| - 1]) + if bits[|bits| - 1] then 1 else 0
  }

  /** The bits of the segments, if all of them convert. */
  function SegmentBits(segments: seq<string>): Option<seq<bool>> {
    if segments == [] then Some([])
    else
      var v, rest := ToUint16(segments[0]), SegmentBits(segments[1..]);
      if v.None? || rest.None? then None else Some(BitsOf(v.value, GROUP_BITS) + rest.value)
  }

  function Parse(e: string): (bits: Option<seq<bool>>)
    ensures bits.Some? ==> |bits.value| == EID_BITS
  {
    var b := SegmentBits(Segments(e));
    if b.Some? && |b.value| == EID_BITS then b else None
  }

  // ---- Printing ----

  /** The n lowest hexadecimal digits of v, as %04x prints them for n = 4. */
  function HexOf(v: nat, n: nat): (h: string)
    ensures |h| == n && forall i :: 0 <= i < n ==> IsLowerHex(h[i])
  {
    if n == 0 then "" else HexOf(v / 16, n - 1) + [HexChar(v % 16)]
  }

  /** ConstructEid: 16 bits a group, the last one possibly shorter. */
  function Print(bits: seq<bool>): string
    decreases |bits|
  {
    if bits == [] then ""
    else if |bits| <= GROUP_BITS then HexOf(ValueOf(bits), 4)
    else HexOf(ValueOf(bits[..GROUP_BITS]), 4) + ":" + Print(bits[GROUP_BITS..])
  }

  /** n groups of four lower-case digits. */
  predicate CanonicalGroups(e: string, n: nat) {
    && |e| + 1 == 5 * n
    && forall i :: 0 <= i < |e| ==> if i % 5 == 4 then e[i] == ':' else IsLowerHex(e[i])
  }

  predicate Canonical(e: string) {
    CanonicalGroups(e, 8)
  }

  // ---- Numbers and their digits ----

  lemma {:induction false} ValueOfBits(bits: seq<bool>)
    ensures BitsOf(ValueOf(bits), |bits|) == bits
  {
    if bits != [] {
      ValueOfBits(bits[..|bits| - 1]);
    }
  }

  ghost function Power(b: nat, n: nat): nat {
    if n == 0 then 1 else b * Power(b, n - 1)
  }

  lemma {:induction false} ValueBound(bits: seq<bool>)
    ensures ValueOf(bits) < Power(2, |bits|)
  {
    if bits != [] {
      ValueBound(bits[..|bits| - 1]);
    }
  }

  lemma {:induction false} BitsOfValue(v: nat, n: nat)
    requires v < Power(2, n)
    ensures ValueOf(BitsOf(v, n)) == v
  {
    if n > 0 {
      BitsOfValue(v / 2, n - 1);
      assert BitsOf(v, n)[..n - 1] == BitsOf(v / 2, n - 1);
    }
  }

  lemma {:induction false} HexOfValue(v: nat, n: nat)
    requires v < Power(16, n)
    ensures HexValue(HexOf(v, n)) == v
  {
    if n > 0 {
      HexOfValue(v / 16, n - 1);
      assert HexOf(v, n)[..n - 1] == HexOf(v / 16, n - 1);
    }
  }

  lemma {:induction false} ValueOfHex(h: string)
    requires forall i :: 0 <= i < |h| ==> IsLowerHex(h[i]) && IsHex(h[i])
    ensures HexOf(HexValue(h), |h|) == h && HexValue(h) < Power(16, |h|)
  {
    if h != "" {
      var before, c := h[..|h| - 1], h[|h| - 1];
      ValueOfHex(before);
      assert HexChar(Digit(c)) == c;
      assert HexValue(h) / 16 == HexValue(before) && HexValue(h) % 16 == Digit(c);
      assert h == before + [c];
    }
  }

  lemma Powers()
    ensures Power(2, 16) == U16 == Power(16, 4)
  {
    assert Power(2, 4) == 16;
    assert Power(2, 8) == 256;
    assert Power(2, 12) == 4096;
    assert Power(16, 2) == 256;
  }

  lemma {:induction false} AllHex(h: string)
    requires forall i :: 0 <= i < |h| ==> IsHex(h[i])
    ensures HexPrefix(h) == h
  {
    if h != "" {
      AllHex(h[1..]);
      assert h == [h[0]] + h[1..];
    }
  }

  lemma {:induction false} HexStops(h: string, tail: string)
    requires forall i :: 0 <= i < |h| ==> IsHex(h[i])
    requires tail != "" ==> !IsHex(tail[0])
    ensures HexPrefix(h + tail) == h
  {
    if h == "" {
      assert h + tail == tail;
    } else {
      HexStops(h[1..], tail);
      assert (h + tail)[1..] == h[1..] + tail;
    }
  }

  /** The digits h followed by something that does not continue them. */
  ghost predicate Number(h: string, tail: string) {
    && h != "" && (forall i :: 0 <= i < |h| ==> IsHex(h[i]))
    && (tail != "" ==> !IsHex(tail[0]))
    && !(h == "0" && |tail| >= 2 && (tail[0] == 'x' || tail[0] == 'X') && IsHex(tail[1]))
  }

  function InRange64(v: nat): Option<nat> {
    if v < U64 then Some(v) else None
  }

  lemma MagnitudeOf(h: string, tail: string)
    requires Number(h, tail)
    ensures Magnitude(h + tail) == Magnitude("0x" + (h + tail)) == InRange64(HexValue(h))
    ensures IsHex((h + tail)[0])
  {
    var u := h + tail;
    HexStops(h, tail);
    assert u[0] == h[0];
    if |h| >= 2 {
      assert u[1] == h[1] && IsHex(h[1]);
    }
    assert Digits(u) == h;
    assert ("0x" + u)[2..] == u && ("0x" + u)[2] == u[0];
    assert Digits("0x" + u) == h;
  }

  lemma NoSpaces(c: char, u: string)
    requires !IsSpace(c)
    ensures SkipSpaces([c] + u) == [c] + u && SkipSpaces(" " + ([c] + u)) == [c] + u
  {
    assert (" " + ([c] + u))[1..] == [c] + u;
  }

  /** The text stands for v, also behind a space or a plus sign, and converts if v
      fits 16 bits. Behind a minus sign it stands for v taken from 2^64, so that
      exactly zero and the 65535 magnitudes closest to 2^64 convert. */
  ghost predicate TakenAs(u: string, v: nat) {
    && ToUint16(u) == ToUint16(" " + u) == ToUint16("+" + u) == (if v < 65536 then Some(v) else None)
    && ToUint16("-" + u)
       == if v == 0 then Some(0)
          else if 0x1_0000_0000_0000_0000 - 65536 < v < 0x1_0000_0000_0000_0000 then Some(0x1_0000_0000_0000_0000 - v)
          else None
  }

  lemma Signs(u: string, v: nat)
    requires u != "" && IsHex(u[0]) && Magnitude(u) == InRange64(v)
    ensures TakenAs(u, v)
  {
    assert u == [u[0]] + u[1..];
    NoSpaces(u[0], u[1..]);
    NoSpaces('+', u);
    NoSpaces('-', u);
    assert ("+" + u)[1..] == u && ("-" + u)[1..] == u;
    assert Stoul(u) == Stoul(" " + u) == Stoul("+" + u) == InRange64(v);
    assert Stoul("-" + u) == Negated(InRange64(v));
  }

  /** What else converts besides printed groups: digits in either case, fewer or
      more of them, a sign, a 0x prefix, and trailing characters. */
  lemma LiberalForms(h: string, tail: string)
    requires Number(h, tail)
    ensures TakenAs(h + tail, HexValue(h)) && TakenAs("0x" + (h + tail), HexValue(h))
  {
    MagnitudeOf(h, tail);
    Signs(h + tail, HexValue(h));
    Signs("0x" + (h + tail), HexValue(h));
  }

  /** Upper and lower case digits count the same. */
  lemma {:induction false} CaseDoesNotMatter(h: string, u: string)
    requires |u| == |h| && (forall i :: 0 <= i < |h| ==> IsLowerHex(h[i]) && IsHex(h[i]) && IsHex(u[i]))
    requires forall i :: 0 <= i < |h| ==>
      u[i] == h[i] || ('a' <= h[i] <= 'f' && u[i] as int == h[i] as int - 32)
    ensures HexValue(u) == HexValue(h)
  {
    if h != "" {
      CaseDoesNotMatter(h[..|h| - 1], u[..|u| - 1]);
    }
  }

  /** A space, or a character with a code from 9 to 13, is passed over in front of a
      number; a number starts with nothing else but a sign or a digit of either case. */
  lemma FirstCharacter(c: char, u: string)
    ensures c == ' ' || 9 <= c as int <= 13 ==> ToUint16([c] + u) == ToUint16(u)
    ensures
      (c != ' ' && !(9 <= c as int <= 13) && c != '+' && c != '-'
       && !('0' <= c <= '9') && !('a' <= c <= 'f') && !('A' <= c <= 'F')) ==>
        ToUint16([c] + u) == None
  {
    assert ([c] + u)[1..] == u;
    if !IsSpace(c) && c != '+' && c != '-' && !IsHex(c) {
      assert SkipSpaces([c] + u) == [c] + u;
      assert HexPrefix([c] + u) == "";
    }
  }

  /** A printed group converts back to its value. */
  lemma GroupConverts(v: nat)
    requires v < U16
    ensures ToUint16(HexOf(v, 4)) == Some(v)
  {
    var h := HexOf(v, 4);
    Powers();
    HexOfValue(v, 4);
    AllHex(h);
    assert IsLowerHex(h[0]) && IsLowerHex(h[1]);
    assert SkipSpaces(h) == h;
  }

  // ---- The round trip ----

  lemma FirstGroup(h: string, rest: string)
    requires |h| == 4 && forall i :: 0 <= i < 4 ==> IsLowerHex(h[i])
    ensures Segments(h) == [h]
    ensures Segments(h + ":" + rest) == [h] + Segments(rest)
  {
    var s := h + ":" + rest;
    assert forall i :: 0 <= i < 4 ==> s[i] == h[i] != ':';
    assert s[4] == ':';
    assert ColonAt(s) == 4 && s[..4] == h && s[5..] == rest;
    assert ColonAt(h) == 4;
  }

  lemma PrintSplit(first: seq<bool>, rest: seq<bool>)
    requires |first| == GROUP_BITS
    ensures Print(first + rest) == HexOf(ValueOf(first), 4) + if rest == [] then "" else ":" + Print(rest)
  {
    if rest == [] {
      assert first + rest == first;
    } else {
      assert (first + rest)[..GROUP_BITS] == first && (first + rest)[GROUP_BITS..] == rest;
    }
  }

  lemma GroupParses(first: seq<bool>)
    requires |first| == GROUP_BITS
    ensures
      var h := HexOf(ValueOf(first), 4);
      ToUint16(h).Some? && BitsOf(ToUint16(h).value, GROUP_BITS) == first
  {
    Powers();
    ValueBound(first);
    ValueOfBits(first);
    GroupConverts(ValueOf(first));
  }

  lemma SegmentBitsCons(h: string, segments: seq<string>)
    requires ToUint16(h).Some? && SegmentBits(segments).Some?
    ensures SegmentBits([h] + segments) == Some(BitsOf(ToUint16(h).value, GROUP_BITS) + SegmentBits(segments).value)
  {
    assert ([h] + segments)[1..] == segments;
  }

  /** Parsing what was printed from whole groups gives the bits back. */
  lemma {:induction false} PrintParses(bits: seq<bool>, n: nat)
    requires n > 0 && |bits| == GROUP_BITS * n
    ensures SegmentBits(Segments(Print(bits))) == Some(bits)
    ensures CanonicalGroups(Print(bits), n)
    decreases n
  {
    if n == 1 {
      OneGroupParses(bits);
    } else {
      PrintParses(bits[GROUP_BITS..], n - 1);
      assert bits == bits[..GROUP_BITS] + bits[GROUP_BITS..];
      GroupsParse(bits[..GROUP_BITS], bits[GROUP_BITS..], n - 1);
    }
  }

  lemma OneGroupParses(bits: seq<bool>)
    requires |bits| == GROUP_BITS
    ensures SegmentBits(Segments(Print(bits))) == Some(bits) && CanonicalGroups(Print(bits), 1)
  {
    var h := HexOf(ValueOf(bits), 4);
    GroupParses(bits);
    FirstGroup(h, "");
    assert Segments(Print(bits)) == [h] + [];
    SegmentBitsCons(h, []);
    assert bits + [] == bits;
  }

  lemma GroupsParse(first: seq<bool>, rest: seq<bool>, n: nat)
    requires |first| == GROUP_BITS && rest != []
    requires SegmentBits(Segments(Print(rest))) == Some(rest) && CanonicalGroups(Print(rest), n)
    ensures SegmentBits(Segments(Print(first + rest))) == Some(first + rest)
    ensures CanonicalGroups(Print(first + rest), n + 1)
  {
    var h := HexOf(ValueOf(first), 4);
    GroupParses(first);
    PrintSplit(first, rest);
    assert Print(first + rest) == h + ":" + Print(rest);
    FirstGroup(h, Print(rest));
    SegmentBitsCons(h, Segments(Print(rest)));
    CanonicalCons(h, Print(rest), n);
  }

  lemma CanonicalCons(h: string, e: string, n: nat)
    requires |h| == 4 && (forall i :: 0 <= i < 4 ==> IsLowerHex(h[i])) && CanonicalGroups(e, n)
    ensures CanonicalGroups(h + ":" + e, n + 1)
  {
  }

  /** The bits a canonical text stands for. */
  ghost function BitsOfText(e: string, n: nat): (bits: seq<bool>)
    requires n > 0 && CanonicalGroups(e, n)
    ensures |bits| == GROUP_BITS * n
    decreases n
  {
    CanonicalTail(e, n);
    BitsOf(HexValue(e[..4]), GROUP_BITS) + if n == 1 then [] else BitsOfText(e[5..], n - 1)
  }

  lemma CanonicalTail(e: string, n: nat)
    requires n > 0 && CanonicalGroups(e, n)
    ensures |e| >= 4 && forall i :: 0 <= i < 4 ==> IsLowerHex(e[..4][i]) && IsHex(e[..4][i])
    ensures n > 1 ==> |e| > 5 && e[4] == ':' && CanonicalGroups(e[5..], n - 1)
  {
  }

  lemma GroupIsPrinted(h: string)
    requires |h| == 4 && forall i :: 0 <= i < 4 ==> IsLowerHex(h[i]) && IsHex(h[i])
    ensures HexOf(ValueOf(BitsOf(HexValue(h), GROUP_BITS)), 4) == h
  {
    Powers();
    ValueOfHex(h);
    BitsOfValue(HexValue(h), GROUP_BITS);
  }

  lemma TextAtColon(e: string, i: nat)
    requires i < |e| && e[i] == ':'
    ensures e == e[..i] + (":" + e[i + 1..])
  {
  }

  lemma {:induction false} TextIsPrinted(e: string, n: nat)
    requires n > 0 && CanonicalGroups(e, n)
    ensures Print(BitsOfText(e, n)) == e
    decreases n
  {
    CanonicalTail(e, n);
    GroupIsPrinted(e[..4]);
    var rest := if n == 1 then [] else BitsOfText(e[5..], n - 1);
    PrintSplit(BitsOf(HexValue(e[..4]), GROUP_BITS), rest);
    if n == 1 {
      assert e == e[..4];
    } else {
      TextIsPrinted(e[5..], n - 1);
      TextAtColon(e, 4);
    }
  }

  /** Every 128-bit string survives printing and parsing. */
  lemma ParseAfterPrint(bits: seq<bool>)
    requires |bits| == EID_BITS
    ensures Parse(Print(bits)) == Some(bits) && Canonical(Print(bits))
  {
    PrintParses(bits, 8);
  }

  /** A text survives parsing and printing exactly when it is canonical. */
  lemma PrintAfterParse(e: string)
    ensures Parse(e).Some? && Print(Parse(e).value) == e <==> Canonical(e)
  {
    if Canonical(e) {
      TextIsPrinted(e, 8);
      ParseAfterPrint(BitsOfText(e, 8));
    }
    if Parse(e).Some? {
      ParseAfterPrint(Parse(e).value);
    }
  }

  // ---- Texts digit by digit ----

  /** The character of four bits, highest first: '0' to '9' and 'a' to 'f'. */
  ghost predicate DigitOf(c: char, b3: bool, b2: bool, b1: bool, b0: bool) {
    var n := (if b3 then 8 else 0) + (if b2 then 4 else 0) + (if b1 then 2 else 0) + if b0 then 1 else 0;
    c as int == if n < 10 then 48 + n else 87 + n
  }

  lemma BitsOfDigit(q: nat, d: nat, n: nat)
    requires d < 16
    ensures |BitsOf(16 * q + d, n + 4)| == n + 4 && BitsOf(16 * q + d, n + 4)[..n] == BitsOf(q, n)
    ensures
      var b := BitsOf(16 * q + d, n + 4);
      DigitOf(HexChar(d), b[n], b[n + 1], b[n + 2], b[n + 3])
  {
    var v := 16 * q + d;
    assert BitsOf(v, n + 4) == BitsOf(v / 2, n + 3) + [v % 2 == 1];
    assert BitsOf(v / 2, n + 3) == BitsOf(v / 2 / 2, n + 2) + [v / 2 % 2 == 1];
    assert BitsOf(v / 2 / 2, n + 2) == BitsOf(v / 2 / 2 / 2, n + 1) + [v / 2 / 2 % 2 == 1];
    assert BitsOf(v / 2 / 2 / 2, n + 1) == BitsOf(v / 2 / 2 / 2 / 2, n) + [v / 2 / 2 / 2 % 2 == 1];
    assert v / 2 / 2 / 2 / 2 == q;
  }

  /** Digit k of n hexadecimal digits is their bits 4k to 4k + 3. */
  lemma {:induction false} HexDigits(h: string, k: nat)
    requires k < |h| && forall i :: 0 <= i < |h| ==> IsLowerHex(h[i]) && IsHex(h[i])
    ensures
      var b := BitsOf(HexValue(h), 4 * |h|);
      DigitOf(h[k], b[4 * k], b[4 * k + 1], b[4 * k + 2], b[4 * k + 3])
  {
    var before, c := h[..|h| - 1], h[|h| - 1];
    BitsOfDigit(HexValue(before), Digit(c), 4 * |before|);
    if k < |before| {
      HexDigits(before, k);
      var b, b' := BitsOf(HexValue(before), 4 * |before|), BitsOf(HexValue(h), 4 * |h|);
      assert b'[..4 * |before|] == b;
    } else {
      assert HexChar(Digit(c)) == c;
    }
  }

  lemma BitsOfTail(e: string, n: nat, at: nat)
    requires n > 1 && CanonicalGroups(e, n) && CanonicalGroups(e[5..], n - 1) && at < 16 * (n - 1)
    ensures BitsOfText(e, n)[16 + at] == BitsOfText(e[5..], n - 1)[at]
  {
    assert BitsOfText(e, n) == BitsOf(HexValue(e[..4]), GROUP_BITS) + BitsOfText(e[5..], n - 1);
  }

  ghost predicate Stands(c: char, bits: seq<bool>, at: nat)
    requires at + 4 <= |bits|
  {
    DigitOf(c, bits[at], bits[at + 1], bits[at + 2], bits[at + 3])
  }

  lemma FirstDigits(e: string, n: nat, k: nat)
    requires n > 0 && CanonicalGroups(e, n) && k < 4 && k < |e|
    ensures Stands(e[k], BitsOfText(e, n), 4 * k)
  {
    CanonicalTail(e, n);
    HexDigits(e[..4], k);
  }

  lemma TailDigits(e: string, n: nat, c: char, at: nat)
    requires n > 1 && CanonicalGroups(e, n) && CanonicalGroups(e[5..], n - 1) && at + 4 <= 16 * (n - 1)
    requires Stands(c, BitsOfText(e[5..], n - 1), at)
    ensures Stands(c, BitsOfText(e, n), 16 + at)
  {
    BitsOfTail(e, n, at);
    BitsOfTail(e, n, at + 1);
    BitsOfTail(e, n, at + 2);
    BitsOfTail(e, n, at + 3);
  }

  lemma {:induction false} CanonicalDigits(e: string, n: nat, g: nat, k: nat)
    requires n > 0 && CanonicalGroups(e, n) && g < n && k < 4
    ensures 5 * g + k < |e| && 16 * g + 4 * k + 4 <= 16 * n
    ensures Stands(e[5 * g + k], BitsOfText(e, n), 16 * g + 4 * k)
    decreases n
  {
    if g == 0 {
      FirstDigits(e, n, k);
    } else {
      CanonicalTail(e, n);
      CanonicalDigits(e[5..], n - 1, g - 1, k);
      TailDigits(e, n, e[5 * g + k], 16 * (g - 1) + 4 * k);
    }
  }

  /** Digit k of group g of a canonical text stands for bits 16g + 4k to 16g + 4k + 3. */
  lemma TextDigits(e: string, g: nat, k: nat)
    requires Canonical(e) && g < 8 && k < 4
    ensures Parse(e).Some?
    ensures
      var b, at := Parse(e).value, 16 * g + 4 * k;
      DigitOf(e[5 * g + k], b[at], b[at + 1], b[at + 2], b[at + 3])
  {
    TextIsPrinted(e, 8);
    ParseAfterPrint(BitsOfText(e, 8));
    CanonicalDigits(e, 8, g, k);
  }

  // ---- Segments ----

  ghost function Join(segments: seq<string>): string {
    if segments == [] then ""
    else if |segments| == 1 then segments[0]
    else segments[0] + ":" + Join(segments[1..])
  }

  lemma JoinCons(h: string, segments: seq<string>)
    requires segments != []
    ensures Join([h] + segments) == h + ":" + Join(segments)
  {
    assert ([h] + segments)[1..] == segments;
  }

  /** One colon at the very end of a text is not a separator. */
  ghost function Closing(s: string): string {
    if s != "" && s[|s| - 1] == ':' then ":" else ""
  }

  lemma AppendTexts(a: string, b: string, c: string)
    ensures a + (b + c) == (a + b) + c
  {
  }

  lemma JoinStep(s: string, h: string, rest: string)
    requires s == h + ":" + rest && rest != "" && Segments(s) == [h] + Segments(rest)
    requires rest == Join(Segments(rest)) + Closing(rest)
    ensures s == Join(Segments(s)) + Closing(s)
  {
    JoinCons(h, Segments(rest));
    assert s[|s| - 1] == rest[|rest| - 1];
    AppendTexts(h + ":", Join(Segments(rest)), Closing(rest));
  }

  /** Joined by colons the segments are the text, but for a colon at its very end. */
  lemma {:induction false} SegmentsJoin(s: string)
    ensures s == Join(Segments(s)) + if s != "" && s[|s| - 1] == ':' then ":" else ""
    decreases |s|
  {
    if s != "" {
      var i := ColonAt(s);
      if i < |s| {
        var h, rest := s[..i], s[i + 1..];
        assert s == h + ":" + rest;
        assert Segments(s) == [h] + Segments(rest);
        if rest == "" {
          assert [h] + [] == [h];
        } else {
          SegmentsJoin(rest);
          JoinStep(s, h, rest);
        }
      }
    }
  }

  lemma {:induction false} SegmentsHoldNoColon(s: string)
    ensures forall i :: 0 <= i < |Segments(s)| ==> ':' !in Segments(s)[i]
    decreases |s|
  {
    if s != "" {
      var i := ColonAt(s);
      if i < |s| {
        SegmentsHoldNoColon(s[i + 1..]);
      }
    }
  }
}

/**
 The peer map of the device topology. Every link notification clears and
 refetches it, and publishes the difference as a text of DOWN and UP edges.
 */
module TopologyDelta {
  import opened Options
  import opened Sets

  type Dev = string
  type Edge = (Dev, Dev)
  type PeerMap = map<Dev, set<Dev>>

  datatype Port = Port(remoteSlotId: string, remoteChipId: string, status: string)
  datatype Node = Node(slotId: string, chipId: string, ports: seq<Port>)

  function DevName(slotId: string, chipId: string): Dev {
    slotId + "-" + chipId
  }

  ghost function Edges(m: PeerMap): set<Edge> {
    set d, p | d in m && p in m[d] :: (d, p)
  }

  /** The edges that a fetched topology reports as up. */
  ghost function UpEdges(nodes: seq<Node>): set<Edge> {
    set n, p | n in nodes && p in n.ports && p.status == "up" ::
      (DevName(n.slotId, n.chipId), DevName(p.remoteSlotId, p.remoteChipId))
  }

  datatype Change =
    | Down(dev: Dev, peer: Dev)
    | Up(dev: Dev, peer: Dev)
  {
    function Edge(): Edge {
      (dev, peer)
    }
  }

  ghost function Apply(edges: set<Edge>, c: Change): set<Edge> {
    if c.Down? then edges - {c.Edge()} else edges + {c.Edge()}
  }

  ghost function Replay(edges: set<Edge>, cs: seq<Change>): set<Edge> {
    if cs == [] then edges else Apply(Replay(edges, cs[..|cs| - 1]), cs[|cs| - 1])
  }

  /** Every edge lost is listed as DOWN, every edge gained as UP, nothing else
      is, and nothing is listed twice. */
  ghost predicate IsDelta(before: set<Edge>, after: set<Edge>, cs: seq<Change>) {
    && (forall d, p :: Down(d, p) in cs <==> (d, p) in before - after)
    && (forall d, p :: Up(d, p) in cs <==> (d, p) in after - before)
    && (forall i, j :: 0 <= i < j < |cs| ==> cs[i] != cs[j])
  }

  // ---- The meaning of a delta ----

  lemma {:induction false} ReplayAt(edges: set<Edge>, cs: seq<Change>, e: Edge)
    requires !(Down(e.0, e.1) in cs && Up(e.0, e.1) in cs)
    ensures e in Replay(edges, cs) <==> Up(e.0, e.1) in cs || (e in edges && Down(e.0, e.1) !in cs)
  {
    if cs != [] {
      var front, last := cs[..|cs| - 1], cs[|cs| - 1];
      assert cs == front + [last];
      ReplayAt(edges, front, e);
    }
  }

  /** Applying a delta in its order gives the new edges from the old ones. */
  lemma DeltaReplays(before: set<Edge>, after: set<Edge>, cs: seq<Change>)
    requires IsDelta(before, after, cs)
    ensures Replay(before, cs) == after
  {
    forall e: Edge ensures e in Replay(before, cs) <==> e in after {
      assert Down(e.0, e.1) in cs <==> (e.0, e.1) in before - after;
      assert Up(e.0, e.1) in cs <==> (e.0, e.1) in after - before;
      ReplayAt(before, cs, e);
    }
  }

  lemma {:induction false} ReplayAppend(edges: set<Edge>, a: seq<Change>, b: seq<Change>)
    ensures Replay(edges, a + b) == Replay(Replay(edges, a), b)
  {
    if b == [] {
      assert a + b == a;
    } else {
      var front, last := b[..|b| - 1], b[|b| - 1];
      assert (a + b)[..|a + b| - 1] == a + front && (a + b)[|a + b| - 1] == last;
      ReplayAppend(edges, a, front);
    }
  }

  ghost function Differing(a: set<Edge>, b: set<Edge>): set<Edge> {
    (a - b) + (b - a)
  }

  /** However the new edges are reached from the old ones, it takes a change
      for each edge that differs. */
  lemma {:induction false} DifferingTakesChanges(before: set<Edge>, cs: seq<Change>)
    ensures |Differing(before, Replay(before, cs))| <= |cs|
  {
    if cs != [] {
      var front, last := cs[..|cs| - 1], cs[|cs| - 1];
      DifferingTakesChanges(before, front);
      var was := Differing(before, Replay(before, front));
      var now := Differing(before, Replay(before, cs));
      assert now <= was + {last.Edge()};
      SubsetSize(now, was + {last.Edge()});
    } else {
      assert Differing(before, before) == {};
    }
  }

  lemma {:induction false} DistinctSize(before: set<Edge>, after: set<Edge>, cs: seq<Change>)
    requires forall i, j :: 0 <= i < j < |cs| ==> cs[i] != cs[j]
    requires forall c :: c in cs ==> if c.Down? then c.Edge() in before - after else c.Edge() in after - before
    ensures |cs| <= |Differing(before, after)|
    decreases |cs|
  {
    if cs != [] {
      var front, last := cs[..|cs| - 1], cs[|cs| - 1];
      var e := last.Edge();
      assert cs == front + [last];
      forall c | c in front ensures c.Edge() != e {
        var i :| 0 <= i < |front| && front[i] == c;
        assert cs[i] != cs[|cs| - 1];
      }
      DistinctSize(before - {e}, after - {e}, front);
      assert Differing(before - {e}, after - {e}) == Differing(before, after) - {e};
    }
  }

  /** No sequence of changes that leads from the old edges to the new ones is
      shorter than a delta. */
  lemma DeltaIsShortest(before: set<Edge>, after: set<Edge>, cs: seq<Change>, other: seq<Change>)
    requires IsDelta(before, after, cs) && Replay(before, other) == after
    ensures |cs| <= |other|
  {
    forall c | c in cs ensures if c.Down? then c.Edge() in before - after else c.Edge() in after - before {
      assert c == if c.Down? then Down(c.dev, c.peer) else Up(c.dev, c.peer);
    }
    DistinctSize(before, after, cs);
    DifferingTakesChanges(before, other);
  }

  // ---- The text of a delta ----

  function LineOf(c: Change): string {
    (if c.Down? then "DOWN;" else "UP;") + c.dev + ":" + c.peer
  }

  function Message(cs: seq<Change>): string {
    if cs == [] then "" else Message(cs[..|cs| - 1]) + LineOf(cs[|cs| - 1]) + "|"
  }

  /** The text is that of a delta. */
  ghost predicate Describes(text: string, before: set<Edge>, after: set<Edge>) {
    exists cs :: IsDelta(before, after, cs) && text == Message(cs)
  }

  /** Every device name is built from a slot and a chip id with a '-' between. */
  ghost predicate Named(cs: seq<Change>) {
    forall c :: c in cs ==> '-' in c.dev && '-' in c.peer
  }

  ghost predicate NoBars(cs: seq<Change>) {
    forall c :: c in cs ==> '|' !in c.dev && '|' !in c.peer
  }

  ghost predicate Follows(first: char, second: char, s: string) {
    exists i, j :: 0 <= i < j < |s| && s[i] == first && s[j] == second
  }

  /** No ':' behind a '-' of the device, no '-' behind a ':' of its peer: the ':'
      between the two is then the only one that can be. */
  ghost predicate Clear(c: Change) {
    !Follows('-', ':', c.dev) && !Follows(':', '-', c.peer)
  }

  lemma Cut(a: string, b: string, x: string, y: string, c: char)
    requires c !in a && c !in x && a + [c] + b == x + [c] + y
    ensures a == x && b == y
  {
    var s := a + [c] + b;
    assert s[|a|] == c && s[|x|] == c;
    assert forall i :: 0 <= i < |a| ==> s[i] == a[i];
    assert forall i :: 0 <= i < |x| ==> s[i] == x[i];
    assert |a| == |x|;
    assert a == s[..|a|] && x == s[..|x|];
    assert b == s[|a| + 1..] && y == s[|x| + 1..];
  }

  lemma LineParts(c: Change, d: Change)
    requires LineOf(c) == LineOf(d)
    ensures c.Down? == d.Down? && c.dev + ":" + c.peer == d.dev + ":" + d.peer
  {
    var s := LineOf(c);
    assert s[0] == if c.Down? then 'D' else 'U';
    assert s[0] == if d.Down? then 'D' else 'U';
    var n := if c.Down? then 5 else 3;
    assert LineOf(c)[n..] == c.dev + ":" + c.peer;
    assert LineOf(d)[n..] == d.dev + ":" + d.peer;
  }

  lemma DashBefore(a: string, b: string)
    requires '-' in a
    ensures Follows('-', ':', a + ":" + b)
  {
    var k :| 0 <= k < |a| && a[k] == '-';
    var s := a + ":" + b;
    assert s[k] == '-' && s[|a|] == ':';
  }

  lemma DashBehind(a: string, b: string)
    requires '-' in b
    ensures Follows(':', '-', a + ":" + b)
  {
    var k :| 0 <= k < |b| && b[k] == '-';
    var s := a + ":" + b;
    assert s[|a|] == ':' && s[|a| + 1 + k] == '-';
  }

  /** Two splits of a text at different places have a part between them. */
  lemma Between(x: string, p: string, y: string, q: string) returns (mid: string)
    requires x + ":" + p == y + ":" + q && |x| < |y|
    ensures y == x + ":" + mid && p == mid + ":" + q
  {
    var t := x + ":" + p;
    mid := y[|x| + 1..];
    assert t[..|y|] == y && t[..|x|] == x && t[|x|] == ':';
    assert y == x + ":" + mid;
    assert t[|x| + 1..] == p && t[|y| + 1..] == q && t[|y|] == ':';
    assert p == t[|x| + 1..|y|] + ":" + q;
  }

  lemma SameSplit(x: string, p: string, y: string, q: string)
    requires x + ":" + p == y + ":" + q && |x| == |y|
    ensures x == y && p == q
  {
    var t := x + ":" + p;
    assert t[..|x|] == x && t[..|x|] == y && t[|x| + 1..] == p && t[|x| + 1..] == q;
  }

  /** A clear line can be read in one way only. */
  lemma ClearLine(c: Change, d: Change)
    requires Clear(c) && '-' in d.dev && '-' in d.peer && LineOf(c) == LineOf(d)
    ensures c == d
  {
    LineParts(c, d);
    if |c.dev| < |d.dev| {
      var mid := Between(c.dev, c.peer, d.dev, d.peer);
      DashBehind(mid, d.peer);
    } else if |d.dev| < |c.dev| {
      var mid := Between(d.dev, d.peer, c.dev, c.peer);
      DashBefore(d.dev, mid);
    } else {
      SameSplit(c.dev, c.peer, d.dev, d.peer);
    }
  }

  lemma CutAtColon(s: string, j: nat)
    requires j < |s| && s[j] == ':'
    ensures s == s[..j] + ":" + s[j + 1..]
  {
  }

  lemma Assoc(x: string, y: string, z: string)
    ensures x + ":" + (y + ":" + z) == x + ":" + y + ":" + z
  {
  }

  /** A line that is not clear has a second reading, with names of the same shape. */
  lemma UnclearLine(c: Change) returns (d: Change)
    requires !Clear(c) && '-' in c.dev && '-' in c.peer && '|' !in c.dev && '|' !in c.peer
    ensures d != c && '-' in d.dev && '-' in d.peer && '|' !in d.dev && '|' !in d.peer && LineOf(d) == LineOf(c)
  {
    if Follows('-', ':', c.dev) {
      var i, j :| 0 <= i < j < |c.dev| && c.dev[i] == '-' && c.dev[j] == ':';
      CutAtColon(c.dev, j);
      assert c.dev[..j][i] == '-';
      d := Moved(c, c.dev[..j], c.dev[j + 1..], c.peer);
    } else {
      var i, j :| 0 <= i < j < |c.peer| && c.peer[i] == ':' && c.peer[j] == '-';
      CutAtColon(c.peer, i);
      assert c.peer[i + 1..][j - i - 1] == '-';
      d := MovedBack(c, c.dev, c.peer[..i], c.peer[i + 1..]);
    }
  }

  function Listing(up: bool, d: Dev, p: Dev): Change {
    if up then Up(d, p) else Down(d, p)
  }

  /** The part between two colons can be read as belonging to either name. */
  lemma TwoReadings(up: bool, x: string, y: string, z: string)
    ensures LineOf(Listing(up, x + ":" + y, z)) == LineOf(Listing(up, x, y + ":" + z))
    ensures Listing(up, x + ":" + y, z) != Listing(up, x, y + ":" + z)
  {
    var kind := if up then "UP;" else "DOWN;";
    assert LineOf(Listing(up, x + ":" + y, z)) == kind + (x + ":" + y + ":" + z);
    assert LineOf(Listing(up, x, y + ":" + z)) == kind + (x + ":" + (y + ":" + z));
    Assoc(x, y, z);
    assert |x + ":" + y| > |x|;
  }

  lemma Moved(c: Change, x: string, y: string, z: string) returns (d: Change)
    requires c.dev == x + ":" + y && c.peer == z && '-' in x && '-' in z && '|' !in c.dev && '|' !in z
    ensures d != c && '-' in d.dev && '-' in d.peer && '|' !in d.dev && '|' !in d.peer && LineOf(d) == LineOf(c)
  {
    d := Listing(c.Up?, x, y + ":" + z);
    TwoReadings(c.Up?, x, y, z);
    assert forall e :: e in y + ":" + z <==> e in y || e == ':' || e in z;
    assert forall e :: e in x + ":" + y <==> e in x || e == ':' || e in y;
  }

  lemma MovedBack(c: Change, x: string, y: string, z: string) returns (d: Change)
    requires c.dev == x && c.peer == y + ":" + z && '-' in x && '-' in z && '|' !in c.peer && '|' !in x
    ensures d != c && '-' in d.dev && '-' in d.peer && '|' !in d.dev && '|' !in d.peer && LineOf(d) == LineOf(c)
  {
    d := Listing(c.Up?, x + ":" + y, z);
    TwoReadings(c.Up?, x, y, z);
    assert forall e :: e in y + ":" + z <==> e in y || e == ':' || e in z;
    assert forall e :: e in x + ":" + y <==> e in x || e == ':' || e in y;
  }

  /** The same text built from the front. */
  lemma {:induction false} MessageFront(cs: seq<Change>)
    requires cs != []
    ensures Message(cs) == LineOf(cs[0]) + "|" + Message(cs[1..])
  {
    if |cs| == 1 {
      assert Message(cs[..0]) == "" && cs[1..] == [];
      assert Message(cs) == "" + LineOf(cs[0]) + "|";
    } else {
      var front, last := cs[..|cs| - 1], LineOf(cs[|cs| - 1]) + "|";
      MessageFront(front);
      assert cs[1..][..|cs[1..]| - 1] == front[1..] && cs[1..][|cs[1..]| - 1] == cs[|cs| - 1];
      assert Message(cs) == Message(front) + last;
      assert Message(cs[1..]) == Message(front[1..]) + last;
      assert LineOf(cs[0]) + "|" + Message(front[1..]) + last == LineOf(cs[0]) + "|" + (Message(front[1..]) + last);
    }
  }

  lemma {:induction false} MessageConcat(a: seq<Change>, b: seq<Change>)
    ensures Message(a + b) == Message(a) + Message(b)
  {
    if a == [] {
      assert a + b == b;
    } else {
      MessageFront(a);
      MessageFront(a + b);
      assert (a + b)[1..] == a[1..] + b;
      MessageConcat(a[1..], b);
      AppendTexts(LineOf(a[0]) + "|", Message(a[1..]), Message(b));
    }
  }

  lemma AppendTexts(x: string, y: string, z: string)
    ensures x + (y + z) == (x + y) + z
  {
  }

  /** The line of a change stands in the text of the list between the texts of what
      is listed before and behind it. */
  lemma LineInText(cs: seq<Change>, i: nat)
    requires i < |cs|
    ensures Message(cs) == Message(cs[..i]) + (LineOf(cs[i]) + "|" + Message(cs[i + 1..]))
  {
    var front, rest := cs[..i], cs[i..];
    assert front + rest == cs && rest[0] == cs[i] && rest[1..] == cs[i + 1..];
    MessageConcat(front, rest);
    MessageFront(rest);
  }

  /** In the text of a delta the word DOWN stands for an edge lost, UP for one gained. */
  lemma DeltaWords(before: set<Edge>, after: set<Edge>, cs: seq<Change>, d: Dev, p: Dev) returns (i: nat)
    requires IsDelta(before, after, cs) && (d, p) in Differing(before, after)
    ensures i < |cs|
    ensures Message(cs)
         == Message(cs[..i])
            + ((if (d, p) in before then "DOWN;" else "UP;") + d + ":" + p + "|" + Message(cs[i + 1..]))
  {
    var c := if (d, p) in before then Down(d, p) else Up(d, p);
    assert c in cs;
    i :| 0 <= i < |cs| && cs[i] == c;
    LineInText(cs, i);
  }

  lemma BarFreeRest(a: seq<Change>)
    requires a != [] && NoBars(a)
    ensures NoBars(a[1..]) && '|' !in LineOf(a[0])
  {
    assert a == [a[0]] + a[1..];
    NoBar(a[0]);
  }

  lemma EmptyText(a: seq<Change>)
    ensures Message(a) == "" <==> a == []
  {
    if a != [] {
      MessageFront(a);
    }
  }

  /** Equal texts have the same first line, and go on equally. */
  lemma FirstLines(a: seq<Change>, b: seq<Change>)
    requires a != [] && b != [] && '|' !in LineOf(a[0]) && '|' !in LineOf(b[0]) && Message(a) == Message(b)
    ensures LineOf(a[0]) == LineOf(b[0]) && Message(a[1..]) == Message(b[1..])
  {
    MessageFront(a);
    MessageFront(b);
    Cut(LineOf(a[0]), Message(a[1..]), LineOf(b[0]), Message(b[1..]), '|');
  }

  lemma SameHeadAndTail(a: seq<Change>, b: seq<Change>)
    requires a != [] && b != [] && a[0] == b[0] && a[1..] == b[1..]
    ensures a == b
  {
    assert a == [a[0]] + a[1..] && b == [b[0]] + b[1..];
  }

  /** The lines of these lists tell the changes. */
  ghost predicate LinesTell(a: seq<Change>, b: seq<Change>) {
    forall c, d :: c in a && d in b && LineOf(c) == LineOf(d) ==> c == d
  }

  lemma {:induction false} LineByLine(a: seq<Change>, b: seq<Change>)
    requires NoBars(a) && NoBars(b) && LinesTell(a, b) && Message(a) == Message(b)
    ensures a == b
    decreases |a|
  {
    EmptyText(a);
    EmptyText(b);
    if a != [] {
      BarFreeRest(a);
      BarFreeRest(b);
      FirstLines(a, b);
      assert a[0] in a && b[0] in b;
      assert LinesTell(a[1..], b[1..]);
      LineByLine(a[1..], b[1..]);
      SameHeadAndTail(a, b);
    }
  }

  lemma ClearText(a: seq<Change>, b: seq<Change>)
    requires NoBars(a) && Named(a) && NoBars(b) && Named(b) && Message(a) == Message(b)
    requires forall c :: c in a ==> Clear(c)
    ensures a == b
  {
    forall c, d | c in a && d in b && LineOf(c) == LineOf(d)
      ensures c == d
    {
      ClearLine(c, d);
    }
    LineByLine(a, b);
  }

  ghost predicate PlainDevs(cs: seq<Change>) {
    forall c :: c in cs ==> ':' !in c.dev
  }

  /** Whatever the names look like, two texts whose lines begin with device names
      without a ':' tell their lists, as long as no name holds a '|'. */
  lemma MessageDetermines(a: seq<Change>, b: seq<Change>)
    requires NoBars(a) && NoBars(b) && PlainDevs(a) && PlainDevs(b) && Message(a) == Message(b)
    ensures a == b
  {
    forall c, d | c in a && d in b && LineOf(c) == LineOf(d)
      ensures c == d
    {
      LineParts(c, d);
      Cut(c.dev, c.peer, d.dev, d.peer, ':');
    }
    LineByLine(a, b);
  }

  ghost predicate NoColons(c: Change) {
    ':' !in c.dev && ':' !in c.peer
  }

  lemma OneColonLine(c: Change, d: Change)
    requires NoColons(c) && LineOf(c) == LineOf(d)
    ensures c == d
  {
    LineParts(c, d);
    if |c.dev| < |d.dev| {
      var mid := Between(c.dev, c.peer, d.dev, d.peer);
    } else if |d.dev| < |c.dev| {
      var mid := Between(d.dev, d.peer, c.dev, c.peer);
    } else {
      SameSplit(c.dev, c.peer, d.dev, d.peer);
    }
  }

  lemma ColonReading(c: Change) returns (d: Change)
    requires !NoColons(c) && '|' !in c.dev && '|' !in c.peer
    ensures d != c && LineOf(d) == LineOf(c) && '|' !in d.dev && '|' !in d.peer
  {
    if ':' in c.dev {
      var j :| 0 <= j < |c.dev| && c.dev[j] == ':';
      CutAtColon(c.dev, j);
      d := Listing(c.Up?, c.dev[..j], c.dev[j + 1..] + ":" + c.peer);
      TwoReadings(c.Up?, c.dev[..j], c.dev[j + 1..], c.peer);
      NoBarJoined(c.dev[j + 1..], c.peer);
    } else {
      var j :| 0 <= j < |c.peer| && c.peer[j] == ':';
      CutAtColon(c.peer, j);
      d := Listing(c.Up?, c.dev + ":" + c.peer[..j], c.peer[j + 1..]);
      TwoReadings(c.Up?, c.dev, c.peer[..j], c.peer[j + 1..]);
      NoBarJoined(c.dev, c.peer[..j]);
    }
  }

  lemma NoBarJoined(x: string, y: string)
    requires '|' !in x && '|' !in y
    ensures '|' !in x + ":" + y
  {
    assert forall e :: e in x + ":" + y <==> e in x || e == ':' || e in y;
  }

  /** For a reader who knows nothing of the names but that they hold no '|', the
      text is unique if and only if no name holds a ':'. */
  lemma PlainTextIsUnique(a: seq<Change>)
    requires NoBars(a)
    ensures (forall b :: NoBars(b) && Message(b) == Message(a) ==> b == a) <==> forall c :: c in a ==> NoColons(c)
  {
    if forall c :: c in a ==> NoColons(c) {
      forall b | NoBars(b) && Message(b) == Message(a)
        ensures b == a
      {
        forall c, d | c in a && d in b && LineOf(c) == LineOf(d)
          ensures c == d
        {
          OneColonLine(c, d);
        }
        LineByLine(a, b);
      }
    } else {
      var c :| c in a && !NoColons(c);
      var i :| 0 <= i < |a| && a[i] == c;
      var d := ColonReading(c);
      SameLineSameText(a, i, d);
      assert forall e :: e in a[i := d] ==> e in a || e == d;
      assert NoBars(a[i := d]) && a[i := d][i] != a[i];
    }
  }

  lemma {:induction false} SameLineSameText(a: seq<Change>, i: nat, d: Change)
    requires i < |a| && LineOf(d) == LineOf(a[i])
    ensures Message(a[i := d]) == Message(a)
  {
    var n := |a| - 1;
    if i < n {
      SameLineSameText(a[..n], i, d);
      assert a[i := d][..n] == a[..n][i := d];
    } else {
      assert a[i := d][..n] == a[..n];
    }
  }

  /** For a reader who knows how device names are built and that they hold no '|',
      the published text tells exactly which changes were listed, in which order,
      if and only if all of them are clear. */
  lemma TextIsUnique(a: seq<Change>)
    requires Named(a) && NoBars(a)
    ensures (forall b :: Named(b) && NoBars(b) && Message(b) == Message(a) ==> b == a)
       <==> forall c :: c in a ==> Clear(c)
  {
    if forall c :: c in a ==> Clear(c) {
      forall b | Named(b) && NoBars(b) && Message(b) == Message(a)
        ensures b == a
      {
        ClearText(a, b);
      }
    } else {
      var c :| c in a && !Clear(c);
      var i :| 0 <= i < |a| && a[i] == c;
      var d := UnclearLine(c);
      SameLineSameText(a, i, d);
      OneReplaced(a, i, d);
    }
  }

  lemma OneReplaced(a: seq<Change>, i: nat, d: Change)
    requires i < |a| && Named(a) && NoBars(a) && d != a[i]
    requires '-' in d.dev && '-' in d.peer && '|' !in d.dev && '|' !in d.peer
    ensures Named(a[i := d]) && NoBars(a[i := d]) && a[i := d] != a
  {
    assert a[i := d][i] == d;
    assert forall e :: e in a[i := d] ==> e in a || e == d;
  }

  /** Two lines read as one whose peer name holds a '|'. */
  function Merged(c: Change, d: Change): Change {
    Listing(c.Up?, c.dev, c.peer + "|" + LineOf(d))
  }

  lemma MessageLast(front: seq<Change>, c: Change)
    ensures Message(front + [c]) == Message(front) + LineOf(c) + "|"
  {
    assert (front + [c])[..|front|] == front;
  }

  lemma MergedLine(c: Change, d: Change)
    ensures LineOf(Merged(c, d)) == LineOf(c) + "|" + LineOf(d)
  {
    var kind := if c.Down? then "DOWN;" else "UP;";
    assert kind + c.dev + ":" + (c.peer + "|" + LineOf(d)) == kind + c.dev + ":" + c.peer + "|" + LineOf(d);
  }

  lemma MergedText(front: seq<Change>, c: Change, d: Change)
    ensures Message(front + [Merged(c, d)]) == Message(front + [c] + [d])
  {
    MessageLast(front, Merged(c, d));
    MessageLast(front, c);
    MessageLast(front + [c], d);
    MergedLine(c, d);
    var m, k, l := Message(front), LineOf(c), LineOf(d);
    assert m + (k + "|" + l) + "|" == m + k + "|" + l + "|";
  }

  lemma MergedNamed(c: Change, d: Change)
    requires '-' in c.dev && '-' in c.peer
    ensures '-' in Merged(c, d).dev && '-' in Merged(c, d).peer
  {
    var k :| 0 <= k < |c.peer| && c.peer[k] == '-';
    assert Merged(c, d).peer[k] == '-';
  }

  /** Without the knowledge that names hold no '|' no list of more than one change
      has a unique text: its last two lines can be one. */
  lemma BarsNeverUnique(front: seq<Change>, c: Change, d: Change)
    requires Named(front + [c] + [d])
    ensures Named(front + [Merged(c, d)]) && Message(front + [Merged(c, d)]) == Message(front + [c] + [d])
    ensures front + [Merged(c, d)] != front + [c] + [d]
  {
    var a, b := front + [c] + [d], front + [Merged(c, d)];
    MergedText(front, c, d);
    assert a[|front|] == c && |b| != |a|;
    MergedNamed(c, d);
    forall x | x in b
      ensures '-' in x.dev && '-' in x.peer
    {
      assert x in front || x == Merged(c, d);
      assert x in front ==> x in a;
    }
  }

  // ---- Texts that the code publishes ----

  ghost predicate NamedEdges(edges: set<Edge>) {
    forall e :: e in edges ==> '-' in e.0 && '-' in e.1
  }

  lemma DashInName(slotId: string, chipId: string)
    ensures '-' in DevName(slotId, chipId)
  {
    assert DevName(slotId, chipId)[|slotId|] == '-';
  }

  lemma FetchedAreNamed(nodes: seq<Node>)
    ensures NamedEdges(UpEdges(nodes))
  {
    forall e | e in UpEdges(nodes)
      ensures '-' in e.0 && '-' in e.1
    {
      var n, p :| n in nodes && p in n.ports && p.status == "up"
        && e == (DevName(n.slotId, n.chipId), DevName(p.remoteSlotId, p.remoteChipId));
      DashInName(n.slotId, n.chipId);
      DashInName(p.remoteSlotId, p.remoteChipId);
    }
  }

  /** Every name in a published text is one that the code built. */
  lemma DeltasAreNamed(before: set<Edge>, after: set<Edge>, cs: seq<Change>)
    requires NamedEdges(before) && NamedEdges(after) && IsDelta(before, after, cs)
    ensures Named(cs)
  {
    forall c | c in cs
      ensures '-' in c.dev && '-' in c.peer
    {
      assert c == (if c.Down? then Down(c.dev, c.peer) else Up(c.dev, c.peer));
      assert (c.dev, c.peer) in before + after;
    }
  }

  /** One node with one port that is up. */
  function OneLink(slotId: string, chipId: string, remoteSlotId: string, remoteChipId: string): seq<Node> {
    [Node(slotId, chipId, [Port(remoteSlotId, remoteChipId, "up")])]
  }

  lemma OneLinkEdges(slotId: string, chipId: string, remoteSlotId: string, remoteChipId: string)
    ensures UpEdges(OneLink(slotId, chipId, remoteSlotId, remoteChipId))
         == {(DevName(slotId, chipId), DevName(remoteSlotId, remoteChipId))}
  {
    var nodes := OneLink(slotId, chipId, remoteSlotId, remoteChipId);
    assert nodes[0] in nodes && nodes[0].ports[0] in nodes[0].ports;
  }

  /** Coming up from nothing, the link is the whole delta. */
  lemma OneLinkDelta(slotId: string, chipId: string, remoteSlotId: string, remoteChipId: string)
    ensures
      var c := Up(DevName(slotId, chipId), DevName(remoteSlotId, remoteChipId));
      IsDelta(UpEdges([]), UpEdges(OneLink(slotId, chipId, remoteSlotId, remoteChipId)), [c])
  {
    OneLinkEdges(slotId, chipId, remoteSlotId, remoteChipId);
    assert UpEdges([]) == {};
  }

  /** Two topologies, each of one link, one of whose chip ids holds a ':' in front
      of what looks like a device name: they come up with the same text. */
  lemma AmbiguousColon(s1: string, c1: string, s2: string, c2: string, s3: string, c3: string)
    ensures
      var x, y, z := DevName(s1, c1), DevName(s2, c2), DevName(s3, c3);
      var a, b := [Up(x + ":" + y, z)], [Up(x, y + ":" + z)];
      && IsDelta(UpEdges([]), UpEdges(OneLink(s1, c1 + ":" + y, s3, c3)), a)
      && IsDelta(UpEdges([]), UpEdges(OneLink(s1, c1, s2, c2 + ":" + z)), b)
      && a != b && Message(a) == Message(b)
  {
    var x, y, z := DevName(s1, c1), DevName(s2, c2), DevName(s3, c3);
    OneLinkDelta(s1, c1 + ":" + y, s3, c3);
    OneLinkDelta(s1, c1, s2, c2 + ":" + z);
    LongChip(s1, c1, ":" + y);
    LongChip(s2, c2, ":" + z);
    assert x + ":" + y == x + (":" + y) && c1 + ":" + y == c1 + (":" + y);
    assert y + ":" + z == y + (":" + z) && c2 + ":" + z == c2 + (":" + z);
    TwoReadings(true, x, y, z);
    MessageLast([], Up(x + ":" + y, z));
    MessageLast([], Up(x, y + ":" + z));
    assert [] + [Up(x + ":" + y, z)] == [Up(x + ":" + y, z)] && [] + [Up(x, y + ":" + z)] == [Up(x, y + ":" + z)];
  }

  lemma LongChip(slotId: string, chipId: string, rest: string)
    ensures DevName(slotId, chipId + rest) == DevName(slotId, chipId) + rest
  {
    assert slotId + "-" + (chipId + rest) == slotId + "-" + chipId + rest;
  }

  /** A link whose chip id holds a '|' in front of what looks like a line comes up
      with the same text as the two links. */
  lemma AmbiguousBar(s1: string, c1: string, s2: string, c2: string, s3: string, c3: string, s4: string, c4: string)
    requires (DevName(s1, c1), DevName(s2, c2)) != (DevName(s3, c3), DevName(s4, c4))
    ensures
      var c, d := Up(DevName(s1, c1), DevName(s2, c2)), Up(DevName(s3, c3), DevName(s4, c4));
      && IsDelta(UpEdges([]), UpEdges(OneLink(s1, c1, s2, c2 + ("|" + LineOf(d)))), [Merged(c, d)])
      && IsDelta(UpEdges([]), UpEdges(OneLink(s1, c1, s2, c2) + OneLink(s3, c3, s4, c4)), [c, d])
      && Message([Merged(c, d)]) == Message([c, d])
  {
    var c, d := Up(DevName(s1, c1), DevName(s2, c2)), Up(DevName(s3, c3), DevName(s4, c4));
    MergedDelta(s1, c1, s2, c2, d);
    TwoLinksDelta(s1, c1, s2, c2, s3, c3, s4, c4);
    TwoAsOne(c, d);
  }

  lemma TwoAsOne(c: Change, d: Change)
    ensures Message([Merged(c, d)]) == Message([c, d])
  {
    MergedText([], c, d);
    assert [] + [Merged(c, d)] == [Merged(c, d)] && [] + [c] + [d] == [c, d];
  }

  lemma MergedDelta(s1: string, c1: string, s2: string, c2: string, d: Change)
    ensures IsDelta(UpEdges([]), UpEdges(OneLink(s1, c1, s2, c2 + ("|" + LineOf(d)))),
                    [Merged(Up(DevName(s1, c1), DevName(s2, c2)), d)])
  {
    var peer, line := DevName(s2, c2), LineOf(d);
    OneLinkDelta(s1, c1, s2, c2 + ("|" + line));
    LongChip(s2, c2, "|" + line);
    assert peer + "|" + line == peer + ("|" + line);
  }

  lemma TwoLinksDelta(s1: string, c1: string, s2: string, c2: string, s3: string, c3: string, s4: string, c4: string)
    requires (DevName(s1, c1), DevName(s2, c2)) != (DevName(s3, c3), DevName(s4, c4))
    ensures
      var c, d := Up(DevName(s1, c1), DevName(s2, c2)), Up(DevName(s3, c3), DevName(s4, c4));
      IsDelta(UpEdges([]), UpEdges(OneLink(s1, c1, s2, c2) + OneLink(s3, c3, s4, c4)), [c, d])
  {
    OneLinkEdges(s1, c1, s2, c2);
    OneLinkEdges(s3, c3, s4, c4);
    UpEdgesAppend(OneLink(s1, c1, s2, c2), OneLink(s3, c3, s4, c4));
    assert UpEdges([]) == {};
  }

  lemma UpEdgesAppend(m: seq<Node>, n: seq<Node>)
    ensures UpEdges(m + n) == UpEdges(m) + UpEdges(n)
  {
    assert forall x :: x in m + n <==> x in m || x in n;
  }

  lemma NoBar(c: Change)
    requires '|' !in c.dev && '|' !in c.peer
    ensures '|' !in LineOf(c)
  {
  }

  // ---- Whole runs ----

  /** A notification that did not parse, or the outcome of the refetch. */
  datatype Notice =
    | Unparsed
    | Refetched(topology: Option<seq<Node>>)

  ghost function EdgesAfter(edges: set<Edge>, n: Notice): set<Edge> {
    match n
    case Unparsed => edges
    case Refetched(None) => {}
    case Refetched(Some(nodes)) => UpEdges(nodes)
  }

  /** What handling one notification may list. */
  ghost predicate Lists(edges: set<Edge>, n: Notice, cs: seq<Change>) {
    if n.Unparsed? then cs == [] else IsDelta(edges, EdgesAfter(edges, n), cs)
  }

  ghost predicate IsRun(edges: set<Edge>, run: seq<(Notice, seq<Change>)>)
    decreases |run|
  {
    run != [] ==> Lists(edges, run[0].0, run[0].1) && IsRun(EdgesAfter(edges, run[0].0), run[1..])
  }

  ghost function Final(edges: set<Edge>, run: seq<(Notice, seq<Change>)>): set<Edge>
    decreases |run|
  {
    if run == [] then edges else Final(EdgesAfter(edges, run[0].0), run[1..])
  }

  ghost function Listed(run: seq<(Notice, seq<Change>)>): seq<Change> {
    if run == [] then [] else run[0].1 + Listed(run[1..])
  }

  /** Over every sequence of notifications, failed refetches included, all the
      changes listed, in order, lead from the first peer edges to the last. */
  lemma {:induction false} RunReplays(edges: set<Edge>, run: seq<(Notice, seq<Change>)>)
    requires IsRun(edges, run)
    ensures Replay(edges, Listed(run)) == Final(edges, run)
    decreases |run|
  {
    if run != [] {
      var cs, next := run[0].1, EdgesAfter(edges, run[0].0);
      if !run[0].0.Unparsed? {
        DeltaReplays(edges, next, cs);
      }
      RunReplays(next, run[1..]);
      ReplayAppend(edges, cs, Listed(run[1..]));
    }
  }

  // ---- The object ----

  /** The edges of the first ports of a node that are up. */
  ghost function PortEdges(n: Node, ports: seq<Port>): set<Edge> {
    set p | p in ports && p.status == "up" :: (DevName(n.slotId, n.chipId), DevName(p.remoteSlotId, p.remoteChipId))
  }

  lemma OnePortMore(n: Node, ports: seq<Port>, p: Port)
    ensures PortEdges(n, ports + [p]) == PortEdges(n, ports)
              + if p.status == "up" then {(DevName(n.slotId, n.chipId), DevName(p.remoteSlotId, p.remoteChipId))} else {}
  {
  }

  lemma OneNodeMore(nodes: seq<Node>, n: Node)
    ensures UpEdges(nodes + [n]) == UpEdges(nodes) + PortEdges(n, n.ports)
  {
  }

  /** Exactly these edges are listed, each once, all as UP or all as DOWN. */
  ghost predicate ListsOnce(cs: seq<Change>, edges: set<Edge>, up: bool) {
    && (forall c :: c in cs ==> c.Up? == up && c.Edge() in edges)
    && (forall d, p :: (d, p) in edges ==> Listing(up, d, p) in cs)
    && (forall i, j :: 0 <= i < j < |cs| ==> cs[i] != cs[j])
  }

  lemma OneListedMore(cs: seq<Change>, edges: set<Edge>, up: bool, d: Dev, p: Dev)
    requires ListsOnce(cs, edges, up) && (d, p) !in edges
    ensures ListsOnce(cs + [Listing(up, d, p)], edges + {(d, p)}, up)
  {
  }

  /** The edges from a device to these peers that a map lacks. */
  ghost function NewTo(d: Dev, peers: set<Dev>, other: PeerMap): set<Edge> {
    (set p | p in peers :: (d, p)) - Edges(other)
  }

  lemma OnePeerMore(d: Dev, peers: set<Dev>, p: Dev, other: PeerMap)
    ensures NewTo(d, peers + {p}, other)
         == NewTo(d, peers, other) + if d in other && p in other[d] then {} else {(d, p)}
  {
  }

  lemma OneListedFurther(dev: Dev, all: set<Dev>, peers: set<Dev>, peer: Dev, other: PeerMap, done: set<Edge>)
    requires peer in peers && peers <= all && forall p :: (dev, p) !in done
    ensures (dev, peer) !in done + NewTo(dev, all - peers, other)
    ensures done + NewTo(dev, all - (peers - {peer}), other)
         == done + NewTo(dev, all - peers, other) + if dev in other && peer in other[dev] then {} else {(dev, peer)}
  {
    OnePeerMore(dev, all - peers, peer, other);
    assert all - (peers - {peer}) == all - peers + {peer};
  }

  /** The text goes on with lines for exactly these edges, each once. */
  ghost predicate Appended(text: string, before: seq<Change>, cs: seq<Change>, edges: set<Edge>, up: bool) {
    ListsOnce(cs, edges, up) && text == Message(before + cs)
  }

  lemma LineAppended(before: seq<Change>, cs: seq<Change>, c: Change)
    ensures Message(before + (cs + [c])) == Message(before + cs) + LineOf(c) + "|"
  {
    assert before + (cs + [c]) == (before + cs) + [c];
    assert ((before + cs) + [c])[..|before + cs|] == before + cs;
  }

  lemma DownsThenUps(before: set<Edge>, after: set<Edge>, downs: seq<Change>, ups: seq<Change>)
    requires ListsOnce(downs, before - after, false) && ListsOnce(ups, after - before, true)
    ensures IsDelta(before, after, downs + ups)
    ensures forall i, j :: 0 <= i < j < |downs + ups| && (downs + ups)[j].Down? ==> (downs + ups)[i].Down?
  {
  }

  class Topology {
    var peerDevMap: PeerMap
    ghost var initial: set<Edge>
    ghost var published: seq<Change>    // all the changes listed since the start

    ghost predicate Valid()
      reads this
    {
      Replay(initial, published) == Edges(peerDevMap)
    }

    /** Start: the first topology is fetched before any notification. */
    constructor (fetched: Option<seq<Node>>)
      ensures Valid() && published == [] && initial == Edges(peerDevMap)
      ensures initial == EdgesAfter({}, Refetched(fetched))
    {
      peerDevMap := map[];
      new;
      var _ := CreateDevTopology(fetched, true);
      initial, published := Edges(peerDevMap), [];
    }

    method AddPeer(dev: Dev, peer: Dev)
      modifies this`peerDevMap
      ensures Edges(peerDevMap) == old(Edges(peerDevMap)) + {(dev, peer)}
    {
      var peers := if dev in peerDevMap then peerDevMap[dev] else {};
      peerDevMap := peerDevMap[dev := peers + {peer}];
    }

    /** UbseNodeAddTopology, as far as the peer map goes. */
    method AddTopology(nodes: seq<Node>)
      modifies this`peerDevMap
      ensures Edges(peerDevMap) == old(Edges(peerDevMap)) + UpEdges(nodes)
    {
      for i := 0 to |nodes|
        invariant Edges(peerDevMap) == old(Edges(peerDevMap)) + UpEdges(nodes[..i])
      {
        var n := nodes[i];
        for j := 0 to |n.ports|
          invariant Edges(peerDevMap) == old(Edges(peerDevMap)) + UpEdges(nodes[..i]) + PortEdges(n, n.ports[..j])
        {
          var p := n.ports[j];
          OnePortMore(n, n.ports[..j], p);
          assert n.ports[..j + 1] == n.ports[..j] + [p];
          if p.status == "up" {
            AddPeer(DevName(n.slotId, n.chipId), DevName(p.remoteSlotId, p.remoteChipId));
          }
        }
        OneNodeMore(nodes[..i], n);
        assert nodes[..i + 1] == nodes[..i] + [n] && n.ports[..|n.ports|] == n.ports;
      }
      assert nodes[..|nodes|] == nodes;
    }

    /** The map is cleared first, so a failed fetch leaves it empty; a failed
        CNA query afterwards changes only the answer. */
    method CreateDevTopology(fetched: Option<seq<Node>>, cnaOk: bool) returns (ok: bool)
      modifies this`peerDevMap
      ensures Edges(peerDevMap) == EdgesAfter({}, Refetched(fetched))
      ensures ok <==> fetched.Some? && cnaOk
      ensures forall d, p :: (d, p) in Edges(peerDevMap) <==>
        && fetched.Some?
        && exists n, port :: n in fetched.value && port in n.ports && port.status == "up"
             && d == n.slotId + "-" + n.chipId && p == port.remoteSlotId + "-" + port.remoteChipId
    {
      peerDevMap := map[];
      if fetched.None? {
        return false;
      }
      AddTopology(fetched.value);
      ok := cnaOk;
    }

    /** One peer: a line, unless the other map knows the edge. */
    static method AppendPeer(dev: Dev, peer: Dev, other: PeerMap, up: bool, text0: string,
                             ghost before: seq<Change>, ghost cs0: seq<Change>, ghost listed: set<Edge>)
      returns (text: string, ghost cs: seq<Change>)
      requires (dev, peer) !in listed && Appended(text0, before, cs0, listed, up)
      ensures Appended(text, before, cs, listed + if dev in other && peer in other[dev] then {} else {(dev, peer)}, up)
    {
      text, cs := text0, cs0;
      assert listed + {} == listed;
      if dev !in other || peer !in other[dev] {
        OneListedMore(cs, listed, up, dev, peer);
        LineAppended(before, cs, Listing(up, dev, peer));
        cs := cs + [Listing(up, dev, peer)];
        text := text + LineOf(Listing(up, dev, peer)) + "|";
      }
    }

    /** The inner loop: a device's peers, in any order, less those the other map knows. */
    static method AppendPeers(dev: Dev, all: set<Dev>, other: PeerMap, up: bool, text0: string,
                              ghost before: seq<Change>, ghost cs0: seq<Change>, ghost done: set<Edge>)
      returns (text: string, ghost cs: seq<Change>)
      requires Appended(text0, before, cs0, done, up) && forall p :: (dev, p) !in done
      ensures Appended(text, before, cs, done + NewTo(dev, all, other), up)
    {
      text, cs := text0, cs0;
      var peers := all;
      assert done + NewTo(dev, all - peers, other) == done;
      while peers != {}
        invariant peers <= all && Appended(text, before, cs, done + NewTo(dev, all - peers, other), up)
        decreases peers
      {
        var peer :| peer in peers;
        OneListedFurther(dev, all, peers, peer, other, done);
        text, cs := AppendPeer(dev, peer, other, up, text, before, cs, done + NewTo(dev, all - peers, other));
        peers := peers - {peer};
      }
      assert all - peers == all;
    }

    /** Either loop of IdentifyTopoChange, over the edges of one map that the
        other lacks; devices too come in any order. */
    static method AppendMissing(have: PeerMap, other: PeerMap, up: bool, text0: string, ghost before: seq<Change>)
      returns (text: string, ghost cs: seq<Change>)
      requires text0 == Message(before)
      ensures ListsOnce(cs, Edges(have) - Edges(other), up)
      ensures text == Message(before + cs)
    {
      text, cs := text0, [];
      assert before + cs == before;
      var devs := have.Keys;
      ghost var done: set<Edge> := {};
      while devs != {}
        invariant devs <= have.Keys
        invariant forall e: Edge :: e in done <==> e in Edges(have) - Edges(other) && e.0 !in devs
        invariant Appended(text, before, cs, done, up)
        decreases devs
      {
        var dev :| dev in devs;
        text, cs := AppendPeers(dev, have[dev], other, up, text, before, cs, done);
        done := done + NewTo(dev, have[dev], other);
        devs := devs - {dev};
      }
      assert done == Edges(have) - Edges(other);
    }

    method IdentifyTopoChange(before: PeerMap) returns (text: string, ghost cs: seq<Change>)
      ensures IsDelta(Edges(before), Edges(peerDevMap), cs)
      ensures text == Message(cs) && Describes(text, Edges(before), Edges(peerDevMap))
      ensures forall i, j :: 0 <= i < j < |cs| && cs[j].Down? ==> cs[i].Down?
    {
      ghost var downs, ups;
      text, downs := AppendMissing(before, peerDevMap, false, "", []);
      assert [] + downs == downs;
      text, ups := AppendMissing(peerDevMap, before, true, text, downs);
      cs := downs + ups;
      DownsThenUps(Edges(before), Edges(peerDevMap), downs, ups);
    }

    /** PortUpDownFunc: the text published, if the notification parsed. */
    method PortUpDown(notice: Notice, cnaOk: bool) returns (text: Option<string>, ghost cs: seq<Change>)
      requires Valid()
      modifies this
      ensures Valid() && initial == old(initial) && published == old(published) + cs
      ensures Edges(peerDevMap) == EdgesAfter(old(Edges(peerDevMap)), notice)
      ensures Lists(old(Edges(peerDevMap)), notice, cs)
      ensures text == if notice.Unparsed? then None else Some(Message(cs))
    {
      cs := [];
      if notice.Unparsed? {
        assert published + cs == published;
        return None, cs;
      }
      var before := peerDevMap;
      var _ := CreateDevTopology(notice.topology, cnaOk);
      var message;
      message, cs := IdentifyTopoChange(before);
      text := Some(message);
      DeltaReplays(Edges(before), Edges(peerDevMap), cs);
      ReplayAppend(initial, published, cs);
      published := published + cs;
    }
  }
}

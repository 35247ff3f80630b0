/**
 Imports and unimports of several address borrows at the same time. They share
 the pool of remote NUMA ids, whose lock covers single accesses only: looking for
 a free id, taking one in and taking one out are atomic, a whole call is not. The
 calls on one borrow follow one another. An unimport leaves the result list as it
 is, so that one that failed half way is tried again from the front.
 */
module AddrCalls {
  import opened AddrBorrow
  import opened ObmmKernel
  import opened Options

  /** Where the calls on one borrow have got to, with the NUMA ids involved. `gone`
      counts the entries of a list whose memids are gone and whose ids were given
      back, `pos` the entries the running unimport has passed. */
  datatype Phase =
    | Idle
    | Between(added: seq<int>)                          // in an import, before the next entry
    | Asking(added: seq<int>, aside: int)               // an id is set aside, the kernel is asked
    | Moving(added: seq<int>, aside: int, actual: int)  // it gave another id, the first goes out
    | Adding(added: seq<int>, actual: int)              // and the other one comes in
    | Rolling(rest: seq<int>)                           // everything goes out again
    | Held(ids: seq<int>, gone: nat)                    // no call is running
    | Releasing(ids: seq<int>, gone: nat, pos: nat)     // in an unimport, before the next entry
    | Freeing(ids: seq<int>, gone: nat, pos: nat)       // its memid is gone, its id goes out
  {
    ghost predicate Sound() {
      match this
      case Held(ids, gone) => gone <= |ids|
      case Releasing(ids, gone, pos) => pos <= gone <= |ids|
      case Freeing(ids, gone, pos) => pos <= gone <= |ids| && pos < |ids|
      case _ => true
    }
  }

  datatype State = State(start: set<int>, pool: set<int>, calls: map<string, Phase>) {
    function Put(n: string, p: Phase): State {
      this.(calls := calls[n := p])
    }
  }

  datatype Step =
    | Begin(n: string)
    | Generate(n: string, id: int)
    | Grant(n: string, id: int)
    | Refuse(n: string)
    | Drop(n: string)
    | Add(n: string)
    | RollOne(n: string)
    | Stop(n: string)        // an import returns, with what it has or with nothing
    | Release(n: string)
    | UnImported(n: string)  // the memid is gone, or was gone already
    | Skip(n: string)        // a memid that was gone already now belongs to another borrow
    | Free(n: string)
    | Finish(n: string)      // an unimport returns, at the end or at a memid that cannot be undone

  ghost predicate Enabled(s: State, e: Step) {
    && e.n in s.calls && s.calls[e.n].Sound()
    && var p := s.calls[e.n];
    match e
    case Begin(_) => p.Idle?
    case Generate(_, id) => p.Between? && LeastFree(s.pool, id)
    case Grant(_, _) => p.Asking?
    case Refuse(_) => p.Asking?
    case Drop(_) => p.Moving?
    case Add(_) => p.Adding?
    case RollOne(_) => p.Rolling? && p.rest != []
    case Stop(_) => p.Between? || (p.Rolling? && p.rest == [])
    case Release(_) => p.Held?
    case UnImported(_) => p.Releasing? && p.pos < |p.ids|
    case Skip(_) => p.Releasing? && p.pos < p.gone
    case Free(_) => p.Freeing?
    case Finish(_) => p.Releasing? && p.pos == p.gone
  }

  function Max(a: nat, b: nat): nat { if a < b then b else a }

  ghost function Next(s: State, e: Step): State
    requires Enabled(s, e)
  {
    var n, p := e.n, s.calls[e.n];
    match e
    case Begin(_) => s.Put(n, Between([]))
    case Generate(_, id) => s.Put(n, Asking(p.added, id)).(pool := s.pool + {id})
    case Grant(_, id) =>
      if id == INVALID_NUMAID then s.Put(n, Rolling(p.added + [p.aside]))
      else if id == p.aside then s.Put(n, Between(p.added + [id]))
      else s.Put(n, Moving(p.added, p.aside, id))
    case Refuse(_) => s.Put(n, Rolling(p.added + [p.aside]))
    case Drop(_) => s.Put(n, Adding(p.added, p.actual)).(pool := s.pool - {p.aside})
    case Add(_) => s.Put(n, Between(p.added + [p.actual])).(pool := s.pool + {p.actual})
    case RollOne(_) => s.Put(n, Rolling(p.rest[1..])).(pool := s.pool - {p.rest[0]})
    case Stop(_) => s.Put(n, if p.Between? then Held(p.added, 0) else Idle)
    case Release(_) => s.Put(n, Releasing(p.ids, p.gone, 0))
    case UnImported(_) => s.Put(n, Freeing(p.ids, p.gone, p.pos))
    case Skip(_) => s.Put(n, Releasing(p.ids, p.gone, p.pos + 1))
    case Free(_) =>
      s.Put(n, Releasing(p.ids, Max(p.gone, p.pos + 1), p.pos + 1)).(pool := s.pool - {p.ids[p.pos]})
    case Finish(_) => s.Put(n, if p.pos == |p.ids| then Idle else Held(p.ids, p.gone))
  }

  ghost function From(ids: seq<int>, k: nat): seq<int> {
    if k <= |ids| then ids[k..] else []
  }

  ghost function Part(ids: seq<int>, i: nat, j: nat): seq<int> {
    if i <= j <= |ids| then ids[i..j] else []
  }

  ghost function Set(ids: seq<int>): set<int> {
    set x | x in ids
  }

  /** The ids a borrow holds or has set aside: those of the entries not gone. */
  ghost function Claimed(p: Phase): set<int> {
    match p
    case Idle => {}
    case Between(added) => Set(added)
    case Asking(added, aside) => Set(added) + {aside}
    case Moving(added, aside, _) => Set(added) + {aside}
    case Adding(added, _) => Set(added)
    case Rolling(rest) => Set(rest)
    case Held(ids, gone) => Set(From(ids, gone))
    case Releasing(ids, gone, _) => Set(From(ids, gone))
    case Freeing(ids, gone, _) => Set(From(ids, gone))
  }

  ghost function Claims(s: State): set<int> {
    s.start + set n, x | n in s.calls && x in Claimed(s.calls[n]) :: x
  }

  /** The pool is what was reserved at the start and what borrows hold or have set aside. */
  ghost predicate Exact(s: State) {
    s.pool == Claims(s)
  }

  /** The id that a step takes out of the pool. */
  ghost function TakenOut(s: State, e: Step): Option<int>
    requires Enabled(s, e)
  {
    var p := s.calls[e.n];
    match e
    case Drop(_) => Some(p.aside)
    case RollOne(_) => Some(p.rest[0])
    case Free(_) => Some(p.ids[p.pos])
    case _ => None
  }

  /** The step takes out an id that is still claimed. */
  ghost predicate Harms(s: State, e: Step)
    requires Enabled(s, e)
  {
    TakenOut(s, e).Some? && TakenOut(s, e).value in Claims(Next(s, e))
  }

  ghost predicate ClaimedElsewhere(s: State, n: string, x: int) {
    x in s.start || exists m :: m in s.calls && m != n && x in Claimed(s.calls[m])
  }

  lemma ClaimsOf(s: State, n: string, x: int)
    requires n in s.calls
    ensures x in Claims(s) <==> ClaimedElsewhere(s, n, x) || x in Claimed(s.calls[n])
  {
  }

  lemma SameElsewhere(s: State, n: string, p: Phase, pool: set<int>, x: int)
    requires n in s.calls
    ensures ClaimedElsewhere(s.Put(n, p).(pool := pool), n, x) == ClaimedElsewhere(s, n, x)
  {
    var s' := s.Put(n, p).(pool := pool);
    assert forall m :: m in s'.calls && m != n ==> s'.calls[m] == s.calls[m];
    assert forall m :: m in s.calls && m != n ==> s'.calls[m] == s.calls[m];
  }

  lemma SetAppend(ids: seq<int>, x: int)
    ensures Set(ids + [x]) == Set(ids) + {x}
  {
  }

  lemma SetFirst(ids: seq<int>)
    requires ids != []
    ensures Set(ids) == {ids[0]} + Set(ids[1..])
  {
    assert ids == [ids[0]] + ids[1..];
  }

  /** Giving back one more entry, or one again, changes at most the claim on its id. */
  lemma FreeClaims(ids: seq<int>, gone: nat, pos: nat)
    requires pos <= gone <= |ids| && pos < |ids|
    ensures Set(From(ids, Max(gone, pos + 1))) + {ids[pos]} == Set(From(ids, gone)) + {ids[pos]}
  {
    if pos == gone {
      SetFirst(ids[gone..]);
      assert ids[gone..][1..] == ids[gone + 1..];
    }
  }

  /** What a step does to the claims of its own borrow and to the pool. */
  ghost predicate OwnEffect(s: State, e: Step)
    requires Enabled(s, e)
  {
    var p, s', out := s.calls[e.n], Next(s, e), TakenOut(s, e);
    var p' := s'.calls[e.n];
    match e
    case Generate(_, id) => Claimed(p') == Claimed(p) + {id} && s'.pool == s.pool + {id}
    case Add(_) => Claimed(p') == Claimed(p) + {p.actual} && s'.pool == s.pool + {p.actual}
    case _ =>
      if out.Some? then Claimed(p) + {out.value} == Claimed(p') + {out.value} && s'.pool == s.pool - {out.value}
      else Claimed(p') == Claimed(p) && s'.pool == s.pool
  }

  lemma OwnClaims(s: State, e: Step)
    requires Enabled(s, e)
    ensures OwnEffect(s, e)
  {
    var p := s.calls[e.n];
    match e {
      case Grant(_, id) => SetAppend(p.added, p.aside);
      case Refuse(_) => SetAppend(p.added, p.aside);
      case Add(_) => SetAppend(p.added, p.actual);
      case RollOne(_) => SetFirst(p.rest);
      case Free(_) => FreeClaims(p.ids, p.gone, p.pos);
      case _ =>
    }
  }

  /** The exact condition for one step: the pool stays exact unless the step takes
      out an id that is still claimed. */
  lemma StepKeepsExact(s: State, e: Step)
    requires Exact(s) && Enabled(s, e)
    ensures Exact(Next(s, e)) <==> !Harms(s, e)
  {
    var s' := Next(s, e);
    OwnClaims(s, e);
    forall x
      ensures x in Claims(s') <==> ClaimedElsewhere(s, e.n, x) || x in Claimed(s'.calls[e.n])
      ensures x in s.pool <==> ClaimedElsewhere(s, e.n, x) || x in Claimed(s.calls[e.n])
    {
      SameElsewhere(s, e.n, s'.calls[e.n], s'.pool, x);
      ClaimsOf(s, e.n, x);
      ClaimsOf(s', e.n, x);
    }
    if !Harms(s, e) {
      assert forall x :: x in s'.pool <==> x in Claims(s');
    }
  }

  ghost predicate IsRun(s: State, steps: seq<Step>)
    decreases |steps|
  {
    steps != [] ==> Enabled(s, steps[0]) && IsRun(Next(s, steps[0]), steps[1..])
  }

  ghost predicate AlwaysExact(s: State, steps: seq<Step>)
    requires IsRun(s, steps)
    decreases |steps|
  {
    Exact(s) && (steps != [] ==> AlwaysExact(Next(s, steps[0]), steps[1..]))
  }

  ghost predicate NeverHarms(s: State, steps: seq<Step>)
    requires IsRun(s, steps)
    decreases |steps|
  {
    steps != [] ==> !Harms(s, steps[0]) && NeverHarms(Next(s, steps[0]), steps[1..])
  }

  /** In every interleaving the pool is exact in all states if and only if no step
      takes out an id that is still claimed. */
  lemma {:induction false} ExactUnlessHarmed(s: State, steps: seq<Step>)
    requires Exact(s) && IsRun(s, steps)
    ensures AlwaysExact(s, steps) <==> NeverHarms(s, steps)
    decreases |steps|
  {
    if steps != [] {
      StepKeepsExact(s, steps[0]);
      if Exact(Next(s, steps[0])) {
        ExactUnlessHarmed(Next(s, steps[0]), steps[1..]);
      }
    }
  }

  // ---- Trying a failed unimport again ----

  ghost function Final(s: State, steps: seq<Step>): State
    requires IsRun(s, steps)
    decreases |steps|
  {
    if steps == [] then s else Final(Next(s, steps[0]), steps[1..])
  }

  /** The steps of an unimport over k entries. */
  ghost function Passing(n: string, k: nat): seq<Step> {
    if k == 0 then [] else [UnImported(n), Free(n)] + Passing(n, k - 1)
  }

  /** The state after the running unimport has passed k more entries. */
  ghost function Passed(s: State, n: string, k: nat): State
    requires n in s.calls && s.calls[n].Releasing?
  {
    var p := s.calls[n];
    s.Put(n, Releasing(p.ids, p.gone, p.pos + k)).(pool := s.pool - Set(Part(p.ids, p.pos, p.pos + k)))
  }

  lemma RunOfTwo(s: State, e: Step, f: Step, rest: seq<Step>)
    requires Enabled(s, e) && Enabled(Next(s, e), f) && IsRun(Next(Next(s, e), f), rest)
    ensures IsRun(s, [e, f] + rest) && Final(s, [e, f] + rest) == Final(Next(Next(s, e), f), rest)
  {
    var steps := [e, f] + rest;
    assert steps[1..] == [f] + rest && steps[1..][1..] == rest;
  }

  lemma PassOne(s: State, n: string)
    requires n in s.calls && s.calls[n].Releasing? && s.calls[n].Sound() && s.calls[n].pos < s.calls[n].gone
    ensures Enabled(s, UnImported(n)) && Enabled(Next(s, UnImported(n)), Free(n))
    ensures Next(Next(s, UnImported(n)), Free(n)) == Passed(s, n, 1)
  {
    var p := s.calls[n];
    assert s.calls[n := Freeing(p.ids, p.gone, p.pos)][n := Releasing(p.ids, p.gone, p.pos + 1)]
        == s.calls[n := Releasing(p.ids, p.gone, p.pos + 1)];
    assert Part(p.ids, p.pos, p.pos + 1) == [p.ids[p.pos]];
  }

  lemma PartStep(ids: seq<int>, i: nat, k: nat)
    requires 0 < k && i + k <= |ids|
    ensures Set(Part(ids, i, i + k)) == {ids[i]} + Set(Part(ids, i + 1, i + k))
    ensures Part(ids, i, i + 1) == [ids[i]]
  {
    SetFirst(ids[i..i + k]);
    assert ids[i..i + k][1..] == ids[i + 1..i + k];
  }

  lemma PutTwice(s: State, n: string, p: Phase, pool1: set<int>, q: Phase, pool2: set<int>)
    ensures s.Put(n, p).(pool := pool1).Put(n, q).(pool := pool2) == s.Put(n, q).(pool := pool2)
  {
    assert s.calls[n := p][n := q] == s.calls[n := q];
  }

  lemma OutTwice(pool: set<int>, x: int, rest: set<int>)
    ensures pool - {x} - rest == pool - ({x} + rest)
  {
  }

  lemma PassedMore(s: State, n: string, k: nat)
    requires n in s.calls && s.calls[n].Releasing? && s.calls[n].Sound() && 0 < k && s.calls[n].pos + k <= s.calls[n].gone
    ensures Passed(Passed(s, n, 1), n, k - 1) == Passed(s, n, k)
  {
    var p := s.calls[n];
    var q, r := Releasing(p.ids, p.gone, p.pos + 1), Releasing(p.ids, p.gone, p.pos + k);
    var pool1 := s.pool - Set(Part(p.ids, p.pos, p.pos + 1));
    var pool2 := s.pool - Set(Part(p.ids, p.pos, p.pos + k));
    PassedPool(p.ids, p.pos, k, s.pool);
    PutTwice(s, n, q, pool1, r, pool2);
    var t := s.Put(n, q).(pool := pool1);
    assert Passed(s, n, 1) == t && t.calls[n] == q;
    assert Passed(t, n, k - 1) == t.Put(n, r).(pool := pool2);
  }

  lemma PassedPool(ids: seq<int>, i: nat, k: nat, pool: set<int>)
    requires 0 < k && i + k <= |ids|
    ensures pool - Set(Part(ids, i, i + 1)) - Set(Part(ids, i + 1, i + 1 + (k - 1))) == pool - Set(Part(ids, i, i + k))
  {
    PartStep(ids, i, k);
    assert Set([ids[i]]) == {ids[i]};
    OutTwice(pool, ids[i], Set(Part(ids, i + 1, i + k)));
  }

  lemma {:induction false} PassGone(s: State, n: string, k: nat)
    requires n in s.calls && s.calls[n].Releasing? && s.calls[n].Sound() && s.calls[n].pos + k <= s.calls[n].gone
    ensures IsRun(s, Passing(n, k)) && Final(s, Passing(n, k)) == Passed(s, n, k)
    decreases k
  {
    if k == 0 {
      assert s.calls[n := s.calls[n]] == s.calls;
      assert Part(s.calls[n].ids, s.calls[n].pos, s.calls[n].pos) == [];
    } else {
      PassOne(s, n);
      PassGone(Passed(s, n, 1), n, k - 1);
      RunOfTwo(s, UnImported(n), Free(n), Passing(n, k - 1));
      PassedMore(s, n, k);
    }
  }

  ghost function Retry(s: State, n: string): State
    requires n in s.calls && s.calls[n].Held? && s.calls[n].Sound()
  {
    PassGone(Next(s, Release(n)), n, s.calls[n].gone);
    Final(Next(s, Release(n)), Passing(n, s.calls[n].gone))
  }

  /** Trying a failed unimport again takes out, once more, the ids of all entries
      that are gone. It keeps the pool exact if and only if no borrow, this one
      included, claims any of them by then. */
  lemma RetryKeepsPool(s: State, n: string)
    requires Exact(s) && n in s.calls && s.calls[n].Held? && s.calls[n].Sound()
    ensures
      var p := s.calls[n];
      var again := Set(Part(p.ids, 0, p.gone));
      && Retry(s, n).pool == s.pool - again && Claims(Retry(s, n)) == Claims(s)
      && (Exact(Retry(s, n)) <==> again !! Claims(s))
  {
    var p, r := s.calls[n], Retry(s, n);
    PassGone(Next(s, Release(n)), n, p.gone);
    assert s.calls[n := Releasing(p.ids, p.gone, 0)][n := Releasing(p.ids, p.gone, p.gone)]
        == s.calls[n := Releasing(p.ids, p.gone, p.gone)];
    assert r == s.Put(n, Releasing(p.ids, p.gone, p.gone)).(pool := r.pool);
    forall x
      ensures x in Claims(r) <==> x in Claims(s)
    {
      SameElsewhere(s, n, r.calls[n], r.pool, x);
      ClaimsOf(s, n, x);
      ClaimsOf(r, n, x);
    }
    TakeOutExact(s.pool, Set(Part(p.ids, 0, p.gone)));
  }

  lemma TakeOutExact(pool: set<int>, out: set<int>)
    ensures pool - out == pool <==> out !! pool
  {
    if x :| x in out && x in pool {
      assert x !in pool - out;
    }
  }

  // ---- When no step can harm ----

  /** The id that the kernel has given a borrow but the pool does not show yet. */
  ghost function Flying(p: Phase): set<int> {
    match p
    case Moving(_, _, actual) => {actual}
    case Adding(_, actual) => {actual}
    case _ => {}
  }

  /** The ids that a running unimport will take out although it has given them back before. */
  ghost function Threat(p: Phase): set<int> {
    match p
    case Releasing(ids, gone, pos) => Set(Part(ids, pos, gone))
    case Freeing(ids, gone, pos) => Set(Part(ids, pos, gone))
    case _ => {}
  }

  /** The ids of a borrow that are in use. */
  ghost function Uses(p: Phase): seq<int> {
    match p
    case Idle => []
    case Between(added) => added
    case Asking(added, aside) => added + [aside]
    case Moving(added, aside, actual) => added + [aside] + [actual]
    case Adding(added, actual) => added + [actual]
    case Rolling(rest) => rest
    case Held(ids, gone) => From(ids, gone)
    case Releasing(ids, gone, _) => From(ids, gone)
    case Freeing(ids, gone, _) => From(ids, gone)
  }

  /** All ids of a borrow, those given back included. */
  ghost function Listed(p: Phase): seq<int> {
    match p
    case Held(ids, _) => ids
    case Releasing(ids, _, _) => ids
    case Freeing(ids, _, _) => ids
    case _ => Uses(p)
  }

  ghost predicate Distinct(ids: seq<int>) {
    forall i, j :: 0 <= i < j < |ids| ==> ids[i] != ids[j]
  }

  ghost predicate UsedElsewhere(s: State, n: string, x: int) {
    x in s.start || exists m :: m in s.calls && m != n && x in Uses(s.calls[m])
  }

  /** No id is in use twice, or in use while another borrow is about to take it out. */
  ghost predicate Apart(s: State) {
    forall n :: n in s.calls ==>
      && s.calls[n].Sound() && Distinct(Listed(s.calls[n]))
      && (forall x :: x in Uses(s.calls[n]) ==> !UsedElsewhere(s, n, x))
      && (forall x :: x in Threat(s.calls[n]) ==> !UsedElsewhere(s, n, x))
  }

  ghost predicate InFlight(s: State, x: int) {
    exists m :: m in s.calls && x in Flying(s.calls[m])
  }

  ghost predicate Threatened(s: State, x: int) {
    exists m :: m in s.calls && x in Threat(s.calls[m])
  }

  /** Ids are set aside and granted that are neither reserved, nor on their way into
      the pool, nor about to be taken out by a retry; and a retry starts only while
      none of the ids given back is in use elsewhere. */
  ghost predicate Calm(s: State, e: Step)
    requires Enabled(s, e)
  {
    match e
    case Generate(_, id) => !InFlight(s, id) && !Threatened(s, id)
    case Grant(n, id) =>
      id == s.calls[n].aside || id == INVALID_NUMAID
      || (id !in s.pool && !InFlight(s, id) && !Threatened(s, id))
    case Release(n) => forall x :: x in Part(s.calls[n].ids, 0, s.calls[n].gone) ==> !UsedElsewhere(s, n, x)
    case _ => true
  }

  lemma UsesAreClaims(p: Phase)
    ensures forall x :: x in Uses(p) <==> x in Claimed(p) || x in Flying(p)
  {
  }

  /** An id neither in an exact pool nor in flight is not in use. */
  lemma FreeIsUnused(s: State, n: string, x: int)
    requires Exact(s) && n in s.calls && x !in s.pool && !InFlight(s, x)
    ensures !UsedElsewhere(s, n, x) && x !in Uses(s.calls[n])
  {
    forall m | m in s.calls
      ensures x !in Uses(s.calls[m])
    {
      UsesAreClaims(s.calls[m]);
    }
  }

  /** A step leaves the ids of its borrow as they are, adds one behind them, or
      takes one out of them. */
  ghost predicate Rearranged(ids: seq<int>, ids': seq<int>, added: Option<int>) {
    if added.Some? then
      ids' == ids + [added.value]
    else
      (ids' == ids || ids' == []
       || (ids != [] && ids' == ids[1..])
       || (|ids| >= 2 && ids' == ids[..|ids| - 2] + [ids[|ids| - 1]]))
  }

  ghost function BroughtIn(s: State, e: Step): Option<int>
    requires Enabled(s, e)
  {
    match e
    case Generate(_, id) => Some(id)
    case Grant(n, id) => if id == INVALID_NUMAID || id == s.calls[n].aside then None else Some(id)
    case _ => None
  }

  lemma OwnListShape(s: State, e: Step)
    requires Enabled(s, e)
    ensures Rearranged(Listed(s.calls[e.n]), Listed(Next(s, e).calls[e.n]), BroughtIn(s, e))
    ensures Next(s, e).calls[e.n].Sound()
  {
    var p := s.calls[e.n];
    match e {
      case Drop(_) =>
        var uses := Uses(p);
        assert uses[..|uses| - 2] == p.added && uses[|uses| - 1] == p.actual;
      case _ =>
    }
  }

  lemma RearrangedDistinct(ids: seq<int>, ids': seq<int>, added: Option<int>)
    requires Distinct(ids) && Rearranged(ids, ids', added) && (added.Some? ==> added.value !in ids)
    ensures Distinct(ids') && forall x :: x in ids' ==> x in ids || added == Some(x)
  {
  }

  /** What comes into use was in use before or was brought in. */
  lemma OwnUsesGrow(s: State, e: Step)
    requires Enabled(s, e)
    ensures forall x :: x in Uses(Next(s, e).calls[e.n]) ==> x in Uses(s.calls[e.n]) || BroughtIn(s, e) == Some(x)
  {
    var p := s.calls[e.n];
    match e {
      case Free(_) => assert forall x :: x in From(p.ids, Max(p.gone, p.pos + 1)) ==> x in From(p.ids, p.gone);
      case Stop(_) => assert p.Between? ==> From(p.added, 0) == p.added;
      case _ =>
    }
  }

  lemma OwnThreatGrows(s: State, e: Step)
    requires Enabled(s, e)
    ensures forall x :: x in Threat(Next(s, e).calls[e.n]) ==>
      x in Threat(s.calls[e.n]) || (e.Release? && x in Part(s.calls[e.n].ids, 0, s.calls[e.n].gone))
  {
    var p := s.calls[e.n];
    match e {
      case Free(_) =>
        assert Part(p.ids, p.pos + 1, Max(p.gone, p.pos + 1)) == if p.pos < p.gone then Part(p.ids, p.pos, p.gone)[1..] else [];
      case Skip(_) => assert Part(p.ids, p.pos + 1, p.gone) == Part(p.ids, p.pos, p.gone)[1..];
      case _ =>
    }
  }

  /** A calm step leaves its borrow with ids it had or with one nobody uses. */
  lemma OwnUses(s: State, e: Step)
    requires Exact(s) && Apart(s) && Enabled(s, e) && Calm(s, e)
    ensures
      var p' := Next(s, e).calls[e.n];
      && p'.Sound() && Distinct(Listed(p'))
      && (forall x :: x in Uses(p') ==> !UsedElsewhere(s, e.n, x))
      && (forall x :: x in Threat(p') ==> !UsedElsewhere(s, e.n, x))
      && (forall x :: x in Uses(p') ==> x in Uses(s.calls[e.n]) || !Threatened(s, x))
  {
    var added := BroughtIn(s, e);
    if added.Some? {
      FreeIsUnused(s, e.n, added.value);
    }
    OwnListShape(s, e);
    RearrangedDistinct(Listed(s.calls[e.n]), Listed(Next(s, e).calls[e.n]), added);
    OwnUsesGrow(s, e);
    OwnThreatGrows(s, e);
  }

  lemma SameUsesElsewhere(s: State, n: string, p: Phase, pool: set<int>, m: string, x: int)
    requires n in s.calls && m in s.calls
    ensures m == n ==> (UsedElsewhere(s.Put(n, p).(pool := pool), m, x) == UsedElsewhere(s, m, x))
    ensures m != n ==> (UsedElsewhere(s.Put(n, p).(pool := pool), m, x) ==> UsedElsewhere(s, m, x) || x in Uses(p))
  {
    var s' := s.Put(n, p).(pool := pool);
    assert forall k :: k in s'.calls && k != n ==> s'.calls[k] == s.calls[k];
    assert forall k :: k in s.calls && k != n ==> s'.calls[k] == s.calls[k];
  }

  lemma CalmKeepsApart(s: State, e: Step)
    requires Exact(s) && Apart(s) && Enabled(s, e) && Calm(s, e)
    ensures Apart(Next(s, e))
  {
    var s', n := Next(s, e), e.n;
    OwnUses(s, e);
    forall m, x | m in s'.calls && (x in Uses(s'.calls[m]) || x in Threat(s'.calls[m]))
      ensures !UsedElsewhere(s', m, x)
    {
      SameUsesElsewhere(s, n, s'.calls[n], s'.pool, m, x);
      if m != n {
        assert s'.calls[m] == s.calls[m] && !UsedElsewhere(s, m, x);
        if x in Uses(s'.calls[n]) {
          if x in Uses(s.calls[m]) {
            assert UsedElsewhere(s, n, x);
          } else {
            assert Threatened(s, x);
          }
        }
      }
    }
  }

  /** With every id in use once, no step takes out an id that is still claimed. */
  lemma ApartIsHarmless(s: State, e: Step)
    requires Exact(s) && Apart(s) && Enabled(s, e)
    ensures !Harms(s, e)
  {
    var s', n := Next(s, e), e.n;
    if TakenOut(s, e).Some? {
      var x := TakenOut(s, e).value;
      OutIsOwn(s, e);
      OutIsOut(s, e);
      SameElsewhere(s, n, s'.calls[n], s'.pool, x);
      ClaimsOf(s', n, x);
      ClaimedIsUsed(s, n, x);
    }
  }

  lemma ClaimedIsUsed(s: State, n: string, x: int)
    ensures ClaimedElsewhere(s, n, x) ==> UsedElsewhere(s, n, x)
  {
    if m :| m in s.calls && m != n && x in Claimed(s.calls[m]) {
      UsesAreClaims(s.calls[m]);
    }
  }

  lemma OutIsOwn(s: State, e: Step)
    requires Enabled(s, e) && TakenOut(s, e).Some?
    ensures TakenOut(s, e).value in Uses(s.calls[e.n]) || TakenOut(s, e).value in Threat(s.calls[e.n])
  {
    var p := s.calls[e.n];
    match e {
      case Drop(_) => assert Uses(p)[|p.added|] == p.aside;
      case Free(_) =>
        if p.pos == p.gone {
          assert From(p.ids, p.gone)[0] == p.ids[p.pos];
        } else {
          assert Part(p.ids, p.pos, p.gone)[0] == p.ids[p.pos];
        }
      case _ =>
    }
  }

  lemma OutIsOut(s: State, e: Step)
    requires Enabled(s, e) && Distinct(Listed(s.calls[e.n])) && TakenOut(s, e).Some?
    ensures TakenOut(s, e).value !in Claimed(Next(s, e).calls[e.n])
  {
    var p := s.calls[e.n];
    match e {
      case Drop(_) =>
        forall i | 0 <= i < |p.added|
          ensures p.added[i] != p.aside
        {
          assert Uses(p)[i] == p.added[i] && Uses(p)[|p.added|] == p.aside;
        }
      case RollOne(_) => NotInRest(p.rest, 0, 1);
      case Free(_) => NotInRest(p.ids, p.pos, Max(p.gone, p.pos + 1));
    }
  }

  lemma NotInRest(ids: seq<int>, i: nat, k: nat)
    requires Distinct(ids) && i < k <= |ids|
    ensures ids[i] !in ids[k..]
  {
    forall j | 0 <= j < |ids[k..]|
      ensures ids[k..][j] != ids[i]
    {
      assert ids[k..][j] == ids[k + j];
    }
  }

  ghost predicate CalmRun(s: State, steps: seq<Step>)
    requires IsRun(s, steps)
    decreases |steps|
  {
    steps != [] ==> Calm(s, steps[0]) && CalmRun(Next(s, steps[0]), steps[1..])
  }

  /** In every interleaving of calm steps, from a state where every id is in use
      once, the pool is exact in all states. */
  lemma {:induction false} CalmRunsAreExact(s: State, steps: seq<Step>)
    requires Exact(s) && Apart(s) && IsRun(s, steps) && CalmRun(s, steps)
    ensures AlwaysExact(s, steps)
    decreases |steps|
  {
    if steps != [] {
      ApartIsHarmless(s, steps[0]);
      StepKeepsExact(s, steps[0]);
      CalmKeepsApart(s, steps[0]);
      CalmRunsAreExact(Next(s, steps[0]), steps[1..]);
    }
  }

  // ---- What every other step makes possible ----

  /** Some run of calm steps from here loses an id that is in use. */
  ghost predicate CanLose(s: State) {
    exists steps :: IsRun(s, steps) && CalmRun(s, steps) && !AlwaysExact(s, steps)
  }

  lemma NotExactLoses(s: State)
    requires !Exact(s)
    ensures CanLose(s)
  {
    assert IsRun(s, []) && CalmRun(s, []) && !AlwaysExact(s, []);
  }

  lemma Prepend(s: State, e: Step)
    requires Enabled(s, e) && Calm(s, e) && CanLose(Next(s, e))
    ensures CanLose(s)
  {
    var rest :| IsRun(Next(s, e), rest) && CalmRun(Next(s, e), rest) && !AlwaysExact(Next(s, e), rest);
    var steps := [e] + rest;
    assert steps[1..] == rest;
    assert IsRun(s, steps) && CalmRun(s, steps) && !AlwaysExact(s, steps);
  }

  /** The id of entry k is claimed by another borrow or by a later entry of the list. */
  ghost predicate ClaimedTwice(s: State, n: string, ids: seq<int>, gone: nat, k: nat)
    requires k < |ids|
  {
    ClaimedElsewhere(s, n, ids[k]) || exists j :: k < j < |ids| && gone <= j && ids[j] == ids[k]
  }

  lemma FreeStep(s: State, n: string)
    requires n in s.calls && s.calls[n].Freeing? && s.calls[n].Sound()
    ensures
      var p, s' := s.calls[n], Next(s, Free(n));
      && s' == s.Put(n, Releasing(p.ids, Max(p.gone, p.pos + 1), p.pos + 1)).(pool := s.pool - {p.ids[p.pos]})
      && s'.calls[n].Sound()
      && forall k: nat :: p.pos <= k < |p.ids| && ClaimedTwice(s, n, p.ids, p.gone, k) ==>
           if k == p.pos then !Exact(s') else ClaimedTwice(s', n, p.ids, Max(p.gone, p.pos + 1), k)
  {
    var p, s' := s.calls[n], Next(s, Free(n));
    forall k: nat | p.pos <= k < |p.ids| && ClaimedTwice(s, n, p.ids, p.gone, k)
      ensures if k == p.pos then !Exact(s') else ClaimedTwice(s', n, p.ids, Max(p.gone, p.pos + 1), k)
    {
      SameElsewhere(s, n, s'.calls[n], s'.pool, p.ids[k]);
      if k == p.pos {
        ClaimsOf(s', n, p.ids[k]);
        LaterIsClaimed(s, n, p.ids, p.gone, k);
      }
    }
  }

  lemma LaterIsClaimed(s: State, n: string, ids: seq<int>, gone: nat, k: nat)
    requires k <= gone <= |ids| && k < |ids| && ClaimedTwice(s, n, ids, gone, k)
    ensures ClaimedElsewhere(s, n, ids[k]) || ids[k] in From(ids, Max(gone, k + 1))
  {
    if j :| k < j < |ids| && gone <= j && ids[j] == ids[k] {
      var later := From(ids, Max(gone, k + 1));
      assert later[j - Max(gone, k + 1)] == ids[j];
    }
  }

  /** A running unimport that gets to an id claimed twice loses it. */
  lemma {:induction false} DrainLoses(s: State, n: string, k: nat)
    requires n in s.calls && s.calls[n].Releasing? && s.calls[n].Sound()
    requires s.calls[n].pos <= k < |s.calls[n].ids| && ClaimedTwice(s, n, s.calls[n].ids, s.calls[n].gone, k)
    ensures CanLose(s)
    decreases k - s.calls[n].pos
  {
    var p := s.calls[n];
    var s1 := Next(s, UnImported(n));
    SameElsewhere(s, n, s1.calls[n], s1.pool, p.ids[k]);
    assert s1 == s.Put(n, Freeing(p.ids, p.gone, p.pos)).(pool := s1.pool);
    FreeStep(s1, n);
    var s2 := Next(s1, Free(n));
    assert ClaimedTwice(s1, n, p.ids, p.gone, k);
    if k == p.pos {
      NotExactLoses(s2);
    } else {
      DrainLoses(s2, n, k);
    }
    Prepend(s1, Free(n));
    Prepend(s, UnImported(n));
  }

  lemma DrainOnLoses(s: State, n: string, k: nat)
    requires n in s.calls && s.calls[n].Freeing? && s.calls[n].Sound()
    requires s.calls[n].pos <= k < |s.calls[n].ids| && ClaimedTwice(s, n, s.calls[n].ids, s.calls[n].gone, k)
    ensures CanLose(s)
  {
    FreeStep(s, n);
    var s' := Next(s, Free(n));
    if k == s.calls[n].pos {
      NotExactLoses(s');
    } else {
      DrainLoses(s', n, k);
    }
    Prepend(s, Free(n));
  }

  lemma ThreatEntry(p: Phase, x: int) returns (k: nat)
    requires p.Sound() && x in Threat(p)
    ensures (p.Releasing? || p.Freeing?) && p.pos <= k < p.gone <= |p.ids| && p.ids[k] == x
  {
    var part := Part(p.ids, p.pos, p.gone);
    var i :| 0 <= i < |part| && part[i] == x;
    k := p.pos + i;
  }

  /** A threatened id that another borrow claims by now is lost. */
  lemma ThreatLoses(s: State, m: string, x: int)
    requires m in s.calls && s.calls[m].Sound() && x in Threat(s.calls[m]) && ClaimedElsewhere(s, m, x)
    ensures CanLose(s)
  {
    var k := ThreatEntry(s.calls[m], x);
    if s.calls[m].Releasing? {
      DrainLoses(s, m, k);
    } else {
      DrainOnLoses(s, m, k);
    }
  }

  /** A rollback that gets to an id claimed elsewhere loses it. */
  lemma {:induction false} RollLoses(s: State, n: string, k: nat)
    requires n in s.calls && s.calls[n].Rolling? && k < |s.calls[n].rest| && ClaimedElsewhere(s, n, s.calls[n].rest[k])
    ensures CanLose(s)
    decreases k
  {
    var rest, s' := s.calls[n].rest, Next(s, RollOne(n));
    SameElsewhere(s, n, s'.calls[n], s'.pool, rest[k]);
    if k == 0 {
      ClaimsOf(s', n, rest[0]);
      NotExactLoses(s');
    } else {
      assert s'.calls[n].rest[k - 1] == rest[k];
      RollLoses(s', n, k - 1);
    }
    Prepend(s, RollOne(n));
  }

  /** An id in flight can land. */
  lemma Land(s: State, m: string, x: int) returns (s': State)
    requires m in s.calls && x in Flying(s.calls[m])
    ensures s' == s.Put(m, Between(s.calls[m].added + [x])).(pool := s'.pool)
    ensures x in Claimed(s'.calls[m])
    ensures CanLose(s') ==> CanLose(s)
  {
    var p := s.calls[m];
    var s1 := if p.Moving? then Next(s, Drop(m)) else s;
    s' := Next(s1, Add(m));
    assert s.calls[m := Adding(p.added, x)][m := Between(p.added + [x])] == s.calls[m := Between(p.added + [x])];
    assert (p.added + [x])[|p.added|] == x;
    if CanLose(s') {
      Prepend(s1, Add(m));
      if p.Moving? {
        Prepend(s, Drop(m));
      }
    }
  }

  /** An import can return and its unimport begin. */
  lemma Settle(s: State, n: string) returns (s': State)
    requires n in s.calls && s.calls[n].Between?
    ensures s' == s.Put(n, Releasing(s.calls[n].added, 0, 0)).(pool := s'.pool)
    ensures CanLose(s') ==> CanLose(s)
  {
    var added := s.calls[n].added;
    var s1 := Next(s, Stop(n));
    s' := Next(s1, Release(n));
    assert s.calls[n := Held(added, 0)][n := Releasing(added, 0, 0)] == s.calls[n := Releasing(added, 0, 0)];
    if CanLose(s') {
      Prepend(s1, Release(n));
      Prepend(s, Stop(n));
    }
  }

  /** An import that has just taken x in and shares it loses it. */
  lemma SharedLoses(s: State, n: string, k: nat)
    requires n in s.calls && s.calls[n].Between? && k < |s.calls[n].added|
    requires ClaimedTwice(s, n, s.calls[n].added, 0, k)
    ensures CanLose(s)
  {
    var added := s.calls[n].added;
    var s' := Settle(s, n);
    SameElsewhere(s, n, s'.calls[n], s'.pool, added[k]);
    DrainLoses(s', n, k);
  }

  /** An import that has set aside what another borrow holds loses it when it is refused. */
  lemma SharedAsideLoses(s: State, n: string)
    requires n in s.calls && s.calls[n].Asking? && ClaimedElsewhere(s, n, s.calls[n].aside)
    ensures CanLose(s)
  {
    var p, s' := s.calls[n], Next(s, Refuse(n));
    SameElsewhere(s, n, s'.calls[n], s'.pool, p.aside);
    assert s'.calls[n].rest[|p.added|] == p.aside;
    RollLoses(s', n, |p.added|);
    Prepend(s, Refuse(n));
  }

  lemma BadGenerate(s: State, n: string, id: int)
    requires Apart(s) && Enabled(s, Generate(n, id)) && !Calm(s, Generate(n, id))
    ensures CanLose(Next(s, Generate(n, id)))
  {
    var s1 := Next(s, Generate(n, id));
    if InFlight(s, id) {
      var m :| m in s.calls && id in Flying(s.calls[m]);
      var s2 := Land(s1, m, id);
      assert m != n && s2.calls[n] == s1.calls[n];
      SharedAsideLoses(s2, n);
    } else {
      var m :| m in s.calls && id in Threat(s.calls[m]);
      assert s1.calls[m] == s.calls[m] && id in Claimed(s1.calls[n]);
      ThreatLoses(s1, m, id);
    }
  }

  lemma BadGrant(s: State, n: string, x: int)
    requires Exact(s) && Apart(s) && Enabled(s, Grant(n, x)) && !Calm(s, Grant(n, x))
    ensures CanLose(Next(s, Grant(n, x)))
  {
    var added, s1 := s.calls[n].added, Next(s, Grant(n, x));
    var s2 := Land(s1, n, x);
    assert s2.calls == s.calls[n := Between(added + [x])];
    assert s2 == s.Put(n, Between(added + [x])).(pool := s2.pool);
    SameElsewhere(s, n, s2.calls[n], s2.pool, x);
    assert (added + [x])[|added|] == x;
    if x in s.pool {
      ClaimsOf(s, n, x);
      if ClaimedElsewhere(s, n, x) {
        SharedLoses(s2, n, |added|);
      } else {
        var i :| 0 <= i < |added| && added[i] == x;
        assert (added + [x])[i] == x;
        SharedLoses(s2, n, i);
      }
    } else if InFlight(s, x) {
      var m :| m in s.calls && x in Flying(s.calls[m]);
      var s3 := Land(s2, m, x);
      assert ClaimedElsewhere(s3, n, x) && s3.calls[n] == s2.calls[n];
      SharedLoses(s3, n, |added|);
    } else {
      var m :| m in s.calls && x in Threat(s.calls[m]);
      assert s2.calls[m] == s.calls[m] && x in Claimed(s2.calls[n]);
      ThreatLoses(s2, m, x);
    }
  }

  lemma BadRelease(s: State, n: string)
    requires Enabled(s, Release(n)) && !Calm(s, Release(n))
    ensures CanLose(Next(s, Release(n)))
  {
    var p, s1 := s.calls[n], Next(s, Release(n));
    var part := Part(p.ids, 0, p.gone);
    var x :| x in part && UsedElsewhere(s, n, x);
    var k :| 0 <= k < |part| && part[k] == x;
    SameElsewhere(s, n, s1.calls[n], s1.pool, x);
    if ClaimedElsewhere(s, n, x) {
      DrainLoses(s1, n, k);
    } else {
      var m :| m in s.calls && m != n && x in Uses(s.calls[m]);
      UsesAreClaims(s.calls[m]);
      var s2 := Land(s1, m, x);
      assert ClaimedElsewhere(s2, n, x) && s2.calls[n] == s1.calls[n];
      DrainLoses(s2, n, k);
    }
  }

  /** The exact condition, to be checked before a step: from an exact state in which
      every id is in use once, a step is calm if and only if no run of calm steps
      after it loses an id that is in use. */
  lemma CalmIsNeeded(s: State, e: Step)
    requires Exact(s) && Apart(s) && Enabled(s, e)
    ensures Calm(s, e) <==> !CanLose(Next(s, e))
  {
    if Calm(s, e) {
      ApartIsHarmless(s, e);
      StepKeepsExact(s, e);
      CalmKeepsApart(s, e);
      forall steps | IsRun(Next(s, e), steps) && CalmRun(Next(s, e), steps)
        ensures AlwaysExact(Next(s, e), steps)
      {
        CalmRunsAreExact(Next(s, e), steps);
      }
    } else {
      match e {
        case Generate(n, id) => BadGenerate(s, n, id);
        case Grant(n, id) => BadGrant(s, n, id);
        case Release(n) => BadRelease(s, n);
      }
    }
  }

  // ---- A run that goes wrong ----

  /** Every id granted is unreserved when the kernel grants it. */
  ghost predicate GrantsUnreserved(s: State, steps: seq<Step>)
    requires IsRun(s, steps)
    decreases |steps|
  {
    steps != [] ==>
      && (steps[0].Grant? ==> steps[0].id !in s.pool || steps[0].id == s.calls[steps[0].n].aside)
      && GrantsUnreserved(Next(s, steps[0]), steps[1..])
  }

  /** The kernel gives one import id 35 for the 34 set aside. Before the import
      has noted that, a second one sets 35 aside, is given 36 instead, and takes 35
      out of the pool, which by then is the first one's. */
  function ClashAct(k: nat): Step
    requires k < 9
  {
    match k
    case 0 => Begin("a")
    case 1 => Generate("a", 34)
    case 2 => Grant("a", 35)
    case 3 => Begin("b")
    case 4 => Generate("b", 35)
    case 5 => Drop("a")
    case 6 => Add("a")
    case 7 => Grant("b", 36)
    case 8 => Drop("b")
  }

  function ClashRest(k: nat): seq<Step>
    requires k <= 9
    decreases 9 - k
  {
    if k == 9 then [] else [ClashAct(k)] + ClashRest(k + 1)
  }

  ghost function Clash(pool: set<int>, a: Phase, b: Phase): State {
    State({}, pool, map["a" := a, "b" := b])
  }

  ghost function ClashState(k: nat): State
    requires k <= 9
  {
    match k
    case 0 => Clash({}, Idle, Idle)
    case 1 => Clash({}, Between([]), Idle)
    case 2 => Clash({34}, Asking([], 34), Idle)
    case 3 => Clash({34}, Moving([], 34, 35), Idle)
    case 4 => Clash({34}, Moving([], 34, 35), Between([]))
    case 5 => Clash({34, 35}, Moving([], 34, 35), Asking([], 35))
    case 6 => Clash({35}, Adding([], 35), Asking([], 35))
    case 7 => Clash({35}, Between([35]), Asking([], 35))
    case 8 => Clash({35}, Between([35]), Moving([], 35, 36))
    case 9 => Clash({}, Between([35]), Adding([], 36))
  }

  lemma ClashStep(k: nat)
    requires k < 9
    ensures Enabled(ClashState(k), ClashAct(k)) && Next(ClashState(k), ClashAct(k)) == ClashState(k + 1)
    ensures ClashAct(k).Grant? ==> ClashAct(k).id !in ClashState(k).pool
  {
    assert [] + [35] == [35];
  }

  lemma {:induction false} ClashFrom(k: nat)
    requires k <= 9
    ensures IsRun(ClashState(k), ClashRest(k)) && GrantsUnreserved(ClashState(k), ClashRest(k))
    ensures !AlwaysExact(ClashState(k), ClashRest(k))
    decreases 9 - k
  {
    if k < 9 {
      ClashStep(k);
      ClashFrom(k + 1);
      assert ClashRest(k)[0] == ClashAct(k) && ClashRest(k)[1..] == ClashRest(k + 1);
    } else {
      var s := ClashState(9);
      assert 35 in [35] && 35 in Claimed(s.calls["a"]) && 35 in Claims(s);
    }
  }

  lemma ClashStart()
    ensures Exact(ClashState(0)) && Apart(ClashState(0))
  {
    assert Claims(ClashState(0)) == {};
  }

  /** So unreserved grants are not enough: from an empty, exact pool in which nothing
      is in use, this run ends with an id in use that the pool does not show. */
  lemma UnreservedGrantsCanClash() returns (s: State, steps: seq<Step>)
    ensures s.start == s.pool == {} && Exact(s) && Apart(s)
    ensures IsRun(s, steps) && GrantsUnreserved(s, steps) && !AlwaysExact(s, steps)
  {
    ClashStart();
    ClashFrom(0);
    s, steps := ClashState(0), ClashRest(0);
  }

  // ---- Another one, without any interleaving ----

  /** One import is granted 34 and 35. Its unimport gives 34 back and fails at 35.
      A second import is granted 34. The first unimport is tried again. */
  function RetryAct(k: nat): Step
    requires k < 17
  {
    match k
    case 0 => Begin("a")
    case 1 => Generate("a", 34)
    case 2 => Grant("a", 34)
    case 3 => Generate("a", 35)
    case 4 => Grant("a", 35)
    case 5 => Stop("a")
    case 6 => Release("a")
    case 7 => UnImported("a")
    case 8 => Free("a")
    case 9 => Finish("a")
    case 10 => Begin("b")
    case 11 => Generate("b", 34)
    case 12 => Grant("b", 34)
    case 13 => Stop("b")
    case 14 => Release("a")
    case 15 => UnImported("a")
    case 16 => Free("a")
  }

  function RetryRest(k: nat): seq<Step>
    requires k <= 17
    decreases 17 - k
  {
    if k == 17 then [] else [RetryAct(k)] + RetryRest(k + 1)
  }

  ghost function RetryState(k: nat): State
    requires k <= 17
  {
    match k
    case 0 => Clash({}, Idle, Idle)
    case 1 => Clash({}, Between([]), Idle)
    case 2 => Clash({34}, Asking([], 34), Idle)
    case 3 => Clash({34}, Between([34]), Idle)
    case 4 => Clash({34, 35}, Asking([34], 35), Idle)
    case 5 => Clash({34, 35}, Between([34, 35]), Idle)
    case 6 => Clash({34, 35}, Held([34, 35], 0), Idle)
    case 7 => Clash({34, 35}, Releasing([34, 35], 0, 0), Idle)
    case 8 => Clash({34, 35}, Freeing([34, 35], 0, 0), Idle)
    case 9 => Clash({35}, Releasing([34, 35], 1, 1), Idle)
    case 10 => Clash({35}, Held([34, 35], 1), Idle)
    case 11 => Clash({35}, Held([34, 35], 1), Between([]))
    case 12 => Clash({34, 35}, Held([34, 35], 1), Asking([], 34))
    case 13 => Clash({34, 35}, Held([34, 35], 1), Between([34]))
    case 14 => Clash({34, 35}, Held([34, 35], 1), Held([34], 0))
    case 15 => Clash({34, 35}, Releasing([34, 35], 1, 0), Held([34], 0))
    case 16 => Clash({34, 35}, Freeing([34, 35], 1, 0), Held([34], 0))
    case 17 => Clash({35}, Releasing([34, 35], 1, 1), Held([34], 0))
  }

  /** No call runs while another borrow's call does, and the kernel always grants
      the id set aside. */
  ghost predicate Plain(s: State, e: Step)
    requires Enabled(s, e)
  {
    && (e.Grant? ==> e.id == s.calls[e.n].aside)
    && forall m :: m in s.calls && m != e.n ==> s.calls[m].Idle? || s.calls[m].Held?
  }

  ghost predicate PlainRun(s: State, steps: seq<Step>)
    requires IsRun(s, steps)
    decreases |steps|
  {
    steps != [] ==> Plain(s, steps[0]) && PlainRun(Next(s, steps[0]), steps[1..])
  }

  ghost predicate Leads(k: nat)
    requires k < 17
  {
    && Enabled(RetryState(k), RetryAct(k)) && Next(RetryState(k), RetryAct(k)) == RetryState(k + 1)
    && Plain(RetryState(k), RetryAct(k))
  }

  lemma FirstEntry(k: nat)
    requires k < 3
    ensures Leads(k)
  {
    assert [] + [34] == [34];
  }

  lemma SecondEntry(k: nat)
    requires 3 <= k < 6
    ensures Leads(k)
  {
    assert [34] + [35] == [34, 35];
  }

  lemma FirstUnImport(k: nat)
    requires 6 <= k < 10
    ensures Leads(k)
  {
  }

  lemma SecondImport(k: nat)
    requires 10 <= k < 14
    ensures Leads(k)
  {
    assert [] + [34] == [34];
  }

  lemma SecondUnImport(k: nat)
    requires 14 <= k < 17
    ensures Leads(k)
  {
  }

  lemma RetryStep(k: nat)
    requires k < 17
    ensures Leads(k)
  {
    if k < 3 {
      FirstEntry(k);
    } else if k < 6 {
      SecondEntry(k);
    } else if k < 10 {
      FirstUnImport(k);
    } else if k < 14 {
      SecondImport(k);
    } else {
      SecondUnImport(k);
    }
  }

  lemma PlainPrepend(s: State, e: Step, rest: seq<Step>)
    requires Enabled(s, e) && Plain(s, e) && IsRun(Next(s, e), rest) && PlainRun(Next(s, e), rest)
    requires !AlwaysExact(Next(s, e), rest)
    ensures IsRun(s, [e] + rest) && PlainRun(s, [e] + rest) && !AlwaysExact(s, [e] + rest)
  {
    assert ([e] + rest)[1..] == rest;
  }

  lemma HeldIsClaimed(s: State, n: string, x: int)
    requires n in s.calls && s.calls[n] == Held([x], 0) && x !in s.pool
    ensures !Exact(s)
  {
    assert From([x], 0) == [x];
    ClaimsOf(s, n, x);
  }

  lemma RetryEnd()
    ensures !Exact(RetryState(17))
  {
    HeldIsClaimed(RetryState(17), "b", 34);
  }

  lemma {:induction false} RetryFrom(k: nat)
    requires k <= 17
    ensures IsRun(RetryState(k), RetryRest(k)) && PlainRun(RetryState(k), RetryRest(k))
    ensures !AlwaysExact(RetryState(k), RetryRest(k))
    decreases 17 - k
  {
    if k == 17 {
      RetryEnd();
    } else {
      RetryStep(k);
      RetryFrom(k + 1);
      PlainPrepend(RetryState(k), RetryAct(k), RetryRest(k + 1));
    }
  }

  /** So calls one after the other, each granted what it set aside, are not enough
      either: a retry can take out an id that another borrow has been given since. */
  lemma RetriesCanClash() returns (s: State, steps: seq<Step>)
    ensures s.start == s.pool == {} && Exact(s) && Apart(s)
    ensures IsRun(s, steps) && PlainRun(s, steps) && !AlwaysExact(s, steps)
  {
    ClashStart();
    RetryFrom(0);
    s, steps := RetryState(0), RetryRest(0);
  }
}

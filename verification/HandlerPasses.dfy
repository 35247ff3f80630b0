/**
 The handler result cache of the RAS module. A fault may be reported many times
 under one message id; every report makes a pass over the registered handlers,
 and a handler that has succeeded for the id is not run for it again.
 */
module HandlerPasses {

  const UBSE_OK := 0

  /** The records of one message id: handler name to last return code. */
  type Records = map<string, nat>

  /** IsHandlerDone */
  predicate Done(rec: Records, h: string) {
    h in rec && rec[h] == UBSE_OK
  }

  ghost predicate AllOk(rec: Records) {
    forall h :: h in rec ==> rec[h] == UBSE_OK
  }

  ghost predicate Distinct(order: seq<string>) {
    forall i, j :: 0 <= i < j < |order| ==> order[i] != order[j]
  }

  /** One pass over the handlers in registration order, where outcome[i] is what
      the i-th handler returns if it is called: the new records and the names called. */
  function Pass(order: seq<string>, outcome: seq<nat>, rec: Records): (r: (Records, seq<string>))
    requires |order| == |outcome|
  {
    if order == [] then (rec, [])
    else if Done(rec, order[0]) then Pass(order[1..], outcome[1..], rec)
    else
      var (rec', ran) := Pass(order[1..], outcome[1..], rec[order[0] := outcome[0]]);
      (rec', [order[0]] + ran)
  }

  /** The handlers with no recorded success, in registration order. */
  function Outstanding(order: seq<string>, rec: Records): seq<string> {
    if order == [] then []
    else (if Done(rec, order[0]) then [] else [order[0]]) + Outstanding(order[1..], rec)
  }

  lemma {:induction false} OutstandingIgnores(order: seq<string>, rec: Records, h: string, code: nat)
    requires h !in order
    ensures Outstanding(order, rec[h := code]) == Outstanding(order, rec)
  {
    if order != [] {
      OutstandingIgnores(order[1..], rec, h, code);
    }
  }

  /** A pass calls exactly the handlers with no recorded success, each once and
      in order; it records what they returned and touches nothing else. */
  lemma {:induction false} PassRunsOutstanding(order: seq<string>, outcome: seq<nat>, rec: Records)
    requires |order| == |outcome| && Distinct(order)
    ensures Pass(order, outcome, rec).1 == Outstanding(order, rec)
    ensures Pass(order, outcome, rec).0.Keys == rec.Keys + set h | h in order
    ensures forall h :: h in rec && h !in order ==> Pass(order, outcome, rec).0[h] == rec[h]
    ensures forall i :: 0 <= i < |order| ==>
      Pass(order, outcome, rec).0[order[i]] == if Done(rec, order[i]) then UBSE_OK else outcome[i]
  {
    if order != [] {
      var h, rest := order[0], order[1..];
      assert order == [h] + rest;
      assert h !in rest;
      var rec1 := if Done(rec, h) then rec else rec[h := outcome[0]];
      PassRunsOutstanding(rest, outcome[1..], rec1);
      OutstandingIgnores(rest, rec, h, outcome[0]);
      forall i | 0 <= i < |order|
        ensures Pass(order, outcome, rec).0[order[i]] == if Done(rec, order[i]) then UBSE_OK else outcome[i]
      {
        if i > 0 {
          assert order[i] == rest[i - 1] && outcome[i] == outcome[1..][i - 1];
        }
      }
    }
  }

  /** A pass can be cut after any handler. */
  lemma {:induction false} PassExtend(order: seq<string>, outcome: seq<nat>, rec: Records, h: string, code: nat)
    requires |order| == |outcome|
    ensures
      var (r, ran) := Pass(order, outcome, rec);
      Pass(order + [h], outcome + [code], rec)
        == if Done(r, h) then (r, ran) else (r[h := code], ran + [h])
  {
    if order == [] {
      assert order + [h] == [h] && outcome + [code] == [code];
      var rec1 := if Done(rec, h) then rec else rec[h := code];
      assert Pass([h][1..], [code][1..], rec1) == (rec1, []);
      assert [h] + [] == [] + [h] == [h];
      assert order == [] && outcome == [];
    } else {
      var rec1 := if Done(rec, order[0]) then rec else rec[order[0] := outcome[0]];
      PassExtend(order[1..], outcome[1..], rec1, h, code);
      assert (order + [h])[0] == order[0] && (outcome + [code])[0] == outcome[0];
      assert (order + [h])[1..] == order[1..] + [h] && (outcome + [code])[1..] == outcome[1..] + [code];
      var ran := Pass(order[1..], outcome[1..], rec1).1;
      assert [order[0]] + (ran + [h]) == ([order[0]] + ran) + [h];
    }
  }

  /** The records after the first k of several passes over a fixed registration. */
  function After(order: seq<string>, passes: seq<seq<nat>>, k: nat): (rec: Records)
    requires k <= |passes| && forall p :: 0 <= p < |passes| ==> |passes[p]| == |order|
  {
    if k == 0 then map[] else Pass(order, passes[k - 1], After(order, passes, k - 1)).0
  }

  /** The i-th handler would have returned success in one of the first k passes. */
  ghost predicate SucceededBy(passes: seq<seq<nat>>, k: nat, i: nat)
    requires k <= |passes| && forall p :: 0 <= p < k ==> i < |passes[p]|
  {
    exists p :: 0 <= p < k && passes[p][i] == UBSE_OK
  }

  /** In closed form over the whole history of one message id: the i-th handler
      is on record as successful after k passes exactly when one of those
      passes saw it succeed. */
  lemma {:induction false} SuccessIsFinal(order: seq<string>, passes: seq<seq<nat>>, k: nat, i: nat)
    requires k <= |passes| && forall p :: 0 <= p < |passes| ==> |passes[p]| == |order|
    requires Distinct(order) && i < |order|
    ensures Done(After(order, passes, k), order[i]) <==> SucceededBy(passes, k, i)
  {
    if k > 0 {
      SuccessIsFinal(order, passes, k - 1, i);
      PassRunsOutstanding(order, passes[k - 1], After(order, passes, k - 1));
    }
  }

  lemma {:induction false} AllOnRecord(order: seq<string>, passes: seq<seq<nat>>, k: nat)
    requires 0 < k <= |passes| && forall p :: 0 <= p < |passes| ==> |passes[p]| == |order|
    requires Distinct(order)
    ensures After(order, passes, k).Keys == set h | h in order
  {
    if k > 1 {
      AllOnRecord(order, passes, k - 1);
    }
    PassRunsOutstanding(order, passes[k - 1], After(order, passes, k - 1));
  }

  lemma {:induction false} OutstandingMember(order: seq<string>, rec: Records, h: string)
    ensures h in Outstanding(order, rec) <==> h in order && !Done(rec, h)
  {
    if order != [] {
      OutstandingMember(order[1..], rec, h);
      assert order == [order[0]] + order[1..];
    }
  }

  /** Pass number k calls the i-th handler exactly when no earlier pass saw it
      succeed; so no handler succeeds twice for one message id. */
  lemma CalledUntilSuccess(order: seq<string>, passes: seq<seq<nat>>, k: nat, i: nat)
    requires k < |passes| && forall p :: 0 <= p < |passes| ==> |passes[p]| == |order|
    requires Distinct(order) && i < |order|
    ensures order[i] in Pass(order, passes[k], After(order, passes, k)).1 <==> !SucceededBy(passes, k, i)
  {
    SuccessIsFinal(order, passes, k, i);
    PassRunsOutstanding(order, passes[k], After(order, passes, k));
    OutstandingMember(order, After(order, passes, k), order[i]);
  }

  /** The k-th pass reports success exactly when every handler has succeeded in it or before it. */
  lemma PassOkWhenAllSucceeded(order: seq<string>, passes: seq<seq<nat>>, k: nat)
    requires 0 < k <= |passes| && forall p :: 0 <= p < |passes| ==> |passes[p]| == |order|
    requires Distinct(order)
    ensures AllOk(After(order, passes, k))
       <==> forall i :: 0 <= i < |order| ==> SucceededBy(passes, k, i)
  {
    var rec := After(order, passes, k);
    AllOnRecord(order, passes, k);
    forall i | 0 <= i < |order|
      ensures Done(rec, order[i]) <==> SucceededBy(passes, k, i)
    {
      SuccessIsFinal(order, passes, k, i);
    }
    if !AllOk(rec) {
      var h :| h in rec && rec[h] != UBSE_OK;
      var i :| 0 <= i < |order| && order[i] == h;
      assert !Done(rec, order[i]);
    }
  }

  /** The registered handlers of one fault type and the results of every message id. */
  class FaultHandlers {
    var known: bool                // the fault type has an entry in the handler map
    var levels: seq<seq<string>>   // registration order within HIGH, MEDIUM and LOW
    var results: map<string, Records>

    ghost predicate Valid()
      reads this
    {
      |levels| == 3 && (!known ==> levels == [[], [], []])
    }

    function Order(): seq<string>
      requires Valid()
      reads this
    {
      levels[0] + levels[1] + levels[2]
    }

    function RecordsOf(msg: string): Records
      reads this
    {
      if msg in results then results[msg] else map[]
    }

    constructor ()
      ensures Valid() && Order() == [] && results == map[]
    {
      known, levels := false, [[], [], []];
      results := map[];
    }

    /** A handler goes behind everything registered at its own or a higher
        priority and in front of everything registered at a lower one. */
    method Register(name: string, priority: nat)
      requires Valid() && priority < 3
      modifies this`levels, this`known
      ensures Valid() && known
      ensures exists before, behind ::
        && old(Order()) == before + behind && Order() == before + [name] + behind
        && (priority == 0 ==> before == old(levels)[0])
        && (priority == 1 ==> before == old(levels)[0] + old(levels)[1])
        && (priority == 2 ==> behind == [])
    {
      ghost var hi, mid, lo := levels[0], levels[1], levels[2];
      known, levels := true, levels[priority := levels[priority] + [name]];
      if priority == 0 {
        assert old(Order()) == hi + (mid + lo) && Order() == hi + [name] + (mid + lo);
      } else if priority == 1 {
        assert old(Order()) == (hi + mid) + lo && Order() == (hi + mid) + [name] + lo;
      } else {
        assert old(Order()) == (hi + mid + lo) + [] && Order() == (hi + mid + lo) + [name] + [];
      }
    }

    /** GetResultFromHandlersByMsg: some failing code, if there is one. */
    method GetResult(msg: string) returns (ret: nat)
      ensures ret == UBSE_OK <==> AllOk(RecordsOf(msg))
      ensures ret != UBSE_OK ==> ret in RecordsOf(msg).Values
    {
      ret := UBSE_OK;
      if msg !in results {
        return;
      }
      var left := results[msg].Keys;
      while left != {}
        invariant left <= results[msg].Keys
        invariant forall h :: h in results[msg].Keys - left ==> results[msg][h] == UBSE_OK
        decreases left
      {
        var h :| h in left;
        if results[msg][h] != UBSE_OK {
          return results[msg][h];
        }
        left := left - {h};
      }
    }

    method ExecuteFaultHandler(msg: string, outcome: seq<nat>) returns (ret: nat, ran: seq<string>)
      requires Valid() && |outcome| == |Order()|
      modifies this`results
      ensures Valid() && (RecordsOf(msg), ran) == Pass(Order(), outcome, old(RecordsOf(msg)))
      ensures forall m :: m != msg ==> RecordsOf(m) == old(RecordsOf(m))
      ensures ret == UBSE_OK <==> !known || AllOk(RecordsOf(msg))
      ensures ret != UBSE_OK ==> ret in RecordsOf(msg).Values
    {
      ran := [];
      if !known {
        return UBSE_OK, ran;
      }
      var order := Order();
      assert order[0..] == order && outcome[0..] == outcome;
      assert [] + Pass(order, outcome, RecordsOf(msg)).1 == Pass(order, outcome, RecordsOf(msg)).1;
      for i := 0 to |order|
        invariant Valid() && order == Order()
        invariant forall m :: m != msg ==> RecordsOf(m) == old(RecordsOf(m))
        invariant
          var (rec, later) := Pass(order[i..], outcome[i..], RecordsOf(msg));
          (rec, ran + later) == Pass(order, outcome, old(RecordsOf(msg)))
      {
        var h := order[i];
        assert order[i..][1..] == order[i + 1..] && outcome[i..][1..] == outcome[i + 1..];
        if Done(RecordsOf(msg), h) {
          continue;
        }
        ghost var later := Pass(order[i + 1..], outcome[i + 1..], RecordsOf(msg)[h := outcome[i]]).1;
        assert ran + ([h] + later) == (ran + [h]) + later;
        results := results[msg := RecordsOf(msg)[h := outcome[i]]];
        ran := ran + [h];
      }
      assert order[|order|..] == [] && ran + [] == ran;
      ret := GetResult(msg);
    }

    /** ClearFaultHandlerResult */
    method Clear(msg: string)
      modifies this`results
      ensures RecordsOf(msg) == map[]
      ensures forall m :: m != msg ==> RecordsOf(m) == old(RecordsOf(m))
    {
      results := results[msg := map[]];
    }
  }
}

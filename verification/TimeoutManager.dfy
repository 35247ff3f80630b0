/**
 The timeout manager: callbacks registered with a deadline, a loop on its own
 thread that sleeps until the earliest one and calls it outside the lock, and
 guards that cancel once. Times are nanoseconds of the steady clock.
 */
module TimeoutManager {
  const NS_PER_MS := 1_000_000
  const FAR := 0x7FFF_FFFF_FFFF_FFFF   // time_point::max()

  datatype Entry = Entry(handle: nat, deadline: nat)

  /** How often a handle is in the list. */
  ghost function Occ(entries: seq<Entry>, h: nat): nat {
    if entries == [] then 0 else (if entries[0].handle == h then 1 else 0) + Occ(entries[1..], h)
  }

  /** The list without its first entry for a handle. */
  ghost function Without(entries: seq<Entry>, h: nat): seq<Entry> {
    if entries == [] then []
    else if entries[0].handle == h then entries[1..]
    else [entries[0]] + Without(entries[1..], h)
  }

  /** The first entry with the least deadline before FAR, or handle 0. */
  ghost function Earliest(entries: seq<Entry>): Entry {
    if entries == [] then Entry(0, FAR)
    else
      var best, last := Earliest(entries[..|entries| - 1]), entries[|entries| - 1];
      if last.deadline < best.deadline then last else best
  }

  lemma {:induction false} EarliestIsLeast(entries: seq<Entry>)
    requires forall e :: e in entries ==> e.handle != 0
    ensures Earliest(entries).handle == 0 <==> forall e :: e in entries ==> e.deadline >= FAR
    ensures Earliest(entries).handle != 0 ==> Earliest(entries) in entries && Earliest(entries).deadline < FAR
    ensures Earliest(entries).handle == 0 ==> Earliest(entries).deadline == FAR
    ensures forall e :: e in entries ==> Earliest(entries).deadline <= e.deadline || e.deadline >= FAR
  {
    if entries != [] {
      var front, last := entries[..|entries| - 1], entries[|entries| - 1];
      assert entries == front + [last];
      EarliestIsLeast(front);
    }
  }

  /** Of equal deadlines it is the first in the list. */
  lemma {:induction false} EarliestIsFirst(entries: seq<Entry>) returns (i: nat)
    requires (forall e :: e in entries ==> e.handle != 0) && Earliest(entries).handle != 0
    ensures i < |entries| && entries[i] == Earliest(entries)
    ensures forall k :: 0 <= k < i ==> entries[i].deadline < entries[k].deadline
    ensures forall k :: i <= k < |entries| ==> entries[i].deadline <= entries[k].deadline
  {
    var front, last := entries[..|entries| - 1], entries[|entries| - 1];
    assert entries == front + [last];
    EarliestIsLeast(entries);
    EarliestIsLeast(front);
    if last.deadline < Earliest(front).deadline {
      i := |front|;
      forall k | 0 <= k < i
        ensures last.deadline < entries[k].deadline
      {
        assert front[k] in front;
      }
    } else {
      i := EarliestIsFirst(front);
    }
  }

  lemma {:induction false} OccAppend(entries: seq<Entry>, e: Entry, h: nat)
    ensures Occ(entries + [e], h) == Occ(entries, h) + if e.handle == h then 1 else 0
  {
    if entries == [] {
      assert Occ([e], h) == (if e.handle == h then 1 else 0) + Occ([], h);
    } else {
      assert (entries + [e])[1..] == entries[1..] + [e];
      OccAppend(entries[1..], e, h);
    }
  }

  lemma {:induction false} OccPositive(entries: seq<Entry>, h: nat)
    ensures Occ(entries, h) > 0 <==> exists e :: e in entries && e.handle == h
  {
    if entries != [] {
      assert entries == [entries[0]] + entries[1..];
      OccPositive(entries[1..], h);
    }
  }

  lemma {:induction false} WithoutTakesOne(entries: seq<Entry>, h: nat, g: nat)
    ensures Occ(Without(entries, h), g) == Occ(entries, g) - if g == h && Occ(entries, h) > 0 then 1 else 0
    ensures Occ(entries, h) == 0 ==> Without(entries, h) == entries
    ensures forall e :: e in Without(entries, h) ==> e in entries
    ensures forall e :: e in entries && e.handle != h ==> e in Without(entries, h)
  {
    if entries != [] {
      assert entries == [entries[0]] + entries[1..];
      if entries[0].handle != h {
        WithoutTakesOne(entries[1..], h, g);
        assert ([entries[0]] + Without(entries[1..], h))[1..] == Without(entries[1..], h);
      }
    }
  }

  // ---- The object, as far as it acts under its lock ----

  class Manager {
    var entries: seq<Entry>
    var nextHandle: nat
    var quit: bool

    ghost predicate Valid()
      reads this
    {
      nextHandle >= 1 && forall e :: e in entries ==> 1 <= e.handle < nextHandle
    }

    constructor ()
      ensures Valid() && entries == [] && nextHandle == 1 && !quit
    {
      entries, nextHandle, quit := [], 1, false;
    }

    method Register(now: nat, timeoutMs: nat) returns (handle: nat)
      requires Valid()
      modifies this
      ensures Valid() && quit == old(quit)
      ensures handle == old(nextHandle) && nextHandle == handle + 1
      ensures |entries| == |old(entries)| + 1 && entries[..|old(entries)|] == old(entries)
      ensures entries[|old(entries)|].handle == handle && entries[|old(entries)|].deadline == now + timeoutMs * 1_000_000
    {
      handle := nextHandle;
      nextHandle := nextHandle + 1;
      entries := entries + [Entry(handle, now + timeoutMs * NS_PER_MS)];
    }

    /** find_if by handle */
    method Find(handle: nat) returns (i: nat)
      ensures i <= |entries| && (i < |entries| ==> entries[i].handle == handle)
      ensures i < |entries| <==> Occ(entries, handle) > 0
      ensures i < |entries| ==> entries[..i] + entries[i + 1..] == Without(entries, handle)
    {
      i := 0;
      assert entries[0..] == entries;
      while i < |entries| && entries[i].handle != handle
        invariant i <= |entries|
        invariant Occ(entries, handle) == Occ(entries[i..], handle)
        invariant Without(entries, handle) == entries[..i] + Without(entries[i..], handle)
      {
        assert entries[i..][1..] == entries[i + 1..];
        assert entries[..i] + [entries[i]] == entries[..i + 1];
        i := i + 1;
      }
      if i < |entries| {
        assert entries[i..][1..] == entries[i + 1..];
      }
    }

    /** Unregister, and the loop's own removal of the entry it is about to call. */
    method Unregister(handle: nat) returns (found: bool)
      requires Valid()
      modifies this`entries
      ensures Valid()
      ensures found <==> Occ(old(entries), handle) > 0
      ensures entries == Without(old(entries), handle)
    {
      WithoutTakesOne(entries, handle, handle);
      var i := Find(handle);
      found := i < |entries|;
      if found {
        entries := entries[..i] + entries[i + 1..];
      }
    }

    /** The loop's choice of whom to wait for. */
    method Scan() returns (earliest: Entry)
      requires Valid()
      ensures earliest == Earliest(entries)
      ensures earliest.handle == 0 <==> forall e :: e in entries ==> e.deadline >= 9223372036854775807
    {
      earliest := Entry(0, FAR);
      for i := 0 to |entries|
        invariant earliest == Earliest(entries[..i])
      {
        assert entries[..i + 1][..i] == entries[..i];
        if entries[i].deadline < earliest.deadline {
          earliest := entries[i];
        }
      }
      assert entries[..|entries|] == entries;
      EarliestIsLeast(entries);
    }
  }

  // ---- All threads together ----

  /** Where the loop is. `horizon` remembers, for the proofs only, the next
      handle at the time of the scan. */
  datatype Phase =
    | Top
    | Idle                                                     // waiting for a notification
    | Waiting(handle: nat, deadline: nat, horizon: nat)        // waiting for a notification or the deadline
    | Taken(handle: nat, deadline: nat)                        // erased, lock released, about to call
    | Running(handle: nat)                                     // inside the callback
    | Stopped

  datatype Guard = Armed | Removing | Cancelled

  datatype Kind = Issued | Removed | Claimed | Called

  /** `time` is the deadline of an issued handle and the clock otherwise. */
  datatype Event = Event(kind: Kind, handle: nat, time: nat)

  datatype State = State(
    now: nat,
    entries: seq<Entry>,
    nextHandle: nat,
    quit: bool,
    phase: Phase,
    signal: bool,               // the sleeping loop has been notified
    guards: map<nat, Guard>,    // by the handle the guard owns
    log: seq<Event>)
  {
    predicate Asleep() {
      phase.Idle? || phase.Waiting?
    }

    function Notified(): State {
      this.(signal := signal || Asleep())
    }

    function Note(kind: Kind, h: nat, time: nat): State {
      this.(log := log + [Event(kind, h, time)])
    }
  }

  const Start := State(0, [], 1, false, Top, false, map[], [])

  ghost function Registered(s: State, timeoutMs: nat): State {
    var d := s.now + timeoutMs * NS_PER_MS;
    s.(entries := s.entries + [Entry(s.nextHandle, d)], nextHandle := s.nextHandle + 1)
     .Note(Issued, s.nextHandle, d).Notified()
  }

  ghost function Unregistered(s: State, h: nat): State {
    if Occ(s.entries, h) > 0 then
      s.(entries := Without(s.entries, h)).Note(Removed, h, s.now).Notified()
    else s.Notified()
  }

  datatype Step =
    | Register(timeoutMs: nat)
    | NewGuard(timeoutMs: nat)
    | Unregister(h: nat)
    | CancelWins(h: nat)       // the compare-exchange succeeds
    | CancelRemoves(h: nat)    // and its thread goes on to unregister
    | CancelLoses(h: nat)      // the compare-exchange fails
    | Quit
    | Tick(ns: nat)
    | Scan                     // the loop: look for the earliest entry, go to sleep
    | Wake                     // woken before the deadline, or for no reason
    | Timeout                  // woken with the deadline past
    | Call
    | Return
    | Leave                    // the loop sees that it should quit

  predicate Enabled(s: State, e: Step) {
    match e
    case Register(ms) => s.now + ms * NS_PER_MS <= FAR
    case NewGuard(ms) => s.now + ms * NS_PER_MS <= FAR
    case Unregister(_) => true
    case CancelWins(h) => h in s.guards && s.guards[h].Armed?
    case CancelRemoves(h) => h in s.guards && s.guards[h].Removing?
    case CancelLoses(h) => h in s.guards && !s.guards[h].Armed?
    case Quit => true
    case Tick(_) => true
    case Scan => s.phase.Top? && !s.quit
    case Wake => s.Asleep()
    case Timeout => s.phase.Waiting? && s.now >= s.phase.deadline
    case Call => s.phase.Taken?
    case Return => s.phase.Running?
    case Leave => s.phase.Top? && s.quit
  }

  ghost function Next(s: State, e: Step): State
    requires Enabled(s, e)
  {
    match e
    case Register(ms) => Registered(s, ms)
    case NewGuard(ms) => Registered(s, ms).(guards := s.guards[s.nextHandle := Armed])
    case Unregister(h) => Unregistered(s, h)
    case CancelWins(h) => s.(guards := s.guards[h := Removing])
    case CancelRemoves(h) => Unregistered(s, h).(guards := s.guards[h := Cancelled])
    case CancelLoses(_) => s
    case Quit => s.(quit := true).Notified()
    case Tick(ns) => s.(now := s.now + ns)
    case Scan =>
      var b := Earliest(s.entries);
      s.(signal := false, phase := if b.handle == 0 then Idle else Waiting(b.handle, b.deadline, s.nextHandle))
    case Wake => s.(signal := false, phase := Top)
    case Timeout =>
      var h := s.phase.handle;
      if Occ(s.entries, h) > 0 then
        s.(entries := Without(s.entries, h), signal := false, phase := Taken(h, s.phase.deadline)).Note(Claimed, h, s.now)
      else s.(signal := false, phase := Top)
    case Call => s.(phase := Running(s.phase.handle)).Note(Called, s.phase.handle, s.now)
    case Return => s.(phase := Top)
    case Leave => s.(phase := Stopped)
  }

  ghost predicate IsRun(s: State, steps: seq<Step>)
    decreases |steps|
  {
    steps != [] ==> Enabled(s, steps[0]) && IsRun(Next(s, steps[0]), steps[1..])
  }

  ghost function Final(s: State, steps: seq<Step>): State
    requires IsRun(s, steps)
    decreases |steps|
  {
    if steps == [] then s else Final(Next(s, steps[0]), steps[1..])
  }

  /** How often something happened to a handle. */
  ghost function Number(log: seq<Event>, kind: Kind, h: nat): nat {
    if log == [] then 0
    else
      var e := log[|log| - 1];
      Number(log[..|log| - 1], kind, h) + if e.kind == kind && e.handle == h then 1 else 0
  }

  ghost function Hits(e: Event, kind: Kind, h: nat): nat {
    if e.kind == kind && e.handle == h then 1 else 0
  }

  lemma NumbersNote(log: seq<Event>, e: Event, h: nat)
    ensures Number(log + [e], Issued, h) == Number(log, Issued, h) + Hits(e, Issued, h)
    ensures Number(log + [e], Removed, h) == Number(log, Removed, h) + Hits(e, Removed, h)
    ensures Number(log + [e], Claimed, h) == Number(log, Claimed, h) + Hits(e, Claimed, h)
    ensures Number(log + [e], Called, h) == Number(log, Called, h) + Hits(e, Called, h)
  {
  }

  // ---- What is claimed of every reachable state ----

  /** Each handle is issued once, and is then in exactly one place: still
      listed, taken out by an Unregister, or claimed by the loop, which calls
      it once for each claim. */
  ghost predicate OneFate(s: State) {
    forall h: nat :: Fate(s, h)
  }

  ghost predicate Fate(s: State, h: nat) {
    && Number(s.log, Issued, h) == (if 1 <= h < s.nextHandle then 1 else 0)
    && Occ(s.entries, h) + Number(s.log, Removed, h) + Number(s.log, Claimed, h) == Number(s.log, Issued, h)
    && Number(s.log, Called, h) + (if s.phase.Taken? && s.phase.handle == h then 1 else 0) == Number(s.log, Claimed, h)
  }

  /** Nothing is claimed or called before its deadline. */
  ghost predicate NeverEarly(log: seq<Event>) {
    forall i :: 0 <= i < |log| && (log[i].kind.Claimed? || log[i].kind.Called?) ==>
      exists j :: 0 <= j < i && log[j].kind.Issued? && log[j].handle == log[i].handle && log[j].time <= log[i].time
  }

  /** The loop never sleeps past a deadline it has not been told about: asleep
      and not notified, it waits for an entry still listed, and no listed entry
      is due earlier. */
  ghost predicate SleepsRight(s: State) {
    s.Asleep() && !s.signal ==>
      && (s.phase.Waiting? ==> Entry(s.phase.handle, s.phase.deadline) in s.entries)
      && (forall e :: e in s.entries && e.deadline < FAR ==> s.phase.Waiting? && s.phase.deadline <= e.deadline)
  }

  /** The entry waited for was the earliest of those listed when the loop looked. */
  ghost predicate WaitsForEarliest(s: State) {
    s.phase.Waiting? ==>
      && s.phase.handle < s.phase.horizon <= s.nextHandle && s.phase.deadline < FAR
      && Issuance(s.log, s.phase.handle, s.phase.deadline)
      && forall e :: e in s.entries && e.handle < s.phase.horizon ==> s.phase.deadline <= e.deadline || e.deadline >= FAR
  }

  /** A cancelled guard's entry is gone. */
  ghost predicate CancelledAreGone(s: State) {
    forall h :: h in s.guards ==>
      && 1 <= h < s.nextHandle
      && (s.guards[h].Cancelled? ==> Occ(s.entries, h) == 0)
  }

  ghost predicate Issuance(log: seq<Event>, h: nat, deadline: nat) {
    Event(Issued, h, deadline) in log
  }

  /** Every entry is as it was issued, and the claimed one was due. */
  ghost predicate AsIssued(s: State) {
    && s.nextHandle >= 1
    && (forall e :: e in s.entries ==> Issuance(s.log, e.handle, e.deadline) && 1 <= e.handle < s.nextHandle)
    && (s.phase.Taken? ==> s.phase.deadline <= s.now && Issuance(s.log, s.phase.handle, s.phase.deadline))
  }

  ghost predicate Inv(s: State) {
    && OneFate(s)
    && NeverEarly(s.log)
    && SleepsRight(s)
    && WaitsForEarliest(s)
    && CancelledAreGone(s)
    && AsIssued(s)
  }

  /** Noting something down forgets no issuance and keeps the log free of early calls. */
  lemma LogNote(log: seq<Event>, e: Event, due: nat)
    requires NeverEarly(log)
    requires (e.kind.Claimed? || e.kind.Called?) ==> due <= e.time && Issuance(log, e.handle, due)
    ensures NeverEarly(log + [e])
    ensures forall h, d :: Issuance(log, h, d) ==> Issuance(log + [e], h, d)
    ensures e.kind.Issued? ==> Issuance(log + [e], e.handle, e.time)
  {
    var log' := log + [e];
    assert log'[|log|] == e;
    forall i | 0 <= i < |log'| && (log'[i].kind.Claimed? || log'[i].kind.Called?)
      ensures exists j :: 0 <= j < i && log'[j].kind.Issued? && log'[j].handle == log'[i].handle && log'[j].time <= log'[i].time
    {
      if i < |log| {
        var j :| 0 <= j < i && log[j].kind.Issued? && log[j].handle == log[i].handle && log[j].time <= log[i].time;
        assert log'[j] == log[j];
      } else {
        var j :| 0 <= j < |log| && log[j] == Event(Issued, e.handle, due);
        assert log'[j] == log[j];
      }
    }
  }

  lemma RegisterFate(s: State, ms: nat, h: nat)
    requires Fate(s, h) && s.nextHandle >= 1
    ensures Fate(Registered(s, ms), h)
  {
    var d := s.now + ms * NS_PER_MS;
    NumbersNote(s.log, Event(Issued, s.nextHandle, d), h);
    OccAppend(s.entries, Entry(s.nextHandle, d), h);
  }

  lemma RegisterKeepsFates(s: State, ms: nat)
    requires Inv(s) && Enabled(s, Register(ms))
    ensures OneFate(Registered(s, ms)) && CancelledAreGone(Registered(s, ms))
    ensures Occ(Registered(s, ms).entries, s.nextHandle) == 1
  {
    var s', d := Registered(s, ms), s.now + ms * NS_PER_MS;
    forall h: nat ensures Fate(s', h) && Occ(s'.entries, h) == Occ(s.entries, h) + if h == s.nextHandle then 1 else 0 {
      assert Fate(s, h);
      RegisterFate(s, ms, h);
      OccAppend(s.entries, Entry(s.nextHandle, d), h);
    }
    assert Fate(s, s.nextHandle);
  }

  lemma RegisterKeepsInv(s: State, ms: nat)
    requires Inv(s) && Enabled(s, Register(ms))
    ensures Inv(Registered(s, ms)) && Occ(Registered(s, ms).entries, s.nextHandle) == 1
  {
    RegisterKeepsFates(s, ms);
    RegisterKeepsWait(s, ms);
  }

  lemma RegisterKeepsEarliest(s: State, ms: nat)
    requires WaitsForEarliest(s)
    ensures WaitsForEarliest(Registered(s, ms))
  {
    var d := s.now + ms * NS_PER_MS;
    if s.phase.Waiting? {
      IssuanceStays(s.log, Event(Issued, s.nextHandle, d), s.phase.handle, s.phase.deadline);
    }
    assert forall e :: e in Registered(s, ms).entries ==> e in s.entries || e.handle == s.nextHandle;
  }

  lemma RegisterKeepsIssued(s: State, ms: nat)
    requires AsIssued(s)
    ensures AsIssued(Registered(s, ms))
  {
    var s', d := Registered(s, ms), s.now + ms * NS_PER_MS;
    var e := Event(Issued, s.nextHandle, d);
    assert s'.log == s.log + [e] && s'.log[|s.log|] == e;
    forall x | x in s'.entries
      ensures Issuance(s'.log, x.handle, x.deadline) && 1 <= x.handle < s'.nextHandle
    {
      assert x in s.entries || x == Entry(s.nextHandle, d);
      if x in s.entries {
        IssuanceStays(s.log, e, x.handle, x.deadline);
      }
    }
    if s.phase.Taken? {
      IssuanceStays(s.log, e, s.phase.handle, s.phase.deadline);
    }
  }

  lemma IssuanceStays(log: seq<Event>, e: Event, h: nat, deadline: nat)
    requires Issuance(log, h, deadline)
    ensures Issuance(log + [e], h, deadline)
  {
  }

  /** A sleeping loop is notified of the new entry. */
  lemma RegisterKeepsSleep(s: State, ms: nat)
    ensures SleepsRight(Registered(s, ms))
  {
  }

  lemma RegisterKeepsWait(s: State, ms: nat)
    requires NeverEarly(s.log) && WaitsForEarliest(s) && AsIssued(s)
    ensures SleepsRight(Registered(s, ms)) && WaitsForEarliest(Registered(s, ms)) && AsIssued(Registered(s, ms))
    ensures NeverEarly(Registered(s, ms).log)
  {
    RegisterKeepsSleep(s, ms);
    RegisterKeepsEarliest(s, ms);
    RegisterKeepsIssued(s, ms);
    LogNote(s.log, Event(Issued, s.nextHandle, s.now + ms * NS_PER_MS), 0);
  }

  lemma UnregisterFate(s: State, h: nat, g: nat)
    requires Fate(s, g)
    ensures Fate(Unregistered(s, h), g)
    ensures Occ(Unregistered(s, h).entries, g) <= Occ(s.entries, g)
  {
    if Occ(s.entries, h) > 0 {
      var s' := Unregistered(s, h);
      NumbersNote(s.log, Event(Removed, h, s.now), g);
      WithoutTakesOne(s.entries, h, g);
      assert s'.log == s.log + [Event(Removed, h, s.now)] && s'.entries == Without(s.entries, h);
    }
  }

  lemma UnregisterKeepsInv(s: State, h: nat)
    requires Inv(s)
    ensures Inv(Unregistered(s, h)) && Occ(Unregistered(s, h).entries, h) == 0
  {
    var s' := Unregistered(s, h);
    forall g: nat ensures Fate(s', g) && Occ(s'.entries, g) <= Occ(s.entries, g) {
      assert Fate(s, g);
      UnregisterFate(s, h, g);
    }
    assert OneFate(s') && CancelledAreGone(s');
    assert Fate(s, h);
    WithoutTakesOne(s.entries, h, h);
    UnregisterKeepsWait(s, h);
  }

  lemma UnregisterKeepsWait(s: State, h: nat)
    requires Inv(s)
    ensures SleepsRight(Unregistered(s, h)) && WaitsForEarliest(Unregistered(s, h)) && AsIssued(Unregistered(s, h))
    ensures NeverEarly(Unregistered(s, h).log)
  {
    WithoutTakesOne(s.entries, h, h);
    LogNote(s.log, Event(Removed, h, s.now), 0);
  }

  lemma ScanKeepsInv(s: State)
    requires Inv(s) && Enabled(s, Scan)
    ensures Inv(Next(s, Scan))
  {
    EarliestIsLeast(s.entries);
    var s' := Next(s, Scan);
    forall h: nat ensures Fate(s', h) {
      assert Fate(s, h);
    }
  }

  lemma TimeoutFate(s: State, h: nat)
    requires Enabled(s, Timeout) && Fate(s, h) && Fate(s, s.phase.handle)
    ensures Fate(Next(s, Timeout), h)
    ensures Occ(Next(s, Timeout).entries, h) <= Occ(s.entries, h)
  {
    NumbersNote(s.log, Event(Claimed, s.phase.handle, s.now), h);
    WithoutTakesOne(s.entries, s.phase.handle, h);
  }

  lemma TimeoutKeepsInv(s: State)
    requires Inv(s) && Enabled(s, Timeout)
    ensures Inv(Next(s, Timeout))
  {
    assert Fate(s, s.phase.handle);
    forall h: nat ensures Fate(Next(s, Timeout), h) && Occ(Next(s, Timeout).entries, h) <= Occ(s.entries, h) {
      assert Fate(s, h);
      TimeoutFate(s, h);
    }
    WithoutTakesOne(s.entries, s.phase.handle, s.phase.handle);
    LogNote(s.log, Event(Claimed, s.phase.handle, s.now), s.phase.deadline);
  }

  lemma CallKeepsInv(s: State)
    requires Inv(s) && Enabled(s, Call)
    ensures Inv(Next(s, Call))
  {
    forall h: nat ensures Fate(Next(s, Call), h) {
      assert Fate(s, h);
      NumbersNote(s.log, Event(Called, s.phase.handle, s.now), h);
    }
    LogNote(s.log, Event(Called, s.phase.handle, s.now), s.phase.deadline);
  }

  lemma OtherKeepsInv(s: State, e: Step)
    requires Inv(s) && Enabled(s, e)
    requires e.CancelWins? || e.CancelLoses? || e.Quit? || e.Tick? || e.Wake? || e.Return? || e.Leave?
    ensures Inv(Next(s, e))
  {
    forall h: nat ensures Fate(Next(s, e), h) {
      assert Fate(s, h);
    }
  }

  lemma GuardsChange(s: State, guards: map<nat, Guard>)
    requires Inv(s) && CancelledAreGone(s.(guards := guards))
    ensures Inv(s.(guards := guards))
  {
    var s' := s.(guards := guards);
    forall h: nat ensures Fate(s', h) {
      assert Fate(s, h);
    }
  }

  lemma StepKeepsInv(s: State, e: Step)
    requires Inv(s) && Enabled(s, e)
    ensures Inv(Next(s, e))
  {
    match e {
      case Register(ms) => RegisterKeepsInv(s, ms);
      case NewGuard(ms) =>
        RegisterKeepsInv(s, ms);
        GuardsChange(Registered(s, ms), s.guards[s.nextHandle := Armed]);
      case Unregister(h) => UnregisterKeepsInv(s, h);
      case CancelRemoves(h) =>
        UnregisterKeepsInv(s, h);
        GuardsChange(Unregistered(s, h), s.guards[h := Cancelled]);
      case Scan => ScanKeepsInv(s);
      case Timeout => TimeoutKeepsInv(s);
      case Call => CallKeepsInv(s);
      case _ => OtherKeepsInv(s, e);
    }
  }

  lemma {:induction false} RunKeepsInv(s: State, steps: seq<Step>)
    requires Inv(s) && IsRun(s, steps)
    ensures Inv(Final(s, steps))
    decreases |steps|
  {
    if steps != [] {
      StepKeepsInv(s, steps[0]);
      RunKeepsInv(Next(s, steps[0]), steps[1..]);
    }
  }

  /** In every interleaving of Register, Unregister, Cancel and the loop. */
  lemma EveryInterleaving(steps: seq<Step>)
    requires IsRun(Start, steps)
    ensures OneFate(Final(Start, steps)) && NeverEarly(Final(Start, steps).log)
    ensures SleepsRight(Final(Start, steps)) && CancelledAreGone(Final(Start, steps))
  {
    RunKeepsInv(Start, steps);
  }

  lemma NumbersGrow(s: State, e: Step, kind: Kind, h: nat)
    requires Enabled(s, e)
    ensures Number(Next(s, e).log, kind, h) >= Number(s.log, kind, h)
    ensures Next(s, e).nextHandle >= s.nextHandle
  {
  }

  lemma {:induction false} LogGrows(s: State, steps: seq<Step>)
    requires IsRun(s, steps)
    ensures s.log <= Final(s, steps).log
    decreases |steps|
  {
    if steps != [] {
      LogGrows(Next(s, steps[0]), steps[1..]);
    }
  }

  /** What happened once has one place in the log. */
  lemma {:induction false} OnlyPlace(log: seq<Event>, kind: Kind, h: nat, i: nat, j: nat)
    requires Number(log, kind, h) <= 1 && i < j < |log|
    requires log[i].kind == kind && log[i].handle == h && log[j].kind == kind && log[j].handle == h
    ensures false
  {
    var front := log[..|log| - 1];
    if j == |front| {
      HappenedOnce(front, kind, h, i);
    } else {
      OnlyPlace(front, kind, h, i, j);
    }
  }

  lemma {:induction false} HappenedOnce(log: seq<Event>, kind: Kind, h: nat, i: nat)
    requires i < |log| && log[i].kind == kind && log[i].handle == h
    ensures Number(log, kind, h) >= 1
  {
    if i < |log| - 1 {
      HappenedOnce(log[..|log| - 1], kind, h, i);
    }
  }

  lemma DueTime(log: seq<Event>, h: nat, at: nat, j: nat)
    requires NeverEarly(log) && Number(log, Issued, h) <= 1
    requires at < |log| && log[at].kind.Issued? && log[at].handle == h
    requires j < |log| && log[j].handle == h && (log[j].kind.Claimed? || log[j].kind.Called?)
    ensures log[at].time <= log[j].time
  {
    var i :| 0 <= i < j && log[i].kind.Issued? && log[i].handle == h && log[i].time <= log[j].time;
    if i < at {
      OnlyPlace(log, Issued, h, i, at);
    } else if at < i {
      OnlyPlace(log, Issued, h, at, i);
    }
  }

  lemma IssuedOnce(s: State, steps: seq<Step>, h: nat)
    requires Inv(s) && IsRun(s, steps)
    ensures NeverEarly(Final(s, steps).log) && Number(Final(s, steps).log, Issued, h) <= 1
  {
    RunKeepsInv(s, steps);
    assert Fate(Final(s, steps), h);
  }

  lemma IssuedAt(s: State, e: Step, steps: seq<Step>)
    requires (e.Register? || e.NewGuard?) && Enabled(s, e) && IsRun(Next(s, e), steps)
    ensures
      var log := Final(Next(s, e), steps).log;
      |s.log| < |log| && log[|s.log|] == Event(Issued, s.nextHandle, s.now + e.timeoutMs * 1_000_000)
  {
    LogGrows(Next(s, e), steps);
    assert Next(s, e).log[|s.log|] == Event(Issued, s.nextHandle, s.now + e.timeoutMs * 1_000_000);
  }

  lemma IssuedAfter(s: State, e: Step, steps: seq<Step>, h: nat)
    requires Inv(s) && Enabled(s, e) && IsRun(Next(s, e), steps)
    ensures NeverEarly(Final(Next(s, e), steps).log) && Number(Final(Next(s, e), steps).log, Issued, h) <= 1
  {
    StepKeepsInv(s, e);
    IssuedOnce(Next(s, e), steps, h);
  }

  /** In every run, what is registered for so many milliseconds is neither claimed nor
      called before the clock has gone on by as many million nanoseconds. */
  lemma NoSoonerThanAsked(before: seq<Step>, e: Step, steps: seq<Step>, j: nat)
    requires IsRun(Start, before) && (e.Register? || e.NewGuard?) && Enabled(Final(Start, before), e)
    requires IsRun(Next(Final(Start, before), e), steps)
    requires
      var log := Final(Next(Final(Start, before), e), steps).log;
      && j < |log| && log[j].handle == Final(Start, before).nextHandle
      && (log[j].kind.Claimed? || log[j].kind.Called?)
    ensures Final(Next(Final(Start, before), e), steps).log[j].time
         >= Final(Start, before).now + e.timeoutMs * 1_000_000
  {
    var s := Final(Start, before);
    RunKeepsInv(Start, before);
    IssuedAfter(s, e, steps, s.nextHandle);
    IssuedAt(s, e, steps);
    DueTime(Final(Next(s, e), steps).log, s.nextHandle, |s.log|, j);
  }

  /** How often the compare-exchange of a guard succeeds. */
  ghost function Wins(steps: seq<Step>, h: nat): nat {
    if steps == [] then 0 else (if steps[0] == CancelWins(h) then 1 else 0) + Wins(steps[1..], h)
  }

  /** However many threads cancel a guard, one of them removes its entry. */
  lemma {:induction false} CancelsOnce(s: State, steps: seq<Step>, h: nat)
    requires Inv(s) && IsRun(s, steps)
    ensures Wins(steps, h) <= if h in s.guards && !s.guards[h].Armed? then 0 else 1
    decreases |steps|
  {
    if steps != [] {
      StepKeepsInv(s, steps[0]);
      CancelsOnce(Next(s, steps[0]), steps[1..], h);
    }
  }

  /** Once a handle has left the list, it stays out and nothing claims it: an
      Unregister that found the entry, or a Cancel that has returned, is never
      followed by the callback, except one that the loop had claimed before. */
  lemma {:induction false} GoneIsForGood(s: State, steps: seq<Step>, h: nat)
    requires Inv(s) && IsRun(s, steps) && 1 <= h < s.nextHandle && Occ(s.entries, h) == 0
    ensures
      var f := Final(s, steps);
      && Occ(f.entries, h) == 0
      && Number(f.log, Claimed, h) == Number(s.log, Claimed, h)
      && Number(f.log, Removed, h) == Number(s.log, Removed, h)
      && (!(s.phase.Taken? && s.phase.handle == h) ==> Number(f.log, Called, h) == Number(s.log, Called, h))
    decreases |steps|
  {
    if steps != [] {
      StepKeepsInv(s, steps[0]);
      NumbersGrow(s, steps[0], Claimed, h);
      NumbersGrow(s, steps[0], Removed, h);
      NumbersGrow(s, steps[0], Called, h);
      assert Fate(s, h) && Fate(Next(s, steps[0]), h);
      GoneIsForGood(Next(s, steps[0]), steps[1..], h);
    }
  }

  /** In every reachable state: after an Unregister that found the handle, or a
      Cancel that has removed it, no continuation ever calls it. */
  lemma RemovedIsNeverCalled(before: seq<Step>, steps: seq<Step>, h: nat)
    requires IsRun(Start, before) && IsRun(Final(Start, before), steps)
    requires Number(Final(Start, before).log, Removed, h) > 0
    ensures Number(Final(Final(Start, before), steps).log, Called, h) == 0
    ensures Number(Final(Final(Start, before), steps).log, Claimed, h) == 0
  {
    var s := Final(Start, before);
    RunKeepsInv(Start, before);
    assert Fate(s, h);
    assert Number(s.log, Issued, h) == 1 && Number(s.log, Claimed, h) == 0;
    GoneIsForGood(s, steps, h);
  }

  /** A loop that looks at the list while an entry is overdue claims one at
      once, and the one it claims is due no later than any other. */
  lemma OverdueIsClaimed(steps: seq<Step>, e: Entry)
    requires IsRun(Start, steps)
    requires Final(Start, steps).phase.Top? && !Final(Start, steps).quit
    requires e in Final(Start, steps).entries && e.deadline <= Final(Start, steps).now && e.deadline < FAR
    ensures
      var s := Final(Start, steps);
      var s1, c := Next(s, Scan), Earliest(s.entries);
      && Enabled(s1, Timeout)
      && Next(s1, Timeout).phase == Taken(c.handle, c.deadline)
      && Next(s1, Timeout).log == s.log + [Event(Claimed, c.handle, s.now)]
      && c in s.entries && forall g :: g in s.entries ==> c.deadline <= g.deadline
  {
    var s := Final(Start, steps);
    RunKeepsInv(Start, steps);
    EarliestIsLeast(s.entries);
    OccPositive(s.entries, Earliest(s.entries).handle);
  }

  /** An overdue entry never leaves the loop asleep for good: its notification
      is still to be taken, or its wait is over. */
  lemma OverdueWakesTheLoop(steps: seq<Step>, e: Entry)
    requires IsRun(Start, steps) && Final(Start, steps).Asleep()
    requires e in Final(Start, steps).entries && e.deadline <= Final(Start, steps).now && e.deadline < FAR
    ensures Final(Start, steps).signal || Enabled(Final(Start, steps), Timeout)
  {
    RunKeepsInv(Start, steps);
  }

  /** What the loop claims was due no later than everything that was already
      registered when it looked and is still listed. */
  lemma ClaimsInOrder(steps: seq<Step>, e: Entry)
    requires IsRun(Start, steps) && Enabled(Final(Start, steps), Timeout)
    requires e in Next(Final(Start, steps), Timeout).entries
    requires e.handle < Final(Start, steps).phase.horizon && e.deadline < FAR
    ensures Final(Start, steps).phase.deadline <= e.deadline
  {
    var s := Final(Start, steps);
    RunKeepsInv(Start, steps);
    WithoutTakesOne(s.entries, s.phase.handle, e.handle);
  }

  /** Nothing that stays listed is due before what is claimed. */
  ghost predicate ClaimIsEarliest(s: State)
    requires Enabled(s, Timeout)
  {
    forall e :: e in Next(s, Timeout).entries && e.deadline < FAR ==> s.phase.deadline <= e.deadline
  }

  /** The entries that came after the loop had looked and are due before the
      deadline it is waiting for. */
  ghost predicate Overtakes(s: State, e: Entry)
    requires s.phase.Waiting?
  {
    e in s.entries && e.handle >= s.phase.horizon && e.deadline < s.phase.deadline
  }

  /** The exact condition: a claim is in order exactly when no entry registered
      since the loop looked is due earlier. */
  lemma ClaimInOrderUnlessOvertaken(steps: seq<Step>)
    requires IsRun(Start, steps) && Enabled(Final(Start, steps), Timeout)
    ensures
      var s := Final(Start, steps);
      ClaimIsEarliest(s) <==> forall e :: e in s.entries ==> !Overtakes(s, e)
  {
    RunKeepsInv(Start, steps);
    OrderInState(Final(Start, steps));
  }

  lemma OrderInState(s: State)
    requires WaitsForEarliest(s) && Enabled(s, Timeout)
    ensures ClaimIsEarliest(s) <==> forall e :: e in s.entries ==> !Overtakes(s, e)
  {
    WithoutTakesOne(s.entries, s.phase.handle, s.phase.handle);
    forall e | e in s.entries && Overtakes(s, e)
      ensures e in Next(s, Timeout).entries && e.deadline < FAR
    {
    }
    forall e | e in Next(s, Timeout).entries && e.deadline < FAR && e.deadline < s.phase.deadline
      ensures e in s.entries && Overtakes(s, e)
    {
    }
  }

  /** In particular nothing registered since the loop looked means order. */
  lemma NothingNewMeansOrder(steps: seq<Step>)
    requires IsRun(Start, steps) && Enabled(Final(Start, steps), Timeout)
    requires Final(Start, steps).phase.horizon == Final(Start, steps).nextHandle
    ensures ClaimIsEarliest(Final(Start, steps))
  {
    RunKeepsInv(Start, steps);
    ClaimInOrderUnlessOvertaken(steps);
  }

  /** A run that claims out of order: the first entry is due after 10 ms, the
      second one, registered while the loop waits, after 1 ms; the loop gets the
      lock back when both have passed, and claims the first. */
  const LateWake: seq<Step> := [Register(10), Scan, Register(1), Tick(10_000_000)]

  const TenMs := Entry(1, 10_000_000)
  const OneMs := Entry(2, 1_000_000)

  /** The states of that run. */
  ghost function LateState(k: nat): State
    requires k <= 4
  {
    var first, second := Event(Issued, 1, 10_000_000), Event(Issued, 2, 1_000_000);
    var wait := Waiting(1, 10_000_000, 2);
    match k
    case 0 => Start
    case 1 => State(0, [TenMs], 2, false, Top, false, map[], [first])
    case 2 => State(0, [TenMs], 2, false, wait, false, map[], [first])
    case 3 => State(0, [TenMs, OneMs], 3, false, wait, true, map[], [first, second])
    case 4 => State(10_000_000, [TenMs, OneMs], 3, false, wait, true, map[], [first, second])
  }

  lemma LateStep(k: nat)
    requires k < 4
    ensures Enabled(LateState(k), LateWake[k]) && Next(LateState(k), LateWake[k]) == LateState(k + 1)
  {
    if k == 1 {
      assert [TenMs][..0] == [];
      assert Earliest([TenMs]) == TenMs;
    }
  }

  lemma LateRun()
    ensures IsRun(Start, LateWake) && Final(Start, LateWake) == LateState(4)
  {
    LateStep(0);
    LateStep(1);
    LateStep(2);
    LateStep(3);
    FinalOfFour(Start, LateWake, LateState(1), LateState(2), LateState(3), LateState(4));
  }

  lemma OutOfOrderClaim()
    ensures IsRun(Start, LateWake) && Enabled(Final(Start, LateWake), Timeout)
    ensures Final(Start, LateWake).phase.handle == TenMs.handle
    ensures OneMs in Next(Final(Start, LateWake), Timeout).entries && OneMs.deadline < TenMs.deadline
    ensures !ClaimIsEarliest(Final(Start, LateWake))
  {
    LateRun();
    assert Without([TenMs, OneMs], 1) == [OneMs];
  }

  lemma FinalOfFour(s0: State, steps: seq<Step>, s1: State, s2: State, s3: State, s4: State)
    requires |steps| == 4 && Enabled(s0, steps[0]) && s1 == Next(s0, steps[0])
    requires Enabled(s1, steps[1]) && s2 == Next(s1, steps[1])
    requires Enabled(s2, steps[2]) && s3 == Next(s2, steps[2])
    requires Enabled(s3, steps[3]) && s4 == Next(s3, steps[3])
    ensures IsRun(s0, steps) && Final(s0, steps) == s4
  {
    var t1, t2, t3 := steps[1..], steps[1..][1..], steps[1..][1..][1..];
    assert t3[1..] == [] && IsRun(s4, []) && Final(s4, []) == s4;
    assert IsRun(s3, t3) && Final(s3, t3) == s4;
    assert IsRun(s2, t2) && Final(s2, t2) == s4;
    assert IsRun(s1, t1) && Final(s1, t1) == s4;
  }
}

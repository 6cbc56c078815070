/** Safety of the scheduler loop over whole runs. */
module CronRuns {
  import opened Wrappers
  import opened CronLoop

  ghost predicate DistinctIds(entries: seq<Entry>) {
    forall i, j :: 0 <= i < j < |entries| ==> entries[i].id != entries[j].id
  }

  ghost predicate Issued(s: State) {
    && (forall e :: e in s.entries ==> 1 <= e.id <= s.nextID)
    && (forall st :: st in s.log ==> st.id <= s.nextID)
  }

  /** Ids are distinct and were issued, and the list is sorted whenever the loop waits for an event. */
  ghost predicate Inv(s: State) {
    DistinctIds(s.entries) && Issued(s) && (s.running ==> Sorted(s.entries))
  }

  const INITIAL := State([], 0, false, [])

  lemma Multiplicity(s: seq<Entry>, i: nat, j: nat)
    requires i < j < |s| && s[i] == s[j]
    ensures multiset(s)[s[i]] >= 2
  {
    assert s == s[..j] + [s[j]] + s[j + 1..];
    assert s[i] in s[..j];
  }

  lemma TwoPlaces(s: seq<Entry>, e: Entry)
    requires multiset(s)[e] >= 2
    ensures exists i, j :: 0 <= i < j < |s| && s[i] == s[j] == e
  {
    var i :| 0 <= i < |s| && s[i] == e;
    assert s == s[..i] + [e] + s[i + 1..];
    if e in s[..i] {
      var k :| 0 <= k < i && s[..i][k] == e;
      assert s[k] == s[i] == e;
    } else {
      assert e in s[i + 1..];
      var k :| 0 <= k < |s| - (i + 1) && s[i + 1..][k] == e;
      assert s[i] == s[i + 1 + k] == e;
    }
  }

  /** Reordering keeps ids distinct. */
  lemma DistinctReordered(a: seq<Entry>, b: seq<Entry>)
    requires multiset(a) == multiset(b) && DistinctIds(a)
    ensures DistinctIds(b)
  {
    forall i, j | 0 <= i < j < |b|
      ensures b[i].id != b[j].id
    {
      assert b[i] in multiset(b) && b[j] in multiset(b);
      assert b[i] in a && b[j] in a;
      if b[i] == b[j] {
        Multiplicity(b, i, j);
        TwoPlaces(a, b[i]);
      }
    }
  }

  lemma SameMembers(a: seq<Entry>, b: seq<Entry>)
    requires multiset(a) == multiset(b)
    ensures forall e :: e in a <==> e in b
  {
    assert forall e :: e in a <==> e in multiset(a);
    assert forall e :: e in b <==> e in multiset(b);
  }

  lemma {:induction false} WithoutKeeps(entries: seq<Entry>, id: nat)
    requires DistinctIds(entries)
    ensures DistinctIds(Without(entries, id))
    ensures forall e :: e in Without(entries, id) <==> e in entries && e.id != id
  {
    if entries != [] {
      var rest := Without(entries[1..], id);
      WithoutKeeps(entries[1..], id);
      assert Without(entries, id) == (if entries[0].id != id then [entries[0]] else []) + rest;
      hide Without;
      forall k | 0 <= k < |rest|
        ensures rest[k].id != entries[0].id
      {
        assert rest[k] in rest;
      }
      assert entries == [entries[0]] + entries[1..];
    }
  }

  /** The starts of a wake are exactly the due entries, each once. */
  lemma {:induction false} StartsAreDue(entries: seq<Entry>, now: Instant)
    requires DistinctIds(entries)
    ensures forall st :: st in Starts(entries, now) <==>
              exists e :: e in entries && Due(e, now) && st == Start(e.id, e.next.value, now)
    ensures forall i, j :: 0 <= i < j < |Starts(entries, now)| ==>
            Starts(entries, now)[i].id != Starts(entries, now)[j].id
  {
    if entries != [] {
      var rest := Starts(entries[1..], now);
      StartsAreDue(entries[1..], now);
      assert forall e :: e in entries <==> e == entries[0] || e in entries[1..];
      if Due(entries[0], now) {
        var first := Start(entries[0].id, entries[0].next.value, now);
        assert Starts(entries, now) == [first] + rest;
        forall k | 0 <= k < |rest|
          ensures rest[k].id != first.id
        {
          assert rest[k] in rest;
        }
      }
    }
  }

  /** The list that an event leaves before the loop sorts it. */
  ghost function Unsorted(s: State, e: Event): seq<Entry> {
    match e
    case Launch(now) => if s.running then s.entries else Plan(s.entries, now)
    case Wake(now) => FireAll(s.entries, now)
    case Add(schedule, now) =>
      s.entries + [Entry(s.nextID + 1, schedule, if s.running then schedule(now) else None, None)]
    case Remove(id, now) => Without(s.entries, id)
    case Snapshot => s.entries
    case Halt => s.entries
  }

  lemma StepReorders(s: State, e: Event, t: State)
    requires Step(s, e, t)
    ensures multiset(t.entries) == multiset(Unsorted(s, e))
    ensures s.nextID <= t.nextID && s.log <= t.log
    ensures t.log == s.log + if e.Wake? then Starts(s.entries, e.now) else []
    ensures t.nextID == s.nextID + if e.Add? then 1 else 0
  {
  }

  /** `u` is what the event makes of the entry `o`. */
  ghost predicate Follows(s: State, e: Event, o: Entry, u: Entry) {
    && u.id == o.id && u.schedule == o.schedule
    && match e
       case Launch(now) => u.prev == o.prev && u.next == if s.running then o.next else o.schedule(now)
       case Wake(now) =>
         if o.next.Some? && o.next.value <= now then u.prev == o.next && u.next == o.schedule(now)
         else u.prev == o.prev && u.next == o.next
       case _ => u.prev == o.prev && u.next == o.next
  }

  /** What a new entry looks like: it is planned at once if the loop runs. */
  ghost predicate Fresh(s: State, e: Event, u: Entry)
    requires e.Add?
  {
    && u.id == s.nextID + 1 && u.schedule == e.schedule
    && u.prev.None? && u.next == if s.running then e.schedule(e.now) else None
  }

  /** Where an entry of the list comes from. */
  ghost predicate Derived(s: State, e: Event, u: Entry) {
    if e.Add? && u.id == s.nextID + 1 then Fresh(s, e, u)
    else exists o :: o in s.entries && Follows(s, e, o, u)
  }

  lemma UnsortedDistinct(s: State, e: Event)
    requires DistinctIds(s.entries) && Issued(s)
    ensures DistinctIds(Unsorted(s, e))
    ensures forall u :: u in Unsorted(s, e) ==> Derived(s, e, u)
  {
    if e.Remove? {
      WithoutKeeps(s.entries, e.id);
    } else {
      var list := Unsorted(s, e);
      assert forall i :: 0 <= i < |s.entries| ==> Follows(s, e, s.entries[i], list[i]);
    }
  }

  lemma SortedStep(s: State, e: Event, t: State)
    requires Inv(s) && Step(s, e, t) && t.running
    ensures Sorted(t.entries)
  {
  }

  lemma EntriesIssued(s: State, e: Event, t: State)
    requires Inv(s) && Step(s, e, t)
    ensures forall u :: u in t.entries ==> 1 <= u.id <= t.nextID
  {
    StepReorders(s, e, t);
    UnsortedDistinct(s, e);
    SameMembers(Unsorted(s, e), t.entries);
    assert Issued(s);
    hide Step, Unsorted, Inv;
    forall u | u in t.entries
      ensures 1 <= u.id <= t.nextID
    {
      assert Derived(s, e, u);
      if !(e.Add? && u.id == s.nextID + 1) {
        var o :| o in s.entries && Follows(s, e, o, u);
      }
    }
  }

  lemma LogIssued(s: State, e: Event, t: State)
    requires Inv(s) && Step(s, e, t)
    ensures forall st :: st in t.log ==> st.id <= t.nextID
  {
    StepReorders(s, e, t);
    assert Issued(s);
    if e.Wake? {
      StartsAreDue(s.entries, e.now);
    }
    hide Step, Inv, Starts;
    forall st | st in t.log
      ensures st.id <= t.nextID
    {
      if st !in s.log {
        assert st in Starts(s.entries, e.now);
      }
    }
  }

  lemma IssuedStep(s: State, e: Event, t: State)
    requires Inv(s) && Step(s, e, t)
    ensures Issued(t)
  {
    EntriesIssued(s, e, t);
    LogIssued(s, e, t);
    hide Step, Inv;
  }

  lemma InvStep(s: State, e: Event, t: State)
    requires Inv(s) && Step(s, e, t)
    ensures Inv(t)
  {
    StepReorders(s, e, t);
    UnsortedDistinct(s, e);
    DistinctReordered(Unsorted(s, e), t.entries);
    IssuedStep(s, e, t);
    if t.running {
      SortedStep(s, e, t);
    }
    hide Step, Unsorted, Sorted, DistinctIds, Issued;
  }

  // Runs.

  /** `states[i + 1]` follows `states[i]` by `events[i]`, from a new `Cron`. */
  ghost predicate IsRun(states: seq<State>, events: seq<Event>) {
    && |states| == |events| + 1 && states[0] == INITIAL
    && forall i :: 0 <= i < |events| ==> Step(states[i], events[i], states[i + 1])
  }

  lemma {:induction false} InvAlways(states: seq<State>, events: seq<Event>, k: nat)
    requires IsRun(states, events) && k < |states|
    ensures Inv(states[k])
  {
    hide Step;
    if 0 < k {
      InvAlways(states, events, k - 1);
      InvStep(states[k - 1], events[k - 1], states[k]);
    }
  }

  /** A wake starts exactly the due entries, each once. */
  lemma WakeStartsDue(states: seq<State>, events: seq<Event>, k: nat)
    requires IsRun(states, events) && k < |events| && events[k].Wake?
    ensures var s, t, now := states[k], states[k + 1], events[k].now;
            && s.log <= t.log
            && (forall st :: st in t.log[|s.log|..] <==>
                  exists e :: e in s.entries && Due(e, now) && st == Start(e.id, e.next.value, now))
            && (forall i, j :: |s.log| <= i < j < |t.log| ==> t.log[i].id != t.log[j].id)
  {
    var s, t := states[k], states[k + 1];
    InvAlways(states, events, k);
    StepReorders(s, events[k], t);
    StartsAreDue(s.entries, events[k].now);
    assert t.log[|s.log|..] == Starts(s.entries, events[k].now);
    assert forall i :: |s.log| <= i < |t.log| ==> t.log[i] == Starts(s.entries, events[k].now)[i - |s.log|];
  }

  /** An id that was issued and is on no entry stays so, and never starts again. */
  ghost predicate Gone(s: State, id: nat) {
    id <= s.nextID && forall e :: e in s.entries ==> e.id != id
  }

  lemma GoneStep(s: State, e: Event, t: State, id: nat)
    requires Inv(s) && Step(s, e, t) && Gone(s, id)
    ensures Gone(t, id)
    ensures s.log <= t.log && forall st :: st in t.log[|s.log|..] ==> st.id != id
  {
    StepReorders(s, e, t);
    UnsortedDistinct(s, e);
    SameMembers(Unsorted(s, e), t.entries);
    if e.Wake? {
      StartsAreDue(s.entries, e.now);
    }
    assert t.log[|s.log|..] == if e.Wake? then Starts(s.entries, e.now) else [];
    hide Step, Unsorted, Sorted, Starts;
  }

  lemma RemoveForgets(s: State, e: Event, t: State)
    requires Inv(s) && Step(s, e, t) && e.Remove? && e.id <= s.nextID
    ensures Gone(t, e.id) && t.log == s.log
  {
    StepReorders(s, e, t);
    WithoutKeeps(s.entries, e.id);
    SameMembers(Unsorted(s, e), t.entries);
  }

  /** After `Remove(id)` of an issued id, no later wake of the run starts that id. */
  lemma {:induction false} RemovedNeverStarts(states: seq<State>, events: seq<Event>, i: nat, k: nat)
    requires IsRun(states, events) && i < |events| && events[i].Remove? && events[i].id <= states[i].nextID
    requires i < k < |states|
    ensures Gone(states[k], events[i].id)
    ensures states[i].log <= states[k].log
    ensures forall st :: st in states[k].log[|states[i].log|..] ==> st.id != events[i].id
  {
    hide Step, Inv, Gone;
    var id := events[i].id;
    if k == i + 1 {
      InvAlways(states, events, i);
      RemoveForgets(states[i], events[i], states[k]);
    } else {
      RemovedNeverStarts(states, events, i, k - 1);
      InvAlways(states, events, k - 1);
      GoneStep(states[k - 1], events[k - 1], states[k], id);
      var a, b, c := states[i].log, states[k - 1].log, states[k].log;
      assert c[|a|..] == b[|a|..] + c[|b|..];
    }
  }

  lemma {:induction false} NextIdGrows(states: seq<State>, events: seq<Event>, i: nat, k: nat)
    requires IsRun(states, events) && i <= k < |states|
    ensures states[i].nextID <= states[k].nextID
  {
    hide Step;
    if i < k {
      NextIdGrows(states, events, i, k - 1);
      StepReorders(states[k - 1], events[k - 1], states[k]);
    }
  }

  /** No id is issued twice. */
  lemma {:induction false} IdsNeverReused(states: seq<State>, events: seq<Event>, i: nat, k: nat)
    requires IsRun(states, events) && i < k < |events| && events[i].Add? && events[k].Add?
    ensures states[i + 1].nextID < states[k + 1].nextID
  {
    hide Step;
    StepReorders(states[k], events[k], states[k + 1]);
    NextIdGrows(states, events, i + 1, k);
  }

  // Activations, under the contract that a schedule answers with a later instant.

  ghost predicate Later(schedule: Schedule) {
    forall t :: schedule(t).Some? ==> t < schedule(t).value
  }

  ghost predicate AllLater(events: seq<Event>) {
    forall i :: 0 <= i < |events| && events[i].Add? ==> Later(events[i].schedule)
  }

  /** The clock readings of the events do not go back. */
  ghost function Clock(events: seq<Event>, k: nat): Option<Instant>
    requires k <= |events|
  {
    if k == 0 then None
    else if events[k - 1].Snapshot? || events[k - 1].Halt? then Clock(events, k - 1)
    else Some(events[k - 1].now)
  }

  ghost predicate ClockForward(events: seq<Event>) {
    forall k :: 0 <= k < |events| && !events[k].Snapshot? && !events[k].Halt? && Clock(events, k).Some? ==>
      Clock(events, k).value <= events[k].now
  }

  /** The starts of one id have increasing activations. */
  ghost predicate DuesIncrease(log: seq<Start>) {
    forall a, b :: 0 <= a < b < |log| && log[a].id == log[b].id ==> log[a].due < log[b].due
  }

  /** No entry waits for an activation that its id already had; a start is not early. */
  ghost predicate NoneRepeats(s: State, clock: Option<Instant>) {
    && (forall e :: e in s.entries ==> Later(e.schedule))
    && (forall st :: st in s.log ==> st.due <= st.now && clock.Some? && st.now <= clock.value)
    && (forall e, st :: e in s.entries && st in s.log && st.id == e.id && e.next.Some? ==> st.due < e.next.value)
    && DuesIncrease(s.log)
  }

  ghost predicate Timed(e: Event) { !e.Snapshot? && !e.Halt? }

  ghost function Tick(e: Event, clock: Option<Instant>): Option<Instant> { if Timed(e) then Some(e.now) else clock }

  lemma EntryStep(s: State, e: Event, u: Entry, clock: Option<Instant>)
    requires Issued(s) && NoneRepeats(s, clock) && Derived(s, e, u)
    requires e.Add? ==> Later(e.schedule)
    requires Timed(e) && clock.Some? ==> clock.value <= e.now
    ensures Later(u.schedule)
    ensures forall st :: st in s.log && st.id == u.id && u.next.Some? ==> st.due < u.next.value
    ensures e.Wake? && u.next.Some? ==> e.now < u.next.value
  {
    hide DuesIncrease;
    if !(e.Add? && u.id == s.nextID + 1) {
      var o :| o in s.entries && Follows(s, e, o, u);
      assert Later(o.schedule);
    }
  }

  lemma EntriesStep(s: State, e: Event, t: State, clock: Option<Instant>)
    requires Inv(s) && NoneRepeats(s, clock) && Step(s, e, t)
    requires e.Add? ==> Later(e.schedule)
    requires Timed(e) && clock.Some? ==> clock.value <= e.now
    ensures forall u :: u in t.entries ==> Later(u.schedule)
    ensures forall u, st :: u in t.entries && st in s.log && st.id == u.id && u.next.Some? ==> st.due < u.next.value
    ensures e.Wake? ==> forall u :: u in t.entries && u.next.Some? ==> e.now < u.next.value
  {
    StepReorders(s, e, t);
    UnsortedDistinct(s, e);
    SameMembers(Unsorted(s, e), t.entries);
    hide Step, Unsorted, Sorted, DistinctIds, Issued, Derived, NoneRepeats, Later, Follows;
    forall u | u in t.entries
      ensures Later(u.schedule)
      ensures forall st :: st in s.log && st.id == u.id && u.next.Some? ==> st.due < u.next.value
      ensures e.Wake? && u.next.Some? ==> e.now < u.next.value
    {
      EntryStep(s, e, u, clock);
    }
  }

  lemma DuesIncreaseAppend(earlier: seq<Start>, newest: seq<Start>)
    requires DuesIncrease(earlier)
    requires forall i, j :: 0 <= i < j < |newest| ==> newest[i].id != newest[j].id
    requires forall x, y :: x in earlier && y in newest && x.id == y.id ==> x.due < y.due
    ensures DuesIncrease(earlier + newest)
  {
  }

  lemma WakeLog(s: State, e: Event, t: State, clock: Option<Instant>)
    requires Inv(s) && NoneRepeats(s, clock) && Step(s, e, t) && e.Wake?
    requires clock.Some? ==> clock.value <= e.now
    ensures forall st :: st in t.log ==> st.due <= st.now <= e.now
    ensures DuesIncrease(t.log)
  {
    var newest := Starts(s.entries, e.now);
    StepReorders(s, e, t);
    StartsAreDue(s.entries, e.now);
    hide Step, Starts, Issued, Later, Sorted, DuesIncrease;
    assert forall st :: st in t.log ==> st in s.log || st in newest;
    DuesIncreaseAppend(s.log, newest);
  }

  lemma PendingStep(s: State, e: Event, t: State, clock: Option<Instant>)
    requires Inv(s) && NoneRepeats(s, clock) && Step(s, e, t)
    requires e.Add? ==> Later(e.schedule)
    requires Timed(e) && clock.Some? ==> clock.value <= e.now
    ensures forall st :: st in t.log && st !in s.log ==> e.Wake? && st.due <= e.now
    ensures forall u, st :: u in t.entries && st in t.log && st.id == u.id && u.next.Some? ==> st.due < u.next.value
  {
    EntriesStep(s, e, t, clock);
    StepReorders(s, e, t);
    if e.Wake? {
      StartsAreDue(s.entries, e.now);
    }
    hide Step, Sorted, DistinctIds, Inv, Starts, NoneRepeats, Later;
    assert forall st :: st in t.log ==> st in s.log || (e.Wake? && st in Starts(s.entries, e.now));
  }

  lemma NoneRepeatsStep(s: State, e: Event, t: State, clock: Option<Instant>)
    requires Inv(s) && NoneRepeats(s, clock) && Step(s, e, t)
    requires e.Add? ==> Later(e.schedule)
    requires Timed(e) && clock.Some? ==> clock.value <= e.now
    ensures NoneRepeats(t, Tick(e, clock))
  {
    EntriesStep(s, e, t, clock);
    PendingStep(s, e, t, clock);
    StepReorders(s, e, t);
    if e.Wake? {
      WakeLog(s, e, t, clock);
    }
    hide Step, Inv, Starts, Later, DuesIncrease;
  }

  lemma {:induction false} NoneRepeatsAlways(states: seq<State>, events: seq<Event>, k: nat)
    requires IsRun(states, events) && AllLater(events) && ClockForward(events) && k < |states|
    ensures NoneRepeats(states[k], Clock(events, k))
  {
    hide Step, Inv;
    if 0 < k {
      NoneRepeatsAlways(states, events, k - 1);
      InvAlways(states, events, k - 1);
      NoneRepeatsStep(states[k - 1], events[k - 1], states[k], Clock(events, k - 1));
    }
  }

  /** With later-answering schedules and a clock that does not go back, no activation of an entry is
    * started twice: the activations started for one id increase.
    */
  lemma NoActivationTwice(states: seq<State>, events: seq<Event>, k: nat, a: nat, b: nat)
    requires IsRun(states, events) && AllLater(events) && ClockForward(events) && k < |states|
    requires a < b < |states[k].log| && states[k].log[a].id == states[k].log[b].id
    ensures states[k].log[a].due < states[k].log[b].due
  {
    hide Step;
    NoneRepeatsAlways(states, events, k);
  }

  /** Every start of a run happens at or after the activation it is for. */
  lemma NoneStartsEarly(states: seq<State>, events: seq<Event>, k: nat)
    requires IsRun(states, events) && AllLater(events) && ClockForward(events) && k < |states|
    ensures forall st :: st in states[k].log ==> st.due <= st.now
  {
    hide Step;
    NoneRepeatsAlways(states, events, k);
  }

  /** After a wake no entry is due: every activation that is set lies after the clock. */
  lemma NothingDueAfterWake(states: seq<State>, events: seq<Event>, k: nat)
    requires IsRun(states, events) && AllLater(events) && ClockForward(events)
    requires k < |events| && events[k].Wake?
    ensures forall e :: e in states[k + 1].entries ==> !Due(e, events[k].now)
  {
    hide Step, Inv;
    NoneRepeatsAlways(states, events, k);
    InvAlways(states, events, k);
    EntriesStep(states[k], events[k], states[k + 1], Clock(events, k));
  }

  // The timer of the loop.

  /** What the timer waits for: the first activation, or nothing when there is none. */
  function Timer(entries: seq<Entry>): Option<Instant> { if entries == [] then None else entries[0].next }

  /** The timer waits for the least activation of all entries. */
  lemma TimerIsLeast(states: seq<State>, events: seq<Event>, k: nat)
    requires IsRun(states, events) && k < |states| && states[k].running
    ensures match Timer(states[k].entries)
            case None => forall e :: e in states[k].entries ==> e.next.None?
            case Some(at) =>
              && (exists e :: e in states[k].entries && e.next == Some(at))
              && forall e :: e in states[k].entries && e.next.Some? ==> at <= e.next.value
  {
    hide Step, DistinctIds, Issued;
    InvAlways(states, events, k);
    var entries := states[k].entries;
    forall e | e in entries
      ensures Before(entries[0], e)
    {
      var i :| 0 <= i < |entries| && entries[i] == e;
    }
  }

  lemma StartsSome(entries: seq<Entry>, now: Instant)
    requires DistinctIds(entries)
    ensures Starts(entries, now) != [] <==> exists e :: e in entries && Due(e, now)
  {
    StartsAreDue(entries, now);
    hide Starts, DistinctIds;
    if Starts(entries, now) != [] {
      assert Starts(entries, now)[0] in Starts(entries, now);
    }
    if e :| e in entries && Due(e, now) {
      assert Start(e.id, e.next.value, now) in Starts(entries, now);
    }
  }

  /** A wake starts an entry if and only if it does not come before the timer's instant. */
  lemma WakeStartsAtTimer(states: seq<State>, events: seq<Event>, k: nat)
    requires IsRun(states, events) && k < |events| && events[k].Wake?
    ensures var timer := Timer(states[k].entries);
            states[k + 1].log != states[k].log <==> timer.Some? && timer.value <= events[k].now
  {
    var s, now := states[k], events[k].now;
    InvAlways(states, events, k);
    assert s.running && DistinctIds(s.entries);
    StepReorders(s, events[k], states[k + 1]);
    TimerIsLeast(states, events, k);
    StartsSome(s.entries, now);
    hide IsRun, Step, Inv, Starts, DistinctIds, Timer;
  }

  // What becomes of one entry.

  lemma StepFollows(s: State, e: Event, t: State, o: Entry) returns (u: Entry)
    requires Inv(s) && Step(s, e, t) && o in s.entries && !(e.Remove? && e.id == o.id)
    ensures u in t.entries && Follows(s, e, o, u)
  {
    StepReorders(s, e, t);
    SameMembers(Unsorted(s, e), t.entries);
    if e.Remove? {
      WithoutKeeps(s.entries, e.id);
      u := o;
    } else {
      var i :| 0 <= i < |s.entries| && s.entries[i] == o;
      u := Unsorted(s, e)[i];
    }
  }

  /** An entry that is added while the loop runs waits for its schedule's answer at that time; one that is
    * added before waits for nothing.
    */
  lemma AddedWaits(states: seq<State>, events: seq<Event>, k: nat) returns (u: Entry)
    requires IsRun(states, events) && k < |events| && events[k].Add?
    ensures u in states[k + 1].entries && u.id == states[k].nextID + 1 && u.schedule == events[k].schedule
    ensures u.next == if states[k].running then events[k].schedule(events[k].now) else None
    ensures u.prev.None?
  {
    var s, e, t := states[k], events[k], states[k + 1];
    StepReorders(s, e, t);
    SameMembers(Unsorted(s, e), t.entries);
    u := Unsorted(s, e)[|s.entries|];
  }

  /** When a stopped loop is launched, every entry waits for its schedule's answer at that time. */
  lemma LaunchPlans(states: seq<State>, events: seq<Event>, k: nat)
    requires IsRun(states, events) && k < |events| && events[k].Launch? && !states[k].running
    ensures states[k + 1].running
    ensures forall o :: o in states[k].entries ==> o.(next := o.schedule(events[k].now)) in states[k + 1].entries
    ensures forall u :: u in states[k + 1].entries ==> u.next == u.schedule(events[k].now)
  {
    var s, now, t := states[k], events[k].now, states[k + 1];
    assert Step(s, events[k], t);
    StepReorders(s, events[k], t);
    SameMembers(Plan(s.entries, now), t.entries);
    hide Step, Unsorted, Sorted;
    var planned := Plan(s.entries, now);
    forall o | o in s.entries
      ensures o.(next := o.schedule(now)) in t.entries
    {
      var i :| 0 <= i < |s.entries| && s.entries[i] == o;
      assert planned[i] in t.entries;
    }
  }

  /** Nothing that happens at `e` touches an entry that waits for `due`. */
  ghost predicate LeavesWaiting(e: Event, id: nat, due: Instant) {
    && !e.Launch? && !(e.Remove? && e.id == id) && (e.Wake? ==> e.now < due)
  }

  /** An entry goes on waiting until a wake at or after its activation. */
  lemma {:induction false} GoesOnWaiting(states: seq<State>, events: seq<Event>, i: nat, k: nat, u: Entry)
    requires IsRun(states, events) && i <= k < |states| && u in states[i].entries && u.next.Some?
    requires forall j :: i <= j < k ==> LeavesWaiting(events[j], u.id, u.next.value)
    ensures u in states[k].entries
  {
    hide Step, Inv, LeavesWaiting, Follows;
    if i < k {
      GoesOnWaiting(states, events, i, k - 1, u);
      InvAlways(states, events, k - 1);
      assert LeavesWaiting(events[k - 1], u.id, u.next.value);
      StillWaits(states[k - 1], events[k - 1], states[k], u);
    }
  }

  lemma StillWaits(s: State, e: Event, t: State, u: Entry)
    requires Inv(s) && Step(s, e, t) && u in s.entries && u.next.Some? && LeavesWaiting(e, u.id, u.next.value)
    ensures u in t.entries
  {
    var v := StepFollows(s, e, t, u);
    hide Step, Inv;
    assert v == u;
  }

  /** The first wake at or after an entry's activation starts it, and then it waits for its schedule's answer at
    * that wake.
    */
  lemma StartsWhenDue(states: seq<State>, events: seq<Event>, i: nat, k: nat, u: Entry) returns (v: Entry)
    requires IsRun(states, events) && i <= k < |events| && u in states[i].entries && u.next.Some?
    requires forall j :: i <= j < k ==> LeavesWaiting(events[j], u.id, u.next.value)
    requires events[k].Wake? && u.next.value <= events[k].now
    ensures Start(u.id, u.next.value, events[k].now) in states[k + 1].log[|states[k].log|..]
    ensures v in states[k + 1].entries && v == u.(prev := u.next, next := u.schedule(events[k].now))
  {
    GoesOnWaiting(states, events, i, k, u);
    InvAlways(states, events, k);
    WakeStartsDue(states, events, k);
    assert Due(u, events[k].now);
    v := StepFollows(states[k], events[k], states[k + 1], u);
    hide Step, Inv;
  }

  /** After a halt nothing starts until the loop is launched again. */
  lemma {:induction false} HaltSilences(states: seq<State>, events: seq<Event>, i: nat, k: nat)
    requires IsRun(states, events) && i < k < |states| && events[i].Halt?
    requires forall j :: i < j < k ==> !events[j].Launch?
    ensures !states[k].running && states[k].log == states[i].log
  {
    hide Arranged, Starts;
    assert Step(states[k - 1], events[k - 1], states[k]);
    if i + 1 < k {
      HaltSilences(states, events, i, k - 1);
    }
  }

  ghost predicate LastStart(id: nat, log: seq<Start>, i: nat)
    requires i < |log|
  {
    log[i].id == id && forall j :: i < j < |log| ==> log[j].id != id
  }

  /** The previous activation of an entry is the one it was last started for. */
  ghost predicate PrevIsLast(e: Entry, log: seq<Start>) {
    match e.prev
    case None => forall i :: 0 <= i < |log| ==> log[i].id != e.id
    case Some(due) => exists i :: 0 <= i < |log| && LastStart(e.id, log, i) && log[i].due == due
  }

  lemma PrevStays(o: Entry, u: Entry, log: seq<Start>, more: seq<Start>)
    requires PrevIsLast(o, log) && u.id == o.id && u.prev == o.prev && forall st :: st in more ==> st.id != o.id
    ensures PrevIsLast(u, log + more)
  {
    forall j | |log| <= j < |log + more|
      ensures (log + more)[j].id != o.id
    {
      assert (log + more)[j] in more;
    }
    if o.prev.Some? {
      var i :| 0 <= i < |log| && LastStart(o.id, log, i) && log[i].due == o.prev.value;
      assert LastStart(o.id, log + more, i);
    }
  }

  lemma PrevMoves(u: Entry, log: seq<Start>, more: seq<Start>, at: nat)
    requires at < |more| && more[at].id == u.id && u.prev == Some(more[at].due)
    requires forall i, j :: 0 <= i < j < |more| ==> more[i].id != more[j].id
    ensures PrevIsLast(u, log + more)
  {
    assert LastStart(u.id, log + more, |log| + at);
  }

  lemma PrevStep(s: State, e: Event, t: State, o: Entry, u: Entry)
    requires Inv(s) && Step(s, e, t) && o in s.entries && Follows(s, e, o, u) && PrevIsLast(o, s.log)
    ensures PrevIsLast(u, t.log)
  {
    StepReorders(s, e, t);
    assert DistinctIds(s.entries);
    hide Step, Inv, PrevIsLast, Issued, Sorted;
    assert s.log + [] == s.log;
    if e.Wake? {
      var more := Starts(s.entries, e.now);
      StartsAreDue(s.entries, e.now);
      hide Starts;
      if Due(o, e.now) {
        assert Start(o.id, o.next.value, e.now) in more;
        var at :| 0 <= at < |more| && more[at] == Start(o.id, o.next.value, e.now);
        PrevMoves(u, s.log, more, at);
      } else {
        NotStarted(s.entries, o, e.now);
        PrevStays(o, u, s.log, more);
      }
    } else {
      PrevStays(o, u, s.log, []);
    }
  }

  lemma NotStarted(entries: seq<Entry>, o: Entry, now: Instant)
    requires DistinctIds(entries) && o in entries && !Due(o, now)
    ensures forall st :: st in Starts(entries, now) ==> st.id != o.id
  {
    StartsAreDue(entries, now);
    hide Starts;
  }

  lemma {:induction false} PrevAlwaysLast(states: seq<State>, events: seq<Event>, k: nat)
    requires IsRun(states, events) && k < |states|
    ensures forall u :: u in states[k].entries ==> PrevIsLast(u, states[k].log)
  {
    hide Step, Inv, PrevIsLast;
    if 0 < k {
      var s, e, t := states[k - 1], events[k - 1], states[k];
      PrevAlwaysLast(states, events, k - 1);
      InvAlways(states, events, k - 1);
      forall u | u in t.entries
        ensures PrevIsLast(u, t.log)
      {
        PrevOfEntry(s, e, t, u);
      }
    }
  }

  lemma PrevOfEntry(s: State, e: Event, t: State, u: Entry)
    requires Inv(s) && Step(s, e, t) && u in t.entries && forall o :: o in s.entries ==> PrevIsLast(o, s.log)
    ensures PrevIsLast(u, t.log)
  {
    StepReorders(s, e, t);
    UnsortedDistinct(s, e);
    SameMembers(Unsorted(s, e), t.entries);
    assert Derived(s, e, u);
    if e.Add? && u.id == s.nextID + 1 {
      assert t.log == s.log && forall st :: st in s.log ==> st.id <= s.nextID;
    } else {
      var o :| o in s.entries && Follows(s, e, o, u);
      PrevStep(s, e, t, o, u);
    }
  }
}

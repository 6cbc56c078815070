/** The scheduler loop of `internal/cron/cron.go` as a step machine: one event per turn of the
  * `select`, and the re-sort that precedes the next one.
  */
module CronLoop {
  import opened Wrappers

  type Instant = int

  /** A schedule maps an instant to the next activation; `None` is the zero time. */
  type Schedule = Instant -> Option<Instant>

  datatype Entry = Entry(id: nat, schedule: Schedule, next: Option<Instant>, prev: Option<Instant>)

  /** One job start: the entry, the activation it was due at, and the clock of the wake. */
  datatype Start = Start(id: nat, due: Instant, now: Instant)

  datatype State = State(entries: seq<Entry>, nextID: nat, running: bool, log: seq<Start>)

  datatype Event =
    | Launch(now: Instant)
    | Wake(now: Instant)
    | Add(schedule: Schedule, now: Instant)
    | Remove(id: nat, now: Instant)
    | Snapshot
    | Halt

  /** The order of the sort: earlier activations first, zero times last. */
  predicate Before(a: Entry, b: Entry) {
    b.next.None? || (a.next.Some? && a.next.value <= b.next.value)
  }

  ghost predicate Sorted(entries: seq<Entry>) {
    forall i, j :: 0 <= i < j < |entries| ==> Before(entries[i], entries[j])
  }

  predicate Due(e: Entry, now: Instant) { e.next.Some? && e.next.value <= now }

  function Fire(e: Entry, now: Instant): Entry {
    if Due(e, now) then e.(prev := e.next, next := e.schedule(now)) else e
  }

  /** Every due entry fires, wherever it stands in the list. */
  function FireAll(entries: seq<Entry>, now: Instant): (fired: seq<Entry>)
    ensures |fired| == |entries|
    ensures forall i :: 0 <= i < |entries| ==> fired[i] == Fire(entries[i], now)
  {
    seq(|entries|, i requires 0 <= i < |entries| => Fire(entries[i], now))
  }

  /** One start for every due entry, in list order. */
  function Starts(entries: seq<Entry>, now: Instant): seq<Start> {
    if entries == [] then [] else
      (if Due(entries[0], now) then [Start(entries[0].id, entries[0].next.value, now)] else [])
      + Starts(entries[1..], now)
  }

  function Plan(entries: seq<Entry>, now: Instant): (planned: seq<Entry>)
    ensures |planned| == |entries|
    ensures forall i :: 0 <= i < |entries| ==> planned[i] == entries[i].(next := entries[i].schedule(now))
  {
    seq(|entries|, i requires 0 <= i < |entries| => entries[i].(next := entries[i].schedule(now)))
  }

  function Without(entries: seq<Entry>, id: nat): seq<Entry> {
    if entries == [] then [] else
      (if entries[0].id != id then [entries[0]] else []) + Without(entries[1..], id)
  }

  /** The entries of a list in some sorted order, when the loop is running. */
  ghost predicate Arranged(list: seq<Entry>, running: bool, entries: seq<Entry>) {
    if running then multiset(entries) == multiset(list) && Sorted(entries) else entries == list
  }

  /** What each event may do. Wakes only happen while the loop runs. */
  ghost predicate Step(s: State, e: Event, t: State) {
    match e
    case Launch(now) =>
      if s.running then t == s
      else Arranged(Plan(s.entries, now), true, t.entries) && t == s.(entries := t.entries, running := true)
    case Wake(now) =>
      && s.running
      && Arranged(FireAll(s.entries, now), true, t.entries)
      && t == s.(entries := t.entries, log := s.log + Starts(s.entries, now))
    case Add(schedule, now) =>
      var entry := Entry(s.nextID + 1, schedule, if s.running then schedule(now) else None, None);
      Arranged(s.entries + [entry], s.running, t.entries) && t == s.(entries := t.entries, nextID := s.nextID + 1)
    case Remove(id, now) =>
      Arranged(Without(s.entries, id), s.running, t.entries) && t == s.(entries := t.entries)
    case Snapshot => t == s
    case Halt => t == s.(running := false)
  }

  lemma InsertSorted(entries: seq<Entry>, at: nat, e: Entry)
    requires Sorted(entries) && at <= |entries|
    requires 0 < at ==> Before(entries[at - 1], e)
    requires forall k :: at <= k < |entries| ==> Before(e, entries[k])
    ensures Sorted(entries[..at] + [e] + entries[at..])
  {
  }

  /** Stands for the library sort: callers see only that the result is a sorted permutation. */
  method SortEntries(list: seq<Entry>) returns (entries: seq<Entry>)
    ensures Arranged(list, true, entries)
  {
    entries := [];
    for n := 0 to |list|
      invariant multiset(entries) == multiset(list[..n]) && Sorted(entries)
    {
      var at := |entries|;
      while 0 < at && !Before(entries[at - 1], list[n])
        invariant 0 <= at <= |entries|
        invariant forall k :: at <= k < |entries| ==> Before(list[n], entries[k])
      {
        at := at - 1;
      }
      InsertSorted(entries, at, list[n]);
      assert list[..n + 1] == list[..n] + [list[n]];
      assert entries == entries[..at] + entries[at..];
      entries := entries[..at] + [list[n]] + entries[at..];
    }
    assert list[..|list|] == list;
  }

  lemma StartsNext(entries: seq<Entry>, i: nat, now: Instant)
    requires i < |entries| && Due(entries[i], now)
    ensures Starts(entries[i..], now)
         == [Start(entries[i].id, entries[i].next.value, now)] + Starts(entries[i + 1..], now)
  {
    assert entries[i..][1..] == entries[i + 1..];
  }

  lemma NothingKept(entries: seq<Entry>, id: nat)
    ensures Without(entries[..0], id) == []
  {
  }

  lemma {:induction false} KeepNext(entries: seq<Entry>, i: nat, id: nat)
    requires i < |entries|
    ensures Without(entries[..i + 1], id)
         == Without(entries[..i], id) + if entries[i].id != id then [entries[i]] else []
  {
    if i == 0 {
      assert entries[..1] == [entries[0]];
    } else {
      var rest := entries[1..];
      KeepNext(rest, i - 1, id);
      assert entries[..i + 1][1..] == rest[..i] && entries[..i][1..] == rest[..i - 1];
    }
  }

  lemma {:induction false} NoneDueAfter(entries: seq<Entry>, i: nat, now: Instant)
    requires i <= |entries| && Sorted(entries)
    requires i < |entries| ==> !Due(entries[i], now)
    ensures forall k :: i <= k < |entries| ==> !Due(entries[k], now)
    ensures Starts(entries[i..], now) == []
    decreases |entries| - i
  {
    if i < |entries| {
      assert entries[i..][1..] == entries[i + 1..];
      if i + 1 < |entries| {
        assert Before(entries[i], entries[i + 1]);
      }
      NoneDueAfter(entries, i + 1, now);
    }
  }

  class Cron {
    var entries: seq<Entry>
    var nextID: nat
    var running: bool
    var log: seq<Start>

    ghost function Abstract(): State
      reads this
    {
      State(entries, nextID, running, log)
    }

    constructor ()
      ensures Abstract() == State([], 0, false, [])
    {
      entries, nextID, running, log := [], 0, false, [];
    }

    /** `Start` and `Run`: plan every entry, then enter the loop. */
    method Launch(now: Instant)
      modifies this
      ensures Step(old(Abstract()), Event.Launch(now), Abstract())
    {
      if running {
        return;
      }
      running := true;
      var planned := entries;
      for i := 0 to |entries|
        invariant |planned| == |entries| && entries == old(entries) && running && nextID == old(nextID)
                  && log == old(log)
        invariant forall k :: 0 <= k < i ==> planned[k] == Plan(entries, now)[k]
        invariant forall k :: i <= k < |entries| ==> planned[k] == entries[k]
      {
        planned := planned[i := planned[i].(next := planned[i].schedule(now))];
      }
      assert planned == Plan(old(entries), now);
      entries := SortEntries(planned);
    }

    /** The timer case: run entries from the front until one is not due. */
    method Wake(now: Instant)
      requires running && Sorted(entries)
      modifies this
      ensures Step(old(Abstract()), Event.Wake(now), Abstract())
    {
      hide Sorted, Starts, FireAll;
      var i := 0;
      assert entries[0..] == entries;
      while i < |entries|
        invariant 0 <= i <= |entries| == |old(entries)| && running && nextID == old(nextID)
        invariant forall k :: 0 <= k < i ==> Due(old(entries)[k], now) && entries[k] == Fire(old(entries)[k], now)
        invariant forall k :: i <= k < |entries| ==> entries[k] == old(entries)[k]
        invariant log + Starts(old(entries)[i..], now) == old(log) + Starts(old(entries), now)
      {
        if !Due(entries[i], now) {
          break;
        }
        StartsNext(old(entries), i, now);
        log := log + [Start(entries[i].id, entries[i].next.value, now)];
        entries := entries[i := entries[i].(prev := entries[i].next, next := entries[i].schedule(now))];
        i := i + 1;
      }
      NoneDueAfter(old(entries), i, now);
      assert entries == FireAll(old(entries), now);
      assert log == old(log) + Starts(old(entries), now);
      entries := SortEntries(entries);
    }

    /** `Schedule`: ids count up from 1. */
    method Add(schedule: Schedule, now: Instant) returns (id: nat)
      modifies this
      ensures Step(old(Abstract()), Event.Add(schedule, now), Abstract()) && id == nextID
    {
      hide Sorted;
      nextID := nextID + 1;
      var entry := Entry(nextID, schedule, None, None);
      if !running {
        entries := entries + [entry];
      } else {
        entry := entry.(next := schedule(now));
        entries := SortEntries(entries + [entry]);
      }
      id := nextID;
    }

    /** `removeEntry`, and the re-sort when the loop handles it. */
    method Remove(id: nat, now: Instant)
      modifies this
      ensures Step(old(Abstract()), Event.Remove(id, now), Abstract())
    {
      hide Without, Sorted;
      var kept: seq<Entry> := [];
      NothingKept(entries, id);
      for i := 0 to |entries|
        invariant unchanged(this) && kept == Without(entries[..i], id)
      {
        KeepNext(entries, i, id);
        if entries[i].id != id {
          kept := kept + [entries[i]];
        }
      }
      assert entries[..|entries|] == entries;
      if running {
        entries := SortEntries(kept);
      } else {
        entries := kept;
      }
    }

    /** `entrySnapshot`: the entries one by one. */
    method Entries() returns (copy: seq<Entry>)
      ensures copy == entries
    {
      copy := [];
      for i := 0 to |entries|
        invariant copy == entries[..i]
      {
        copy := copy + [entries[i]];
      }
    }

    method Halt()
      modifies this
      ensures Step(old(Abstract()), Event.Halt, Abstract())
    {
      running := false;
    }
  }
}

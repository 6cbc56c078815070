/** The field-skipping cron search of `internal/cron/spec.go`, in UTC. */
module SpecSchedules {
  import opened Wrappers
  import opened Calendar
  import opened BitSets

  datatype SpecSchedule = SpecSchedule(second: bv64, minute: bv64, hour: bv64, dom: bv64, month: bv64, dow: bv64)

  predicate MonthMatches(s: SpecSchedule, t: int) { Bit(s.month, MonthOf(t)) }

  /** With a star in either day field both must match, otherwise one is enough. */
  predicate DayMatches(s: SpecSchedule, t: int) {
    var domMatch := Bit(s.dom, DayOf(t));
    var dowMatch := Bit(s.dow, WeekdayOf(t));
    if Bit(s.dom, STAR) || Bit(s.dow, STAR) then domMatch && dowMatch else domMatch || dowMatch
  }

  predicate HourMatches(s: SpecSchedule, t: int) { Bit(s.hour, HourOf(t)) }

  predicate MinuteMatches(s: SpecSchedule, t: int) { Bit(s.minute, MinuteOf(t)) }

  predicate SecondMatches(s: SpecSchedule, t: int) { Bit(s.second, SecondOf(t)) }

  /** What it means for a schedule to be active at a whole second, with no reference to a search. */
  predicate Active(s: SpecSchedule, t: int) {
    MonthMatches(s, t) && DayMatches(s, t) && HourMatches(s, t) && MinuteMatches(s, t) && SecondMatches(s, t)
  }

  ghost predicate NoneActive(s: SpecSchedule, from: int, to: int) {
    forall u :: from <= u < to ==> !Active(s, u)
  }

  /** The last year that the search for the activation after `t` considers. */
  function YearLimit(t: Time): int { YearOf(t.sec + 1) + 5 }

  /** `found` is the least active second strictly after `t`, or `None` when no second up to
    * the end of the fifth following year is active.
    */
  ghost predicate IsNext(s: SpecSchedule, t: Time, found: Option<int>) {
    match found
    case Some(r) => t.sec < r && YearOf(r) <= YearLimit(t) && Active(s, r) && NoneActive(s, t.sec + 1, r)
    case None => forall u :: t.sec < u && YearOf(u) <= YearLimit(t) ==> !Active(s, u)
  }

  /** The specification determines the result. */
  lemma NextUnique(s: SpecSchedule, t: Time, a: Option<int>, b: Option<int>)
    requires IsNext(s, t, a) && IsNext(s, t, b)
    ensures a == b
  {
    hide Active, YearLimit, YearOf;
  }

  // Units of the calendar: the month, day, hour or minute around an instant.

  function MonthLo(t: int): int { DAY * MonthStart(MonthIndex(DayNo(t))) }

  function MonthHi(t: int): int { DAY * MonthStart(MonthIndex(DayNo(t)) + 1) }

  function NextDay(t: int): int { DAY * DayNo(t) + DAY }

  function NextHour(t: int): int { HOUR * HourNo(t) + HOUR }

  function NextMinute(t: int): int { MINUTE * MinuteNo(t) + MINUTE }

  lemma MonthAround(t: int)
    ensures MonthLo(t) <= DAY * DayNo(t) <= t < MonthHi(t)
    ensures DayNo(MonthHi(t)) == MonthStart(MonthIndex(DayNo(t)) + 1)
    ensures t == MonthLo(t) ==> DayOf(t) == 1 && t == DAY * DayNo(t)
  {
    hide MonthStart, MonthIndex, DayNo;
  }

  /** Every instant of a month has its month and year, and the months are disjoint. */
  lemma SameMonth(t: int, u: int)
    requires MonthLo(t) <= u < MonthHi(t)
    ensures MonthIndex(DayNo(u)) == MonthIndex(DayNo(t))
    ensures MonthOf(u) == MonthOf(t) && YearOf(u) == YearOf(t) && MonthLo(u) == MonthLo(t) && MonthHi(u) == MonthHi(t)
  {
    hide MonthStart, MonthIndex, DayNo;
    MonthIndexUnique(DayNo(u), MonthIndex(DayNo(t)));
  }

  /** The first instant of the following month. */
  lemma MonthAfter(t: int)
    ensures var n := MonthHi(t);
            && MonthIndex(DayNo(n)) == MonthIndex(DayNo(t)) + 1
            && n == MonthLo(n) && DayOf(n) == 1
            && (MonthOf(n) != 1 ==> YearOf(n) == YearOf(t))
  {
    hide MonthStart, MonthIndex, DayNo;
    MonthAround(t);
    var index := MonthIndex(DayNo(t));
    MonthStartMonotone(index + 1, index + 2);
    MonthIndexUnique(DayNo(MonthHi(t)), index + 1);
  }

  // One calendar move at each level, with the `time` calls that make it.

  lemma AddMonth(t: int)
    ensures Date(YearOf(t), MonthOf(t), 1, 0, 0, 0) == MonthLo(t)
    ensures t == MonthLo(t) ==> AddDate(t, 0, 1, 0) == MonthHi(t)
  {
    IndexOfFields(t);
    MonthAround(t);
    hide MonthStart, MonthIndex, DayNo, HourNo, MinuteNo, YearOf, MonthOf, DayOf;
  }

  lemma MidnightFields(t: int)
    requires t == DAY * DayNo(t)
    ensures HourOf(t) == 0 && MinuteOf(t) == 0 && SecondOf(t) == 0
  {
    hide DayNo, HourNo, MinuteNo;
    assert HourNo(t) == 24 * DayNo(t);
    assert MinuteNo(t) == 60 * HourNo(t);
  }

  lemma AddDay(t: int)
    ensures Date(YearOf(t), MonthOf(t), DayOf(t), 0, 0, 0) == DAY * DayNo(t)
    ensures t == DAY * DayNo(t) ==> AddDate(t, 0, 0, 1) == NextDay(t)
  {
    DateOnDay(t, 0, 0, 0, 0);
    DateOnDay(t, 1, HourOf(t), MinuteOf(t), SecondOf(t));
    hide HourNo, MinuteNo, YearOf, MonthOf, DayOf, Date, DayNo, HourOf, MinuteOf, SecondOf;
    if t == DAY * DayNo(t) {
      MidnightFields(t);
    }
  }

  lemma AddHour(t: int)
    ensures Date(YearOf(t), MonthOf(t), DayOf(t), HourOf(t), 0, 0) == HOUR * HourNo(t)
  {
    DateOnDay(t, 0, HourOf(t), 0, 0);
    hide DayNo, HourNo, MinuteNo, YearOf, MonthOf, DayOf, Date;
  }

  lemma TruncateMinute(t: int)
    ensures Truncate(t, MINUTE) == MINUTE * MinuteNo(t)
  {
  }

  // The fields above a level do not change within its unit.

  lemma SameDay(t: int, u: int)
    requires DayNo(u) == DayNo(t)
    ensures MonthOf(u) == MonthOf(t) && YearOf(u) == YearOf(t) && DayOf(u) == DayOf(t) && WeekdayOf(u) == WeekdayOf(t)
    ensures MonthLo(u) == MonthLo(t) && MonthHi(u) == MonthHi(t)
  {
    hide DayNo, MonthIndex, MonthStart;
  }

  lemma WithinDay(t: int, u: int)
    requires t <= u < NextDay(t)
    ensures DayNo(u) == DayNo(t)
  {
  }

  lemma WithinHour(t: int, u: int)
    requires t <= u < NextHour(t)
    ensures HourNo(u) == HourNo(t) && DayNo(u) == DayNo(t)
  {
    hide DayNo, HourNo;
    assert HourNo(u) == HourNo(t);
    assert 0 <= HourOf(t) <= 23 && 0 <= HourOf(u) <= 23;
  }

  lemma WithinMinute(t: int, u: int)
    requires t <= u < NextMinute(t)
    ensures MinuteNo(u) == MinuteNo(t) && HourNo(u) == HourNo(t) && DayNo(u) == DayNo(t)
  {
    hide DayNo, HourNo, MinuteNo;
    assert MinuteNo(u) == MinuteNo(t);
    assert 0 <= MinuteOf(t) <= 59 && 0 <= MinuteOf(u) <= 59;
    assert 0 <= HourOf(t) <= 23 && 0 <= HourOf(u) <= 23;
  }

  /** A whole number of days is a whole number of hours and of minutes. */
  lemma WholeUnits(t: int)
    ensures t == DAY * DayNo(t) ==> t == HOUR * HourNo(t)
    ensures t == HOUR * HourNo(t) ==> t == MINUTE * MinuteNo(t)
  {
  }

  /** Midnight after `t` lies in the same month or is the first instant of the next one. */
  lemma Midnight(t: int)
    ensures var n := NextDay(t);
            && n == DAY * DayNo(n)
            && (if DayOf(n) == 1 then n == MonthHi(t) else t <= n < MonthHi(t))
  {
    hide MonthStart, MonthIndex, DayNo;
    MonthAround(t);
    var n := NextDay(t);
    if n < MonthHi(t) {
      SameMonth(t, n);
    } else {
      MonthAfter(t);
    }
  }

  // The search invariant.

  /** Each field that does not match stands at the first instant of its unit. */
  ghost predicate Aligned(s: SpecSchedule, t: int) {
    && (MonthMatches(s, t) || t == MonthLo(t))
    && (DayMatches(s, t) || t == DAY * DayNo(t))
    && (HourMatches(s, t) || t == HOUR * HourNo(t))
    && (MinuteMatches(s, t) || t == MINUTE * MinuteNo(t))
  }

  /** The invariant of the search that started at `start` and stands at `t`. */
  ghost predicate Searching(s: SpecSchedule, start: int, t: int, added: bool) {
    && NoneActive(s, start, t)
    && (if added then start < t && Aligned(s, t) else t == start)
  }

  lemma Skip(s: SpecSchedule, start: int, t: int, n: int, added: bool)
    requires Searching(s, start, t, added) && t < n
    requires NoneActive(s, t, n) && Aligned(s, n)
    ensures Searching(s, start, n, true)
  {
    hide Active, Aligned;
  }

  /** Month, day and hour match. */
  predicate UpToHour(s: SpecSchedule, t: int) {
    MonthMatches(s, t) && DayMatches(s, t) && HourMatches(s, t)
  }

  // The next unit is aligned whenever the fields above it match.

  lemma AlignedMonth(s: SpecSchedule, t: int)
    ensures Aligned(s, MonthHi(t))
  {
    MonthAfter(t);
    MonthAround(MonthHi(t));
    WholeUnits(MonthHi(t));
    hide MonthLo, MonthHi, MonthMatches, DayMatches, HourMatches, MinuteMatches, DayNo, HourNo, MinuteNo, YearOf,
        MonthOf, DayOf;
  }

  lemma AlignedDay(s: SpecSchedule, t: int)
    requires MonthMatches(s, t)
    ensures var n := NextDay(t);
            Aligned(s, n) && (DayOf(n) != 1 ==> MonthMatches(s, n) && YearOf(n) == YearOf(t))
  {
    hide MonthLo, MonthHi, DayMatches, HourMatches, MinuteMatches, DayNo, HourNo, MinuteNo, YearOf, MonthOf, DayOf,
        Bit, NextDay;
    var n := NextDay(t);
    Midnight(t);
    if DayOf(n) == 1 {
      AlignedMonth(s, t);
    } else {
      MonthAround(t);
      SameMonth(t, n);
      WholeUnits(n);
      assert MonthMatches(s, n);
    }
  }

  /** The next hour starts the next day or lies within the day; it is a whole hour. */
  lemma HourEnds(t: int)
    ensures var n := NextHour(t);
            && n == HOUR * HourNo(n)
            && (if HourOf(n) == 0 then n == NextDay(t) else t <= n < NextDay(t))
  {
    hide DayNo, HourNo;
    assert HourNo(NextHour(t)) == HourNo(t) + 1;
  }

  /** The next minute starts the next hour or lies within the hour; it is a whole minute. */
  lemma MinuteEnds(t: int)
    ensures var n := NextMinute(t);
            && n == MINUTE * MinuteNo(n)
            && (if MinuteOf(n) == 0 then n == NextHour(t) else t <= n < NextHour(t))
  {
    hide HourNo, MinuteNo;
    assert MinuteNo(NextMinute(t)) == MinuteNo(t) + 1;
  }

  lemma AlignedHour(s: SpecSchedule, t: int)
    requires MonthMatches(s, t) && DayMatches(s, t)
    ensures var n := NextHour(t);
            Aligned(s, n) && (HourOf(n) != 0 ==> MonthMatches(s, n) && DayMatches(s, n) && YearOf(n) == YearOf(t))
  {
    hide MonthLo, MonthHi, HourMatches, MinuteMatches, DayNo, HourNo, MinuteNo, YearOf, MonthOf, DayOf, HourOf,
        WeekdayOf, Bit;
    var n := NextHour(t);
    HourEnds(t);
    hide NextDay, NextHour;
    if HourOf(n) == 0 {
      AlignedDay(s, t);
    } else {
      WithinDay(t, n);
      SameDay(t, n);
      WholeUnits(n);
      assert MonthMatches(s, n) && DayMatches(s, n);
    }
  }

  lemma AlignedMinute(s: SpecSchedule, t: int)
    requires UpToHour(s, t)
    ensures var n := NextMinute(t);
            Aligned(s, n) && (MinuteOf(n) != 0 ==> UpToHour(s, n) && YearOf(n) == YearOf(t))
  {
    hide MonthLo, MonthHi, MinuteMatches, DayNo, HourNo, MinuteNo, YearOf, MonthOf, DayOf, MinuteOf, WeekdayOf, Bit;
    var n := NextMinute(t);
    MinuteEnds(t);
    hide NextHour, NextMinute;
    if MinuteOf(n) == 0 {
      AlignedHour(s, t);
    } else {
      WithinHour(t, n);
      SameDay(t, n);
    }
  }

  lemma AlignedSecond(s: SpecSchedule, t: int)
    requires UpToHour(s, t) && MinuteMatches(s, t)
    ensures Aligned(s, t + 1)
    ensures SecondOf(t + 1) != 0 ==> UpToHour(s, t + 1) && MinuteMatches(s, t + 1) && YearOf(t + 1) == YearOf(t)
  {
    hide MonthLo, MonthHi, DayNo, HourNo, MinuteNo, YearOf, MonthOf, DayOf, WeekdayOf, Bit;
    if SecondOf(t + 1) == 0 {
      assert t + 1 == NextMinute(t);
      AlignedMinute(s, t);
    } else {
      WithinMinute(t, t + 1);
      SameDay(t, t + 1);
    }
  }

  // One step of the search at each level: skip the rest of a unit whose field does not match.

  lemma MonthStep(s: SpecSchedule, start: int, t: int, added: bool)
    requires Searching(s, start, t, added) && !MonthMatches(s, t)
    ensures var n := MonthHi(t);
            var at := if added then t else Date(YearOf(t), MonthOf(t), 1, 0, 0, 0);
            && AddDate(at, 0, 1, 0) == n
            && Searching(s, start, n, true) && t < n
            && (MonthOf(n) != 1 ==> YearOf(n) == YearOf(t))
  {
    var n := MonthHi(t);
    MonthAround(t);
    assert NoneActive(s, t, n) by {
      forall u | t <= u < n
        ensures !Active(s, u)
      {
        SameMonth(t, u);
      }
    }
    AlignedMonth(s, t);
    MonthAfter(t);
    SameMonth(t, MonthLo(t));
    AddMonth(t);
    AddMonth(MonthLo(t));
    hide MonthLo, MonthHi, YearOf, MonthOf, DayOf, Date, AddDate, Active, MonthMatches, DayMatches, HourMatches,
        MinuteMatches, DayNo, HourNo, MinuteNo;
    Skip(s, start, t, n, added);
  }

  lemma DayStep(s: SpecSchedule, start: int, t: int, added: bool)
    requires Searching(s, start, t, added) && MonthMatches(s, t) && !DayMatches(s, t)
    ensures var n := NextDay(t);
            var at := if added then t else Date(YearOf(t), MonthOf(t), DayOf(t), 0, 0, 0);
            && AddDate(at, 0, 0, 1) == n
            && Searching(s, start, n, true) && t < n
            && (DayOf(n) != 1 ==> MonthMatches(s, n) && YearOf(n) == YearOf(t))
  {
    var n := NextDay(t);
    hide MonthLo, MonthHi, YearOf, MonthOf, DayOf, WeekdayOf, Date, AddDate, MonthMatches, HourMatches,
        MinuteMatches, DayNo, HourNo, MinuteNo, Bit;
    assert NoneActive(s, t, n) by {
      forall u | t <= u < n
        ensures !Active(s, u)
      {
        WithinDay(t, u);
        SameDay(t, u);
      }
    }
    AlignedDay(s, t);
    AddDay(t);
    AddDay(DAY * DayNo(t));
    Skip(s, start, t, n, added);
  }

  lemma HourStep(s: SpecSchedule, start: int, t: int, added: bool)
    requires Searching(s, start, t, added) && MonthMatches(s, t) && DayMatches(s, t) && !HourMatches(s, t)
    ensures var n := NextHour(t);
            var at := if added then t else Date(YearOf(t), MonthOf(t), DayOf(t), HourOf(t), 0, 0);
            && at + HOUR == n
            && Searching(s, start, n, true) && t < n
            && (HourOf(n) != 0 ==> MonthMatches(s, n) && DayMatches(s, n) && YearOf(n) == YearOf(t))
  {
    var n := NextHour(t);
    hide MonthLo, MonthHi, YearOf, MonthOf, DayOf, WeekdayOf, Date, MonthMatches, DayMatches, MinuteMatches, DayNo,
        HourNo, MinuteNo, Bit;
    assert NoneActive(s, t, n) by {
      forall u | t <= u < n
        ensures !Active(s, u)
      {
        WithinHour(t, u);
      }
    }
    AlignedHour(s, t);
    AddHour(t);
    Skip(s, start, t, n, added);
  }

  lemma MinuteStep(s: SpecSchedule, start: int, t: int, added: bool)
    requires Searching(s, start, t, added) && UpToHour(s, t) && !MinuteMatches(s, t)
    ensures var n := NextMinute(t);
            var at := if added then t else Truncate(t, MINUTE);
            && at + MINUTE == n
            && Searching(s, start, n, true) && t < n
            && (MinuteOf(n) != 0 ==> UpToHour(s, n) && YearOf(n) == YearOf(t))
  {
    var n := NextMinute(t);
    TruncateMinute(t);
    hide MonthLo, MonthHi, YearOf, MonthOf, DayOf, WeekdayOf, Truncate, MonthMatches, DayMatches, HourMatches,
        DayNo, HourNo, MinuteNo, Bit;
    assert NoneActive(s, t, n) by {
      forall u | t <= u < n
        ensures !Active(s, u)
      {
        WithinMinute(t, u);
      }
    }
    AlignedMinute(s, t);
    Skip(s, start, t, n, added);
  }

  lemma SecondStep(s: SpecSchedule, start: int, t: int, added: bool)
    requires Searching(s, start, t, added) && UpToHour(s, t) && MinuteMatches(s, t) && !SecondMatches(s, t)
    ensures Searching(s, start, t + 1, true)
    ensures SecondOf(t + 1) != 0 ==> UpToHour(s, t + 1) && MinuteMatches(s, t + 1) && YearOf(t + 1) == YearOf(t)
  {
    AlignedSecond(s, t);
    hide Aligned, UpToHour, YearOf, MonthMatches, DayMatches, HourMatches, MinuteMatches, SecondMatches;
    Skip(s, start, t, t + 1, added);
  }

  /** First second of the year after `year`: every instant of a year up to `year` lies before it. */
  function YearEnd(year: int): int { DAY * MonthStart(12 * (year + 1)) }

  lemma BeforeYearEnd(t: int, year: int)
    requires YearOf(t) <= year
    ensures t < YearEnd(year)
  {
    hide MonthStart, MonthIndex, DayNo;
    MonthStartMonotone(MonthIndex(DayNo(t)) + 1, 12 * (year + 1));
  }

  lemma Arrived(s: SpecSchedule, t: Time, at: int, added: bool)
    requires Searching(s, t.sec + 1, at, added) && YearOf(at) <= YearLimit(t)
    requires UpToHour(s, at) && MinuteMatches(s, at) && SecondMatches(s, at)
    ensures IsNext(s, t, Some(at))
  {
    hide YearLimit, YearOf, MonthMatches, DayMatches, HourMatches, MinuteMatches, SecondMatches, Aligned;
  }

  lemma PastLimit(s: SpecSchedule, t: Time, at: int, added: bool)
    requires Searching(s, t.sec + 1, at, added) && YearLimit(t) < YearOf(at)
    ensures IsNext(s, t, None)
  {
    hide YearLimit, YearOf, Active, Aligned;
    forall u | t.sec < u && YearOf(u) <= YearLimit(t)
      ensures !Active(s, u)
    {
      if at <= u {
        YearMonotone(at, u);
      }
    }
  }

  /** `SpecSchedule.Next`: fields are tried from month to second. A field that does not match is
    * moved to the start of its next unit, and the first such move truncates the lower fields
    * (`added`). Whenever a field wraps around, all fields are checked again.
    */
  method Next(s: SpecSchedule, time: Time) returns (found: Option<int>)
    requires time.Valid()
    ensures IsNext(s, time, found)
  {
    hide IsNext, Aligned, Active, YearOf, MonthMatches, DayMatches, HourMatches, MinuteMatches, SecondMatches,
        Date, AddDate, MonthOf, DayOf, HourOf, MinuteOf, SecondOf, YearEnd;
    var t := time.sec + 1;
    var added := false;
    var yearLimit := YearOf(t) + 5;
    ghost var start := t;
    ghost var end := YearEnd(yearLimit);
    assert Searching(s, start, t, added);
    hide Searching;
    label WRAP: while true
      invariant Searching(s, start, t, added)
      decreases !added, end - t
    {
      ghost var t0, added0 := t, added;
      if YearOf(t) > yearLimit {
        PastLimit(s, time, t, added);
        return None;
      }
      BeforeYearEnd(t, yearLimit);
      while !MonthMatches(s, t)
        invariant Searching(s, start, t, added) && YearOf(t) <= yearLimit
        invariant added0 ==> added && t0 <= t
        invariant !added ==> t == t0
        decreases !added, end - t
      {
        MonthStep(s, start, t, added);
        if !added {
          added := true;
          t := Date(YearOf(t), MonthOf(t), 1, 0, 0, 0);
        }
        t := AddDate(t, 0, 1, 0);
        if MonthOf(t) == 1 {
          continue WRAP;
        }
        BeforeYearEnd(t, yearLimit);
      }
      while !DayMatches(s, t)
        invariant Searching(s, start, t, added) && YearOf(t) <= yearLimit && MonthMatches(s, t)
        invariant added0 ==> added && t0 <= t
        invariant !added ==> t == t0
        decreases !added, end - t
      {
        DayStep(s, start, t, added);
        if !added {
          added := true;
          t := Date(YearOf(t), MonthOf(t), DayOf(t), 0, 0, 0);
        }
        t := AddDate(t, 0, 0, 1);
        if DayOf(t) == 1 {
          continue WRAP;
        }
        BeforeYearEnd(t, yearLimit);
      }
      while !HourMatches(s, t)
        invariant Searching(s, start, t, added) && YearOf(t) <= yearLimit && MonthMatches(s, t) && DayMatches(s, t)
        invariant added0 ==> added && t0 <= t
        invariant !added ==> t == t0
        decreases !added, end - t
      {
        HourStep(s, start, t, added);
        if !added {
          added := true;
          t := Date(YearOf(t), MonthOf(t), DayOf(t), HourOf(t), 0, 0);
        }
        t := t + 1 * HOUR;
        if HourOf(t) == 0 {
          continue WRAP;
        }
        BeforeYearEnd(t, yearLimit);
      }
      while !MinuteMatches(s, t)
        invariant Searching(s, start, t, added) && YearOf(t) <= yearLimit && UpToHour(s, t)
        invariant added0 ==> added && t0 <= t
        invariant !added ==> t == t0
        decreases !added, end - t
      {
        MinuteStep(s, start, t, added);
        if !added {
          added := true;
          t := Truncate(t, MINUTE);
        }
        t := t + 1 * MINUTE;
        if MinuteOf(t) == 0 {
          continue WRAP;
        }
        BeforeYearEnd(t, yearLimit);
      }
      while !SecondMatches(s, t)
        invariant Searching(s, start, t, added) && YearOf(t) <= yearLimit && UpToHour(s, t) && MinuteMatches(s, t)
        invariant added0 ==> added && t0 <= t
        invariant !added ==> t == t0
        decreases !added, end - t
      {
        SecondStep(s, start, t, added);
        if !added {
          added := true;
          t := Truncate(t, 1);
        }
        t := t + 1;
        if SecondOf(t) == 0 {
          continue WRAP;
        }
        BeforeYearEnd(t, yearLimit);
      }
      Arrived(s, time, t, added);
      return Some(t);
    }
  }

  // What the search answers, in dates.

  /** A schedule is active on a date exactly when its month, hour, minute and second are set, and its day of
    * month and weekday both if one of the two carries the star mark, otherwise one of them.
    */
  lemma ActiveOnDate(s: SpecSchedule, year: int, month: int, day: int, hour: int, minute: int, second: int)
    requires 1 <= month <= 12 && 1 <= day <= DaysIn(year, month)
    requires 0 <= hour <= 23 && 0 <= minute <= 59 && 0 <= second <= 59
    ensures Active(s, Date(year, month, day, hour, minute, second))
       <==> && Bit(s.month, month) && Bit(s.hour, hour) && Bit(s.minute, minute) && Bit(s.second, second)
            && (if Bit(s.dom, 63) || Bit(s.dow, 63)
                then Bit(s.dom, day) && Bit(s.dow, DaysFromSunday(year, month, day))
                else Bit(s.dom, day) || Bit(s.dow, DaysFromSunday(year, month, day)))
  {
    WeekdayOfDate(year, month, day, hour, minute, second);
    DateFields(year, month, day, hour, minute, second);
    hide Bit, Date, DaysIn, WeekdayOf, YearOf, MonthOf, DayOf, HourOf, MinuteOf, SecondOf, DaysFromSunday, DayNo,
        MonthStart;
  }

  /** A schedule that restricts the weekday, and not the day of month, answers with days that lie whole weeks
    * from that weekday after Sunday, January 7, 2024.
    */
  lemma NextOnWeekday(s: SpecSchedule, t: Time, r: int, weekday: nat)
    requires IsNext(s, t, Some(r)) && Bit(s.dom, 63) && weekday <= 6
    requires forall v: nat :: v <= 6 ==> (Bit(s.dow, v) <==> v == weekday)
    ensures (DayNo(r) - DayNo(Date(2024, 1, 7, 0, 0, 0))) % 7 == weekday
  {
    WeekdaysFromSunday(r);
    hide Bit, Date, DayNo, WeekdayOf, YearOf, NoneActive, MonthMatches, HourMatches, MinuteMatches, SecondMatches,
        YearLimit;
    assert WeekdayOf(r) == weekday;
  }

  lemma BeforeNewYear(first: int, year: int)
    requires first == DAY * MonthStart(12 * year)
    ensures YearOf(first - 1) == year - 1
  {
    var index := 12 * year;
    MonthLength(index - 1);
    hide MonthStart, MonthIndex, DaysIn, DayNo;
    assert DayNo(first - 1) == MonthStart(index) - 1;
    MonthIndexUnique(DayNo(first - 1), index - 1);
  }

  /** The years up to `year` end where the next one begins. */
  lemma InYears(t: int, year: int)
    ensures YearOf(t) <= year <==> t < Date(year + 1, 1, 1, 0, 0, 0)
  {
    hide YearOf, DayNo, MonthStart, MonthOf, DayOf, HourOf, MinuteOf, SecondOf, DaysIn;
    var first := Date(year + 1, 1, 1, 0, 0, 0);
    DateFields(year + 1, 1, 1, 0, 0, 0);
    assert first == DAY * MonthStart(12 * (year + 1));
    hide Date;
    if t < first {
      YearMonotone(t, first - 1);
      BeforeNewYear(first, year + 1);
    } else {
      YearMonotone(first, t);
    }
  }

  /** Whatever is active before the sixth following new year is found, or something earlier; what is found
    * lies before that new year.
    */
  lemma FoundWithinFiveYears(s: SpecSchedule, t: Time, found: Option<int>, u: int)
    requires IsNext(s, t, found)
    ensures t.sec < u < Date(YearOf(t.sec + 1) + 6, 1, 1, 0, 0, 0) && Active(s, u) ==> found.Some? && found.value <= u
    ensures found.Some? ==> t.sec < found.value < Date(YearOf(t.sec + 1) + 6, 1, 1, 0, 0, 0)
  {
    hide Active, YearOf, Date;
    var limit := YearOf(t.sec + 1) + 5;
    InYears(u, limit);
    if found.Some? {
      InYears(found.value, limit);
    }
  }
}

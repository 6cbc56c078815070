/** The minute-by-minute cron search of `internal/scheduler/parser.go`, in UTC. */
module Scheduler {
  import opened Wrappers
  import opened Calendar
  import opened Text

  datatype FieldMatcher =
    | Wildcard
    | Exact(value: int)
    | Range(start: int, end: int)
    | List(values: seq<int>)
    | Step(step: int, min: int, max: int)
  {
    predicate Valid() { Step? ==> 0 < step }

    predicate Matches(v: int)
      requires Valid()
    {
      match this
      case Wildcard => true
      case Exact(value) => v == value
      case Range(start, end) => start <= v <= end
      case List(values) => v in values
      case Step(step, min, max) => min <= v <= max && (v - min) % step == 0
    }

    /** What a field between the two bounds may ask for. */
    predicate Legal(min: int, max: int) {
      match this
      case Wildcard => true
      case Exact(value) => min <= value <= max
      case Range(start, end) => min <= start <= end <= max
      case List(values) => |values| >= 2 && forall k :: 0 <= k < |values| ==> min <= values[k] <= max
      case Step(step, lo, hi) => lo == min && hi == max && 1 <= step <= max
    }
  }

  datatype ParseError = FieldCount | InvalidStep | InvalidListValue | InvalidRange | InvalidValue

  datatype Schedule = Schedule(
    seconds: FieldMatcher, minutes: FieldMatcher, hours: FieldMatcher,
    days: FieldMatcher, months: FieldMatcher, weekdays: FieldMatcher, hasSecs: bool)
  {
    /** What the parser guarantees: without a seconds field only second 0 matches. */
    predicate Valid() {
      && seconds.Valid() && minutes.Valid() && hours.Valid() && days.Valid() && months.Valid() && weekdays.Valid()
      && (!hasSecs ==> seconds == Exact(0))
    }

    predicate Matches(t: int)
      requires Valid()
    {
      && seconds.Matches(SecondOf(t))
      && minutes.Matches(MinuteOf(t))
      && hours.Matches(HourOf(t))
      && months.Matches(MonthOf(t))
      && (days.Matches(DayOf(t)) || weekdays.Matches(WeekdayOf(t)))
    }
  }

  function InRange(text: string, min: int, max: int): Option<int> {
    match Atoi(text)
    case None => None
    case Some(v) => if v < min || v > max then None else Some(v)
  }

  /** The values of a comma list, or nothing when one of them is invalid. */
  function ListValues(parts: seq<string>, min: int, max: int): (values: Option<seq<int>>)
    ensures values.Some? ==> |values.value| == |parts| && forall k :: 0 <= k < |parts| ==> min <= values.value[k] <= max
  {
    if parts == [] then Some([]) else
      match (InRange(TrimSpace(parts[0]), min, max), ListValues(parts[1..], min, max))
      case (Some(v), Some(rest)) => Some([v] + rest)
      case _ => None
  }

  function FieldSpec(field: string, min: int, max: int): (m: Result<FieldMatcher, ParseError>)
    ensures m.Ok? ==> m.value.Legal(min, max)
  {
    if field == "*" then Ok(Wildcard)
    else if HasPrefix(field, "*/") then
      match InRange(field[2..], 1, max)
      case None => Err(InvalidStep)
      case Some(step) => Ok(Step(step, min, max))
    else if ',' in field then
      match ListValues(Split(field, ','), min, max)
      case None => Err(InvalidListValue)
      case Some(values) => Ok(List(values))
    else if '-' in field then
      var parts := Split(field, '-');
      if |parts| != 2 then Err(InvalidRange) else
        match (Atoi(TrimSpace(parts[0])), Atoi(TrimSpace(parts[1])))
        case (Some(start), Some(end)) =>
          if start < min || end > max || start > end then Err(InvalidRange) else Ok(Range(start, end))
        case _ => Err(InvalidRange)
    else
      match InRange(field, min, max)
      case None => Err(InvalidValue)
      case Some(v) => Ok(Exact(v))
  }

  lemma {:induction false} ListValuesPrefix(parts: seq<string>, n: nat, min: int, max: int)
    requires n < |parts| && ListValues(parts[..n], min, max).Some?
    ensures match InRange(TrimSpace(parts[n]), min, max)
            case None => ListValues(parts, min, max).None?
            case Some(v) => ListValues(parts[..n + 1], min, max) == Some(ListValues(parts[..n], min, max).value + [v])
  {
    hide InRange, TrimSpace;
    if n == 0 {
      assert parts[..1] == [parts[0]];
      var v := InRange(TrimSpace(parts[0]), min, max);
      if v.Some? {
        assert ListValues([parts[0]], min, max) == Some([v.value] + []) && [] + [v.value] == [v.value] + [];
      }
    } else {
      assert parts[..n][1..] == parts[1..][..n - 1] && parts[..n + 1][1..] == parts[1..][..n];
      ListValuesPrefix(parts[1..], n - 1, min, max);
      var first, v := InRange(TrimSpace(parts[0]), min, max), InRange(TrimSpace(parts[n]), min, max);
      assert parts[..n + 1][0] == parts[..n][0] == parts[0];
      if v.Some? {
        var middle := ListValues(parts[1..][..n - 1], min, max).value;
        assert [first.value] + (middle + [v.value]) == ([first.value] + middle) + [v.value];
      }
    }
  }

  /** `parseField` */
  method ParseField(field: string, min: int, max: int) returns (m: Result<FieldMatcher, ParseError>)
    ensures m == FieldSpec(field, min, max)
  {
    hide InRange, TrimSpace, Atoi;
    if field == "*" {
      return Ok(Wildcard);
    }
    if HasPrefix(field, "*/") {
      var step := InRange(field[2..], 1, max);
      return if step.None? then Err(InvalidStep) else Ok(Step(step.value, min, max));
    }
    if ',' in field {
      var parts := Split(field, ',');
      var values: seq<int> := [];
      for n := 0 to |parts|
        invariant ListValues(parts[..n], min, max) == Some(values)
      {
        ListValuesPrefix(parts, n, min, max);
        var v := InRange(TrimSpace(parts[n]), min, max);
        if v.None? {
          return Err(InvalidListValue);
        }
        values := values + [v.value];
      }
      assert parts[..|parts|] == parts;
      return Ok(List(values));
    }
    if '-' in field {
      var parts := Split(field, '-');
      if |parts| != 2 {
        return Err(InvalidRange);
      }
      var start, end := Atoi(TrimSpace(parts[0])), Atoi(TrimSpace(parts[1]));
      if start.None? || end.None? || start.value < min || end.value > max || start.value > end.value {
        return Err(InvalidRange);
      }
      return Ok(Range(start.value, end.value));
    }
    var v := InRange(field, min, max);
    return if v.None? then Err(InvalidValue) else Ok(Exact(v.value));
  }

  function Numerals(values: seq<int>): (parts: seq<string>)
    ensures |parts| == |values| && forall k :: 0 <= k < |values| ==> parts[k] == Itoa(values[k])
  {
    seq(|values|, k requires 0 <= k < |values| => Itoa(values[k]))
  }

  /** The text of a matcher. */
  function FieldText(m: FieldMatcher): string {
    match m
    case Wildcard => "*"
    case Exact(value) => Itoa(value)
    case Range(start, end) => Itoa(start) + "-" + Itoa(end)
    case List(values) => Join(Numerals(values), ',')
    case Step(step, _, _) => "*/" + Itoa(step)
  }

  lemma NumeralsStep(values: seq<int>, parts: seq<string>, min: nat, max: nat)
    requires values != [] && parts == Numerals(values)
    requires InRange(TrimSpace(parts[0]), min, max) == Some(values[0])
    requires ListValues(Numerals(values[1..]), min, max) == Some(values[1..])
    ensures ListValues(Numerals(values), min, max) == Some(values)
  {
    hide InRange, TrimSpace, Itoa;
    assert parts[1..] == Numerals(values[1..]) && values == [values[0]] + values[1..];
  }

  lemma {:induction false} NumeralsRead(values: seq<int>, min: nat, max: nat)
    requires max < 0x8000_0000_0000_0000 && forall k :: 0 <= k < |values| ==> min <= values[k] <= max
    ensures ListValues(Numerals(values), min, max) == Some(values)
  {
    if values != [] {
      var parts := Numerals(values);
      Numeral(values[0]);
      assert InRange(TrimSpace(parts[0]), min, max) == Some(values[0]) by { hide Atoi, TrimSpace, Itoa; }
      hide *;
      NumeralsRead(values[1..], min, max);
      NumeralsStep(values, parts, min, max);
    }
  }

  lemma {:induction false} NotInJoin(parts: seq<string>, c: char, x: char)
    requires x != c && forall k :: 0 <= k < |parts| ==> x !in parts[k]
    ensures x !in Join(parts, c)
  {
    if |parts| > 1 {
      NotInJoin(parts[1..], c, x);
    }
  }

  lemma ListText(values: seq<int>, min: nat, max: nat)
    requires max < 0x8000_0000_0000_0000 && List(values).Legal(min, max)
    ensures var field := FieldText(List(values));
            ',' in field && '*' !in field && Split(field, ',') == Numerals(values)
  {
    var parts := Numerals(values);
    forall k | 0 <= k < |parts|
      ensures ',' !in parts[k] && '*' !in parts[k]
    {
      Numeral(values[k]);
    }
    hide Itoa, Numerals;
    SplitOfJoin(parts, ',');
    NotInJoin(parts, ',', '*');
    assert Join(parts, ',')[|parts[0]|] == ',';
  }

  /** Every legal matcher is read from its text, so the matchers that fields are read as are exactly
    * the legal ones.
    */
  lemma FieldRoundTrip(m: FieldMatcher, min: nat, max: nat)
    requires max < 0x8000_0000_0000_0000 && m.Legal(min, max)
    ensures FieldSpec(FieldText(m), min, max) == Ok(m)
  {
    hide Atoi, TrimSpace, Itoa, Split, ListValues, Join;
    match m
    case Wildcard =>
    case Exact(value) =>
      Numeral(value);
      assert Itoa(value)[0] in Itoa(value);
    case Range(start, end) =>
      Numeral(start);
      Numeral(end);
      SplitAt(Itoa(start), '-', Itoa(end));
      assert Split(Itoa(end), '-') == [Itoa(end)];
      var field := FieldText(m);
      assert field[|Itoa(start)|] == '-' && field[0] == Itoa(start)[0];
    case List(values) =>
      ListText(values, min, max);
      NumeralsRead(values, min, max);
      hide FieldText;
      assert FieldText(m)[0] in FieldText(m);
    case Step(step, _, _) =>
      Numeral(step);
      assert FieldText(m)[2..] == Itoa(step);
  }

  /** Every accepted field selects a value between its bounds, and only the wildcard selects others. */
  lemma LegalSelects(m: FieldMatcher, min: int, max: int)
    requires m.Legal(min, max) && min <= max
    ensures exists v :: min <= v <= max && m.Matches(v)
    ensures !m.Wildcard? ==> forall v :: m.Matches(v) ==> min <= v <= max
  {
    match m
    case Wildcard => assert m.Matches(min);
    case Exact(value) => assert m.Matches(value);
    case Range(start, _) => assert m.Matches(start);
    case List(values) => assert m.Matches(values[0]);
    case Step(step, _, _) => assert m.Matches(min);
  }

  /** The number of fields is right, and each one is accepted. */
  predicate Accepts(fields: seq<string>) {
    && (|fields| == 5 || (|fields| == 6 && FieldSpec(fields[0], 0, 59).Ok?))
    && var offset := |fields| - 5;
       && FieldSpec(fields[offset], 0, 59).Ok? && FieldSpec(fields[offset + 1], 0, 23).Ok?
       && FieldSpec(fields[offset + 2], 1, 31).Ok? && FieldSpec(fields[offset + 3], 1, 12).Ok?
       && FieldSpec(fields[offset + 4], 0, 7).Ok?
  }

  /** What `ParseCronExpression` makes of the blank-separated fields. */
  function ScheduleSpec(fields: seq<string>): (s: Result<Schedule, ParseError>)
    ensures s.Ok? ==> s.value.Valid() && s.value.hasSecs == (|fields| == 6)
  {
    if |fields| != 5 && |fields| != 6 then Err(FieldCount) else
      var offset := |fields| - 5;
      var seconds :- if offset == 1 then FieldSpec(fields[0], 0, 59) else Ok(Exact(0));
      var minutes :- FieldSpec(fields[offset], 0, 59);
      var hours :- FieldSpec(fields[offset + 1], 0, 23);
      var days :- FieldSpec(fields[offset + 2], 1, 31);
      var months :- FieldSpec(fields[offset + 3], 1, 12);
      var weekdays :- FieldSpec(fields[offset + 4], 0, 7);
      Ok(Schedule(seconds, minutes, hours, days, months, weekdays, offset == 1))
  }

  /** Each matcher is read from its own field, within the bounds of that field. */
  lemma ScheduleFields(fields: seq<string>, s: Schedule)
    requires ScheduleSpec(fields) == Ok(s)
    ensures |fields| == 5 || |fields| == 6
    ensures s.hasSecs == (|fields| == 6)
    ensures if s.hasSecs then FieldSpec(fields[0], 0, 59) == Ok(s.seconds) else s.seconds == Exact(0)
    ensures var offset := |fields| - 5;
            && FieldSpec(fields[offset], 0, 59) == Ok(s.minutes) && FieldSpec(fields[offset + 1], 0, 23) == Ok(s.hours)
            && FieldSpec(fields[offset + 2], 1, 31) == Ok(s.days)
            && FieldSpec(fields[offset + 3], 1, 12) == Ok(s.months)
            && FieldSpec(fields[offset + 4], 0, 7) == Ok(s.weekdays)
  {
    hide FieldSpec;
  }

  lemma ScheduleAccepted(fields: seq<string>)
    ensures ScheduleSpec(fields).Ok? <==> Accepts(fields)
  {
    hide FieldSpec;
  }

  /** `ParseCronExpression` on the blank-separated fields. */
  method ParseCronExpression(fields: seq<string>) returns (s: Result<Schedule, ParseError>)
    ensures s == ScheduleSpec(fields)
  {
    hide FieldSpec, FieldMatcher.Legal;
    if |fields| != 5 && |fields| != 6 {
      return Err(FieldCount);
    }
    var offset, seconds := 0, Exact(0);
    if |fields| == 6 {
      seconds :- ParseField(fields[0], 0, 59);
      offset := 1;
    }
    var minutes :- ParseField(fields[offset], 0, 59);
    var hours :- ParseField(fields[offset + 1], 0, 23);
    var days :- ParseField(fields[offset + 2], 1, 31);
    var months :- ParseField(fields[offset + 3], 1, 12);
    var weekdays :- ParseField(fields[offset + 4], 0, 7);
    return Ok(Schedule(seconds, minutes, hours, days, months, weekdays, |fields| == 6));
  }

  /** The first instant that the search looks at: the following whole second or minute. */
  function Start(s: Schedule, from: Time): int {
    if s.hasSecs then Truncate(from.sec + 1, 1) else Truncate(from.sec + MINUTE, MINUTE)
  }

  /** The search gives up at this instant. */
  function Cap(s: Schedule, from: Time): int { AddDate(Start(s, from), 4, 0, 0) }

  ghost predicate NoneMatches(s: Schedule, from: int, to: int)
    requires s.Valid()
  {
    forall u :: from <= u < to ==> !s.Matches(u)
  }

  /** `found` is the least matching second after `from` and before the cap. */
  ghost predicate IsNext(s: Schedule, from: Time, found: Option<int>)
    requires s.Valid()
  {
    match found
    case Some(r) => from.sec < r < Cap(s, from) && s.Matches(r) && NoneMatches(s, from.sec + 1, r)
    case None => NoneMatches(s, from.sec + 1, Cap(s, from))
  }

  /** Without a seconds field nothing matches inside a minute. */
  lemma OffGrid(s: Schedule, at: int, unit: int)
    requires s.Valid() && unit == (if s.hasSecs then 1 else MINUTE)
    requires !s.hasSecs ==> at % MINUTE == 0
    ensures NoneMatches(s, at + 1, at + unit)
  {
    hide MonthOf, DayOf, HourOf, MinuteOf, WeekdayOf;
    forall u | at + 1 <= u < at + unit
      ensures !s.Matches(u)
    {
      assert SecondOf(u) == u - at;
    }
  }

  lemma StartBounds(s: Schedule, from: Time)
    ensures from.sec < Start(s, from) <= from.sec + MINUTE
  {
  }

  lemma BeforeStart(s: Schedule, from: Time)
    requires s.Valid()
    ensures NoneMatches(s, from.sec + 1, Start(s, from))
    ensures from.sec < Start(s, from)
    ensures !s.hasSecs ==> Start(s, from) % MINUTE == 0
  {
    hide MonthOf, DayOf, HourOf, MinuteOf, WeekdayOf, SecondOf;
    if !s.hasSecs {
      OffGrid(s, Start(s, from) - MINUTE, MINUTE);
    }
  }

  lemma Miss(s: Schedule, from: int, at: int, unit: int)
    requires s.Valid() && unit == (if s.hasSecs then 1 else MINUTE)
    requires !s.hasSecs ==> at % MINUTE == 0
    requires NoneMatches(s, from, at) && !s.Matches(at)
    ensures NoneMatches(s, from, at + unit)
    ensures !s.hasSecs ==> (at + unit) % MINUTE == 0
  {
    OffGrid(s, at, unit);
    hide Schedule.Matches, Schedule.Valid;
  }

  lemma CapAfterStart(s: Schedule, from: Time)
    ensures Cap(s, from) == AddDate(Start(s, from), 4, 0, 0)
  {
    hide AddDate, Start;
  }

  lemma Hit(s: Schedule, time: Time, at: int)
    requires s.Valid() && time.sec < at < Cap(s, time)
    requires NoneMatches(s, time.sec + 1, at) && s.Matches(at)
    ensures IsNext(s, time, Some(at))
  {
  }

  lemma NoHit(s: Schedule, time: Time, at: int)
    requires s.Valid() && NoneMatches(s, time.sec + 1, at) && Cap(s, time) <= at
    ensures IsNext(s, time, None)
  {
    hide Schedule.Matches, Schedule.Valid, Cap;
  }

  /** `Schedule.Next` */
  method Next(s: Schedule, time: Time) returns (found: Option<int>)
    requires s.Valid() && time.Valid()
    ensures IsNext(s, time, found)
  {
    hide AddDate, Schedule.Matches, Schedule.Valid, Start, NoneMatches, IsNext, Cap;
    var from := Start(s, time);
    var maxTime := AddDate(from, 4, 0, 0);
    var unit := if s.hasSecs then 1 else MINUTE;
    CapAfterStart(s, time);
    BeforeStart(s, time);
    while from < maxTime
      invariant NoneMatches(s, time.sec + 1, from) && time.sec < from
      invariant !s.hasSecs ==> from % MINUTE == 0
    {
      if s.Matches(from) {
        Hit(s, time, from);
        return Some(from);
      }
      Miss(s, time.sec + 1, from, unit);
      from := from + unit;
    }
    NoHit(s, time, from);
    return None;
  }

  // What the search answers, in dates.

  /** A schedule matches a date exactly when second, minute, hour and month match, and the day of month or
    * the weekday.
    */
  lemma MatchesOnDate(s: Schedule, year: int, month: int, day: int, hour: int, minute: int, second: int)
    requires s.Valid() && 1 <= month <= 12 && 1 <= day <= DaysIn(year, month)
    requires 0 <= hour <= 23 && 0 <= minute <= 59 && 0 <= second <= 59
    ensures s.Matches(Date(year, month, day, hour, minute, second))
       <==> && s.seconds.Matches(second) && s.minutes.Matches(minute) && s.hours.Matches(hour)
            && s.months.Matches(month)
            && (s.days.Matches(day) || s.weekdays.Matches(DaysFromSunday(year, month, day)))
  {
    WeekdayOfDate(year, month, day, hour, minute, second);
    DateFields(year, month, day, hour, minute, second);
    hide FieldMatcher.Matches, Date, DaysIn, WeekdayOf, YearOf, MonthOf, DayOf, HourOf, MinuteOf, SecondOf, DayNo,
        MonthStart;
  }

  /** The search looks at the next whole second, or without a seconds field at the next whole minute. */
  lemma FirstLook(s: Schedule, from: Time)
    ensures s.hasSecs ==> Start(s, from) == from.sec + 1
    ensures !s.hasSecs ==> Start(s, from) % 60 == 0 && from.sec < Start(s, from) <= from.sec + 60
  {
  }

  /** The search gives up on the same date four years after its first look. */
  lemma CapOnDate(s: Schedule, from: Time, year: int, month: int, day: int, hour: int, minute: int, second: int)
    requires 1 <= month <= 12 && 1 <= day <= DaysIn(year, month)
    requires 0 <= hour <= 23 && 0 <= minute <= 59 && 0 <= second <= 59
    requires Start(s, from) == Date(year, month, day, hour, minute, second)
    ensures Cap(s, from) == Date(year + 4, month, day, hour, minute, second)
  {
    DateFields(year, month, day, hour, minute, second);
    hide Start, Date, DaysIn, YearOf, MonthOf, DayOf, HourOf, MinuteOf, SecondOf, DayNo, MonthStart;
  }

  /** Whatever matches before the same date four years after the first look is found, or something earlier. */
  lemma FoundWithinFourYears(s: Schedule, from: Time, found: Option<int>, u: int,
                             year: int, month: int, day: int, hour: int, minute: int, second: int)
    requires s.Valid() && IsNext(s, from, found)
    requires 1 <= month <= 12 && 1 <= day <= DaysIn(year, month)
    requires 0 <= hour <= 23 && 0 <= minute <= 59 && 0 <= second <= 59
    requires Start(s, from) == Date(year, month, day, hour, minute, second)
    requires from.sec < u < Date(year + 4, month, day, hour, minute, second) && s.Matches(u)
    ensures found.Some? && from.sec < found.value <= u && s.Matches(found.value)
  {
    CapOnDate(s, from, year, month, day, hour, minute, second);
    hide Start, Date, Cap, DaysIn, Schedule.Matches, Schedule.Valid;
  }
}

/** The two cron implementations on the specs that both accept: the field-skipping search refines
  * the minute-by-minute search.
  */
module CronAgreement {
  import opened Wrappers
  import opened Calendar
  import opened BitSets
  import opened Text
  import C = CronParser
  import S = Scheduler
  import Fast = SpecSchedules

  // One field.

  /** A field that restricts nothing: `*` or `*` with step one. */
  predicate IsWildcard(field: string) {
    field == "*" || (HasPrefix(field, "*/") && Atoi(field[2..]) == Some(1))
  }

  ghost predicate NamesAreWords(names: map<string, nat>) {
    forall name :: name in names ==> name != "" && 'a' <= name[0] <= 'z'
  }

  lemma NamesOfFields()
    ensures NamesAreWords(C.MONTHS.names) && NamesAreWords(C.DOW.names)
  {
  }

  /** A number is never read as a month or weekday name, and both packages read it alike. */
  lemma SameNumber(text: string, r: C.Bounds)
    requires NamesAreWords(r.names) && Atoi(text).Some?
    ensures C.ParseIntOrName(text, r.names) == C.MustParseInt(text)
    ensures TrimSpace(text) == text && !C.IsStar(text)
    ensures ',' !in text && '/' !in text
    ensures '-' in text ==> text[0] == '-'
  {
    AtoiNumeric(text);
    hide Atoi, TrimSpace;
    assert ToLower(text)[0] == text[0];
  }

  /** A number that the field-skipping package accepts as an item is that single value. */
  lemma NumberItem(text: string, r: C.Bounds)
    requires NamesAreWords(r.names) && Atoi(text).Some? && C.ParseRange(text, r).Ok?
    ensures 0 <= Atoi(text).value
    ensures C.ParseRange(text, r).value == C.Item(Atoi(text).value, Atoi(text).value, 1, false)
  {
  }

  lemma CoversOne(value: nat, v: nat)
    ensures C.Covers(C.Item(value, value, 1, false), v) <==> v == value
  {
  }

  /** `items` and the matcher select the same values of the field, and the star mark is as expected. */
  ghost predicate Agree(m: S.FieldMatcher, items: seq<C.Item>, r: C.Bounds, wildcard: bool)
    requires m.Valid()
  {
    && (forall v: nat :: r.min <= v <= r.max ==> (m.Matches(v) <==> C.Covered(items, v)))
    && (C.Starred(items) <==> wildcard)
  }

  lemma {:induction false} ListAgrees(parts: seq<string>, values: seq<int>, items: seq<C.Item>, r: C.Bounds, max: int)
    requires NamesAreWords(r.names) && forall k :: 0 <= k < |parts| ==> Blankless(parts[k])
    requires S.ListValues(parts, r.min, max) == Some(values)
    requires C.ParseItems(NonEmpty(parts), r) == Ok(items)
    ensures |items| == |values|
    ensures forall k :: 0 <= k < |values| ==> 0 <= values[k] && items[k] == C.Item(values[k], values[k], 1, false)
  {
    if parts != [] {
      var part := parts[0];
      assert TrimSpace(part) == part;
      assert part != "";
      assert NonEmpty(parts)[0] == part && NonEmpty(parts)[1..] == NonEmpty(parts[1..]);
      NumberItem(part, r);
      ListAgrees(parts[1..], values[1..], items[1..], r, max);
    }
  }

  lemma ListCovers(values: seq<int>, items: seq<C.Item>, v: nat)
    requires |items| == |values|
    requires forall k :: 0 <= k < |values| ==> 0 <= values[k] && items[k] == C.Item(values[k], values[k], 1, false)
    ensures v in values <==> C.Covered(items, v)
    ensures !C.Starred(items)
  {
  }

  lemma ListFieldAgrees(field: string, r: C.Bounds, max: int, values: seq<int>, items: seq<C.Item>)
    requires NamesAreWords(r.names) && Blankless(field)
    requires S.ListValues(Split(field, ','), r.min, max) == Some(values) && C.FieldItems(field, r) == Ok(items)
    ensures Agree(S.List(values), items, r, false)
  {
    hide C.ParseRange, C.Covers, Atoi, TrimSpace;
    SplitBlankless(field, ',');
    ListAgrees(Split(field, ','), values, items, r, max);
    forall v: nat
      ensures v in values <==> C.Covered(items, v)
      ensures !C.Starred(items)
    {
      ListCovers(values, items, v);
    }
    ListCovers(values, items, 0);
  }

  lemma SingleItem(item: C.Item, m: S.FieldMatcher, r: C.Bounds)
    requires m.Valid()
    requires forall v: nat :: r.min <= v <= r.max ==> (m.Matches(v) <==> C.Covers(item, v))
    ensures Agree(m, [item], r, item.star)
  {
    hide S.FieldMatcher.Matches, C.Covers;
    forall v: nat
      ensures C.Covered([item], v) <==> C.Covers(item, v)
      ensures C.Starred([item]) <==> item.star
    {
      C.Singleton(item, v);
    }
    C.Singleton(item, 0);
  }

  lemma OneItem(field: string, r: C.Bounds, items: seq<C.Item>)
    requires field != "" && ',' !in field && C.FieldItems(field, r) == Ok(items)
    ensures C.ParseRange(field, r).Ok? && items == [C.ParseRange(field, r).value]
  {
    hide C.ParseRange;
    assert Split(field, ',') == [field];
    assert NonEmpty([field]) == [field];
    assert C.ParseItems([field], r) == Ok(items);
    assert C.ParseItems([], r) == Ok([]);
  }

  lemma StepCovers(r: C.Bounds, max: int, step: int, v: nat)
    requires 1 <= step && r.min <= v <= r.max <= max
    ensures S.Step(step, r.min, max).Matches(v) <==> C.Covers(C.Item(r.min, r.max, step, step == 1), v)
  {
    C.ReachesByRemainder(r.min, step, v);
  }

  lemma StarItem(text: string, r: C.Bounds, step: int)
    requires Atoi(text) == Some(step) && 1 <= step && C.ParseRange("*/" + text, r).Ok?
    ensures C.ParseRange("*/" + text, r).value == C.Item(r.min, r.max, step, step == 1)
  {
    var field := "*/" + text;
    AtoiNumeric(text);
    hide Atoi;
    assert field[0] == '*' && field[1] == '/';
    assert IndexOf(field, '/') == 1;
    assert field[..1] == "*" && field[2..] == text;
    assert Split(field, '/') == ["*"] + Split(text, '/');
    assert Split(text, '/') == [text];
    assert Split("*", '-') == ["*"];
  }

  lemma StepField(field: string, r: C.Bounds, max: int, step: int, items: seq<C.Item>)
    requires HasPrefix(field, "*/") && Atoi(field[2..]) == Some(step) && 1 <= step
    requires C.FieldItems(field, r) == Ok(items) && r.max <= max
    ensures Agree(S.Step(step, r.min, max), items, r, step == 1)
  {
    var text := field[2..];
    AtoiNumeric(text);
    hide Atoi, Split, C.ParseRange, C.FieldItems, TrimSpace, C.Reaches, Agree;
    assert field == "*/" + text;
    assert ',' !in field;
    OneItem(field, r, items);
    StarItem(text, r, step);
    hide S.FieldMatcher.Matches, C.Covers;
    forall v: nat | r.min <= v <= r.max
      ensures S.Step(step, r.min, max).Matches(v) <==> C.Covers(C.Item(r.min, r.max, step, step == 1), v)
    {
      StepCovers(r, max, step, v);
    }
    SingleItem(C.Item(r.min, r.max, step, step == 1), S.Step(step, r.min, max), r);
  }

  lemma RangeItem(field: string, r: C.Bounds, start: int, end: int)
    requires NamesAreWords(r.names) && Blankless(field)
    requires var parts := Split(field, '-');
             |parts| == 2 && Atoi(TrimSpace(parts[0])) == Some(start) && Atoi(TrimSpace(parts[1])) == Some(end)
    requires C.ParseRange(field, r).Ok?
    ensures 0 <= start && 0 <= end && C.ParseRange(field, r).value == C.Item(start, end, 1, false)
  {
    var parts := Split(field, '-');
    SplitBlankless(field, '-');
    assert TrimSpace(parts[0]) == parts[0] && TrimSpace(parts[1]) == parts[1];
    SameNumber(parts[0], r);
    SameNumber(parts[1], r);
    JoinOfSplit(field, '-');
    hide Atoi, TrimSpace;
    assert field == parts[0] + ['-'] + parts[1];
    assert Split(field, '/') == [field];
  }

  lemma RangeField(field: string, r: C.Bounds, start: int, end: int, items: seq<C.Item>)
    requires NamesAreWords(r.names) && Blankless(field) && ',' !in field && field != ""
    requires var parts := Split(field, '-');
             |parts| == 2 && Atoi(TrimSpace(parts[0])) == Some(start) && Atoi(TrimSpace(parts[1])) == Some(end)
    requires C.FieldItems(field, r) == Ok(items)
    ensures Agree(S.Range(start, end), items, r, false)
  {
    hide Atoi, TrimSpace, Agree, C.Reaches, C.ParseRange, C.FieldItems, Split;
    OneItem(field, r, items);
    RangeItem(field, r, start, end);
    forall v: nat
      ensures C.Covers(items[0], v) <==> start <= v <= end
    {
      C.ReachesByOne(start, v);
    }
    SingleItem(items[0], S.Range(start, end), r);
  }

  lemma ExactField(field: string, r: C.Bounds, value: int, items: seq<C.Item>)
    requires NamesAreWords(r.names) && ',' !in field && Atoi(field) == Some(value)
    requires C.FieldItems(field, r) == Ok(items)
    ensures Agree(S.Exact(value), items, r, false)
  {
    OneItem(field, r, items);
    NumberItem(field, r);
    forall v: nat
      ensures C.Covers(items[0], v) <==> v == value
    {
      CoversOne(value, v);
    }
    SingleItem(items[0], S.Exact(value), r);
  }

  lemma WildcardField(r: C.Bounds, items: seq<C.Item>)
    requires C.FieldItems("*", r) == Ok(items)
    ensures Agree(S.Wildcard, items, r, true)
  {
    OneItem("*", r, items);
    assert Split("*", '/') == ["*"] && Split("*", '-') == ["*"];
    assert items == [C.Item(r.min, r.max, 1, true)];
    forall v: nat
      ensures C.Covers(items[0], v) <==> r.min <= v <= r.max
    {
      C.ReachesByOne(r.min, v);
    }
    SingleItem(items[0], S.Wildcard, r);
  }

  /** Whenever both packages accept a blank-free field, they select the same values, and the star
    * mark of the bit set is set exactly for the wildcards. `max` may exceed the other maximum:
    * only one package accepts weekday 7.
    */
  lemma FieldAgrees(field: string, r: C.Bounds, max: int, m: S.FieldMatcher, items: seq<C.Item>)
    requires NamesAreWords(r.names) && Blankless(field) && r.max <= max
    requires S.FieldSpec(field, r.min, max) == Ok(m) && C.FieldItems(field, r) == Ok(items)
    ensures Agree(m, items, r, IsWildcard(field))
  {
    hide Atoi, TrimSpace, Split, C.FieldItems, S.ListValues, Agree;
    if field == "*" {
      WildcardField(r, items);
    } else if HasPrefix(field, "*/") {
      StepField(field, r, max, m.step, items);
    } else if ',' in field {
      ListFieldAgrees(field, r, max, m.values, items);
    } else if '-' in field {
      RangeField(field, r, m.start, m.end, items);
    } else {
      ExactField(field, r, m.value, items);
    }
  }

  // The whole spec: minute, hour, day of month, month, day of week.

  /** The five fields as both packages read them. */
  ghost predicate BothAccept(fields: seq<string>, slow: S.Schedule, fast: Fast.SpecSchedule) {
    && |fields| == 5
    && (forall k :: 0 <= k < 5 ==> Blankless(fields[k]))
    && S.ScheduleSpec(fields) == Ok(slow)
    && C.Reads(fast, [C.SECOND_DEFAULT] + fields)
  }

  /** A matcher and a word select the same values of a field. */
  ghost predicate SameValues(m: S.FieldMatcher, word: bv64, min: nat, max: nat)
    requires m.Valid() && max < 63
  {
    forall v: nat :: min <= v <= max ==> (m.Matches(v) <==> Bit(word, v))
  }

  lemma FieldAndWord(field: string, r: C.Bounds, max: int, m: S.FieldMatcher, word: bv64)
    requires NamesAreWords(r.names) && Blankless(field) && r.max <= max && r.max < 63
    requires S.FieldSpec(field, r.min, max) == Ok(m)
    requires C.FieldItems(field, r).Ok? && C.Denotes(word, C.FieldItems(field, r).value)
    ensures SameValues(m, word, r.min, r.max)
    ensures Bit(word, STAR) <==> IsWildcard(field)
  {
    FieldAgrees(field, r, max, m, C.FieldItems(field, r).value);
    hide S.FieldSpec, C.FieldItems, Bit, C.Covered, C.Starred, S.FieldMatcher.Matches, IsWildcard;
  }

  lemma SecondsDefault(word: bv64)
    requires C.FieldItems("0", C.SECONDS).Ok? && C.Denotes(word, C.FieldItems("0", C.SECONDS).value)
    ensures SameValues(S.Exact(0), word, 0, 59)
  {
    assert Value("0") == 10 * Value("") + Digit('0');
    FieldAndWord("0", C.SECONDS, 59, S.Exact(0), word);
  }

  ghost predicate SameFields(slow: S.Schedule, fast: Fast.SpecSchedule)
    requires slow.Valid()
  {
    && SameValues(slow.seconds, fast.second, 0, 59)
    && SameValues(slow.minutes, fast.minute, 0, 59)
    && SameValues(slow.hours, fast.hour, 0, 23)
    && SameValues(slow.days, fast.dom, 1, 31)
    && SameValues(slow.months, fast.month, 1, 12)
    && SameValues(slow.weekdays, fast.dow, 0, 6)
  }

  lemma SpecFields(fields: seq<string>, slow: S.Schedule)
    requires |fields| == 5 && S.ScheduleSpec(fields) == Ok(slow)
    ensures !slow.hasSecs && slow.seconds == S.Exact(0)
    ensures S.FieldSpec(fields[0], 0, 59) == Ok(slow.minutes) && S.FieldSpec(fields[1], 0, 23) == Ok(slow.hours)
    ensures S.FieldSpec(fields[2], 1, 31) == Ok(slow.days) && S.FieldSpec(fields[3], 1, 12) == Ok(slow.months)
    ensures S.FieldSpec(fields[4], 0, 7) == Ok(slow.weekdays)
  {
    hide S.FieldSpec, S.ScheduleSpec;
    S.ScheduleFields(fields, slow);
  }

  /** Field by field, both packages select the same values; the star marks are the wildcards. */
  lemma AllFieldsAgree(fields: seq<string>, slow: S.Schedule, fast: Fast.SpecSchedule)
    requires BothAccept(fields, slow, fast)
    ensures !slow.hasSecs && SameFields(slow, fast)
    ensures Bit(fast.dom, STAR) <==> IsWildcard(fields[2])
    ensures Bit(fast.dow, STAR) <==> IsWildcard(fields[4])
  {
    NamesOfFields();
    SpecFields(fields, slow);
    hide S.ScheduleSpec, S.FieldSpec, C.FieldItems, C.Denotes, Bit, SameValues, IsWildcard;
    SecondsDefault(fast.second);
    FieldAndWord(fields[0], C.MINUTES, 59, slow.minutes, fast.minute);
    FieldAndWord(fields[1], C.HOURS, 23, slow.hours, fast.hour);
    FieldAndWord(fields[2], C.DOM, 31, slow.days, fast.dom);
    FieldAndWord(fields[3], C.MONTHS, 12, slow.months, fast.month);
    FieldAndWord(fields[4], C.DOW, 7, slow.weekdays, fast.dow);
  }

  /** The two day rules on a day of month and a weekday. */
  predicate SlowDay(slow: S.Schedule, day: nat, weekday: nat)
    requires slow.Valid()
  {
    slow.days.Matches(day) || slow.weekdays.Matches(weekday)
  }

  predicate FastDay(fast: Fast.SpecSchedule, day: nat, weekday: nat)
    requires day < 63 && weekday < 63
  {
    if Bit(fast.dom, STAR) || Bit(fast.dow, STAR) then Bit(fast.dom, day) && Bit(fast.dow, weekday)
    else Bit(fast.dom, day) || Bit(fast.dow, weekday)
  }

  ghost predicate SameDayRule(slow: S.Schedule, fast: Fast.SpecSchedule)
    requires slow.Valid()
  {
    forall d: nat, w: nat :: 1 <= d <= 31 && w <= 6 ==> (SlowDay(slow, d, w) <==> FastDay(fast, d, w))
  }

  lemma WildcardMatchesAll(field: string, min: int, max: int, m: S.FieldMatcher, v: int)
    requires IsWildcard(field) && S.FieldSpec(field, min, max) == Ok(m) && min <= v <= max
    ensures m.Matches(v)
  {
  }

  ghost predicate AllDays(slow: S.Schedule)
    requires slow.Valid()
  {
    forall d: nat :: 1 <= d <= 31 ==> slow.days.Matches(d)
  }

  ghost predicate AllWeekdays(slow: S.Schedule)
    requires slow.Valid()
  {
    forall w: nat :: w <= 6 ==> slow.weekdays.Matches(w)
  }

  /** Both day fields are wildcards, or both are restricted, or both select their whole range. */
  ghost predicate DayFieldsBalanced(fields: seq<string>, slow: S.Schedule)
    requires |fields| == 5 && slow.Valid()
  {
    IsWildcard(fields[2]) == IsWildcard(fields[4]) || (AllDays(slow) && AllWeekdays(slow))
  }

  /** The rules agree when both fields carry the star mark or neither does; otherwise the `or` of one
    * package selects every day, and the `and` of the other leaves the restricted field.
    */
  lemma DayRulesByStars(slow: S.Schedule, fast: Fast.SpecSchedule)
    requires slow.Valid() && SameValues(slow.days, fast.dom, 1, 31) && SameValues(slow.weekdays, fast.dow, 0, 6)
    requires Bit(fast.dom, STAR) ==> AllDays(slow)
    requires Bit(fast.dow, STAR) ==> AllWeekdays(slow)
    ensures SameDayRule(slow, fast) <==>
            Bit(fast.dom, STAR) == Bit(fast.dow, STAR) || (AllDays(slow) && AllWeekdays(slow))
  {
    hide Bit, S.FieldMatcher.Matches;
    var starDom, starDow := Bit(fast.dom, STAR), Bit(fast.dow, STAR);
    if starDom && !starDow && SameDayRule(slow, fast) {
      forall w: nat | w <= 6
        ensures slow.weekdays.Matches(w)
      {
        assert SlowDay(slow, 1, w) <==> FastDay(fast, 1, w);
      }
    } else if starDow && !starDom && SameDayRule(slow, fast) {
      forall d: nat | 1 <= d <= 31
        ensures slow.days.Matches(d)
      {
        assert SlowDay(slow, d, 1) <==> FastDay(fast, d, 1);
      }
    }
  }

  lemma WildcardsCover(fields: seq<string>, slow: S.Schedule)
    requires |fields| == 5 && S.ScheduleSpec(fields) == Ok(slow)
    ensures IsWildcard(fields[2]) ==> AllDays(slow)
    ensures IsWildcard(fields[4]) ==> AllWeekdays(slow)
  {
    SpecFields(fields, slow);
    hide S.ScheduleSpec, S.FieldSpec, IsWildcard, S.FieldMatcher.Matches;
    if IsWildcard(fields[2]) {
      forall d: nat | 1 <= d <= 31 ensures slow.days.Matches(d) {
        WildcardMatchesAll(fields[2], 1, 31, slow.days, d);
      }
    }
    if IsWildcard(fields[4]) {
      forall w: nat | w <= 6 ensures slow.weekdays.Matches(w) {
        WildcardMatchesAll(fields[4], 0, 7, slow.weekdays, w);
      }
    }
  }

  /** The two packages combine the day fields alike exactly when the fields are balanced. */
  lemma DayRulesAgree(fields: seq<string>, slow: S.Schedule, fast: Fast.SpecSchedule)
    requires BothAccept(fields, slow, fast)
    ensures SameDayRule(slow, fast) <==> DayFieldsBalanced(fields, slow)
  {
    AllFieldsAgree(fields, slow, fast);
    WildcardsCover(fields, slow);
    hide BothAccept, IsWildcard, Bit, S.FieldMatcher.Matches, SameDayRule, SameValues, AllDays, AllWeekdays;
    DayRulesByStars(slow, fast);
  }

  // Instants.

  /** The days that the selected months can have, in some year. */
  ghost predicate AllPossibleDays(slow: S.Schedule)
    requires slow.Valid()
  {
    forall m: nat, d: nat :: 1 <= m <= 12 && slow.months.Matches(m) && 1 <= d <= DaysIn(LEAP_YEAR, m) ==>
        slow.days.Matches(d)
  }

  /** Both day fields are wildcards, or both are restricted, or they restrict nothing in the selected months. */
  ghost predicate InstantsBalanced(fields: seq<string>, slow: S.Schedule)
    requires |fields| == 5 && slow.Valid()
  {
    IsWildcard(fields[2]) == IsWildcard(fields[4]) || (AllPossibleDays(slow) && AllWeekdays(slow))
  }

  /** Slow and fast schedules with the same instants. */
  ghost predicate SameMeaning(slow: S.Schedule, fast: Fast.SpecSchedule)
    requires slow.Valid()
  {
    forall t :: slow.Matches(t) <==> Fast.Active(fast, t)
  }

  /** Fields that agree, with the star marks of the wildcards. */
  ghost predicate Comparable(slow: S.Schedule, fast: Fast.SpecSchedule)
    requires slow.Valid()
  {
    && SameFields(slow, fast)
    && (Bit(fast.dom, STAR) ==> AllDays(slow))
    && (Bit(fast.dow, STAR) ==> AllWeekdays(slow))
  }

  lemma SameInstant(slow: S.Schedule, fast: Fast.SpecSchedule, t: int)
    requires slow.Valid() && SameFields(slow, fast)
    requires slow.months.Matches(MonthOf(t)) ==>
             (SlowDay(slow, DayOf(t), WeekdayOf(t)) <==> FastDay(fast, DayOf(t), WeekdayOf(t)))
    ensures slow.Matches(t) <==> Fast.Active(fast, t)
  {
    hide Bit, S.FieldMatcher.Matches, MonthOf, DayOf, HourOf, MinuteOf, SecondOf, WeekdayOf;
    assert slow.seconds.Matches(SecondOf(t)) <==> Fast.SecondMatches(fast, t);
    assert slow.minutes.Matches(MinuteOf(t)) <==> Fast.MinuteMatches(fast, t);
    assert slow.hours.Matches(HourOf(t)) <==> Fast.HourMatches(fast, t);
    assert slow.months.Matches(MonthOf(t)) <==> Fast.MonthMatches(fast, t);
  }

  lemma BalancedDay(slow: S.Schedule, fast: Fast.SpecSchedule, t: int)
    requires slow.Valid() && Comparable(slow, fast) && slow.months.Matches(MonthOf(t))
    requires Bit(fast.dom, STAR) == Bit(fast.dow, STAR) || (AllPossibleDays(slow) && AllWeekdays(slow))
    ensures SlowDay(slow, DayOf(t), WeekdayOf(t)) <==> FastDay(fast, DayOf(t), WeekdayOf(t))
  {
    DayInMonth(t);
    hide Bit, S.FieldMatcher.Matches, MonthOf, DayOf, WeekdayOf, DaysIn, YearOf;
    var d, w := DayOf(t), WeekdayOf(t);
    assert slow.days.Matches(d) <==> Bit(fast.dom, d);
    assert slow.weekdays.Matches(w) <==> Bit(fast.dow, w);
  }

  /** Every time field selects something. */
  ghost predicate Selective(slow: S.Schedule)
    requires slow.Valid()
  {
    && (exists v :: 0 <= v <= 59 && slow.seconds.Matches(v))
    && (exists v :: 0 <= v <= 59 && slow.minutes.Matches(v))
    && (exists v :: 0 <= v <= 23 && slow.hours.Matches(v))
    && (exists v :: 1 <= v <= 12 && slow.months.Matches(v))
  }

  lemma SpecSelective(fields: seq<string>, slow: S.Schedule)
    requires |fields| == 5 && S.ScheduleSpec(fields) == Ok(slow)
    ensures Selective(slow)
  {
    SpecFields(fields, slow);
    hide S.ScheduleSpec, S.FieldSpec, S.FieldMatcher.Matches;
    S.LegalSelects(slow.seconds, 0, 59);
    S.LegalSelects(slow.minutes, 0, 59);
    S.LegalSelects(slow.hours, 0, 23);
    S.LegalSelects(slow.months, 1, 12);
  }

  /** Schedules with the same instants treat every day that can occur alike. */
  lemma PossibleDay(slow: S.Schedule, fast: Fast.SpecSchedule, month: nat, day: nat, weekday: nat)
    requires slow.Valid() && SameFields(slow, fast) && SameMeaning(slow, fast) && Selective(slow)
    requires 1 <= month <= 12 && slow.months.Matches(month) && 1 <= day <= DaysIn(LEAP_YEAR, month) && weekday <= 6
    ensures SlowDay(slow, day, weekday) <==> FastDay(fast, day, weekday)
  {
    hide Bit, S.FieldMatcher.Matches, MonthOf, DayOf, HourOf, MinuteOf, SecondOf, WeekdayOf, DaysIn;
    var second :| 0 <= second <= 59 && slow.seconds.Matches(second);
    var minute :| 0 <= minute <= 59 && slow.minutes.Matches(minute);
    var hour :| 0 <= hour <= 23 && slow.hours.Matches(hour);
    var t := EveryWeekday(month, day, weekday, hour, minute, second);
    assert slow.Matches(t) <==> Fast.Active(fast, t);
    assert Fast.SecondMatches(fast, t) && Fast.MinuteMatches(fast, t) && Fast.HourMatches(fast, t)
           && Fast.MonthMatches(fast, t);
  }

  lemma SameMeaningNeeds(slow: S.Schedule, fast: Fast.SpecSchedule)
    requires slow.Valid() && Comparable(slow, fast) && SameMeaning(slow, fast) && Selective(slow)
    requires Bit(fast.dom, STAR) != Bit(fast.dow, STAR)
    ensures AllPossibleDays(slow) && AllWeekdays(slow)
  {
    hide Bit, S.FieldMatcher.Matches, SameMeaning, S.Schedule.Matches, DaysIn;
    if Bit(fast.dom, STAR) {
      var month :| 1 <= month <= 12 && slow.months.Matches(month);
      forall w: nat | w <= 6
        ensures slow.weekdays.Matches(w)
      {
        PossibleDay(slow, fast, month, 1, w);
      }
    } else {
      forall m: nat, d: nat | 1 <= m <= 12 && slow.months.Matches(m) && 1 <= d <= DaysIn(LEAP_YEAR, m)
        ensures slow.days.Matches(d)
      {
        PossibleDay(slow, fast, m, d, 0);
      }
    }
  }

  lemma SpecComparable(fields: seq<string>, slow: S.Schedule, fast: Fast.SpecSchedule)
    requires BothAccept(fields, slow, fast)
    ensures Comparable(slow, fast) && Selective(slow)
    ensures Bit(fast.dom, STAR) <==> IsWildcard(fields[2])
    ensures Bit(fast.dow, STAR) <==> IsWildcard(fields[4])
  {
    AllFieldsAgree(fields, slow, fast);
    WildcardsCover(fields, slow);
    SpecSelective(fields, slow);
    hide S.ScheduleSpec, IsWildcard, Bit, SameFields, AllDays, AllWeekdays, Selective, C.Reads;
  }

  lemma BalancedMeaning(slow: S.Schedule, fast: Fast.SpecSchedule)
    requires slow.Valid() && Comparable(slow, fast)
    requires Bit(fast.dom, STAR) == Bit(fast.dow, STAR) || (AllPossibleDays(slow) && AllWeekdays(slow))
    ensures SameMeaning(slow, fast)
  {
    assert SameFields(slow, fast);
    hide Comparable, SameFields, Bit, S.FieldMatcher.Matches, S.Schedule.Matches, S.Schedule.Valid, Fast.Active,
        AllPossibleDays, AllWeekdays, FastDay, SlowDay;
    forall t
      ensures slow.Matches(t) <==> Fast.Active(fast, t)
    {
      if slow.months.Matches(MonthOf(t)) {
        BalancedDay(slow, fast, t);
      }
      SameInstant(slow, fast, t);
    }
  }

  /** On the specs that both packages accept, they mean the same set of instants if and only if the day
    * fields are balanced in the selected months.
    */
  lemma InstantsAgree(fields: seq<string>, slow: S.Schedule, fast: Fast.SpecSchedule)
    requires BothAccept(fields, slow, fast)
    ensures SameMeaning(slow, fast) <==> InstantsBalanced(fields, slow)
  {
    SpecComparable(fields, slow, fast);
    assert slow.Valid();
    hide BothAccept, Comparable, IsWildcard, Bit, S.Schedule.Valid, AllPossibleDays, AllWeekdays, Selective,
        SameMeaning;
    if InstantsBalanced(fields, slow) {
      BalancedMeaning(slow, fast);
    } else if SameMeaning(slow, fast) {
      SameMeaningNeeds(slow, fast);
    }
  }

  // A spec on which they differ.

  const FIRST_OF_MONTH := ["0", "0", "1", "*", "*"]

  lemma FirstOfMonthFields(slow: S.Schedule)
    requires S.ScheduleSpec(FIRST_OF_MONTH) == Ok(slow)
    ensures slow.days == S.Exact(1) && slow.weekdays == S.Wildcard && slow.months == S.Wildcard
    ensures IsWildcard(FIRST_OF_MONTH[4]) && !IsWildcard(FIRST_OF_MONTH[2])
  {
  }

  lemma NotAllPossibleDays(slow: S.Schedule)
    requires slow.Valid() && slow.days == S.Exact(1) && slow.months == S.Wildcard
    ensures !AllPossibleDays(slow)
  {
    assert slow.months.Matches(1) && 2 <= DaysIn(LEAP_YEAR, 1) && !slow.days.Matches(2);
  }

  /** Midnight on the first of every month: the packages do not mean the same instants. */
  lemma FirstOfMonthDiffers(slow: S.Schedule, fast: Fast.SpecSchedule)
    requires BothAccept(FIRST_OF_MONTH, slow, fast)
    ensures !InstantsBalanced(FIRST_OF_MONTH, slow) && !SameMeaning(slow, fast)
  {
    FirstOfMonthFields(slow);
    NotAllPossibleDays(slow);
    InstantsAgree(FIRST_OF_MONTH, slow, fast);
    hide BothAccept, IsWildcard, AllPossibleDays, AllWeekdays, SameMeaning;
  }

  lemma ItemsOfOne(field: string, r: C.Bounds)
    requires field != "" && ',' !in field && C.ParseRange(field, r).Ok?
    ensures C.FieldItems(field, r).Ok?
  {
    hide C.ParseRange;
    assert Split(field, ',') == [field];
    assert NonEmpty([field]) == [field];
    assert C.ParseItems([], r) == Ok([]);
  }

  /** A digit within the bounds parses as a field. */
  lemma DigitParses(text: string, r: C.Bounds)
    requires |text| == 1 && IsDigit(text[0]) && NamesAreWords(r.names) && r.min <= Digit(text[0]) <= r.max
    ensures C.FieldItems(text, r).Ok?
  {
    assert Value(text) == 10 * Value("") + Digit(text[0]);
    assert Atoi(text) == Some(Digit(text[0]));
    SameNumber(text, r);
    hide Atoi;
    assert Split(text, '/') == [text] && Split(text, '-') == [text] && Split(text, ',') == [text];
    ItemsOfOne(text, r);
  }

  lemma StarParses(r: C.Bounds)
    requires r.min <= r.max
    ensures C.FieldItems("*", r).Ok?
  {
    assert Split("*", '/') == ["*"] && Split("*", '-') == ["*"] && Split("*", ',') == ["*"];
    ItemsOfOne("*", r);
  }

  lemma FirstOfMonthReadable()
    ensures C.Readable([C.SECOND_DEFAULT] + FIRST_OF_MONTH)
  {
    NamesOfFields();
    hide C.FieldItems;
    DigitParses("0", C.SECONDS);
    DigitParses("0", C.MINUTES);
    DigitParses("0", C.HOURS);
    DigitParses("1", C.DOM);
    StarParses(C.MONTHS);
    StarParses(C.DOW);
  }

  lemma FirstOfMonthScheduled()
    ensures S.ScheduleSpec(FIRST_OF_MONTH).Ok?
  {
    assert Value("0") == 10 * Value("") + Digit('0') && Value("1") == 10 * Value("") + Digit('1');
    assert Atoi("0") == Some(0) && Atoi("1") == Some(1);
    hide Atoi;
  }

  /** Both packages accept the spec. */
  method FirstOfMonthAccepted() returns (slow: S.Schedule, fast: Fast.SpecSchedule)
    ensures BothAccept(FIRST_OF_MONTH, slow, fast)
  {
    FirstOfMonthReadable();
    FirstOfMonthScheduled();
    hide C.Readable, C.Reads, S.ScheduleSpec, C.FirstError;
    var parsed := C.ParseStandard(FIRST_OF_MONTH);
    var schedule := S.ParseCronExpression(FIRST_OF_MONTH);
    slow, fast := schedule.value, parsed.value;
  }

  lemma WithinYears(t: int, year: int)
    requires t < Fast.YearEnd(year)
    ensures YearOf(t) <= year
  {
    hide MonthStart, MonthIndex, DayNo;
    if year < YearOf(t) {
      MonthStartMonotone(12 * (year + 1), MonthIndex(DayNo(t)));
    }
  }

  lemma FourYears(t: int)
    ensures AddDate(t, 4, 0, 0) <= Fast.YearEnd(YearOf(t) + 4)
  {
    var index := 12 * (YearOf(t) + 4) + MonthOf(t) - 1;
    var end := 12 * (YearOf(t) + 5);
    MonthLength(end - 1);
    hide MonthStart, MonthIndex, DayNo, HourNo, MinuteNo, YearOf, MonthOf, DayOf;
    if MonthOf(t) < 12 {
      MonthStartMonotone(index, end);
    }
  }

  lemma NextYearStart(t: int, u: int)
    requires t <= u <= t + MINUTE
    ensures YearOf(u) <= YearOf(t) + 1
  {
    hide MonthStart, MonthIndex, DayNo, YearOf;
    Fast.BeforeYearEnd(t, YearOf(t));
    MonthStartMonotone(12 * (YearOf(t) + 1), 12 * (YearOf(t) + 2));
    WithinYears(u, YearOf(t) + 1);
  }

  // A spec on which only the day rules differ.

  const FEBRUARY := ["0", "0", "1-29", "2", "*"]

  lemma FebruaryNumbers()
    ensures Atoi("0") == Some(0) && Atoi("1") == Some(1) && Atoi("2") == Some(2) && Atoi("29") == Some(29)
  {
    assert "29"[..1] == "2";
    assert Value("29") == 10 * Value("2") + Digit('9');
    assert Value("0") == 10 * Value("") + Digit('0') && Value("1") == 10 * Value("") + Digit('1')
           && Value("2") == 10 * Value("") + Digit('2');
  }

  lemma FebruaryParts()
    ensures Split("1-29", '-') == ["1", "29"] && Split("1-29", '/') == ["1-29"] && Split("1-29", ',') == ["1-29"]
  {
    SplitAt("1", '-', "29");
    assert "1" + ['-'] + "29" == "1-29";
  }

  lemma FebruaryFields()
    ensures S.FieldSpec("1-29", 1, 31) == Ok(S.Range(1, 29)) && S.FieldSpec("2", 1, 12) == Ok(S.Exact(2))
    ensures S.FieldSpec("0", 0, 59).Ok? && S.FieldSpec("0", 0, 23).Ok? && S.FieldSpec("*", 0, 7) == Ok(S.Wildcard)
    ensures !IsWildcard("1-29") && IsWildcard("*")
  {
    hide Atoi, TrimSpace, Split;
    FebruaryNumbers();
    FebruaryParts();
    AtoiNumeric("1");
    AtoiNumeric("29");
  }

  lemma FebruaryBalance(slow: S.Schedule)
    requires slow.Valid() && slow.days == S.Range(1, 29) && slow.months == S.Exact(2) && slow.weekdays == S.Wildcard
    ensures AllPossibleDays(slow) && AllWeekdays(slow) && !AllDays(slow)
  {
    assert !slow.days.Matches(30);
  }

  /** All of February: the day rules differ on the 30th, which February never has. */
  lemma FebruaryAgrees(slow: S.Schedule, fast: Fast.SpecSchedule)
    requires BothAccept(FEBRUARY, slow, fast)
    ensures SameMeaning(slow, fast) && !SameDayRule(slow, fast)
  {
    SpecFields(FEBRUARY, slow);
    FebruaryFields();
    hide S.ScheduleSpec, S.FieldSpec, IsWildcard, AllPossibleDays, AllWeekdays, AllDays, SameMeaning, SameDayRule,
        C.Reads;
    FebruaryBalance(slow);
    InstantsAgree(FEBRUARY, slow, fast);
    DayRulesAgree(FEBRUARY, slow, fast);
  }

  lemma RangeParses()
    ensures C.FieldItems("1-29", C.DOM).Ok?
  {
    hide Atoi, Split, C.FieldItems;
    FebruaryNumbers();
    FebruaryParts();
    SameNumber("1", C.DOM);
    SameNumber("29", C.DOM);
    ItemsOfOne("1-29", C.DOM);
  }

  lemma FebruaryReadable()
    ensures C.Readable([C.SECOND_DEFAULT] + FEBRUARY)
  {
    NamesOfFields();
    RangeParses();
    hide C.FieldItems;
    DigitParses("0", C.SECONDS);
    DigitParses("0", C.MINUTES);
    DigitParses("0", C.HOURS);
    DigitParses("2", C.MONTHS);
    StarParses(C.DOW);
  }

  lemma FebruaryScheduled()
    ensures S.ScheduleSpec(FEBRUARY).Ok?
  {
    hide S.FieldSpec;
    FebruaryFields();
  }

  /** Both packages accept the spec. */
  method FebruaryAccepted() returns (slow: S.Schedule, fast: Fast.SpecSchedule)
    ensures BothAccept(FEBRUARY, slow, fast)
  {
    FebruaryReadable();
    FebruaryScheduled();
    hide C.Readable, C.Reads, S.ScheduleSpec, C.FirstError;
    var parsed := C.ParseStandard(FEBRUARY);
    var schedule := S.ParseCronExpression(FEBRUARY);
    slow, fast := schedule.value, parsed.value;
  }

  // The two searches.

  lemma FiveYears(t: int, start: int, r: int)
    requires t <= start <= t + MINUTE && r < AddDate(start, 4, 0, 0)
    ensures YearOf(r) <= YearOf(t) + 5
  {
    FourYears(start);
    hide YearOf, Fast.YearEnd, AddDate;
    WithinYears(r, YearOf(start) + 4);
    NextYearStart(t, start);
  }

  /** The minute search cannot leave the years that the field-skipping search considers. */
  lemma CapWithinLimit(slow: S.Schedule, from: Time, r: int)
    requires r < S.Cap(slow, from)
    ensures YearOf(r) <= Fast.YearLimit(from)
  {
    S.StartBounds(slow, from);
    hide S.Start, YearOf, AddDate;
    FiveYears(from.sec + 1, S.Start(slow, from), r);
  }

  /** `a` is `b` if that lies before the cap of the minute search, and nothing otherwise. */
  ghost predicate Refines(slow: S.Schedule, from: Time, a: Option<int>, b: Option<int>) {
    a == if b.Some? && b.value < S.Cap(slow, from) then b else None
  }

  lemma FoundByBoth(slow: S.Schedule, fast: Fast.SpecSchedule, from: Time, r: int)
    requires slow.Valid() && SameMeaning(slow, fast) && S.IsNext(slow, from, Some(r))
    requires YearOf(r) <= Fast.YearLimit(from)
    ensures Fast.IsNext(fast, from, Some(r))
  {
    hide S.Schedule.Matches, Fast.Active, YearOf, S.Cap, Fast.YearLimit;
  }

  lemma NotFound(slow: S.Schedule, fast: Fast.SpecSchedule, from: Time, b: int)
    requires slow.Valid() && SameMeaning(slow, fast) && S.IsNext(slow, from, None)
    requires Fast.IsNext(fast, from, Some(b))
    ensures S.Cap(slow, from) <= b
  {
    hide S.Schedule.Matches, Fast.Active, YearOf, S.Cap, Fast.YearLimit;
  }

  lemma SameSearch(slow: S.Schedule, fast: Fast.SpecSchedule, from: Time, a: Option<int>, b: Option<int>)
    requires slow.Valid() && SameMeaning(slow, fast)
    requires S.IsNext(slow, from, a) && Fast.IsNext(fast, from, b)
    ensures Refines(slow, from, a, b)
  {
    assert a.Some? ==> a.value < S.Cap(slow, from);
    hide S.IsNext, Fast.IsNext, SameMeaning, S.Cap, S.Schedule.Valid;
    if a.Some? {
      CapWithinLimit(slow, from, a.value);
      FoundByBoth(slow, fast, from, a.value);
      Fast.NextUnique(fast, from, a, b);
    } else if b.Some? {
      NotFound(slow, fast, from, b.value);
    }
  }

  /** On balanced specs the minute search returns what the field-skipping search returns, as long
    * as that instant lies before the cap of four years, and nothing otherwise.
    */
  lemma FastRefinesSlow(fields: seq<string>, slow: S.Schedule, fast: Fast.SpecSchedule, from: Time,
                        a: Option<int>, b: Option<int>)
    requires BothAccept(fields, slow, fast) && InstantsBalanced(fields, slow)
    requires S.IsNext(slow, from, a) && Fast.IsNext(fast, from, b)
    ensures Refines(slow, from, a, b)
  {
    InstantsAgree(fields, slow, fast);
    hide *;
    SameSearch(slow, fast, from, a, b);
  }

  lemma FourYearsLater(t: int)
    ensures t < AddDate(t, 4, 0, 0)
  {
    IndexOfFields(t);
    DateRoundTrip(t);
    hide MonthStart, MonthIndex, DayNo, HourNo, MinuteNo, YearOf, MonthOf, DayOf, HourOf, MinuteOf, SecondOf;
    var index := 12 * YearOf(t) + MonthOf(t) - 1;
    MonthStartMonotone(index, index + 48);
  }

  lemma CapAfter(slow: S.Schedule, from: Time)
    ensures from.sec + 1 < S.Cap(slow, from)
  {
    S.StartBounds(slow, from);
    FourYearsLater(S.Start(slow, from));
    hide S.Start, AddDate;
  }

  /** The first second after the instant, if it matches, is what the minute search returns. */
  lemma SlowTakes(slow: S.Schedule, t: int, a: Option<int>)
    requires slow.Valid() && t < S.Cap(slow, Time(t - 1, 0)) && S.IsNext(slow, Time(t - 1, 0), a)
    ensures slow.Matches(t) <==> a == Some(t)
  {
    hide S.Cap, S.Schedule.Matches, S.Schedule.Valid;
  }

  lemma FastTakes(fast: Fast.SpecSchedule, t: int, b: Option<int>)
    requires Fast.IsNext(fast, Time(t - 1, 0), b)
    ensures Fast.Active(fast, t) <==> b == Some(t)
  {
    hide Fast.Active, YearOf;
  }

  /** On every other spec that both accept, there is an instant from which no result of the minute search
    * is what the field-skipping search says.
    */
  lemma UnbalancedDisagrees(fields: seq<string>, slow: S.Schedule, fast: Fast.SpecSchedule) returns (from: Time)
    requires BothAccept(fields, slow, fast) && !InstantsBalanced(fields, slow)
    ensures from.Valid()
    ensures forall a, b :: S.IsNext(slow, from, a) && Fast.IsNext(fast, from, b) ==> !Refines(slow, from, a, b)
  {
    InstantsAgree(fields, slow, fast);
    hide BothAccept, InstantsBalanced, S.IsNext, Fast.IsNext, S.Schedule.Matches, Fast.Active, S.Cap;
    var t :| slow.Matches(t) != Fast.Active(fast, t);
    from := Time(t - 1, 0);
    forall a, b | S.IsNext(slow, from, a) && Fast.IsNext(fast, from, b)
      ensures !Refines(slow, from, a, b)
    {
      CapAfter(slow, from);
      SlowTakes(slow, t, a);
      FastTakes(fast, t, b);
    }
  }
}

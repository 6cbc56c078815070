/** The proleptic Gregorian calendar in UTC, as Go's `time` package presents it to the schedulers.
  *
  * An instant is a count of seconds from 0001-01-01 00:00:00 UTC (Go's zero `time.Time`) and a
  * nanosecond part. Days are numbered from that date, which was a Monday. Months are numbered
  * consecutively across years: month `m` (1..12) of year `y` has the index `12 * y + m - 1`.
  */
module Calendar {
  const MINUTE := 60
  const HOUR := 3600
  const DAY := 86400

  datatype Time = Time(sec: int, nano: nat) {
    predicate Valid() { nano < 1_000_000_000 }
  }

  predicate IsLeap(year: int) {
    year % 4 == 0 && (year % 100 != 0 || year % 400 == 0)
  }

  function DaysIn(year: int, month: int): (days: int)
    requires 1 <= month <= 12
    ensures 28 <= days <= 31
  {
    if month == 2 then (if IsLeap(year) then 29 else 28)
    else if month == 4 || month == 6 || month == 9 || month == 11 then 30
    else 31
  }

  /** Day number of January 1 of `year`. */
  function YearStart(year: int): int {
    var y := year - 1;
    365 * y + y / 4 - y / 100 + y / 400
  }

  /** Days of `year` before its month `month`; 13 stands for the whole year. */
  function DaysBefore(year: int, month: int): (days: int)
    requires 1 <= month <= 13
    decreases month
  {
    if month == 1 then 0 else DaysBefore(year, month - 1) + DaysIn(year, month - 1)
  }

  /** Day number of the first day of the month with index `index`. */
  function MonthStart(index: int): int {
    YearStart(index / 12) + DaysBefore(index / 12, index % 12 + 1)
  }

  lemma DaysOfYear(year: int)
    ensures DaysBefore(year, 13) == if IsLeap(year) then 366 else 365
  {
  }

  lemma Quotient4(year: int)
    ensures year / 4 == if year % 4 == 0 then (year - 1) / 4 + 1 else (year - 1) / 4
  {
  }

  lemma Quotient100(year: int)
    ensures year / 100 == if year % 100 == 0 then (year - 1) / 100 + 1 else (year - 1) / 100
  {
  }

  lemma Quotient400(year: int)
    ensures year / 400 == if year % 400 == 0 then (year - 1) / 400 + 1 else (year - 1) / 400
    ensures year % 400 == 0 ==> year % 100 == 0
    ensures year % 100 == 0 ==> year % 4 == 0
  {
  }

  lemma YearLength(year: int)
    ensures YearStart(year + 1) == YearStart(year) + DaysBefore(year, 13)
  {
    hide DaysBefore;
    DaysOfYear(year);
    Quotient4(year);
    Quotient100(year);
    Quotient400(year);
  }

  /** Consecutive month starts are one month length apart, also across a year end. */
  lemma MonthLength(index: int)
    ensures MonthStart(index + 1) == MonthStart(index) + DaysIn(index / 12, index % 12 + 1)
  {
    if index % 12 == 11 {
      assert (index + 1) / 12 == index / 12 + 1 && (index + 1) % 12 == 0;
      YearLength(index / 12);
    } else {
      assert (index + 1) / 12 == index / 12 && (index + 1) % 12 == index % 12 + 1;
    }
  }

  lemma {:induction false} MonthStartMonotone(i: int, j: int)
    requires i <= j
    ensures MonthStart(i) + 28 * (j - i) <= MonthStart(j)
    decreases j - i
  {
    if i < j {
      MonthStartMonotone(i, j - 1);
      MonthLength(j - 1);
    }
  }

  function Distance(day: int, index: int): nat {
    hide *;
    MonthLength(index);
    if day < MonthStart(index) then MonthStart(index) - day
    else if MonthStart(index + 1) <= day then day - MonthStart(index + 1) + 1
    else 0
  }

  function FindMonth(day: int, guess: int): (index: int)
    ensures MonthStart(index) <= day < MonthStart(index + 1)
    decreases Distance(day, guess)
  {
    hide MonthStart;
    MonthLength(guess);
    MonthLength(guess + 1);
    MonthLength(guess - 1);
    if day < MonthStart(guess) then FindMonth(day, guess - 1)
    else if MonthStart(guess + 1) <= day then FindMonth(day, guess + 1)
    else guess
  }

  /** Index of the month that holds day number `day`. */
  function MonthIndex(day: int): (index: int)
    ensures MonthStart(index) <= day < MonthStart(index + 1)
  {
    hide *;
    FindMonth(day, 0)
  }

  /** The month of a day is determined by the two month starts around it. */
  lemma MonthIndexUnique(day: int, index: int)
    requires MonthStart(index) <= day < MonthStart(index + 1)
    ensures MonthIndex(day) == index
  {
    hide *;
    var found := MonthIndex(day);
    if found < index {
      MonthStartMonotone(found + 1, index);
    } else if index < found {
      MonthStartMonotone(index + 1, found);
    }
  }

  lemma MonthIndexMonotone(d: int, e: int)
    requires d <= e
    ensures MonthIndex(d) <= MonthIndex(e)
  {
    if MonthIndex(e) < MonthIndex(d) {
      MonthStartMonotone(MonthIndex(e) + 1, MonthIndex(d));
    }
  }

  // Whole days, hours and minutes since the epoch.

  function DayNo(t: int): (d: int)
    ensures DAY * d <= t < DAY * d + DAY
  {
    t / DAY
  }

  function HourNo(t: int): (h: int)
    ensures HOUR * h <= t < HOUR * h + HOUR
  {
    t / HOUR
  }

  function MinuteNo(t: int): (m: int)
    ensures MINUTE * m <= t < MINUTE * m + MINUTE
  {
    t / MINUTE
  }

  // The calendar fields of a whole second.

  function YearOf(t: int): int { MonthIndex(DayNo(t)) / 12 }

  function MonthOf(t: int): (month: int)
    ensures 1 <= month <= 12
  {
    MonthIndex(DayNo(t)) % 12 + 1
  }

  function DayOf(t: int): (day: int)
    ensures 1 <= day <= 31
  {
    hide MonthStart, DayNo;
    MonthLength(MonthIndex(DayNo(t)));
    DayNo(t) - MonthStart(MonthIndex(DayNo(t))) + 1
  }

  /** 0 is Sunday. */
  function WeekdayOf(t: int): (weekday: int)
    ensures 0 <= weekday <= 6
  {
    (DayNo(t) + 1) % 7
  }

  function HourOf(t: int): (hour: int)
    ensures 0 <= hour <= 23
  {
    hide DayNo, HourNo;
    HourNo(t) - 24 * DayNo(t)
  }

  function MinuteOf(t: int): (minute: int)
    ensures 0 <= minute <= 59
  {
    hide HourNo, MinuteNo;
    MinuteNo(t) - 60 * HourNo(t)
  }

  function SecondOf(t: int): (second: int)
    ensures 0 <= second <= 59
  {
    t - MINUTE * MinuteNo(t)
  }

  // The `time` package calls that the schedulers make.

  /** `time.Date` with a day and a month that may lie outside their usual range. */
  function Date(year: int, month: int, day: int, hour: int, minute: int, second: int): int {
    DAY * (MonthStart(12 * year + month - 1) + day - 1) + HOUR * hour + MINUTE * minute + second
  }

  /** `t.AddDate(years, months, days)`. */
  function AddDate(t: int, years: int, months: int, days: int): int {
    Date(YearOf(t) + years, MonthOf(t) + months, DayOf(t) + days, HourOf(t), MinuteOf(t), SecondOf(t))
  }

  /** `t.Truncate(unit)` for a whole second and a unit that divides a day. */
  function Truncate(t: int, unit: int): int
    requires unit > 0
  {
    t - t % unit
  }

  lemma IndexOfFields(t: int)
    ensures 12 * YearOf(t) + MonthOf(t) - 1 == MonthIndex(DayNo(t))
  {
  }

  /** Any hour, minute and second on the day of `t`. */
  lemma DateOnDay(t: int, days: int, hour: int, minute: int, second: int)
    ensures Date(YearOf(t), MonthOf(t), DayOf(t) + days, hour, minute, second)
         == DAY * (DayNo(t) + days) + HOUR * hour + MINUTE * minute + second
  {
    IndexOfFields(t);
    hide MonthIndex, DayNo, MonthStart, YearOf, MonthOf;
  }

  /** Reading the six fields of an instant and building a date from them gives the instant back. */
  lemma DateRoundTrip(t: int)
    ensures Date(YearOf(t), MonthOf(t), DayOf(t), HourOf(t), MinuteOf(t), SecondOf(t)) == t
  {
    DateOnDay(t, 0, HourOf(t), MinuteOf(t), SecondOf(t));
    hide Date, YearOf, MonthOf, DayOf, DayNo, HourNo, MinuteNo;
  }

  lemma YearMonotone(s: int, t: int)
    requires s <= t
    ensures YearOf(s) <= YearOf(t)
  {
    hide MonthIndex;
    MonthIndexMonotone(DayNo(s), DayNo(t));
  }

  /** Building a date from fields in their usual range and reading the fields gives them back. */
  lemma DateFields(year: int, month: int, day: int, hour: int, minute: int, second: int)
    requires 1 <= month <= 12 && 1 <= day <= DaysIn(year, month)
    requires 0 <= hour <= 23 && 0 <= minute <= 59 && 0 <= second <= 59
    ensures var t := Date(year, month, day, hour, minute, second);
            && YearOf(t) == year && MonthOf(t) == month && DayOf(t) == day
            && HourOf(t) == hour && MinuteOf(t) == minute && SecondOf(t) == second
            && DayNo(t) == MonthStart(12 * year + month - 1) + day - 1
  {
    var index := 12 * year + month - 1;
    MonthLength(index);
    var t := Date(year, month, day, hour, minute, second);
    var d := MonthStart(index) + day - 1;
    hide MonthStart, MonthIndex, DayNo, HourNo, MinuteNo, DaysIn;
    assert DayNo(t) == d;
    assert HourNo(t) == 24 * d + hour;
    assert MinuteNo(t) == 60 * HourNo(t) + minute;
    MonthIndexUnique(d, index);
  }

  const LEAP_YEAR := 2000

  /** A day lies within its month, and no month is longer than in a leap year. */
  lemma DayInMonth(t: int)
    ensures DayOf(t) <= DaysIn(YearOf(t), MonthOf(t)) <= DaysIn(LEAP_YEAR, MonthOf(t))
  {
    MonthLength(MonthIndex(DayNo(t)));
    hide MonthStart, MonthIndex, DayNo;
  }

  lemma {:induction false} SameLengths(a: int, b: int, month: int)
    requires 1 <= month <= 13 && IsLeap(a) == IsLeap(b)
    ensures DaysBefore(a, month) == DaysBefore(b, month)
    ensures month <= 12 ==> DaysIn(a, month) == DaysIn(b, month)
    decreases month
  {
    hide IsLeap;
    if month > 1 {
      SameLengths(a, b, month - 1);
    }
  }

  lemma MonthParts(year: int, month: int)
    requires 1 <= month <= 12
    ensures (12 * year + month - 1) / 12 == year && (12 * year + month - 1) % 12 == month - 1
  {
  }

  lemma MonthStartOf(year: int, month: int)
    requires 1 <= month <= 12
    ensures MonthStart(12 * year + month - 1) == YearStart(year) + DaysBefore(year, month)
  {
    hide YearStart, DaysBefore;
    MonthParts(year, month);
  }

  lemma LeapYearStarts(k: int)
    requires 0 <= k <= 6
    ensures IsLeap(LEAP_YEAR + 4 * k) && YearStart(LEAP_YEAR + 4 * k) == YearStart(LEAP_YEAR) + 1461 * k
  {
  }

  lemma LeapYears(k: int, month: int)
    requires 0 <= k <= 6 && 1 <= month <= 12
    ensures DaysIn(LEAP_YEAR + 4 * k, month) == DaysIn(LEAP_YEAR, month)
    ensures MonthStart(12 * (LEAP_YEAR + 4 * k) + month - 1) == MonthStart(12 * LEAP_YEAR + month - 1) + 1461 * k
  {
    hide YearStart, IsLeap, MonthStart, DaysBefore, DaysIn;
    var year := LEAP_YEAR + 4 * k;
    LeapYearStarts(k);
    LeapYearStarts(0);
    SameLengths(year, LEAP_YEAR, month);
    MonthStartOf(year, month);
    MonthStartOf(LEAP_YEAR, month);
  }

  lemma WeekdayShift(first: int, weekday: int, k: int)
    requires 0 <= weekday <= 6 && k == 3 * (weekday - (first + 1)) % 7
    ensures (first + 1461 * k + 1) % 7 == weekday
  {
    var q := 3 * (weekday - (first + 1)) / 7;
    assert first + 1461 * k + 1 == weekday + 7 * (626 * (weekday - (first + 1)) - 1461 * q);
  }

  /** Every day of a leap year falls on every weekday in some year. */
  lemma EveryWeekday(month: int, day: int, weekday: int, hour: int, minute: int, second: int) returns (t: int)
    requires 1 <= month <= 12 && 1 <= day <= DaysIn(LEAP_YEAR, month) && 0 <= weekday <= 6
    requires 0 <= hour <= 23 && 0 <= minute <= 59 && 0 <= second <= 59
    ensures MonthOf(t) == month && DayOf(t) == day && WeekdayOf(t) == weekday
    ensures HourOf(t) == hour && MinuteOf(t) == minute && SecondOf(t) == second
  {
    hide MonthStart, MonthIndex, DayNo, HourNo, MinuteNo, DaysIn, IsLeap, Date, YearOf, MonthOf, DayOf, HourOf,
        MinuteOf, SecondOf;
    var first := MonthStart(12 * LEAP_YEAR + month - 1) + day - 1;
    var k := 3 * (weekday - (first + 1)) % 7;
    LeapYears(k, month);
    t := Date(LEAP_YEAR + 4 * k, month, day, hour, minute, second);
    DateFields(LEAP_YEAR + 4 * k, month, day, hour, minute, second);
    WeekdayShift(first, weekday, k);
  }

  // Where the calendar stands: dates that are known from elsewhere.

  /** The lengths of the twelve months. */
  lemma MonthTable(year: int, month: int)
    requires 1 <= month <= 12
    ensures DaysIn(year, month)
         == [31, if IsLeap(year) then 29 else 28, 31, 30, 31, 30, 31, 31, 30, 31, 30, 31][month - 1]
    ensures IsLeap(2000) && IsLeap(2024) && !IsLeap(1900) && !IsLeap(2023)
  {
  }

  lemma DateAtMidnight(year: int, month: int, day: int)
    requires 1 <= month <= 12
    ensures Date(year, month, day, 0, 0, 0) == DAY * (YearStart(year) + DaysBefore(year, month) + day - 1)
  {
    MonthStartOf(year, month);
    hide MonthStart, YearStart, DaysBefore;
  }

  lemma YearStarts()
    ensures YearStart(1) == 0 && YearStart(1970) == 719162 && YearStart(2000) == 730119 && YearStart(2024) == 738885
    ensures DaysBefore(1, 1) == DaysBefore(1970, 1) == DaysBefore(2024, 1) == 0 && DaysBefore(2000, 3) == 60
  {
    assert DaysBefore(2000, 3) == DaysBefore(2000, 2) + 29;
  }

  lemma WeekdayAt(day: int)
    ensures WeekdayOf(DAY * day) == (day + 1) % 7
  {
    hide DayNo;
    assert DayNo(DAY * day) == day;
  }

  /** Seconds of the two epochs, of a day after a leap day, and of a Sunday. */
  lemma Epochs()
    ensures Date(1, 1, 1, 0, 0, 0) == 0 && WeekdayOf(0) == 1
    ensures Date(1970, 1, 1, 0, 0, 0) == 62135596800 && WeekdayOf(62135596800) == 4
    ensures Date(2000, 3, 1, 0, 0, 0) == 63087465600 && WeekdayOf(63087465600) == 3
    ensures Date(2024, 1, 7, 0, 0, 0) == 63840182400 && WeekdayOf(63840182400) == 0
  {
    YearStarts();
    hide Date, WeekdayOf, YearStart, DaysBefore, MonthStart;
    DateAtMidnight(1, 1, 1);
    DateAtMidnight(1970, 1, 1);
    DateAtMidnight(2000, 3, 1);
    DateAtMidnight(2024, 1, 7);
    WeekdayAt(0);
    WeekdayAt(719162);
    WeekdayAt(730179);
    WeekdayAt(738891);
  }

  /** Weekdays follow one another day by day. */
  lemma NextWeekday(t: int)
    ensures WeekdayOf(t + DAY) == (WeekdayOf(t) + 1) % 7
  {
    hide DayNo;
    assert DayNo(t + DAY) == DayNo(t) + 1;
  }

  /** The weekday is the number of days since Sunday, January 7, 2024, modulo seven. */
  lemma WeekdaysFromSunday(t: int)
    ensures WeekdayOf(t) == (DayNo(t) - DayNo(Date(2024, 1, 7, 0, 0, 0))) % 7
  {
    Epochs();
    hide Date;
    assert DayNo(63840182400) == 738891;
  }

  /** Days since Sunday, January 7, 2024, modulo seven. */
  function DaysFromSunday(year: int, month: int, day: int): int {
    (DayNo(Date(year, month, day, 0, 0, 0)) - DayNo(Date(2024, 1, 7, 0, 0, 0))) % 7
  }

  lemma WeekdayOfDate(year: int, month: int, day: int, hour: int, minute: int, second: int)
    requires 1 <= month <= 12 && 1 <= day <= DaysIn(year, month)
    requires 0 <= hour <= 23 && 0 <= minute <= 59 && 0 <= second <= 59
    ensures WeekdayOf(Date(year, month, day, hour, minute, second)) == DaysFromSunday(year, month, day)
  {
    hide WeekdayOf, YearOf, MonthOf, DayOf, HourOf, MinuteOf, SecondOf, DaysIn, Date, DayNo, MonthStart;
    DateFields(year, month, day, hour, minute, second);
    DateFields(year, month, day, 0, 0, 0);
    WeekdaysFromSunday(Date(year, month, day, hour, minute, second));
  }
}

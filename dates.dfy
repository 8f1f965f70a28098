/** Python's proleptic Gregorian `datetime.date` and `datetime.datetime`, as far
    as the roster scripts use them: the constructor that rejects an invalid
    (year, month, day), adding one day (`timedelta(days=1)` or
    `timedelta(hours=24)`, which overflows past year 9999), and the
    `strftime('%Y%m%d')` stamp. */
module Dates {
  import opened Wrappers
  import opened PyStr

  /** `datetime.MINYEAR` and `datetime.MAXYEAR` */
  const MinYear: int := 1
  const MaxYear: int := 9999

  datatype Date = Date(year: int, month: int, day: int)

  /** A `datetime.date` object: Python cannot construct an invalid one */
  type PyDate = d: Date | ValidDate(d) witness Date(1, 1, 1)

  /** A time of day on a date, as `datetime.datetime` without microseconds */
  datatype DateTime = DateTime(date: Date, hour: int, minute: int, second: int)

  predicate IsLeapYear(y: int) {
    y % 4 == 0 && (y % 100 != 0 || y % 400 == 0)
  }

  function DaysInMonth(y: int, m: int): (n: int)
    requires 1 <= m <= 12
    ensures 28 <= n <= 31
    ensures n == 29 <==> m == 2 && IsLeapYear(y)
  {
    if m == 2 then (if IsLeapYear(y) then 29 else 28)
    else if m == 4 || m == 6 || m == 9 || m == 11 then 30
    else 31
  }

  /** The dates `datetime.date` accepts */
  predicate ValidDate(d: Date) {
    && MinYear <= d.year <= MaxYear
    && 1 <= d.month <= 12
    && 1 <= d.day <= DaysInMonth(d.year, d.month)
  }

  /** `date(year, month, day)`: the date, or None where Python raises ValueError
      (OverflowError for a field too large for a C int) */
  function MakeDate(year: int, month: int, day: int): (r: Option<PyDate>)
    ensures r.Some? <==> ValidDate(Date(year, month, day))
    ensures r.Some? ==> r.value.year == year && r.value.month == month && r.value.day == day
  {
    var d := Date(year, month, day);
    if ValidDate(d) then Some(d) else None
  }

  /** The last date Python can represent */
  const LastDate: Date := Date(MaxYear, 12, 31)

  function DaysInYear(y: int): int {
    if IsLeapYear(y) then 366 else 365
  }

  /** Days in the years before `y` (CPython's `_days_before_year`) */
  function DaysBeforeYear(y: int): int
    requires y >= 1
  {
    var p := y - 1;
    p * 365 + p / 4 - p / 100 + p / 400
  }

  /** Days in the months of year `y` before month `m` (`_days_before_month`) */
  function DaysBeforeMonth(y: int, m: int): int
    requires 1 <= m <= 12
  {
    var base :=
      if m == 1 then 0 else if m == 2 then 31 else if m == 3 then 59
      else if m == 4 then 90 else if m == 5 then 120 else if m == 6 then 151
      else if m == 7 then 181 else if m == 8 then 212 else if m == 9 then 243
      else if m == 10 then 273 else if m == 11 then 304 else 334;
    if m > 2 && IsLeapYear(y) then base + 1 else base
  }

  /** `date.toordinal()`: 1 for 0001-01-01, counting up one per day. Python
      defines `d + timedelta(days=n)` as the date whose ordinal is n more. */
  function Ordinal(d: Date): int
    requires ValidDate(d)
  {
    DaysBeforeYear(d.year) + DaysBeforeMonth(d.year, d.month) + d.day
  }

  lemma DaysBeforeNextYear(y: int)
    requires y >= 1
    ensures DaysBeforeYear(y + 1) == DaysBeforeYear(y) + DaysInYear(y)
  {
    var p := y - 1;
    assert y / 4 == p / 4 + (if y % 4 == 0 then 1 else 0);
    assert y / 100 == p / 100 + (if y % 100 == 0 then 1 else 0);
    assert y / 400 == p / 400 + (if y % 400 == 0 then 1 else 0);
  }

  lemma {:induction false} DaysBeforeYearMonotone(a: int, b: int)
    requires 1 <= a <= b
    ensures DaysBeforeYear(a) + (b - a) * 365 <= DaysBeforeYear(b)
    decreases b - a
  {
    if a < b {
      DaysBeforeYearMonotone(a, b - 1);
      DaysBeforeNextYear(b - 1);
    }
  }

  /** Calendar order: year, then month, then day */
  predicate Before(a: Date, b: Date) {
    || a.year < b.year
    || (a.year == b.year && a.month < b.month)
    || (a.year == b.year && a.month == b.month && a.day < b.day)
  }

  /** A date's ordinal lies within its year's span of ordinals */
  lemma OrdinalInYear(d: Date)
    requires ValidDate(d)
    ensures DaysBeforeYear(d.year) < Ordinal(d) <= DaysBeforeYear(d.year) + DaysInYear(d.year)
  {
  }

  /** Ordinals follow calendar order, so distinct valid dates never share one */
  lemma {:induction false} OrdinalMonotone(a: Date, b: Date)
    requires ValidDate(a) && ValidDate(b) && Before(a, b)
    ensures Ordinal(a) < Ordinal(b)
  {
    if a.year < b.year {
      OrdinalInYear(a);
      OrdinalInYear(b);
      DaysBeforeNextYear(a.year);
      DaysBeforeYearMonotone(a.year + 1, b.year);
    } else if a.month < b.month {
      assert DaysBeforeMonth(a.year, a.month) + a.day <= DaysBeforeMonth(a.year, a.month + 1);
      assert DaysBeforeMonth(a.year, a.month + 1) <= DaysBeforeMonth(a.year, b.month);
    }
  }

  lemma OrdinalInjective(a: Date, b: Date)
    requires ValidDate(a) && ValidDate(b) && Ordinal(a) == Ordinal(b)
    ensures a == b
  {
    if Before(a, b) { OrdinalMonotone(a, b); }
    else if Before(b, a) { OrdinalMonotone(b, a); }
  }

  /** `d + timedelta(days=1)`: the next calendar day, or None where Python
      raises OverflowError (past 9999-12-31) */
  function NextDay(d: Date): (r: Option<PyDate>)
    requires ValidDate(d)
    ensures r.None? <==> d == LastDate
  {
    if d.day < DaysInMonth(d.year, d.month) then Some(Date(d.year, d.month, d.day + 1))
    else if d.month < 12 then Some(Date(d.year, d.month + 1, 1))
    else if d.year < MaxYear then Some(Date(d.year + 1, 1, 1))
    else None
  }

  /** The next day is one ordinal later, so it is what `timedelta(days=1)`
      adds, and it comes after `d` in calendar order */
  lemma NextDayFollows(d: Date)
    requires ValidDate(d) && d != LastDate
    ensures Ordinal(NextDay(d).value) == Ordinal(d) + 1
    ensures Before(d, NextDay(d).value)
  {
    if d.day == DaysInMonth(d.year, d.month) && d.month == 12 {
      DaysBeforeNextYear(d.year);
    }
  }

  /** The next day is the only valid date one ordinal later */
  lemma NextDayUnique(d: Date, e: Date)
    requires ValidDate(d) && ValidDate(e) && Ordinal(e) == Ordinal(d) + 1
    ensures NextDay(d) == Some(e)
  {
    if d == LastDate {
      if Before(e, d) { OrdinalMonotone(e, d); }
    } else {
      NextDayFollows(d);
      OrdinalInjective(NextDay(d).value, e);
    }
  }

  /** The next day rolls the day, then the month, then the year */
  lemma NextDayRollover(d: Date)
    requires ValidDate(d) && d != LastDate
    ensures d.day < DaysInMonth(d.year, d.month) ==> NextDay(d) == Some(Date(d.year, d.month, d.day + 1))
    ensures d.day == DaysInMonth(d.year, d.month) && d.month < 12 ==> NextDay(d) == Some(Date(d.year, d.month + 1, 1))
    ensures d.day == 31 && d.month == 12 ==> NextDay(d) == Some(Date(d.year + 1, 1, 1))
  {
  }

  /** Seconds since 0001-01-01 00:00:00 for a valid date and time of day */
  function Seconds(t: DateTime): int
    requires ValidDate(t.date)
  {
    (Ordinal(t.date) - 1) * 86400 + t.hour * 3600 + t.minute * 60 + t.second
  }

  predicate ValidTime(t: DateTime) {
    ValidDate(t.date) && 0 <= t.hour < 24 && 0 <= t.minute < 60 && 0 <= t.second < 60
  }

  /** The values `datetime.datetime` can hold (without microseconds or time zone) */
  type PyDateTime = t: DateTime | ValidTime(t) witness DateTime(Date(1, 1, 1), 0, 0, 0)

  /** `t + timedelta(hours=24)`: the same time of day on the next date, or None
      where Python raises OverflowError */
  function AddDay(t: PyDateTime): (r: Option<PyDateTime>)
    ensures r.None? <==> t.date == LastDate
  {
    match NextDay(t.date)
    case None => None
    case Some(n) => Some(DateTime(n, t.hour, t.minute, t.second))
  }

  /** Adding 24 hours moves the time exactly 86400 seconds on and keeps the
      time of day */
  lemma AddDaySeconds(t: PyDateTime)
    requires t.date != LastDate
    ensures Seconds(AddDay(t).value) == Seconds(t) + 24 * 3600
    ensures AddDay(t).value.hour == t.hour && AddDay(t).value.minute == t.minute && AddDay(t).value.second == t.second
  {
    NextDayFollows(t.date);
  }

  /** `d.strftime('%Y%m%d')`: four-digit year, two-digit month, two-digit day */
  function Stamp(d: Date): (s: string)
    requires ValidDate(d)
    ensures |s| == 8
    ensures AllDigits(s[..4]) && AllDigits(s[4..6]) && AllDigits(s[6..])
  {
    assert Pow10(2) == 100 && Pow10(4) == 10000;
    var y, m, dd := PadDigits(d.year, 4), PadDigits(d.month, 2), PadDigits(d.day, 2);
    assert (y + m + dd)[..4] == y && (y + m + dd)[4..6] == m && (y + m + dd)[6..] == dd;
    y + m + dd
  }

  /** The stamp can be read back: year, month and day are its three fields */
  lemma StampRoundTrip(d: Date)
    requires ValidDate(d)
    ensures DigitsValue(Stamp(d)[..4]) == d.year
    ensures DigitsValue(Stamp(d)[4..6]) == d.month
    ensures DigitsValue(Stamp(d)[6..]) == d.day
  {
    assert Pow10(2) == 100 && Pow10(4) == 10000;
    var y, m, dd := PadDigits(d.year, 4), PadDigits(d.month, 2), PadDigits(d.day, 2);
    assert Stamp(d) == y + m + dd;
    assert Stamp(d)[..4] == y && Stamp(d)[4..6] == m && Stamp(d)[6..] == dd;
    PadDigitsRoundTrip(d.year, 4);
    PadDigitsRoundTrip(d.month, 2);
    PadDigitsRoundTrip(d.day, 2);
  }

  /** So two valid dates with the same stamp are the same date */
  lemma StampInjective(a: Date, b: Date)
    requires ValidDate(a) && ValidDate(b) && Stamp(a) == Stamp(b)
    ensures a == b
  {
    StampRoundTrip(a);
    StampRoundTrip(b);
  }
}

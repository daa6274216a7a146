/**
 * The proleptic Gregorian calendar of Python's `datetime` module: dates as
 * (year, month, day) triples, the leap-year rule, calendar arithmetic by whole
 * days, and the chronological order of dates and date-times.
 */
module Calendar {

  /** The last year `datetime.date` can represent (`datetime.MAXYEAR`). */
  const MaxYear: int := 9999

  /** A calendar date; `ValidDate` says when it names a real day. */
  datatype Date = Date(year: int, month: int, day: int)

  /** A naive date and time of day, down to the microsecond. */
  datatype DateTime = DateTime(date: Date, hour: int, minute: int, second: int, microsecond: int)

  /** Gregorian leap years: every fourth year, except centuries not divisible by 400. */
  predicate IsLeapYear(y: int) {
    y % 4 == 0 && (y % 100 != 0 || y % 400 == 0)
  }

  function DaysInMonth(y: int, m: int): (r: int)
    requires 1 <= m <= 12
    ensures 28 <= r <= 31
    ensures r == 29 <==> m == 2 && IsLeapYear(y)
    ensures r == 28 <==> m == 2 && !IsLeapYear(y)
  {
    if m == 2 then (if IsLeapYear(y) then 29 else 28)
    else if m == 4 || m == 6 || m == 9 || m == 11 then 30
    else 31
  }

  function DaysInYear(y: int): int {
    if IsLeapYear(y) then 366 else 365
  }

  /** A date that exists: month 1..12 and a day that month has, year 1 or later. */
  predicate ValidDate(d: Date) {
    1 <= d.year && 1 <= d.month <= 12 && 1 <= d.day <= DaysInMonth(d.year, d.month)
  }

  /** A date `datetime.date` can hold: valid and not after year 9999. */
  predicate InRange(d: Date) {
    ValidDate(d) && d.year <= MaxYear
  }

  /** The last date Python can represent, 9999-12-31 (`datetime.date.max`). */
  const MaxDate: Date := Date(MaxYear, 12, 31)

  /** A date-time `datetime.datetime` can hold. */
  predicate ValidDateTime(t: DateTime) {
    && InRange(t.date)
    && 0 <= t.hour < 24
    && 0 <= t.minute < 60
    && 0 <= t.second < 60
    && 0 <= t.microsecond < 1000000
  }

  /** The last date-time Python can represent, 9999-12-31 23:59:59.999999 (`datetime.datetime.max`). */
  const MaxDateTime: DateTime := DateTime(MaxDate, 23, 59, 59, 999999)

  /** Chronological order of dates: lexicographic on (year, month, day). */
  predicate DateLess(a: Date, b: Date) {
    || a.year < b.year
    || (a.year == b.year && a.month < b.month)
    || (a.year == b.year && a.month == b.month && a.day < b.day)
  }

  /** Chronological order of date-times: by date, then hour, minute, second, microsecond. */
  predicate DateTimeLess(a: DateTime, b: DateTime) {
    || DateLess(a.date, b.date)
    || (a.date == b.date && a.hour < b.hour)
    || (a.date == b.date && a.hour == b.hour && a.minute < b.minute)
    || (a.date == b.date && a.hour == b.hour && a.minute == b.minute && a.second < b.second)
    || (a.date == b.date && a.hour == b.hour && a.minute == b.minute && a.second == b.second
        && a.microsecond < b.microsecond)
  }

  /** The day after `d`, rolling over into the next month and the next year. */
  function NextDay(d: Date): (r: Date)
    requires ValidDate(d)
    ensures ValidDate(r) && DateLess(d, r)
  {
    if d.day < DaysInMonth(d.year, d.month) then Date(d.year, d.month, d.day + 1)
    else if d.month < 12 then Date(d.year, d.month + 1, 1)
    else Date(d.year + 1, 1, 1)
  }

  /** `d` plus `n` whole days (`date + timedelta(days=n)` without the year limit). */
  function AddDays(d: Date, n: nat): (r: Date)
    requires ValidDate(d)
    ensures ValidDate(r)
    ensures n > 0 ==> DateLess(d, r)
    decreases n
  {
    if n == 0 then d else AddDays(NextDay(d), n - 1)
  }

  /** Days in the years before `y`. */
  function DaysBeforeYear(y: int): nat
    requires y >= 1
    decreases y
  {
    if y == 1 then 0 else DaysBeforeYear(y - 1) + DaysInYear(y - 1)
  }

  /** Days in the months of year `y` before month `m`. */
  function DaysBeforeMonth(y: int, m: int): nat
    requires 1 <= m <= 12
    decreases m
  {
    if m == 1 then 0 else DaysBeforeMonth(y, m - 1) + DaysInMonth(y, m - 1)
  }

  /** The ordinal of a date, 0001-01-01 being day 1, as `date.toordinal()` computes it. */
  function DayNumber(d: Date): int
    requires ValidDate(d)
  {
    DaysBeforeYear(d.year) + DaysBeforeMonth(d.year, d.month) + d.day
  }

  /** The twelve months of a year add up to the length of that year. */
  lemma MonthsFillYear(y: int)
    ensures DaysBeforeMonth(y, 12) + DaysInMonth(y, 12) == DaysInYear(y)
  {
    assert DaysBeforeMonth(y, 2) == 31;
    assert DaysBeforeMonth(y, 3) == 31 + DaysInMonth(y, 2);
    assert DaysBeforeMonth(y, 4) == 62 + DaysInMonth(y, 2);
    assert DaysBeforeMonth(y, 5) == 92 + DaysInMonth(y, 2);
    assert DaysBeforeMonth(y, 6) == 123 + DaysInMonth(y, 2);
    assert DaysBeforeMonth(y, 7) == 153 + DaysInMonth(y, 2);
    assert DaysBeforeMonth(y, 8) == 184 + DaysInMonth(y, 2);
    assert DaysBeforeMonth(y, 9) == 215 + DaysInMonth(y, 2);
    assert DaysBeforeMonth(y, 10) == 245 + DaysInMonth(y, 2);
    assert DaysBeforeMonth(y, 11) == 276 + DaysInMonth(y, 2);
    assert DaysBeforeMonth(y, 12) == 306 + DaysInMonth(y, 2);
  }

  /** Counting one more day moves the ordinal on by one, across month and year ends. */
  lemma DayNumberNext(d: Date)
    requires ValidDate(d)
    ensures DayNumber(NextDay(d)) == DayNumber(d) + 1
  {
    if d.day == DaysInMonth(d.year, d.month) && d.month == 12 {
      MonthsFillYear(d.year);
    }
  }

  /** Adding `n` days adds exactly `n` to the ordinal. */
  lemma {:induction false} DayNumberAddDays(d: Date, n: nat)
    requires ValidDate(d)
    ensures DayNumber(AddDays(d, n)) == DayNumber(d) + n
    decreases n
  {
    if n > 0 {
      DayNumberNext(d);
      DayNumberAddDays(NextDay(d), n - 1);
    }
  }

  lemma {:induction false} DaysBeforeYearMonotone(y: int, z: int)
    requires 1 <= y <= z
    ensures DaysBeforeYear(y) + (if y < z then DaysInYear(y) else 0) <= DaysBeforeYear(z)
    decreases z - y
  {
    if y < z {
      DaysBeforeYearMonotone(y + 1, z);
    }
  }

  lemma {:induction false} DaysBeforeMonthMonotone(y: int, m: int, k: int)
    requires 1 <= m <= k <= 12
    ensures DaysBeforeMonth(y, m) + (if m < k then DaysInMonth(y, m) else 0) <= DaysBeforeMonth(y, k)
    decreases k - m
  {
    if m < k {
      DaysBeforeMonthMonotone(y, m + 1, k);
    }
  }

  /** A valid date lies within its year: its ordinal does not reach the next year's first day. */
  lemma DayWithinYear(d: Date)
    requires ValidDate(d)
    ensures DaysBeforeMonth(d.year, d.month) + d.day <= DaysInYear(d.year)
  {
    DaysBeforeMonthMonotone(d.year, d.month, 12);
    MonthsFillYear(d.year);
  }

  /** Chronological order and ordinal order agree. */
  lemma DayNumberMonotone(a: Date, b: Date)
    requires ValidDate(a) && ValidDate(b)
    ensures DateLess(a, b) <==> DayNumber(a) < DayNumber(b)
    ensures DayNumber(a) == DayNumber(b) <==> a == b
  {
    if a.year < b.year {
      DayWithinYear(a);
      DaysBeforeYearMonotone(a.year, b.year);
    } else if b.year < a.year {
      DayWithinYear(b);
      DaysBeforeYearMonotone(b.year, a.year);
    } else if a.month < b.month {
      DaysBeforeMonthMonotone(a.year, a.month, b.month);
    } else if b.month < a.month {
      DaysBeforeMonthMonotone(a.year, b.month, a.month);
    }
  }

  /** `AddDays` names the one valid date whose ordinal is `n` past that of `d`. */
  lemma AddDaysUnique(d: Date, n: nat, e: Date)
    requires ValidDate(d) && ValidDate(e)
    ensures AddDays(d, n) == e <==> DayNumber(e) == DayNumber(d) + n
  {
    DayNumberAddDays(d, n);
    DayNumberMonotone(AddDays(d, n), e);
  }

  /** `DateTimeLess` is a strict total order. */
  lemma DateTimeLessIsStrictTotal(a: DateTime, b: DateTime, c: DateTime)
    ensures !DateTimeLess(a, a)
    ensures DateTimeLess(a, b) && DateTimeLess(b, c) ==> DateTimeLess(a, c)
    ensures a != b ==> DateTimeLess(a, b) || DateTimeLess(b, a)
  {
  }

  /** Every Python date-time other than the maximum is earlier than `datetime.max`. */
  lemma BelowMaxDateTime(t: DateTime)
    requires ValidDateTime(t)
    ensures t == MaxDateTime || DateTimeLess(t, MaxDateTime)
  {
  }
}

/**
 * `nj/trelloutil.py`: rendering a card's due date for the terminal
 * (`format_due_date`) and reading the due date a user types
 * (`parse_new_due_date`).
 *
 * The clock and the local time zone are parameters: `today` is the local date of
 * `datetime.today()`, `now` the local date-time it returns, and the due date of a
 * card is given already converted to local time.
 */
module TrelloUtil {
  import opened Wrappers
  import opened Calendar
  import opened Decimal
  import opened Strings

  // ---------------------------------------------------------------------
  // format_due_date
  // ---------------------------------------------------------------------

  /** The hour shown on the 12-hour clock: `h` up to noon, `h - 12` after it (so midnight shows 0). */
  function DisplayHour(h: int): (r: int)
    requires 0 <= h < 24
    ensures 0 <= r <= 12
    ensures h == 12 ==> r == 12
    ensures h != 12 ==> r == h % 12
  {
    if h <= 12 then h else h - 12
  }

  /** The suffix of the 12-hour clock: `am` before noon, `pm` from noon on. */
  function Meridiem(h: int): (r: string)
    ensures r == "am" || r == "pm"
    ensures r == "am" <==> h < 12
  {
    if h < 12 then "am" else "pm"
  }

  /** The clock part of every label: `{hour}:{minute} {am_or_pm}`. */
  function Clock(t: DateTime): string
    requires ValidDateTime(t)
  {
    ToDecimal(DisplayHour(t.hour)) + ":" + TwoDigits(t.minute) + " " + Meridiem(t.hour)
  }

  /** The date as year, month and day, zero-padded to 4, 2 and 2 digits and joined by dashes (`%Y-%m-%d`). */
  function DateText(d: Date): (r: string)
    requires ValidDate(d)
    ensures |r| == 10 && r[4] == '-' && r[7] == '-' && AllDigits(r[..4])
  {
    Pad(d.year, 4) + "-" + Pad(d.month, 2) + "-" + Pad(d.day, 2)
  }

  predicate StartsWith(s: string, p: string) {
    |p| <= |s| && s[..|p|] == p
  }

  /**
   * `format_due_date` without its colour codes. Building `tomorrow` adds a day to
   * `datetime.today()`, which overflows on 9999-12-31 before the card is looked at.
   */
  function FormatDueDate(localDue: Option<DateTime>, today: Date): (r: Result<string, Exception>)
    requires InRange(today)
    requires localDue.Some? ==> ValidDateTime(localDue.value)
    ensures r.Failure? <==> today == MaxDate
    ensures r.Failure? ==> r.error == OverflowError
    ensures r.Success? && localDue.None? ==> r.value == "Unscheduled"
  {
    if today == MaxDate then Failure(OverflowError)
    else if localDue.None? then Success("Unscheduled")
    else
      var t := localDue.value;
      if t.date == today then Success("Today " + Clock(t))
      else if DateLess(t.date, today) then Success("Past Due")
      else if t.date == NextDay(today) then Success("Tomorrow " + Clock(t))
      else Success(DateText(t.date) + " " + Clock(t))
  }

  /** A date other than today and tomorrow is before today or after tomorrow. */
  lemma DayOrder(d: Date, today: Date)
    requires ValidDate(d) && ValidDate(today)
    ensures d == today || DateLess(d, today) || d == NextDay(today) || DateLess(NextDay(today), d)
    ensures !(DateLess(d, today) && DateLess(NextDay(today), d))
    ensures DateLess(d, today) ==> d != NextDay(today)
  {
    var e := NextDay(today);
    DayNumberNext(today);
    DayNumberMonotone(d, today);
    DayNumberMonotone(d, e);
    DayNumberMonotone(e, d);
  }

  /**
   * The label names the case the due date falls in, checked in the order
   * today, past, tomorrow, later; each label is given by exactly one case.
   */
  lemma FormatDueDateCases(localDue: Option<DateTime>, today: Date)
    requires InRange(today) && today != MaxDate
    requires localDue.Some? ==> ValidDateTime(localDue.value)
    ensures var s := FormatDueDate(localDue, today).value;
      && (s == "Unscheduled" <==> localDue.None?)
      && (StartsWith(s, "Today ") <==> localDue.Some? && localDue.value.date == today)
      && (s == "Past Due" <==> localDue.Some? && DateLess(localDue.value.date, today))
      && (StartsWith(s, "Tomorrow ") <==> localDue.Some? && localDue.value.date == NextDay(today))
      && (|s| > 0 && IsDigit(s[0]) <==> localDue.Some? && DateLess(NextDay(today), localDue.value.date))
  {
    var s := FormatDueDate(localDue, today).value;
    assert "Unscheduled"[0] == 'U' && "Past Due"[0] == 'P';
    if localDue.Some? {
      var t := localDue.value;
      DayOrder(t.date, today);
      var c := Clock(t);
      if t.date == today {
        assert s == "Today " + c && s[..6] == "Today " && s[2] == 'd';
      } else if DateLess(t.date, today) {
        assert s == "Past Due";
      } else if t.date == NextDay(today) {
        assert s == "Tomorrow " + c && s[..9] == "Tomorrow " && s[0] == 'T' && s[2] == 'm';
      } else {
        var dt := DateText(t.date);
        assert s == dt + " " + c && s[0] == dt[0] && IsDigit(dt[0]);
      }
    }
  }

  /** The exact label of a dated card in each of the four cases of its date. */
  lemma FormatDueDateLabels(t: DateTime, today: Date)
    requires InRange(today) && today != MaxDate && ValidDateTime(t)
    ensures t.date == today ==> FormatDueDate(Some(t), today) == Success("Today " + Clock(t))
    ensures DateLess(t.date, today) ==> FormatDueDate(Some(t), today) == Success("Past Due")
    ensures t.date == NextDay(today) ==> FormatDueDate(Some(t), today) == Success("Tomorrow " + Clock(t))
    ensures DateLess(NextDay(today), t.date) ==>
      FormatDueDate(Some(t), today) == Success(DateText(t.date) + " " + Clock(t))
  {
    DayOrder(t.date, today);
  }

  /**
   * A date after tomorrow is shown with its year, month and day, which read back
   * from the first ten characters, then a space and the clock text.
   */
  lemma LaterLabelReadsBack(t: DateTime, today: Date)
    requires InRange(today) && today != MaxDate && ValidDateTime(t)
    requires DateLess(NextDay(today), t.date)
    ensures var s := FormatDueDate(Some(t), today).value;
      && |s| == 11 + |Clock(t)| && s[4] == '-' && s[7] == '-' && s[10] == ' ' && s[11..] == Clock(t)
      && ParseDigits(s[..4]) == t.date.year
      && ParseDigits(s[5..7]) == t.date.month
      && ParseDigits(s[8..10]) == t.date.day
  {
    FormatDueDateLabels(t, today);
    var s := FormatDueDate(Some(t), today).value;
    var dt := DateText(t.date);
    DateTextFields(t.date);
    assert s == dt + " " + Clock(t);
    assert s[..4] == dt[..4] && s[5..7] == dt[5..7] && s[8..10] == dt[8..];
  }

  /**
   * The clock text splits at its colon into the hour digits and the rest, the split
   * `ClockInjective` reads the hour from; the minute is always two digits, its
   * value zero-padded, and reads back as the minute.
   */
  lemma ClockParts(t: DateTime)
    requires ValidDateTime(t)
    ensures Clock(t) == ToDecimal(DisplayHour(t.hour)) + ":" + (TwoDigits(t.minute) + " " + Meridiem(t.hour))
    ensures TwoDigits(t.minute) == Pad(t.minute, 2)
    ensures |TwoDigits(t.minute)| == 2 && ParseDigits(TwoDigits(t.minute)) == t.minute
  {
    TwoDigitsIsPad(t.minute);
  }

  /** Midnight shows as hour `0` in the morning and noon as hour `12` in the afternoon. */
  lemma MidnightAndNoon(t: DateTime)
    requires ValidDateTime(t)
    ensures t.hour == 0 ==> StartsWith(Clock(t), "0:") && Clock(t)[|Clock(t)| - 2..] == "am"
    ensures t.hour == 12 ==> StartsWith(Clock(t), "12:") && Clock(t)[|Clock(t)| - 2..] == "pm"
  {
    if t.hour == 0 {
      assert ToDecimal(0) == "0";
    }
    if t.hour == 12 {
      assert ToDecimal(12) == "12" by {
        assert ToDecimal(1) == "1";
      }
    }
  }

  /** Digits then a colon: the colon says where the digits end. */
  lemma DigitsBeforeColon(a: string, b: string, x: string, y: string)
    requires AllDigits(a) && AllDigits(b) && a + ":" + x == b + ":" + y
    ensures a == b && x == y
  {
    LeadingDigitsOf(a, ":" + x);
    LeadingDigitsOf(b, ":" + y);
    assert a + ":" + x == a + (":" + x);
    assert b + ":" + y == b + (":" + y);
    assert a == (a + ":" + x)[..|a|];
    assert b == (b + ":" + y)[..|b|];
    assert x == (a + ":" + x)[|a| + 1..];
  }

  /** The 12-hour value and the am/pm suffix together give back the hour. */
  lemma HourFromDisplay(h: int, k: int)
    requires 0 <= h < 24 && 0 <= k < 24
    requires DisplayHour(h) == DisplayHour(k) && Meridiem(h) == Meridiem(k)
    ensures h == k
  {
  }

  /** Two digits, a space, then a suffix: both parts can be read back. */
  lemma MinuteAndSuffix(m: string, n: string, x: string, y: string)
    requires |m| == 2 && |n| == 2 && m + " " + x == n + " " + y
    ensures m == n && x == y
  {
    assert m == (m + " " + x)[..2];
    assert n == (n + " " + y)[..2];
    assert x == (m + " " + x)[3..];
    assert y == (n + " " + y)[3..];
  }

  /** The clock text loses nothing: two times with the same text have the same hour and minute. */
  lemma ClockInjective(s: DateTime, t: DateTime)
    requires ValidDateTime(s) && ValidDateTime(t) && Clock(s) == Clock(t)
    ensures s.hour == t.hour && s.minute == t.minute
  {
    ClockParts(s);
    ClockParts(t);
    var ms, mt := TwoDigits(s.minute), TwoDigits(t.minute);
    DigitsBeforeColon(ToDecimal(DisplayHour(s.hour)), ToDecimal(DisplayHour(t.hour)),
      ms + " " + Meridiem(s.hour), mt + " " + Meridiem(t.hour));
    ToDecimalInjective(DisplayHour(s.hour), DisplayHour(t.hour));
    MinuteAndSuffix(ms, mt, Meridiem(s.hour), Meridiem(t.hour));
    HourFromDisplay(s.hour, t.hour);
  }

  /** The date label prints the year, month and day, each readable back from its field. */
  lemma DateTextFields(d: Date)
    requires InRange(d)
    ensures |DateText(d)| == 10 && DateText(d)[4] == '-' && DateText(d)[7] == '-'
    ensures ParseDigits(DateText(d)[..4]) == d.year
    ensures ParseDigits(DateText(d)[5..7]) == d.month
    ensures ParseDigits(DateText(d)[8..]) == d.day
  {
    var s := DateText(d);
    assert s[..4] == Pad(d.year, 4);
    assert s[5..7] == Pad(d.month, 2);
    assert s[8..] == Pad(d.day, 2);
    assert Pow10(2) == 100 && Pow10(4) == 10000;
    PadValue(d.year, 4);
    PadValue(d.month, 2);
    PadValue(d.day, 2);
  }

  /** Every label made for a dated card ends with the due clock time. */
  lemma FormatShowsClock(t: DateTime, today: Date)
    requires InRange(today) && today != MaxDate && ValidDateTime(t)
    requires !DateLess(t.date, today)
    ensures var s := FormatDueDate(Some(t), today).value;
      |Clock(t)| <= |s| && s[|s| - |Clock(t)|..] == Clock(t)
  {
  }

  // ---------------------------------------------------------------------
  // parse_new_due_date
  // ---------------------------------------------------------------------

  /** The largest value of a C `int`, the width `datetime(...)` converts its arguments to. */
  const IntMax: int := 2147483647

  /** The largest day count `timedelta(days=...)` accepts. */
  const MaxDeltaDays: int := 999999999

  /** The due time of a new due date: 17:00:00.000000 on day `d`. */
  function AtFive(d: Date): (r: DateTime)
    ensures InRange(d) ==> ValidDateTime(r) && r.date == d
  {
    DateTime(d, 17, 0, 0, 0)
  }

  /** `datetime(year, month, day, 17, 0)`, with the exceptions its argument checks raise. */
  function MakeDueDateTime(year: nat, month: nat, day: nat): (r: Result<Option<DateTime>, Exception>)
    ensures r.Success? <==> year <= IntMax && month <= IntMax && day <= IntMax && InRange(Date(year, month, day))
    ensures r.Success? ==> r.value == Some(AtFive(Date(year, month, day)))
    ensures r.Failure? ==> (r.error == OverflowError <==> year > IntMax || month > IntMax || day > IntMax)
    ensures r.Failure? ==> r.error == OverflowError || r.error == ValueError
  {
    if year > IntMax || month > IntMax || day > IntMax then Failure(OverflowError)
    else if !(1 <= year <= MaxYear) then Failure(ValueError)
    else if !(1 <= month <= 12) then Failure(ValueError)
    else if !(1 <= day <= DaysInMonth(year, month)) then Failure(ValueError)
    else Success(Some(AtFive(Date(year, month, day))))
  }

  /** `today + timedelta(days=n)` at 17:00, with the `OverflowError`s of both steps. */
  function InDays(today: Date, n: nat): (r: Result<Option<DateTime>, Exception>)
    requires InRange(today)
    ensures r.Success? <==> n <= MaxDeltaDays && AddDays(today, n).year <= MaxYear
    ensures r.Success? ==> r.value == Some(AtFive(AddDays(today, n)))
    ensures r.Failure? ==> r.error == OverflowError
  {
    if n > MaxDeltaDays then Failure(OverflowError)
    else
      var d := AddDays(today, n);
      if d.year > MaxYear then Failure(OverflowError) else Success(Some(AtFive(d)))
  }

  /** `$`: the text a pattern must match up to, `s` without one final newline. */
  function BeforeEnd(s: string): (t: string)
    ensures s == t || s == t + "\n"
    ensures |s| > 0 && s[|s| - 1] == '\n' ==> s == t + "\n"
  {
    if |s| > 0 && s[|s| - 1] == '\n' then s[..|s| - 1] else s
  }

  predicate IsSeparator(c: char) {
    c == '/' || c == '-'
  }

  /** The pieces of a match of `(\d+)\s*days?` covering all of `t`. */
  predicate IsDaysMatch(t: string, ds: string, ws: string, suffix: string) {
    IsNumber(ds) && AllSpaces(ws) && (suffix == "day" || suffix == "days") && t == ds + ws + suffix
  }

  /**
   * Whether `s` is digits, optional white space and `day` or `days`, up to the end;
   * the digits when it is (the group of `^(\d+)\s*days?$`).
   */
  function DaysPattern(s: string): (r: Option<string>)
    ensures r.Some? ==> IsNumber(r.value)
  {
    var t := BeforeEnd(s);
    var k := LeadingDigits(t);
    var rest := t[k..];
    var tail := rest[LeadingSpaces(rest)..];
    if k >= 1 && (tail == "day" || tail == "days") then Some(t[..k]) else None
  }

  /** `(\d+)[/-]` at the front of `t`: the digits and what follows the separator. */
  function NumberThenSeparator(t: string): (r: Option<(string, string)>)
    ensures r.Some? ==>
      && IsNumber(r.value.0) && |t| == |r.value.0| + 1 + |r.value.1|
      && IsSeparator(t[|r.value.0|]) && t == r.value.0 + [t[|r.value.0|]] + r.value.1
  {
    var k := LeadingDigits(t);
    if 1 <= k < |t| && IsSeparator(t[k]) then Some((t[..k], t[k + 1..])) else None
  }

  /** Whether `s` is two numbers joined by `/` or `-`, and the numbers when it is (`^(\d+)[/-](\d+)$`). */
  function MonthDayPattern(s: string): (r: Option<(string, string)>)
    ensures r.Some? ==> IsNumber(r.value.0) && IsNumber(r.value.1)
  {
    match NumberThenSeparator(BeforeEnd(s))
    case Some((a, rest)) => if IsNumber(rest) then Some((a, rest)) else None
    case None => None
  }

  /** Whether `s` is three numbers joined by `/` or `-`, and the numbers when it is (`^(\d+)[/-](\d+)[/-](\d+)$`). */
  function YearMonthDayPattern(s: string): (r: Option<(string, string, string)>)
    ensures r.Some? ==> IsNumber(r.value.0) && IsNumber(r.value.1) && IsNumber(r.value.2)
  {
    match NumberThenSeparator(BeforeEnd(s))
    case None => None
    case Some((a, rest)) =>
      match NumberThenSeparator(rest)
      case None => None
      case Some((b, c)) => if IsNumber(c) then Some((a, b, c)) else None
  }

  /**
   * `parse_new_due_date`: `Success(None)` when there is no due date (no text, or
   * text in none of the known forms), `Success(Some(t))` for a due date-time and
   * `Failure(e)` for the exception the conversion raises.
   */
  function ParseNewDueDate(text: Option<string>, now: DateTime): (r: Result<Option<DateTime>, Exception>)
    requires ValidDateTime(now)
    ensures text.None? || text == Some("") ==> r == Success(None)
    ensures r.Success? && r.value.Some? ==> ValidDateTime(r.value.value) && r.value.value == AtFive(r.value.value.date)
    ensures r.Failure? ==> r.error == ValueError || r.error == OverflowError
  {
    if text.None? || text.value == "" then Success(None)
    else
      var s := text.value;
      var today := now.date;
      if s == "today" then Success(Some(AtFive(today)))
      else if s == "tomorrow" then
        if today.day + 1 <= DaysInMonth(today.year, today.month)
        then Success(Some(AtFive(Date(today.year, today.month, today.day + 1))))
        else Failure(ValueError)
      else match DaysPattern(s)
        case Some(ds) => InDays(today, ParseDigits(ds))
        case None =>
          match MonthDayPattern(s)
          case Some((m, d)) => MakeDueDateTime(today.year, ParseDigits(m), ParseDigits(d))
          case None =>
            match YearMonthDayPattern(s)
            case Some((y, m, d)) => MakeDueDateTime(ParseDigits(y), ParseDigits(m), ParseDigits(d))
            case None => Success(None)
  }

  // ---------------------------------------------------------------------
  // Properties of the patterns
  // ---------------------------------------------------------------------

  /** Every text in the `N days` form is recognised, with `N` as the group. */
  lemma DaysPatternComplete(s: string, ds: string, ws: string, suffix: string)
    requires IsDaysMatch(BeforeEnd(s), ds, ws, suffix)
    ensures DaysPattern(s) == Some(ds)
  {
    var t := BeforeEnd(s);
    assert t == ds + (ws + suffix);
    LeadingDigitsOf(ds, ws + suffix);
    assert t[|ds|..] == ws + suffix;
    LeadingSpacesOf(ws, suffix);
    assert (ws + suffix)[|ws|..] == suffix;
  }

  /** Every text `DaysPattern` recognises is in the `N days` form. */
  lemma DaysPatternSound(s: string) returns (ws: string, suffix: string)
    requires DaysPattern(s).Some?
    ensures IsDaysMatch(BeforeEnd(s), DaysPattern(s).value, ws, suffix)
  {
    var t := BeforeEnd(s);
    var k := LeadingDigits(t);
    var ds := t[..k];
    var rest := t[k..];
    var j := LeadingSpaces(rest);
    ws, suffix := rest[..j], rest[j..];
    assert DaysPattern(s).value == ds;
    DigitRun(t);
    SpaceRun(rest);
    assert rest == ws + suffix;
    assert t == ds + rest;
  }

  lemma DigitRun(t: string)
    ensures AllDigits(t[..LeadingDigits(t)])
  {
    var k := LeadingDigits(t);
    assert forall i :: 0 <= i < k ==> t[..k][i] == t[i];
  }

  lemma SpaceRun(t: string)
    ensures AllSpaces(t[..LeadingSpaces(t)])
  {
    var k := LeadingSpaces(t);
    assert forall i :: 0 <= i < k ==> t[..k][i] == t[i];
  }

  /** A separator right after the leading digits rules out the `N days` form. */
  lemma SeparatorIsNotDays(s: string, a: string, rest: string)
    requires IsNumber(a) && |rest| > 0 && IsSeparator(rest[0]) && BeforeEnd(s) == a + rest
    ensures DaysPattern(s) == None
  {
    var t := BeforeEnd(s);
    LeadingDigitsOf(a, rest);
    assert t[|a|..] == rest;
    LeadingSpacesOf([], rest);
    assert rest[0] != "day"[0];
  }

  /** Text starting with a digit is neither `today` nor `tomorrow`. */
  lemma DigitIsNotKeyword(s: string)
    requires |BeforeEnd(s)| > 0 && IsDigit(BeforeEnd(s)[0])
    ensures s != "today" && s != "tomorrow"
  {
    assert s[0] == BeforeEnd(s)[0];
  }

  /** Digits then a separator: the digits are the group, whatever follows. */
  lemma NumberThenSeparatorOf(a: string, sep: char, rest: string)
    requires IsNumber(a) && IsSeparator(sep)
    ensures NumberThenSeparator(a + [sep] + rest) == Some((a, rest))
  {
    var t := a + [sep] + rest;
    assert t == a + ([sep] + rest);
    LeadingDigitsOf(a, [sep] + rest);
    assert t[..|a|] == a && t[|a| + 1..] == rest;
  }

  /** Every text in the `M/D` form is recognised, whichever of `/` and `-` separates. */
  lemma MonthDayPatternComplete(s: string, a: string, sep: char, b: string)
    requires IsNumber(a) && IsSeparator(sep) && IsNumber(b) && BeforeEnd(s) == a + [sep] + b
    ensures MonthDayPattern(s) == Some((a, b))
  {
    NumberThenSeparatorOf(a, sep, b);
  }

  /** Every text in the `Y/M/D` form is recognised, with separators chosen independently. */
  lemma YearMonthDayPatternComplete(s: string, a: string, sep1: char, b: string, sep2: char, c: string)
    requires IsNumber(a) && IsNumber(b) && IsNumber(c) && IsSeparator(sep1) && IsSeparator(sep2)
    requires BeforeEnd(s) == a + [sep1] + b + [sep2] + c
    ensures YearMonthDayPattern(s) == Some((a, b, c))
    ensures MonthDayPattern(s) == None
  {
    var rest := b + [sep2] + c;
    assert BeforeEnd(s) == a + [sep1] + rest;
    NumberThenSeparatorOf(a, sep1, rest);
    NumberThenSeparatorOf(b, sep2, c);
    assert rest[|b|] == sep2;
  }

  /** Every text `MonthDayPattern` recognises is two numbers around a `/` or `-`. */
  lemma MonthDayPatternSound(s: string) returns (sep: char)
    requires MonthDayPattern(s).Some?
    ensures var g := MonthDayPattern(s).value;
      IsNumber(g.0) && IsSeparator(sep) && IsNumber(g.1) && BeforeEnd(s) == g.0 + [sep] + g.1
  {
    var t := BeforeEnd(s);
    sep := t[|MonthDayPattern(s).value.0|];
  }

  /** Every text `YearMonthDayPattern` recognises is three numbers with a `/` or `-` between each two. */
  lemma YearMonthDayPatternSound(s: string) returns (sep1: char, sep2: char)
    requires YearMonthDayPattern(s).Some?
    ensures var g := YearMonthDayPattern(s).value;
      && IsNumber(g.0) && IsNumber(g.1) && IsNumber(g.2) && IsSeparator(sep1) && IsSeparator(sep2)
      && BeforeEnd(s) == g.0 + [sep1] + g.1 + [sep2] + g.2
  {
    var t := BeforeEnd(s);
    var p := NumberThenSeparator(t).value;
    var q := NumberThenSeparator(p.1).value;
    sep1 := t[|p.0|];
    sep2 := p.1[|q.0|];
    assert t == p.0 + [sep1] + (q.0 + [sep2] + q.1);
  }

  /** Text whose first character is not a digit matches none of the numeric forms. */
  lemma NoLeadingDigitNoPattern(s: string)
    requires |BeforeEnd(s)| == 0 || !IsDigit(BeforeEnd(s)[0])
    ensures DaysPattern(s) == None && MonthDayPattern(s) == None && YearMonthDayPattern(s) == None
  {
  }

  // ---------------------------------------------------------------------
  // Properties of parse_new_due_date
  // ---------------------------------------------------------------------

  /** `today` is today at 17:00; `tomorrow` is the next day of the same month or a `ValueError`. */
  lemma ParseTodayTomorrow(now: DateTime)
    requires ValidDateTime(now)
    ensures ParseNewDueDate(Some("today"), now) == Success(Some(AtFive(now.date)))
    ensures ParseNewDueDate(Some("tomorrow"), now).Failure? <==>
      now.date.day == DaysInMonth(now.date.year, now.date.month)
    ensures ParseNewDueDate(Some("tomorrow"), now).Failure? ==>
      ParseNewDueDate(Some("tomorrow"), now).error == ValueError
    ensures ParseNewDueDate(Some("tomorrow"), now).Success? ==>
      ParseNewDueDate(Some("tomorrow"), now) == Success(Some(AtFive(NextDay(now.date))))
  {
  }

  /** `N days` is `N` calendar days after today, across month and year ends, or an `OverflowError`. */
  lemma ParseDays(now: DateTime, s: string, ds: string, ws: string, suffix: string)
    requires ValidDateTime(now) && IsDaysMatch(BeforeEnd(s), ds, ws, suffix)
    ensures ParseNewDueDate(Some(s), now) == InDays(now.date, ParseDigits(ds))
    ensures ParseNewDueDate(Some(s), now).Success? ==>
      DayNumber(ParseNewDueDate(Some(s), now).value.value.date) == DayNumber(now.date) + ParseDigits(ds)
  {
    DaysPatternComplete(s, ds, ws, suffix);
    assert BeforeEnd(s)[0] == ds[0];
    DigitIsNotKeyword(s);
    DayNumberAddDays(now.date, ParseDigits(ds));
  }

  /** `M/D` is that month and day of the current year at 17:00, or the exception `datetime` raises. */
  lemma ParseMonthDay(now: DateTime, s: string, a: string, sep: char, b: string)
    requires ValidDateTime(now)
    requires IsNumber(a) && IsSeparator(sep) && IsNumber(b) && BeforeEnd(s) == a + [sep] + b
    ensures ParseNewDueDate(Some(s), now) == MakeDueDateTime(now.date.year, ParseDigits(a), ParseDigits(b))
  {
    MonthDayPatternComplete(s, a, sep, b);
    assert BeforeEnd(s) == a + ([sep] + b) && BeforeEnd(s)[0] == a[0];
    SeparatorIsNotDays(s, a, [sep] + b);
    DigitIsNotKeyword(s);
  }

  /** `Y/M/D` is that date at 17:00, or the exception `datetime` raises. */
  lemma ParseYearMonthDay(now: DateTime, s: string, a: string, sep1: char, b: string, sep2: char, c: string)
    requires ValidDateTime(now)
    requires IsNumber(a) && IsNumber(b) && IsNumber(c) && IsSeparator(sep1) && IsSeparator(sep2)
    requires BeforeEnd(s) == a + [sep1] + b + [sep2] + c
    ensures ParseNewDueDate(Some(s), now) == MakeDueDateTime(ParseDigits(a), ParseDigits(b), ParseDigits(c))
  {
    YearMonthDayPatternComplete(s, a, sep1, b, sep2, c);
    YearMonthDayIsNotDays(s, a, sep1, b, sep2, c);
    ParseDatePattern(now, s);
  }

  lemma YearMonthDayIsNotDays(s: string, a: string, sep1: char, b: string, sep2: char, c: string)
    requires IsNumber(a) && IsSeparator(sep1) && BeforeEnd(s) == a + [sep1] + b + [sep2] + c
    ensures DaysPattern(s) == None && s != "today" && s != "tomorrow"
  {
    var rest := [sep1] + b + [sep2] + c;
    assert BeforeEnd(s) == a + rest && BeforeEnd(s)[0] == a[0] && rest[0] == sep1;
    SeparatorIsNotDays(s, a, rest);
    DigitIsNotKeyword(s);
  }

  /** How a date in neither keyword nor the `N days` form is read. */
  lemma ParseDatePattern(now: DateTime, s: string)
    requires ValidDateTime(now) && s != "" && s != "today" && s != "tomorrow" && DaysPattern(s) == None
    ensures MonthDayPattern(s).Some? ==>
      var g := MonthDayPattern(s).value;
      ParseNewDueDate(Some(s), now) == MakeDueDateTime(now.date.year, ParseDigits(g.0), ParseDigits(g.1))
    ensures MonthDayPattern(s).None? && YearMonthDayPattern(s).Some? ==>
      var g := YearMonthDayPattern(s).value;
      ParseNewDueDate(Some(s), now) == MakeDueDateTime(ParseDigits(g.0), ParseDigits(g.1), ParseDigits(g.2))
  {
  }

  /** Text in none of the forms means no due date, not an error. */
  lemma ParseUnrecognised(now: DateTime, s: string)
    requires ValidDateTime(now) && s != "today" && s != "tomorrow"
    requires DaysPattern(s) == None && MonthDayPattern(s) == None && YearMonthDayPattern(s) == None
    ensures ParseNewDueDate(Some(s), now) == Success(None)
  {
  }

  /** In particular, text that does not start with a digit (and is no keyword) gives no due date. */
  lemma ParseNoLeadingDigit(now: DateTime, s: string)
    requires ValidDateTime(now) && s != "today" && s != "tomorrow"
    requires |BeforeEnd(s)| == 0 || !IsDigit(BeforeEnd(s)[0])
    ensures ParseNewDueDate(Some(s), now) == Success(None)
  {
    NoLeadingDigitNoPattern(s);
    ParseUnrecognised(now, s);
  }

  /**
   * Digits followed by a character that is no digit, white space, `/`, `-` or `d`
   * (`12abc`, `3weeks`) are in no form, and give no due date.
   */
  lemma ParseDigitsThenOther(now: DateTime, s: string, a: string, rest: string)
    requires ValidDateTime(now) && IsNumber(a) && BeforeEnd(s) == a + rest && |rest| > 0
    requires !IsDigit(rest[0]) && !IsSpace(rest[0]) && !IsSeparator(rest[0]) && rest[0] != 'd'
    ensures ParseNewDueDate(Some(s), now) == Success(None)
  {
    var t := BeforeEnd(s);
    LeadingDigitsOf(a, rest);
    assert t[|a|..] == rest && t[0] == a[0];
    LeadingSpacesOf([], rest);
    assert rest[0] != "day"[0] && rest[0] != "days"[0];
    DigitIsNotKeyword(s);
    assert NumberThenSeparator(t) == None;
    ParseUnrecognised(now, s);
  }

  /** A month outside 1..12, or a day the month does not have, is a `ValueError`. */
  lemma ImpossibleDates(y: nat, m: nat, d: nat)
    requires 1 <= y <= MaxYear && m <= IntMax && d <= IntMax
    ensures !(1 <= m <= 12) ==> MakeDueDateTime(y, m, d) == Failure(ValueError)
    ensures 1 <= m <= 12 && !(1 <= d <= DaysInMonth(y, m)) ==> MakeDueDateTime(y, m, d) == Failure(ValueError)
    ensures MakeDueDateTime(y, 2, 29).Success? <==> IsLeapYear(y)
  {
  }
}

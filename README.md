# jersey (`nj`) Trello CLI — a verified model of its logic

`nj` is a small command-line client for a Trello board. Most of it calls the
Trello client library and prints coloured text. Five pieces hold real logic, and
this project models each of them in Dafny and proves what they do:

- **Due dates** (`nj/trelloutil.py`):
  - `format_due_date` renders a card's due date as `Unscheduled`, `Today 5:00 pm`,
    `Past Due`, `Tomorrow 9:30 am` or `2024-03-05 12:15 pm`.
  - `parse_new_due_date` reads `today`, `tomorrow`, `N days`, `M/D` and `Y/M/D` as a
    day at 17:00.
  - Both are functions over a Gregorian calendar (`calendar.dfy`), decimal text
    (`decimal.dfy`) and a few string helpers (`strings.dfy`).
- **List rebalancing** (`nj/worklist.py`, `arg_sort`):
  - Every list except `done` is stably sorted by due date, undated cards last.
  - The sorted cards are spread evenly between the list's smallest and largest
    position.
  - The model is a method with a `while` loop that updates an `array<Card>` in
    place, proved against value functions (`Placed`, `Rebalanced`,
    `PlannedWrites`). `SortBoard` runs it over every list of a board.
- **Display order** (`nj/worklist.py`, `arg_list`): cards are listed by the text
  of their due date, and `'zzz'` for undated cards.
- **Card lookup** (`nj/card.py`, `card_by_id`): the one card whose identifier ends
  with a three-character postfix.
- **Label parsing** (`nj/label.py`, `parse_labels`): the board labels named in a
  comma-separated list.
- **Version bump** (`devel.py`, `increment_version`): the major, minor or patch bump
  of the first `N.N.N` in a string.

Supporting modules:

- `stable_sort.dfy` models Python's `sorted(..., key=...)` on indices: insertion by
  (key, index). It proves this is the only sorted, duplicate-free arrangement, which
  is what a stable sort returns.
- `filtering.dfy` models list comprehensions with a condition.

Python exceptions are modelled as the `Failure` side of a `Result`.

The clock, the local time zone and the Trello board are parameters:

- `today` / `now` stand for what `datetime.today()` returns;
- a due date is given already converted to local time;
- board cards and labels are sequences of values.

### Where the model follows the code rather than its intent

- Text in none of the known forms gives no due date (`Success(None)`), not an
  error. The function falls off its end (nj/trelloutil.py:113-122).
- Midnight shows as hour `0`. `hour if hour <= 12 else hour - 12` maps 0 to 0
  (nj/trelloutil.py:45).
- `tomorrow` raises `ValueError` on the last day of a month. `replace(day=day+1)`
  does not roll over (nj/trelloutil.py:82-88).
- `format_due_date` raises `OverflowError` when today is 9999-12-31, because it
  computes `today + timedelta(days=1)` first (nj/trelloutil.py:40).
- A list with exactly one card raises `ZeroDivisionError` at `len_cards - 1`
  (nj/worklist.py:39). This ends `arg_sort`, so the lists after it are left
  untouched.
- `^(\d+)\s*days?$` allows no space before the number. `$` also matches before one
  final newline, and the model allows that too.
- A component of `datetime(...)` above 2147483647 gives `OverflowError` (C `int`
  conversion). A component in range but not a valid date gives `ValueError`.
- `int()` drops leading zeros, so the output is always canonical: `v01.002.3` bumped at `minor` gives `1.3.0`.

## Model

| member | source | states |
|---|---|---|
| TrelloUtil.Clock | nj/trelloutil.py:45-47 | the `{hour}:{minute} {am_or_pm}` part of a label; its parts are stated by `ClockParts` and `ClockInjective` |
| TrelloUtil.DateText | nj/trelloutil.py:56 | the `%Y-%m-%d` part of a later label: ten characters, dashes at 4 and 7, a four-digit year |
| TrelloUtil.FormatDueDate | nj/trelloutil.py:38-43 | fails (with `OverflowError`) exactly when today is the last representable date; an undated card gives `Unscheduled` |
| TrelloUtil.FormatDueDateCases | nj/trelloutil.py:48-56 | each label is given by exactly one case, in order: `Today …` iff the date is today, `Past Due` iff earlier, `Tomorrow …` iff the next day, a date label iff later than tomorrow, `Unscheduled` iff undated |
| TrelloUtil.FormatDueDateLabels | nj/trelloutil.py:48-56 | the exact label of a dated card: `Today ` plus the clock, `Past Due`, `Tomorrow ` plus the clock, or the date text, a space and the clock after tomorrow |
| TrelloUtil.LaterLabelReadsBack | nj/trelloutil.py:55-56 | a label after tomorrow reads back the due year, month and day from its first ten characters, and ends in a space and the clock text |
| TrelloUtil.DayOrder | nj/trelloutil.py:48-56 | every date is today, in the past, tomorrow or after tomorrow, and the past excludes the later cases |
| TrelloUtil.DisplayHour | nj/trelloutil.py:45 | the shown hour is in 0..12; noon shows 12, every other hour shows `h % 12` |
| TrelloUtil.Meridiem | nj/trelloutil.py:47 | the suffix is `am` exactly when the hour is before 12, else `pm` |
| TrelloUtil.ClockParts | nj/trelloutil.py:45-47 | the clock text is hour, colon, two-digit zero-padded minute, space, suffix; the minute text reads back as the minute |
| TrelloUtil.MidnightAndNoon | nj/trelloutil.py:45-47 | midnight renders as `0:.. am` and noon as `12:.. pm` |
| TrelloUtil.ClockInjective | nj/trelloutil.py:45-47 | two times with the same clock text have the same hour and minute |
| TrelloUtil.HourFromDisplay | nj/trelloutil.py:45-47 | the 12-hour value and the suffix together determine the hour |
| TrelloUtil.DateTextFields | nj/trelloutil.py:56 | the `%Y-%m-%d` text is 10 characters, with dashes at 4 and 7; year, month and day read back from their fields |
| TrelloUtil.FormatShowsClock | nj/trelloutil.py:48-56 | every label for a due date not in the past ends with that date's clock text |
| TrelloUtil.ParseNewDueDate | nj/trelloutil.py:60-122 | no text or empty text gives no due date; a due date is always a valid date-time at 17:00:00.000000; the only errors are `ValueError` and `OverflowError` |
| TrelloUtil.ParseTodayTomorrow | nj/trelloutil.py:72-89 | `today` is today at 17:00; `tomorrow` fails with `ValueError` exactly on the last day of the month, otherwise it is the next day at 17:00 |
| TrelloUtil.InDays | nj/trelloutil.py:93-99 | succeeds exactly when the day count and the resulting year are in range, giving that day at 17:00; otherwise `OverflowError` |
| TrelloUtil.ParseDays | nj/trelloutil.py:91-100 | text of the form `N days` / `N day` gives `N` calendar days after today, counted across month and year ends |
| TrelloUtil.BeforeEnd | nj/trelloutil.py:91 | what `$` lets a pattern match up to: the text, or the text without one final newline |
| TrelloUtil.DaysPattern | nj/trelloutil.py:91 | `^(\d+)\s*days?$`: when it matches, its group is a number; both directions are stated by `DaysPatternComplete` and `DaysPatternSound` |
| TrelloUtil.DaysPatternComplete | nj/trelloutil.py:91 | every digits-spaces-`day(s)` text is recognised with its digits as the group |
| TrelloUtil.DaysPatternSound | nj/trelloutil.py:91 | every recognised text is digits, then white space, then `day` or `days` |
| TrelloUtil.AtFive | nj/trelloutil.py:65-68 | the new due time 17:00:00.000000 on a given day, a valid date-time on every representable date |
| TrelloUtil.MakeDueDateTime | nj/trelloutil.py:104-121 | succeeds exactly for a valid date in years 1..9999, giving 17:00 that day; `OverflowError` exactly when a component exceeds the C `int` range, else `ValueError` |
| TrelloUtil.NumberThenSeparator | nj/trelloutil.py:102-113 | a match is a non-empty digit group, a `/` or `-`, and the rest of the text |
| TrelloUtil.MonthDayPattern | nj/trelloutil.py:102 | `^(\d+)[/-](\d+)$`: when it matches, both groups are numbers |
| TrelloUtil.YearMonthDayPattern | nj/trelloutil.py:113 | `^(\d+)[/-](\d+)[/-](\d+)$`: when it matches, all three groups are numbers |
| TrelloUtil.MonthDayPatternComplete | nj/trelloutil.py:102 | every `M/D` or `M-D` text is recognised with its two groups |
| TrelloUtil.MonthDayPatternSound | nj/trelloutil.py:102 | every recognised text is a number, a `/` or `-`, and a number, and those numbers are the groups |
| TrelloUtil.YearMonthDayPatternComplete | nj/trelloutil.py:102-113 | every `Y?M?D` text with `/` or `-` in either place is recognised with its three groups and is not an `M/D` text |
| TrelloUtil.YearMonthDayPatternSound | nj/trelloutil.py:113 | every recognised text is three numbers with a `/` or `-` between each two, and those numbers are the groups |
| TrelloUtil.ParseMonthDay | nj/trelloutil.py:102-111 | an `M/D` text gives that month and day of the current year at 17:00, or the error `datetime(...)` raises |
| TrelloUtil.ParseYearMonthDay | nj/trelloutil.py:113-122 | a `Y/M/D` text gives that date at 17:00, or the error `datetime(...)` raises |
| TrelloUtil.ParseDatePattern | nj/trelloutil.py:102-122 | text in neither keyword nor the days form is read as `M/D` first, then as `Y/M/D` |
| TrelloUtil.NoLeadingDigitNoPattern | nj/trelloutil.py:91-113 | text not starting with a digit matches none of the numeric patterns |
| TrelloUtil.ParseUnrecognised | nj/trelloutil.py:62-122 | any text other than the keywords that matches none of the three patterns gives no due date and no error, whatever its first character |
| TrelloUtil.ParseNoLeadingDigit | nj/trelloutil.py:91-122 | text that is no keyword and does not start with a digit gives no due date |
| TrelloUtil.ParseDigitsThenOther | nj/trelloutil.py:91-122 | digits followed by a character that is no digit, white space, `/`, `-` or `d` (as in `12abc`) give no due date |
| TrelloUtil.ImpossibleDates | nj/trelloutil.py:104-121 | a month outside 1..12, or a day the month lacks, is a `ValueError`; February 29 is accepted exactly in leap years |
| Calendar.IsLeapYear | nj/trelloutil.py:104-121 | the Gregorian leap-year rule `datetime` checks February 29 by |
| Calendar.ValidDate | nj/trelloutil.py:104-121 | a month in 1..12 and a day that month has, from year 1 |
| Calendar.InRange | nj/trelloutil.py:104-121 | a valid date no later than year 9999, what `datetime(...)` accepts |
| Calendar.ValidDateTime | nj/trelloutil.py:104-121 | a representable date with hour, minute, second and microsecond in range |
| Calendar.DateLess | nj/trelloutil.py:51 | `date < date`: by year, then month, then day |
| Calendar.DateTimeLess | nj/worklist.py:36-38 | `datetime < datetime` as `sorted` compares due dates: by date, then each time field |
| Calendar.DaysInMonth | nj/trelloutil.py:104-121 | the days `datetime` accepts in a month: 28 to 31, and 29 exactly in a leap-year February |
| Calendar.AddDays | nj/trelloutil.py:93 | `date + timedelta(days=n)`: a valid date later than the start for `n > 0` |
| Calendar.DayNumberAddDays | nj/trelloutil.py:93 | adding `n` days moves the day number forward by exactly `n` |
| Calendar.AddDaysUnique | nj/trelloutil.py:93 | `today + timedelta(days=n)` is the one valid date whose day number is `n` past today's |
| Calendar.NextDay | nj/trelloutil.py:40 | the next day is a valid date after the given one |
| Calendar.DateTimeLessIsStrictTotal | nj/worklist.py:36-38 | comparing due date-times is a strict total order |
| Calendar.BelowMaxDateTime | nj/worklist.py:38 | every valid date-time is `datetime.max` or before it |
| Worklist.Skipped | nj/worklist.py:30 | `not cards or trello_list.name == 'done'`: the lists `arg_sort` leaves alone |
| Worklist.SortKey | nj/worklist.py:38 | a card's due date-time, or `datetime.max` when it has none; `BelowMaxDateTime` puts undated cards last |
| Worklist.SortOrder | nj/worklist.py:36-38 | the order `arg_sort` visits the cards: a stable sort of the indices by `SortKey`, characterised by `StableSort.OrderIsStableSort` |
| Worklist.MinPos | nj/worklist.py:32 | the smallest position: held by some card and at most every card's position |
| Worklist.MaxPos | nj/worklist.py:33 | the largest position: held by some card and at least every card's position |
| Worklist.Interpolated | nj/worklist.py:39 | `min_pos + idx * (max_pos - min_pos) / (len_cards - 1)` over reals; its range and growth are stated by `InterpolatedRange` |
| Worklist.Target | nj/worklist.py:32-39 | the target position of sorted index `idx`, from the list's own smallest and largest positions; stated by `TargetRange` |
| Worklist.Placed | nj/worklist.py:36-41 | the list after `k` loop turns, as long as the list; stated by `PlacedSpec` and `PlacedStep` |
| Worklist.Rebalanced | nj/worklist.py:36-41 | the list `arg_sort` leaves; stated by `RebalancedSpec` and the lemmas after it |
| Worklist.WritesUpTo | nj/worklist.py:36-41 | the `set_pos` calls of the first `k` loop turns, only where the position differs; stated by `WritesUpToSpec` |
| Worklist.PlannedWrites | nj/worklist.py:40-41 | the `set_pos` calls on one list, in order; stated by `PlannedWritesSpec` |
| Worklist.SortList | nj/worklist.py:28-41 | an empty list or `done` is untouched with no write; one card raises `ZeroDivisionError` with nothing changed; otherwise every card ends at its target and the writes are exactly `PlannedWrites` |
| Worklist.AfterSort | nj/worklist.py:28-41 | a list after a completed run: unchanged when skipped, rebalanced otherwise |
| Worklist.DividesByZero | nj/worklist.py:30-39 | a list not skipped with exactly one card, where `len_cards - 1` is zero |
| Worklist.SortBoard | nj/worklist.py:24-41 | the lists are processed in order; the first list with exactly one card stops the run; it and the later lists are untouched |
| Worklist.PlacedSpec | nj/worklist.py:36-41 | after `k` steps each visited card is at its target with only its position changed, and every later card is unchanged |
| Worklist.PlacedStep | nj/worklist.py:39-41 | one loop turn moves the next sorted card to its target and calls `set_pos` only when its position changes |
| Worklist.RebalancedSpec | nj/worklist.py:36-41 | the card at sorted index `j` ends at target `j`, with nothing else about it changed |
| Worklist.TargetRange | nj/worklist.py:39 | the first target is `min_pos`, the last is `max_pos`, all lie between them and do not decrease; they strictly increase when `min_pos < max_pos` |
| Worklist.InterpolatedRange | nj/worklist.py:39 | the formula `min + idx*(max-min)/(n-1)` runs from `min` to `max` and grows with `idx` |
| Worklist.RebalancedBounds | nj/worklist.py:39-41 | only positions change, and every new position lies in `[min_pos, max_pos]` |
| Worklist.RebalancedEnds | nj/worklist.py:39 | the first card in due order ends at `min_pos` and the last at `max_pos` |
| Worklist.RebalancedFollowsDueOrder | nj/worklist.py:36-41 | a card sorted earlier never ends after a later one, and ends strictly before it when the positions were not all equal |
| Worklist.DatedBeforeUndated | nj/worklist.py:38-41 | a card dated before `datetime.max` ends strictly before every undated card when the positions were not all equal |
| Worklist.WritesUpToSpec | nj/worklist.py:40-41 | the writes are exactly the visited cards whose position differs from their target, each with that target |
| Worklist.PlannedWritesSpec | nj/worklist.py:40-41 | a card is written exactly when its position changes, and the write carries its new position |
| Worklist.AllEqualIsNoop | nj/worklist.py:39-41 | when all cards share one position nothing moves and nothing is written |
| Worklist.RebalancedKeepsRange | nj/worklist.py:32-33 | the smallest and largest positions survive a rebalance |
| Worklist.RebalancedSameOrder | nj/worklist.py:36-39 | a rebalanced list sorts in the same order and has the same targets |
| Worklist.RebalanceIdempotent | nj/worklist.py:36-41 | sorting a second time moves nothing and writes nothing |
| Worklist.DueText | nj/worklist.py:17 | `str(card.due_date)` of a UTC date-time: `YYYY-MM-DD HH:MM:SS[.ffffff]+00:00`; its order is stated by `DueTextOrder` |
| Worklist.DisplayKey | nj/worklist.py:17 | the `arg_list` key: the due text, or `zzz` for an undated card |
| Worklist.DisplayOrder | nj/worklist.py:15-17 | the order `arg_list` prints the cards, a stable sort by `DisplayKey`; stated by `DisplayUndatedLast` and `DisplayChronological` |
| Worklist.DueTextOrder | nj/worklist.py:15-17 | later due date-times have lexicographically larger `str()` texts |
| Worklist.DueTextBeforeUndated | nj/worklist.py:17 | every due-date text sorts before `'zzz'` |
| Worklist.DisplayUndatedLast | nj/worklist.py:15-17 | `arg_list` shows every dated card before every undated card |
| Worklist.DisplayChronological | nj/worklist.py:15-17 | `arg_list` shows dated cards in chronological order |
| StableSort.Order | nj/worklist.py:36-38 | `sorted` of the indices by key: every index exactly once |
| Strings.LexLess | nj/worklist.py:15-17 | Python's `<` on strings, by code point with a proper prefix first; used by `DisplayOrder` |
| Strings.LexLessIsStrictTotal | nj/worklist.py:15-17 | string `<` is a strict total order, so `sorted` by the display key is well defined |
| StableSort.OrderIsStableSort | nj/worklist.py:36-38 | the sort order is the one arrangement of all indices, each once, ordered by key and then by input index |
| StableSort.OrderPositions | nj/worklist.py:36-38 | the index at sorted position `a` precedes (smaller key, or equal key and earlier input position) the one at position `b` exactly when `a < b` |
| CardLookup.IdSuffix | nj/card.py:12 | `id[-3:]` is the last three characters, or the whole id when it is shorter |
| CardLookup.HasPostfix | nj/card.py:12 | the comprehension's condition `_.id[-3:] == card_id_postfix` |
| CardLookup.CardById | nj/card.py:7-21 | a returned card is a card of the board whose id ends with the postfix; both directions are stated by `CardByIdSpec` |
| CardLookup.CardByIdSpec | nj/card.py:7-21 | a card comes back exactly when one card matches the postfix, and it is that card, a member of the board |
| CardLookup.OnlyMatchFound | nj/card.py:10-21 | the single matching card is returned |
| CardLookup.FoundIsOnlyMatch | nj/card.py:10-21 | a returned card is the only match |
| CardLookup.NoMatchIsNone | nj/card.py:15-16 | no match gives `None` |
| CardLookup.AmbiguousIsNone | nj/card.py:17-19 | two matches give `None` |
| Filtering.Filter | nj/card.py:10-13 | a comprehension's result is no longer than its input, and holds only input elements that meet the condition |
| Filtering.FilterIndices | nj/label.py:11 | a comprehension's result is the input at increasing indices, each satisfying the condition, and every index satisfying it is among them |
| Filtering.FilterSingle | nj/card.py:10-13 | a comprehension with one kept element gives that element alone |
| Filtering.SingleFilter | nj/card.py:10-13 | a comprehension result of length one comes from a unique kept element |
| LabelParsing.StripAll | nj/label.py:10 | `_.strip()` applied to every piece, in order |
| LabelParsing.NamedIn | nj/label.py:11 | the comprehension's condition `_.name in labels` |
| LabelParsing.LabelNames | nj/label.py:10 | the comma-split, stripped names; stated by `LabelNamesSpec` |
| LabelParsing.ParseLabels | nj/label.py:6-11 | every returned label is a board label whose name is among the names; all directions are stated by `ParseLabelsSpec` |
| LabelParsing.LabelNamesSpec | nj/label.py:10 | the names are the comma-split pieces, each stripped; the pieces join back to the input and hold no comma |
| LabelParsing.ParseLabelsSpec | nj/label.py:11 | exactly the board labels named in the input, as a subsequence of the board in board order; no duplicates when the board has none |
| LabelParsing.ParseLabelsRepeated | nj/label.py:10-11 | naming the labels twice gives the same result as naming them once |
| LabelParsing.ParseLabelsIgnoresUnknown | nj/label.py:10-11 | an extra name no label has changes nothing and raises nothing |
| Strings.Split | nj/label.py:10 | `split(',')`: at least one piece; stated by `SplitJoin` and `SplitUnique` |
| Strings.IsSpace | nj/label.py:10 | the characters `str.strip()` removes: Python's white-space code points |
| Strings.Strip | nj/label.py:10 | `strip()`; stated by `StripDecomposition` and `StripIdempotent` |
| Strings.SplitJoin | nj/label.py:10 | `split(',')` pieces join back to the string and contain no separator |
| Strings.SplitUnique | nj/label.py:10 | splitting the join of separator-free pieces gives back those pieces |
| Strings.StripDecomposition | nj/label.py:10 | white space, then a text with no white space at either end, then white space: `strip()` gives that text |
| Strings.StripIdempotent | nj/label.py:10 | stripping twice equals stripping once |
| Devel.VersionAt | devel.py:11-14 | a match of `(\d+)\.(\d+)\.(\d+)` at a position, each group taking its whole digit run; stated both ways by `VersionAtParts` and `VersionAtSound` |
| Devel.FindVersion | devel.py:11 | `re.search` finds the leftmost position where the pattern matches, or reports that none does |
| Devel.FoundVersion | devel.py:11-14 | the three groups of the leftmost match, or none; stated by `LeftmostVersion` and `IncrementVersionSpec` |
| Devel.IncrementVersion | devel.py:8-26 | fails with `AttributeError` exactly when the string holds no `N.N.N` |
| Devel.IncrementVersionSpec | devel.py:11-26 | success exactly when a version is found; the output renders the bumped leftmost version and reads back as that version |
| Devel.Bump | devel.py:16-24 | each recognised part gives a strictly greater version; any other part leaves it unchanged |
| Devel.BumpParts | devel.py:16-24 | `major` gives `(M+1).0.0`, `minor` `M.(m+1).0`, `patch` `M.m.(p+1)` |
| Devel.RenderRoundTrip | devel.py:12-26 | the rendered version is matched again at its start and read back as the same version |
| Devel.VersionAtParts | devel.py:11-14 | digits-dot-digits-dot-digits not followed by a digit is read as those three numbers |
| Devel.VersionAtSound | devel.py:11-14 | every match is a number, a dot, a number, a dot and a number not followed by a digit, and the version holds their values |
| Devel.Render | devel.py:26 | `str(major) + '.' + str(minor) + '.' + str(patch)`; read back by `RenderRoundTrip` |
| Devel.LeftmostVersion | devel.py:11 | the version read is the leftmost match, wherever it sits |
| Devel.VersionLessIsStrictTotal | devel.py:16-24 | version precedence is a strict total order |
| Devel.ToDecimalCanonical | devel.py:26 | `str(n)` has a leading `0` only for zero itself |
| Devel.IncrementVersionCanonical | devel.py:11-26 | every output is three canonical numbers joined by dots, whose values are the bumped version's parts, however many leading zeros the input had |
| Decimal.ToDecimal | devel.py:26 | `str(n)`: at least one digit, all digits, and a leading `0` only for zero |
| Decimal.ParseDigits | devel.py:12-14 | `int()` of a digit string; inverse of `ToDecimal` by `ParseToDecimal` |
| Decimal.LastTwo | nj/trelloutil.py:46 | `s[-2:]`: two characters, or all of a shorter `s` |
| Decimal.TwoDigits | nj/trelloutil.py:46 | `('0' + str(m))[-2:]`; equal to the two-digit padding by `TwoDigitsIsPad` |
| Decimal.ParseToDecimal | devel.py:12-26 | `int(str(n)) == n` |
| Decimal.TwoDigitsIsPad | nj/trelloutil.py:46 | `('0' + str(m))[-2:]` is the two-digit zero-padded minute |

## Left out

- Colour codes: colorama escape sequences in every `format_due_date` label are decoration. Only the label text is modelled.
- Time zones and the clock: `astimezone(tzlocal())` and `datetime.today()` are foreign calls. The local due date-time and today's date are parameters.
- Trello client calls: board and list lookup, `list_cards`, `get_cards`, `get_labels` and `set_pos` are network calls. Boards are sequences of values, and `set_pos` calls are returned as a `Write` list and applied to the card array.
- The second `list_cards()` call in `arg_sort` is assumed to return the same cards as the first.
- Floating point: card positions are `real`. Float rounding of the target formula, and float equality in the `!=` test, are not modelled.
- Unicode digits: `\d` is limited to ASCII digits. Python also matches other Unicode decimal digits here.
- `int()` length limit: conversion of very long digit strings (Python's string-to-int limit) is not modelled, and numbers are unbounded.
- `%Y` padding: years below 1000 are shown zero-padded to four digits. This is platform-dependent in `strftime`.
- Printing and argument parsing:
  - the warning `card_by_id` prints on several matches;
  - `arg_list`'s printed line and comment count;
  - `versioning`'s `.version` file;
  - the `main` functions and `nj/nj.py`.
- `nj.py`: the top-level copy of `format_due_date`, `parse_new_due_date` and `card_by_id` behaves the same as the modelled files.
- `nj/colormapping.py` is a table of colour codes with no logic.

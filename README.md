# ShiftCalendarGenerator in Dafny

ShiftCalendarGenerator turns a monthly on-call roster into iCalendar files, one per
employee. The roster is a Word table with one row per day. In each row:

- the first cell holds the day number;
- the third cell holds the day of the week;
- the fourth cell holds the employees on duty, one per line, with an asterisk
  marking the one on call.

The repository has two scripts. They share the parsing and differ in the events
they build:

- `src/employee-shift-calendar-generator.py` writes all-day events. It is
  modelled in `AllDayRoster`.
- `ShiftCalendarGenerator.py` writes 24-hour events from 08:00 to 08:00 the next
  day. It is modelled in `TimedRoster`.

The model covers the transformation from extracted table rows to calendar
events, in these modules:

- `parse_shifts` is a method with the script's row loop. Its body and the
  employee loop inside it are methods of their own. Together they are proved
  equal to the row-by-row function `ParsedShifts`.
- The employee filter is `Selection.Select`.
- The event loop of `create_calendar_for_employee` adds events to a `Calendar`
  object (class `Ical.Calendar`). It is proved to produce the events of
  `EmployeeEvents`.
- The file-name guess of month and year is in `FileNames`.
- The sorted employee list and the rule resolving the user's choice of employee
  are in `EmployeePicker`.

Python's own behaviour is spelled out where the scripts depend on it:

- `PyStr`: `str.strip`, `isdigit`/`int`, `split`, `replace`, `lower` and `in`.
- `Dates`: `datetime.date` validity, adding one day or 24 hours (which overflows
  after 9999-12-31), and `strftime('%Y%m%d')`.
- `Seqs` holds generic helpers for mapping over sequences.

The clock reading `datetime.now()` is a parameter, both for DTSTAMP and for the
default month and year.

Error paths follow the code:

- `date(year, month, day)` raises `ValueError` for an impossible date
  (`OverflowError` for a day number too large for a C int) at the row's first
  employee. The row's `except` clause catches it, so the row
  contributes nothing.
- In the timed script, `start_time + timedelta(hours=24)` overflows on
  9999-12-31. The same `except` clause catches this, so the row is dropped.
- In the all-day script, `date + timedelta(days=1)` overflows while the calendar
  is being built. Nothing catches it there. It is the `DateOverflow` outcome of
  `AllDayRoster.CreateCalendarForEmployee`.

A cell line consisting only of `*` yields an on-call record with an empty name;
nothing in the parser rules this out.

## Model

| member | source | states |
|---|---|---|
| PyStr.StripLeftFacts | src/employee-shift-calendar-generator.py:148 | `lstrip` removes exactly a whitespace prefix: what it removes is all whitespace, and what remains is a suffix that starts with a non-space character |
| PyStr.StripRightFacts | src/employee-shift-calendar-generator.py:148 | `rstrip` removes exactly a whitespace suffix, and what remains is a prefix that ends with a non-space character |
| PyStr.StripPadding | src/employee-shift-calendar-generator.py:164 | the input of `strip()` is its result, in order, with only whitespace before and after it |
| PyStr.StripProperties | src/employee-shift-calendar-generator.py:148 | the result of `strip()` has no whitespace at either end, is no longer than its input and has only the input's characters; it is empty exactly for an all-whitespace string; an already trimmed string is unchanged |
| PyStr.StripIdempotent | src/employee-shift-calendar-generator.py:160 | stripping twice is stripping once, so re-stripping the kept lines changes nothing |
| PyStr.PadDigits | src/employee-shift-calendar-generator.py:214 | zero-padding a number gives exactly `w` decimal digits |
| PyStr.PadDigitsRoundTrip | src/employee-shift-calendar-generator.py:214 | a zero-padded number reads back as the number whenever it fits in the width |
| PyStr.Split | src/employee-shift-calendar-generator.py:159 | `split('\n')` gives at least one piece and no piece contains the separator |
| PyStr.JoinSplit | src/employee-shift-calendar-generator.py:159 | `split(sep)` followed by joining with `sep` gives back the string |
| PyStr.SplitJoin | src/employee-shift-calendar-generator.py:159 | splitting lines joined by `sep` gives back the lines when none contains `sep` |
| PyStr.SplitNoSep | src/employee-shift-calendar-generator.py:159 | a string without the separator splits into itself alone |
| PyStr.SplitPrefix | src/employee-shift-calendar-generator.py:159 | a separator-free prefix followed by the separator becomes the first piece, and the rest is split on its own |
| PyStr.RemoveAllFacts | src/employee-shift-calendar-generator.py:164 | `replace('*', '')` leaves no `*`, keeps every other character as often as before, changes nothing in a string without `*`, and drops a single character exactly when it is `*` |
| PyStr.RemoveAllAppend | src/employee-shift-calendar-generator.py:164 | `replace('*', '')` distributes over concatenation, so with the single-character case it keeps the other characters in their order |
| PyStr.Contains | src/employee-shift-calendar-generator.py:163 | `p in s` holds exactly when `p` occurs at some position of `s` |
| PyStr.LowerStrChars | src/employee-shift-calendar-generator.py:185 | `lower()` lowers each character on its own and keeps the length |
| PyStr.LowerStrIdempotent | src/employee-shift-calendar-generator.py:185 | lowering twice is lowering once, so the name comparison is between normal forms |
| Dates.DaysInMonth | src/employee-shift-calendar-generator.py:167 | months have 28 to 31 days, and 29 only for February of a leap year |
| Dates.MakeDate | src/employee-shift-calendar-generator.py:167 | `date(year, month, day)` succeeds exactly for a valid Gregorian date in years 1 to 9999, and then holds those three fields |
| Dates.OrdinalMonotone | src/employee-shift-calendar-generator.py:208 | day ordinals follow calendar order |
| Dates.OrdinalInjective | src/employee-shift-calendar-generator.py:208 | two valid dates with the same ordinal are the same date |
| Dates.NextDay | src/employee-shift-calendar-generator.py:208 | `d + timedelta(days=1)` fails exactly on 9999-12-31 |
| Dates.NextDayFollows | src/employee-shift-calendar-generator.py:208 | otherwise the result is the date one ordinal later, and it comes after `d` in calendar order |
| Dates.NextDayUnique | src/employee-shift-calendar-generator.py:208 | the next day is the only valid date one ordinal later |
| Dates.NextDayRollover | src/employee-shift-calendar-generator.py:208 | the next day rolls the day, then the month at the month's end, then the year on 31 December |
| Dates.AddDay | ShiftCalendarGenerator.py:76 | `t + timedelta(hours=24)` fails exactly when `t` is on 9999-12-31 |
| Dates.AddDaySeconds | ShiftCalendarGenerator.py:76 | otherwise the result is exactly 86400 seconds later, at the same time of day |
| Dates.Stamp | src/employee-shift-calendar-generator.py:214 | `strftime('%Y%m%d')` is eight digits: four of year, two of month, two of day |
| Dates.StampRoundTrip | src/employee-shift-calendar-generator.py:214 | the year, month and day read back from the stamp are those of the date |
| Dates.StampInjective | src/employee-shift-calendar-generator.py:214 | different valid dates have different stamps |
| RosterCells.NonBlankLinesAppend | src/employee-shift-calendar-generator.py:160 | dropping blank lines keeps the others in order: it distributes over concatenation |
| RosterCells.NonBlankLine | src/employee-shift-calendar-generator.py:160 | one line yields its stripped self when it is not blank and nothing when it is |
| RosterCells.NonBlankLinesStripped | src/employee-shift-calendar-generator.py:160 | every kept line is non-empty and trimmed, and no more lines are kept than given |
| RosterCells.CellNamesOfLines | src/employee-shift-calendar-generator.py:159-160 | a cell written as newline-separated lines yields exactly those lines that are not blank, stripped and in order |
| RosterCells.ParseEntryMeaning | src/employee-shift-calendar-generator.py:163-169 | a line is on call exactly when it contains `*`; the stored name has no `*`, is trimmed and uses only the line's characters; the line with its `*` removed is the stored name, in order, with only whitespace around it; a trimmed line without `*` is stored unchanged |
| RosterCells.MarkerOnlyLine | src/employee-shift-calendar-generator.py:162-164 | a line of only `*` and whitespace, with at least one `*`, becomes an on-call entry with an empty name |
| RosterCells.StarOnly | src/employee-shift-calendar-generator.py:162-164 | the line `*` becomes an on-call entry with an empty name |
| Selection.SelectMeaning | src/employee-shift-calendar-generator.py:185-187 | the selection keeps exactly the records whose employee equals the name ignoring case, invents none, and is empty exactly when no record matches |
| Selection.SelectAppend | src/employee-shift-calendar-generator.py:185 | selection keeps input order: it distributes over concatenation |
| Selection.SelectCaseInsensitive | src/employee-shift-calendar-generator.py:185 | two requested names that agree ignoring case select the same records |
| Ical.Calendar.constructor | src/employee-shift-calendar-generator.py:191 | a new calendar has no properties and no components |
| Ical.Calendar.Add | src/employee-shift-calendar-generator.py:192-194 | `cal.add` appends one property and leaves the components alone |
| Ical.Calendar.AddComponent | src/employee-shift-calendar-generator.py:221 | `cal.add_component` appends one event and leaves the properties alone |
| Ical.Summary | src/employee-shift-calendar-generator.py:200 | the summary is the shift type, then " - ", then the day of the week, each recoverable from its position |
| Ical.Description | src/employee-shift-calendar-generator.py:218 | the description is "24-hour ", the shift type in lower case, " for ", then the employee name as given, each at its stated position |
| Ical.Uid | src/employee-shift-calendar-generator.py:214 | the UID is the name without spaces, a dash, the 8-character date stamp and the fixed domain |
| Ical.UidInjective | src/employee-shift-calendar-generator.py:214 | two UIDs are equal exactly when their names agree once spaces are removed and their dates are equal |
| EmployeePicker.Insert | src/employee-shift-calendar-generator.py:317 | inserting into a strictly ascending list keeps it strictly ascending and adds exactly the new name |
| EmployeePicker.SortedUnique | src/employee-shift-calendar-generator.py:317 | `sorted(set(names))` is strictly ascending and holds exactly the given names |
| EmployeePicker.EmployeeList | src/employee-shift-calendar-generator.py:317 | the numbered list holds every record's employee once, in ascending order, and no other name |
| EmployeePicker.SortedListUnique | src/employee-shift-calendar-generator.py:317 | only one strictly ascending list has a given set of names, so the numbering depends on the names alone |
| EmployeePicker.FirstContaining | src/employee-shift-calendar-generator.py:347-350 | the scan for a suggestion finds the first listed name whose lower-case form contains the input, or reports that none does |
| EmployeePicker.ChoiceOfMeaning | src/employee-shift-calendar-generator.py:328-361 | 'all' in any case selects everyone, and only 'all' does. Any other input that is an in-range number picks that entry of the list, ahead of a name match or a suggestion. A listed name matched ignoring case is kept as typed. Otherwise the first name containing the input is suggested. The input is rejected only when no name contains it |
| EmployeePicker.ResolveChoice | src/employee-shift-calendar-generator.py:328-361 | the loop with its early exit resolves the input as `ChoiceOf` defines it |
| EmployeePicker.FirstContainingAt | src/employee-shift-calendar-generator.py:347-350 | the index where the left-to-right scan stops is the one `FirstContaining` names |
| EmployeePicker.ChosenEmployeeHasShifts | src/employee-shift-calendar-generator.py:339-361 | a choice made by number, by name or by suggestion names an employee with at least one shift, so the calendar built for it is not empty |
| EmployeePicker.ListedNameHasShifts | src/employee-shift-calendar-generator.py:345 | a name equal, ignoring case, to a listed name selects at least one shift |
| AllDayRoster.RecordsOnMeaning | src/employee-shift-calendar-generator.py:162-176 | the k-th record of a row is built from the k-th employee line |
| AllDayRoster.RowShiftsSkipped | src/employee-shift-calendar-generator.py:143-167 | a row that is too short, has no day number or names an impossible date yields no records |
| AllDayRoster.RowShiftsRecords | src/employee-shift-calendar-generator.py:148-176 | any other row yields one record per non-blank employee line, in order, dated (year, month, day) and carrying the stripped third cell as the day of the week |
| AllDayRoster.RowShiftsNames | src/employee-shift-calendar-generator.py:163-164 | every record of a row stores a trimmed name without `*` |
| AllDayRoster.ParsedShiftsInMonth | src/employee-shift-calendar-generator.py:167-176 | every parsed record is dated in the requested month and year and stores a trimmed name without `*` |
| AllDayRoster.ParsedShiftsAppend | src/employee-shift-calendar-generator.py:142 | rows are parsed independently: the records of a concatenation of row lists are those of each part, in order |
| AllDayRoster.SkippedRowContributesNothing | src/employee-shift-calendar-generator.py:143-179 | a skipped row contributes nothing and leaves the records of the rows around it as they were |
| AllDayRoster.ParseShifts | src/employee-shift-calendar-generator.py:138-181 | the row loop returns exactly the records of every row, row after row |
| AllDayRoster.AppendRowShifts | src/employee-shift-calendar-generator.py:143-179 | one pass of the row loop, with its `continue`s and its caught `ValueError`, appends exactly the row's records to those already collected |
| AllDayRoster.AppendEmployeeShifts | src/employee-shift-calendar-generator.py:162-176 | the employee loop appends one record per line, in order, for a valid date, and nothing when the date is invalid |
| AllDayRoster.ShiftEventMeaning | src/employee-shift-calendar-generator.py:197-219 | an event starts on the shift's date and ends, exclusively, on the next calendar day; it carries the summary, UID, DTSTAMP and description of its shift; it fails only on 9999-12-31 |
| AllDayRoster.EmployeeEventsMeaning | src/employee-shift-calendar-generator.py:196-221 | the events exist unless some selected shift is on 9999-12-31; then there is one event per shift and the k-th is the k-th shift's |
| AllDayRoster.ShiftEventClock | src/employee-shift-calendar-generator.py:211 | an event depends on the clock only through its DTSTAMP |
| AllDayRoster.EventsIgnoreClock | src/employee-shift-calendar-generator.py:211 | regenerating a calendar gives the same events apart from their DTSTAMP |
| AllDayRoster.EventUidsDistinct | src/employee-shift-calendar-generator.py:214 | within one calendar, events for shifts on different dates have different UIDs |
| AllDayRoster.CreateCalendarForEmployee | src/employee-shift-calendar-generator.py:183-227 | no matching shift gives `NoShifts` and no calendar. A matching shift on 9999-12-31 gives `DateOverflow`. Otherwise a new calendar holds the prodid, version and calscale properties and one event per selected shift, in input order |
| TimedRoster.RecordsOnMeaning | ShiftCalendarGenerator.py:67-87 | the k-th record of a row is built from the k-th employee line |
| TimedRoster.RowShiftsSkipped | ShiftCalendarGenerator.py:48-76 | a row that is too short, has no day number, names an impossible date or 9999-12-31 yields no records |
| TimedRoster.RowShiftsRecords | ShiftCalendarGenerator.py:53-87 | any other row yields one record per non-blank employee line, in order, dated (year, month, day), carrying the stripped third cell and ending 24 hours after 08:00 |
| TimedRoster.RecordOfScheduled | ShiftCalendarGenerator.py:75-76 | a record starts at 08:00 on its date and ends at 08:00 on the next date, 86400 seconds later |
| TimedRoster.RowShiftsWellFormed | ShiftCalendarGenerator.py:64-87 | every record of a row is such a 24-hour shift in the requested month and year with a trimmed name without `*` |
| TimedRoster.ParsedShiftsWellFormed | ShiftCalendarGenerator.py:47-92 | every parsed record is a 24-hour shift from 08:00 in the requested month and year with a trimmed name without `*` |
| TimedRoster.ParsedShiftsAppend | ShiftCalendarGenerator.py:47 | rows are parsed independently: the records of a concatenation of row lists are those of each part, in order |
| TimedRoster.SkippedRowContributesNothing | ShiftCalendarGenerator.py:48-90 | a skipped row contributes nothing and leaves the records of the rows around it as they were |
| TimedRoster.ParseShifts | ShiftCalendarGenerator.py:43-92 | the row loop returns exactly the records of every row, row after row |
| TimedRoster.AppendRowShifts | ShiftCalendarGenerator.py:48-90 | one pass of the row loop, with its `continue`s and its caught `ValueError` and `OverflowError`, appends exactly the row's records to those already collected |
| TimedRoster.AppendEmployeeShifts | ShiftCalendarGenerator.py:67-87 | the employee loop appends one record per line, in order, each from 08:00 to 08:00 the next day, and nothing when the date is invalid or is 9999-12-31 |
| TimedRoster.EmployeeEventsMeaning | ShiftCalendarGenerator.py:106-124 | there is one event per selected shift, and the k-th is the k-th shift's |
| TimedRoster.ScheduledEvents | ShiftCalendarGenerator.py:112-113 | the event of a 24-hour shift starts at 08:00 on its date and ends 86400 seconds later, at 08:00 on the next date |
| TimedRoster.EventsSpanOneDay | ShiftCalendarGenerator.py:112-113 | every event of any employee's calendar built from parsed rows spans exactly those 24 hours |
| TimedRoster.EventsIgnoreClock | ShiftCalendarGenerator.py:114 | regenerating a calendar gives the same events apart from their DTSTAMP |
| TimedRoster.EventUidsDistinct | ShiftCalendarGenerator.py:117 | within one calendar, events for shifts on different dates have different UIDs |
| TimedRoster.CreateCalendarForEmployee | ShiftCalendarGenerator.py:94-130 | no matching shift gives no calendar. Otherwise a new calendar holds the prodid and version properties and one timed event per selected shift, in input order |
| FileNames.FirstMonthName | src/employee-shift-calendar-generator.py:256-258 | the month table is scanned in order, and the first name found in the file name is the one returned; none is returned only when no name occurs |
| FileNames.FindYear | src/employee-shift-calendar-generator.py:260 | `re.search(r'20\d\d', ...)` finds the leftmost match, or reports that none exists |
| FileNames.YearValueRange | src/employee-shift-calendar-generator.py:262 | a matched year is between 2000 and 2099 and is read from its last two digits |
| FileNames.MonthYearMeaning | src/employee-shift-calendar-generator.py:242-268 | without a month name both defaults are returned, even when a year is present. With one, the month is 1 to 12 and is the first name found in table order. The year is the leftmost "20dd" or, if none occurs, the default |
| FileNames.MarchExample | src/employee-shift-calendar-generator.py:244 | the scripts' example file name yields March 2025 |
| FileNames.ExtractMonthYear | ShiftCalendarGenerator.py:145-171 | the loop over the month table with its early returns gives the month and year `MonthYear` defines |

## Left out

- Reading the roster is not modelled: `read_docx_table`, `convert_doc_to_docx` with LibreOffice and Word, and the temporary files. The rows are an input.
- The tkinter dialogs `browse_file` and `save_calendar_file`, and the `input()`/`print` dialogue of `main`, are not modelled. This includes the month and year override prompts, the "Did you mean" confirmation, the retry and "another employee" questions, and the loop over every employee for 'all'.
- iCalendar serialisation (`to_ical`) and the file write are not modelled. A calendar is its list of properties and its list of events.
- The diagnostic `print` calls of `parse_shifts` and `create_calendar_for_employee` are not modelled: a skipped row and an empty selection are not reported, only their outcome (no records, `NoShifts` or None) is.
- The clock is not read. `datetime.now()` is a parameter: one DTSTAMP for a whole calendar, and the default month and year.
- AllDayRoster.CreateCalendarForEmployee: takes one `now` for every event. The scripts call `datetime.now()` once per event, so their DTSTAMPs can differ by the time the loop takes.
- TimedRoster.CreateCalendarForEmployee: takes one `now` for every event, for the same reason.
- TimedRoster.ShiftRecord: keeps the root script's `date` field, a midnight `datetime`, as a date. Only its date part is ever used, in the UID.
- PyStr.IsDigit: ASCII digits only. Python's `isdigit()`, `int()` and the regex `\d` also accept other Unicode digits.
- FileNames.YearAt: matches ASCII digits only, for the same reason.
- PyStr.Lower: covers ASCII, Latin-1 and Greek capitals. Every other character is left unchanged. Python's context-dependent final sigma is not modelled, so a name ending in Σ lowers to σ here where Python gives ς.
- Dates.Stamp: writes the year as four digits. Some platform C libraries do not zero-pad `%Y` for years before 1000.
- The scripts' `except` clause around the month-name lookup is not modelled. For string file names nothing inside it raises.

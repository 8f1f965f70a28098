/** The timed variant of the roster-to-calendar conversion
    (ShiftCalendarGenerator.py): every shift runs from 08:00 on its date to
    08:00 on the next date, and the calendar events carry those two times. */
module TimedRoster {
  import opened Wrappers
  import opened PyStr
  import opened Dates
  import opened RosterCells
  import opened Selection
  import opened Ical
  import opened Seqs

  /** The hour every 24-hour shift starts at */
  const ShiftStartHour: int := 8

  /** One shift as `parse_shifts` stores it: `date` is the midnight
      `datetime` of the row, kept here as its date */
  datatype ShiftRecord = ShiftRecord(
    employee: string, date: PyDate, dayOfWeek: string, shiftType: ShiftKind,
    startTime: PyDateTime, endTime: PyDateTime)

  function EmployeeOf(s: ShiftRecord): string {
    s.employee
  }

  /** `datetime(year, month, day, 8, 0, 0)` */
  function StartOf(d: PyDate): PyDateTime {
    DateTime(d, ShiftStartHour, 0, 0)
  }

  /** A record whose times are those of a 24-hour shift on its date: it starts
      at 08:00 on that date and ends at 08:00 on the next one, exactly 24 hours
      later */
  predicate Scheduled(s: ShiftRecord) {
    && s.startTime == StartOf(s.date)
    && s.date != LastDate
    && s.endTime == DateTime(NextDay(s.date).value, ShiftStartHour, 0, 0)
    && Seconds(s.endTime) == Seconds(s.startTime) + 24 * 3600
  }

  /** The record `parse_shifts` stores for the employee line `line` on date
      `d`, ending at `endTime` */
  function RecordOf(line: string, d: PyDate, endTime: PyDateTime, dayOfWeek: string): ShiftRecord {
    var e := ParseEntry(line);
    ShiftRecord(e.name, d, dayOfWeek, e.shiftType, StartOf(d), endTime)
  }

  /** One record per employee line, in line order, all on date `d` */
  function RecordsOn(names: seq<string>, d: PyDate, endTime: PyDateTime, dayOfWeek: string): (r: seq<ShiftRecord>)
    ensures |r| == |names|
  {
    if names == [] then []
    else RecordsOn(names[..|names| - 1], d, endTime, dayOfWeek) + [RecordOf(names[|names| - 1], d, endTime, dayOfWeek)]
  }

  /** The k-th record is the k-th line's */
  lemma {:induction false} RecordsOnMeaning(names: seq<string>, d: PyDate, endTime: PyDateTime, dayOfWeek: string)
    ensures forall k :: 0 <= k < |names| ==>
      RecordsOn(names, d, endTime, dayOfWeek)[k] == RecordOf(names[k], d, endTime, dayOfWeek)
  {
    if names != [] {
      var init := names[..|names| - 1];
      RecordsOnMeaning(init, d, endTime, dayOfWeek);
      forall k | 0 <= k < |names| ensures RecordsOn(names, d, endTime, dayOfWeek)[k] == RecordOf(names[k], d, endTime, dayOfWeek) {
        if k < |init| { assert names[k] == init[k]; }
      }
    }
  }

  /** One more line appends its record */
  lemma RecordsOnSnoc(names: seq<string>, j: nat, d: PyDate, endTime: PyDateTime, dayOfWeek: string)
    requires j < |names|
    ensures RecordsOn(names[..j + 1], d, endTime, dayOfWeek)
         == RecordsOn(names[..j], d, endTime, dayOfWeek) + [RecordOf(names[j], d, endTime, dayOfWeek)]
  {
    assert names[..j + 1][..j] == names[..j];
  }

  /** The records one row contributes to `parse_shifts`' result: none when
      `datetime(year, month, day)` raises ValueError (OverflowError for a day
      number too large for a C int) or `start_time +
      timedelta(hours=24)` raises OverflowError */
  function RowShifts(row: seq<string>, month: int, year: int): seq<ShiftRecord> {
    if |row| < 4 then []
    else
      var day := Strip(row[0]);
      if !IsDigits(day) then []
      else
        match MakeDate(year, month, DigitsValue(day))
        case None => []
        case Some(d) =>
          match AddDay(StartOf(d))
          case None => []
          case Some(endTime) => RecordsOn(RowNames(row), d, endTime, Strip(row[2]))
  }

  /** A row yields nothing when it is too short, has no day number, names an
      impossible date or the last representable date */
  lemma RowShiftsSkipped(row: seq<string>, month: int, year: int)
    requires !IsDataRow(row) || !ValidDate(Date(year, month, RowDay(row))) || Date(year, month, RowDay(row)) == LastDate
    ensures RowShifts(row, month, year) == []
  {
  }

  /** Otherwise it yields one record per non-blank line of the fourth cell, in
      line order, dated (year, month, day), labelled with the stripped third
      cell and ending 24 hours after 08:00 on that date */
  lemma RowShiftsRecords(row: seq<string>, month: int, year: int)
    requires IsDataRow(row) && ValidDate(Date(year, month, RowDay(row))) && Date(year, month, RowDay(row)) != LastDate
    ensures |RowShifts(row, month, year)| == |RowNames(row)|
    ensures forall k :: 0 <= k < |RowNames(row)| ==>
      RowShifts(row, month, year)[k] ==
        RecordOf(RowNames(row)[k], Date(year, month, RowDay(row)),
                 AddDay(StartOf(Date(year, month, RowDay(row)))).value, Strip(row[2]))
  {
    var d: PyDate := Date(year, month, RowDay(row));
    RecordsOnMeaning(RowNames(row), d, AddDay(StartOf(d)).value, Strip(row[2]));
  }

  /** A record built with the end `start_time + timedelta(hours=24)` is a
      24-hour shift starting at 08:00 */
  lemma RecordOfScheduled(line: string, d: PyDate, dayOfWeek: string)
    requires d != LastDate
    ensures Scheduled(RecordOf(line, d, AddDay(StartOf(d)).value, dayOfWeek))
  {
    AddDaySeconds(StartOf(d));
  }

  /** Every record of a row is a 24-hour shift from 08:00 dated in the
      requested month and year, and stores a trimmed, marker-free name */
  lemma RowShiftsWellFormed(row: seq<string>, month: int, year: int)
    ensures forall s :: s in RowShifts(row, month, year) ==>
      && Scheduled(s) && s.date.year == year && s.date.month == month
      && Marker !in s.employee && Stripped(s.employee)
  {
    if IsDataRow(row) && ValidDate(Date(year, month, RowDay(row))) && Date(year, month, RowDay(row)) != LastDate {
      var d: PyDate := Date(year, month, RowDay(row));
      RowShiftsRecords(row, month, year);
      forall s | s in RowShifts(row, month, year)
        ensures Scheduled(s) && s.date.year == year && s.date.month == month
        ensures Marker !in s.employee && Stripped(s.employee)
      {
        var k :| 0 <= k < |RowShifts(row, month, year)| && RowShifts(row, month, year)[k] == s;
        ParseEntryMeaning(RowNames(row)[k]);
        RecordOfScheduled(RowNames(row)[k], d, Strip(row[2]));
      }
    } else {
      RowShiftsSkipped(row, month, year);
    }
  }

  /** Every record `parse_shifts(rows, month, year)` returns, row after row */
  function ParsedShifts(rows: seq<seq<string>>, month: int, year: int): seq<ShiftRecord> {
    FlatMap(rows, RowParser(month, year))
  }

  /** The row parser for one month */
  function RowParser(month: int, year: int): seq<string> -> seq<ShiftRecord> {
    row => RowShifts(row, month, year)
  }

  /** Parsing one more row appends that row's records */
  lemma ParsedShiftsSnoc(rows: seq<seq<string>>, row: seq<string>, month: int, year: int)
    ensures ParsedShifts(rows + [row], month, year) == ParsedShifts(rows, month, year) + RowShifts(row, month, year)
  {
    FlatMapSnoc(rows, row, RowParser(month, year));
  }

  /** Every parsed record is a 24-hour shift from 08:00 dated in the requested
      month and year, and stores a trimmed, marker-free name */
  lemma {:induction false} ParsedShiftsWellFormed(rows: seq<seq<string>>, month: int, year: int)
    ensures forall s :: s in ParsedShifts(rows, month, year) ==>
      && Scheduled(s) && s.date.year == year && s.date.month == month
      && Marker !in s.employee && Stripped(s.employee)
    decreases |rows|
  {
    if rows != [] {
      var init, row := rows[..|rows| - 1], rows[|rows| - 1];
      assert rows == init + [row];
      ParsedShiftsSnoc(init, row, month, year);
      ParsedShiftsWellFormed(init, month, year);
      RowShiftsWellFormed(row, month, year);
    }
  }

  /** Rows are parsed independently: the records of a concatenation are the
      records of each part, in order */
  lemma ParsedShiftsAppend(a: seq<seq<string>>, b: seq<seq<string>>, month: int, year: int)
    ensures ParsedShifts(a + b, month, year) == ParsedShifts(a, month, year) + ParsedShifts(b, month, year)
  {
    FlatMapAppend(a, b, RowParser(month, year));
  }

  /** A skipped row (too short, no day number, an impossible date or the last
      representable date) contributes nothing and leaves the records of the
      other rows as they were */
  lemma SkippedRowContributesNothing(before: seq<seq<string>>, row: seq<string>, after: seq<seq<string>>, month: int, year: int)
    requires !IsDataRow(row) || !ValidDate(Date(year, month, RowDay(row))) || Date(year, month, RowDay(row)) == LastDate
    ensures ParsedShifts(before + [row] + after, month, year)
         == ParsedShifts(before, month, year) + ParsedShifts(after, month, year)
  {
    RowShiftsSkipped(row, month, year);
    var upTo := before + [row];
    ParsedShiftsSnoc(before, row, month, year);
    assert ParsedShifts(upTo, month, year) == ParsedShifts(before, month, year);
    ParsedShiftsAppend(upTo, after, month, year);
  }

  /** `parse_shifts`: scan the rows in order and append each row's records */
  method ParseShifts(rows: seq<seq<string>>, month: int, year: int) returns (shifts: seq<ShiftRecord>)
    ensures shifts == ParsedShifts(rows, month, year)
  {
    shifts := [];
    var i := 0;
    while i < |rows|
      invariant 0 <= i <= |rows|
      invariant shifts == ParsedShifts(rows[..i], month, year)
    {
      shifts := AppendRowShifts(shifts, rows[i], month, year);
      ParsedShiftsStep(rows, i, month, year);
      i := i + 1;
    }
    assert rows[..|rows|] == rows;
  }

  /** The records of the first i + 1 rows are those of the first i rows
      followed by row i's */
  lemma ParsedShiftsStep(rows: seq<seq<string>>, i: nat, month: int, year: int)
    requires i < |rows|
    ensures ParsedShifts(rows[..i + 1], month, year) == ParsedShifts(rows[..i], month, year) + RowShifts(rows[i], month, year)
  {
    FlatMapStep(rows, i, RowParser(month, year));
  }

  /** One pass of the row loop of `parse_shifts`: skip a row without enough
      cells or without a day number, otherwise append one record per employee
      line; an invalid date or an end past the last representable instant
      raises at the row's first employee, and the except clause moves on with
      nothing appended */
  method AppendRowShifts(shifts: seq<ShiftRecord>, row: seq<string>, month: int, year: int) returns (out: seq<ShiftRecord>)
    ensures out == shifts + RowShifts(row, month, year)
  {
    out := shifts;
    if |row| < 4 {
      return;
    }
    var day := Strip(row[0]);
    var dayOfWeek := Strip(row[2]);
    var employeesCell := Strip(row[3]);
    if !IsDigits(day) {
      return;
    }
    var dayNumber := DigitsValue(day);
    var employees := CellNames(employeesCell);
    out := AppendEmployeeShifts(shifts, employees, dayNumber, dayOfWeek, month, year);
  }

  /** The end of a 24-hour shift from 08:00 on (year, month, day), or None
      when `datetime(year, month, day)` raises ValueError (OverflowError for a day
      number too large for a C int) or the addition
      raises OverflowError */
  function ShiftEnd(year: int, month: int, day: int): Option<PyDateTime> {
    match MakeDate(year, month, day)
    case None => None
    case Some(d) => AddDay(StartOf(d))
  }

  /** The employee loop of one row: one record per employee line appended to
      `shifts`, or nothing when the first line's `datetime(year, month, day)`
      or `start_time + timedelta(hours=24)` raises */
  method AppendEmployeeShifts(shifts: seq<ShiftRecord>, employees: seq<string>, day: int, dayOfWeek: string, month: int, year: int)
    returns (out: seq<ShiftRecord>)
    ensures ShiftEnd(year, month, day).None? ==> out == shifts
    ensures ShiftEnd(year, month, day).Some? ==>
      out == shifts + RecordsOn(employees, MakeDate(year, month, day).value, ShiftEnd(year, month, day).value, dayOfWeek)
  {
    out := shifts;
    ghost var rowDate := MakeDate(year, month, day);
    ghost var rowEnd := ShiftEnd(year, month, day);
    var j := 0;
    assert rowEnd.Some? ==> out == shifts + RecordsOn(employees[..0], rowDate.value, rowEnd.value, dayOfWeek);
    while j < |employees|
      invariant 0 <= j <= |employees|
      invariant rowEnd.Some? ==> rowDate.Some?
      invariant rowEnd.None? ==> out == shifts
      invariant rowEnd.Some? ==> out == shifts + RecordsOn(employees[..j], rowDate.value, rowEnd.value, dayOfWeek)
    {
      var entry := ParseEntry(employees[j]);
      var shiftDate := MakeDate(year, month, day);
      if shiftDate.None? {
        // ValueError from datetime()
        break;
      }
      var startTime := StartOf(shiftDate.value);
      var endTime := AddDay(startTime);
      if endTime.None? {
        // OverflowError from the addition
        break;
      }
      var record := ShiftRecord(entry.name, shiftDate.value, dayOfWeek, entry.shiftType, startTime, endTime.value);
      ghost var previous := RecordsOn(employees[..j], shiftDate.value, endTime.value, dayOfWeek);
      RecordsOnSnoc(employees, j, shiftDate.value, endTime.value, dayOfWeek);
      AppendAssoc(shifts, previous, [record]);
      out := out + [record];
      j := j + 1;
    }
    assert rowEnd.Some? ==> employees[..j] == employees;
  }

  /** A calendar event: `summary`, `dtstart`, `dtend`, `dtstamp`, `uid` and
      `description`, with DATE-TIME valued start and end */
  datatype Event = Event(summary: string, dtstart: PyDateTime, dtend: PyDateTime, dtstamp: PyDateTime, uid: string, description: string)

  /** The event built for one shift */
  function ShiftEvent(s: ShiftRecord, employeeName: string, now: PyDateTime): Event {
    Event(Summary(Label(s.shiftType), s.dayOfWeek), s.startTime, s.endTime, now,
          Uid(employeeName, s.date), Description(Label(s.shiftType), employeeName))
  }

  /** The event builder the loop applies to each selected shift */
  function EventMaker(employeeName: string, now: PyDateTime): ShiftRecord -> Event {
    s => ShiftEvent(s, employeeName, now)
  }

  /** The events for the selected shifts, one per shift in the same order */
  function EmployeeEvents(selected: seq<ShiftRecord>, employeeName: string, now: PyDateTime): seq<Event> {
    Map(selected, EventMaker(employeeName, now))
  }

  /** The k-th event is the k-th shift's */
  lemma EmployeeEventsMeaning(selected: seq<ShiftRecord>, employeeName: string, now: PyDateTime)
    ensures |EmployeeEvents(selected, employeeName, now)| == |selected|
    ensures forall k :: 0 <= k < |selected| ==>
      EmployeeEvents(selected, employeeName, now)[k] == ShiftEvent(selected[k], employeeName, now)
  {
    MapMeaning(selected, EventMaker(employeeName, now));
  }

  /** The event of a 24-hour shift starts at 08:00 on the shift's date and
      ends 86400 seconds later, at 08:00 on the next date */
  lemma ScheduledEvents(selected: seq<ShiftRecord>, employeeName: string, now: PyDateTime)
    requires forall s :: s in selected ==> Scheduled(s)
    ensures forall k :: 0 <= k < |selected| ==>
      && selected[k].date != LastDate
      && EmployeeEvents(selected, employeeName, now)[k].dtstart == StartOf(selected[k].date)
      && EmployeeEvents(selected, employeeName, now)[k].dtend == DateTime(NextDay(selected[k].date).value, ShiftStartHour, 0, 0)
      && Seconds(EmployeeEvents(selected, employeeName, now)[k].dtend)
         == Seconds(EmployeeEvents(selected, employeeName, now)[k].dtstart) + 24 * 3600
  {
    EmployeeEventsMeaning(selected, employeeName, now);
    forall k | 0 <= k < |selected|
      ensures Scheduled(selected[k])
    {
      assert selected[k] in selected;
    }
  }

  /** The calendar of any employee built from parsed rows holds 24-hour
      events: each starts at 08:00 on its shift's date and ends 86400 seconds
      later, at 08:00 on the next date */
  lemma EventsSpanOneDay(rows: seq<seq<string>>, month: int, year: int, employeeName: string, now: PyDateTime)
    ensures var selected := Select(ParsedShifts(rows, month, year), EmployeeOf, employeeName);
      forall k :: 0 <= k < |selected| ==>
        && selected[k].date != LastDate
        && EmployeeEvents(selected, employeeName, now)[k].dtstart == StartOf(selected[k].date)
        && EmployeeEvents(selected, employeeName, now)[k].dtend == DateTime(NextDay(selected[k].date).value, ShiftStartHour, 0, 0)
        && Seconds(EmployeeEvents(selected, employeeName, now)[k].dtend)
           == Seconds(EmployeeEvents(selected, employeeName, now)[k].dtstart) + 24 * 3600
  {
    var parsed := ParsedShifts(rows, month, year);
    var selected := Select(parsed, EmployeeOf, employeeName);
    ParsedShiftsWellFormed(rows, month, year);
    SelectMeaning(parsed, EmployeeOf, employeeName);
    forall s | s in selected ensures Scheduled(s) {
      var k :| 0 <= k < |selected| && selected[k] == s;
      assert s in parsed;
    }
    ScheduledEvents(selected, employeeName, now);
  }

  /** Regenerating a calendar gives the same events apart from their DTSTAMP */
  lemma EventsIgnoreClock(selected: seq<ShiftRecord>, employeeName: string, t1: PyDateTime, t2: PyDateTime)
    ensures var e1, e2 := EmployeeEvents(selected, employeeName, t1), EmployeeEvents(selected, employeeName, t2);
      |e1| == |e2| == |selected| && forall k :: 0 <= k < |selected| ==> e1[k].(dtstamp := t2) == e2[k]
  {
    EmployeeEventsMeaning(selected, employeeName, t1);
    EmployeeEventsMeaning(selected, employeeName, t2);
  }

  /** Within one calendar, events for shifts on different dates have different UIDs */
  lemma EventUidsDistinct(selected: seq<ShiftRecord>, employeeName: string, now: PyDateTime, i: int, j: int)
    requires 0 <= i < |selected| && 0 <= j < |selected|
    requires selected[i].date != selected[j].date
    ensures var events := EmployeeEvents(selected, employeeName, now);
      |events| == |selected| && events[i].uid != events[j].uid
  {
    EmployeeEventsMeaning(selected, employeeName, now);
    var events := EmployeeEvents(selected, employeeName, now);
    assert events[i].uid == Uid(employeeName, selected[i].date);
    assert events[j].uid == Uid(employeeName, selected[j].date);
    if events[i].uid == events[j].uid {
      UidInjective(employeeName, selected[i].date, employeeName, selected[j].date);
    }
  }

  /** The properties every calendar gets, in the order they are added */
  const CalendarProperties: seq<(string, string)> := [("prodid", ProdId), ("version", Version)]

  /** `create_calendar_for_employee`: select the employee's shifts ignoring
      case and add one timed event per shift, in input order; None when no
      shift matches (nothing is written then) */
  method CreateCalendarForEmployee(shifts: seq<ShiftRecord>, employeeName: string, now: PyDateTime)
    returns (cal: Option<Calendar<Event>>)
    ensures cal.None? <==> Select(shifts, EmployeeOf, employeeName) == []
    ensures cal.Some? ==>
      && fresh(cal.value)
      && cal.value.properties == CalendarProperties
      && cal.value.components == EmployeeEvents(Select(shifts, EmployeeOf, employeeName), employeeName, now)
  {
    var employeeShifts := Select(shifts, EmployeeOf, employeeName);
    if employeeShifts == [] {
      return None;
    }
    var c := new Calendar<Event>();
    c.Add("prodid", ProdId);
    c.Add("version", Version);
    var i := 0;
    while i < |employeeShifts|
      invariant 0 <= i <= |employeeShifts|
      invariant c.properties == CalendarProperties
      invariant c.components == EmployeeEvents(employeeShifts[..i], employeeName, now)
    {
      var shift := employeeShifts[i];
      var summary := Summary(Label(shift.shiftType), shift.dayOfWeek);
      var uid := Uid(employeeName, shift.date);
      var description := Description(Label(shift.shiftType), employeeName);
      c.AddComponent(Event(summary, shift.startTime, shift.endTime, now, uid, description));
      MapSnoc(employeeShifts, i, EventMaker(employeeName, now));
      i := i + 1;
    }
    assert employeeShifts[..|employeeShifts|] == employeeShifts;
    return Some(c);
  }
}

/** The all-day variant of the roster-to-calendar conversion
    (src/employee-shift-calendar-generator.py): shift records carry a date
    only, and each calendar event covers that whole date, ending (exclusively)
    on the next one. */
module AllDayRoster {
  import opened Wrappers
  import opened PyStr
  import opened Dates
  import opened RosterCells
  import opened Selection
  import opened Ical
  import opened Seqs

  /** One shift as `parse_shifts` stores it */
  datatype ShiftRecord = ShiftRecord(employee: string, date: PyDate, dayOfWeek: string, shiftType: ShiftKind)

  function EmployeeOf(s: ShiftRecord): string {
    s.employee
  }

  /** The record `parse_shifts` stores for the employee line `line` on date `d` */
  function RecordOf(line: string, d: PyDate, dayOfWeek: string): ShiftRecord {
    var e := ParseEntry(line);
    ShiftRecord(e.name, d, dayOfWeek, e.shiftType)
  }

  /** One record per employee line, in line order, all on date `d` */
  function RecordsOn(names: seq<string>, d: PyDate, dayOfWeek: string): (r: seq<ShiftRecord>)
    ensures |r| == |names|
  {
    if names == [] then []
    else RecordsOn(names[..|names| - 1], d, dayOfWeek) + [RecordOf(names[|names| - 1], d, dayOfWeek)]
  }

  /** The k-th record is the k-th line's */
  lemma {:induction false} RecordsOnMeaning(names: seq<string>, d: PyDate, dayOfWeek: string)
    ensures forall k :: 0 <= k < |names| ==> RecordsOn(names, d, dayOfWeek)[k] == RecordOf(names[k], d, dayOfWeek)
  {
    if names != [] {
      var init := names[..|names| - 1];
      RecordsOnMeaning(init, d, dayOfWeek);
      forall k | 0 <= k < |names| ensures RecordsOn(names, d, dayOfWeek)[k] == RecordOf(names[k], d, dayOfWeek) {
        if k < |init| { assert names[k] == init[k]; }
      }
    }
  }

  /** One more line appends its record */
  lemma RecordsOnSnoc(names: seq<string>, j: nat, d: PyDate, dayOfWeek: string)
    requires j < |names|
    ensures RecordsOn(names[..j + 1], d, dayOfWeek) == RecordsOn(names[..j], d, dayOfWeek) + [RecordOf(names[j], d, dayOfWeek)]
  {
    assert names[..j + 1][..j] == names[..j];
  }

  /** The records one row contributes to `parse_shifts`' result */
  function RowShifts(row: seq<string>, month: int, year: int): seq<ShiftRecord> {
    if |row| < 4 then []
    else
      var day := Strip(row[0]);
      if !IsDigits(day) then []
      else
        match MakeDate(year, month, DigitsValue(day))
        case None => []
        case Some(d) => RecordsOn(RowNames(row), d, Strip(row[2]))
  }

  /** A row yields nothing when it is too short, has no day number or names
      an impossible date */
  lemma RowShiftsSkipped(row: seq<string>, month: int, year: int)
    requires !IsDataRow(row) || !ValidDate(Date(year, month, RowDay(row)))
    ensures RowShifts(row, month, year) == []
  {
  }

  /** Otherwise it yields one record per non-blank line of the fourth cell, in
      line order, dated (year, month, day) and labelled with the stripped
      third cell */
  lemma RowShiftsRecords(row: seq<string>, month: int, year: int)
    requires IsDataRow(row) && ValidDate(Date(year, month, RowDay(row)))
    ensures |RowShifts(row, month, year)| == |RowNames(row)|
    ensures forall k :: 0 <= k < |RowNames(row)| ==>
      RowShifts(row, month, year)[k] == RecordOf(RowNames(row)[k], Date(year, month, RowDay(row)), Strip(row[2]))
  {
    RecordsOnMeaning(RowNames(row), Date(year, month, RowDay(row)), Strip(row[2]));
  }

  /** Every record of a row stores a trimmed, marker-free name */
  lemma RowShiftsNames(row: seq<string>, month: int, year: int)
    ensures forall s :: s in RowShifts(row, month, year) ==>
      && Marker !in s.employee && Stripped(s.employee)
  {
    if IsDataRow(row) && ValidDate(Date(year, month, RowDay(row))) {
      RowShiftsRecords(row, month, year);
      forall s | s in RowShifts(row, month, year) ensures Marker !in s.employee && Stripped(s.employee) {
        var k :| 0 <= k < |RowShifts(row, month, year)| && RowShifts(row, month, year)[k] == s;
        ParseEntryMeaning(RowNames(row)[k]);
      }
    }
  }

  /** Every record `parse_shifts(rows, month, year)` returns, row after row */
  function ParsedShifts(rows: seq<seq<string>>, month: int, year: int): seq<ShiftRecord> {
    FlatMap(rows, RowParser(month, year))
  }

  /** The row parser for one month */
  function RowParser(month: int, year: int): seq<string> -> seq<ShiftRecord> {
    row => RowShifts(row, month, year)
  }

  /** Parsing one more row appends that row's records */
  lemma ParsedShiftsSnoc(rows: seq<seq<string>>, row: seq<string>, month: int, year: int)
    ensures ParsedShifts(rows + [row], month, year) == ParsedShifts(rows, month, year) + RowShifts(row, month, year)
  {
    FlatMapSnoc(rows, row, RowParser(month, year));
  }

  /** Every parsed record is dated in the requested month and year and stores
      a trimmed, marker-free name */
  lemma {:induction false} ParsedShiftsInMonth(rows: seq<seq<string>>, month: int, year: int)
    ensures forall s :: s in ParsedShifts(rows, month, year) ==>
      && s.date.year == year && s.date.month == month
      && Marker !in s.employee && Stripped(s.employee)
    decreases |rows|
  {
    if rows != [] {
      var init, row := rows[..|rows| - 1], rows[|rows| - 1];
      assert rows == init + [row];
      ParsedShiftsSnoc(init, row, month, year);
      ParsedShiftsInMonth(init, month, year);
      RowShiftsNames(row, month, year);
      if IsDataRow(row) && ValidDate(Date(year, month, RowDay(row))) {
        RowShiftsRecords(row, month, year);
      }
    }
  }

  /** Rows are parsed independently: the records of a concatenation are the
      records of each part, in order */
  lemma ParsedShiftsAppend(a: seq<seq<string>>, b: seq<seq<string>>, month: int, year: int)
    ensures ParsedShifts(a + b, month, year) == ParsedShifts(a, month, year) + ParsedShifts(b, month, year)
  {
    FlatMapAppend(a, b, RowParser(month, year));
  }

  /** A skipped row (too short, no day number, or an impossible date)
      contributes nothing and leaves the records of the other rows as they were */
  lemma SkippedRowContributesNothing(before: seq<seq<string>>, row: seq<string>, after: seq<seq<string>>, month: int, year: int)
    requires !IsDataRow(row) || !ValidDate(Date(year, month, RowDay(row)))
    ensures ParsedShifts(before + [row] + after, month, year)
         == ParsedShifts(before, month, year) + ParsedShifts(after, month, year)
  {
    ParsedShiftsAppend(before + [row], after, month, year);
    ParsedShiftsSnoc(before, row, month, year);
  }

  /** `parse_shifts`: scan the rows in order and append each row's records */
  method ParseShifts(rows: seq<seq<string>>, month: int, year: int) returns (shifts: seq<ShiftRecord>)
    ensures shifts == ParsedShifts(rows, month, year)
  {
    shifts := [];
    var i := 0;
    while i < |rows|
      invariant 0 <= i <= |rows|
      invariant shifts == ParsedShifts(rows[..i], month, year)
    {
      shifts := AppendRowShifts(shifts, rows[i], month, year);
      ParsedShiftsStep(rows, i, month, year);
      i := i + 1;
    }
    assert rows[..|rows|] == rows;
  }

  /** The records of the first i + 1 rows are those of the first i rows
      followed by row i's */
  lemma ParsedShiftsStep(rows: seq<seq<string>>, i: nat, month: int, year: int)
    requires i < |rows|
    ensures ParsedShifts(rows[..i + 1], month, year) == ParsedShifts(rows[..i], month, year) + RowShifts(rows[i], month, year)
  {
    FlatMapStep(rows, i, RowParser(month, year));
  }

  /** One pass of the row loop of `parse_shifts`: skip a row without enough
      cells or without a day number, otherwise append one record per employee
      line; an invalid date raises at the row's first employee, and the except
      clause moves on with nothing appended */
  method AppendRowShifts(shifts: seq<ShiftRecord>, row: seq<string>, month: int, year: int) returns (out: seq<ShiftRecord>)
    ensures out == shifts + RowShifts(row, month, year)
  {
    out := shifts;
    if |row| < 4 {
      return;
    }
    var day := Strip(row[0]);
    var dayOfWeek := Strip(row[2]);
    var employeesCell := Strip(row[3]);
    if !IsDigits(day) {
      return;
    }
    var dayNumber := DigitsValue(day);
    var employees := CellNames(employeesCell);
    out := AppendEmployeeShifts(shifts, employees, dayNumber, dayOfWeek, month, year);
  }

  /** The employee loop of one row: one record per employee line appended to
      `shifts`, or nothing when `date(year, month, day)` raises ValueError
      (OverflowError for a day number too large for a C int) at the first line */
  method AppendEmployeeShifts(shifts: seq<ShiftRecord>, employees: seq<string>, day: int, dayOfWeek: string, month: int, year: int)
    returns (out: seq<ShiftRecord>)
    ensures MakeDate(year, month, day).None? ==> out == shifts
    ensures MakeDate(year, month, day).Some? ==> out == shifts + RecordsOn(employees, MakeDate(year, month, day).value, dayOfWeek)
  {
    out := shifts;
    ghost var rowDate := MakeDate(year, month, day);
    var j := 0;
    assert rowDate.Some? ==> out == shifts + RecordsOn(employees[..0], rowDate.value, dayOfWeek);
    while j < |employees|
      invariant 0 <= j <= |employees|
      invariant rowDate.None? ==> out == shifts
      invariant rowDate.Some? ==> out == shifts + RecordsOn(employees[..j], rowDate.value, dayOfWeek)
    {
      var entry := ParseEntry(employees[j]);
      var shiftDate := MakeDate(year, month, day);
      if shiftDate.None? {
        // ValueError from date()
        break;
      }
      var record := ShiftRecord(entry.name, shiftDate.value, dayOfWeek, entry.shiftType);
      ghost var previous := RecordsOn(employees[..j], shiftDate.value, dayOfWeek);
      RecordsOnSnoc(employees, j, shiftDate.value, dayOfWeek);
      AppendAssoc(shifts, previous, [record]);
      out := out + [record];
      j := j + 1;
    }
    assert rowDate.Some? ==> employees[..j] == employees;
  }

  /** A calendar event: `summary`, `dtstart`, `dtend`, `dtstamp`, `uid` and
      `description`, with DATE-valued start and end */
  datatype Event = Event(summary: string, dtstart: Date, dtend: Date, dtstamp: PyDateTime, uid: string, description: string)

  /** The event built for one shift; None where `date + timedelta(days=1)`
      raises OverflowError */
  function ShiftEvent(s: ShiftRecord, employeeName: string, now: PyDateTime): Option<Event> {
    match NextDay(s.date)
    case None => None
    case Some(endDate) =>
      Some(Event(Summary(Label(s.shiftType), s.dayOfWeek), s.date, endDate, now,
                 Uid(employeeName, s.date), Description(Label(s.shiftType), employeeName)))
  }

  /** The event of a shift starts on the shift's date and ends, exclusively,
      on the following day; it overflows only on the last representable date */
  lemma ShiftEventMeaning(s: ShiftRecord, employeeName: string, now: PyDateTime)
    ensures ShiftEvent(s, employeeName, now).None? <==> s.date == LastDate
    ensures ShiftEvent(s, employeeName, now).Some? ==>
      var e := ShiftEvent(s, employeeName, now).value;
      && e.dtstart == s.date
      && ValidDate(e.dtend) && Ordinal(e.dtend) == Ordinal(s.date) + 1 && Before(s.date, e.dtend)
      && e.summary == Summary(Label(s.shiftType), s.dayOfWeek)
      && e.uid == Uid(employeeName, s.date)
      && e.dtstamp == now
      && e.description == Description(Label(s.shiftType), employeeName)
  {
    if s.date != LastDate {
      NextDayFollows(s.date);
    }
  }

  /** The event builder of one calendar: its employee name and clock reading */
  function EventMaker(employeeName: string, now: PyDateTime): ShiftRecord -> Option<Event> {
    s => ShiftEvent(s, employeeName, now)
  }

  /** The events for the selected shifts, one per shift in the same order, or
      None when one of them falls on the last representable date */
  function EmployeeEvents(selected: seq<ShiftRecord>, employeeName: string, now: PyDateTime): Option<seq<Event>> {
    AllSome(selected, EventMaker(employeeName, now))
  }

  /** The events exist exactly when no selected shift is on the last
      representable date, and then the k-th event is the k-th shift's */
  lemma EmployeeEventsMeaning(selected: seq<ShiftRecord>, employeeName: string, now: PyDateTime)
    ensures EmployeeEvents(selected, employeeName, now).None? <==>
      exists k :: 0 <= k < |selected| && selected[k].date == LastDate
    ensures EmployeeEvents(selected, employeeName, now).Some? ==>
      |EmployeeEvents(selected, employeeName, now).value| == |selected|
    ensures EmployeeEvents(selected, employeeName, now).Some? ==>
      forall k :: 0 <= k < |selected| ==>
        ShiftEvent(selected[k], employeeName, now) == Some(EmployeeEvents(selected, employeeName, now).value[k])
  {
    var f := EventMaker(employeeName, now);
    AllSomeMeaning(selected, f);
    forall k | 0 <= k < |selected| ensures f(selected[k]).None? <==> selected[k].date == LastDate {
      ShiftEventMeaning(selected[k], employeeName, now);
    }
  }

  /** The event of a shift depends on the clock only through its DTSTAMP */
  lemma ShiftEventClock(s: ShiftRecord, employeeName: string, t1: PyDateTime, t2: PyDateTime)
    ensures ShiftEvent(s, employeeName, t1).Some? == ShiftEvent(s, employeeName, t2).Some?
    ensures ShiftEvent(s, employeeName, t1).Some? ==>
      ShiftEvent(s, employeeName, t1).value.(dtstamp := t2) == ShiftEvent(s, employeeName, t2).value
  {
  }

  /** Regenerating a calendar gives the same events apart from their DTSTAMP */
  lemma EventsIgnoreClock(selected: seq<ShiftRecord>, employeeName: string, t1: PyDateTime, t2: PyDateTime)
    ensures EmployeeEvents(selected, employeeName, t1).Some? == EmployeeEvents(selected, employeeName, t2).Some?
    ensures EmployeeEvents(selected, employeeName, t1).Some? ==>
      var e1, e2 := EmployeeEvents(selected, employeeName, t1).value, EmployeeEvents(selected, employeeName, t2).value;
      |e1| == |e2| == |selected| && forall k :: 0 <= k < |selected| ==> e1[k].(dtstamp := t2) == e2[k]
  {
    EmployeeEventsMeaning(selected, employeeName, t1);
    EmployeeEventsMeaning(selected, employeeName, t2);
    forall k | 0 <= k < |selected| {
      ShiftEventClock(selected[k], employeeName, t1, t2);
    }
  }

  /** Within one calendar, events for shifts on different dates have different UIDs */
  lemma EventUidsDistinct(selected: seq<ShiftRecord>, employeeName: string, now: PyDateTime, i: int, j: int)
    requires EmployeeEvents(selected, employeeName, now).Some?
    requires 0 <= i < |selected| && 0 <= j < |selected|
    requires selected[i].date != selected[j].date
    ensures var events := EmployeeEvents(selected, employeeName, now).value;
      |events| == |selected| && events[i].uid != events[j].uid
  {
    EmployeeEventsMeaning(selected, employeeName, now);
    var events := EmployeeEvents(selected, employeeName, now).value;
    assert events[i].uid == Uid(employeeName, selected[i].date);
    assert events[j].uid == Uid(employeeName, selected[j].date);
    if events[i].uid == events[j].uid {
      UidInjective(employeeName, selected[i].date, employeeName, selected[j].date);
    }
  }

  /** What `create_calendar_for_employee` ends with: no matching shift (it
      returns None and writes nothing), the OverflowError of a shift on the last
      representable date, or the calendar it writes out */
  datatype CalendarOutcome = NoShifts | DateOverflow | Written(cal: Calendar<Event>)

  /** The properties every calendar gets, in the order they are added */
  const CalendarProperties: seq<(string, string)> :=
    [("prodid", ProdId), ("version", Version), ("calscale", "GREGORIAN")]

  /** `create_calendar_for_employee`: select the employee's shifts ignoring
      case and add one all-day event per shift, in input order */
  method CreateCalendarForEmployee(shifts: seq<ShiftRecord>, employeeName: string, now: PyDateTime)
    returns (outcome: CalendarOutcome)
    ensures outcome.NoShifts? <==> Select(shifts, EmployeeOf, employeeName) == []
    ensures outcome.DateOverflow? <==>
      Select(shifts, EmployeeOf, employeeName) != [] && EmployeeEvents(Select(shifts, EmployeeOf, employeeName), employeeName, now).None?
    ensures outcome.Written? ==>
      && fresh(outcome.cal)
      && outcome.cal.properties == CalendarProperties
      && Some(outcome.cal.components) == EmployeeEvents(Select(shifts, EmployeeOf, employeeName), employeeName, now)
  {
    var employeeShifts := Select(shifts, EmployeeOf, employeeName);
    if employeeShifts == [] {
      return NoShifts;
    }
    var cal := new Calendar<Event>();
    cal.Add("prodid", ProdId);
    cal.Add("version", Version);
    cal.Add("calscale", "GREGORIAN");
    var i := 0;
    while i < |employeeShifts|
      invariant 0 <= i <= |employeeShifts|
      invariant cal.properties == CalendarProperties
      invariant EmployeeEvents(employeeShifts[..i], employeeName, now) == Some(cal.components)
    {
      var shift := employeeShifts[i];
      AllSomeSnoc(employeeShifts, i, EventMaker(employeeName, now));
      var summary := Summary(Label(shift.shiftType), shift.dayOfWeek);
      var endDate := NextDay(shift.date);
      if endDate.None? {
        EmployeeEventsMeaning(employeeShifts, employeeName, now);
        return DateOverflow;
      }
      var uid := Uid(employeeName, shift.date);
      var description := Description(Label(shift.shiftType), employeeName);
      cal.AddComponent(Event(summary, shift.date, endDate.value, now, uid, description));
      i := i + 1;
    }
    assert employeeShifts[..|employeeShifts|] == employeeShifts;
    return Written(cal);
  }
}

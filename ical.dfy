/** The iCalendar side that both scripts share: the calendar object events are
    added to, and the summary, UID and description strings of an event. A
    calendar is kept as its properties and components; serialisation to bytes
    is not part of this model. */
module Ical {
  import opened PyStr
  import opened Dates

  const ProdId: string := "-//Employee Shift Calendar//example.com//"
  const Version: string := "2.0"
  const UidDomain: string := "@shifts.example.com"

  /** `icalendar.Calendar`: the properties added with `add` and the components
      added with `add_component`, each in the order they were added */
  class Calendar<E> {
    var properties: seq<(string, string)>
    var components: seq<E>

    constructor ()
      ensures properties == [] && components == []
    {
      properties, components := [], [];
    }

    /** `cal.add(name, value)` */
    method Add(name: string, value: string)
      modifies this
      ensures properties == old(properties) + [(name, value)]
      ensures components == old(components)
    {
      properties := properties + [(name, value)];
    }

    /** `cal.add_component(event)` */
    method AddComponent(event: E)
      modifies this
      ensures components == old(components) + [event]
      ensures properties == old(properties)
    {
      components := components + [event];
    }
  }

  /** `f"{shift_type} - {day_of_week}"` */
  function Summary(shiftType: string, dayOfWeek: string): (s: string)
    ensures |s| == |shiftType| + 3 + |dayOfWeek|
    ensures s[..|shiftType|] == shiftType && s[|shiftType| + 3..] == dayOfWeek
    ensures s[|shiftType|..|shiftType| + 3] == " - "
  {
    shiftType + " - " + dayOfWeek
  }

  /** `f"24-hour {shift_type.lower()} for {employee_name}"` */
  function Description(shiftType: string, employeeName: string): (s: string)
    ensures |s| == 8 + |shiftType| + 5 + |employeeName|
    ensures s[..8] == "24-hour " && s[8..8 + |shiftType|] == LowerStr(shiftType)
    ensures s[8 + |shiftType|..13 + |shiftType|] == " for " && s[13 + |shiftType|..] == employeeName
  {
    "24-hour " + LowerStr(shiftType) + " for " + employeeName
  }

  /** `f"{employee_name.replace(' ', '')}-{date.strftime('%Y%m%d')}@shifts.example.com"` */
  function Uid(employeeName: string, d: Date): (u: string)
    requires ValidDate(d)
    ensures |u| >= 28 && ' ' !in u[..|u| - 28]
    ensures u[|u| - 28] == '-' && u[|u| - 19..] == UidDomain
    ensures u[..|u| - 28] == RemoveAll(employeeName, ' ') && u[|u| - 27..|u| - 19] == Stamp(d)
  {
    RemoveAllFacts(employeeName, ' ');
    var u := RemoveAll(employeeName, ' ') + "-" + Stamp(d) + UidDomain;
    assert u[..|u| - 28] == RemoveAll(employeeName, ' ');
    assert u[|u| - 27..|u| - 19] == Stamp(d);
    u
  }

  /** A UID names one employee (spaces aside) and one date: two UIDs are equal
      exactly when they come from the same space-free name and the same date,
      so within one employee's calendar events on different dates never share
      a UID, while names differing only in spaces share every UID */
  lemma UidInjective(n1: string, d1: Date, n2: string, d2: Date)
    requires ValidDate(d1) && ValidDate(d2)
    ensures Uid(n1, d1) == Uid(n2, d2) <==> RemoveAll(n1, ' ') == RemoveAll(n2, ' ') && d1 == d2
  {
    if Uid(n1, d1) == Uid(n2, d2) {
      UidsAgree(n1, d1, n2, d2);
    }
  }

  /** The forward half of `UidInjective` */
  lemma UidsAgree(n1: string, d1: Date, n2: string, d2: Date)
    requires ValidDate(d1) && ValidDate(d2)
    requires Uid(n1, d1) == Uid(n2, d2)
    ensures RemoveAll(n1, ' ') == RemoveAll(n2, ' ') && d1 == d2
  {
    var u := Uid(n1, d1);
    var p1, p2 := RemoveAll(n1, ' '), RemoveAll(n2, ' ');
    assert u == p1 + "-" + Stamp(d1) + UidDomain;
    assert u == p2 + "-" + Stamp(d2) + UidDomain;
    assert |p1| == |p2|;
    assert u[..|p1|] == p1 && u[..|p2|] == p2;
    assert u[|p1| + 1..|p1| + 9] == Stamp(d1);
    assert u[|p2| + 1..|p2| + 9] == Stamp(d2);
    StampInjective(d1, d2);
  }
}

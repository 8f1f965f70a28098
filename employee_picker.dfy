/** Choosing the employee to build a calendar for (`main` in both scripts):
    the sorted list of distinct names that is shown numbered, and the rule that
    turns what the user typed into a name. The prompts and the confirmation
    question are left to the caller. */
module EmployeePicker {
  import opened Wrappers
  import opened PyStr
  import opened Selection

  /** Python's `<` on strings: code point by code point, a proper prefix first */
  predicate Less(a: string, b: string) {
    if a == [] then b != []
    else if b == [] then false
    else if a[0] != b[0] then a[0] < b[0]
    else Less(a[1..], b[1..])
  }

  lemma {:induction false} LessIrreflexive(a: string)
    ensures !Less(a, a)
  {
    if a != [] { LessIrreflexive(a[1..]); }
  }

  lemma {:induction false} LessAsymmetric(a: string, b: string)
    requires Less(a, b)
    ensures !Less(b, a)
  {
    if a != [] && b != [] && a[0] == b[0] { LessAsymmetric(a[1..], b[1..]); }
  }

  lemma {:induction false} LessTransitive(a: string, b: string, c: string)
    requires Less(a, b) && Less(b, c)
    ensures Less(a, c)
  {
    if a != [] && a[0] == b[0] && b[0] == c[0] { LessTransitive(a[1..], b[1..], c[1..]); }
  }

  lemma {:induction false} LessTotal(a: string, b: string)
    requires a != b
    ensures Less(a, b) || Less(b, a)
  {
    if a != [] && b != [] && a[0] == b[0] {
      assert a == [a[0]] + a[1..] && b == [b[0]] + b[1..];
      LessTotal(a[1..], b[1..]);
    }
  }

  /** Ascending without repetitions, as `sorted(set(...))` returns */
  predicate StrictlySorted(s: seq<string>) {
    forall i, j :: 0 <= i < j < |s| ==> Less(s[i], s[j])
  }

  /** `x` added to a sorted list of distinct names at its place, unless present */
  function Insert(x: string, s: seq<string>): (r: seq<string>)
    requires StrictlySorted(s)
    ensures StrictlySorted(r)
    ensures forall y :: y in r <==> y == x || y in s
  {
    if s == [] then [x]
    else if x == s[0] then s
    else if Less(x, s[0]) then
      assert forall j :: 0 <= j < |s| ==> Less(x, s[j]) by {
        forall j | 0 < j < |s| ensures Less(x, s[j]) { LessTransitive(x, s[0], s[j]); }
      }
      [x] + s
    else
      LessTotal(x, s[0]);
      var rest := Insert(x, s[1..]);
      assert forall y :: y in rest ==> Less(s[0], y);
      [s[0]] + rest
  }

  /** `sorted(set(names))`: every name once, in ascending order */
  function SortedUnique(names: seq<string>): (r: seq<string>)
    ensures StrictlySorted(r)
    ensures forall y :: y in r <==> y in names
  {
    if names == [] then []
    else
      var init := names[..|names| - 1];
      assert forall y :: y in names <==> y in init || y == names[|names| - 1] by {
        assert names == init + [names[|names| - 1]];
      }
      Insert(names[|names| - 1], SortedUnique(init))
  }

  /** `sorted(set(shift['employee'] for shift in shifts))`: each employee of
      the records once, in ascending order, and no other name */
  function EmployeeList<R>(shifts: seq<R>, employeeOf: R -> string): (r: seq<string>)
    ensures StrictlySorted(r)
    ensures forall k :: 0 <= k < |shifts| ==> employeeOf(shifts[k]) in r
    ensures forall k :: 0 <= k < |r| ==> exists j :: 0 <= j < |shifts| && employeeOf(shifts[j]) == r[k]
  {
    var names := seq(|shifts|, k requires 0 <= k < |shifts| => employeeOf(shifts[k]));
    var r := SortedUnique(names);
    assert forall k :: 0 <= k < |shifts| ==> names[k] == employeeOf(shifts[k]) && names[k] in names && names[k] in r;
    assert forall k :: 0 <= k < |r| ==> r[k] in names;
    r
  }

  /** There is only one strictly sorted list of a given set of names, so the
      numbering shown to the user is determined by the names alone */
  lemma {:induction false} SortedListUnique(a: seq<string>, b: seq<string>)
    requires StrictlySorted(a) && StrictlySorted(b)
    requires forall y :: y in a <==> y in b
    ensures a == b
  {
    if a != [] { assert a[0] in a; }
    if b != [] { assert b[0] in b; }
    if a != [] && b != [] {
      if a[0] != b[0] {
        assert a[0] in a && b[0] in b;
        var i :| 0 <= i < |b| && b[i] == a[0];
        var j :| 0 <= j < |a| && a[j] == b[0];
        assert Less(b[0], a[0]);
        assert Less(a[0], b[0]);
        LessAsymmetric(a[0], b[0]);
      }
      forall y ensures y in a[1..] <==> y in b[1..] {
        if y in a[1..] {
          var i :| 1 <= i < |a| && a[i] == y;
          if y == a[0] { LessIrreflexive(y); }
          assert y in b && y != b[0];
          var j :| 0 <= j < |b| && b[j] == y;
          assert j != 0;
        }
        if y in b[1..] {
          var j :| 1 <= j < |b| && b[j] == y;
          if y == b[0] { LessIrreflexive(y); }
          assert y in a && y != a[0];
          var i :| 0 <= i < |a| && a[i] == y;
          assert i != 0;
        }
      }
      SortedListUnique(a[1..], b[1..]);
      assert a == [a[0]] + a[1..] && b == [b[0]] + b[1..];
    }
  }

  /** What the typed choice resolves to */
  datatype Choice =
    | Everyone                 // 'all', in any case
    | ByNumber(name: string)   // a number from 1 to the number of employees
    | ByName(name: string)     // a listed name ignoring case, kept as typed
    | Suggested(name: string)  // the first name containing the typed text, offered for confirmation
    | NotFound

  /** The index of the first name whose lower-case form contains `typed` */
  function FirstContaining(employees: seq<string>, typed: string): (r: Option<nat>)
    ensures r.Some? ==> r.value < |employees| && Contains(LowerStr(employees[r.value]), typed)
    ensures r.Some? ==> forall k :: 0 <= k < r.value ==> !Contains(LowerStr(employees[k]), typed)
    ensures r.None? ==> forall k :: 0 <= k < |employees| ==> !Contains(LowerStr(employees[k]), typed)
  {
    if employees == [] then None
    else if Contains(LowerStr(employees[0]), typed) then Some(0)
    else
      match FirstContaining(employees[1..], typed)
      case None => None
      case Some(k) => Some(k + 1)
  }

  /** The choice the loop in `main` makes of the stripped input `choice` */
  function ChoiceOf(choice: string, employees: seq<string>): Choice {
    if LowerStr(choice) == "all" then Everyone
    else if IsDigits(choice) && 1 <= DigitsValue(choice) <= |employees| then ByNumber(employees[DigitsValue(choice) - 1])
    else if exists k :: 0 <= k < |employees| && SameNameIgnoringCase(choice, employees[k]) then ByName(choice)
    else
      match FirstContaining(employees, LowerStr(choice))
      case Some(k) => Suggested(employees[k])
      case None => NotFound
  }

  /** 'all' in any case means every employee; a number in range picks that
      entry of the numbered list; an exact name ignoring case is kept as
      typed; otherwise the first listed name containing the input is offered,
      and only when no name contains it is the input rejected */
  lemma ChoiceOfMeaning(choice: string, employees: seq<string>)
    ensures ChoiceOf(choice, employees).Everyone? <==> LowerStr(choice) == "all"
    ensures ChoiceOf(choice, employees).ByNumber? ==>
      && IsDigits(choice) && 1 <= DigitsValue(choice) <= |employees|
      && ChoiceOf(choice, employees).name == employees[DigitsValue(choice) - 1]
    ensures ChoiceOf(choice, employees).ByName? ==>
      && ChoiceOf(choice, employees).name == choice
      && exists k :: 0 <= k < |employees| && SameNameIgnoringCase(choice, employees[k])
    ensures ChoiceOf(choice, employees).Suggested? ==>
      && (forall k :: 0 <= k < |employees| ==> !SameNameIgnoringCase(choice, employees[k]))
      && exists i :: 0 <= i < |employees| && ChoiceOf(choice, employees).name == employees[i]
           && Contains(LowerStr(employees[i]), LowerStr(choice))
           && forall k :: 0 <= k < i ==> !Contains(LowerStr(employees[k]), LowerStr(choice))
    ensures ChoiceOf(choice, employees).NotFound? <==>
      && LowerStr(choice) != "all"
      && !(IsDigits(choice) && 1 <= DigitsValue(choice) <= |employees|)
      && forall k :: 0 <= k < |employees| ==> !Contains(LowerStr(employees[k]), LowerStr(choice))
    ensures LowerStr(choice) != "all" && IsDigits(choice) && 1 <= DigitsValue(choice) <= |employees| ==>
      ChoiceOf(choice, employees) == ByNumber(employees[DigitsValue(choice) - 1])
    ensures && LowerStr(choice) != "all" && !(IsDigits(choice) && 1 <= DigitsValue(choice) <= |employees|)
            && (exists k :: 0 <= k < |employees| && SameNameIgnoringCase(choice, employees[k])) ==>
      ChoiceOf(choice, employees) == ByName(choice)
    ensures ChoiceOf(choice, employees).ByName? || ChoiceOf(choice, employees).Suggested? ==>
      LowerStr(choice) != "all" && !(IsDigits(choice) && 1 <= DigitsValue(choice) <= |employees|)
  {
    if ChoiceOf(choice, employees).NotFound? {
      assert forall k :: 0 <= k < |employees| ==> !Contains(LowerStr(employees[k]), LowerStr(choice));
    }
  }

  /** The resolution of a typed choice, as the loop in `main` does it: 'all',
      then a number, then an exact name ignoring case, then the first name
      that contains the input */
  method ResolveChoice(choice: string, employees: seq<string>) returns (c: Choice)
    ensures c == ChoiceOf(choice, employees)
  {
    var typed := LowerStr(choice);
    if typed == "all" {
      return Everyone;
    }
    if IsDigits(choice) && 1 <= DigitsValue(choice) <= |employees| {
      return ByNumber(employees[DigitsValue(choice) - 1]);
    }
    var lowered := seq(|employees|, k requires 0 <= k < |employees| => LowerStr(employees[k]));
    if typed in lowered {
      ghost var k :| 0 <= k < |lowered| && lowered[k] == typed;
      assert SameNameIgnoringCase(choice, employees[k]);
      return ByName(choice);
    }
    assert forall k :: 0 <= k < |employees| ==> !SameNameIgnoringCase(choice, employees[k]) by {
      forall k | 0 <= k < |employees| ensures !SameNameIgnoringCase(choice, employees[k]) {
        assert lowered[k] == LowerStr(employees[k]);
      }
    }
    var closest: Option<string> := None;
    var i := 0;
    while i < |employees|
      invariant 0 <= i <= |employees|
      invariant forall k :: 0 <= k < i ==> !Contains(LowerStr(employees[k]), typed)
      invariant closest.None?
    {
      if Contains(LowerStr(employees[i]), typed) {
        closest := Some(employees[i]);
        break;
      }
      i := i + 1;
    }
    FirstContainingAt(employees, typed, i);
    if closest.Some? {
      c := Suggested(closest.value);
    } else {
      c := NotFound;
    }
  }

  /** The first index found by a left-to-right scan is the one `FirstContaining` names */
  lemma FirstContainingAt(employees: seq<string>, typed: string, i: nat)
    requires i <= |employees|
    requires forall k :: 0 <= k < i ==> !Contains(LowerStr(employees[k]), typed)
    requires i < |employees| ==> Contains(LowerStr(employees[i]), typed)
    ensures FirstContaining(employees, typed) == if i < |employees| then Some(i) else None
  {

  }

  /** Whatever name the choice settles on, by number, by name or by
      suggestion, has at least one shift, so the calendar built for it is
      never empty */
  lemma ChosenEmployeeHasShifts<R>(choice: string, shifts: seq<R>, employeeOf: R -> string)
    ensures var c := ChoiceOf(choice, EmployeeList(shifts, employeeOf));
      (c.ByNumber? || c.ByName? || c.Suggested?) ==> Select(shifts, employeeOf, c.name) != []
  {
    var employees := EmployeeList(shifts, employeeOf);
    var c := ChoiceOf(choice, employees);
    ChoiceOfMeaning(choice, employees);
    if c.ByNumber? {
      ListedNameHasShifts(shifts, employeeOf, c.name, DigitsValue(choice) - 1);
    } else if c.ByName? {
      var i :| 0 <= i < |employees| && SameNameIgnoringCase(choice, employees[i]);
      ListedNameHasShifts(shifts, employeeOf, c.name, i);
    } else if c.Suggested? {
      var i :| 0 <= i < |employees| && c.name == employees[i];
      ListedNameHasShifts(shifts, employeeOf, c.name, i);
    }
  }

  /** A name equal, ignoring case, to a listed employee selects that
      employee's shifts, of which there is at least one */
  lemma ListedNameHasShifts<R>(shifts: seq<R>, employeeOf: R -> string, name: string, i: int)
    requires 0 <= i < |EmployeeList(shifts, employeeOf)|
    requires SameNameIgnoringCase(name, EmployeeList(shifts, employeeOf)[i])
    ensures Select(shifts, employeeOf, name) != []
  {
    var employees := EmployeeList(shifts, employeeOf);
    var j :| 0 <= j < |shifts| && employeeOf(shifts[j]) == employees[i];
    SelectMeaning(shifts, employeeOf, name);
    assert SameNameIgnoringCase(employeeOf(shifts[j]), name);
  }
}

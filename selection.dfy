/** The employee filter both scripts start `create_calendar_for_employee` with:
    `[s for s in shifts if s['employee'].lower() == employee_name.lower()]`. */
module Selection {
  import opened PyStr

  /** The records whose employee equals `name` ignoring case, in input order */
  function Select<R>(rs: seq<R>, employeeOf: R -> string, name: string): seq<R> {
    if rs == [] then []
    else (if SameNameIgnoringCase(employeeOf(rs[0]), name) then [rs[0]] else []) + Select(rs[1..], employeeOf, name)
  }

  /** Exactly the matching records are kept: every kept record matches, every
      matching record is kept, nothing is invented, and the selection is empty
      exactly when no record matches */
  lemma {:induction false} SelectMeaning<R>(rs: seq<R>, employeeOf: R -> string, name: string)
    ensures |Select(rs, employeeOf, name)| <= |rs|
    ensures forall k :: 0 <= k < |Select(rs, employeeOf, name)| ==>
      Select(rs, employeeOf, name)[k] in rs && SameNameIgnoringCase(employeeOf(Select(rs, employeeOf, name)[k]), name)
    ensures forall k :: 0 <= k < |rs| && SameNameIgnoringCase(employeeOf(rs[k]), name) ==> rs[k] in Select(rs, employeeOf, name)
    ensures Select(rs, employeeOf, name) == [] <==> forall k :: 0 <= k < |rs| ==> !SameNameIgnoringCase(employeeOf(rs[k]), name)
  {
    if rs != [] {
      SelectMeaning(rs[1..], employeeOf, name);
      assert forall k :: 1 <= k < |rs| ==> rs[k] == rs[1..][k - 1];
    }
  }

  /** Selection keeps input order: it distributes over concatenation */
  lemma {:induction false} SelectAppend<R>(a: seq<R>, b: seq<R>, employeeOf: R -> string, name: string)
    ensures Select(a + b, employeeOf, name) == Select(a, employeeOf, name) + Select(b, employeeOf, name)
  {
    if a != [] {
      var ab := a + b;
      assert ab[0] == a[0] && ab[1..] == a[1..] + b;
      SelectAppend(a[1..], b, employeeOf, name);
    } else {
      assert a + b == b;
    }
  }

  /** Selecting by two names that agree ignoring case selects the same records */
  lemma {:induction false} SelectCaseInsensitive<R>(rs: seq<R>, employeeOf: R -> string, a: string, b: string)
    requires SameNameIgnoringCase(a, b)
    ensures Select(rs, employeeOf, a) == Select(rs, employeeOf, b)
  {
    if rs != [] {
      SelectCaseInsensitive(rs[1..], employeeOf, a, b);
    }
  }
}

/** Guessing the roster's month and year from its file name, written
    identically in both scripts (`extract_month_year_from_filename`): the first
    Greek month name, in calendar order, that occurs in the name gives the
    month, and the first "20" followed by two digits gives the year. The
    current month and year the scripts fall back on are parameters here. */
module FileNames {
  import opened Wrappers
  import opened PyStr

  /** The upper-case Greek month names, in the order the month table lists
      them; the name at index k is month k + 1 */
  const MonthNames: seq<string> := [
      "ΙΑΝΟΥΑΡΙΟΣ",
      "ΦΕΒΡΟΥΑΡΙΟΣ",
      "ΜΑΡΤΙΟΣ",
      "ΑΠΡΙΛΙΟΣ",
      "ΜΑΙΟΣ",
      "ΙΟΥΝΙΟΣ",
      "ΙΟΥΛΙΟΣ",
      "ΑΥΓΟΥΣΤΟΣ",
      "ΣΕΠΤΕΜΒΡΙΟΣ",
      "ΟΚΤΩΒΡΙΟΣ",
      "ΝΟΕΜΒΡΙΟΣ",
      "ΔΕΚΕΜΒΡΙΟΣ"]

  /** The index of the first month name that occurs in `filename` */
  function FirstMonthName(filename: string, from: nat): (r: Option<nat>)
    requires from <= |MonthNames|
    ensures r.Some? ==> from <= r.value < |MonthNames| && Contains(filename, MonthNames[r.value])
    ensures r.Some? ==> forall k :: from <= k < r.value ==> !Contains(filename, MonthNames[k])
    ensures r.None? ==> forall k :: from <= k < |MonthNames| ==> !Contains(filename, MonthNames[k])
    decreases |MonthNames| - from
  {
    if from == |MonthNames| then None
    else if Contains(filename, MonthNames[from]) then Some(from)
    else FirstMonthName(filename, from + 1)
  }

  /** What `re.search(r'20\d\d', s)` matches at position i */
  predicate YearAt(s: string, i: int) {
    0 <= i && i + 4 <= |s| && s[i] == '2' && s[i + 1] == '0' && IsDigit(s[i + 2]) && IsDigit(s[i + 3])
  }

  /** The leftmost position at or after `from` where a year matches */
  function FindYear(s: string, from: nat): (r: Option<nat>)
    ensures r.Some? ==> from <= r.value && YearAt(s, r.value)
    ensures r.Some? ==> forall i :: from <= i < r.value ==> !YearAt(s, i)
    ensures r.None? ==> forall i :: from <= i ==> !YearAt(s, i)
    decreases |s| - from
  {
    if from + 4 > |s| then None
    else if YearAt(s, from) then Some(from)
    else FindYear(s, from + 1)
  }

  /** `int(year_match.group())` for a match at position i */
  function YearValue(s: string, i: int): (y: nat)
    requires YearAt(s, i)
  {
    var m := s[i..i + 4];
    FourDigits(s, i);
    DigitsValue(m)
  }

  /** A matched year is a year of this century, 2000 to 2099, read from its
      last two digits */
  lemma YearValueRange(s: string, i: int)
    requires YearAt(s, i)
    ensures YearValue(s, i) == 2000 + 10 * DigitValue(s[i + 2]) + DigitValue(s[i + 3])
    ensures 2000 <= YearValue(s, i) <= 2099
  {
    var m := s[i..i + 4];
    FourDigits(s, i);
    assert DigitsValue(m[..1]) == 2;
    assert DigitsValue(m[..2]) == 20;
    assert m[..3][2] == s[i + 2];
    assert DigitsValue(m[..3]) == 200 + DigitValue(s[i + 2]);
  }

  /** The matched text and its prefixes are digit strings */
  lemma FourDigits(s: string, i: int)
    requires YearAt(s, i)
    ensures var m := s[i..i + 4];
      && m[..3][..2][..1] == m[..1] && m[..2][..1] == m[..1] && m[..3][..2] == m[..2] && m[..4] == m
      && m[..1] == ['2'] && m[..2] == ['2', '0'] && m[3] == s[i + 3] && m[2] == s[i + 2]
      && AllDigits(m[..1]) && AllDigits(m[..2]) && AllDigits(m[..3]) && AllDigits(m)
  {
    var m := s[i..i + 4];
    assert m[..1][..0] == [];
    assert m[..2][..1] == m[..1];
    assert m[..3][..2] == m[..2];
    assert m[..4][..3] == m[..3];
  }

  /** `extract_month_year_from_filename(filename)`, the current month and year
      given as `defaultMonth` and `defaultYear` */
  function MonthYear(filename: string, defaultMonth: int, defaultYear: int): (int, int) {
    match FirstMonthName(filename, 0)
    case None => (defaultMonth, defaultYear)
    case Some(k) =>
      match FindYear(filename, 0)
      case Some(i) => (k + 1, YearValue(filename, i))
      case None => (k + 1, defaultYear)
  }

  /** Without a month name both defaults are kept, even when a year is present.
      With one, the month is the first name found, in table order, and the
      year is the leftmost "20dd" in the name, or the default year when none
      occurs */
  lemma MonthYearMeaning(filename: string, defaultMonth: int, defaultYear: int)
    ensures (forall k :: 0 <= k < |MonthNames| ==> !Contains(filename, MonthNames[k])) ==>
      MonthYear(filename, defaultMonth, defaultYear) == (defaultMonth, defaultYear)
    ensures (exists k :: 0 <= k < |MonthNames| && Contains(filename, MonthNames[k])) ==>
      var month := MonthYear(filename, defaultMonth, defaultYear).0;
      && 1 <= month <= 12
      && Contains(filename, MonthNames[month - 1])
      && forall k :: 0 <= k < month - 1 ==> !Contains(filename, MonthNames[k])
    ensures (exists k :: 0 <= k < |MonthNames| && Contains(filename, MonthNames[k])) &&
            (forall i :: !YearAt(filename, i)) ==>
      MonthYear(filename, defaultMonth, defaultYear).1 == defaultYear
    ensures (exists k :: 0 <= k < |MonthNames| && Contains(filename, MonthNames[k])) &&
            (exists i :: YearAt(filename, i)) ==>
      var year := MonthYear(filename, defaultMonth, defaultYear).1;
      && 2000 <= year <= 2099
      && exists i :: YearAt(filename, i) && year == YearValue(filename, i)
           && forall j :: 0 <= j < i ==> !YearAt(filename, j)
  {
    match FindYear(filename, 0)
    case Some(i) => YearValueRange(filename, i);
    case None =>
  }

  /** The file name the scripts' own comment gives as an example */
  lemma MarchExample(name: string, defaultMonth: int, defaultYear: int)
    requires name == "ΕΦΗΜΕΡΙΕΣ ΜΑΡΤΙΟΣ 2025.docx"
    ensures MonthYear(name, defaultMonth, defaultYear) == (3, 2025)
  {
    MarchExampleMonth(name);
    MarchExampleYear(name);
  }

  lemma MarchExampleMonth(name: string)
    requires name == "ΕΦΗΜΕΡΙΕΣ ΜΑΡΤΙΟΣ 2025.docx"
    ensures FirstMonthName(name, 0) == Some(2)
  {
    MarchExampleNames(name);
    var r := FirstMonthName(name, 0);
    assert r.Some? && r.value != 0 && r.value != 1 && r.value <= 2;
  }

  lemma MarchExampleNames(name: string)
    requires name == "ΕΦΗΜΕΡΙΕΣ ΜΑΡΤΙΟΣ 2025.docx"
    ensures !Contains(name, MonthNames[0]) && !Contains(name, MonthNames[1]) && Contains(name, MonthNames[2])
  {
    NotJanuary(name);
    NotFebruary(name);
    IsMarch(name);
  }

  lemma IsMarch(name: string)
    requires name == "ΕΦΗΜΕΡΙΕΣ ΜΑΡΤΙΟΣ 2025.docx"
    ensures Contains(name, MonthNames[2])
  {
    var march := MonthNames[2];
    assert |march| == 7;
    forall k | 0 <= k < 7 ensures name[10..17][k] == march[k] {
      assert name[10..17][k] == name[10 + k];
    }
    assert OccursAt(name, march, 10);
  }

  lemma NotJanuary(name: string)
    requires name == "ΕΦΗΜΕΡΙΕΣ ΜΑΡΤΙΟΣ 2025.docx"
    ensures !Contains(name, MonthNames[0])
  {
    MissingCharNotContained(name, MonthNames[0], 'Ν');
  }

  lemma NotFebruary(name: string)
    requires name == "ΕΦΗΜΕΡΙΕΣ ΜΑΡΤΙΟΣ 2025.docx"
    ensures !Contains(name, MonthNames[1])
  {
    MissingCharNotContained(name, MonthNames[1], 'Β');
  }

  lemma MarchExampleYear(name: string)
    requires name == "ΕΦΗΜΕΡΙΕΣ ΜΑΡΤΙΟΣ 2025.docx"
    ensures FindYear(name, 0) == Some(18) && YearValue(name, 18) == 2025
  {
    assert YearAt(name, 18);
    forall j | 0 <= j < 18 ensures !YearAt(name, j) {
      assert name[j] != '2';
    }
    YearValueRange(name, 18);
  }

  /** A text cannot contain a pattern holding a character the text lacks */
  lemma MissingCharNotContained(s: string, p: string, c: char)
    requires c in p && c !in s
    ensures !Contains(s, p)
  {
  }

  /** The loop of `extract_month_year_from_filename`: the month names are tried
      in table order and the first one found in the name decides the month;
      the year is then searched for, falling back to the default year */
  method ExtractMonthYear(filename: string, defaultMonth: int, defaultYear: int) returns (month: int, year: int)
    ensures (month, year) == MonthYear(filename, defaultMonth, defaultYear)
  {
    var k := 0;
    while k < |MonthNames|
      invariant 0 <= k <= |MonthNames|
      invariant FirstMonthName(filename, 0) == FirstMonthName(filename, k)
    {
      if Contains(filename, MonthNames[k]) {
        var yearMatch := FindYear(filename, 0);
        if yearMatch.Some? {
          return k + 1, YearValue(filename, yearMatch.value);
        }
        return k + 1, defaultYear;
      }
      k := k + 1;
    }
    return defaultMonth, defaultYear;
  }
}

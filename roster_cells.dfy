/** The reading of one roster table row, written identically in both scripts:
    a data row has at least four cells and a day number in the first; its
    fourth cell is split on newlines, blank lines are dropped, and each
    remaining line is one employee, on call when it carries an asterisk. */
module RosterCells {
  import opened PyStr

  /** The two shift types of this roster layout */
  datatype ShiftKind = RegularShift | OnCallShift

  /** The text stored as a record's `shift_type` */
  function Label(kind: ShiftKind): string {
    match kind
    case RegularShift => "Regular Shift"
    case OnCallShift => "On-Call Shift"
  }

  /** The on-call marker */
  const Marker: char := '*'

  /** `[e.strip() for e in lines if e.strip()]` */
  function NonBlankLines(lines: seq<string>): seq<string> {
    if lines == [] then []
    else (if Strip(lines[0]) != [] then [Strip(lines[0])] else []) + NonBlankLines(lines[1..])
  }

  /** Blank lines are dropped wherever they are and the others keep their
      order: the filter distributes over concatenation */
  lemma {:induction false} NonBlankLinesAppend(a: seq<string>, b: seq<string>)
    ensures NonBlankLines(a + b) == NonBlankLines(a) + NonBlankLines(b)
  {
    if a != [] {
      var ab := a + b;
      assert ab[0] == a[0] && ab[1..] == a[1..] + b;
      NonBlankLinesAppend(a[1..], b);
    } else {
      assert a + b == b;
    }
  }

  /** A single line yields its stripped self when it is not blank, nothing otherwise */
  lemma NonBlankLine(line: string)
    ensures NonBlankLines([line]) == if AllSpace(line) then [] else [Strip(line)]
  {
    StripProperties(line);
  }

  /** The kept lines are non-empty and trimmed, and never more than the lines */
  lemma {:induction false} NonBlankLinesStripped(lines: seq<string>)
    ensures |NonBlankLines(lines)| <= |lines|
    ensures forall k :: 0 <= k < |NonBlankLines(lines)| ==>
      NonBlankLines(lines)[k] != [] && Stripped(NonBlankLines(lines)[k])
  {
    if lines != [] {
      var rest := NonBlankLines(lines[1..]);
      NonBlankLinesStripped(lines[1..]);
      if Strip(lines[0]) != [] {
        StripProperties(lines[0]);
        var r := [Strip(lines[0])] + rest;
        assert NonBlankLines(lines) == r;
        forall k | 0 <= k < |r| ensures r[k] != [] && Stripped(r[k]) {
          if k > 0 { assert r[k] == rest[k - 1]; }
        }
      } else {
        assert NonBlankLines(lines) == rest;
      }
    }
  }

  /** The employee lines of a (stripped) cell: `cell.split('\n')`, filtered */
  function CellNames(cell: string): seq<string> {
    NonBlankLines(Split(cell, '\n'))
  }

  /** A cell written as the lines `lines` yields exactly their non-blank
      lines, stripped, in order */
  lemma CellNamesOfLines(lines: seq<string>)
    requires |lines| >= 1
    requires forall k :: 0 <= k < |lines| ==> '\n' !in lines[k]
    ensures CellNames(Join(lines, '\n')) == NonBlankLines(lines)
  {
    SplitJoin(lines, '\n');
  }

  /** One employee: the name with its markers removed, and its shift type */
  datatype Entry = Entry(name: string, shiftType: ShiftKind)

  /** `"*" in employee` decides the shift type and
      `employee.replace("*", "").strip()` is the stored name */
  function ParseEntry(line: string): Entry {
    Entry(Strip(RemoveAll(line, Marker)), if Marker in line then OnCallShift else RegularShift)
  }

  /** A line is on call exactly when it carries the marker; the stored name is
      trimmed, has no marker and only characters of the line; it is the line
      without its markers, in order, less the whitespace around it; and a
      trimmed unmarked line is stored unchanged */
  lemma ParseEntryMeaning(line: string)
    ensures ParseEntry(line).shiftType == OnCallShift <==> Marker in line
    ensures Marker !in ParseEntry(line).name && Stripped(ParseEntry(line).name)
    ensures forall c :: c in ParseEntry(line).name ==> c in line && c != Marker
    ensures Padded(RemoveAll(line, Marker), ParseEntry(line).name)
    ensures Marker !in line && Stripped(line) ==> ParseEntry(line).name == line
  {
    var removed := RemoveAll(line, Marker);
    RemoveAllFacts(line, Marker);
    StripProperties(removed);
    StripPadding(removed);
    forall c | c in Strip(removed) ensures c in line {
      assert c in removed;
      assert multiset(removed)[c] > 0;
    }
  }

  /** A line made only of markers and whitespace, with at least one marker,
      is an on-call entry with an empty name: nothing in the parser rules it out */
  lemma {:induction false} MarkerOnlyLine(line: string)
    requires Marker in line
    requires forall k :: 0 <= k < |line| ==> line[k] == Marker || IsSpace(line[k])
    ensures ParseEntry(line) == Entry([], OnCallShift)
  {
    var removed := RemoveAll(line, Marker);
    RemoveAllFacts(line, Marker);
    forall k | 0 <= k < |removed| ensures IsSpace(removed[k]) {
      var x := removed[k];
      assert x in multiset(removed);
      assert x in multiset(line);
      assert x in line;
    }
    StripProperties(removed);
  }

  /** The line `*` on its own is such a line */
  lemma StarOnly()
    ensures ParseEntry("*") == Entry([], OnCallShift)
  {
    MarkerOnlyLine("*");
  }

  /** A row that is not skipped outright: four cells or more, and a first cell
      that is all digits once stripped */
  predicate IsDataRow(row: seq<string>) {
    |row| >= 4 && IsDigits(Strip(row[0]))
  }

  /** The day number of a data row, `int(row[0].strip())` */
  function RowDay(row: seq<string>): nat
    requires IsDataRow(row)
  {
    DigitsValue(Strip(row[0]))
  }

  /** The employee lines of a row's fourth cell */
  function RowNames(row: seq<string>): seq<string>
    requires |row| >= 4
  {
    CellNames(Strip(row[3]))
  }
}

/** The capability registry of the specification, and the records of finished tasks. */
module Registry {
  import opened Wrappers
  import opened Strings
  import opened References
  import opened PlanText

  datatype Capability = Capability(identifier: string, status: string, evaluation: string, implementation: string)

  const HEADING := "## Capability Registry"
  const BAR := '|'

  // ---------------------------------------------------------------- table rows

  function StripAll(cells: seq<string>): (stripped: seq<string>)
    ensures |stripped| == |cells| && forall i :: 0 <= i < |cells| ==> stripped[i] == Strip(cells[i])
  {
    seq(|cells|, i requires 0 <= i < |cells| => Strip(cells[i]))
  }

  /** The cells of a table row. */
  function Cells(line: string): Option<seq<string>> {
    var text := Strip(line);
    if |text| >= 3 && text[0] == BAR && text[|text| - 1] == BAR then Some(StripAll(Split(text[1..|text| - 1], BAR)))
    else None
  }

  /** A slug in backticks. */
  function CapabilityId(cell: string): Option<string> {
    if |cell| >= 3 && cell[0] == '`' && cell[|cell| - 1] == '`' && SlugRun(cell, 1) == |cell| - 2
    then Some(cell[1..|cell| - 1]) else None
  }

  function RowOf(line: string): Option<Capability> {
    match Cells(line)
    case None => None
    case Some(cells) =>
      if |cells| < 5 || CapabilityId(cells[1]).None? then None
      else Some(Capability(CapabilityId(cells[1]).value, cells[2], cells[3], cells[4]))
  }

  /** Whether the registry section is open, and the rows read. */
  datatype Rows = Rows(inside: bool, capabilities: seq<Capability>) {
    function Read(line: string): Rows {
      if StartsWith(line, SECTION) then this.(inside := Strip(line) == HEADING)
      else if !inside || RowOf(line).None? then this
      else this.(capabilities := capabilities + [RowOf(line).value])
    }
  }

  function RowsOf(lines: seq<string>, n: nat): Rows
    requires n <= |lines|
  {
    if n == 0 then Rows(false, []) else RowsOf(lines, n - 1).Read(lines[n - 1])
  }

  /** The capabilities in their declared implementation order. */
  method ReadRegistry(lines: seq<string>) returns (capabilities: seq<Capability>)
    ensures capabilities == RowsOf(lines, |lines|).capabilities
  {
    hide RowOf, Strip;
    capabilities := [];
    var inside := false;
    for i := 0 to |lines|
      invariant Rows(inside, capabilities) == RowsOf(lines, i)
    {
      if StartsWith(lines[i], SECTION) {
        inside := Strip(lines[i]) == HEADING;
        continue;
      }
      var row := if inside then RowOf(lines[i]) else None;
      if row.None? {
        continue;
      }
      capabilities := capabilities + [row.value];
    }
  }

  // ---------------------------------------------------------------- what is read

  /** The last heading before line `n` is the one of the registry. */
  ghost predicate InRegistry(lines: seq<string>, n: nat)
    requires n <= |lines|
  {
    exists h :: 0 <= h < n && StartsWith(lines[h], "## ") && Strip(lines[h]) == "## Capability Registry" &&
      forall k :: h < k < n ==> !StartsWith(lines[k], "## ")
  }

  lemma InRegistryMore(lines: seq<string>, n: nat)
    requires n < |lines|
    ensures InRegistry(lines, n + 1) <==>
            if StartsWith(lines[n], "## ") then Strip(lines[n]) == "## Capability Registry" else InRegistry(lines, n)
  {
    hide Strip, StartsWith;
    if InRegistry(lines, n) && !StartsWith(lines[n], "## ") {
      var h :| 0 <= h < n && StartsWith(lines[h], "## ") && Strip(lines[h]) == "## Capability Registry" &&
        forall k :: h < k < n ==> !StartsWith(lines[k], "## ");
      assert forall k :: h < k < n + 1 ==> !StartsWith(lines[k], "## ");
    }
    if InRegistry(lines, n + 1) && !StartsWith(lines[n], "## ") {
      var h :| 0 <= h < n + 1 && StartsWith(lines[h], "## ") && Strip(lines[h]) == "## Capability Registry" &&
        forall k :: h < k < n + 1 ==> !StartsWith(lines[k], "## ");
      assert h != n;
    }
  }

  /** A line adds a capability exactly when it is a row below the registry's heading and before the next one. */
  lemma {:induction false} RegistryLineByLine(lines: seq<string>, n: nat)
    requires n <= |lines|
    ensures RowsOf(lines, n).inside <==> InRegistry(lines, n)
    ensures n == 0 ==> RowsOf(lines, n).capabilities == []
    ensures n > 0 ==>
      var earlier := RowsOf(lines, n - 1).capabilities;
      RowsOf(lines, n).capabilities ==
      if InRegistry(lines, n - 1) && !StartsWith(lines[n - 1], "## ") && RowOf(lines[n - 1]).Some?
      then earlier + [RowOf(lines[n - 1]).value] else earlier
  {
    hide RowOf, Strip, StartsWith, InRegistry;
    if n == 0 {
      NotYet(lines);
    } else {
      RegistryLineByLine(lines, n - 1);
      InRegistryMore(lines, n - 1);
    }
  }

  lemma NotYet(lines: seq<string>)
    ensures !InRegistry(lines, 0)
  {
  }

  /** The line, trimmed, is a row of these cells between bars. */
  ghost predicate IsRow(line: string, cells: seq<string>) {
    |cells| >= 5 && Free(cells, '|') && Strip(line) == "|" + (Join(cells, '|') + "|")
  }

  /** The id stands in backticks in the second cell, and the other parts in the next three. */
  ghost predicate CellsAre(cells: seq<string>, row: Capability)
    requires |cells| >= 5
  {
    && IsSlug(row.identifier) && Strip(cells[1]) == "`" + (row.identifier + "`")
    && row.status == Strip(cells[2]) && row.evaluation == Strip(cells[3]) && row.implementation == Strip(cells[4])
  }

  /** A line is a capability exactly when it is a row of five or more cells with its id in backticks in the second. */
  lemma RowExact(line: string, row: Capability)
    ensures RowOf(line) == Some(row) <==>
            exists cells :: IsRow(line, cells) && CellsAre(cells, row)
  {
    hide Strip, Split, Join, IsSlug, SlugRun, CapabilityId, Cells;
    if RowOf(line) == Some(row) {
      var cells := RowCellsOf(line);
      CapabilityIdExact(Strip(cells[1]), row.identifier);
    }
    if cells :| IsRow(line, cells) && CellsAre(cells, row) {
      CapabilityIdExact(Strip(cells[1]), row.identifier);
      RowHasCells(line, cells);
    }
  }

  lemma RowCellsOf(line: string) returns (cells: seq<string>)
    requires Cells(line).Some? && |Cells(line).value| >= 5
    ensures IsRow(line, cells) && Cells(line).value == StripAll(cells)
  {
    hide Strip, Split, Join;
    var text := Strip(line);
    var inner := text[1..|text| - 1];
    cells := Split(inner, BAR);
    SplitIsFree(inner, BAR);
    JoinOfSplit(inner, BAR);
    assert text == "|" + (inner + "|");
  }

  lemma RowHasCells(line: string, cells: seq<string>)
    requires IsRow(line, cells)
    ensures Cells(line) == Some(StripAll(cells))
  {
    hide Strip, Split, Join;
    var text := Strip(line);
    SplitOfJoin(cells, BAR);
    JoinedIsLong(cells);
    assert text[1..|text| - 1] == Join(cells, BAR);
  }

  lemma CapabilityIdExact(cell: string, id: string)
    ensures CapabilityId(cell) == Some(id) <==> IsSlug(id) && cell == "`" + (id + "`")
  {
    hide IsSlug, SlugRun;
    if CapabilityId(cell) == Some(id) {
      assert cell == "`" + (id + "`");
      SlugInside(cell, id);
    }
    if IsSlug(id) && cell == "`" + (id + "`") {
      SlugRunInside(cell, id);
    }
  }

  lemma SlugInside(cell: string, id: string)
    requires cell == "`" + (id + "`") && id != "" && SlugRun(cell, 1) == |id|
    ensures IsSlug(id)
  {
    hide SlugRun;
    forall k | 0 <= k < |id| ensures IsSlugChar(id[k]) {
      assert id[k] == cell[1 + k];
    }
  }

  lemma SlugRunInside(cell: string, id: string)
    requires cell == "`" + (id + "`") && IsSlug(id)
    ensures id != "" && SlugRun(cell, 1) == |id| && cell[1..|cell| - 1] == id
  {
    hide SlugRun;
    forall k | 1 <= k < 1 + |id| ensures IsSlugChar(cell[k]) {
      assert cell[k] == id[k - 1];
    }
    SlugRunIs(cell, 1, |id|);
  }

  // ---------------------------------------------------------------- a written registry reads back

  ghost predicate IsCell(text: string) {
    Stripped(text) && BAR !in text
  }

  ghost predicate WritableRow(number: string, row: Capability) {
    && IsSlug(row.identifier)
    && IsCell(number) && IsCell(row.status) && IsCell(row.evaluation) && IsCell(row.implementation)
  }

  function Quoted(id: string): string {
    "`" + (id + "`")
  }

  function RowCells(number: string, row: Capability): seq<string> {
    [number, Quoted(row.identifier), row.status, row.evaluation, row.implementation]
  }

  function RowText(number: string, row: Capability): string {
    [BAR] + (Join(RowCells(number, row), BAR) + [BAR])
  }

  lemma CellsRead(cells: seq<string>)
    requires |cells| >= 2 && Free(cells, BAR) && forall i :: 0 <= i < |cells| ==> Stripped(cells[i])
    ensures Cells([BAR] + (Join(cells, BAR) + [BAR])) == Some(cells)
  {
    hide Split, Join, Strip, Stripped, Cells, StripAll;
    JoinedIsLong(cells);
    SplitOfJoin(cells, BAR);
    StripAllStripped(cells);
    Barred(Join(cells, BAR));
    CellsOf([BAR] + (Join(cells, BAR) + [BAR]), Join(cells, BAR));
  }

  lemma Barred(inner: string)
    requires |inner| >= 1
    ensures var text := [BAR] + (inner + [BAR]);
      Strip(text) == text && |text| >= 3 && text[0] == BAR && text[|text| - 1] == BAR && text[1..|text| - 1] == inner
  {
    hide Strip;
    BarIsNoSpace();
    StripOfStripped([BAR] + (inner + [BAR]));
  }

  lemma CellsOf(text: string, inner: string)
    requires Strip(text) == text && |text| >= 3 && text[0] == BAR && text[|text| - 1] == BAR && text[1..|text| - 1] == inner
    ensures Cells(text) == Some(StripAll(Split(inner, BAR)))
  {
    hide Strip, Split, StripAll;
  }

  lemma StripAllStripped(cells: seq<string>)
    requires forall i :: 0 <= i < |cells| ==> Stripped(cells[i])
    ensures StripAll(cells) == cells
  {
    hide Strip, Stripped;
    forall i | 0 <= i < |cells| ensures Strip(cells[i]) == cells[i] {
      StripOfStripped(cells[i]);
    }
  }

  lemma JoinedIsLong(cells: seq<string>)
    requires |cells| >= 2
    ensures |Join(cells, BAR)| >= 1
  {
  }

  lemma BarIsNoSpace()
    ensures !IsSpace(BAR) && !IsSpace('`')
  {
  }

  lemma IdReads(id: string)
    requires IsSlug(id)
    ensures CapabilityId(Quoted(id)) == Some(id)
    ensures Stripped(Quoted(id)) && BAR !in Quoted(id)
  {
    var cell := Quoted(id);
    BarIsNoSpace();
    assert cell[1..|cell| - 1] == id;
    forall k | 1 <= k < 1 + |id| ensures IsSlugChar(cell[k]) {
      assert cell[k] == id[k - 1];
    }
    SlugRunIs(cell, 1, |id|);
  }

  /** A written row is read as its capability. */
  lemma RowReads(number: string, row: Capability)
    requires WritableRow(number, row)
    ensures RowOf(RowText(number, row)) == Some(row) && !StartsWith(RowText(number, row), SECTION)
  {
    hide Cells, CapabilityId, Join, Quoted, Stripped;
    var cells := RowCells(number, row);
    IdReads(row.identifier);
    assert Free(cells, BAR);
    CellsRead(cells);
    assert RowText(number, row)[0] == BAR;
  }

  /** The rows under the heading, the k-th of them numbered by `numbers[k]`. */
  function RegistryLines(numbers: seq<string>, rows: seq<Capability>, n: nat): seq<string>
    requires n <= |rows| == |numbers|
  {
    if n == 0 then [HEADING] else RegistryLines(numbers, rows, n - 1) + [RowText(numbers[n - 1], rows[n - 1])]
  }

  /** A written registry is read as its capabilities, in order. */
  lemma {:induction false} RegistryReadsBack(numbers: seq<string>, rows: seq<Capability>, n: nat)
    requires n <= |rows| == |numbers| && forall i :: 0 <= i < |rows| ==> WritableRow(numbers[i], rows[i])
    ensures var lines := RegistryLines(numbers, rows, n); RowsOf(lines, |lines|) == Rows(true, rows[..n])
  {
    hide RowText, RowOf, WritableRow, StartsWith;
    var lines := RegistryLines(numbers, rows, n);
    if n == 0 {
      HeadingOpens();
      assert RowsOf(lines, 0) == Rows(false, []);
      assert rows[..0] == [];
    } else {
      var earlier := RegistryLines(numbers, rows, n - 1);
      RegistryReadsBack(numbers, rows, n - 1);
      SameRows(earlier, lines, |earlier|);
      RowReads(numbers[n - 1], rows[n - 1]);
      assert rows[..n] == rows[..n - 1] + [rows[n - 1]];
    }
  }

  lemma HeadingOpens()
    ensures StartsWith(HEADING, SECTION) && Strip(HEADING) == HEADING
  {
    assert HEADING[..3] == SECTION;
    StripOfStripped(HEADING);
  }

  lemma {:induction false} SameRows(a: seq<string>, b: seq<string>, n: nat)
    requires n <= |a| && n <= |b| && a[..n] == b[..n]
    ensures RowsOf(a, n) == RowsOf(b, n)
  {
    hide Rows.Read;
    if n > 0 {
      assert a[..n][..n - 1] == a[..n - 1] && b[..n][..n - 1] == b[..n - 1];
      assert a[..n][n - 1] == a[n - 1] && b[..n][n - 1] == b[n - 1];
      SameRows(a, b, n - 1);
    }
  }

  // ---------------------------------------------------------------- records of finished tasks

  const RECORD_SUFFIX := ".md"

  /** What follows the number in a record's file name `NNNN-<rest>.md`. */
  function RecordRest(name: string): Option<string> {
    var end := |name| - |RECORD_SUFFIX|;
    if |name| >= 9 && IsDigits(name[..4]) && name[4] == '-' && name[end..] == RECORD_SUFFIX && SlugRun(name, 5) == end - 5
    then Some(name[5..end]) else None
  }

  /** The task a record belongs to, if its group is this one. */
  function RecordedTask(name: string, group: string): Option<string> {
    match RecordRest(name)
    case None => None
    case Some(rest) =>
      if StartsWith(rest, group + "-") && |rest| > |group| + 1 then Some(rest[|group| + 1..]) else None
  }

  function IdsOf(name: string, groups: seq<string>, n: nat): set<string>
    requires n <= |groups|
  {
    if n == 0 then {}
    else
      IdsOf(name, groups, n - 1) +
      match RecordedTask(name, groups[n - 1])
      case Some(id) => {id}
      case None => {}
  }

  /** The ids that the first `n` record names spell with some known group in front. */
  function RecordedIds(names: seq<string>, groups: seq<string>, n: nat): set<string>
    requires n <= |names|
  {
    if n == 0 then {} else RecordedIds(names, groups, n - 1) + IdsOf(names[n - 1], groups, |groups|)
  }

  method ReadRecordedIds(names: seq<string>, groups: seq<string>) returns (recorded: set<string>)
    ensures recorded == RecordedIds(names, groups, |names|)
  {
    hide RecordedTask;
    recorded := {};
    for i := 0 to |names|
      invariant recorded == RecordedIds(names, groups, i)
    {
      ghost var before := recorded;
      for j := 0 to |groups|
        invariant recorded == before + IdsOf(names[i], groups, j)
      {
        var task := RecordedTask(names[i], groups[j]);
        if task.Some? {
          recorded := recorded + {task.value};
        }
      }
    }
  }

  lemma {:induction false} IdsExact(name: string, groups: seq<string>, n: nat, id: string)
    requires n <= |groups|
    ensures id in IdsOf(name, groups, n) <==> exists j :: 0 <= j < n && RecordedTask(name, groups[j]) == Some(id)
  {
    hide RecordedTask;
    if n > 0 {
      IdsExact(name, groups, n - 1, id);
    }
  }

  /** An id is recorded exactly when some record name is that of a task of a known group with this id. */
  lemma {:induction false} RecordedExact(names: seq<string>, groups: seq<string>, n: nat, id: string)
    requires n <= |names|
    ensures id in RecordedIds(names, groups, n) <==>
            exists i, j :: 0 <= i < n && 0 <= j < |groups| && RecordedTask(names[i], groups[j]) == Some(id)
  {
    hide RecordedTask, IdsOf;
    if n > 0 {
      RecordedExact(names, groups, n - 1, id);
      IdsExact(names[n - 1], groups, |groups|, id);
    }
  }

  /** A record written for a task of a known group is found under that task's id. */
  lemma RecordReadsBack(number: string, group: string, id: string, names: seq<string>, groups: seq<string>)
    requires |number| == 4 && IsDigits(number) && IsSlug(group) && IsSlug(id) && group in groups
    requires (number + "-") + (group + ("-" + (id + RECORD_SUFFIX))) in names
    ensures id in RecordedIds(names, groups, |names|)
  {
    hide RecordedTask, IsSlug, IsDigits, RecordedIds;
    RecordedExact(names, groups, |names|, id);
    var name := (number + "-") + (group + ("-" + (id + RECORD_SUFFIX)));
    RecordReads(number, group, id);
    var i :| 0 <= i < |names| && names[i] == name;
    var j :| 0 <= j < |groups| && groups[j] == group;
    assert RecordedTask(names[i], groups[j]) == Some(id);
  }

  lemma RecordReads(number: string, group: string, id: string)
    requires |number| == 4 && IsDigits(number) && IsSlug(group) && IsSlug(id)
    ensures RecordedTask((number + "-") + (group + ("-" + (id + RECORD_SUFFIX))), group) == Some(id)
  {
    hide SlugRun, IsDigits, RecordRest;
    var rest := group + ("-" + id);
    RecordRestReads(number, rest, group, id);
    assert rest[..|group| + 1] == group + "-" && rest[|group| + 1..] == id;
  }

  lemma RecordRestReads(number: string, rest: string, group: string, id: string)
    requires |number| == 4 && IsDigits(number) && IsSlug(group) && IsSlug(id) && rest == group + ("-" + id)
    ensures RecordRest((number + "-") + (group + ("-" + (id + RECORD_SUFFIX)))) == Some(rest)
  {
    hide SlugRun, IsDigits, IsSlug;
    var name := (number + "-") + (rest + RECORD_SUFFIX);
    Regrouped(number + "-", group, id);
    NameParts(number, rest, name);
    SlugWithId(rest, group, id);
    RecordRun(name, rest);
  }

  lemma Regrouped(head: string, group: string, id: string)
    ensures head + (group + ("-" + (id + RECORD_SUFFIX))) == head + ((group + ("-" + id)) + RECORD_SUFFIX)
  {
    assert group + ("-" + (id + RECORD_SUFFIX)) == (group + ("-" + id)) + RECORD_SUFFIX;
  }

  lemma NameParts(number: string, rest: string, name: string)
    requires |number| == 4 && name == (number + "-") + (rest + RECORD_SUFFIX)
    ensures |name| == 8 + |rest| && name[..4] == number && name[4] == '-'
    ensures name[5..|name| - 3] == rest && name[|name| - 3..] == RECORD_SUFFIX
  {
  }

  lemma SlugWithId(rest: string, group: string, id: string)
    requires IsSlug(group) && IsSlug(id) && rest == group + ("-" + id)
    ensures IsSlug(rest)
  {
  }

  lemma RecordRun(name: string, rest: string)
    requires |name| == 5 + |rest| + 3 && IsSlug(rest) && name[5..|name| - 3] == rest && name[|name| - 3..] == RECORD_SUFFIX
    ensures SlugRun(name, 5) == |rest|
  {
    hide SlugRun;
    forall k | 5 <= k < 5 + |rest| ensures IsSlugChar(name[k]) {
      assert name[k] == name[5..|name| - 3][k - 5];
    }
    assert name[5 + |rest|] == name[|name| - 3..][0];
    SlugRunIs(name, 5, |rest|);
  }
}

/** The lines of the plan document as text: which pattern a line matches, and what it captures. */
module PlanText {
  import opened Wrappers
  import opened Strings
  import opened PlanReader
  import opened References

  const FENCE := "```"
  const SECTION := "## "
  const GROUP := "### "
  const DASHES := " -- `"
  const TASK := "#### "
  const OPTIONAL := " (optional)"
  const FIELD := "- "

  predicate StartsWith(text: string, prefix: string) {
    |prefix| <= |text| && text[..|prefix|] == prefix
  }

  predicate AllSpace(text: string) {
    forall i :: 0 <= i < |text| ==> IsSpace(text[i])
  }

  // ---------------------------------------------------------------- headings

  /** `^## (.+?)\s*$`: the shortest title behind which only white space stands. */
  function SectionTitle(line: string): (title: Option<string>)
    ensures title.Some? ==> title.value != ""
  {
    if !StartsWith(line, SECTION) || |line| == |SECTION| then None
    else
      var rest := line[|SECTION|..];
      if StripRight(rest) == "" then Some(rest[..1]) else Some(StripRight(rest))
  }

  /** How many slug characters stand before `end`. */
  function SlugRunBefore(text: string, end: nat): (n: nat)
    requires end <= |text|
    ensures n <= end
    ensures forall k :: end - n <= k < end ==> IsSlugChar(text[k])
    ensures n < end ==> !IsSlugChar(text[end - n - 1])
  {
    if end > 0 && IsSlugChar(text[end - 1]) then 1 + SlugRunBefore(text, end - 1) else 0
  }

  /** ``^### .+ -- `([a-z0-9-]+)`\s*$``, read from its end: a slug holds no backtick. */
  function GroupId(line: string): Option<string> {
    var text := StripRight(line);
    if !StartsWith(line, GROUP) || text == "" || text[|text| - 1] != '`' then None
    else
      var end := |text| - 1;
      var n := SlugRunBefore(text, end);
      var front := text[..end - n];
      if n > 0 && |front| > |GROUP| + |DASHES| && front[|front| - |DASHES|..] == DASHES
      then Some(text[end - n..end]) else None
  }

  /** `^#### ([a-z0-9][a-z0-9-]*)( \(optional\))?\s*$` */
  function TaskHead(line: string): Option<(string, bool)> {
    if !StartsWith(line, TASK) then None
    else
      var n := SlugRun(line, |TASK|);
      var id, rest := line[|TASK|..|TASK| + n], line[|TASK| + n..];
      if n == 0 || id[0] == '-' then None
      else if AllSpace(rest) then Some((id, false))
      else if StartsWith(rest, OPTIONAL) && AllSpace(rest[|OPTIONAL|..]) then Some((id, true))
      else None
  }

  // ---------------------------------------------------------------- fields

  predicate IsKeyChar(c: char) {
    'a' <= c <= 'z' || 'A' <= c <= 'Z' || c == ' ' || c == '-'
  }

  function KeyRun(text: string, i: nat): (n: nat)
    requires i <= |text|
    ensures i + n <= |text|
    ensures forall k :: i <= k < i + n ==> IsKeyChar(text[k])
    ensures i + n < |text| ==> !IsKeyChar(text[i + n])
    decreases |text| - i
  {
    if i < |text| && IsKeyChar(text[i]) then 1 + KeyRun(text, i + 1) else 0
  }

  predicate IsLetter(c: char) {
    'a' <= c <= 'z' || 'A' <= c <= 'Z'
  }

  /** `^- ([A-Za-z][A-Za-z -]+):\s*(.*)$` */
  function FieldParts(line: string): Option<(string, string)> {
    if !StartsWith(line, FIELD) then None
    else
      var n := KeyRun(line, |FIELD|);
      var end := |FIELD| + n;
      if n >= 2 && IsLetter(line[|FIELD|]) && end < |line| && line[end] == ':'
      then Some((line[|FIELD|..end], StripLeft(line[end + 1..]))) else None
  }

  function LeadingSpaces(text: string): (n: nat)
    ensures n <= |text|
    ensures forall k :: 0 <= k < n ==> text[k] == ' '
    ensures n < |text| ==> text[n] != ' '
  {
    if text != "" && text[0] == ' ' then 1 + LeadingSpaces(text[1..]) else 0
  }

  /** `^ {2,}\S` */
  predicate IsContinuation(line: string) {
    var n := LeadingSpaces(line);
    n >= 2 && n < |line| && !IsSpace(line[n])
  }

  // ---------------------------------------------------------------- a line

  /** The first pattern a line matches. */
  function Classify(line: string): Line {
    if StartsWith(StripLeft(line), FENCE) then Fence
    else if SectionTitle(line).Some? then Section(SectionTitle(line).value)
    else if GroupId(line).Some? then Group(GroupId(line).value)
    else if TaskHead(line).Some? then TaskHeading(TaskHead(line).value.0, TaskHead(line).value.1)
    else if FieldParts(line).Some? then FieldLine(FieldParts(line).value.0, FieldParts(line).value.1)
    else if IsContinuation(line) then Continuation(Strip(line))
    else Other
  }

  function ClassifyAll(lines: seq<string>): (kinds: seq<Line>)
    ensures |kinds| == |lines| && forall i :: 0 <= i < |lines| ==> kinds[i] == Classify(lines[i])
  {
    seq(|lines|, i requires 0 <= i < |lines| => Classify(lines[i]))
  }

  /** The tasks of a plan document, in order. */
  method ReadPlan(lines: seq<string>) returns (tasks: seq<Task>)
    ensures tasks == TasksOf(ClassifyAll(lines))
  {
    tasks := ReadTasks(ClassifyAll(lines));
  }

  // ---------------------------------------------------------------- how a line is written

  predicate IsSlug(text: string) {
    text != "" && forall i :: 0 <= i < |text| ==> IsSlugChar(text[i])
  }

  predicate IsFieldKey(key: string) {
    |key| >= 2 && IsLetter(key[0]) && forall i :: 0 <= i < |key| ==> IsKeyChar(key[i])
  }

  function OptionalText(optional: bool): string {
    if optional then OPTIONAL else ""
  }

  function TaskText(id: string, optional: bool): string {
    TASK + (id + OptionalText(optional))
  }

  /** How each kind of line may be written, trailing and separating white space being free. */
  ghost predicate Written(text: string, line: Line) {
    match line
    case Fence => exists space, rest :: AllSpace(space) && text == space + (FENCE + rest)
    case Section(title) =>
      exists space :: AllSpace(space) && text == SECTION + (title + space) &&
        title != "" && (|title| == 1 || !IsSpace(title[|title| - 1]))
    case Group(id) =>
      exists title, space :: AllSpace(space) && title != "" && IsSlug(id) && text == (GROUP + (title + DASHES)) + (id + ("`" + space))
    case TaskHeading(id, optional) =>
      exists space :: AllSpace(space) && IsSlug(id) && id[0] != '-' && text == TaskText(id, optional) + space
    case FieldLine(key, value) =>
      exists space :: AllSpace(space) && IsFieldKey(key) && (value != "" ==> !IsSpace(value[0])) &&
        text == FIELD + (key + (":" + (space + value)))
    case Continuation(words) =>
      exists n: nat, space :: n >= 2 && AllSpace(space) && words != "" && Stripped(words) && !StartsWith(words, FENCE) &&
        text == Indent(n) + (words + space)
    case Other => text == "" || (text[0] !in {'#', '-', '`', ' '} && !IsSpace(text[0]))
  }

  function Indent(n: nat): string {
    seq(n, i => ' ')
  }
}

/** The forward plan: its tasks, and the line-by-line reader of the plan document. */
module PlanReader {
  import opened Wrappers
  import opened Strings

  /** One forward task and the metadata used to schedule it. */
  datatype Task = Task(identifier: string, section: string, group: string, optional: bool, fields: map<string, string>)

  /** A line of the plan document, by the first pattern it matches. */
  datatype Line =
    | Fence
    | Section(title: string)
    | Group(id: string)
    | TaskHeading(id: string, optional: bool)
    | FieldLine(key: string, value: string)
    | Continuation(text: string)
    | Other

  function FieldKey(key: string): string {
    Lower(Strip(key))
  }

  /** A value and the trimmed text of a continuation line. */
  function Continued(value: string, text: string): string {
    Strip(value + " " + text)
  }

  // ---------------------------------------------------------------- the reader as a function

  /** `open` says that the last task is still being read. */
  datatype Reader = Reader(tasks: seq<Task>, section: string, group: string, open: bool, openField: Option<string>) {
    ghost predicate Valid() {
      && (open ==> tasks != [])
      && (openField.Some? ==> open && openField.value in tasks[|tasks| - 1].fields)
    }

    function Last(): Task
      requires tasks != []
    {
      tasks[|tasks| - 1]
    }

    function WithField(key: string, value: string): Reader
      requires tasks != []
    {
      this.(tasks := tasks[..|tasks| - 1] + [Last().(fields := Last().fields[key := value])],
            openField := Some(key))
    }

    function Feed(line: Line): (next: Reader)
      requires Valid()
      ensures next.Valid()
    {
      match line
      case Section(title) => Reader(tasks, title, "", false, None)
      case Group(id) => Reader(tasks, section, id, false, None)
      case TaskHeading(id, optional) =>
        Reader(tasks + [Task(id, section, group, optional, map[])], section, group, true, None)
      case FieldLine(key, value) =>
        if !open then this
        else if FieldKey(key) in Last().fields then this.(openField := None)
        else WithField(FieldKey(key), Strip(value))
      case Continuation(text) =>
        if !open || openField.None? then this.(openField := None)
        else WithField(openField.value, Continued(Last().fields[openField.value], text))
      case _ => this.(openField := None)
    }
  }

  const START: Reader := Reader([], "", "", false, None)

  datatype Scan = Scan(reader: Reader, fenced: bool) {
    function Step(line: Line): (next: Scan)
      requires reader.Valid()
      ensures next.reader.Valid()
    {
      if line.Fence? then Scan(reader.(openField := None), !fenced)
      else if fenced then this
      else Scan(reader.Feed(line), fenced)
    }

    function Steps(lines: seq<Line>): (next: Scan)
      requires reader.Valid()
      ensures next.reader.Valid()
      decreases lines
    {
      if lines == [] then this else Step(lines[0]).Steps(lines[1..])
    }
  }

  function TasksOf(lines: seq<Line>): seq<Task> {
    Scan(START, false).Steps(lines).reader.tasks
  }

  lemma {:induction false} StepsConcat(scan: Scan, a: seq<Line>, b: seq<Line>)
    requires scan.reader.Valid()
    ensures scan.Steps(a + b) == scan.Steps(a).Steps(b)
    decreases a
  {
    if a == [] {
      assert a + b == b;
    } else {
      assert (a + b)[1..] == a[1..] + b;
      StepsConcat(scan.Step(a[0]), a[1..], b);
    }
  }

  // ---------------------------------------------------------------- the reader as it runs

  class TaskRecord {
    const identifier: string
    const section: string
    const group: string
    const optional: bool
    var fields: map<string, string>

    constructor (identifier: string, section: string, group: string, optional: bool)
      ensures Value() == Task(identifier, section, group, optional, map[])
    {
      this.identifier, this.section, this.group, this.optional := identifier, section, group, optional;
      fields := map[];
    }

    function Value(): Task
      reads this
    {
      Task(identifier, section, group, optional, fields)
    }
  }

  function Values(records: seq<TaskRecord>): (values: seq<Task>)
    reads records
    ensures |values| == |records|
    ensures forall i :: 0 <= i < |records| ==> values[i] == records[i].Value()
  {
    if records == [] then []
    else
      var front := records[..|records| - 1];
      Values(front) + [records[|records| - 1].Value()]
  }

  lemma ValuesMore(records: seq<TaskRecord>, record: TaskRecord)
    ensures Values(records + [record]) == Values(records) + [record.Value()]
  {
    assert (records + [record])[..|records|] == records;
  }

  /** The line-by-line state machine; `current` aliases the last task read. */
  class LineReader {
    var tasks: seq<TaskRecord>
    var section: string
    var group: string
    var current: TaskRecord?
    var openField: Option<string>

    ghost predicate Valid()
      reads this, tasks
    {
      && (forall i, j :: 0 <= i < j < |tasks| ==> tasks[i] != tasks[j])
      && (current != null ==> tasks != [] && tasks[|tasks| - 1] == current)
      && View().Valid()
    }

    ghost function View(): Reader
      reads this, tasks
    {
      Reader(Values(tasks), section, group, current != null, openField)
    }

    ghost function Records(): set<TaskRecord>
      reads this
    {
      set t | t in tasks
    }

    constructor ()
      ensures Valid() && View() == START && tasks == []
    {
      tasks, section, group, current, openField := [], "", "", null, None;
    }

    method StartTask(id: string, optional: bool)
      requires Valid()
      modifies this
      ensures Valid() && View() == old(View()).Feed(TaskHeading(id, optional))
      ensures fresh(current) && tasks == old(tasks) + [current]
    {
      hide Values;
      ghost var values := Values(tasks);
      var started := new TaskRecord(id, section, group, optional);
      assert Values(tasks) == values;
      ValuesMore(tasks, started);
      tasks := tasks + [started];
      current, openField := started, None;
    }

    /** The heading kinds close whatever was open. */
    method Heading(line: Line) returns (matched: bool)
      requires Valid() && !line.Fence?
      modifies this
      ensures matched <==> line.Section? || line.Group? || line.TaskHeading?
      ensures matched ==> Valid() && View() == old(View()).Feed(line)
      ensures !matched ==> Valid() && View() == old(View()) && current == old(current) && tasks == old(tasks)
      ensures fresh(Records() - old(Records()))
    {
      hide Values;
      match line {
        case Section(title) =>
          section, group, current, openField := title, "", null, None;
          return true;
        case Group(id) =>
          group, current, openField := id, null, None;
          return true;
        case TaskHeading(id, optional) =>
          StartTask(id, optional);
          return true;
        case _ =>
          return false;
      }
    }

    method SetField(key: string, value: string)
      requires Valid() && current != null
      modifies this`openField, current
      ensures Valid() && View() == old(View()).WithField(key, value)
    {
      hide Values;
      current.fields := current.fields[key := value];
      openField := Some(key);
      assert Values(tasks) == old(View()).WithField(key, value).tasks;
    }

    /** A line below a task heading: a new field, the continuation of one, or neither. */
    method FeedOpen(line: Line)
      requires Valid() && current != null && !line.Section? && !line.Group? && !line.TaskHeading?
      modifies this`openField, current
      ensures Valid() && View() == old(View()).Feed(line)
    {
      hide Values, Continued, FieldKey, Strip;
      assert current.Value() == View().Last();
      if line.FieldLine? {
        var key := FieldKey(line.key);
        if key in current.fields {
          openField := None;
          return;
        }
        SetField(key, Strip(line.value));
        return;
      }
      if openField.Some? && line.Continuation? {
        SetField(openField.value, Continued(current.fields[openField.value], line.text));
        return;
      }
      openField := None;
    }

    method Feed(line: Line)
      requires Valid() && !line.Fence?
      modifies this, Records()
      ensures Valid() && View() == old(View()).Feed(line)
      ensures fresh(Records() - old(Records()))
    {
      var matched := Heading(line);
      if !matched && current != null {
        FeedOpen(line);
      }
    }
  }

  /** One line of the document: a fence toggles, and what it fences is skipped. */
  method ReadLine(reader: LineReader, fenced: bool, line: Line) returns (fenced': bool)
    requires reader.Valid()
    modifies reader, reader.Records()
    ensures reader.Valid() && fresh(reader.Records() - old(reader.Records()))
    ensures Scan(reader.View(), fenced') == Scan(old(reader.View()), fenced).Step(line)
  {
    hide Values, Reader.Feed, Continued, FieldKey, Strip;
    fenced' := fenced;
    if line.Fence? {
      fenced' := !fenced;
      reader.openField := None;
    } else if !fenced {
      reader.Feed(line);
    }
  }

  /** Read tasks in document order; fenced lines are skipped. */
  method ReadTasks(lines: seq<Line>) returns (tasks: seq<Task>)
    ensures tasks == TasksOf(lines)
  {
    var reader := new LineReader();
    var fenced := false;
    for i := 0 to |lines|
      invariant fresh(reader) && fresh(reader.Records()) && reader.Valid()
      invariant Scan(START, false).Steps(lines[..i]) == Scan(reader.View(), fenced)
    {
      ghost var before := Scan(reader.View(), fenced);
      fenced := ReadLine(reader, fenced, lines[i]);
      StepsMore(Scan(START, false), lines, i, before);
    }
    assert lines[..|lines|] == lines;
    tasks := Values(reader.tasks);
  }

  lemma StepsMore(scan: Scan, lines: seq<Line>, i: nat, before: Scan)
    requires i < |lines| && scan.reader.Valid() && scan.Steps(lines[..i]) == before
    ensures before.reader.Valid() && scan.Steps(lines[..i + 1]) == before.Step(lines[i])
  {
    StepsConcat(scan, lines[..i], [lines[i]]);
    assert lines[..i + 1] == lines[..i] + [lines[i]];
    assert before.Step(lines[i]).Steps([]) == before.Step(lines[i]);
  }
}

/** The plan reader inverts rendering, and does not see fenced examples. */
module PlanRoundTrip {
  import opened Wrappers
  import opened Strings
  import opened PlanReader
  import opened PlanText
  import opened PlanWriting

  // ---------------------------------------------------------------- a plan as its author thinks of it

  datatype FieldDoc = FieldDoc(key: string, value: string, more: seq<string>)

  datatype TaskDoc = TaskDoc(id: string, optional: bool, fields: seq<FieldDoc>)

  datatype GroupDoc = GroupDoc(id: string, tasks: seq<TaskDoc>)

  /** A lane: tasks above the first group, then the groups. */
  datatype LaneDoc = LaneDoc(title: string, loose: seq<TaskDoc>, groups: seq<GroupDoc>)

  /** Non-empty trimmed text, as a continuation line or a single-line value spells it. */
  ghost predicate Words(text: string) {
    text != [] && Stripped(text)
  }

  ghost predicate WellFormedField(field: FieldDoc) {
    && Stripped(field.value)
    && forall i :: 0 <= i < |field.more| ==> Words(field.more[i])
  }

  ghost predicate WellFormedTask(task: TaskDoc) {
    && (forall i :: 0 <= i < |task.fields| ==> WellFormedField(task.fields[i]))
    && (forall i, j :: 0 <= i < j < |task.fields| ==> FieldKey(task.fields[i].key) != FieldKey(task.fields[j].key))
  }

  ghost predicate WellFormedTasks(tasks: seq<TaskDoc>) {
    forall i :: 0 <= i < |tasks| ==> WellFormedTask(tasks[i])
  }

  ghost predicate WellFormedLane(lane: LaneDoc) {
    WellFormedTasks(lane.loose) && forall i :: 0 <= i < |lane.groups| ==> WellFormedTasks(lane.groups[i].tasks)
  }

  ghost predicate WellFormedPlan(plan: seq<LaneDoc>) {
    forall i :: 0 <= i < |plan| ==> WellFormedLane(plan[i])
  }

  // ---------------------------------------------------------------- its lines

  function FieldLines(field: FieldDoc, n: nat): seq<Line>
    requires n <= |field.more|
  {
    if n == 0 then [FieldLine(field.key, field.value)]
    else FieldLines(field, n - 1) + [Continuation(field.more[n - 1])]
  }

  function FieldsLines(fields: seq<FieldDoc>, n: nat): seq<Line>
    requires n <= |fields|
  {
    if n == 0 then [] else FieldsLines(fields, n - 1) + FieldLines(fields[n - 1], |fields[n - 1].more|)
  }

  function TaskLines(task: TaskDoc): seq<Line> {
    [TaskHeading(task.id, task.optional)] + FieldsLines(task.fields, |task.fields|)
  }

  function TasksLines(tasks: seq<TaskDoc>, n: nat): seq<Line>
    requires n <= |tasks|
  {
    if n == 0 then [] else TasksLines(tasks, n - 1) + TaskLines(tasks[n - 1])
  }

  function GroupLines(group: GroupDoc): seq<Line> {
    [Group(group.id)] + TasksLines(group.tasks, |group.tasks|)
  }

  function GroupsLines(groups: seq<GroupDoc>, n: nat): seq<Line>
    requires n <= |groups|
  {
    if n == 0 then [] else GroupsLines(groups, n - 1) + GroupLines(groups[n - 1])
  }

  function LaneLines(lane: LaneDoc): seq<Line> {
    [Section(lane.title)] + TasksLines(lane.loose, |lane.loose|) + GroupsLines(lane.groups, |lane.groups|)
  }

  function Render(plan: seq<LaneDoc>, n: nat): seq<Line>
    requires n <= |plan|
  {
    if n == 0 then [] else Render(plan, n - 1) + LaneLines(plan[n - 1])
  }

  // ---------------------------------------------------------------- its tasks

  /** The value and its continuation lines, separated by single spaces. */
  function Joined(field: FieldDoc, n: nat): string
    requires n <= |field.more|
  {
    if n == 0 then field.value
    else if Joined(field, n - 1) == "" then field.more[n - 1]
    else Joined(field, n - 1) + " " + field.more[n - 1]
  }

  function FieldMap(fields: seq<FieldDoc>, n: nat): map<string, string>
    requires n <= |fields|
  {
    if n == 0 then map[]
    else FieldMap(fields, n - 1)[FieldKey(fields[n - 1].key) := Joined(fields[n - 1], |fields[n - 1].more|)]
  }

  function TaskOf(task: TaskDoc, section: string, group: string): Task {
    Task(task.id, section, group, task.optional, FieldMap(task.fields, |task.fields|))
  }

  function TasksIn(tasks: seq<TaskDoc>, n: nat, section: string, group: string): seq<Task>
    requires n <= |tasks|
  {
    if n == 0 then [] else TasksIn(tasks, n - 1, section, group) + [TaskOf(tasks[n - 1], section, group)]
  }

  function GroupsTasks(groups: seq<GroupDoc>, n: nat, section: string): seq<Task>
    requires n <= |groups|
  {
    if n == 0 then []
    else
      GroupsTasks(groups, n - 1, section) +
      TasksIn(groups[n - 1].tasks, |groups[n - 1].tasks|, section, groups[n - 1].id)
  }

  function LaneTasks(lane: LaneDoc): seq<Task> {
    TasksIn(lane.loose, |lane.loose|, lane.title, "") + GroupsTasks(lane.groups, |lane.groups|, lane.title)
  }

  function PlanTasks(plan: seq<LaneDoc>, n: nat): seq<Task>
    requires n <= |plan|
  {
    if n == 0 then [] else PlanTasks(plan, n - 1) + LaneTasks(plan[n - 1])
  }

  // ---------------------------------------------------------------- reading inverts rendering

  ghost predicate Reads(from: Reader, lines: seq<Line>, to: Reader) {
    from.Valid() && Scan(from, false).Steps(lines) == Scan(to, false)
  }

  lemma ReadsOne(from: Reader, line: Line)
    requires from.Valid() && !line.Fence?
    ensures Reads(from, [line], from.Feed(line))
  {
    assert Scan(from, false).Step(line).Steps([]) == Scan(from, false).Step(line);
  }

  lemma ReadsOn(from: Reader, a: seq<Line>, middle: Reader, b: seq<Line>, to: Reader)
    requires Reads(from, a, middle) && Reads(middle, b, to)
    ensures Reads(from, a + b, to)
  {
    StepsConcat(Scan(from, false), a, b);
  }

  lemma ReadsNothing(from: Reader)
    requires from.Valid()
    ensures Reads(from, [], from)
  {
  }

  /** Trimming `value + " " + text` only acts when the value is empty. */
  lemma ContinuedJoins(value: string, text: string)
    requires Stripped(value) && Words(text)
    ensures Continued(value, text) == if value == "" then text else value + " " + text
    ensures Words(Continued(value, text))
  {
    StripOfStripped(text);
    if value == "" {
      var padded := "" + " " + text;
      assert padded[1..] == text;
      assert StripLeft(padded) == StripLeft(text) == text;
    } else {
      StripOfStripped(value + " " + text);
    }
  }

  lemma WithFieldTwice(reader: Reader, key: string, first: string, second: string)
    requires reader.tasks != []
    ensures reader.WithField(key, first).WithField(key, second) == reader.WithField(key, second)
  {
    var once := reader.WithField(key, first);
    assert once.tasks[..|once.tasks| - 1] == reader.tasks[..|reader.tasks| - 1];
    assert reader.Last().fields[key := first][key := second] == reader.Last().fields[key := second];
  }

  lemma {:induction false} FieldReads(from: Reader, field: FieldDoc, n: nat)
    requires from.Valid() && from.open && FieldKey(field.key) !in from.Last().fields
    requires n <= |field.more| && WellFormedField(field)
    ensures Stripped(Joined(field, n))
    ensures Reads(from, FieldLines(field, n), from.WithField(FieldKey(field.key), Joined(field, n)))
  {
    hide FieldKey, Continued;
    var key := FieldKey(field.key);
    if n == 0 {
      StripOfStripped(field.value);
      ReadsOne(from, FieldLine(field.key, field.value));
    } else {
      FieldReads(from, field, n - 1);
      ContinuedJoins(Joined(field, n - 1), field.more[n - 1]);
      var middle := from.WithField(key, Joined(field, n - 1));
      ReadsOne(middle, Continuation(field.more[n - 1]));
      WithFieldTwice(from, key, Joined(field, n - 1), Joined(field, n));
      assert middle.Feed(Continuation(field.more[n - 1])) == from.WithField(key, Joined(field, n));
      ReadsOn(from, FieldLines(field, n - 1), middle, [Continuation(field.more[n - 1])],
              from.WithField(key, Joined(field, n)));
    }
  }

  lemma {:induction false} FieldMapKeys(fields: seq<FieldDoc>, n: nat)
    requires n <= |fields|
    ensures forall key :: key in FieldMap(fields, n) <==> exists i :: 0 <= i < n && FieldKey(fields[i].key) == key
  {
    hide FieldKey;
    if n > 0 {
      FieldMapKeys(fields, n - 1);
    }
  }

  /** The reader below a task heading, after the first `n` fields. */
  function Below(tasks: seq<Task>, task: TaskDoc, section: string, group: string, n: nat): Reader
    requires n <= |task.fields|
  {
    Reader(tasks + [Task(task.id, section, group, task.optional, FieldMap(task.fields, n))], section, group, true,
           if n == 0 then None else Some(FieldKey(task.fields[n - 1].key)))
  }

  lemma {:induction false} FieldsRead(tasks: seq<Task>, task: TaskDoc, section: string, group: string, n: nat)
    requires n <= |task.fields| && WellFormedTask(task)
    ensures Reads(Below(tasks, task, section, group, 0), FieldsLines(task.fields, n), Below(tasks, task, section, group, n))
    ensures Below(tasks, task, section, group, n).Valid()
  {
    hide FieldKey, Joined, FieldLines, Reads, WellFormedField;
    if n == 0 {
      ReadsNothing(Below(tasks, task, section, group, 0));
    } else {
      FieldsRead(tasks, task, section, group, n - 1);
      var field := task.fields[n - 1];
      var middle := Below(tasks, task, section, group, n - 1);
      FieldMapKeys(task.fields, n - 1);
      FieldReads(middle, field, |field.more|);
      assert middle.WithField(FieldKey(field.key), Joined(field, |field.more|)) == Below(tasks, task, section, group, n);
      ReadsOn(Below(tasks, task, section, group, 0), FieldsLines(task.fields, n - 1), middle,
              FieldLines(field, |field.more|), Below(tasks, task, section, group, n));
    }
  }

  /** A reader between tasks: only the tasks read and the lane it is in matter to what follows. */
  ghost predicate At(reader: Reader, tasks: seq<Task>, section: string, group: string) {
    reader.Valid() && reader.tasks == tasks && reader.section == section && reader.group == group
  }

  lemma TaskReads(from: Reader, task: TaskDoc) returns (to: Reader)
    requires from.Valid() && WellFormedTask(task)
    ensures Reads(from, TaskLines(task), to)
    ensures At(to, from.tasks + [TaskOf(task, from.section, from.group)], from.section, from.group)
  {
    hide FieldsLines;
    var n := |task.fields|;
    to := Below(from.tasks, task, from.section, from.group, n);
    ReadsOne(from, TaskHeading(task.id, task.optional));
    FieldsRead(from.tasks, task, from.section, from.group, n);
    ReadsOn(from, [TaskHeading(task.id, task.optional)], Below(from.tasks, task, from.section, from.group, 0),
            FieldsLines(task.fields, n), to);
  }

  lemma {:induction false} TasksRead(from: Reader, tasks: seq<TaskDoc>, n: nat) returns (to: Reader)
    requires from.Valid() && n <= |tasks| && WellFormedTasks(tasks)
    ensures Reads(from, TasksLines(tasks, n), to)
    ensures At(to, from.tasks + TasksIn(tasks, n, from.section, from.group), from.section, from.group)
  {
    hide TaskLines, TaskOf, WellFormedTask;
    if n == 0 {
      ReadsNothing(from);
      to := from;
    } else {
      var middle := TasksRead(from, tasks, n - 1);
      to := TaskReads(middle, tasks[n - 1]);
      ReadsOn(from, TasksLines(tasks, n - 1), middle, TaskLines(tasks[n - 1]), to);
    }
  }

  lemma GroupReads(from: Reader, group: GroupDoc) returns (to: Reader)
    requires from.Valid() && WellFormedTasks(group.tasks)
    ensures Reads(from, GroupLines(group), to)
    ensures At(to, from.tasks + TasksIn(group.tasks, |group.tasks|, from.section, group.id), from.section, group.id)
  {
    hide TasksLines, TasksIn, WellFormedTasks;
    ReadsOne(from, Group(group.id));
    var middle := from.Feed(Group(group.id));
    to := TasksRead(middle, group.tasks, |group.tasks|);
    ReadsOn(from, [Group(group.id)], middle, TasksLines(group.tasks, |group.tasks|), to);
  }

  lemma {:induction false} GroupsRead(from: Reader, groups: seq<GroupDoc>, n: nat) returns (to: Reader)
    requires from.Valid() && n <= |groups|
    requires forall i :: 0 <= i < |groups| ==> WellFormedTasks(groups[i].tasks)
    ensures Reads(from, GroupsLines(groups, n), to)
    ensures to.Valid() && to.section == from.section && to.tasks == from.tasks + GroupsTasks(groups, n, from.section)
  {
    hide GroupLines, TasksIn, WellFormedTasks, Reads;
    if n == 0 {
      ReadsNothing(from);
      to := from;
    } else {
      var middle := GroupsRead(from, groups, n - 1);
      to := GroupReads(middle, groups[n - 1]);
      ReadsOn(from, GroupsLines(groups, n - 1), middle, GroupLines(groups[n - 1]), to);
      var own := TasksIn(groups[n - 1].tasks, |groups[n - 1].tasks|, from.section, groups[n - 1].id);
      assert to.tasks == from.tasks + GroupsTasks(groups, n - 1, from.section) + own;
      assert from.tasks + GroupsTasks(groups, n - 1, from.section) + own ==
             from.tasks + (GroupsTasks(groups, n - 1, from.section) + own);
    }
  }

  lemma LaneReads(from: Reader, lane: LaneDoc) returns (to: Reader)
    requires from.Valid() && WellFormedLane(lane)
    ensures Reads(from, LaneLines(lane), to) && to.Valid() && to.tasks == from.tasks + LaneTasks(lane)
  {
    hide TasksLines, GroupsLines, TasksIn, GroupsTasks, WellFormedTasks;
    ReadsOne(from, Section(lane.title));
    var entered := from.Feed(Section(lane.title));
    var middle := TasksRead(entered, lane.loose, |lane.loose|);
    to := GroupsRead(middle, lane.groups, |lane.groups|);
    ReadsOn(from, [Section(lane.title)], entered, TasksLines(lane.loose, |lane.loose|), middle);
    ReadsOn(from, [Section(lane.title)] + TasksLines(lane.loose, |lane.loose|), middle,
            GroupsLines(lane.groups, |lane.groups|), to);
  }

  lemma {:induction false} LanesRead(plan: seq<LaneDoc>, n: nat) returns (to: Reader)
    requires n <= |plan| && WellFormedPlan(plan)
    ensures Reads(START, Render(plan, n), to) && to.Valid() && to.tasks == PlanTasks(plan, n)
  {
    hide LaneLines, LaneTasks, WellFormedLane;
    if n == 0 {
      ReadsNothing(START);
      to := START;
    } else {
      var middle := LanesRead(plan, n - 1);
      to := LaneReads(middle, plan[n - 1]);
      ReadsOn(START, Render(plan, n - 1), middle, LaneLines(plan[n - 1]), to);
    }
  }

  /** Reading a rendered plan gives back every task, with its lane, group, flag and joined field values. */
  lemma ReadingInvertsRendering(plan: seq<LaneDoc>)
    requires WellFormedPlan(plan)
    ensures TasksOf(Render(plan, |plan|)) == PlanTasks(plan, |plan|)
  {
    var to := LanesRead(plan, |plan|);
  }

  // ---------------------------------------------------------------- names of fields

  /** Space around a field's name does not count, nor does the case of its letters. */
  lemma FieldNameReads(name: string, space: string, after: string)
    requires AllSpace(space) && AllSpace(after) && Words(name)
    ensures var key := FieldKey(space + (name + after));
      |key| == |name| && forall k :: 0 <= k < |name| ==>
        key[k] == if 'A' <= name[k] <= 'Z' then 'a' + (name[k] - 'A') else name[k]
  {
    hide IsSpace;
    assert (name + after)[0] == name[0];
    StripLeftSpace(space, name + after);
    StripRightSpace(name, after);
  }

  /** A task has each of its fields under the name of that field. */
  lemma {:induction false} FieldMapHolds(fields: seq<FieldDoc>, n: nat, i: nat)
    requires i < n <= |fields|
    requires forall i, j :: 0 <= i < j < |fields| ==> FieldKey(fields[i].key) != FieldKey(fields[j].key)
    ensures FieldKey(fields[i].key) in FieldMap(fields, n)
    ensures FieldMap(fields, n)[FieldKey(fields[i].key)] == Joined(fields[i], |fields[i].more|)
  {
    hide FieldKey, Joined;
    if i < n - 1 {
      FieldMapHolds(fields, n - 1, i);
    }
  }

  // ---------------------------------------------------------------- prose is invisible

  /** The lines that match some pattern. */
  function Dense(lines: seq<Line>): seq<Line> {
    if lines == [] then [] else (if lines[0].Other? then [] else [lines[0]]) + Dense(lines[1..])
  }

  /** No blank line or prose stands directly before a continuation line. */
  ghost predicate ProseApart(lines: seq<Line>) {
    forall i :: 0 <= i < |lines| - 1 && lines[i].Other? ==> !lines[i + 1].Continuation?
  }

  /** The two readings agree, but prose may have closed the field in one that nothing continues. */
  ghost predicate AgreeBefore(lines: seq<Line>, a: Scan, b: Scan) {
    && a.reader.Valid() && b.reader.Valid() && a.fenced == b.fenced
    && a.reader == b.reader.(openField := a.reader.openField)
    && (a.reader.openField == b.reader.openField ||
        (a.reader.openField.None? && !a.fenced && (lines != [] ==> !lines[0].Continuation?)))
  }

  lemma StepsAgree(lines: seq<Line>, a: Scan, b: Scan)
    requires lines != [] && ProseApart(lines) && AgreeBefore(lines, a, b)
    ensures AgreeBefore(lines[1..], a.Step(lines[0]), if lines[0].Other? then b else b.Step(lines[0]))
  {
    hide Strip, FieldKey, Continued;
  }

  lemma {:induction false} ProseIsSkipped(lines: seq<Line>, a: Scan, b: Scan)
    requires ProseApart(lines) && AgreeBefore(lines, a, b)
    ensures a.Steps(lines).reader.tasks == b.Steps(Dense(lines)).reader.tasks
    decreases lines
  {
    hide Reader.Feed, Scan.Step;
    if lines != [] {
      StepsAgree(lines, a, b);
      var rest := lines[1..];
      assert ProseApart(rest) by {
        forall i | 0 <= i < |rest| - 1 && rest[i].Other? ensures !rest[i + 1].Continuation? {
          assert lines[i + 1].Other?;
        }
      }
      ProseIsSkipped(rest, a.Step(lines[0]), if lines[0].Other? then b else b.Step(lines[0]));
      if !lines[0].Other? {
        assert Dense(lines)[0] == lines[0] && Dense(lines)[1..] == Dense(rest);
      } else {
        assert Dense(lines) == Dense(rest);
      }
    }
  }

  /** Blank lines and prose change no task, wherever they stand but directly before a continuation line. */
  lemma ProseIsInvisible(lines: seq<Line>)
    requires ProseApart(lines)
    ensures TasksOf(lines) == TasksOf(Dense(lines))
  {
    ProseIsSkipped(lines, Scan(START, false), Scan(START, false));
  }

  /**
   A document in which every line is written in any of its forms, with blank lines and prose anywhere
   but directly before a continuation line, reads as exactly the tasks of the plan it spells.
   */
  lemma DocumentReads(texts: seq<string>, lines: seq<Line>, plan: seq<LaneDoc>)
    requires |texts| == |lines| && forall i :: 0 <= i < |lines| ==> Written(texts[i], lines[i])
    requires WellFormedPlan(plan) && Dense(lines) == Render(plan, |plan|) && ProseApart(lines)
    ensures TasksOf(ClassifyAll(texts)) == PlanTasks(plan, |plan|)
  {
    hide Written, Classify, Render, PlanTasks, WellFormedPlan, TasksOf, Dense, ProseApart;
    forall i | 0 <= i < |lines| ensures Classify(texts[i]) == lines[i] {
      WrittenReads(texts[i], lines[i]);
    }
    assert ClassifyAll(texts) == lines;
    ProseIsInvisible(lines);
    ReadingInvertsRendering(plan);
  }

  // ---------------------------------------------------------------- lines that are not part of a field

  lemma InsteadOf(before: seq<Line>, a: seq<Line>, b: seq<Line>, after: seq<Line>)
    requires var scan := Scan(START, false).Steps(before); scan.Steps(a) == scan.Steps(b)
    ensures TasksOf(before + a + after) == TasksOf(before + b + after)
  {
    var scan := Scan(START, false);
    StepsConcat(scan, before + a, after);
    StepsConcat(scan, before, a);
    StepsConcat(scan, before + b, after);
    StepsConcat(scan, before, b);
  }

  lemma TwoSteps(scan: Scan, a: Line, b: Line)
    requires scan.reader.Valid()
    ensures scan.Steps([a, b]) == scan.Step(a).Step(b) && scan.Steps([a]) == scan.Step(a)
  {
    hide Scan.Step;
    assert [a, b][1..] == [b] && [b][1..] == [] && [a][1..] == [];
    assert scan.Steps([a, b]) == scan.Step(a).Steps([b]);
    assert scan.Step(a).Steps([b]) == scan.Step(a).Step(b).Steps([]);
    assert scan.Steps([a]) == scan.Step(a).Steps([]);
  }

  /** A continuation directly behind prose, a heading or a fence continues nothing. */
  lemma ContinuationNeedsField(before: seq<Line>, gap: Line, words: string, after: seq<Line>)
    requires !gap.FieldLine? && !gap.Continuation?
    ensures TasksOf(before + [gap, Continuation(words)] + after) == TasksOf(before + [gap] + after)
  {
    var scan := Scan(START, false).Steps(before);
    TwoSteps(scan, gap, Continuation(words));
    InsteadOf(before, [gap, Continuation(words)], [gap], after);
  }

  lemma {:induction false} NothingToFill(scan: Scan, lines: seq<Line>)
    requires SameTask(lines) && scan.reader.Valid() && (scan.fenced || !scan.reader.open)
    ensures scan.Steps(lines) == scan
    decreases lines
  {
    hide Strip, FieldKey, Continued;
    if lines != [] {
      NothingToFill(scan.Step(lines[0]), lines[1..]);
    }
  }

  /** Fields and their continuations below a lane or group heading belong to no task, not even to the last one. */
  lemma FieldsNeedTask(before: seq<Line>, heading: Line, stray: seq<Line>, after: seq<Line>)
    requires SameTask(stray) && (heading.Section? || heading.Group?)
    ensures TasksOf(before + ([heading] + stray) + after) == TasksOf(before + [heading] + after)
  {
    hide SameTask, Scan.Steps;
    var scan := Scan(START, false).Steps(before);
    TwoSteps(scan, heading, heading);
    StepsConcat(scan, [heading], stray);
    NothingToFill(scan.Step(heading), stray);
    InsteadOf(before, [heading] + stray, [heading], after);
  }

  ghost predicate SameTask(lines: seq<Line>) {
    forall i :: 0 <= i < |lines| ==> !lines[i].Fence? && !lines[i].Section? && !lines[i].Group? && !lines[i].TaskHeading?
  }

  /** No task is being read, or the one being read has the field. */
  ghost predicate HasOrSkips(scan: Scan, key: string) {
    scan.reader.Valid() && (scan.fenced || !scan.reader.open || key in scan.reader.Last().fields)
  }

  lemma {:induction false} FieldStays(scan: Scan, lines: seq<Line>, key: string)
    requires SameTask(lines) && HasOrSkips(scan, key)
    ensures HasOrSkips(scan.Steps(lines), key)
    decreases lines
  {
    hide Strip, FieldKey, Continued;
    if lines != [] {
      FieldStays(scan.Step(lines[0]), lines[1..], key);
    }
  }

  lemma FieldThereAlready(scan: Scan, key: string, value: string)
    requires HasOrSkips(scan, FieldKey(key))
    ensures scan.Steps([FieldLine(key, value)]) == scan.Steps([Other])
  {
    hide Strip, FieldKey, Scan.Steps;
    TwoSteps(scan, FieldLine(key, value), Other);
    TwoSteps(scan, Other, Other);
  }

  lemma FieldIsThere(scan: Scan, line: Line)
    requires scan.reader.Valid() && line.FieldLine?
    ensures HasOrSkips(scan.Steps([line]), FieldKey(line.key))
  {
    hide Strip, FieldKey, Scan.Steps;
    TwoSteps(scan, line, line);
  }

  /** A field that the task has already is no better than prose: the first one counts, and nothing is continued. */
  lemma RepeatedFieldIsProse(front: seq<Line>, line: Line, between: seq<Line>, key: string, value: string, after: seq<Line>)
    requires SameTask(between) && line.FieldLine? && FieldKey(line.key) == FieldKey(key)
    ensures var before := front + [line] + between;
      TasksOf(before + [FieldLine(key, value)] + after) == TasksOf(before + [Other] + after)
  {
    hide Scan.Steps, HasOrSkips, SameTask;
    var scan, before := Scan(START, false), front + [line] + between;
    StepsConcat(scan, front + [line], between);
    StepsConcat(scan, front, [line]);
    FieldIsThere(scan.Steps(front), line);
    FieldStays(scan.Steps(front).Steps([line]), between, FieldKey(key));
    FieldThereAlready(scan.Steps(before), key, value);
    InsteadOf(before, [FieldLine(key, value)], [Other], after);
  }

  // ---------------------------------------------------------------- fenced blocks are invisible

  ghost predicate NoFence(lines: seq<Line>) {
    forall i :: 0 <= i < |lines| ==> !lines[i].Fence?
  }

  lemma {:induction false} FencedLinesAreSkipped(scan: Scan, lines: seq<Line>)
    requires scan.reader.Valid() && scan.fenced && NoFence(lines)
    ensures scan.Steps(lines) == scan
  {
    if lines != [] {
      FencedLinesAreSkipped(scan, lines[1..]);
    }
  }

  lemma FenceBlockClosesField(reader: Reader, block: seq<Line>)
    requires reader.Valid() && NoFence(block)
    ensures Scan(reader, false).Steps([Fence] + block + [Fence]) == Scan(reader.(openField := None), false)
  {
    var closed := reader.(openField := None);
    StepsConcat(Scan(reader, false), [Fence] + block, [Fence]);
    StepsConcat(Scan(reader, false), [Fence], block);
    assert Scan(reader, false).Step(Fence).Steps([]) == Scan(closed, true);
    FencedLinesAreSkipped(Scan(closed, true), block);
    assert Scan(closed, true).Step(Fence).Steps([]) == Scan(closed, false);
  }

  /**
   A closed fenced block may be inserted between any two lines outside other fences, unless the next
   line continues an open field: the tasks read are the same.
   */
  lemma FencedBlockIsInvisible(before: seq<Line>, block: seq<Line>, after: seq<Line>)
    requires NoFence(block) && !Scan(START, false).Steps(before).fenced
    requires after != [] && after[0].Continuation? ==> Scan(START, false).Steps(before).reader.openField.None?
    ensures TasksOf(before + ([Fence] + block + [Fence]) + after) == TasksOf(before + after)
  {
    var scan := Scan(START, false).Steps(before);
    StepsConcat(Scan(START, false), before + ([Fence] + block + [Fence]), after);
    StepsConcat(Scan(START, false), before, [Fence] + block + [Fence]);
    StepsConcat(Scan(START, false), before, after);
    FenceBlockClosesField(scan.reader, block);
    if after != [] {
      assert scan.Step(after[0]) == Scan(scan.reader.(openField := None), false).Step(after[0]);
    }
  }
}

/** The gate over the forward plan: identity, dependencies, cycles and ordering of its tasks. */
module PlanIntegrity {
  import opened Wrappers
  import opened Strings
  import opened Sequences
  import opened PlanReader
  import opened References
  import opened CycleDetection

  const AGENT_SECTION := "Agent Implementation Tasks"
  const HUMAN_SECTION := "Human-Assisted Tasks"
  const PLAN_SECTIONS: seq<string> := [AGENT_SECTION, HUMAN_SECTION]

  datatype Document = Specification | Plan

  datatype Finding =
    | MissingDocument(document: Document)
    | EmptyRegistry
    | ListedTwice(capability: string)
    | BadCapabilityStatus(capability: string, status: string)
    | NoEvaluation(capability: string)
    | NoLink(capability: string)
    | Unserved(capability: string)
    | MissingField(task: string, field: string)
    | MissingHumanStep(task: string)
    | StrayHumanStep(task: string)
    | BadStatus(task: string, status: string)
    | MalformedHeading(line: nat)
    | HistoryOrDate(line: nat)
    | MissingLane(section: string)
    | DuplicateTask(task: string)
    | OutsideLanes(task: string)
    | NoGroup(task: string)
    | NoCapability(task: string)
    | UnregisteredCapability(task: string, capability: string)
    | Misfiled(task: string, capability: string, group: string)
    | DependsOnItself(task: string)
    | UnknownDependency(task: string, dependency: string)
    | StartCycle(cycle: seq<string>)
    | GroupsOutOfOrder(section: string)
    | RequiredAfterOptional(task: string, group: string)

  /** The capability id a task declares in its `Serves` field. */
  function Serves(task: Task): Option<string> {
    var value := if "serves" in task.fields then task.fields["serves"] else "";
    if value == [] || value[0] != '`' then None
    else
      var end := 1 + SlugRun(value, 1);
      if end > 1 && end < |value| && value[end] == '`' && (end + 1 == |value| || IsSpace(value[end + 1]))
      then Some(value[1..end]) else None
  }

  // ---------------------------------------------------------------- identity

  function CapabilityFaults(task: Task, known: set<string>): seq<Finding> {
    var serves := Serves(task);
    if serves.None? then [NoCapability(task.identifier)]
    else if serves.value !in known then [UnregisteredCapability(task.identifier, serves.value)]
    else if task.group != serves.value then [Misfiled(task.identifier, serves.value, task.group)]
    else []
  }

  method TaskIdentityFindings(task: Task, known: set<string>, identifiers: set<string>)
    returns (findings: seq<Finding>, identifiers': set<string>)
    ensures findings ==
            (if task.identifier in identifiers then [DuplicateTask(task.identifier)] else []) +
            (if task.section !in PLAN_SECTIONS then [OutsideLanes(task.identifier)] else []) +
            (if task.group == "" then [NoGroup(task.identifier)] else []) +
            CapabilityFaults(task, known)
    ensures findings == [] <==> task.identifier !in identifiers && Placed(task, known)
    ensures identifiers' == identifiers + {task.identifier}
  {
    findings := [];
    if task.identifier in identifiers {
      findings := findings + [DuplicateTask(task.identifier)];
    }
    identifiers' := identifiers + {task.identifier};
    if task.section !in PLAN_SECTIONS {
      findings := findings + [OutsideLanes(task.identifier)];
    }
    if task.group == "" {
      findings := findings + [NoGroup(task.identifier)];
    }
    var serves := Serves(task);
    if serves.None? {
      findings := findings + [NoCapability(task.identifier)];
    } else if serves.value !in known {
      findings := findings + [UnregisteredCapability(task.identifier, serves.value)];
    } else if task.group != serves.value {
      findings := findings + [Misfiled(task.identifier, serves.value, task.group)];
    }
  }

  /** Filed in a lane, under the registered capability it serves. */
  ghost predicate Placed(task: Task, known: set<string>) {
    task.section in PLAN_SECTIONS && task.group != "" && task.group in known && Serves(task) == Some(task.group)
  }

  function Ids(tasks: seq<Task>): (ids: seq<string>)
    ensures |ids| == |tasks| && forall i :: 0 <= i < |tasks| ==> ids[i] == tasks[i].identifier
  {
    seq(|tasks|, i requires 0 <= i < |tasks| => tasks[i].identifier)
  }

  lemma DistinctNone(names: seq<string>)
    ensures Distinct(names[..0])
  {
  }

  lemma DistinctMore(names: seq<string>, n: nat)
    requires n < |names|
    ensures Distinct(names[..n + 1]) <==> Distinct(names[..n]) && forall k :: 0 <= k < n ==> names[k] != names[n]
  {
    var more, less := names[..n + 1], names[..n];
    assert forall k :: 0 <= k < n ==> more[k] == less[k] == names[k];
    assert more[n] == names[n];
  }

  // ---------------------------------------------------------------- dependencies

  /** A repeated id keeps its last dependencies, as in a dict comprehension. */
  function GraphOf(tasks: seq<Task>): Graph {
    if tasks == [] then map[]
    else
      var last := tasks[|tasks| - 1];
      GraphOf(tasks[..|tasks| - 1])[last.identifier := StartDependencies(last)]
  }

  lemma {:induction false} GraphKeys(tasks: seq<Task>, node: string)
    ensures node in GraphOf(tasks) <==> exists i :: 0 <= i < |tasks| && tasks[i].identifier == node
  {
    hide StartDependencies;
    if tasks != [] {
      GraphKeys(tasks[..|tasks| - 1], node);
    }
  }

  lemma {:induction false} GraphEntry(tasks: seq<Task>, i: nat)
    requires Distinct(Ids(tasks)) && i < |tasks|
    ensures tasks[i].identifier in GraphOf(tasks)
    ensures GraphOf(tasks)[tasks[i].identifier] == StartDependencies(tasks[i])
  {
    hide StartDependencies, Ids;
    if i < |tasks| - 1 {
      var front := tasks[..|tasks| - 1];
      assert front[i] == tasks[i];
      assert Ids(tasks)[i] != Ids(tasks)[|tasks| - 1];
      forall a, b | 0 <= a < b < |front| ensures Ids(front)[a] != Ids(front)[b] {
        assert Ids(tasks)[a] != Ids(tasks)[b];
      }
      GraphEntry(front, i);
    }
  }

  function OpenIds(tasks: seq<Task>): set<string> {
    set i | 0 <= i < |tasks| :: tasks[i].identifier
  }

  lemma GraphNodes(tasks: seq<Task>, node: string)
    ensures node in GraphOf(tasks) <==> node in OpenIds(tasks)
  {
    hide GraphOf;
    GraphKeys(tasks, node);
  }

  ghost predicate KnownReferences(task: Task, open: set<string>, recorded: set<string>) {
    forall reference :: reference in DependencyReferences(task) ==>
      reference != task.identifier && (reference in open || reference in recorded)
  }

  function ReferenceFault(task: Task, reference: string, open: set<string>, recorded: set<string>): seq<Finding> {
    if reference == task.identifier then [DependsOnItself(task.identifier)]
    else if reference !in open && reference !in recorded then [UnknownDependency(task.identifier, reference)]
    else []
  }

  method ReferenceFindings(task: Task, open: set<string>, recorded: set<string>) returns (findings: seq<Finding>)
    ensures findings == [] <==> KnownReferences(task, open, recorded)
    ensures forall f :: f in findings ==>
              exists r :: r in DependencyReferences(task) && ReferenceFault(task, r, open, recorded) == [f]
  {
    findings := [];
    var references := DependencyReferences(task);
    hide DependencyReferences;
    for i := 0 to |references|
      invariant findings == [] <==>
                forall k :: 0 <= k < i ==> ReferenceFault(task, references[k], open, recorded) == []
      invariant forall f :: f in findings ==>
                  exists r :: r in references && ReferenceFault(task, r, open, recorded) == [f]
    {
      var reference := references[i];
      if reference == task.identifier {
        findings := findings + [DependsOnItself(task.identifier)];
      } else if reference !in open && reference !in recorded {
        findings := findings + [UnknownDependency(task.identifier, reference)];
      }
    }
  }

  /** Dangling and circular dependencies. */
  method DependencyFindings(tasks: seq<Task>, recorded: set<string>) returns (findings: seq<Finding>)
    ensures findings == [] <==> DependenciesSound(tasks, recorded)
  {
    hide GraphOf, OpenIds;
    findings := [];
    var open := OpenIds(tasks);
    for i := 0 to |tasks|
      invariant findings == [] <==> forall k :: 0 <= k < i ==> KnownReferences(tasks[k], open, recorded)
    {
      hide KnownReferences;
      var found := ReferenceFindings(tasks[i], open, recorded);
      findings := findings + found;
    }
    forall node ensures node in FirstUses(Ids(tasks)) <==> node in GraphOf(tasks) {
      GraphKeys(tasks, node);
      if node in GraphOf(tasks) {
        var i :| 0 <= i < |tasks| && tasks[i].identifier == node;
        assert Ids(tasks)[i] == node;
      }
    }
    var cycles := CycleFindings(GraphOf(tasks), FirstUses(Ids(tasks)));
    findings := findings + seq(|cycles|, i requires 0 <= i < |cycles| => StartCycle(cycles[i]));
  }

  ghost predicate DependenciesSound(tasks: seq<Task>, recorded: set<string>) {
    var open := OpenIds(tasks);
    (forall k :: 0 <= k < |tasks| ==> KnownReferences(tasks[k], open, recorded)) && Acyclic(GraphOf(tasks))
  }

  // ---------------------------------------------------------------- order

  function InSection(tasks: seq<Task>, section: string): seq<Task> {
    if tasks == [] then []
    else
      var last := tasks[|tasks| - 1];
      InSection(tasks[..|tasks| - 1], section) + (if last.section == section then [last] else [])
  }

  function InGroup(tasks: seq<Task>, group: string): seq<Task> {
    if tasks == [] then []
    else
      var last := tasks[|tasks| - 1];
      InGroup(tasks[..|tasks| - 1], group) + (if last.group == group then [last] else [])
  }

  function GroupsOf(tasks: seq<Task>): (groups: seq<string>)
    ensures |groups| == |tasks| && forall i :: 0 <= i < |tasks| ==> groups[i] == tasks[i].group
  {
    seq(|tasks|, i requires 0 <= i < |tasks| => tasks[i].group)
  }

  /** `[line.index(group) for group in groups if group in line]` */
  function RanksOf(line: seq<string>, groups: seq<string>): seq<nat> {
    if groups == [] then []
    else
      var last := groups[|groups| - 1];
      RanksOf(line, groups[..|groups| - 1]) + (if last in line then [IndexOf(line, last)] else [])
  }

  predicate Ascending(ranks: seq<nat>) {
    forall i, j :: 0 <= i < j < |ranks| ==> ranks[i] <= ranks[j]
  }

  /** The groups of a lane, by first task, follow the registry. */
  predicate GroupsFollow(line: seq<string>, tasks: seq<Task>, section: string) {
    Ascending(RanksOf(line, FirstUses(GroupsOf(InSection(tasks, section)))))
  }

  function SectionOrderFindings(line: seq<string>, tasks: seq<Task>, section: string): seq<Finding> {
    if GroupsFollow(line, tasks, section) then [] else [GroupsOutOfOrder(section)]
  }

  /** No required task follows an optional one. */
  ghost predicate OptionalLast(tasks: seq<Task>) {
    forall i, j :: 0 <= i < j < |tasks| && tasks[i].optional ==> tasks[j].optional
  }

  method GroupOptionalFindings(tasks: seq<Task>, group: string) returns (findings: seq<Finding>)
    ensures findings == [] <==> OptionalLast(tasks)
  {
    findings := [];
    var optionalSeen := false;
    for i := 0 to |tasks|
      invariant optionalSeen <==> exists k :: 0 <= k < i && tasks[k].optional
      invariant findings == [] <==> OptionalLast(tasks[..i])
    {
      assert OptionalLast(tasks[..i + 1]) <==> OptionalLast(tasks[..i]) && (optionalSeen ==> tasks[i].optional) by {
        OptionalLastMore(tasks, i);
      }
      if optionalSeen && !tasks[i].optional {
        findings := findings + [RequiredAfterOptional(tasks[i].identifier, group)];
      }
      optionalSeen := optionalSeen || tasks[i].optional;
    }
    assert tasks[..|tasks|] == tasks;
  }

  lemma OptionalLastMore(tasks: seq<Task>, n: nat)
    requires n < |tasks|
    ensures OptionalLast(tasks[..n + 1]) <==>
            OptionalLast(tasks[..n]) && ((exists k :: 0 <= k < n && tasks[k].optional) ==> tasks[n].optional)
  {
    var more, less := tasks[..n + 1], tasks[..n];
    assert forall k :: 0 <= k < n ==> more[k] == less[k] == tasks[k];
    assert more[n] == tasks[n];
  }

  /** The tasks of a lane by group, each in document order. */
  method TasksByGroup(lane: seq<Task>) returns (byGroup: map<string, seq<Task>>)
    ensures forall group :: group in byGroup <==> group in GroupsOf(lane)
    ensures forall group :: group in byGroup ==> byGroup[group] == InGroup(lane, group)
  {
    hide InGroup, GroupsOf;
    byGroup := map[];
    ghost var groups := GroupsOf(lane);
    for i := 0 to |lane|
      invariant forall group :: group in byGroup <==> group in groups[..i]
      invariant forall group :: group in byGroup ==> byGroup[group] == InGroup(lane[..i], group)
    {
      var earlier := if lane[i].group in byGroup then byGroup[lane[i].group] else [];
      forall group ensures InGroup(lane[..i + 1], group) ==
                           InGroup(lane[..i], group) + (if lane[i].group == group then [lane[i]] else [])
      {
        InGroupMore(lane, i, group);
      }
      if lane[i].group !in byGroup {
        assert forall k :: 0 <= k < i ==> groups[k] == groups[..i][k];
        NoneInGroup(lane[..i], lane[i].group);
      }
      byGroup := byGroup[lane[i].group := earlier + [lane[i]]];
      assert groups[..i + 1] == groups[..i] + [lane[i].group];
    }
    assert lane[..|lane|] == lane && groups[..|lane|] == groups;
  }

  method OptionalOrderFindings(tasks: seq<Task>, section: string) returns (findings: seq<Finding>)
    ensures findings == [] <==> OptionalFollows(tasks, section)
  {
    hide InSection, InGroup, GroupsOf, OptionalLast;
    findings := [];
    var lane := InSection(tasks, section);
    var byGroup := TasksByGroup(lane);
    var groups := FirstUses(GroupsOf(lane));
    for i := 0 to |groups|
      invariant findings == [] <==> forall k :: 0 <= k < i ==> OptionalLast(InGroup(lane, groups[k]))
    {
      var found := GroupOptionalFindings(byGroup[groups[i]], groups[i]);
      findings := findings + found;
    }
    forall group | group !in groups ensures OptionalLast(InGroup(lane, group)) {
      NoneInGroup(lane, group);
      OptionalLastOfNone();
    }
  }

  lemma OptionalLastOfNone()
    ensures OptionalLast([])
  {
  }

  /** In every group of a lane, optional work comes last. */
  ghost predicate OptionalFollows(tasks: seq<Task>, section: string) {
    forall group :: OptionalLast(InGroup(InSection(tasks, section), group))
  }

  lemma InGroupMore(tasks: seq<Task>, n: nat, group: string)
    requires n < |tasks|
    ensures InGroup(tasks[..n + 1], group) ==
            InGroup(tasks[..n], group) + (if tasks[n].group == group then [tasks[n]] else [])
  {
    assert tasks[..n + 1][..n] == tasks[..n];
  }

  lemma {:induction false} NoneInGroup(tasks: seq<Task>, group: string)
    requires forall i :: 0 <= i < |tasks| ==> tasks[i].group != group
    ensures InGroup(tasks, group) == []
  {
    if tasks != [] {
      NoneInGroup(tasks[..|tasks| - 1], group);
    }
  }

  // ---------------------------------------------------------------- the gate

  /** What the gate promises the scheduler. */
  ghost predicate Sound(line: seq<string>, tasks: seq<Task>, recorded: set<string>) {
    && Distinct(line)
    && Distinct(Ids(tasks))
    && (forall i :: 0 <= i < |tasks| ==> Placed(tasks[i], (set c | c in line)))
    && DependenciesSound(tasks, recorded)
    && (forall section :: section in PLAN_SECTIONS ==>
          GroupsFollow(line, tasks, section) && OptionalFollows(tasks, section))
  }

  method OrderFindings(line: seq<string>, tasks: seq<Task>) returns (findings: seq<Finding>)
    ensures findings == [] <==> forall section :: section in PLAN_SECTIONS ==>
              GroupsFollow(line, tasks, section) && OptionalFollows(tasks, section)
  {
    hide GroupsFollow, OptionalFollows;
    findings := [];
    for i := 0 to |PLAN_SECTIONS|
      invariant findings == [] <==> forall k :: 0 <= k < i ==>
                  GroupsFollow(line, tasks, PLAN_SECTIONS[k]) && OptionalFollows(tasks, PLAN_SECTIONS[k])
    {
      findings := findings + SectionOrderFindings(line, tasks, PLAN_SECTIONS[i]);
      var found := OptionalOrderFindings(tasks, PLAN_SECTIONS[i]);
      findings := findings + found;
    }
  }
}

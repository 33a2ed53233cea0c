/** The whole gate over specification and plan: every finding, down to the text of the documents. */
module PlanGate {
  import opened Wrappers
  import opened Strings
  import opened Sequences
  import opened PlanReader
  import opened PlanText
  import opened References
  import opened Registry
  import opened PlanIntegrity
  import opened Scheduler
  import opened Scheduling

  // ---------------------------------------------------------------- metadata and status of a task

  const HUMAN_STEP := "human step"
  const REQUIRED_FIELDS: seq<string> :=
    ["serves", "agent status", "dependencies", "user-visible outcome", "scope boundary",
     "data and artifact paths", "execution path", "acceptance gates", "documentation target"]
  const AGENT_STATUSES: seq<string> := ["CLEAR", "RUN NEEDED"]
  const HUMAN_STATUSES: seq<string> := ["BLOCKED BY HUMAN", "HUMAN-GATED"]

  /** `bool(task.fields.get(field))` */
  predicate HasField(task: Task, field: string) {
    field in task.fields && task.fields[field] != ""
  }

  /** Every required field is there, and a human step exactly where a human is needed. */
  ghost predicate Documented(task: Task) {
    && (forall i :: 0 <= i < |REQUIRED_FIELDS| ==> HasField(task, REQUIRED_FIELDS[i]))
    && (task.section == HUMAN_SECTION ==> HasField(task, HUMAN_STEP))
    && (task.section == AGENT_SECTION ==> HUMAN_STEP !in task.fields)
  }

  method MetadataFindings(task: Task) returns (findings: seq<Finding>)
    ensures findings == [] <==> Documented(task)
    ensures forall field :: MissingField(task.identifier, field) in findings <==>
              field in REQUIRED_FIELDS && !HasField(task, field)
  {
    hide HasField;
    findings := [];
    for i := 0 to |REQUIRED_FIELDS|
      invariant findings == [] <==> forall k :: 0 <= k < i ==> HasField(task, REQUIRED_FIELDS[k])
      invariant forall field :: MissingField(task.identifier, field) in findings <==>
                  field in REQUIRED_FIELDS[..i] && !HasField(task, field)
    {
      assert REQUIRED_FIELDS[..i + 1] == REQUIRED_FIELDS[..i] + [REQUIRED_FIELDS[i]];
      if !HasField(task, REQUIRED_FIELDS[i]) {
        findings := findings + [MissingField(task.identifier, REQUIRED_FIELDS[i])];
      }
    }
    assert REQUIRED_FIELDS[..|REQUIRED_FIELDS|] == REQUIRED_FIELDS;
    if task.section == HUMAN_SECTION && !HasField(task, HUMAN_STEP) {
      findings := findings + [MissingHumanStep(task.identifier)];
    }
    if task.section == AGENT_SECTION && HUMAN_STEP in task.fields {
      findings := findings + [StrayHumanStep(task.identifier)];
    }
  }

  function UpperChar(c: char): char {
    if 'a' <= c <= 'z' then (c as int - 32) as char else c
  }

  /** `str.upper()` on ASCII text */
  function Upper(text: string): string {
    seq(|text|, i requires 0 <= i < |text| => UpperChar(text[i]))
  }

  /** The normalized execution status, when present. */
  function AgentStatus(task: Task): Option<string> {
    if HasField(task, "agent status") then Some(Upper(Strip(task.fields["agent status"]))) else None
  }

  function AllowedStatuses(section: string): seq<string> {
    if section == AGENT_SECTION then AGENT_STATUSES else if section == HUMAN_SECTION then HUMAN_STATUSES else []
  }

  predicate StatusAllowed(task: Task) {
    AgentStatus(task).None? || AgentStatus(task).value in AllowedStatuses(task.section)
  }

  function StatusFindings(task: Task): (findings: seq<Finding>)
    ensures findings == [] <==> StatusAllowed(task)
  {
    if StatusAllowed(task) then [] else [BadStatus(task.identifier, AgentStatus(task).value)]
  }

  /** A task the gate has nothing to say about, ids and dependencies apart. */
  ghost predicate TaskInOrder(task: Task, known: set<string>) {
    Placed(task, known) && Documented(task) && StatusAllowed(task)
  }

  method OneTaskFindings(task: Task, known: set<string>, identifiers: set<string>)
    returns (findings: seq<Finding>, more: set<string>)
    ensures findings == [] <==> task.identifier !in identifiers && TaskInOrder(task, known)
    ensures more == identifiers + {task.identifier}
  {
    hide Placed, CapabilityFaults, Documented, StatusAllowed;
    var identity;
    identity, more := TaskIdentityFindings(task, known, identifiers);
    var metadata := MetadataFindings(task);
    findings := identity + metadata + StatusFindings(task);
  }

  method TaskFindings(known: set<string>, tasks: seq<Task>) returns (findings: seq<Finding>)
    ensures findings == [] <==>
            Distinct(Ids(tasks)) && forall i :: 0 <= i < |tasks| ==> TaskInOrder(tasks[i], known)
  {
    hide TaskInOrder, Distinct, Ids;
    findings := [];
    var identifiers: set<string> := {};
    ghost var ids := Ids(tasks);
    DistinctNone(ids);
    for i := 0 to |tasks|
      invariant identifiers == set k | 0 <= k < i :: ids[k]
      invariant findings == [] <==> Distinct(ids[..i]) && forall k :: 0 <= k < i ==> TaskInOrder(tasks[k], known)
    {
      DistinctMore(ids, i);
      var own;
      own, identifiers := OneTaskFindings(tasks[i], known, identifiers);
      findings := findings + own;
    }
    assert ids[..|tasks|] == ids;
  }

  // ---------------------------------------------------------------- the registry

  const SHIPPED := "shipped"
  const PLANNED := "planned"

  /** The first position of a character from `i` on, or the end. */
  function FirstOf(text: string, c: char, i: nat): (at: nat)
    requires i <= |text|
    ensures i <= at <= |text| && (at < |text| ==> text[at] == c) && forall k :: i <= k < at ==> text[k] != c
    decreases |text| - i
  {
    if i == |text| || text[i] == c then i else FirstOf(text, c, i + 1)
  }

  /** A Markdown link `[..](..)` starts at `i`, neither part being empty. */
  predicate LinkAt(text: string, i: nat) {
    i < |text| && text[i] == '[' &&
    var close := FirstOf(text, ']', i + 1);
    i + 1 < close && close + 1 < |text| && text[close + 1] == '(' &&
    var end := FirstOf(text, ')', close + 2);
    close + 2 < end < |text|
  }

  predicate HasLink(text: string) {
    exists i :: 0 <= i < |text| && LinkAt(text, i)
  }

  /** The capabilities that some task serves. */
  function ServedBy(tasks: seq<Task>): set<string> {
    set i | 0 <= i < |tasks| && Serves(tasks[i]).Some? :: Serves(tasks[i]).value
  }

  /** What the gate asks of a capability, its id apart. */
  predicate CapabilityInOrder(capability: Capability, served: set<string>) {
    && capability.status in {SHIPPED, PLANNED}
    && capability.evaluation !in {"", "-", "--"}
    && (capability.status == SHIPPED ==> HasLink(capability.implementation))
    && (capability.status == PLANNED ==> capability.identifier in served)
  }

  method CapabilityFindings(capability: Capability, served: set<string>) returns (findings: seq<Finding>)
    ensures findings == [] <==> CapabilityInOrder(capability, served)
  {
    hide HasLink;
    findings := [];
    if capability.status !in {SHIPPED, PLANNED} {
      findings := findings + [BadCapabilityStatus(capability.identifier, capability.status)];
    }
    if capability.evaluation in {"", "-", "--"} {
      findings := findings + [NoEvaluation(capability.identifier)];
    }
    if capability.status == SHIPPED && !HasLink(capability.implementation) {
      findings := findings + [NoLink(capability.identifier)];
    }
    if capability.status == PLANNED && capability.identifier !in served {
      findings := findings + [Unserved(capability.identifier)];
    }
  }

  function Identifiers(capabilities: seq<Capability>): (line: seq<string>)
    ensures |line| == |capabilities| && forall i :: 0 <= i < |capabilities| ==> line[i] == capabilities[i].identifier
  {
    seq(|capabilities|, i requires 0 <= i < |capabilities| => capabilities[i].identifier)
  }

  method RegistryFindings(capabilities: seq<Capability>, tasks: seq<Task>) returns (findings: seq<Finding>)
    ensures findings == [] <==>
            Distinct(Identifiers(capabilities)) &&
            forall i :: 0 <= i < |capabilities| ==> CapabilityInOrder(capabilities[i], ServedBy(tasks))
  {
    hide Distinct, CapabilityInOrder, ServedBy;
    findings := [];
    var seen: set<string> := {};
    var served := ServedBy(tasks);
    var line := Identifiers(capabilities);
    DistinctNone(line);
    for i := 0 to |capabilities|
      invariant seen == set k | 0 <= k < i :: line[k]
      invariant findings == [] <==> Distinct(line[..i]) && forall k :: 0 <= k < i ==> CapabilityInOrder(capabilities[k], served)
    {
      DistinctMore(line, i);
      if line[i] in seen {
        findings := findings + [ListedTwice(line[i])];
      }
      seen := seen + {line[i]};
      var found := CapabilityFindings(capabilities[i], served);
      findings := findings + found;
    }
    assert line[..|capabilities|] == line;
  }

  // ---------------------------------------------------------------- the text of the plan

  const HISTORY_WORDS: seq<string> := ["done", "delivered", "implemented"]

  /** A word boundary: exactly one of the two neighbours is a word character. */
  predicate BoundaryAt(text: string, i: nat) {
    (0 < i <= |text| && IsWordChar(text[i - 1])) != (i < |text| && IsWordChar(text[i]))
  }

  /** A history word stands at `i` as a whole word, in any case. */
  predicate HistoryAt(text: string, i: nat) {
    BoundaryAt(text, i) &&
    exists w :: 0 <= w < |HISTORY_WORDS| && SpellsAt(text, i, HISTORY_WORDS[w]) && BoundaryAt(text, i + |HISTORY_WORDS[w]|)
  }

  predicate DateChar(c: char, k: nat) {
    if k == 4 || k == 7 then c == '-' else IsDigit(c)
  }

  /** A date `dddd-dd-dd` stands at `i` as a whole word. */
  predicate DateAt(text: string, i: nat) {
    && i + 10 <= |text| && BoundaryAt(text, i) && BoundaryAt(text, i + 10)
    && var date := text[i..i + 10]; forall k :: 0 <= k < 10 ==> DateChar(date[k], k)
  }

  predicate HoldsHistory(line: string) {
    exists i :: 0 <= i < |line| && (HistoryAt(line, i) || DateAt(line, i))
  }

  /** A task heading that cannot be read as one. */
  predicate Malformed(line: string) {
    StartsWith(line, TASK) && TaskHead(line).None?
  }

  predicate StandsAt(text: string, part: string, i: nat) {
    i + |part| <= |text| && text[i..i + |part|] == part
  }

  predicate Contains(text: string, part: string) {
    exists i :: 0 <= i <= |text| && StandsAt(text, part, i)
  }

  predicate HasLane(lines: seq<string>, section: string) {
    exists i :: 0 <= i < |lines| && Contains(lines[i], SECTION + section)
  }

  /** Every task heading can be read, nothing is history or dated, and both lanes are there. */
  ghost predicate TextInOrder(lines: seq<string>) {
    && (forall i :: 0 <= i < |lines| ==> !Malformed(lines[i]) && !HoldsHistory(lines[i]))
    && (forall s :: 0 <= s < |PLAN_SECTIONS| ==> HasLane(lines, PLAN_SECTIONS[s]))
  }

  method TextFindings(lines: seq<string>) returns (findings: seq<Finding>)
    ensures findings == [] <==> TextInOrder(lines)
  {
    hide Malformed, HoldsHistory, HasLane;
    findings := [];
    for i := 0 to |lines|
      invariant findings == [] <==> forall k :: 0 <= k < i ==> !Malformed(lines[k]) && !HoldsHistory(lines[k])
    {
      if Malformed(lines[i]) {
        findings := findings + [MalformedHeading(i + 1)];
      }
      if HoldsHistory(lines[i]) {
        findings := findings + [HistoryOrDate(i + 1)];
      }
    }
    ghost var before := findings;
    for s := 0 to |PLAN_SECTIONS|
      invariant findings == [] <==> before == [] && forall k :: 0 <= k < s ==> HasLane(lines, PLAN_SECTIONS[k])
    {
      if !HasLane(lines, PLAN_SECTIONS[s]) {
        findings := findings + [MissingLane(PLAN_SECTIONS[s])];
      }
    }
  }

  // ---------------------------------------------------------------- the gate

  const ADHOC_GROUP := "adhoc"

  /** The capabilities of a specification, and the tasks of a plan. */
  function CapabilitiesOf(spec: seq<string>): seq<Capability> {
    RowsOf(spec, |spec|).capabilities
  }

  function PlannedTasks(plan: seq<string>): seq<Task> {
    TasksOf(ClassifyAll(plan))
  }

  function RecordedFor(capabilities: seq<Capability>, names: seq<string>): set<string> {
    RecordedIds(names, Identifiers(capabilities) + [ADHOC_GROUP], |names|)
  }

  /** Specification, plan and records agree. */
  ghost predicate Coherent(spec: seq<string>, plan: seq<string>, names: seq<string>) {
    var capabilities, tasks := CapabilitiesOf(spec), PlannedTasks(plan);
    && capabilities != []
    && (forall i :: 0 <= i < |capabilities| ==> CapabilityInOrder(capabilities[i], ServedBy(tasks)))
    && (forall i :: 0 <= i < |tasks| ==> Documented(tasks[i]) && StatusAllowed(tasks[i]))
    && Sound(Identifiers(capabilities), tasks, RecordedFor(capabilities, names))
    && TextInOrder(plan)
  }

  /** The findings over documents that were read. */
  method CoherenceFindings(capabilities: seq<Capability>, tasks: seq<Task>, plan: seq<string>, recorded: set<string>)
    returns (findings: seq<Finding>)
    ensures findings == [] <==>
            && (forall i :: 0 <= i < |capabilities| ==> CapabilityInOrder(capabilities[i], ServedBy(tasks)))
            && (forall i :: 0 <= i < |tasks| ==> Documented(tasks[i]) && StatusAllowed(tasks[i]))
            && Sound(Identifiers(capabilities), tasks, recorded)
            && TextInOrder(plan)
  {
    hide DependenciesSound, Placed, GroupsFollow, OptionalFollows, CapabilityInOrder, Documented, StatusAllowed, TextInOrder,
         ServedBy, Distinct, Ids;
    var line := Identifiers(capabilities);
    var registry := RegistryFindings(capabilities, tasks);
    var own := TaskFindings((set c | c in line), tasks);
    var dependencies := DependencyFindings(tasks, recorded);
    var order := OrderFindings(line, tasks);
    var text := TextFindings(plan);
    findings := registry + own + dependencies + order + text;
  }

  /** Every disagreement in the specification-plan contract; a missing document hides the rest. */
  method IntegrityFindings(spec: Option<seq<string>>, plan: Option<seq<string>>, names: seq<string>)
    returns (findings: seq<Finding>)
    ensures findings == [] <==> spec.Some? && plan.Some? && Coherent(spec.value, plan.value, names)
  {
    hide RowsOf, Sound, CapabilityInOrder, Documented, StatusAllowed, TextInOrder, RecordedIds, ServedBy;
    if spec.None? || plan.None? {
      return (if spec.None? then [MissingDocument(Specification)] else []) + (if plan.None? then [MissingDocument(Plan)] else []);
    }
    var capabilities := ReadRegistry(spec.value);
    if capabilities == [] {
      return [EmptyRegistry];
    }
    var tasks := ReadPlan(plan.value);
    var recorded := ReadRecordedIds(names, Identifiers(capabilities) + [ADHOC_GROUP]);
    findings := CoherenceFindings(capabilities, tasks, plan.value, recorded);
  }

  /** Documents that pass the gate name a next task in some lane, unless the plan is empty. */
  lemma CoherentPlanNamesNextTask(spec: seq<string>, plan: seq<string>, names: seq<string>) returns (section: string)
    requires Coherent(spec, plan, names) && PlannedTasks(plan) != []
    ensures section in PLAN_SECTIONS
    ensures var tasks := PlannedTasks(plan);
      LaneLineOf(Ranked(tasks, section, CapabilityOrder(Identifiers(CapabilitiesOf(spec)))), OpenIds(tasks)).Next?
  {
    hide LaneLineOf, Ranked, OpenIds, RowsOf, TasksOf, Sound, TextInOrder, Documented, StatusAllowed, CapabilityInOrder;
    var capabilities := CapabilitiesOf(spec);
    section := GatedPlanNamesNextTask(Identifiers(capabilities), PlannedTasks(plan), RecordedFor(capabilities, names));
  }
}

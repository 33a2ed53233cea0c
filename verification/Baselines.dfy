/** Reviewed baselines with history: evaluating contracts against them, and freezing new snapshots. */
module Baselines {
  import opened Wrappers
  import opened Ordering
  import opened Snapshots
  import opened EvolutionPolicy
  import opened Versions
  import opened FieldNumbers
  import opened Contracts

  // ---------------------------------------------------------------- the registry

  /** What a registry entry leads to; a rejected document carries at least one finding. */
  datatype Document =
    | Outside
    | Missing
    | Rejected(finding: string, more: seq<string>)
    | Parsed(spec: ContractSpec)

  datatype Registry = Registry(entries: map<string, Document>, unregistered: set<string>)

  datatype Finding =
    | LeavesRoot(id: string)
    | NoFile(id: string)
    | Unregistered(path: string)
    | Invalid(id: string, finding: string)
    | IdDiffers(id: string, declared: string)
    | NoBaseline(id: string)
    | NoHistory(id: string)
    | StepRefused(id: string, error: PolicyError)
    | HistoryStepRefused(id: string, error: PolicyError)
    | NumberReused(id: string, reuse: NumberReuse)
    | StaleBaseline(id: string)

  function Loaded(registry: Registry): map<string, ContractSpec> {
    map id | id in registry.entries && registry.entries[id].Parsed? && registry.entries[id].spec.contractId == id
      :: registry.entries[id].spec
  }

  function EntryFindings(id: string, document: Document): set<Finding> {
    match document
    case Outside => {LeavesRoot(id)}
    case Missing => {NoFile(id)}
    case Rejected(finding, more) => {Invalid(id, finding)} + set m | m in more :: Invalid(id, m)
    case Parsed(spec) => if spec.contractId == id then {} else {IdDiffers(id, spec.contractId)}
  }

  function LoadFindings(registry: Registry): set<Finding> {
    (set path | path in registry.unregistered :: Unregistered(path)) +
    (set id, f | id in registry.entries && f in EntryFindings(id, registry.entries[id]) :: f)
  }

  /** Every entry leads to a contract with its id, and no contract lies beside the registry. */
  predicate EverythingLoads(registry: Registry) {
    registry.unregistered == {} &&
    forall id :: id in registry.entries ==> registry.entries[id].Parsed? && registry.entries[id].spec.contractId == id
  }

  lemma NoEntryFinding(id: string, document: Document)
    ensures EntryFindings(id, document) == {} <==> document.Parsed? && document.spec.contractId == id
  {
    assert document.Rejected? ==> Invalid(id, document.finding) in EntryFindings(id, document);
  }

  /** Loading finds nothing exactly when everything loads, and then every registered contract is loaded. */
  lemma CleanLoadIsComplete(registry: Registry)
    ensures LoadFindings(registry) == {} <==> EverythingLoads(registry)
    ensures LoadFindings(registry) == {} ==> Loaded(registry).Keys == registry.entries.Keys
  {
    hide EntryFindings;
    forall id | id in registry.entries
      ensures EntryFindings(id, registry.entries[id]) == {} <==>
              registry.entries[id].Parsed? && registry.entries[id].spec.contractId == id
    {
      NoEntryFinding(id, registry.entries[id]);
    }
    assert forall path :: path in registry.unregistered ==> Unregistered(path) in LoadFindings(registry);
    if LoadFindings(registry) == {} {
      forall id | id in registry.entries ensures EntryFindings(id, registry.entries[id]) == {} {
        assert forall f :: f in EntryFindings(id, registry.entries[id]) ==> f in LoadFindings(registry);
      }
    }
  }

  // ---------------------------------------------------------------- what a check and a freeze find

  /** A committed baseline: the latest snapshot and the reviewed history, unless it is unusable. */
  datatype Baseline = Baseline(latest: Snapshot, history: Option<seq<Snapshot>>)

  type Files = map<string, Baseline>

  /** None when there is no baseline file; empty when it holds no history. */
  function LoadHistory(files: Files, id: string): Option<seq<Snapshot>> {
    if id in files then Some(files[id].history.GetOr([])) else None
  }

  function Refusals(id: string, errors: seq<PolicyError>): set<Finding> {
    set e | e in errors :: StepRefused(id, e)
  }

  function HistoryRefusals(id: string, errors: seq<PolicyError>): set<Finding> {
    set e | e in errors :: HistoryStepRefused(id, e)
  }

  function Reused(id: string, reuses: set<NumberReuse>): set<Finding> {
    set r | r in reuses :: NumberReused(id, r)
  }

  function Last(history: seq<Snapshot>): Snapshot
    requires history != []
  {
    history[|history| - 1]
  }

  function HistoryFindings(id: string, history: seq<Snapshot>, n: nat): set<Finding>
    requires n <= |history|
  {
    if n < 2 then {}
    else
      HistoryFindings(id, history, n - 1) + HistoryRefusals(id, StepErrors(history[n - 2], history[n - 1]))
  }

  function ContractFindings(files: Files, id: string, current: Snapshot): set<Finding> {
    match LoadHistory(files, id)
    case None => {NoBaseline(id)}
    case Some(history) =>
      if history == [] then {NoHistory(id)}
      else
        Refusals(id, StepErrors(Last(history), current)) + HistoryFindings(id, history, |history|) +
        Reused(id, NumberErrors(history + [current]))
  }

  function StaleIds(files: Files, ids: set<string>): set<string> {
    files.Keys - ids
  }

  function StaleFindings(files: Files, registry: Registry): set<Finding> {
    set id | id in StaleIds(files, registry.entries.Keys) :: StaleBaseline(id)
  }

  function Grows(history: seq<Snapshot>, current: Snapshot): bool {
    history != [] && Last(history) != current
  }

  /** The history a freeze records for a contract. */
  function NextHistory(files: Files, id: string, current: Snapshot): (history: seq<Snapshot>)
    ensures history != []
  {
    var history := LoadHistory(files, id).GetOr([]);
    if Grows(history, current) then history + [current]
    else if history == [] then [current]
    else history
  }

  /** What a freeze checks: only a snapshot that differs from the latest reviewed one. */
  function FreezeFindings(files: Files, id: string, current: Snapshot): set<Finding> {
    var history := LoadHistory(files, id).GetOr([]);
    if Grows(history, current) then
      Refusals(id, StepErrors(Last(history), current)) + Reused(id, NumberErrors(history + [current]))
    else {}
  }

  function Payload(files: Files, id: string, current: Snapshot): Baseline {
    var history := NextHistory(files, id, current);
    Baseline(Last(history), Some(history))
  }

  /** What a freeze would write, and what it refuses. */
  datatype Plan = Plan(payloads: Files, findings: set<Finding>) {
    function Add(files: Files, spec: ContractSpec): Plan {
      var id, current := spec.contractId, SchemaSnapshot(spec);
      Plan(payloads[id := Payload(files, id, current)], findings + FreezeFindings(files, id, current))
    }
  }

  function PlanOf(files: Files, start: Plan, specs: seq<ContractSpec>, n: nat): Plan
    requires n <= |specs|
  {
    if n == 0 then start else PlanOf(files, start, specs, n - 1).Add(files, specs[n - 1])
  }

  function InOrder(contracts: map<string, ContractSpec>): seq<ContractSpec> {
    var ids := Sorted(contracts.Keys);
    seq(|ids|, i requires 0 <= i < |ids| => contracts[ids[i]])
  }

  function FreezePlan(files: Files, registry: Registry): Plan {
    var specs := InOrder(Loaded(registry));
    PlanOf(files, Plan(map[], LoadFindings(registry)), specs, |specs|)
  }

  /** The store after a freeze: untouched by any finding, else exactly one baseline per contract. */
  function Frozen(files: Files, registry: Registry): Files {
    var plan := FreezePlan(files, registry);
    if plan.findings == {} then plan.payloads else files
  }

  // ---------------------------------------------------------------- what a freeze accepts

  /**
   A contract may be recorded behind a history that is empty or already ends with its snapshot, and
   otherwise exactly with the bump its change requires and without disputing a number.
   */
  ghost predicate Recordable(history: seq<Snapshot>, spec: ContractSpec) {
    var current := SchemaSnapshot(spec);
    || history == []
    || Last(history) == current
    || (&& Bumps(ParseVersion(Last(history).version), ParseVersion(spec.version), ClassOf(Last(history), current))
        && NumbersOwned(history + [current]))
  }

  /** The reviewed history of a contract, empty if there is none. */
  function HistoryOf(files: Files, id: string): seq<Snapshot> {
    if id in files && files[id].history.Some? then files[id].history.value else []
  }

  /** No refusal among the step findings exactly when the step passes. */
  lemma NoRefusals(id: string, errors: seq<PolicyError>)
    ensures Refusals(id, errors) == {} <==> errors == []
  {
    if errors != [] {
      assert StepRefused(id, errors[0]) in Refusals(id, errors);
    }
  }

  lemma NoneReused(id: string, reuses: set<NumberReuse>)
    ensures Reused(id, reuses) == {} <==> reuses == {}
  {
    if r :| r in reuses {
      assert NumberReused(id, r) in Reused(id, reuses);
    }
  }

  /** A freeze finds nothing about a contract exactly when it may be recorded. */
  lemma AcceptedExactly(files: Files, spec: ContractSpec)
    ensures Accepted(files, spec) <==> Recordable(HistoryOf(files, spec.contractId), spec)
  {
    hide ClassOf, NumberErrors, NumbersOwned, FieldSnapshots, ParseVersion, Bumps;
    var id, current := spec.contractId, SchemaSnapshot(spec);
    var history := HistoryOf(files, id);
    assert LoadHistory(files, id).GetOr([]) == history;
    if Grows(history, current) {
      NoRefusals(id, StepErrors(Last(history), current));
      NoneReused(id, NumberErrors(history + [current]));
      NoReuseMeansOwned(history + [current]);
    }
  }

  /** The baseline of a contract: its snapshot, once more at the end of the history unless it ends so already. */
  predicate Records(baseline: Baseline, history: seq<Snapshot>, current: Snapshot) {
    baseline == Baseline(current, Some(if history != [] && Last(history) == current then history else history + [current]))
  }

  lemma PayloadRecords(files: Files, id: string, current: Snapshot)
    ensures Records(Payload(files, id, current), HistoryOf(files, id), current)
  {
    assert HistoryOf(files, id) == [] ==> HistoryOf(files, id) + [current] == [current];
  }

  // ---------------------------------------------------------------- what a plan amounts to

  predicate Accepted(files: Files, spec: ContractSpec) {
    FreezeFindings(files, spec.contractId, SchemaSnapshot(spec)) == {}
  }

  predicate Planned(files: Files, plan: Plan, spec: ContractSpec) {
    spec.contractId in plan.payloads &&
    plan.payloads[spec.contractId] == Payload(files, spec.contractId, SchemaSnapshot(spec))
  }

  ghost predicate DistinctIds(specs: seq<ContractSpec>) {
    forall i, j :: 0 <= i < j < |specs| ==> specs[i].contractId != specs[j].contractId
  }

  lemma {:induction false} PlanAccepts(files: Files, start: Plan, specs: seq<ContractSpec>, n: nat)
    requires n <= |specs|
    ensures PlanOf(files, start, specs, n).findings == {} <==>
            start.findings == {} && forall i :: 0 <= i < n ==> Accepted(files, specs[i])
  {
    hide FreezeFindings, Payload;
    if n > 0 {
      PlanAccepts(files, start, specs, n - 1);
    }
  }

  lemma {:induction false} PlanCovers(files: Files, start: Plan, specs: seq<ContractSpec>, n: nat)
    requires n <= |specs| && DistinctIds(specs) && start.payloads == map[]
    ensures forall i :: 0 <= i < n ==> Planned(files, PlanOf(files, start, specs, n), specs[i])
    ensures PlanOf(files, start, specs, n).payloads.Keys == set i | 0 <= i < n :: specs[i].contractId
  {
    hide FreezeFindings, Payload, SchemaSnapshot;
    if n > 0 {
      PlanCovers(files, start, specs, n - 1);
    }
  }

  lemma InOrderExact(registry: Registry)
    ensures var specs, contracts := InOrder(Loaded(registry)), Loaded(registry);
      && DistinctIds(specs)
      && (forall i :: 0 <= i < |specs| ==> specs[i].contractId in contracts && contracts[specs[i].contractId] == specs[i])
      && (forall id :: id in contracts ==> contracts[id] in specs)
  {
    var contracts := Loaded(registry);
    var ids := Sorted(contracts.Keys);
    SortedIsSorted(contracts.Keys);
    forall id | id in contracts ensures contracts[id] in InOrder(contracts) {
      var i :| 0 <= i < |ids| && ids[i] == id;
      assert InOrder(contracts)[i] == contracts[id];
    }
  }

  /** A freeze succeeds exactly when everything loads and no contract is refused. */
  lemma FreezeSucceeds(files: Files, registry: Registry)
    ensures FreezePlan(files, registry).findings == {} <==>
            LoadFindings(registry) == {} &&
            forall id :: id in Loaded(registry) ==> Accepted(files, Loaded(registry)[id])
  {
    var specs := InOrder(Loaded(registry));
    InOrderExact(registry);
    PlanAccepts(files, Plan(map[], LoadFindings(registry)), specs, |specs|);
  }

  /** A freeze writes one payload per loaded contract, and no other. */
  lemma FreezeWrites(files: Files, registry: Registry)
    ensures var plan := FreezePlan(files, registry);
      && plan.payloads.Keys == Loaded(registry).Keys
      && forall id :: id in Loaded(registry) ==> Planned(files, plan, Loaded(registry)[id])
  {
    var specs := InOrder(Loaded(registry));
    InOrderExact(registry);
    PlanCovers(files, Plan(map[], LoadFindings(registry)), specs, |specs|);
    forall id | id in Loaded(registry) ensures Planned(files, FreezePlan(files, registry), Loaded(registry)[id]) {
      var i :| 0 <= i < |specs| && specs[i] == Loaded(registry)[id];
    }
  }

  /**
   A freeze succeeds exactly when everything loads and every contract may be recorded, and then leaves
   for each of them its history with its snapshot at the end.
   */
  lemma FreezeOutcome(files: Files, registry: Registry)
    ensures FreezePlan(files, registry).findings == {} <==>
            EverythingLoads(registry) &&
            forall id :: id in registry.entries ==> Recordable(HistoryOf(files, id), registry.entries[id].spec)
    ensures FreezePlan(files, registry).findings == {} ==>
      && Frozen(files, registry).Keys == Loaded(registry).Keys == registry.entries.Keys
      && forall id :: id in registry.entries ==>
           Records(Frozen(files, registry)[id], HistoryOf(files, id), SchemaSnapshot(registry.entries[id].spec))
    ensures FreezePlan(files, registry).findings != {} ==> Frozen(files, registry) == files
  {
    hide Recordable, Records, LoadFindings, Accepted, Payload, HistoryOf, FreezePlan;
    FreezeSucceeds(files, registry);
    FreezeWrites(files, registry);
    CleanLoadIsComplete(registry);
    if EverythingLoads(registry) {
      forall id | id in registry.entries
        ensures Accepted(files, Loaded(registry)[id]) <==> Recordable(HistoryOf(files, id), registry.entries[id].spec)
        ensures Records(FreezePlan(files, registry).payloads[id], HistoryOf(files, id),
                        SchemaSnapshot(registry.entries[id].spec))
      {
        var spec := registry.entries[id].spec;
        assert Loaded(registry)[id] == spec;
        AcceptedExactly(files, spec);
        PayloadRecords(files, id, SchemaSnapshot(spec));
        assert Planned(files, FreezePlan(files, registry), spec);
      }
    }
  }

  // ---------------------------------------------------------------- the committed store

  datatype ContractEvolution = ContractEvolution(
    contractId: string,
    baselineVersion: Option<string>,
    currentVersion: string,
    changeClass: ChangeClass,
    details: seq<Detail>,
    errors: set<Finding>,
    historyVersions: seq<string>)

  datatype EvolutionReport = EvolutionReport(contracts: seq<ContractEvolution>, errors: set<Finding>) {
    predicate Ok() {
      errors == {} && forall i :: 0 <= i < |contracts| ==> contracts[i].errors == {}
    }
  }

  method HistoryErrors(id: string, history: seq<Snapshot>) returns (errors: set<Finding>)
    ensures errors == HistoryFindings(id, history, |history|)
  {
    hide ClassOf, ChangeDetails, VersionPolicyErrors, HistoryRefusals;
    errors := {};
    for i := 0 to |history|
      invariant errors == HistoryFindings(id, history, i)
    {
      if i == 0 {
        continue;
      }
      var change := ClassifyChange(history[i - 1], history[i]);
      var refused := VersionPolicyErrors(history[i - 1].version, history[i].version, change.changeClass);
      errors := errors + HistoryRefusals(id, refused);
    }
  }

  class BaselineStore {
    var files: Files

    constructor (files: Files)
      ensures this.files == files
    {
      this.files := files;
    }

    /** Check one contract against its reviewed history. */
    method Evaluate(id: string, spec: ContractSpec) returns (result: ContractEvolution)
      requires spec.contractId == id
      ensures result.errors == ContractFindings(files, id, SchemaSnapshot(spec))
      ensures var history := LoadHistory(files, id).GetOr([]);
        history != [] ==>
        && result.changeClass == ClassOf(Last(history), SchemaSnapshot(spec))
        && result.details == ChangeDetails(Last(history), SchemaSnapshot(spec))
        && result.baselineVersion == Some(Last(history).version)
        && |result.historyVersions| == |history|
        && forall i :: 0 <= i < |history| ==> result.historyVersions[i] == history[i].version
      ensures LoadHistory(files, id).GetOr([]) == [] ==>
        result.baselineVersion == None && result.changeClass == Breaking && result.historyVersions == []
      ensures result.contractId == id && result.currentVersion == spec.version
    {
      var current := SchemaSnapshot(spec);
      var loaded := LoadHistory(files, id);
      if loaded.None? {
        return ContractEvolution(id, None, spec.version, Breaking, [], {NoBaseline(id)}, []);
      }
      var history := loaded.value;
      if history == [] {
        return ContractEvolution(id, None, spec.version, Breaking, [], {NoHistory(id)}, []);
      }
      var latest := Last(history);
      var change := ClassifyChange(latest, current);
      var errors := Refusals(id, VersionPolicyErrors(latest.version, current.version, change.changeClass));
      var inHistory := HistoryErrors(id, history);
      var reuses := ProtoNumberErrors(history + [current]);
      result := ContractEvolution(id, Some(latest.version), spec.version, change.changeClass, change.details,
                                  errors + inHistory + Reused(id, reuses),
                                  seq(|history|, i requires 0 <= i < |history| => history[i].version));
    }

    /** The report has nothing to say exactly when every contract is clean and no baseline is stale. */
    lemma CleanReport(files: Files, registry: Registry, report: EvolutionReport)
      requires report.errors == LoadFindings(registry) + StaleFindings(files, registry)
      requires |report.contracts| == |Sorted(Loaded(registry).Keys)|
      requires forall i :: 0 <= i < |report.contracts| ==>
        var id := Sorted(Loaded(registry).Keys)[i];
        report.contracts[i].errors == ContractFindings(files, id, SchemaSnapshot(Loaded(registry)[id]))
      ensures report.Ok() <==> Clean(files, registry)
    {
      hide ContractFindings;
      var ids := Sorted(Loaded(registry).Keys);
      SortedIsSorted(Loaded(registry).Keys);
      var stale := StaleIds(files, registry.entries.Keys);
      if stale != {} {
        var id :| id in stale;
        assert StaleBaseline(id) in report.errors;
      }
      if report.Ok() {
        forall id | id in Loaded(registry)
          ensures ContractFindings(files, id, SchemaSnapshot(Loaded(registry)[id])) == {}
        {
          var i :| 0 <= i < |ids| && ids[i] == id;
          assert report.contracts[i].errors == {};
        }
      }
    }

    /** Check every registered contract against its committed baseline. */
    method CheckEvolution(registry: Registry) returns (report: EvolutionReport)
      ensures report.Ok() <==> Clean(files, registry)
      ensures report.errors == LoadFindings(registry) + StaleFindings(files, registry)
      ensures var ids := Sorted(Loaded(registry).Keys);
        && |report.contracts| == |ids|
        && forall i :: 0 <= i < |ids| ==>
             && report.contracts[i].contractId == ids[i]
             && report.contracts[i].errors == ContractFindings(files, ids[i], SchemaSnapshot(Loaded(registry)[ids[i]]))
    {
      var contracts := Loaded(registry);
      var ids := Sorted(contracts.Keys);
      var evolutions: seq<ContractEvolution> := [];
      for i := 0 to |ids|
        invariant |evolutions| == i
        invariant forall k :: 0 <= k < i ==>
          && evolutions[k].contractId == ids[k]
          && evolutions[k].errors == ContractFindings(files, ids[k], SchemaSnapshot(contracts[ids[k]]))
      {
        var evolution := Evaluate(ids[i], contracts[ids[i]]);
        evolutions := evolutions + [evolution];
      }
      report := EvolutionReport(evolutions, LoadFindings(registry) + StaleFindings(files, registry));
      CleanReport(files, registry, report);
    }

    /** The snapshot of one contract, appended to its history when it differs from the latest one. */
    method Prepare(spec: ContractSpec) returns (payload: Baseline, errors: set<Finding>)
      ensures payload == Payload(files, spec.contractId, SchemaSnapshot(spec))
      ensures errors == FreezeFindings(files, spec.contractId, SchemaSnapshot(spec))
    {
      var id, current := spec.contractId, SchemaSnapshot(spec);
      var history := LoadHistory(files, id).GetOr([]);
      errors := {};
      if history != [] && Last(history) != current {
        var change := ClassifyChange(Last(history), current);
        errors := Refusals(id, VersionPolicyErrors(Last(history).version, current.version, change.changeClass));
        var reuses := ProtoNumberErrors(history + [current]);
        errors := errors + Reused(id, reuses);
        history := history + [current];
      } else if history == [] {
        history := [current];
      }
      payload := Baseline(Last(history), Some(history));
    }

    /** Write the payloads, then remove every baseline without a loaded contract. */
    method Write(payloads: Files, ids: seq<string>) returns (written: seq<string>)
      requires forall id :: id in ids <==> id in payloads
      modifies this
      ensures files == payloads && written == ids
    {
      written := [];
      for i := 0 to |ids|
        invariant written == ids[..i]
        invariant forall k :: 0 <= k < i ==> ids[k] in files && files[ids[k]] == payloads[ids[k]]
      {
        files := files[ids[i] := payloads[ids[i]]];
        written := written + [ids[i]];
      }
      forall id | id in payloads ensures id in files && files[id] == payloads[id] {
        assert id in ids;
      }
      files := files - StaleIds(files, payloads.Keys);
      assert files == payloads;
    }

    /** Record reviewed snapshots and prune stale baselines; refuse policy violations. */
    method FreezeBaselines(registry: Registry) returns (written: seq<string>, errors: set<Finding>)
      modifies this
      ensures errors == FreezePlan(old(files), registry).findings
      ensures files == Frozen(old(files), registry)
      ensures errors == {} <==>
              EverythingLoads(registry) &&
              forall id :: id in registry.entries ==> Recordable(HistoryOf(old(files), id), registry.entries[id].spec)
      ensures errors != {} ==> written == [] && files == old(files)
      ensures errors == {} ==> written == Sorted(registry.entries.Keys) && files.Keys == registry.entries.Keys
      ensures errors == {} ==>
        forall id :: id in registry.entries ==>
          Records(files[id], HistoryOf(old(files), id), SchemaSnapshot(registry.entries[id].spec))
    {
      FreezeOutcome(files, registry);
      hide Recordable, Records, EverythingLoads, LoadFindings, HistoryOf;
      var specs := InOrder(Loaded(registry));
      var plan := Plan(map[], LoadFindings(registry));
      ghost var start := plan;
      for i := 0 to |specs|
        invariant files == old(files)
        invariant plan == PlanOf(files, start, specs, i)
      {
        var payload, refused := Prepare(specs[i]);
        plan := Plan(plan.payloads[specs[i].contractId := payload], plan.findings + refused);
      }
      if plan.findings != {} {
        return [], plan.findings;
      }
      errors := {};
      FreezeWrites(files, registry);
      SortedIsSorted(Loaded(registry).Keys);
      written := Write(plan.payloads, Sorted(Loaded(registry).Keys));
    }
  }

  /** Nothing for the check to report. */
  ghost predicate Clean(files: Files, registry: Registry) {
    && LoadFindings(registry) == {}
    && (forall id :: id in Loaded(registry) ==>
          ContractFindings(files, id, SchemaSnapshot(Loaded(registry)[id])) == {})
    && StaleIds(files, registry.entries.Keys) == {}
  }
}

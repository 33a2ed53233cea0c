/** What every sequence of contract edits and freezes keeps. */
module BaselineRuns {
  import opened Wrappers
  import opened Snapshots
  import opened EvolutionPolicy
  import opened Versions
  import opened AllPairs
  import opened FieldNumbers
  import opened Readability
  import opened Contracts
  import opened Baselines

  /** A reviewed history: policy-conforming steps, and no number that ever named two fields. */
  ghost predicate Conforming(history: seq<Snapshot>) {
    history != [] && AllWellFormed(history) && AdjacentConform(history) && NumbersOwned(history)
  }

  ghost predicate ConformingBaseline(baseline: Baseline) {
    && baseline.history.Some?
    && Conforming(baseline.history.value)
    && baseline.latest == Last(baseline.history.value)
  }

  ghost predicate ConformingStore(files: Files) {
    forall id :: id in files ==> ConformingBaseline(files[id])
  }

  /** Contracts that pass the authoring rules on records. */
  ghost predicate Authored(registry: Registry) {
    forall id :: id in Loaded(registry) ==> RecordRules(Loaded(registry)[id].fields)
  }

  /** Contracts whose field numbers pass the generator check as well. */
  ghost predicate Checked(registry: Registry) {
    Authored(registry) &&
    forall id :: id in Loaded(registry) ==>
      WellNumbered(Loaded(registry)[id].fields, Loaded(registry)[id].reserved, Loaded(registry)[id].reservedNames)
  }

  // ---------------------------------------------------------------- one contract

  lemma AdjacentMore(history: seq<Snapshot>, current: Snapshot)
    requires history != []
    ensures AdjacentConform(history + [current]) <==>
            AdjacentConform(history) && StepErrors(Last(history), current) == []
  {
    hide StepErrors;
    var more := history + [current];
    assert forall i :: 0 <= i < |history| ==> more[i] == history[i];
    assert more[|history| - 1] == Last(history) && more[|history|] == current;
    if AdjacentConform(more) {
      forall i | 0 <= i < |history| - 1 ensures StepErrors(history[i], history[i + 1]) == [] {
        assert StepErrors(more[i], more[i + 1]) == [];
      }
      assert StepErrors(more[|history| - 1], more[|history| - 1 + 1]) == [];
    }
    if AdjacentConform(history) && StepErrors(Last(history), current) == [] {
      forall i | 0 <= i < |more| - 1 ensures StepErrors(more[i], more[i + 1]) == [] {
        if i < |history| - 1 { assert StepErrors(history[i], history[i + 1]) == []; }
      }
    }
  }

  lemma {:induction false} NoHistoryFindings(id: string, history: seq<Snapshot>, n: nat)
    requires n <= |history|
    ensures HistoryFindings(id, history, n) == {} <==>
            forall i :: 0 <= i < n - 1 ==> StepErrors(history[i], history[i + 1]) == []
  {
    hide StepErrors;
    if n >= 2 {
      NoHistoryFindings(id, history, n - 1);
      var errors := StepErrors(history[n - 2], history[n - 2 + 1]);
      if errors != [] {
        assert HistoryStepRefused(id, errors[0]) in HistoryFindings(id, history, n);
      }
    }
  }

  /** Adjacent steps that pass, and no number that ever named two fields. */
  ghost predicate Reviewed(history: seq<Snapshot>) {
    AdjacentConform(history) && NumbersOwned(history)
  }

  /** A contract passes the check exactly when it has a history, reviewed with the current snapshot appended. */
  lemma CheckedContract(files: Files, id: string, current: Snapshot)
    ensures var history := LoadHistory(files, id).GetOr([]);
      ContractFindings(files, id, current) == {} <==> history != [] && Reviewed(history + [current])
  {
    hide StepErrors, NumberErrors, NumbersOwned, AdjacentConform;
    var history := LoadHistory(files, id).GetOr([]);
    if history != [] {
      NoRefusals(id, StepErrors(Last(history), current));
      NoHistoryFindings(id, history, |history|);
      AdjacentMeans(history);
      NoneReused(id, NumberErrors(history + [current]));
      NoReuseMeansOwned(history + [current]);
      AdjacentMore(history, current);
    }
  }

  /**
   The check has nothing to report exactly when everything loads, every contract has a history that is
   reviewed with its snapshot appended, and no baseline is left over.
   */
  lemma CleanExactly(files: Files, registry: Registry)
    ensures Clean(files, registry) <==>
      && EverythingLoads(registry)
      && files.Keys == registry.entries.Keys
      && forall id :: id in registry.entries ==>
           HistoryOf(files, id) != [] && Reviewed(HistoryOf(files, id) + [SchemaSnapshot(registry.entries[id].spec)])
  {
    hide ContractFindings, LoadFindings, Reviewed, SchemaSnapshot;
    CleanLoadIsComplete(registry);
    if EverythingLoads(registry) {
      forall id | id in registry.entries
        ensures Loaded(registry)[id] == registry.entries[id].spec
        ensures ContractFindings(files, id, SchemaSnapshot(Loaded(registry)[id])) == {} <==>
                HistoryOf(files, id) != [] && Reviewed(HistoryOf(files, id) + [SchemaSnapshot(registry.entries[id].spec)])
      {
        CheckedContract(files, id, SchemaSnapshot(registry.entries[id].spec));
      }
      NoStale(files, registry.entries.Keys);
    }
  }

  lemma NoStale(files: Files, ids: set<string>)
    ensures StaleIds(files, ids) == {} <==> files.Keys <= ids
  {
    assert forall id :: id in files && id !in ids ==> id in StaleIds(files, ids);
  }

  lemma AdjacentMeans(history: seq<Snapshot>)
    ensures AdjacentConform(history) <==>
            forall i :: 0 <= i < |history| - 1 ==> StepErrors(history[i], history[i + 1]) == []
  {
  }

  /**
   A contract of well-formed snapshots passes the check exactly when it has a reviewed history and, with
   the current snapshot appended, every pair of versions conforms and no number is disputed.
   */
  lemma CleanContract(files: Files, id: string, current: Snapshot)
    requires var history := LoadHistory(files, id).GetOr([]); AllWellFormed(history + [current])
    ensures var history := LoadHistory(files, id).GetOr([]);
      ContractFindings(files, id, current) == {} <==>
      history != [] && EveryPairConforms(history + [current]) && NumbersOwned(history + [current])
  {
    hide ContractFindings, NumbersOwned, AdjacentConform, EveryPairConforms;
    CheckedContract(files, id, current);
    AdjacentChecksCoverEveryPair(LoadHistory(files, id).GetOr([]) + [current]);
  }

  /** From a conforming history a freeze accepts a contract exactly when the history it leaves conforms again. */
  lemma AcceptedHistoryConforms(files: Files, spec: ContractSpec)
    requires var id := spec.contractId; id in files ==> ConformingBaseline(files[id])
    requires RecordRules(spec.fields)
    requires spec.contractId !in files ==> NumbersOwned([SchemaSnapshot(spec)])
    ensures Accepted(files, spec) <==> Conforming(NextHistory(files, spec.contractId, SchemaSnapshot(spec)))
  {
    hide StepErrors, NumberErrors, SchemaSnapshot;
    var id, current := spec.contractId, SchemaSnapshot(spec);
    var history := LoadHistory(files, id).GetOr([]);
    SnapshotIsWellFormed(spec);
    if Grows(history, current) {
      NoRefusals(id, StepErrors(Last(history), current));
      NoneReused(id, NumberErrors(history + [current]));
      NoReuseMeansOwned(history + [current]);
      AdjacentMore(history, current);
    }
  }

  // ---------------------------------------------------------------- one freeze

  lemma FrozenIs(files: Files, registry: Registry)
    ensures var succeeds := FreezePlan(files, registry).findings == {};
      && (!succeeds ==> Frozen(files, registry) == files)
      && (succeeds ==>
            && LoadFindings(registry) == {}
            && Frozen(files, registry).Keys == Loaded(registry).Keys
            && forall id :: id in Loaded(registry) ==>
                 && Loaded(registry)[id].contractId == id
                 && Accepted(files, Loaded(registry)[id])
                 && Frozen(files, registry)[id] == Payload(files, id, SchemaSnapshot(Loaded(registry)[id])))
  {
    hide FreezeFindings, Payload, LoadFindings;
    FreezeSucceeds(files, registry);
    FreezeWrites(files, registry);
    forall id | id in Loaded(registry)
      ensures FreezePlan(files, registry).payloads[id] == Payload(files, id, SchemaSnapshot(Loaded(registry)[id]))
    {
      assert Planned(files, FreezePlan(files, registry), Loaded(registry)[id]);
    }
  }

  /** Histories stay conforming through any freeze, accepted or refused. */
  lemma FreezeKeepsConforming(files: Files, registry: Registry)
    requires ConformingStore(files) && Checked(registry)
    ensures ConformingStore(Frozen(files, registry))
  {
    hide FreezeFindings, LoadFindings, Frozen;
    FrozenIs(files, registry);
    if FreezePlan(files, registry).findings == {} {
      forall id | id in Loaded(registry) ensures ConformingBaseline(Frozen(files, registry)[id]) {
        var spec := Loaded(registry)[id];
        CheckedContractOwnsNumbers(spec);
        AcceptedHistoryConforms(files, spec);
      }
    }
  }

  /** A second freeze of the same contracts finds nothing and changes nothing, whatever the store held. */
  lemma FreezeIsIdempotent(files: Files, registry: Registry)
    requires FreezePlan(files, registry).findings == {}
    ensures var frozen := Frozen(files, registry);
      FreezePlan(frozen, registry).findings == {} && Frozen(frozen, registry) == frozen
  {
    hide Frozen, LoadFindings;
    var frozen := Frozen(files, registry);
    FrozenIs(files, registry);
    forall id | id in Loaded(registry)
      ensures Accepted(frozen, Loaded(registry)[id])
      ensures Payload(frozen, id, SchemaSnapshot(Loaded(registry)[id])) == frozen[id]
    {
      NothingNew(files, frozen, id, SchemaSnapshot(Loaded(registry)[id]));
    }
    FreezeSucceeds(frozen, registry);
    FrozenIs(frozen, registry);
  }

  lemma NothingNew(files: Files, frozen: Files, id: string, current: Snapshot)
    requires id in frozen && frozen[id] == Payload(files, id, current)
    ensures !Grows(frozen[id].history.value, current)
    ensures FreezeFindings(frozen, id, current) == {} && Payload(frozen, id, current) == frozen[id]
  {
  }

  /**
   After a successful freeze the check is clean exactly when every history it leaves is reviewed. The
   freeze itself looks only at the last step, so the store it starts from decides.
   */
  lemma FreezeThenCheck(files: Files, registry: Registry)
    requires FreezePlan(files, registry).findings == {}
    ensures Clean(Frozen(files, registry), registry) <==>
            forall id :: id in Loaded(registry) ==>
              Reviewed(NextHistory(files, id, SchemaSnapshot(Loaded(registry)[id])))
  {
    hide Frozen, LoadFindings, ContractFindings, FreezeFindings, Reviewed, NextHistory;
    var frozen := Frozen(files, registry);
    FrozenIs(files, registry);
    CleanLoadIsComplete(registry);
    forall id | id in Loaded(registry)
      ensures ContractFindings(frozen, id, SchemaSnapshot(Loaded(registry)[id])) == {} <==>
              Reviewed(NextHistory(files, id, SchemaSnapshot(Loaded(registry)[id])))
    {
      FrozenContractIsClean(files, frozen, id, SchemaSnapshot(Loaded(registry)[id]));
    }
    assert StaleIds(frozen, registry.entries.Keys) == {};
  }

  lemma FrozenContractIsClean(files: Files, frozen: Files, id: string, current: Snapshot)
    requires id in frozen && frozen[id] == Payload(files, id, current)
    ensures ContractFindings(frozen, id, current) == {} <==> Reviewed(NextHistory(files, id, current))
  {
    hide StepErrors, ContractFindings, NumbersOwned, AdjacentConform;
    var history := NextHistory(files, id, current);
    assert Last(history) == current && LoadHistory(frozen, id).GetOr([]) == history;
    RepeatedSnapshot(history);
    AdjacentMore(history, current);
    CheckedContract(frozen, id, current);
  }

  /** Repeating the latest snapshot is an accepted step and disputes no number. */
  lemma RepeatedSnapshot(history: seq<Snapshot>)
    requires history != []
    ensures StepErrors(Last(history), Last(history)) == []
    ensures NumbersOwned(history + [Last(history)]) <==> NumbersOwned(history)
  {
    hide ClassOf, ParseVersion;
    var last := Last(history);
    RepeatIsIdentical(last);
    assert Bumps(ParseVersion(last.version), ParseVersion(last.version), Identical);
    forall use ensures UsedIn(history + [last], use) <==> UsedIn(history, use) {
      UsedOnceMore(history, use);
    }
  }

  lemma UsedOnceMore(history: seq<Snapshot>, use: Use)
    requires history != []
    ensures UsedIn(history + [Last(history)], use) <==> UsedIn(history, use)
  {
    hide UsedBySchema;
    var more := history + [Last(history)];
    if UsedIn(history, use) {
      var i :| 0 <= i < |history| && UsedBySchema(history[i].Declared(), "", use);
      assert more[i] == history[i];
    }
    if UsedIn(more, use) {
      var i :| 0 <= i < |more| && UsedBySchema(more[i].Declared(), "", use);
      assert more[i] == history[if i < |history| then i else |history| - 1];
    }
  }

  /**
   From conforming histories the check after a successful freeze is clean exactly when every contract
   recorded for the first time, which is recorded unchecked, disputes no number of its own.
   */
  lemma FirstFreezeDecides(files: Files, registry: Registry)
    requires ConformingStore(files) && Authored(registry)
    requires FreezePlan(files, registry).findings == {}
    ensures Clean(Frozen(files, registry), registry) <==>
            forall id :: id in Loaded(registry) && id !in files ==>
              NumbersOwned([SchemaSnapshot(Loaded(registry)[id])])
  {
    hide Frozen, LoadFindings, ContractFindings, FreezeFindings, Reviewed, NextHistory, NumbersOwned, Clean;
    FrozenIs(files, registry);
    FreezeThenCheck(files, registry);
    forall id | id in Loaded(registry)
      ensures Reviewed(NextHistory(files, id, SchemaSnapshot(Loaded(registry)[id]))) <==>
              (id !in files ==> NumbersOwned([SchemaSnapshot(Loaded(registry)[id])]))
    {
      NextIsReviewed(files, Loaded(registry)[id]);
    }
  }

  lemma NextIsReviewed(files: Files, spec: ContractSpec)
    requires var id := spec.contractId; id in files ==> ConformingBaseline(files[id])
    requires RecordRules(spec.fields) && Accepted(files, spec)
    ensures Reviewed(NextHistory(files, spec.contractId, SchemaSnapshot(spec))) <==>
            (spec.contractId !in files ==> NumbersOwned([SchemaSnapshot(spec)]))
  {
    hide StepErrors, SchemaSnapshot, NumbersOwned, RecordRules;
    if spec.contractId in files {
      AcceptedHistoryConforms(files, spec);
    }
  }

  /** From conforming histories a successful freeze of number-checked contracts leaves nothing to find. */
  lemma CheckedFreezeIsClean(files: Files, registry: Registry)
    requires ConformingStore(files) && Checked(registry)
    requires FreezePlan(files, registry).findings == {}
    ensures Clean(Frozen(files, registry), registry)
  {
    hide Frozen, LoadFindings, FreezePlan, Clean, NumbersOwned, ConformingStore, WellNumbered;
    forall id | id in Loaded(registry) ensures NumbersOwned([SchemaSnapshot(Loaded(registry)[id])]) {
      CheckedContractOwnsNumbers(Loaded(registry)[id]);
    }
    FirstFreezeDecides(files, registry);
  }

  // ---------------------------------------------------------------- all runs

  /** The store after freezing each registry state in turn; edits between freezes are arbitrary. */
  ghost function Run(files: Files, states: seq<Registry>): Files {
    if states == [] then files else Frozen(Run(files, states[..|states| - 1]), states[|states| - 1])
  }

  ghost predicate AllChecked(states: seq<Registry>) {
    forall i :: 0 <= i < |states| ==> Checked(states[i])
  }

  /** The freeze invariant: whatever is edited and frozen, every committed history conforms. */
  lemma {:induction false} EveryRunConforms(files: Files, states: seq<Registry>)
    requires ConformingStore(files) && AllChecked(states)
    ensures ConformingStore(Run(files, states))
  {
    if states != [] {
      EveryRunConforms(files, states[..|states| - 1]);
      FreezeKeepsConforming(Run(files, states[..|states| - 1]), states[|states| - 1]);
    }
  }

  /** Reviewed snapshots are never rewritten or dropped while their contract stays registered. */
  lemma {:induction false} HistoriesAreAppendOnly(files: Files, states: seq<Registry>, id: string)
    requires id in files
    requires forall i :: 0 <= i < |states| && LoadFindings(states[i]) == {} ==> id in states[i].entries
    ensures id in Run(files, states)
    ensures files[id].history.GetOr([]) <= Run(files, states)[id].history.GetOr([])
  {
    if states != [] {
      var before, last := Run(files, states[..|states| - 1]), states[|states| - 1];
      HistoriesAreAppendOnly(files, states[..|states| - 1], id);
      FreezeAppends(before, last, id);
    }
  }

  lemma FreezeAppends(files: Files, registry: Registry, id: string)
    requires id in files
    requires LoadFindings(registry) == {} ==> id in registry.entries
    ensures id in Frozen(files, registry)
    ensures files[id].history.GetOr([]) <= Frozen(files, registry)[id].history.GetOr([])
  {
    hide Frozen, LoadFindings, FreezeFindings;
    FrozenIs(files, registry);
    if FreezePlan(files, registry).findings == {} {
      CleanLoadIsComplete(registry);
    }
  }

  /** Over every run, any two reviewed snapshots of one major version read each other's messages. */
  lemma EveryRunStaysReadable(files: Files, states: seq<Registry>, id: string, reader: KindReader,
                              i: nat, j: nat, members: map<string, Datum>)
    requires ConformingStore(files) && AllChecked(states)
    requires id in Run(files, states)
    requires var history := Run(files, states)[id].history.GetOr([]);
      i < j < |history| && ParseVersion(history[i].version).major == ParseVersion(history[j].version).major
    ensures var history := Run(files, states)[id].history.GetOr([]);
      && (Accepts(reader, history[j].Declared(), members) ==> Accepts(reader, history[i].Declared(), members))
      && (Accepts(reader, history[i].Declared(), members) && Declared(history[i].Declared(), members) ==>
            Accepts(reader, history[j].Declared(), members))
  {
    hide StepErrors;
    EveryRunConforms(files, states);
    SameMajorReadability(reader, Run(files, states)[id].history.GetOr([]), i, j, members);
  }

  // ---------------------------------------------------------------- the gap in the first freeze

  /** A contract whose two fields share a number is frozen without a word, and the next check fails. */
  lemma FirstFreezeIsUnchecked() returns (registry: Registry)
    ensures Authored(registry)
    ensures FreezePlan(map[], registry).findings == {}
    ensures !Clean(Frozen(map[], registry), registry)
  {
    var a := FieldSpec("a", "string", "string", true, None, map[], map[], Some(1), None, []);
    var b := a.(name := "b");
    var spec := ContractSpec("c", "1.0.0", [a, b], map[], map[], {}, {});
    registry := Registry(map["c" := Parsed(spec)], {});
    var empty: Files := map[];
    assert Loaded(registry) == map["c" := spec];
    assert RecordRules(spec.fields);
    assert LoadFindings(registry) == {};
    assert LoadHistory(empty, "c").GetOr([]) == [];
    assert Accepted(empty, spec);
    FreezeSucceeds(empty, registry);
    FirstFreezeDecides(empty, registry);
    TwoFieldsOneNumber(spec, a, b);
  }

  lemma TwoFieldsOneNumber(spec: ContractSpec, a: FieldSpec, b: FieldSpec)
    requires spec.fields == [a, b] && a.name != b.name && a.number == b.number && a.number.Some?
    ensures !NumbersOwned([SchemaSnapshot(spec)])
  {
    var current := SchemaSnapshot(spec);
    var number := a.number.value;
    assert FieldSnapshots([a, b]) == FieldSnapshots([a])[b.name := FieldSnapshot(b)] by {
      assert [a, b][..1] == [a];
    }
    assert FieldSnapshots([a]) == map[a.name := FieldSnapshot(a)] by {
      assert [a][..0] == [];
    }
    var entries := current.Declared().fields;
    assert entries[a.name] == FieldSnapshot(a) && entries[b.name] == FieldSnapshot(b);
    assert UsedByField("", a.name, entries[a.name], Use(Slot("", number), a.name));
    assert UsedByField("", b.name, entries[b.name], Use(Slot("", number), b.name));
    assert [current][0] == current;
    assert UsedIn([current], Use(Slot("", number), a.name));
    assert UsedIn([current], Use(Slot("", number), b.name));
  }
}

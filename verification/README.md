# Verified model of the ss contracts and ss kit tooling

This project models the parts of the repository whose correctness is not visible from one function
body, and proves what they promise. Each module follows one component.

- **Contract evolution** (`Snapshots`, `EvolutionPolicy`, `PolicyDetails`, `PolicyLaws`, `AllPairs`,
  `Versions`, `Readability`). The classifier fills a mutable report over recursive snapshots. Its
  details are exactly the differences and its class is exactly a level relation stated without it.
  That relation composes, so checking adjacent pairs of a history covers every pair, and snapshots of
  one major version read each other's messages.
- **Field numbers and baselines** (`FieldNumbers`, `Contracts`, `Baselines`, `BaselineRuns`,
  `ContractSteps`). A store of baselines is checked and frozen, exactly as the declared fields of the
  contracts demand. Over every sequence of contract edits and freezes each history conforms to the
  policy, is free of number reuse, and only grows.
- **The forward plan** (`PlanText`, `PlanWriting`, `PlanReader`, `PlanRoundTrip`, `Registry`,
  `References`, `DependencyText`, `PlanPatterns`, `CycleDetection`, `PlanIntegrity`, `PlanGate`,
  `Scheduler`, `Scheduling`, `RankingOrder`). Readers from the characters of the documents, a
  coloured depth-first search, the integrity gate, and the scheduler that relies on the gate: it never
  deadlocks and its ranking is the document order by group.
- **Rate limiting** (`RateLimiter`, `TokenBucketLaws`, `LruLaws`, `LimiterBound`). A token bucket
  characterised by the windows of its life, in a bounded table that stands in for an unbounded one,
  and the exact verdict on each check of a client in the terms of the configured rate.
- **Topics** (`Topics`, `TopicMaps`, `TopicResolution`). Patterns that build and match inversely at
  character level, an exact overlap test, and resolution that does not depend on order.
- **Environment files** (`EnvParser`, `EnvLines`, `EnvTemplates`, `EnvReading`, `EnvRoundTrip`,
  `EnvQuotes`, `EnvLastLine`, `EnvDialect`, `EnvLoader`, `EnvLayers`). An
  index-driven parser that inverts writing over the whole dialect, its corner cases with their exact
  conditions, and the layered load with the meaning of every reference.
- **Heading anchors and the build budget** (`Anchors`, `BuildBudget`).
- `Wrappers`, `Sequences`, `Ordering` and `Strings` hold optional values, distinctness, Python's
  `sorted(set)`, splitting, joining, stripping and decimal numerals.

Code that changes things step by step is a class or a method with loops, proved against a
specification function; what the source promises is then proved about that function.

Some promises do not hold as written. The model follows the code and says exactly when they hold:

- The first snapshot of a contract is frozen unchecked, although histories are said to hold only
  conforming snapshots (`src/ss_contracts/tooling/evolution.py:8-9`). `FirstFreezeIsUnchecked` is a
  concrete case; `FreezeThenCheck` and `FirstFreezeDecides` say exactly when the check after a freeze
  is clean.
- Nested fields are compared only when both snapshots have them, so two identical steps can compose
  into a breaking one. They cannot if and only if the middle snapshot has nested fields wherever it has
  a record name (`MiddleIsExact`), which the snapshot writer guarantees.
- Building a matched topic gives it back if and only if equal placeholder names carry equal values
  (`BuildUndoesMatch`); the topic map's own check makes names unique.
- With a clock that steps back, a bucket refills the same stretch of time twice. The bound in clock
  time holds if and only if the clock never steps back (`ClockBoundExact`); the exact characterisation
  (`ExactBucket`) holds for every clock, in the time the bucket counts.
- Although unquoted values are said to end at ` #` (`src/ss_kit/env.py:6`), an empty one takes the
  comment behind it as its value, unless a space that is neither a blank nor a tab stands before it
  (`EmptyValueExact`).
- Although only names found in neither file nor environment are said to take their default
  (`src/ss_kit/env.py:9-11`), a variable of the environment gives way to the default if and only if the
  file defines the name without a value, as a bare key does, or with the very text of the default
  (`DefaultDespiteEnvironment`; `BareKeyInFile` is a concrete file).

`WellFormed` snapshots and `RecordRules` are what the snapshot writer and the authoring rules
(`src/ss_contracts/tooling/rules.py:292-299`) guarantee. `$` in the patterns for topic levels accepts
one trailing newline, and the model does as well.

## Model

| member | source | states |
|---|---|---|
| `EvolutionPolicy.ChangeReport.Note` | src/ss_contracts/tooling/evolution_policy.py:46-49 | appends the detail and keeps the report class equal to the worst severity among its details |
| `EvolutionPolicy.ClassifyBinding` | src/ss_contracts/tooling/evolution_policy.py:87-98 | adds to the report, in key order, the removed, added and changed keys of a binding, and nothing else |
| `EvolutionPolicy.ClassifyField` | src/ss_contracts/tooling/evolution_policy.py:101-114 | adds the attribute, constraint, binding and nested-record differences of one field, in that order |
| `EvolutionPolicy.ClassifyAdded` | src/ss_contracts/tooling/evolution_policy.py:117-121 | adds one detail whose severity depends on whether the new field is required |
| `EvolutionPolicy.ClassifyFields` | src/ss_contracts/tooling/evolution_policy.py:124-135 | adds removed, then common, then added fields, each group in name order, records under a dotted prefix |
| `EvolutionPolicy.ClassifyChange` | src/ss_contracts/tooling/evolution_policy.py:138-144 | the report of a step: its details, and as its class the worst severity among them |
| `PolicyDetails.DetailsAreExact` | src/ss_contracts/tooling/evolution_policy.py:87-144 | a detail is reported if and only if that difference exists between the two snapshots, at any nesting depth: nothing is missed, invented or misnamed |
| `AllPairs.ClassIsExact` | src/ss_contracts/tooling/evolution_policy.py:1-20 | the class of a step is at most a level if and only if the older shape survives into the newer one as that level allows (a relation stated without the classifier) |
| `AllPairs.IdenticalMeansEqual` | src/ss_contracts/tooling/evolution_policy.py:8-8 | for well-formed snapshots, "identical" means equal fields and bindings, an absent constraint map or binding counting as an empty one |
| `AllPairs.Triangle` | src/ss_contracts/tooling/evolution_policy.py:138-144 | for well-formed snapshots the class from a to c is no worse than the worse of a to b and b to c |
| `AllPairs.SafeMiddle` | src/ss_contracts/tooling/evolution_policy.py:101-144 | the same bound for well-formed a and c and any b in which every field with a record name has its nested fields, recursively |
| `AllPairs.UnsafeMiddle` | src/ss_contracts/tooling/evolution_policy.py:101-144 | for any other b there are well-formed a and c, b with its missing records filled in two ways, such that both steps are identical and their composition is breaking |
| `AllPairs.MiddleIsExact` | src/ss_contracts/tooling/evolution_policy.py:101-144 | the bound holds through b for all well-formed a and c if and only if b is complete in that sense |
| `Versions.ParseOfRender` | src/ss_contracts/tooling/evolution_policy.py:147-150 | parsing the dotted decimal form of any version gives that version back |
| `Versions.ParseIsLenient` | src/ss_contracts/tooling/evolution_policy.py:147-150 | missing and non-numeric parts count as 0, and parts beyond the third do not count |
| `Versions.VersionPolicyErrors` | src/ss_contracts/tooling/evolution_policy.py:153-173 | no finding if and only if the version moves as the change class demands: not backwards, at least minor, or major |
| `Versions.BumpsCompose` | src/ss_contracts/tooling/evolution_policy.py:153-173 | two accepted version moves compose into an accepted move for the worse class and every milder one |
| `AllPairs.PairConforms` | src/ss_contracts/tooling/evolution.py:96-100 | if every adjacent step of a well-formed history passes the policy, so does the step between any two of its snapshots |
| `AllPairs.AdjacentChecksCoverEveryPair` | src/ss_contracts/tooling/evolution.py:5-7 | checking adjacent pairs is equivalent to checking every pair, so a consumer any number of versions behind has a reviewed upgrade path |
| `Readability.OldReadsNew` | src/ss_contracts/base.py:4-7 | across a non-breaking change an older consumer accepts every message the newer shape accepts, unknown fields ignored, records and arrays of records included |
| `Readability.NewReadsOld` | src/ss_contracts/base.py:40-48 | across a non-breaking change a newer consumer accepts every older message built from declared fields only |
| `Readability.SameMajorReadability` | src/ss_contracts/tooling/evolution_policy.py:8-12 | in a history whose adjacent steps pass, any two snapshots of one major version read each other's messages, whatever lies between them |
| `FieldNumbers.SchemaUsesExact` | src/ss_contracts/tooling/evolution_policy.py:176-186 | the listed (scope, number, name) triples are exactly those a field of the message or of a record in it declares |
| `FieldNumbers.ClaimOne` | src/ss_contracts/tooling/evolution_policy.py:193-202 | one use against the owner table: the table and the findings stay those of all uses so far |
| `FieldNumbers.ProtoNumberErrors` | src/ss_contracts/tooling/evolution_policy.py:189-203 | the findings over a history are the uses whose number is first owned by another field |
| `FieldNumbers.ReusesExact` | src/ss_contracts/tooling/evolution_policy.py:195-202 | a reuse is reported if and only if such a use exists and the first owner of its slot is the named, different field |
| `FieldNumbers.NoReuseMeansOwned` | src/ss_contracts/tooling/evolution_policy.py:18-20 | although each use is compared with the first owner only, there is no finding if and only if no (scope, number) names two fields anywhere in the history |
| `Contracts.SnapshotIsWellFormed` | src/ss_contracts/tooling/evolution_policy.py:52-84 | the snapshot of a contract that keeps the record rules has nested fields exactly where it has a record name |
| `Contracts.FieldNumberError` | src/ss_contracts/tooling/gen/checker.py:87-97 | which fault a number has, in the order of the checks, and that only a faultless number is marked as used |
| `Contracts.FieldErrors` | src/ss_contracts/tooling/gen/checker.py:105-114 | findings of one field: number, reserved name, and those of its record, which starts with no reserved numbers or names |
| `Contracts.FieldNumbersErrors` | src/ss_contracts/tooling/gen/checker.py:100-115 | the findings of a field list with their paths, records included |
| `Contracts.FindingsExact` | src/ss_contracts/tooling/gen/checker.py:100-115 | no finding if and only if all numbers are usable, unreserved and distinct in the message and in every record, and no name is reserved |
| `Contracts.CheckedContractOwnsNumbers` | src/ss_contracts/tooling/gen/checker.py:100-115 | a contract that passes the check and the record rules disputes no number in the sense of the history check |
| `Baselines.CleanLoadIsComplete` | src/ss_contracts/tooling/registry.py:83-99 | loading finds nothing if and only if every entry leads to a contract with its id and no contract lies beside the registry, and then every registered contract is loaded |
| `Baselines.HistoryErrors` | src/ss_contracts/tooling/evolution.py:96-100 | the findings of all adjacent pairs of a history |
| `Baselines.BaselineStore.Evaluate` | src/ss_contracts/tooling/evolution.py:103-121 | the evolution record of one contract: its findings, class, details, baseline version and history versions, or the missing-baseline findings |
| `Baselines.BaselineStore.CheckEvolution` | src/ss_contracts/tooling/evolution.py:130-140 | one evaluation per loaded contract in id order, stale baselines, and an overall verdict that is ok exactly when nothing is found anywhere |
| `Baselines.BaselineStore.Prepare` | src/ss_contracts/tooling/evolution.py:155-163 | what a freeze would record for one contract, checked only if it differs from the latest reviewed snapshot |
| `Baselines.BaselineStore.Write` | src/ss_contracts/tooling/evolution.py:166-173 | afterwards the store holds exactly the payloads: written ones replaced, stale ones removed |
| `Baselines.BaselineStore.FreezeBaselines` | src/ss_contracts/tooling/evolution.py:147-174 | no findings if and only if everything loads and every contract may be recorded; with findings the store is untouched, else it holds for each contract exactly its history with its snapshot at the end |
| `Baselines.AcceptedExactly` | src/ss_contracts/tooling/evolution.py:155-163 | a freeze has no finding for a contract if and only if its history is empty, or ends with its snapshot, or the version moves as the change class demands and no number is disputed |
| `Baselines.FreezeOutcome` | src/ss_contracts/tooling/evolution.py:147-174 | a freeze succeeds if and only if everything loads and that holds for every contract; then each baseline is the old history with the snapshot at its end, added once unless it ends so already; else nothing changes |
| `Baselines.FreezeWrites` | src/ss_contracts/tooling/evolution.py:153-163 | a freeze prepares one payload per loaded contract and no other |
| `BaselineRuns.CleanContract` | src/ss_contracts/tooling/evolution.py:103-121 | a contract is clean if and only if it has a reviewed history and, with the current snapshot appended, every pair of versions conforms and no number is disputed |
| `BaselineRuns.AcceptedHistoryConforms` | src/ss_contracts/tooling/evolution.py:157-163 | from a conforming history a freeze accepts a contract if and only if the history it leaves conforms again |
| `BaselineRuns.CleanExactly` | src/ss_contracts/tooling/evolution.py:130-140 | the check is ok if and only if everything loads, no baseline is left over, and every contract has a history that is reviewed with its snapshot appended |
| `BaselineRuns.FrozenIs` | src/ss_contracts/tooling/evolution.py:147-174 | the store after a freeze, in terms of the single contracts: unchanged on any finding, else the accepted payload of each |
| `BaselineRuns.FreezeKeepsConforming` | src/ss_contracts/tooling/evolution.py:8-9 | a freeze of number-checked contracts, accepted or refused, keeps every stored history conforming |
| `BaselineRuns.FreezeIsIdempotent` | src/ss_contracts/tooling/evolution.py:157-163 | after a successful freeze of any store, freezing again finds nothing and changes nothing |
| `BaselineRuns.CheckedContract` | src/ss_contracts/tooling/evolution.py:103-121 | for any store and contract: no finding if and only if there is a history and, with the current snapshot appended, its adjacent pairs conform and no number is disputed |
| `BaselineRuns.FreezeThenCheck` | src/ss_contracts/tooling/evolution.py:147-174 | after a successful freeze of any store the check is clean if and only if each history the freeze leaves has conforming adjacent pairs and no disputed number |
| `BaselineRuns.FirstFreezeDecides` | src/ss_contracts/tooling/evolution.py:155-165 | if the store held conforming histories, that is so if and only if every contract frozen for the first time disputes no number of its own |
| `BaselineRuns.CheckedFreezeIsClean` | src/ss_contracts/tooling/evolution.py:147-174 | if moreover the contracts pass the number check, a successful freeze is always followed by a clean check |
| `BaselineRuns.FirstFreezeIsUnchecked` | src/ss_contracts/tooling/evolution.py:161-162 | a contract with one number on two fields is frozen without a finding and fails the very next check |
| `ContractSteps.AttributeKept` | src/ss_contracts/tooling/evolution_policy.py:52-71 | snapshots of two fields differ in an attribute if and only if their declarations do |
| `ContractSteps.ClassAsDeclared` | src/ss_contracts/tooling/evolution_policy.py:52-144 | for contracts without repeated field names, the class of an edit is the mildest level at which every declared field, records included, and the message binding survive it |
| `ContractSteps.AttributeBreaks` | src/ss_contracts/tooling/evolution_policy.py:101-109 | a shared field that differs in one of the six attributes makes the edit breaking, and the report names field and attribute |
| `ContractSteps.StepAsDeclared` | src/ss_contracts/tooling/evolution_policy.py:153-173 | the step between two contracts passes if and only if the version moves as the edit of their declared fields demands |
| `ContractSteps.SnapshotsEqual` | src/ss_contracts/tooling/evolution_policy.py:52-84 | two contracts have the same snapshot if and only if id, version, fingerprints, binding and every field agree, up to the order of the fields |
| `ContractSteps.EditIsRecordable` | src/ss_contracts/tooling/evolution.py:157-163 | an edited contract may be recorded behind its former self if and only if nothing changed, or its version moves as the edit demands and no number is disputed |
| `ContractSteps.UsesAsDeclared` | src/ss_contracts/tooling/evolution_policy.py:176-186 | the numbers a snapshot claims are exactly those declared in the message and, under its record name, in each record |
| `ContractSteps.OwnedAsDeclared` | src/ss_contracts/tooling/evolution_policy.py:189-203 | successive contracts dispute no number if and only if none was ever declared for two fields of the message or of records of one name |
| `BaselineRuns.EveryRunConforms` | src/ss_contracts/tooling/evolution.py:8-9 | over any sequence of contract edits and freezes, every stored history is policy-conforming and free of number reuse |
| `BaselineRuns.HistoriesAreAppendOnly` | src/ss_contracts/tooling/evolution.py:157-163 | over any such sequence a history only grows at its end while its contract stays registered |
| `BaselineRuns.EveryRunStaysReadable` | src/ss_contracts/tooling/evolution.py:5-7 | over any such sequence, reviewed snapshots of one major version read each other's messages |
| `CycleDetection.CycleSearch.Report` | src/ss_kit/quality/plan_integrity.py:153-156 | a dependency on the current path is found there and closes a cycle of start-dependency edges that meets no other task twice |
| `CycleDetection.CycleSearch.Visit` | src/ss_kit/quality/plan_integrity.py:148-158 | the search ends; the tasks in state 1 are exactly the path, those in state 2 exactly the finished ones, and each edge of a finished task is reported or leads to one finished earlier |
| `CycleDetection.RemainderIsAcyclic` | src/ss_kit/quality/plan_integrity.py:142-163 | a finishing order whose only other edges are reported proves that the graph without the reported closing edges has no closed walk |
| `CycleDetection.CycleFindings` | src/ss_kit/quality/plan_integrity.py:142-163 | every report is a cycle, deleting the closing edge of each leaves the graph acyclic, and there is no report if and only if the graph is acyclic |
| `PlanReader.LineReader.Heading` | src/ss_kit/quality/plan_model.py:119-141 | each heading kind sets lane, group and current task as the reader function does, and closes the open field |
| `PlanReader.LineReader.Feed` | src/ss_kit/quality/plan_model.py:143-162 | one line takes the reader, whose current task aliases the last one read, to the state the reader function gives |
| `PlanReader.ReadLine` | src/ss_kit/quality/plan_model.py:172-178 | a fence toggles and closes the open field; fenced lines change nothing |
| `PlanReader.ReadTasks` | src/ss_kit/quality/plan_model.py:170-179 | the tasks of a document, in order, from its lines by kind: the loop with its aliased current task computes the reader function |
| `PlanText.ReadPlan` | src/ss_kit/quality/plan_model.py:165-179 | the tasks of a document from its text: each line is of the kind of the first pattern it matches |
| `PlanWriting.WrittenReads` | src/ss_kit/quality/plan_model.py:14-18 | a fence, heading, field, continuation or prose line written in any of its forms matches that pattern, none before it, and captures what was written |
| `PlanRoundTrip.ReadingInvertsRendering` | src/ss_kit/quality/plan_model.py:165-179 | reading the lines of any well-formed plan gives back every task with lane, group, optional flag and fields, continuation lines joined by single spaces |
| `PlanRoundTrip.FencedBlockIsInvisible` | src/ss_kit/quality/plan_model.py:170-178 | a closed fenced block may stand before any line that does not continue an open field without changing the tasks read |
| `PlanRoundTrip.ProseIsInvisible` | src/ss_kit/quality/plan_model.py:143-162 | blank lines and prose change no task, wherever they stand but directly before a continuation line, fenced blocks included |
| `PlanRoundTrip.DocumentReads` | src/ss_kit/quality/plan_model.py:165-179 | any text whose lines, prose aside, spell the lines of a well-formed plan reads as exactly the tasks of that plan |
| `PlanRoundTrip.ContinuationNeedsField` | src/ss_kit/quality/plan_model.py:158-162 | a continuation directly behind prose, a heading or a fence changes no task |
| `PlanRoundTrip.RepeatedFieldIsProse` | src/ss_kit/quality/plan_model.py:151-154 | a field that the task has already is no better than prose: the first one stays, and a continuation behind it is dropped |
| `PlanRoundTrip.FieldsNeedTask` | src/ss_kit/quality/plan_model.py:119-148 | fields and continuations below a lane or group heading belong to no task, not even to the last one |
| `PlanRoundTrip.FieldNameReads` | src/ss_kit/quality/plan_model.py:151-151 | space around the name of a field and the case of its letters do not count |
| `PlanPatterns.ReadsExactly` | src/ss_kit/quality/plan_model.py:14-18 | a line is read as a fence, heading, field or continuation if and only if it is written as that |
| `PlanPatterns.ProseExactly` | src/ss_kit/quality/plan_model.py:143-162 | any other line is prose |
| `References.ReferencesAgree` | src/ss_kit/quality/plan_model.py:26-27 | cutting the text at a marker splits no reference in front of it |
| `References.StartDependenciesComeFirst` | src/ss_kit/quality/plan_model.py:63-77 | the start dependencies are an initial stretch of all references: a marker only drops later ones |
| `DependencyText.TaskIdExact` | src/ss_kit/quality/plan_model.py:20-21 | the slug test accepts exactly two or more words of lower-case letters and digits joined by hyphens |
| `DependencyText.MarkerExact` | src/ss_kit/quality/plan_model.py:22-22 | a marker is found exactly where one of the three words stands in any case and not within a word |
| `DependencyText.FirstUsesExact` | src/ss_kit/quality/plan_model.py:27-27 | each name once, in the order of first use |
| `DependencyText.DependenciesRead` | src/ss_kit/quality/plan_model.py:63-77 | a field of prose and code is read as exactly the task ids written as code: all of them as references, and those in front of the first marker as start dependencies |
| `DependencyText.EligibleAsWritten` | src/ss_kit/quality/plan_summary.py:23-30 | a task can start if and only if no id written in front of the first marker is an open task |
| `DependencyText.EdgesAsWritten` | src/ss_kit/quality/plan_integrity.py:142-152 | the start-dependency graph has an edge for exactly the ids of open tasks written in front of the first marker |
| `PlanIntegrity.TaskIdentityFindings` | src/ss_kit/quality/plan_integrity.py:78-94 | the identity findings of a task in order, none if and only if its id is new and it is filed in a lane under the registered capability it serves |
| `PlanPatterns.ServesExact` | src/ss_kit/quality/plan_model.py:50-55 | a task serves a capability if and only if its field starts with the id in backticks, followed by white space or nothing |
| `PlanGate.MetadataFindings` | src/ss_kit/quality/plan_integrity.py:97-111 | no finding if and only if every required field has text and a human step is there exactly as the lane demands; a missing field is named exactly when it is missing |
| `PlanGate.StatusFindings` | src/ss_kit/quality/plan_integrity.py:114-123 | no finding if and only if the task has no status or one of its lane |
| `PlanPatterns.StatusExact` | src/ss_kit/quality/plan_integrity.py:114-123 | a status is allowed if and only if it is empty or, trimmed and in any case, one of the two of its lane |
| `PlanGate.TaskFindings` | src/ss_kit/quality/plan_integrity.py:166-174 | no finding if and only if task ids are distinct and every task is filed where it belongs, has its required fields, and a status of its lane |
| `Registry.ReadRegistry` | src/ss_kit/quality/plan_model.py:85-106 | the capabilities of the rows of five or more cells under the registry heading, in order |
| `Registry.CellsRead` | src/ss_kit/quality/plan_model.py:80-82 | a row of two or more trimmed cells without bars is split into exactly these cells |
| `Registry.RowExact` | src/ss_kit/quality/plan_model.py:80-105 | a line is a capability if and only if, trimmed, it is a row of five or more cells with the id in backticks in the second and the other parts in the next three |
| `Registry.RegistryLineByLine` | src/ss_kit/quality/plan_model.py:88-105 | a line adds a capability if and only if it is such a row below the registry heading and before the next heading |
| `Registry.RegistryReadsBack` | src/ss_kit/quality/plan_model.py:85-106 | a registry written row by row is read back as exactly its capabilities, in order |
| `Registry.ReadRecordedIds` | src/ss_kit/quality/plan_model.py:182-196 | the ids that the record names spell behind a known group |
| `Registry.RecordedExact` | src/ss_kit/quality/plan_model.py:182-196 | an id is recorded if and only if some record name is that of a task with this id in a known group |
| `PlanPatterns.RecordExact` | src/ss_kit/quality/plan_model.py:23-23 | a file name records a task of a group if and only if it is four digits, the group, the id and the suffix, joined as documented |
| `Registry.RecordReadsBack` | src/ss_kit/quality/plan_model.py:182-196 | the record written for a task of a known group is found under its id |
| `PlanGate.CapabilityFindings` | src/ss_kit/quality/plan_integrity.py:65-74 | no finding if and only if status, evaluation, documentation link and serving task are as the status demands |
| `PlanGate.RegistryFindings` | src/ss_kit/quality/plan_integrity.py:56-75 | no finding if and only if no capability is listed twice and each one is in order |
| `PlanGate.TextFindings` | src/ss_kit/quality/plan_integrity.py:212-223 | no finding if and only if every task heading can be read, no line holds a history word or a date, and both lanes are there |
| `PlanPatterns.HistoryExact` | src/ss_kit/quality/plan_integrity.py:50-51 | a line counts as history if and only if done, delivered or implemented in any case, or a date, stands in it as a whole word |
| `PlanPatterns.LinkExact` | src/ss_kit/quality/plan_integrity.py:49-49 | a text holds a link if and only if a non-empty caption in brackets stands directly before a non-empty target in parentheses |
| `PlanIntegrity.ReferenceFindings` | src/ss_kit/quality/plan_integrity.py:131-138 | no finding if and only if every reference is another open task or a recorded one; each finding names a faulty reference |
| `PlanIntegrity.DependencyFindings` | src/ss_kit/quality/plan_integrity.py:126-139 | no finding if and only if all references are known and the start dependencies are acyclic |
| `PlanIntegrity.GroupOptionalFindings` | src/ss_kit/quality/plan_integrity.py:191-199 | no finding if and only if no required task follows an optional one in the group |
| `PlanIntegrity.TasksByGroup` | src/ss_kit/quality/plan_integrity.py:187-190 | the tasks of a lane by group, each in document order |
| `PlanIntegrity.OptionalOrderFindings` | src/ss_kit/quality/plan_integrity.py:185-200 | no finding if and only if optional work comes last in every group of the lane |
| `PlanIntegrity.OrderFindings` | src/ss_kit/quality/plan_integrity.py:203-209 | no finding if and only if in both lanes groups follow the registry and optional work comes last |
| `PlanGate.IntegrityFindings` | src/ss_kit/quality/plan_integrity.py:232-251 | from the text of both documents and the record names: no finding if and only if both documents are there and coherent, in all of registry, identity, metadata, status, references, acyclicity, order and text |
| `PlanGate.CoherentPlanNamesNextTask` | src/ss_kit/quality/plan_summary.py:45-54 | documents that pass the gate name a next task in some lane, unless the plan has no task |
| `Scheduler.Ranked` | src/ss_kit/quality/plan_summary.py:33-42 | the ranking is a permutation of the tasks of the lane |
| `Scheduler.SortAscends` | src/ss_kit/quality/plan_summary.py:33-42 | the ranking ascends by capability rank, optional flag and document position |
| `Scheduler.NextIsLeast` | src/ss_kit/quality/plan_summary.py:45-54 | a lane line names a task if and only if the lane has an eligible one, and then the least of them; it says none if and only if the lane is empty |
| `Scheduler.FirstInLineWaits` | src/ss_kit/quality/plan_summary.py:45-54 | where no task of a lane can start, its line names the least of them and exactly its open start dependencies |
| `Scheduling.SomeTaskIsEligible` | src/ss_kit/quality/plan_summary.py:28-30 | a non-empty plan with distinct ids and acyclic start dependencies has an eligible task |
| `Scheduling.GatedPlanNamesNextTask` | src/ss_kit/quality/plan_summary.py:45-54 | for a non-empty plan without findings some lane line names a next task |
| `Scheduling.RemovalKeepsGate` | src/ss_kit/quality/plan_integrity.py:142-163 | removing any task keeps ids distinct and start dependencies acyclic |
| `Scheduling.PlanEmpties` | src/ss_kit/quality/plan_integrity.py:142-143 | however eligible tasks are picked, each pick removes one task and as long as one is left some task is eligible: the plan empties in exactly as many steps as it has tasks |
| `Scheduling.StartDependenciesAreKnown` | src/ss_kit/quality/plan_integrity.py:131-138 | in a plan without findings a start dependency is another open task or a recorded finished one |
| `RankingOrder.RankingIsByGroup` | src/ss_kit/quality/plan_summary.py:33-42 | on a plan without findings the ranking of a lane is its groups in registry order, each group in document order |
| `RankingOrder.RankingKeepsGroupOrder` | src/ss_kit/quality/plan_integrity.py:177-182 | the ranking meets the groups of a lane in the very order in which the document introduces them |
| `RankingOrder.KeyOrderExact` | src/ss_kit/quality/plan_summary.py:33-42 | a task ranks before another if and only if its group stands earlier in the registry, unregistered ones last, or within one standing it is required and the other optional, or earlier in the document |
| `RateLimiter.TokenBucket.Allow` | src/ss_kit/security.py:67-75 | the new bucket state and the verdict of one request |
| `RateLimiter.RateLimiter.PopOldest` | src/ss_kit/security.py:110-110 | the least recently used client leaves the table |
| `RateLimiter.RateLimiter.EvictOldest` | src/ss_kit/security.py:107-110 | clients leave, least recently used first, until one more fits; no bucket is changed |
| `RateLimiter.RateLimiter.NewBucket` | src/ss_kit/security.py:102-105 | a fresh, full bucket of at least one token with a refill rate that is not negative |
| `RateLimiter.RateLimiter.Touch` | src/ss_kit/security.py:114-119 | the client is the most recently used one, with its old bucket or a fresh one; buckets are never shared between clients |
| `RateLimiter.RateLimiter.Check` | src/ss_kit/security.py:112-120 | the new table and the verdict of one check |
| `RateLimiter.MakeLimiter` | src/ss_kit/security.py:95-100 | a table that could hold no client is refused; any other starts empty |
| `TokenBucketLaws.EveryWindowAllows` | src/ss_kit/security.py:67-75 | at any request, no window ending there leaves less than the tokens found: capacity plus refill minus what it admitted |
| `TokenBucketLaws.TightestWindow` | src/ss_kit/security.py:67-75 | at any request, some window leaves exactly the tokens found |
| `TokenBucketLaws.ExactBucket` | src/ss_kit/security.py:67-75 | the tokens found are the minimum over all windows, so a request is admitted if and only if no window would exceed capacity plus refill with it |
| `TokenBucketLaws.WindowBound` | src/ss_kit/security.py:67-75 | no window of a bucket's life admits more than the capacity plus what is refilled in it |
| `TokenBucketLaws.SteadyWindowBound` | src/ss_kit/security.py:67-75 | the same bound in clock time, capacity plus rate times length, for any window in which the clock does not step back, whatever it does outside |
| `TokenBucketLaws.SteppedClockBreaksBound` | src/ss_kit/security.py:69-71 | for any times and any window from the first request in which the clock steps back, some bucket admits more than that bound |
| `TokenBucketLaws.ClockBoundExact` | src/ss_kit/security.py:67-75 | for any times: every full bucket keeps the bound in clock time in every window if and only if the clock never steps back |
| `LruLaws.TableHoldsMostRecent` | src/ss_kit/security.py:107-119 | after any run of checks the table's keys are the most recent distinct clients, at most the limit, in order of last use |
| `LruLaws.RetainedExactly` | src/ss_kit/security.py:107-119 | a client is still in the table if and only if fewer other distinct clients than the limit were checked since its last check |
| `LruLaws.RetainedBucketAgrees` | src/ss_kit/security.py:112-120 | while retained, a client's bucket is the one it would have in a table that never evicts |
| `LruLaws.VerdictsAgree` | src/ss_kit/security.py:82-86 | a client never crowded out between its checks gets the verdicts of a table that never evicts, whatever rates and clock are read |
| `LimiterBound.VerdictsAreAdmissions` | src/ss_kit/security.py:112-120 | while a client stays in the table, its verdicts are the admissions of one bucket over the times of its own checks |
| `LimiterBound.ClientWindowBound` | src/ss_kit/security.py:60-120 | in any run of checks, over any stretch in which a client is not crowded out and its clock does not step back, it is admitted at most capacity plus refill times |
| `LimiterBound.ClientVerdict` | src/ss_kit/security.py:60-120 | in any run, a check is admitted if and only if every window of its client's own checks, back to where its bucket was made, leaves it a token of the configured burst, or of one second's worth if that is 0, and the configured refill |
| `Topics.TopicEntry.Match` | src/ss_contracts/topics.py:46-61 | the parameters of a matching topic, a repeated name keeping its last value, or none |
| `Topics.TopicEntry.Build` | src/ss_contracts/topics.py:63-79 | the topic of a parameter map, or which names are wrong, or the first value that is no single level |
| `Topics.MatchUndoesBuild` | src/ss_contracts/topics.py:46-79 | every topic an entry builds matches it again with the same parameters, down to splitting and joining on the separator |
| `Topics.BuildUndoesMatch` | src/ss_contracts/topics.py:46-79 | what a match yields always builds a topic, and it is the matched topic if and only if levels with the same name carry the same value |
| `Topics.UniqueNamesRebuild` | src/ss_contracts/topics.py:46-79 | with unique placeholder names building undoes every match |
| `Topics.PlaceholderExact` | src/ss_contracts/topics.py:18-18 | a level is a placeholder if and only if it is a name in braces, one trailing newline apart |
| `Topics.LiteralExact` | src/ss_contracts/topics.py:19-19 | a level is a literal if and only if it is made of letters, digits, underscores, dots and hyphens, one trailing newline apart |
| `Topics.ValueExact` | src/ss_contracts/topics.py:20-21 | a value is any non-empty text without separator, wildcard or null character |
| `Topics.LastValueWins` | src/ss_contracts/topics.py:46-61 | the parameters of a match have the names of the placeholders, each with the value of the last level that carries it |
| `TopicMaps.TopicErrors` | src/ss_contracts/tooling/binding.py:33-43 | no finding if and only if the topic has the prefix and only literal, wildcard or placeholder levels, a final # included |
| `TopicMaps.PatternErrors` | src/ss_contracts/tooling/topics.py:65-76 | no finding if and only if the pattern has the prefix, literals and placeholders only, and unique names |
| `TopicMaps.OverlapExact` | src/ss_contracts/tooling/topics.py:86-93 | for arbitrary patterns: some topic matches both if and only if the test says so and every literal facing a placeholder is itself a possible value |
| `TopicMaps.WellFormedOverlapExact` | src/ss_contracts/tooling/topics.py:86-93 | for well-formed patterns the test holds if and only if some concrete topic matches both |
| `TopicMaps.SubscriptionAgrees` | src/ss_contracts/topics.py:81-83 | a topic matches an entry if and only if it matches the subscription filter (sections 4.7.1 and 4.7.2 of MQTT Version 3.1.1) and every + level is a value |
| `TopicResolution.EntryErrors` | src/ss_contracts/tooling/topics.py:79-83 | no finding if and only if the pattern is well-formed and its contract registered |
| `TopicResolution.OverlapErrors` | src/ss_contracts/tooling/topics.py:96-106 | no finding if and only if no two entries share a pattern or overlap |
| `TopicResolution.BindingErrors` | src/ss_contracts/tooling/topics.py:109-121 | no finding if and only if every contract whose binding names a topic is mapped exactly once, under that pattern |
| `TopicResolution.TopicMapErrors` | src/ss_contracts/tooling/topics.py:124-132 | no finding if and only if the map is valid: well-formed, registered, non-overlapping and consistent with the bindings |
| `TopicResolution.AtMostOneMatch` | src/ss_contracts/topics.py:91-97 | in a valid map at most one entry matches any topic |
| `TopicResolution.MatchResolves` | src/ss_contracts/topics.py:91-97 | in a valid map a matching entry is what the topic resolves to, wherever it stands |
| `TopicResolution.ResolutionIsOrderFree` | src/ss_contracts/topics.py:91-97 | a topic resolves the same under every permutation of a valid map |
| `TopicResolution.BuiltTopicResolves` | src/ss_contracts/topics.py:63-97 | in a valid map a built topic resolves to the entry that built it, with the parameters it was built from |
| `TopicResolution.DeclaredTopicResolves` | src/ss_contracts/tooling/topics.py:109-121 | in a valid map a topic resolves to a contract with a declared pattern if and only if it matches that pattern |
| `EnvParser.DoubleQuoted` | src/ss_kit/env.py:54-69 | the unescaped text up to the closing quote and the index behind it, or that the quote is never closed |
| `EnvParser.Value` | src/ss_kit/env.py:86-99 | the value at an index, whether it is expandable, and the index after its last line |
| `EnvParser.Step` | src/ss_kit/env.py:107-122 | a turn of the parser always moves forward, or fails |
| `EnvParser.Turn` | src/ss_kit/env.py:107-122 | one turn of the loop: the index behind the entry or line, and the variables with what it sets |
| `EnvParser.ParseEnvText` | src/ss_kit/env.py:102-123 | terminates on any text, with its ordered variables or the unterminated quote |
| `EnvTemplates.ExpandOfTemplate` | src/ss_kit/env.py:43-51 | a value made of references and of any text in which no reference starts expands to the text with each reference replaced by its meaning: file before environment before default, a bare key hiding the environment |
| `EnvTemplates.DefaultDespiteEnvironment` | src/ss_kit/env.py:43-51 | a reference to a variable of the environment with another value takes its default if and only if the file defines the name without a value or with that text |
| `EnvReading.UnescapesBack` | src/ss_kit/env.py:54-69 | unescaping gives back any text whose backslashes and double quotes were escaped, newlines included |
| `EnvQuotes.EscapesMean` | src/ss_kit/env.py:54-69 | a double-quoted value is what its characters and escapes mean one after the other, an unknown escape keeping its backslash, with references expanded |
| `EnvQuotes.UnclosedQuoteIsRefused` | src/ss_kit/env.py:54-99 | a file in which a single or double quote is never closed is refused as such, whatever written lines stand before it |
| `EnvReading.KeyStartReads` | src/ss_kit/env.py:25-25 | export is a prefix only when blanks and a key follow it, else it is a key like any other |
| `EnvReading.KeySpelled` | src/ss_kit/env.py:25-25 | keys are letters, digits, underscores, dots and hyphens, starting with a letter or an underscore |
| `EnvReading.PlainReads` | src/ss_kit/env.py:77-83 | an unquoted value, the empty one included, is what stands before trailing space and an inline comment |
| `EnvReading.LineReads` | src/ss_kit/env.py:107-122 | one written blank line, comment, bare key, entry in any quoting and spacing, or line that is skipped for want of a key or for text behind it, is one turn of the parser with exactly its meaning |
| `EnvRoundTrip.ParseOfRender` | src/ss_kit/env.py:102-123 | any file of well-written lines parses to exactly what its lines mean one after the other |
| `EnvRoundTrip.QuotedFileReadsBack` | src/ss_kit/env.py:102-123 | a file of assignments without references and with distinct keys parses back to exactly the ordered map written |
| `EnvRoundTrip.OrderOfFirstMention` | src/ss_kit/env.py:102-123 | the variables are the keys of the file, each once, in the order in which it first names them |
| `EnvDialect.EmptyValueExact` | src/ss_kit/env.py:77-83 | where only spaces and a comment stand behind the equals sign, the value is empty if and only if some space is neither a blank nor a tab; else it is a text that starts with the comment sign |
| `EnvDialect.BareKeyHidesEnvironment` | src/ss_kit/env.py:33-51 | behind a bare key of its name a reference with a default takes the default, whatever the environment holds, unquoted or in double quotes |
| `EnvDialect.BareKeyInFile` | src/ss_kit/env.py:33-51 | the same at a two-line file and an environment that has the variable |
| `EnvLastLine.FinalNewlineIsOptional` | src/ss_kit/env.py:102-123 | a newline added at the end of any text changes neither its variables nor its error |
| `EnvLastLine.LastNewlineMayBeMissing` | src/ss_kit/env.py:102-123 | so a file of written lines means the same without its last newline |
| `EnvLoader.Environment.LoadEnvFiles` | src/ss_kit/env.py:136-157 | a layer that does not parse changes nothing; else the environment gains exactly the returned variables |
| `EnvLoader.Environment.ApplyMissing` | src/ss_kit/env.py:153-157 | sets every merged variable the environment lacks and returns them |
| `EnvLoader.LastLayerWins` | src/ss_kit/env.py:148-152 | a merged key has the value of the last layer that mentions it |
| `EnvLoader.LoadMeans` | src/ss_kit/env.py:136-157 | a load keeps every variable present, adds exactly the reported ones, and gives each the value of the last layer that mentions it, a bare key as the empty text |
| `EnvLayers.LoadAsWritten` | src/ss_kit/env.py:136-157 | loading written files always succeeds and sets exactly what some file names and the environment lacks, each to what the last line of the last such file means; a reference means the earlier lines of its file, else the environment, else the last earlier file that names it, else its default |
| `EnvLoader.KeysIgnoreEnvironment` | src/ss_kit/env.py:102-123 | whether a text parses, and which keys it yields in which order, does not depend on the environment or earlier values |
| `EnvLoader.MergedKeysIgnoreEnvironment` | src/ss_kit/env.py:148-152 | nor do the keys merged from several layers |
| `EnvLoader.SecondLoadAppliesNothing` | src/ss_kit/env.py:136-157 | loading the same layers again reports nothing and changes nothing |
| `Anchors.TakenAtMost` | src/ss_kit/quality/doc_links.py:49-51 | a set that holds n distinct candidates has at least n elements, so the numbering loop cannot run for ever |
| `Anchors.NewFragment` | src/ss_kit/quality/doc_links.py:46-51 | the loop terminates, with a fragment not found before that has the least free repeat number |
| `Anchors.CandidateSpelled` | src/ss_kit/quality/doc_links.py:46-51 | repetition 0 is the slug itself, any other the slug, a hyphen and the number without leading zeros |
| `Anchors.Anchors` | src/ss_kit/quality/doc_links.py:32-53 | the fragments of a document, fenced lines skipped |
| `Anchors.HeadingsAreShown` | src/ss_kit/quality/doc_links.py:36-45 | one fragment is made for each heading outside the code fences, in order |
| `Anchors.HeadingAddsOne` | src/ss_kit/quality/doc_links.py:46-52 | a heading adds exactly one new fragment, with the least number not taken by anything before it |
| `Anchors.FragmentsAreUnique` | src/ss_kit/quality/doc_links.py:32-53 | no two headings share a fragment, and the fragments found are exactly those of headings and HTML anchors outside fences |
| `Anchors.NumberedInOrder` | src/ss_kit/quality/doc_links.py:33-33 | unless other headings or HTML anchors clash with a slug, the k-th repetition of its heading gets number k |
| `BuildBudget.RoundedIs` | src/ss_kit/hw.py:155-156 | rounding picks the one integer at most 0.2 above and less than 0.8 below the fraction |
| `BuildBudget.MemoryJobsExact` | src/ss_kit/hw.py:152-156 | the memory jobs are the one count whose memory exceeds the usable memory by at most 0.2 job and falls short by less than 0.8 |
| `BuildBudget.CoresAndMemory` | src/ss_kit/hw.py:152-157 | the core jobs are half the unreserved cores rounded down but at least one, and the usable memory is what is available beyond the reserved share, if anything |
| `BuildBudget.JobsAreGreatest` | src/ss_kit/hw.py:157-158 | the jobs lie between 1 and the core jobs, are the greatest such count within the memory bound, and keep the bound if and only if 0.8 job fits |
| `BuildBudget.JobsMonotone` | src/ss_kit/hw.py:144-159 | more available memory or cores, a smaller reserve or smaller jobs never cost a job |
| `BuildBudget.NoJobSize` | src/ss_kit/hw.py:155-155 | without a positive job size one job is granted |

## Left out

- Files, YAML and JSON: a baseline directory is a map from contract id to baseline, a document is its lines or its text, and writing JSON and reading it back is taken to be the identity.
- Finding texts: a finding is a value that says what was found and where. Baseline findings are sets, so their order and repetition are not modelled.
- Dictionaries without a significant order are read in sorted order: the fields of a snapshot when numbers are claimed, which decides only which of two clashing fields of one snapshot counts as the owner.
- Python's equality of `True` and `1`, and booleans as field numbers: attributes are typed here.
- Fingerprints are arbitrary texts; what the Avro library computes is not part of this model.
- Readability says whether a consumer accepts a message; which data fit a physical kind is an arbitrary predicate, and `logicalTypeOptions` constraints are not part of it, because the policy lets a minor version change them.
- The remaining authoring rules, the other generator checks and the generators themselves: independent single-branch checks and text tables.
- Characters beyond ASCII in `isdigit`, `int`, `lower`, `upper`, `\d`, `\w` and case-insensitive patterns; white space is modelled in full.
- Reading the plan, the specification and the record directory from disk: they are lines of text and file names, and splitting a file into lines is not modelled. A file name is taken to end without a newline.
- Recursion depth: the depth-first search of the original is limited by the interpreter's stack.
- RateLimiter.RateLimiter.Check: exact real arithmetic instead of floating point, and a rate provider that raises is not modelled.
- Topic descriptions, loading the topic map document and rendering its module.
- EnvLoader.Environment.LoadEnvFiles: merged variables are set in no particular order, where the original follows the order of the layers; the result does not depend on it.
- The typed environment accessors.
- Heading slugs and the patterns for headings and HTML anchors: a line of a document carries its anchors and its slug.
- BuildBudget.MemoryJobsExact: over exact reals; floating-point rounding and the probing of memory, cores and control groups are left out.
- Message signatures, key comparison, path lists, transport settings, middleware and logging.

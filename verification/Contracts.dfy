/** Contracts as loaded, their snapshots, and the field-number check of the generators. */
module Contracts {
  import opened Wrappers
  import opened Snapshots
  import opened FieldNumbers

  const MAX_FIELD_NUMBER := 536_870_911
  const IMPLEMENTATION_RESERVED_FROM := 19_000
  const IMPLEMENTATION_RESERVED_TO := 20_000

  datatype FieldSpec = FieldSpec(
    name: string,
    logicalType: string,
    kind: string,
    required: bool,
    itemKind: Option<string>,
    options: Constraints,
    binding: Binding,
    number: Option<int>,
    recordName: Option<string>,
    recordFields: seq<FieldSpec>)
  {
    /** A record or an array of records. */
    predicate IsRecord() {
      kind == RECORD_KIND || itemKind == Some(RECORD_KIND)
    }
  }

  datatype ContractSpec = ContractSpec(
    contractId: string,
    version: string,
    fields: seq<FieldSpec>,
    binding: Binding,
    fingerprints: map<string, string>,
    reserved: set<int>,
    reservedNames: set<string>)

  // ---------------------------------------------------------------- snapshots

  function FieldSnapshot(field: FieldSpec): Field
    decreases field
  {
    Field(Some(field.logicalType),
          Some(field.kind),
          if field.itemKind == Some("") then None else field.itemKind,
          Some(field.required),
          field.number,
          if field.IsRecord() then field.recordName else None,
          if field.options == map[] then None else Some(field.options),
          if field.binding == map[] then None else Some(field.binding),
          if field.IsRecord() then Some(Schema(FieldSnapshots(field.recordFields))) else None)
  }

  /** A repeated name keeps its last field, as in a dict comprehension. */
  function FieldSnapshots(fields: seq<FieldSpec>): map<string, Field>
    decreases fields
  {
    if fields == [] then map[]
    else
      var last := fields[|fields| - 1];
      FieldSnapshots(fields[..|fields| - 1])[last.name := FieldSnapshot(last)]
  }

  function SchemaSnapshot(spec: ContractSpec): Snapshot {
    Snapshot(Some(spec.contractId), spec.version, Some(spec.binding), Some(Schema(FieldSnapshots(spec.fields))),
             if spec.fingerprints == map[] then None else Some(spec.fingerprints))
  }

  /** Every entry of the snapshot stems from a field of that name. */
  lemma {:induction false} SnapshotsStemFromFields(fields: seq<FieldSpec>, name: string) returns (i: nat)
    requires name in FieldSnapshots(fields)
    ensures i < |fields| && fields[i].name == name && FieldSnapshots(fields)[name] == FieldSnapshot(fields[i])
  {
    var last := fields[|fields| - 1];
    if name == last.name {
      i := |fields| - 1;
    } else {
      i := SnapshotsStemFromFields(fields[..|fields| - 1], name);
    }
  }

  /** The authoring rules on records: each is named, names are unique, and records nest one level. */
  ghost predicate RecordRules(fields: seq<FieldSpec>) {
    && (forall i :: 0 <= i < |fields| && fields[i].IsRecord() ==>
          && fields[i].recordName.Some? && fields[i].recordName.value != ""
          && forall k :: 0 <= k < |fields[i].recordFields| ==> !fields[i].recordFields[k].IsRecord())
    && (forall i, j :: 0 <= i < j < |fields| && fields[i].IsRecord() && fields[j].IsRecord() ==>
          fields[i].recordName != fields[j].recordName)
  }

  lemma FlatSnapshotIsWellFormed(field: FieldSpec)
    requires !field.IsRecord()
    ensures WellFormedField(FieldSnapshot(field))
  {
  }

  /** The snapshot writer emits nested fields exactly where it emits a record name. */
  lemma SnapshotIsWellFormed(spec: ContractSpec)
    requires RecordRules(spec.fields)
    ensures WellFormed(SchemaSnapshot(spec).Declared())
  {
    var entries := FieldSnapshots(spec.fields);
    forall name | name in entries ensures WellFormedField(entries[name]) {
      var i := SnapshotsStemFromFields(spec.fields, name);
      var field := spec.fields[i];
      if field.IsRecord() {
        var nested := FieldSnapshots(field.recordFields);
        forall inner | inner in nested ensures WellFormedField(nested[inner]) {
          var k := SnapshotsStemFromFields(field.recordFields, inner);
          FlatSnapshotIsWellFormed(field.recordFields[k]);
        }
        assert WellFormed(Schema(nested));
      } else {
        FlatSnapshotIsWellFormed(field);
      }
    }
  }

  // ---------------------------------------------------------------- the field-number check

  datatype NumberFault = MissingNumber | OutsideRange | UsedTwice | ReservedNumber

  datatype NumberFinding = Faulty(path: seq<string>, fault: NumberFault) | ReservedName(path: seq<string>)

  predicate UsableNumber(number: int) {
    1 <= number <= MAX_FIELD_NUMBER && !(IMPLEMENTATION_RESERVED_FROM <= number < IMPLEMENTATION_RESERVED_TO)
  }

  function FaultOf(number: Option<int>, used: set<int>, reserved: set<int>): Option<NumberFault> {
    if number.None? then Some(MissingNumber)
    else if !UsableNumber(number.value) then Some(OutsideRange)
    else if number.value in used then Some(UsedTwice)
    else if number.value in reserved then Some(ReservedNumber)
    else None
  }

  method FieldNumberError(number: Option<int>, used: set<int>, reserved: set<int>)
    returns (fault: Option<NumberFault>, used': set<int>)
    ensures fault == FaultOf(number, used, reserved)
    ensures used' == if fault.None? then used + {number.value} else used
  {
    used' := used;
    if number.None? {
      return Some(MissingNumber), used;
    }
    if !UsableNumber(number.value) {
      return Some(OutsideRange), used;
    }
    if number.value in used {
      return Some(UsedTwice), used;
    }
    if number.value in reserved {
      return Some(ReservedNumber), used;
    }
    return None, used + {number.value};
  }

  /** The numbers taken without a finding by the first `n` fields. */
  function Taken(fields: seq<FieldSpec>, n: nat, reserved: set<int>): set<int>
    requires n <= |fields|
  {
    if n == 0 then {}
    else
      var used := Taken(fields, n - 1, reserved);
      if FaultOf(fields[n - 1].number, used, reserved).None? then used + {fields[n - 1].number.value} else used
  }

  function OwnFindings(path: seq<string>, field: FieldSpec, fault: Option<NumberFault>, reservedNames: set<string>)
    : seq<NumberFinding>
  {
    (if fault.Some? then [Faulty(path, fault.value)] else []) +
    (if field.name in reservedNames then [ReservedName(path)] else [])
  }

  function NestedFindings(path: seq<string>, field: FieldSpec): seq<NumberFinding>
    decreases field
  {
    if field.IsRecord() then FieldFindings(field.recordFields, |field.recordFields|, {}, {}, path) else []
  }

  function FieldFindings(fields: seq<FieldSpec>, n: nat, reserved: set<int>, reservedNames: set<string>, prefix: seq<string>)
    : seq<NumberFinding>
    requires n <= |fields|
    decreases fields, n
  {
    if n == 0 then []
    else
      var field := fields[n - 1];
      var path := prefix + [field.name];
      var fault := FaultOf(field.number, Taken(fields, n - 1, reserved), reserved);
      FieldFindings(fields, n - 1, reserved, reservedNames, prefix) +
      (OwnFindings(path, field, fault, reservedNames) + NestedFindings(path, field))
  }

  /** Findings of one field: its number, its name, and the fields of its record. */
  method FieldErrors(path: seq<string>, field: FieldSpec, fault: Option<NumberFault>, reservedNames: set<string>)
    returns (errors: seq<NumberFinding>)
    ensures errors == OwnFindings(path, field, fault, reservedNames) + NestedFindings(path, field)
    decreases field
  {
    errors := [];
    if fault.Some? {
      errors := [Faulty(path, fault.value)];
    }
    if field.name in reservedNames {
      errors := errors + [ReservedName(path)];
    }
    if field.IsRecord() {
      var nested := FieldNumbersErrors(field.recordFields, {}, {}, path);
      errors := errors + nested;
    }
  }

  method FieldNumbersErrors(fields: seq<FieldSpec>, reserved: set<int>, reservedNames: set<string>, prefix: seq<string>)
    returns (errors: seq<NumberFinding>)
    ensures errors == FieldFindings(fields, |fields|, reserved, reservedNames, prefix)
    decreases fields
  {
    hide FaultOf, UsableNumber, OwnFindings, NestedFindings;
    errors := [];
    var used: set<int> := {};
    for i := 0 to |fields|
      invariant used == Taken(fields, i, reserved)
      invariant errors == FieldFindings(fields, i, reserved, reservedNames, prefix)
    {
      var fault;
      fault, used := FieldNumberError(fields[i].number, used, reserved);
      var found := FieldErrors(prefix + [fields[i].name], fields[i], fault, reservedNames);
      errors := errors + found;
    }
  }

  ghost predicate DistinctNumbers(fields: seq<FieldSpec>) {
    forall i, j :: 0 <= i < j < |fields| ==> fields[i].number != fields[j].number
  }

  /** A number of 29 bits, neither kept by the implementation nor reserved. */
  predicate GoodNumber(field: FieldSpec, reserved: set<int>) {
    && field.number.Some? && 0 < field.number.value < 0x2000_0000
    && !(19_000 <= field.number.value <= 19_999) && field.number.value !in reserved
  }

  /** What the check promises: usable, unreserved numbers, unique in the message and in each record. */
  ghost predicate WellNumbered(fields: seq<FieldSpec>, reserved: set<int>, reservedNames: set<string>)
    decreases fields
  {
    && DistinctNumbers(fields)
    && (forall i :: 0 <= i < |fields| ==>
          && GoodNumber(fields[i], reserved)
          && fields[i].name !in reservedNames
          && (fields[i].IsRecord() ==> WellNumbered(fields[i].recordFields, {}, {})))
  }

  ghost predicate Clear(fields: seq<FieldSpec>, i: nat, reserved: set<int>)
    requires i < |fields|
  {
    FaultOf(fields[i].number, Taken(fields, i, reserved), reserved).None?
  }

  lemma {:induction false} TakenExact(fields: seq<FieldSpec>, n: nat, reserved: set<int>, number: int)
    requires n <= |fields|
    requires forall i :: 0 <= i < n ==> Clear(fields, i, reserved)
    ensures number in Taken(fields, n, reserved) <==> exists i :: 0 <= i < n && fields[i].number == Some(number)
  {
    if n > 0 {
      TakenExact(fields, n - 1, reserved, number);
      assert Clear(fields, n - 1, reserved);
    }
  }

  ghost predicate FaultFree(fields: seq<FieldSpec>, i: nat, reserved: set<int>, reservedNames: set<string>)
    requires i < |fields|
  {
    && Clear(fields, i, reserved)
    && fields[i].name !in reservedNames
    && (fields[i].IsRecord() ==> FieldFindings(fields[i].recordFields, |fields[i].recordFields|, {}, {}, []) == [])
  }

  /** Whether there are findings does not depend on the path prefix they carry. */
  lemma {:induction false} LabelsDoNotMatter(fields: seq<FieldSpec>, n: nat, reserved: set<int>, reservedNames: set<string>,
                                             prefix: seq<string>)
    requires n <= |fields|
    ensures FieldFindings(fields, n, reserved, reservedNames, prefix) == [] <==>
            forall i :: 0 <= i < n ==> FaultFree(fields, i, reserved, reservedNames)
    decreases fields, n
  {
    if n > 0 {
      LabelsDoNotMatter(fields, n - 1, reserved, reservedNames, prefix);
      var field := fields[n - 1];
      if field.IsRecord() {
        NestedLabelsDoNotMatter(field.recordFields, prefix + [field.name]);
      }
      assert FieldFindings(fields, n, reserved, reservedNames, prefix) == [] <==>
             FieldFindings(fields, n - 1, reserved, reservedNames, prefix) == [] &&
             FaultFree(fields, n - 1, reserved, reservedNames);
    }
  }

  lemma {:induction false} NestedLabelsDoNotMatter(fields: seq<FieldSpec>, prefix: seq<string>)
    ensures FieldFindings(fields, |fields|, {}, {}, prefix) == [] <==> FieldFindings(fields, |fields|, {}, {}, []) == []
    decreases fields, |fields| + 1
  {
    LabelsDoNotMatter(fields, |fields|, {}, {}, []);
    LabelsDoNotMatter(fields, |fields|, {}, {}, prefix);
  }

  lemma {:induction false} FindingsExact(fields: seq<FieldSpec>, reserved: set<int>, reservedNames: set<string>, prefix: seq<string>)
    ensures FieldFindings(fields, |fields|, reserved, reservedNames, prefix) == [] <==>
            WellNumbered(fields, reserved, reservedNames)
    decreases fields
  {
    LabelsDoNotMatter(fields, |fields|, reserved, reservedNames, prefix);
    forall i | 0 <= i < |fields| && fields[i].IsRecord()
      ensures FieldFindings(fields[i].recordFields, |fields[i].recordFields|, {}, {}, []) == [] <==>
              WellNumbered(fields[i].recordFields, {}, {})
    {
      FindingsExact(fields[i].recordFields, {}, {}, []);
    }
    AllClear(fields, |fields|, reserved);
    assert fields[..|fields|] == fields;
    if forall i :: 0 <= i < |fields| ==> FaultFree(fields, i, reserved, reservedNames) {
      forall i | 0 <= i < |fields| ensures Clear(fields, i, reserved) {
        assert FaultFree(fields, i, reserved, reservedNames);
      }
      forall i | 0 <= i < |fields|
        ensures fields[i].name !in reservedNames
        ensures fields[i].IsRecord() ==> WellNumbered(fields[i].recordFields, {}, {})
      {
        assert FaultFree(fields, i, reserved, reservedNames);
      }
    }
  }

  /** The scan finds the first `n` fields clear exactly when their numbers are good and distinct. */
  lemma {:induction false} AllClear(fields: seq<FieldSpec>, n: nat, reserved: set<int>)
    requires n <= |fields|
    ensures (forall i :: 0 <= i < n ==> Clear(fields, i, reserved)) <==>
            (forall i :: 0 <= i < n ==> GoodNumber(fields[i], reserved)) && DistinctNumbers(fields[..n])
  {
    if n > 0 {
      AllClear(fields, n - 1, reserved);
      assert fields[..n] == fields[..n - 1] + [fields[n - 1]];
      if forall i :: 0 <= i < n - 1 ==> Clear(fields, i, reserved) {
        if fields[n - 1].number.Some? {
          TakenExact(fields, n - 1, reserved, fields[n - 1].number.value);
        }
        assert Clear(fields, n - 1, reserved) <==>
               GoodNumber(fields[n - 1], reserved) &&
               forall i :: 0 <= i < n - 1 ==> fields[i].number != fields[n - 1].number;
      }
    } else {
      assert fields[..0] == [];
    }
  }

  // ---------------------------------------------------------------- a checked contract owns its numbers

  ghost predicate DeclaredBy(fields: seq<FieldSpec>, scope: string, i: nat, use: Use) {
    i < |fields| && fields[i].number == Some(use.slot.number) && fields[i].name == use.name && use.slot.scope == scope
  }

  lemma FlatUses(fields: seq<FieldSpec>, scope: string, use: Use) returns (i: nat)
    requires forall k :: 0 <= k < |fields| ==> !fields[k].IsRecord()
    requires UsedBySchema(Schema(FieldSnapshots(fields)), scope, use)
    ensures DeclaredBy(fields, scope, i, use)
  {
    var entries := FieldSnapshots(fields);
    var name :| name in entries && UsedByField(scope, name, entries[name], use);
    i := SnapshotsStemFromFields(fields, name);
  }

  /** A use stems from a field of the message (no owner) or of one of its records. */
  lemma MessageUses(fields: seq<FieldSpec>, use: Use) returns (record: Option<nat>, i: nat)
    requires RecordRules(fields)
    requires UsedBySchema(Schema(FieldSnapshots(fields)), "", use)
    ensures record.None? ==> DeclaredBy(fields, "", i, use)
    ensures record.Some? ==>
      && record.value < |fields| && fields[record.value].IsRecord()
      && DeclaredBy(fields[record.value].recordFields, fields[record.value].recordName.value, i, use)
  {
    var entries := FieldSnapshots(fields);
    var name :| name in entries && UsedByField("", name, entries[name], use);
    var at := SnapshotsStemFromFields(fields, name);
    var field := fields[at];
    if field.number == Some(use.slot.number) && use.slot.scope == "" && use.name == name {
      record, i := None, at;
    } else {
      record := Some(at);
      i := FlatUses(field.recordFields, field.recordName.value, use);
    }
  }

  /** A contract that passes the number check and the record rules starts a history without a disputed number. */
  lemma CheckedContractOwnsNumbers(spec: ContractSpec)
    requires RecordRules(spec.fields) && WellNumbered(spec.fields, spec.reserved, spec.reservedNames)
    ensures NumbersOwned([SchemaSnapshot(spec)])
  {
    var schema := SchemaSnapshot(spec).Declared();
    forall a, b | UsedBySchema(schema, "", a) && UsedBySchema(schema, "", b) && a.slot == b.slot
      ensures a.name == b.name
    {
      var recordA, i := MessageUses(spec.fields, a);
      var recordB, j := MessageUses(spec.fields, b);
      if recordA.Some? && recordB.Some? {
        assert recordA == recordB;
        assert WellNumbered(spec.fields[recordA.value].recordFields, {}, {});
      }
    }
  }
}

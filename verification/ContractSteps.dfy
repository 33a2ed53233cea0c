/** Steps between contracts, stated on their fields and not on the snapshots a baseline keeps of them. */
module ContractSteps {
  import opened Wrappers
  import opened Snapshots
  import opened EvolutionPolicy
  import opened PolicyLaws
  import opened PolicyDetails
  import opened AllPairs
  import opened Versions
  import opened FieldNumbers
  import opened Contracts
  import opened Baselines

  // ---------------------------------------------------------------- when a contract survives an edit

  /** No two fields of the message, or of one record, share a name. */
  ghost predicate DistinctNames(fields: seq<FieldSpec>)
    decreases fields
  {
    && (forall i, j :: 0 <= i < j < |fields| ==> fields[i].name != fields[j].name)
    && (forall i :: 0 <= i < |fields| && fields[i].IsRecord() ==> DistinctNames(fields[i].recordFields))
  }

  ghost predicate Named(fields: seq<FieldSpec>, name: string) {
    exists i :: 0 <= i < |fields| && fields[i].name == name
  }

  /** Two declarations agree on an attribute; an empty item kind is none, and only records have a record name. */
  ghost predicate SameDeclared(attribute: Attribute, older: FieldSpec, newer: FieldSpec) {
    match attribute
    case LogicalType => older.logicalType == newer.logicalType
    case PhysicalType => older.kind == newer.kind
    case Items => older.itemKind.GetOr("") == newer.itemKind.GetOr("")
    case Required => older.required == newer.required
    case ProtoFieldNumber => older.number == newer.number
    case RecordName =>
      (if older.IsRecord() then older.recordName else None) == (if newer.IsRecord() then newer.recordName else None)
  }

  /** What the policy lets happen to a declared field at a level. */
  ghost predicate FieldSurvives(older: FieldSpec, newer: FieldSpec, level: ChangeClass)
    decreases older
  {
    && (forall attribute :: SameDeclared(attribute, older, newer))
    && (level == Identical ==> older.options == newer.options)
    && BindingWithin(older.binding, newer.binding, level)
    && (older.IsRecord() ==> FieldsSurvive(older.recordFields, newer.recordFields, level))
  }

  /** No field is lost, every common one survives, and only a backward change adds fields, optional ones. */
  ghost predicate FieldsSurvive(older: seq<FieldSpec>, newer: seq<FieldSpec>, level: ChangeClass)
    decreases older
  {
    && (forall i :: 0 <= i < |older| ==> Named(newer, older[i].name))
    && (forall i, j :: 0 <= i < |older| && 0 <= j < |newer| && older[i].name == newer[j].name ==>
          FieldSurvives(older[i], newer[j], level))
    && (forall j :: 0 <= j < |newer| && !Named(older, newer[j].name) ==> level == Backward && !newer[j].required)
  }

  ghost predicate Survives(older: ContractSpec, newer: ContractSpec, level: ChangeClass) {
    FieldsSurvive(older.fields, newer.fields, level) && BindingWithin(older.binding, newer.binding, level)
  }

  /** The mildest level at which a contract survives an edit. */
  ghost function DeclaredClass(older: ContractSpec, newer: ContractSpec): ChangeClass {
    if Survives(older, newer, Identical) then Identical
    else if Survives(older, newer, Backward) then Backward
    else Breaking
  }

  // ---------------------------------------------------------------- what a snapshot keeps of a field

  lemma {:induction false} SnapshotNames(fields: seq<FieldSpec>, name: string)
    ensures name in FieldSnapshots(fields) <==> Named(fields, name)
  {
    if fields != [] {
      var front, last := fields[..|fields| - 1], fields[|fields| - 1];
      SnapshotNames(front, name);
      if Named(fields, name) && name != last.name {
        var i :| 0 <= i < |fields| && fields[i].name == name;
        assert front[i].name == name;
      }
      if Named(front, name) {
        var i :| 0 <= i < |front| && front[i].name == name;
        assert fields[i].name == name;
      }
      assert name == last.name ==> fields[|fields| - 1].name == name;
    }
  }

  /** Under distinct names every field has its own entry. */
  lemma SnapshotOf(fields: seq<FieldSpec>, i: nat)
    requires DistinctNames(fields) && i < |fields|
    ensures fields[i].name in FieldSnapshots(fields) && FieldSnapshots(fields)[fields[i].name] == FieldSnapshot(fields[i])
  {
    hide FieldSnapshot;
    SnapshotNames(fields, fields[i].name);
    var k := SnapshotsStemFromFields(fields, fields[i].name);
    assert k == i;
  }

  /** Snapshots differ in an attribute exactly when the declarations do. */
  lemma AttributeKept(attribute: Attribute, older: FieldSpec, newer: FieldSpec)
    ensures SameAttribute(attribute, FieldSnapshot(older), FieldSnapshot(newer)) <==> SameDeclared(attribute, older, newer)
  {
    hide FieldSnapshots;
  }

  lemma OptionsKept(field: FieldSpec)
    ensures FieldSnapshot(field).options.GetOr(map[]) == field.options
    ensures FieldSnapshot(field).binding.GetOr(map[]) == field.binding
    ensures FieldSnapshot(field).required == Some(field.required)
    ensures FieldSnapshot(field).record == if field.IsRecord() then Some(Schema(FieldSnapshots(field.recordFields))) else None
  {
    hide FieldSnapshots;
  }

  // ---------------------------------------------------------------- the class of an edit

  lemma {:induction false} FieldWithinExact(older: FieldSpec, newer: FieldSpec, level: ChangeClass)
    requires level != Breaking
    requires older.IsRecord() ==> DistinctNames(older.recordFields)
    requires newer.IsRecord() ==> DistinctNames(newer.recordFields)
    ensures FieldWithin(FieldSnapshot(older), FieldSnapshot(newer), level) <==> FieldSurvives(older, newer, level)
    decreases older
  {
    hide FieldSnapshot, SameDeclared, SameAttribute, FieldsSurvive, SchemaWithin, BindingWithin, DistinctNames;
    OptionsKept(older);
    OptionsKept(newer);
    forall attribute
      ensures SameAttribute(attribute, FieldSnapshot(older), FieldSnapshot(newer)) <==> SameDeclared(attribute, older, newer)
    {
      AttributeKept(attribute, older, newer);
    }
    if forall attribute :: SameDeclared(attribute, older, newer) {
      SameKindOfField(older, newer);
    }
    if older.IsRecord() && newer.IsRecord() {
      FieldsWithinExact(older.recordFields, newer.recordFields, level);
    }
  }

  lemma SameKindOfField(older: FieldSpec, newer: FieldSpec)
    requires forall attribute :: SameDeclared(attribute, older, newer)
    ensures older.IsRecord() <==> newer.IsRecord()
  {
    assert SameDeclared(PhysicalType, older, newer) && SameDeclared(Items, older, newer);
  }

  /** What an entry of the older snapshot becomes, and what an entry only of the newer one may be. */
  ghost predicate EntryWithin(older: seq<FieldSpec>, newer: seq<FieldSpec>, name: string, level: ChangeClass) {
    var a, b := FieldSnapshots(older), FieldSnapshots(newer);
    && (name in a ==> name in b && FieldWithin(a[name], b[name], level))
    && (name in b && name !in a ==> AdmitsAdded(b[name], level))
  }

  lemma EntriesWithin(older: seq<FieldSpec>, newer: seq<FieldSpec>, level: ChangeClass)
    requires level != Breaking
    ensures SchemaWithin(Schema(FieldSnapshots(older)), Schema(FieldSnapshots(newer)), level) <==>
            forall name :: EntryWithin(older, newer, name, level)
  {
    hide FieldSnapshots, FieldWithin, AdmitsAdded;
    var a, b := FieldSnapshots(older), FieldSnapshots(newer);
    if forall name :: EntryWithin(older, newer, name, level) {
      forall name | name in a ensures name in b && FieldWithin(a[name], b[name], level) {
        assert EntryWithin(older, newer, name, level);
      }
      forall name | name in b && name !in a ensures AdmitsAdded(b[name], level) {
        assert EntryWithin(older, newer, name, level);
      }
    }
  }

  lemma {:induction false} FieldsWithinExact(older: seq<FieldSpec>, newer: seq<FieldSpec>, level: ChangeClass)
    requires level != Breaking && DistinctNames(older) && DistinctNames(newer)
    ensures SchemaWithin(Schema(FieldSnapshots(older)), Schema(FieldSnapshots(newer)), level) <==>
            FieldsSurvive(older, newer, level)
    decreases older
  {
    hide FieldSnapshot, FieldSnapshots, FieldSurvives, FieldWithin, SchemaWithin, EntryWithin, Named;
    EntriesWithin(older, newer, level);
    forall i, j | 0 <= i < |older| && 0 <= j < |newer| && older[i].name == newer[j].name
      ensures EntryWithin(older, newer, older[i].name, level) <==> FieldSurvives(older[i], newer[j], level)
    {
      FieldWithinExact(older[i], newer[j], level);
      SharedEntry(older, newer, i, j, level);
    }
    forall i | 0 <= i < |older| && !Named(newer, older[i].name) ensures !EntryWithin(older, newer, older[i].name, level) {
      LostEntry(older, newer, i, level);
    }
    forall j | 0 <= j < |newer| && !Named(older, newer[j].name)
      ensures EntryWithin(older, newer, newer[j].name, level) <==> level == Backward && !newer[j].required
    {
      AddedEntry(older, newer, j, level);
    }
    if FieldsSurvive(older, newer, level) {
      forall name ensures EntryWithin(older, newer, name, level) {
        NoOtherEntry(older, newer, name, level);
      }
    }
  }

  lemma SharedEntry(older: seq<FieldSpec>, newer: seq<FieldSpec>, i: nat, j: nat, level: ChangeClass)
    requires DistinctNames(older) && DistinctNames(newer)
    requires i < |older| && j < |newer| && older[i].name == newer[j].name
    ensures EntryWithin(older, newer, older[i].name, level) <==>
            FieldWithin(FieldSnapshot(older[i]), FieldSnapshot(newer[j]), level)
  {
    hide FieldSnapshot, FieldSnapshots, FieldWithin, DistinctNames;
    SnapshotOf(older, i);
    SnapshotOf(newer, j);
  }

  lemma LostEntry(older: seq<FieldSpec>, newer: seq<FieldSpec>, i: nat, level: ChangeClass)
    requires DistinctNames(older) && i < |older| && !Named(newer, older[i].name)
    ensures !EntryWithin(older, newer, older[i].name, level)
  {
    hide FieldSnapshot, FieldSnapshots, FieldWithin, DistinctNames;
    SnapshotOf(older, i);
    SnapshotNames(newer, older[i].name);
  }

  lemma AddedEntry(older: seq<FieldSpec>, newer: seq<FieldSpec>, j: nat, level: ChangeClass)
    requires level != Breaking && DistinctNames(newer) && j < |newer| && !Named(older, newer[j].name)
    ensures EntryWithin(older, newer, newer[j].name, level) <==> level == Backward && !newer[j].required
  {
    hide FieldSnapshot, FieldSnapshots, FieldWithin, DistinctNames;
    SnapshotOf(newer, j);
    SnapshotNames(older, newer[j].name);
    OptionsKept(newer[j]);
  }

  /** A name in neither contract has no entry; any other is that of a field. */
  lemma NoOtherEntry(older: seq<FieldSpec>, newer: seq<FieldSpec>, name: string, level: ChangeClass)
    requires forall i :: 0 <= i < |older| && older[i].name == name ==> Named(newer, name)
    requires forall i, j :: 0 <= i < |older| && 0 <= j < |newer| && older[i].name == newer[j].name ==>
      EntryWithin(older, newer, older[i].name, level)
    requires forall j :: 0 <= j < |newer| && !Named(older, newer[j].name) ==> EntryWithin(older, newer, newer[j].name, level)
    ensures EntryWithin(older, newer, name, level)
  {
    hide FieldSnapshots, FieldWithin, AdmitsAdded;
    SnapshotNames(older, name);
    SnapshotNames(newer, name);
  }

  /**
   The class of an edit is the mildest level at which the declared fields, records included, and the
   message binding survive it.
   */
  lemma ClassAsDeclared(older: ContractSpec, newer: ContractSpec)
    requires DistinctNames(older.fields) && DistinctNames(newer.fields)
    ensures ClassOf(SchemaSnapshot(older), SchemaSnapshot(newer)) == DeclaredClass(older, newer)
  {
    hide ClassOf, FieldSnapshots, SchemaWithin, FieldsSurvive, DistinctNames, BindingWithin;
    var a, b := SchemaSnapshot(older), SchemaSnapshot(newer);
    ClassIsExact(a, b, Identical);
    ClassIsExact(a, b, Backward);
    FieldsWithinExact(older.fields, newer.fields, Identical);
    FieldsWithinExact(older.fields, newer.fields, Backward);
  }

  /** A shared field that differs in a breaking attribute makes the edit breaking, and the report names both. */
  lemma AttributeBreaks(older: ContractSpec, newer: ContractSpec, i: nat, j: nat, attribute: Attribute)
    requires DistinctNames(older.fields) && DistinctNames(newer.fields)
    requires i < |older.fields| && j < |newer.fields| && older.fields[i].name == newer.fields[j].name
    requires !SameDeclared(attribute, older.fields[i], newer.fields[j])
    ensures ClassOf(SchemaSnapshot(older), SchemaSnapshot(newer)) == Breaking
    ensures AttributeChanged(older.fields[i].name, attribute) in ChangeDetails(SchemaSnapshot(older), SchemaSnapshot(newer))
  {
    hide ClassOf, ChangeDetails, FieldSnapshot, FieldSnapshots, SameDeclared, SameAttribute, DistinctNames;
    var name, detail := older.fields[i].name, AttributeChanged(older.fields[i].name, attribute);
    ClassAsDeclared(older, newer);
    forall level ensures !FieldsSurvive(older.fields, newer.fields, level) {
      assert !FieldSurvives(older.fields[i], newer.fields[j], level);
    }
    SnapshotOf(older.fields, i);
    SnapshotOf(newer.fields, j);
    AttributeKept(attribute, older.fields[i], newer.fields[j]);
    DetailsAreExact(SchemaSnapshot(older), SchemaSnapshot(newer), detail);
    assert "" + name == name;
    assert FieldDiffers(name, FieldSnapshots(older.fields)[name], FieldSnapshots(newer.fields)[name], detail);
  }

  /** The step between two contracts passes exactly with the bump that the edit of their fields requires. */
  lemma StepAsDeclared(older: ContractSpec, newer: ContractSpec)
    requires DistinctNames(older.fields) && DistinctNames(newer.fields)
    ensures StepErrors(SchemaSnapshot(older), SchemaSnapshot(newer)) == [] <==>
            Bumps(ParseVersion(older.version), ParseVersion(newer.version), DeclaredClass(older, newer))
  {
    hide ClassOf, DeclaredClass, ParseVersion, Bumps, DistinctNames;
    ClassAsDeclared(older, newer);
  }

  // ---------------------------------------------------------------- when nothing is recorded

  /** Nothing a snapshot keeps has changed. */
  ghost predicate SameContract(older: ContractSpec, newer: ContractSpec) {
    && older.contractId == newer.contractId && older.version == newer.version
    && older.fingerprints == newer.fingerprints
    && Survives(older, newer, Identical)
  }

  lemma {:induction false} SameField(older: FieldSpec, newer: FieldSpec)
    requires older.IsRecord() ==> DistinctNames(older.recordFields)
    requires newer.IsRecord() ==> DistinctNames(newer.recordFields)
    ensures FieldSnapshot(older) == FieldSnapshot(newer) <==> FieldSurvives(older, newer, Identical)
    decreases older
  {
    hide SameDeclared, FieldsSurvive, DistinctNames, FieldSnapshots;
    var a, b := FieldSnapshot(older), FieldSnapshot(newer);
    forall attribute ensures SameAttribute(attribute, a, b) <==> SameDeclared(attribute, older, newer) {
      AttributeKept(attribute, older, newer);
    }
    if forall attribute :: SameDeclared(attribute, older, newer) {
      SameKindOfField(older, newer);
      SameAttributes(a, b);
    }
    if older.IsRecord() && newer.IsRecord() {
      SameFields(older.recordFields, newer.recordFields);
    }
  }

  lemma SameAttributes(a: Field, b: Field)
    requires forall attribute :: SameAttribute(attribute, a, b)
    ensures a == b.(options := a.options, binding := a.binding, record := a.record)
  {
    assert SameAttribute(LogicalType, a, b) && SameAttribute(PhysicalType, a, b) && SameAttribute(Items, a, b);
    assert SameAttribute(Required, a, b) && SameAttribute(ProtoFieldNumber, a, b) && SameAttribute(RecordName, a, b);
  }

  lemma {:induction false} SameFields(older: seq<FieldSpec>, newer: seq<FieldSpec>)
    requires DistinctNames(older) && DistinctNames(newer)
    ensures FieldSnapshots(older) == FieldSnapshots(newer) <==> FieldsSurvive(older, newer, Identical)
    decreases older
  {
    hide FieldSnapshot, FieldSnapshots, FieldSurvives, Named;
    var a, b := FieldSnapshots(older), FieldSnapshots(newer);
    forall i, j | 0 <= i < |older| && 0 <= j < |newer| && older[i].name == newer[j].name
      ensures older[i].name in a && older[i].name in b && (a[older[i].name] == b[older[i].name] <==> FieldSurvives(older[i], newer[j], Identical))
    {
      SnapshotOf(older, i);
      SnapshotOf(newer, j);
      SameField(older[i], newer[j]);
    }
    if a == b {
      forall i | 0 <= i < |older| ensures Named(newer, older[i].name) {
        SnapshotOf(older, i);
        SnapshotNames(newer, older[i].name);
      }
      forall j | 0 <= j < |newer| ensures Named(older, newer[j].name) {
        SnapshotOf(newer, j);
        SnapshotNames(older, newer[j].name);
      }
    }
    if FieldsSurvive(older, newer, Identical) {
      forall name ensures (name in a <==> name in b) && (name in a ==> a[name] == b[name]) {
        SameEntry(older, newer, name);
      }
      assert a == b;
    }
  }

  lemma SameEntry(older: seq<FieldSpec>, newer: seq<FieldSpec>, name: string)
    requires forall i :: 0 <= i < |older| && older[i].name == name ==> Named(newer, name)
    requires forall j :: 0 <= j < |newer| && newer[j].name == name ==> Named(older, name)
    requires forall i, j :: 0 <= i < |older| && 0 <= j < |newer| && older[i].name == newer[j].name ==>
      var a, b := FieldSnapshots(older), FieldSnapshots(newer);
      older[i].name in a && older[i].name in b && a[older[i].name] == b[older[i].name]
    ensures var a, b := FieldSnapshots(older), FieldSnapshots(newer);
      (name in a <==> name in b) && (name in a ==> a[name] == b[name])
  {
    hide FieldSnapshots;
    SnapshotNames(older, name);
    SnapshotNames(newer, name);
  }

  /** Two contracts have the same snapshot exactly when nothing a snapshot keeps has changed. */
  lemma SnapshotsEqual(older: ContractSpec, newer: ContractSpec)
    requires DistinctNames(older.fields) && DistinctNames(newer.fields)
    ensures SchemaSnapshot(older) == SchemaSnapshot(newer) <==> SameContract(older, newer)
  {
    hide FieldSnapshots, FieldsSurvive, DistinctNames;
    SameFields(older.fields, newer.fields);
  }

  /**
   A contract edited after it was recorded may be recorded again exactly when nothing changed, or with
   the bump that the edit of its fields requires and without disputing a number of its history.
   */
  lemma EditIsRecordable(history: seq<Snapshot>, older: ContractSpec, newer: ContractSpec)
    requires history != [] && Last(history) == SchemaSnapshot(older)
    requires DistinctNames(older.fields) && DistinctNames(newer.fields)
    ensures Recordable(history, newer) <==>
      || SameContract(older, newer)
      || (&& Bumps(ParseVersion(older.version), ParseVersion(newer.version), DeclaredClass(older, newer))
          && NumbersOwned(history + [SchemaSnapshot(newer)]))
  {
    hide ClassOf, DeclaredClass, ParseVersion, Bumps, DistinctNames, NumbersOwned, FieldSnapshots, SameContract;
    ClassAsDeclared(older, newer);
    SnapshotsEqual(older, newer);
  }

  // ---------------------------------------------------------------- numbers as declared

  /** A field of the message, or of the record of this name, has the number. */
  ghost predicate Declares(fields: seq<FieldSpec>, use: Use) {
    || (exists i :: DeclaredBy(fields, "", i, use))
    || (exists r :: 0 <= r < |fields| && InRecord(fields[r], use))
  }

  ghost predicate InRecord(field: FieldSpec, use: Use) {
    && field.IsRecord() && field.recordName.Some?
    && exists i :: DeclaredBy(field.recordFields, field.recordName.value, i, use)
  }

  lemma MessageDeclares(fields: seq<FieldSpec>, i: nat, use: Use)
    requires DistinctNames(fields) && DeclaredBy(fields, "", i, use)
    ensures UsedBySchema(Schema(FieldSnapshots(fields)), "", use)
  {
    hide FieldSnapshots, DistinctNames;
    SnapshotOf(fields, i);
    assert UsedByField("", fields[i].name, FieldSnapshots(fields)[fields[i].name], use);
  }

  lemma RecordDeclares(fields: seq<FieldSpec>, r: nat, use: Use)
    requires DistinctNames(fields) && RecordRules(fields) && r < |fields| && InRecord(fields[r], use)
    ensures UsedBySchema(Schema(FieldSnapshots(fields)), "", use)
  {
    hide FieldSnapshots;
    var field := fields[r];
    var nested := FieldSnapshots(field.recordFields);
    var i :| DeclaredBy(field.recordFields, field.recordName.value, i, use);
    SnapshotOf(fields, r);
    SnapshotOf(field.recordFields, i);
    assert UsedByField(use.slot.scope, use.name, nested[use.name], use);
    assert UsedBySchema(Schema(nested), use.slot.scope, use);
    assert UsedByField("", field.name, FieldSnapshots(fields)[field.name], use);
  }

  /** The numbers a snapshot claims are exactly those declared in the message and, under its name, in each record. */
  lemma UsesAsDeclared(fields: seq<FieldSpec>, use: Use)
    requires DistinctNames(fields) && RecordRules(fields)
    ensures UsedBySchema(Schema(FieldSnapshots(fields)), "", use) <==> Declares(fields, use)
  {
    hide FieldSnapshots, UsedBySchema, DistinctNames, DeclaredBy;
    if UsedBySchema(Schema(FieldSnapshots(fields)), "", use) {
      var record, i := MessageUses(fields, use);
      if record.Some? {
        assert InRecord(fields[record.value], use);
      }
    }
    if i :| DeclaredBy(fields, "", i, use) {
      MessageDeclares(fields, i, use);
    }
    if r :| 0 <= r < |fields| && InRecord(fields[r], use) {
      RecordDeclares(fields, r, use);
    }
  }

  function SnapshotsOf(specs: seq<ContractSpec>): (history: seq<Snapshot>)
    ensures |history| == |specs| && forall i :: 0 <= i < |specs| ==> history[i] == SchemaSnapshot(specs[i])
  {
    seq(|specs|, i requires 0 <= i < |specs| => SchemaSnapshot(specs[i]))
  }

  ghost predicate DeclaredIn(specs: seq<ContractSpec>, use: Use) {
    exists i :: 0 <= i < |specs| && Declares(specs[i].fields, use)
  }

  /**
   The snapshots of successive contracts dispute no number exactly when no number was ever declared for
   two fields of the message, or for two fields of records of one name.
   */
  lemma OwnedAsDeclared(specs: seq<ContractSpec>)
    requires forall i :: 0 <= i < |specs| ==> DistinctNames(specs[i].fields) && RecordRules(specs[i].fields)
    ensures NumbersOwned(SnapshotsOf(specs)) <==>
            forall a, b :: DeclaredIn(specs, a) && DeclaredIn(specs, b) && a.slot == b.slot ==> a.name == b.name
  {
    hide UsedBySchema, Declares, DistinctNames, RecordRules, FieldSnapshots;
    forall use ensures UsedIn(SnapshotsOf(specs), use) <==> DeclaredIn(specs, use) {
      forall i | 0 <= i < |specs|
        ensures UsedBySchema(SnapshotsOf(specs)[i].Declared(), "", use) <==> Declares(specs[i].fields, use)
      {
        UsesAsDeclared(specs[i].fields, use);
      }
    }
  }
}

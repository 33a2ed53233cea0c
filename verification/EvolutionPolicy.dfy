/** Change classification of two snapshots, and the version bump each class requires. */
module EvolutionPolicy {
  import opened Wrappers
  import opened Ordering
  import opened Snapshots

  datatype ChangeClass = Identical | Backward | Breaking {
    function Order(): nat {
      match this
      case Identical => 0
      case Backward => 1
      case Breaking => 2
    }
  }

  function Worse(a: ChangeClass, b: ChangeClass): ChangeClass {
    if b.Order() > a.Order() then b else a
  }

  datatype Attribute = LogicalType | PhysicalType | Items | Required | ProtoFieldNumber | RecordName

  const BREAKING_ATTRIBUTES: seq<Attribute> :=
    [LogicalType, PhysicalType, Items, Required, ProtoFieldNumber, RecordName]

  predicate SameAttribute(attribute: Attribute, older: Field, newer: Field) {
    match attribute
    case LogicalType => older.logicalType == newer.logicalType
    case PhysicalType => older.physicalType == newer.physicalType
    case Items => older.items == newer.items
    case Required => older.required == newer.required
    case ProtoFieldNumber => older.number == newer.number
    case RecordName => older.recordName == newer.recordName
  }

  datatype Owner = Message | FieldAt(path: string)

  datatype Detail =
    | RemovedField(path: string)
    | AddedRequired(path: string)
    | AddedOptional(path: string)
    | AttributeChanged(path: string, attribute: Attribute)
    | ConstraintsChanged(path: string)
    | BindingRemoved(owner: Owner, key: string)
    | BindingAdded(owner: Owner, key: string)
    | BindingChanged(owner: Owner, key: string)
  {
    function Severity(): ChangeClass {
      if AddedOptional? || ConstraintsChanged? || BindingAdded? then Backward else Breaking
    }
  }

  /** The class of a report that holds exactly these details. */
  function Worst(details: seq<Detail>): ChangeClass {
    if details == [] then Identical
    else Worse(Worst(details[..|details| - 1]), details[|details| - 1].Severity())
  }

  lemma WorstOfMore(details: seq<Detail>, detail: Detail)
    ensures Worst(details + [detail]) == Worse(Worst(details), detail.Severity())
  {
    assert (details + [detail])[..|details|] == details;
  }

  // ------------------------------------------- what each step adds to the details noted so far

  function NoteKey(noted: seq<Detail>, owner: Owner, key: string, older: Binding, newer: Binding): seq<Detail> {
    if key !in newer then noted + [BindingRemoved(owner, key)]
    else if key !in older then noted + [BindingAdded(owner, key)]
    else if older[key] != newer[key] then noted + [BindingChanged(owner, key)]
    else noted
  }

  /** The first `n` keys. */
  function NoteKeys(noted: seq<Detail>, owner: Owner, keys: seq<string>, n: nat, older: Binding, newer: Binding): seq<Detail>
    requires n <= |keys|
  {
    if n == 0 then noted
    else NoteKey(NoteKeys(noted, owner, keys, n - 1, older, newer), owner, keys[n - 1], older, newer)
  }

  function NoteBinding(noted: seq<Detail>, owner: Owner, older: Binding, newer: Binding): seq<Detail> {
    var keys := Sorted(older.Keys + newer.Keys);
    NoteKeys(noted, owner, keys, |keys|, older, newer)
  }

  function NoteAttribute(noted: seq<Detail>, path: string, attribute: Attribute, older: Field, newer: Field): seq<Detail> {
    if SameAttribute(attribute, older, newer) then noted else noted + [AttributeChanged(path, attribute)]
  }

  function NoteAttributes(noted: seq<Detail>, path: string, n: nat, older: Field, newer: Field): seq<Detail>
    requires n <= |BREAKING_ATTRIBUTES|
  {
    if n == 0 then noted
    else NoteAttribute(NoteAttributes(noted, path, n - 1, older, newer), path, BREAKING_ATTRIBUTES[n - 1], older, newer)
  }

  function NoteConstraints(noted: seq<Detail>, path: string, older: Field, newer: Field): seq<Detail> {
    if older.options.GetOr(map[]) != newer.options.GetOr(map[]) then noted + [ConstraintsChanged(path)] else noted
  }

  function NoteRecord(noted: seq<Detail>, path: string, older: Field, newer: Field): seq<Detail>
    decreases older, 0
  {
    if older.record.Some? && newer.record.Some?
    then NoteSchema(noted, older.record.value, newer.record.value, path + ".") else noted
  }

  function NoteField(noted: seq<Detail>, path: string, older: Field, newer: Field): seq<Detail>
    decreases older, 1
  {
    var attributes := NoteAttributes(noted, path, |BREAKING_ATTRIBUTES|, older, newer);
    var constraints := NoteConstraints(attributes, path, older, newer);
    var bindings := NoteBinding(constraints, FieldAt(path), older.binding.GetOr(map[]), newer.binding.GetOr(map[]));
    NoteRecord(bindings, path, older, newer)
  }

  function NoteRemoved(noted: seq<Detail>, names: seq<string>, n: nat, prefix: string): seq<Detail>
    requires n <= |names|
  {
    if n == 0 then noted else NoteRemoved(noted, names, n - 1, prefix) + [RemovedField(prefix + names[n - 1])]
  }

  predicate AllIn(names: seq<string>, schema: Schema) {
    forall i :: 0 <= i < |names| ==> names[i] in schema.fields
  }

  function NoteCommon(noted: seq<Detail>, names: seq<string>, n: nat, older: Schema, newer: Schema, prefix: string): seq<Detail>
    requires n <= |names| && AllIn(names, older) && AllIn(names, newer)
    decreases older, 0, n
  {
    if n == 0 then noted
    else
      var name := names[n - 1];
      NoteField(NoteCommon(noted, names, n - 1, older, newer, prefix), prefix + name,
                older.fields[name], newer.fields[name])
  }

  function AddedDetail(path: string, added: Field): Detail {
    if added.required == Some(true) then AddedRequired(path) else AddedOptional(path)
  }

  function NoteAdded(noted: seq<Detail>, names: seq<string>, n: nat, newer: Schema, prefix: string): seq<Detail>
    requires n <= |names| && AllIn(names, newer)
  {
    if n == 0 then noted
    else
      NoteAdded(noted, names, n - 1, newer, prefix) + [AddedDetail(prefix + names[n - 1], newer.fields[names[n - 1]])]
  }

  function RemovedNames(older: Schema, newer: Schema): (names: seq<string>)
    ensures AllIn(names, older)
  {
    Sorted(older.fields.Keys - newer.fields.Keys)
  }

  function CommonNames(older: Schema, newer: Schema): (names: seq<string>)
    ensures AllIn(names, older) && AllIn(names, newer)
  {
    Sorted(older.fields.Keys * newer.fields.Keys)
  }

  function NoteSchema(noted: seq<Detail>, older: Schema, newer: Schema, prefix: string): seq<Detail>
    decreases older, 1
  {
    var removed := RemovedNames(older, newer);
    var common := CommonNames(older, newer);
    var added := RemovedNames(newer, older);
    NoteAdded(NoteCommon(NoteRemoved(noted, removed, |removed|, prefix), common, |common|, older, newer, prefix),
              added, |added|, newer, prefix)
  }

  function ChangeDetails(baseline: Snapshot, current: Snapshot): seq<Detail> {
    NoteBinding(NoteSchema([], baseline.Declared(), current.Declared(), ""),
                Message, baseline.Bound(), current.Bound())
  }

  /** The change class of the step from one snapshot to another. */
  function ClassOf(baseline: Snapshot, current: Snapshot): ChangeClass {
    Worst(ChangeDetails(baseline, current))
  }

  // ---------------------------------------------------------------- the report being filled

  class ChangeReport {
    var changeClass: ChangeClass
    var details: seq<Detail>

    /** The class of a report is the worst severity among its details. */
    ghost predicate Valid()
      reads this
    {
      changeClass == Worst(details)
    }

    constructor ()
      ensures Valid() && details == []
    {
      changeClass := Identical;
      details := [];
    }

    method Note(severity: ChangeClass, detail: Detail)
      requires Valid() && severity == detail.Severity()
      modifies this
      ensures Valid() && details == old(details) + [detail]
    {
      WorstOfMore(details, detail);
      details := details + [detail];
      if severity.Order() > changeClass.Order() {
        changeClass := severity;
      }
    }
  }

  method ClassifyBinding(owner: Owner, older: Binding, newer: Binding, report: ChangeReport)
    requires report.Valid()
    modifies report
    ensures report.Valid()
    ensures report.details == NoteBinding(old(report.details), owner, older, newer)
  {
    var keys := Sorted(older.Keys + newer.Keys);
    for i := 0 to |keys|
      invariant report.Valid()
      invariant report.details == NoteKeys(old(report.details), owner, keys, i, older, newer)
    {
      var key := keys[i];
      if key !in newer {
        report.Note(Breaking, BindingRemoved(owner, key));
      } else if key !in older {
        report.Note(Backward, BindingAdded(owner, key));
      } else if older[key] != newer[key] {
        report.Note(Breaking, BindingChanged(owner, key));
      }
    }
  }

  method ClassifyField(path: string, older: Field, newer: Field, report: ChangeReport)
    requires report.Valid()
    modifies report
    ensures report.Valid()
    ensures report.details == NoteField(old(report.details), path, older, newer)
    decreases older, 1
  {
    for i := 0 to |BREAKING_ATTRIBUTES|
      invariant report.Valid()
      invariant report.details == NoteAttributes(old(report.details), path, i, older, newer)
    {
      var attribute := BREAKING_ATTRIBUTES[i];
      if !SameAttribute(attribute, older, newer) {
        report.Note(Breaking, AttributeChanged(path, attribute));
      }
    }
    if older.options.GetOr(map[]) != newer.options.GetOr(map[]) {
      report.Note(Backward, ConstraintsChanged(path));
    }
    ClassifyBinding(FieldAt(path), older.binding.GetOr(map[]), newer.binding.GetOr(map[]), report);
    if older.record.Some? && newer.record.Some? {
      ClassifyFields(older.record.value, newer.record.value, report, path + ".");
    }
  }

  method ClassifyAdded(path: string, added: Field, report: ChangeReport)
    requires report.Valid()
    modifies report
    ensures report.Valid()
    ensures report.details == old(report.details) + [AddedDetail(path, added)]
  {
    if added.required == Some(true) {
      report.Note(Breaking, AddedRequired(path));
    } else {
      report.Note(Backward, AddedOptional(path));
    }
  }

  method ClassifyFields(older: Schema, newer: Schema, report: ChangeReport, prefix: string)
    requires report.Valid()
    modifies report
    ensures report.Valid()
    ensures report.details == NoteSchema(old(report.details), older, newer, prefix)
    decreases older, 2
  {
    var removed := RemovedNames(older, newer);
    for i := 0 to |removed|
      invariant report.Valid()
      invariant report.details == NoteRemoved(old(report.details), removed, i, prefix)
    {
      report.Note(Breaking, RemovedField(prefix + removed[i]));
    }
    ghost var afterRemoved := report.details;
    var common := CommonNames(older, newer);
    for i := 0 to |common|
      invariant report.Valid()
      invariant report.details == NoteCommon(afterRemoved, common, i, older, newer, prefix)
    {
      var name := common[i];
      ClassifyField(prefix + name, older.fields[name], newer.fields[name], report);
    }
    ghost var afterCommon := report.details;
    var added := RemovedNames(newer, older);
    for i := 0 to |added|
      invariant report.Valid()
      invariant report.details == NoteAdded(afterCommon, added, i, newer, prefix)
    {
      ClassifyAdded(prefix + added[i], newer.fields[added[i]], report);
    }
  }

  /** Classify the delta between two snapshots. */
  method ClassifyChange(baseline: Snapshot, current: Snapshot) returns (report: ChangeReport)
    ensures fresh(report)
    ensures report.details == ChangeDetails(baseline, current)
    ensures report.changeClass == ClassOf(baseline, current)
  {
    report := new ChangeReport();
    ClassifyFields(baseline.Declared(), current.Declared(), report, "");
    ClassifyBinding(Message, baseline.Bound(), current.Bound(), report);
  }
}

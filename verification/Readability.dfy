/**
 What the policy is for: within one major version, a message written against one reviewed snapshot
 is readable against the other. Consumers ignore unknown fields, in messages and in records.
 */
module Readability {
  import opened Wrappers
  import opened Snapshots
  import opened EvolutionPolicy
  import opened Versions
  import opened PolicyLaws
  import opened AllPairs

  const ARRAY_KIND := "array"

  datatype Datum = Null | Scalar(text: string) | Record(members: map<string, Datum>) | List(elements: seq<Datum>)

  /** Whether a datum is acceptable for a kind other than a record; the policy does not depend on the choice. */
  type KindReader = (Option<string>, Datum) -> bool

  /** Whether a consumer built from `schema` accepts a message with these members. */
  ghost predicate Accepts(reader: KindReader, schema: Schema, members: map<string, Datum>)
    decreases schema, 1
  {
    forall name :: name in schema.fields ==>
      if name in members then AcceptsField(reader, schema.fields[name], members[name])
      else schema.fields[name].required != Some(true)
  }

  /** An optional field accepts null. */
  ghost predicate AcceptsField(reader: KindReader, field: Field, datum: Datum)
    decreases field, 1
  {
    if datum.Null? then field.required != Some(true)
    else if field.physicalType == Some(ARRAY_KIND) then
      datum.List? && forall i :: 0 <= i < |datum.elements| ==> AcceptsOne(reader, field, field.items, datum.elements[i])
    else AcceptsOne(reader, field, field.physicalType, datum)
  }

  ghost predicate AcceptsOne(reader: KindReader, field: Field, kind: Option<string>, datum: Datum)
    decreases field, 0
  {
    if kind == Some(RECORD_KIND) then
      datum.Record? && field.record.Some? && Accepts(reader, field.record.value, datum.members)
    else reader(kind, datum)
  }

  /** A message built from the declared fields only, in records too. */
  ghost predicate Declared(schema: Schema, members: map<string, Datum>)
    decreases schema, 1
  {
    forall name :: name in members ==> name in schema.fields && DeclaredField(schema.fields[name], members[name])
  }

  ghost predicate DeclaredField(field: Field, datum: Datum)
    decreases field, 1
  {
    match datum
    case List(elements) => forall i :: 0 <= i < |elements| ==> DeclaredOne(field, elements[i])
    case _ => DeclaredOne(field, datum)
  }

  ghost predicate DeclaredOne(field: Field, datum: Datum)
    decreases field, 0
  {
    datum.Record? && field.record.Some? ==> Declared(field.record.value, datum.members)
  }

  // ---------------------------------------------------------------- non-breaking steps preserve reading

  /** An old consumer reads new messages. */
  lemma {:induction false} OldReadsNew(reader: KindReader, older: Schema, newer: Schema, members: map<string, Datum>)
    requires WellFormed(older) && WellFormed(newer) && SchemaWithin(older, newer, Backward)
    requires Accepts(reader, newer, members)
    ensures Accepts(reader, older, members)
    decreases older, 2
  {
    forall name | name in older.fields
      ensures if name in members then AcceptsField(reader, older.fields[name], members[name])
              else older.fields[name].required != Some(true)
    {
      SameReading(older.fields[name], newer.fields[name]);
      if name in members {
        OldReadsNewField(reader, older.fields[name], newer.fields[name], members[name]);
      }
    }
  }

  /** The attributes that decide what is accepted survive a non-breaking step. */
  lemma SameReading(older: Field, newer: Field)
    requires WellFormedField(older) && WellFormedField(newer) && FieldWithin(older, newer, Backward)
    ensures older.required == newer.required && older.physicalType == newer.physicalType
    ensures older.items == newer.items && (older.record.Some? <==> newer.record.Some?)
  {
    assert SameAttribute(Required, older, newer) && SameAttribute(PhysicalType, older, newer);
    assert SameAttribute(Items, older, newer) && SameAttribute(RecordName, older, newer);
  }

  lemma {:induction false} OldReadsNewField(reader: KindReader, older: Field, newer: Field, datum: Datum)
    requires WellFormedField(older) && WellFormedField(newer) && FieldWithin(older, newer, Backward)
    requires AcceptsField(reader, newer, datum)
    ensures AcceptsField(reader, older, datum)
    decreases older, 1
  {
    SameReading(older, newer);
    if datum.List? && older.physicalType == Some(ARRAY_KIND) {
      forall i | 0 <= i < |datum.elements| ensures AcceptsOne(reader, older, older.items, datum.elements[i]) {
        OldReadsNewOne(reader, older, newer, older.items, datum.elements[i]);
      }
    } else if !datum.Null? {
      OldReadsNewOne(reader, older, newer, older.physicalType, datum);
    }
  }

  lemma {:induction false} OldReadsNewOne(reader: KindReader, older: Field, newer: Field, kind: Option<string>, datum: Datum)
    requires WellFormedField(older) && WellFormedField(newer) && FieldWithin(older, newer, Backward)
    requires AcceptsOne(reader, newer, kind, datum)
    ensures AcceptsOne(reader, older, kind, datum)
    decreases older, 0
  {
    SameReading(older, newer);
    if kind == Some(RECORD_KIND) {
      OldReadsNew(reader, older.record.value, newer.record.value, datum.members);
    }
  }

  /** A new consumer reads old messages that carry declared fields only. */
  lemma {:induction false} NewReadsOld(reader: KindReader, older: Schema, newer: Schema, members: map<string, Datum>)
    requires WellFormed(older) && WellFormed(newer) && SchemaWithin(older, newer, Backward)
    requires Accepts(reader, older, members) && Declared(older, members)
    ensures Accepts(reader, newer, members)
    decreases older, 2
  {
    forall name | name in newer.fields
      ensures if name in members then AcceptsField(reader, newer.fields[name], members[name])
              else newer.fields[name].required != Some(true)
    {
      if name in older.fields {
        SameReading(older.fields[name], newer.fields[name]);
        if name in members {
          NewReadsOldField(reader, older.fields[name], newer.fields[name], members[name]);
        }
      } else {
        assert AdmitsAdded(newer.fields[name], Backward);
      }
    }
  }

  lemma {:induction false} NewReadsOldField(reader: KindReader, older: Field, newer: Field, datum: Datum)
    requires WellFormedField(older) && WellFormedField(newer) && FieldWithin(older, newer, Backward)
    requires AcceptsField(reader, older, datum) && DeclaredField(older, datum)
    ensures AcceptsField(reader, newer, datum)
    decreases older, 1
  {
    SameReading(older, newer);
    if datum.List? && older.physicalType == Some(ARRAY_KIND) {
      forall i | 0 <= i < |datum.elements| ensures AcceptsOne(reader, newer, newer.items, datum.elements[i]) {
        NewReadsOldOne(reader, older, newer, older.items, datum.elements[i]);
      }
    } else if !datum.Null? {
      NewReadsOldOne(reader, older, newer, older.physicalType, datum);
    }
  }

  lemma {:induction false} NewReadsOldOne(reader: KindReader, older: Field, newer: Field, kind: Option<string>, datum: Datum)
    requires WellFormedField(older) && WellFormedField(newer) && FieldWithin(older, newer, Backward)
    requires AcceptsOne(reader, older, kind, datum) && DeclaredOne(older, datum)
    ensures AcceptsOne(reader, newer, kind, datum)
    decreases older, 0
  {
    SameReading(older, newer);
    if kind == Some(RECORD_KIND) {
      NewReadsOld(reader, older.record.value, newer.record.value, datum.members);
    }
  }

  // ---------------------------------------------------------------- over a whole history

  /** A step the policy accepts inside one major version does not break the shape. */
  lemma SameMajorIsCompatible(older: Snapshot, newer: Snapshot)
    requires StepErrors(older, newer) == []
    requires ParseVersion(older.version).major == ParseVersion(newer.version).major
    ensures SnapshotWithin(older, newer, Backward)
  {
    ClassIsExact(older, newer, Backward);
  }

  /**
   Same-major readability: in a history whose adjacent steps pass, any two snapshots of one major
   version read each other's messages, however many steps lie between them.
   */
  lemma SameMajorReadability(reader: KindReader, history: seq<Snapshot>, i: nat, j: nat, members: map<string, Datum>)
    requires AllWellFormed(history) && AdjacentConform(history)
    requires i < j < |history|
    requires ParseVersion(history[i].version).major == ParseVersion(history[j].version).major
    ensures Accepts(reader, history[j].Declared(), members) ==> Accepts(reader, history[i].Declared(), members)
    ensures Accepts(reader, history[i].Declared(), members) && Declared(history[i].Declared(), members) ==>
            Accepts(reader, history[j].Declared(), members)
  {
    PairConforms(history, i, j);
    SameMajorIsCompatible(history[i], history[j]);
    if Accepts(reader, history[j].Declared(), members) {
      OldReadsNew(reader, history[i].Declared(), history[j].Declared(), members);
    }
    if Accepts(reader, history[i].Declared(), members) && Declared(history[i].Declared(), members) {
      NewReadsOld(reader, history[i].Declared(), history[j].Declared(), members);
    }
  }
}

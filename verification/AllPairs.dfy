/** The policy composes: checking adjacent steps covers every pair of a history. */
module AllPairs {
  import opened Wrappers
  import opened Snapshots
  import opened EvolutionPolicy
  import opened Versions
  import opened PolicyLaws

  /** The classifier and the reference relation agree at every level. */
  lemma ClassIsExact(older: Snapshot, newer: Snapshot, level: ChangeClass)
    ensures ClassOf(older, newer).Order() <= level.Order() <==> SnapshotWithin(older, newer, level)
  {
    SchemaAtMost([], older.Declared(), newer.Declared(), "", level);
    BindingAtMost(NoteSchema([], older.Declared(), newer.Declared(), ""), Message, older.Bound(), newer.Bound(), level);
  }

  // ---------------------------------------------------------------- identical means equal

  lemma {:induction false} IdenticalFields(older: Field, newer: Field)
    requires WellFormedField(older) && WellFormedField(newer)
    ensures FieldWithin(older, newer, Identical) <==> NormalField(older) == NormalField(newer)
    decreases older
  {
    if FieldWithin(older, newer, Identical) {
      assert SameAttribute(LogicalType, older, newer) && SameAttribute(PhysicalType, older, newer);
      assert SameAttribute(Items, older, newer) && SameAttribute(Required, older, newer);
      assert SameAttribute(ProtoFieldNumber, older, newer) && SameAttribute(RecordName, older, newer);
    }
    if older.record.Some? && newer.record.Some? {
      IdenticalSchemas(older.record.value, newer.record.value);
    }
  }

  lemma {:induction false} IdenticalSchemas(older: Schema, newer: Schema)
    requires WellFormed(older) && WellFormed(newer)
    ensures SchemaWithin(older, newer, Identical) <==> Normal(older) == Normal(newer)
    decreases older
  {
    var a, b := Normal(older).fields, Normal(newer).fields;
    assert a.Keys == older.fields.Keys && b.Keys == newer.fields.Keys;
    forall name | name in older.fields && name in newer.fields
      ensures FieldWithin(older.fields[name], newer.fields[name], Identical) <==> a[name] == b[name]
    {
      IdenticalFields(older.fields[name], newer.fields[name]);
    }
    if SchemaWithin(older, newer, Identical) {
      assert a.Keys == b.Keys;
      assert a == b;
    }
    if a == b {
      assert forall name :: name in older.fields <==> name in a;
      assert forall name :: name in newer.fields <==> name in b;
    }
  }

  /** Identical is equality of fields and bindings, an absent entry counting as an empty one. */
  lemma IdenticalMeansEqual(older: Snapshot, newer: Snapshot)
    requires WellFormed(older.Declared()) && WellFormed(newer.Declared())
    ensures ClassOf(older, newer) == Identical <==>
            Normal(older.Declared()) == Normal(newer.Declared()) && older.Bound() == newer.Bound()
  {
    ClassIsExact(older, newer, Identical);
    IdenticalSchemas(older.Declared(), newer.Declared());
  }

  /** A shape is within every level of itself. */
  lemma {:induction false} SchemaWithinItself(schema: Schema)
    ensures SchemaWithin(schema, schema, Identical)
    decreases schema
  {
    forall name | name in schema.fields ensures FieldWithin(schema.fields[name], schema.fields[name], Identical) {
      if schema.fields[name].record.Some? {
        SchemaWithinItself(schema.fields[name].record.value);
      }
    }
  }

  lemma RepeatIsIdentical(snapshot: Snapshot)
    ensures ClassOf(snapshot, snapshot) == Identical
  {
    hide ClassOf, SchemaWithin;
    SchemaWithinItself(snapshot.Declared());
    ClassIsExact(snapshot, snapshot, Identical);
  }

  // ---------------------------------------------------------------- the triangle inequality

  /** Every field with a record name has nested fields, in its records too. */
  predicate CompleteField(field: Field)
    decreases field
  {
    field.recordName.Some? ==> field.record.Some? && Complete(field.record.value)
  }

  predicate Complete(schema: Schema)
    decreases schema
  {
    forall name :: name in schema.fields ==> CompleteField(schema.fields[name])
  }

  lemma {:induction false} CompleteFieldsCompose(a: Field, b: Field, c: Field, level: ChangeClass)
    requires WellFormedField(a) && CompleteField(b) && WellFormedField(c)
    requires FieldWithin(a, b, level) && FieldWithin(b, c, level)
    ensures FieldWithin(a, c, level)
    decreases a
  {
    if level != Breaking {
      forall attribute ensures SameAttribute(attribute, a, c) {
        assert SameAttribute(attribute, a, b) && SameAttribute(attribute, b, c);
      }
      assert SameAttribute(RecordName, a, b);
      if a.record.Some? && c.record.Some? {
        CompleteSchemasCompose(a.record.value, b.record.value, c.record.value, level);
      }
    }
  }

  /** The relation composes through a complete middle shape. */
  lemma {:induction false} CompleteSchemasCompose(a: Schema, b: Schema, c: Schema, level: ChangeClass)
    requires WellFormed(a) && Complete(b) && WellFormed(c)
    requires SchemaWithin(a, b, level) && SchemaWithin(b, c, level)
    ensures SchemaWithin(a, c, level)
    decreases a
  {
    hide SameAttribute, WellFormedField, CompleteField;
    if level != Breaking {
      forall name | name in a.fields ensures FieldWithin(a.fields[name], c.fields[name], level) {
        CompleteFieldsCompose(a.fields[name], b.fields[name], c.fields[name], level);
      }
      forall name | name in c.fields && name !in a.fields ensures AdmitsAdded(c.fields[name], level) {
        if name in b.fields {
          SameRequired(b.fields[name], c.fields[name], level);
        }
      }
    }
  }

  lemma SameRequired(older: Field, newer: Field, level: ChangeClass)
    requires level != Breaking && FieldWithin(older, newer, level)
    ensures older.required == newer.required
  {
    assert SameAttribute(Required, older, newer);
  }

  /** Through a complete middle snapshot the class of the whole step is no worse than the worse of its parts. */
  lemma SafeMiddle(a: Snapshot, b: Snapshot, c: Snapshot)
    requires WellFormed(a.Declared()) && Complete(b.Declared()) && WellFormed(c.Declared())
    ensures ClassOf(a, c).Order() <= Worse(ClassOf(a, b), ClassOf(b, c)).Order()
  {
    hide SchemaWithin, BindingWithin, ClassOf, WellFormed, Complete;
    var level := Worse(ClassOf(a, b), ClassOf(b, c));
    ClassIsExact(a, b, level);
    ClassIsExact(b, c, level);
    CompleteSchemasCompose(a.Declared(), b.Declared(), c.Declared(), level);
    BindingsCompose(a.Bound(), b.Bound(), c.Bound(), level);
    ClassIsExact(a, c, level);
  }

  lemma BindingsCompose(a: Binding, b: Binding, c: Binding, level: ChangeClass)
    requires BindingWithin(a, b, level) && BindingWithin(b, c, level)
    ensures BindingWithin(a, c, level)
  {
  }

  lemma {:induction false} WellFormedIsComplete(schema: Schema)
    requires WellFormed(schema)
    ensures Complete(schema)
    decreases schema
  {
    forall name | name in schema.fields ensures CompleteField(schema.fields[name]) {
      if schema.fields[name].recordName.Some? {
        WellFormedIsComplete(schema.fields[name].record.value);
      }
    }
  }

  lemma Triangle(a: Snapshot, b: Snapshot, c: Snapshot)
    requires WellFormed(a.Declared()) && WellFormed(b.Declared()) && WellFormed(c.Declared())
    ensures ClassOf(a, c).Order() <= Worse(ClassOf(a, b), ClassOf(b, c)).Order()
  {
    hide ClassOf;
    WellFormedIsComplete(b.Declared());
    SafeMiddle(a, b, c);
  }

  /** The field with nested fields put in wherever its record name lacks them, and none without a name. */
  function FilledField(field: Field, filler: Schema): Field
    decreases field
  {
    field.(record :=
      if field.recordName.None? then None
      else if field.record.Some? then Some(Filled(field.record.value, filler))
      else Some(filler))
  }

  function Filled(schema: Schema, filler: Schema): Schema
    decreases schema
  {
    Schema(map name | name in schema.fields :: FilledField(schema.fields[name], filler))
  }

  lemma {:induction false} FilledIsWellFormed(schema: Schema, filler: Schema)
    requires WellFormed(filler)
    ensures WellFormed(Filled(schema, filler))
    decreases schema
  {
    forall name | name in schema.fields ensures WellFormedField(FilledField(schema.fields[name], filler)) {
      var field := schema.fields[name];
      if field.recordName.Some? && field.record.Some? {
        FilledIsWellFormed(field.record.value, filler);
      }
    }
  }

  /** The classifier sees no difference between a shape and the same shape filled in. */
  lemma {:induction false} FilledIsIdentical(schema: Schema, filler: Schema)
    ensures SchemaWithin(schema, Filled(schema, filler), Identical)
    ensures SchemaWithin(Filled(schema, filler), schema, Identical)
    decreases schema
  {
    hide FieldWithin, FilledField;
    var filled := Filled(schema, filler);
    assert filled.fields.Keys == schema.fields.Keys;
    forall name | name in schema.fields
      ensures FieldWithin(schema.fields[name], filled.fields[name], Identical)
      ensures FieldWithin(filled.fields[name], schema.fields[name], Identical)
    {
      FilledFieldIsIdentical(schema.fields[name], filler);
    }
  }

  lemma {:induction false} FilledFieldIsIdentical(field: Field, filler: Schema)
    ensures FieldWithin(field, FilledField(field, filler), Identical)
    ensures FieldWithin(FilledField(field, filler), field, Identical)
    decreases field
  {
    if field.recordName.Some? && field.record.Some? {
      FilledIsIdentical(field.record.value, filler);
    }
  }

  /** An incomplete shape filled in two ways: what the second lacks is removed. */
  lemma {:induction false} FillersBreak(schema: Schema, one: Schema, other: Schema)
    requires !Complete(schema) && !(one.fields.Keys <= other.fields.Keys)
    ensures !SchemaWithin(Filled(schema, one), Filled(schema, other), Backward)
    decreases schema
  {
    var name :| name in schema.fields && !CompleteField(schema.fields[name]);
    var field := schema.fields[name];
    assert name in Filled(schema, one).fields;
    assert !FieldWithin(FilledField(field, one), FilledField(field, other), Backward) by {
      if field.record.Some? {
        FillersBreak(field.record.value, one, other);
      }
    }
  }

  /** Through any other middle snapshot some breaking change passes as two identical steps. */
  lemma UnsafeMiddle(b: Snapshot) returns (a: Snapshot, c: Snapshot)
    requires !Complete(b.Declared())
    ensures WellFormed(a.Declared()) && WellFormed(c.Declared())
    ensures ClassOf(a, b) == Identical && ClassOf(b, c) == Identical && ClassOf(a, c) == Breaking
  {
    hide SchemaWithin, Complete, WellFormed, ClassOf;
    var one, other := Schema(map["x" := Field(None, None, None, None, None, None, None, None, None)]), Schema(map[]);
    FillersAreWellFormed(one, other);
    a := b.(schema := Some(Filled(b.Declared(), one)));
    c := b.(schema := Some(Filled(b.Declared(), other)));
    FilledIsWellFormed(b.Declared(), one);
    FilledIsWellFormed(b.Declared(), other);
    FilledIsIdentical(b.Declared(), one);
    FilledIsIdentical(b.Declared(), other);
    FillersBreak(b.Declared(), one, other);
    ClassIsExact(a, b, Identical);
    ClassIsExact(b, c, Identical);
    ClassIsExact(a, c, Backward);
  }

  lemma FillersAreWellFormed(one: Schema, other: Schema)
    requires one == Schema(map["x" := Field(None, None, None, None, None, None, None, None, None)])
    requires other == Schema(map[])
    ensures WellFormed(one) && WellFormed(other) && "x" in one.fields && !(one.fields.Keys <= other.fields.Keys)
  {
    assert "x" in one.fields && "x" !in other.fields;
  }

  ghost predicate TriangleThrough(b: Snapshot) {
    forall a: Snapshot, c: Snapshot {:trigger ClassOf(a, b), ClassOf(b, c)} ::
      WellFormed(a.Declared()) && WellFormed(c.Declared()) ==>
      ClassOf(a, c).Order() <= Worse(ClassOf(a, b), ClassOf(b, c)).Order()
  }

  /** The triangle inequality holds through a middle snapshot exactly when that snapshot is complete. */
  lemma MiddleIsExact(b: Snapshot)
    ensures TriangleThrough(b) <==> Complete(b.Declared())
  {
    hide ClassOf, Complete, WellFormed;
    if Complete(b.Declared()) {
      forall a: Snapshot, c: Snapshot {:trigger ClassOf(a, b), ClassOf(b, c)} | WellFormed(a.Declared()) && WellFormed(c.Declared())
        ensures ClassOf(a, c).Order() <= Worse(ClassOf(a, b), ClassOf(b, c)).Order()
      {
        SafeMiddle(a, b, c);
      }
    } else {
      var a, c := UnsafeMiddle(b);
      assert ClassOf(a, c).Order() > Worse(ClassOf(a, b), ClassOf(b, c)).Order();
    }
  }

  // ---------------------------------------------------------------- every pair of a history

  ghost predicate AllWellFormed(history: seq<Snapshot>) {
    forall i :: 0 <= i < |history| ==> WellFormed(history[i].Declared())
  }

  ghost predicate AdjacentConform(history: seq<Snapshot>) {
    forall i :: 0 <= i < |history| - 1 ==> StepErrors(history[i], history[i + 1]) == []
  }

  ghost predicate EveryPairConforms(history: seq<Snapshot>) {
    forall i, j :: 0 <= i < j < |history| ==> StepErrors(history[i], history[j]) == []
  }

  lemma StepsCompose(a: Snapshot, b: Snapshot, c: Snapshot)
    requires WellFormed(a.Declared()) && WellFormed(b.Declared()) && WellFormed(c.Declared())
    requires StepErrors(a, b) == [] && StepErrors(b, c) == []
    ensures StepErrors(a, c) == []
  {
    hide ClassOf, ParseVersion, Bumps, WellFormed;
    Triangle(a, b, c);
    BumpsCompose(ParseVersion(a.version), ParseVersion(b.version), ParseVersion(c.version),
                 ClassOf(a, b), ClassOf(b, c), ClassOf(a, c));
  }

  lemma {:induction false} PairConforms(history: seq<Snapshot>, i: nat, j: nat)
    requires AllWellFormed(history) && AdjacentConform(history)
    requires i < j < |history|
    ensures StepErrors(history[i], history[j]) == []
    decreases j - i
  {
    hide StepErrors, WellFormed;
    if i + 1 < j {
      PairConforms(history, i, j - 1);
      assert StepErrors(history[j - 1], history[j - 1 + 1]) == [];
      StepsCompose(history[i], history[j - 1], history[j]);
    } else {
      assert StepErrors(history[i], history[i + 1]) == [];
    }
  }

  /** A consumer any number of versions behind has a reviewed upgrade path. */
  lemma AdjacentChecksCoverEveryPair(history: seq<Snapshot>)
    requires AllWellFormed(history)
    ensures AdjacentConform(history) <==> EveryPairConforms(history)
  {
    if AdjacentConform(history) {
      forall i, j | 0 <= i < j < |history| ensures StepErrors(history[i], history[j]) == [] {
        PairConforms(history, i, j);
      }
    }
  }
}

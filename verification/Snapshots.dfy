/** The version-relevant shape of a contract, as committed in a baseline. */
module Snapshots {
  import opened Wrappers

  /** The physical kind of a field that holds nested fields. */
  const RECORD_KIND := "record"

  datatype Constraint = Number(number: real) | Text(text: string) | Flag(flag: bool)

  type Binding = map<string, string>
  type Constraints = map<string, Constraint>

  /** One field of a snapshot; an absent JSON key is `None`. */
  datatype Field = Field(
    logicalType: Option<string>,
    physicalType: Option<string>,
    items: Option<string>,
    required: Option<bool>,
    number: Option<int>,
    recordName: Option<string>,
    options: Option<Constraints>,
    binding: Option<Binding>,
    record: Option<Schema>)

  datatype Schema = Schema(fields: map<string, Field>)

  datatype Snapshot = Snapshot(
    contractId: Option<string>,
    version: string,
    binding: Option<Binding>,
    schema: Option<Schema>,
    fingerprints: Option<map<string, string>>)
  {
    /** `snapshot.get("fields") or {}` */
    function Declared(): Schema {
      schema.GetOr(Schema(map[]))
    }

    /** `snapshot.get("binding") or {}` */
    function Bound(): Binding {
      binding.GetOr(map[])
    }
  }

  /** What the snapshot writer guarantees: nested fields come with a record name, and only then. */
  ghost predicate WellFormedField(field: Field)
    decreases field
  {
    && (field.record.Some? <==> field.recordName.Some?)
    && (field.record.Some? ==> WellFormed(field.record.value))
  }

  ghost predicate WellFormed(schema: Schema)
    decreases schema
  {
    forall name :: name in schema.fields ==> WellFormedField(schema.fields[name])
  }

  /** A field with absent constraints and bindings spelled as empty ones. */
  function NormalField(field: Field): Field
    decreases field
  {
    field.(options := Some(field.options.GetOr(map[])),
           binding := Some(field.binding.GetOr(map[])),
           record := if field.record.Some? then Some(Normal(field.record.value)) else None)
  }

  function Normal(schema: Schema): Schema
    decreases schema
  {
    Schema(map name | name in schema.fields :: NormalField(schema.fields[name]))
  }
}

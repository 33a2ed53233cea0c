/** The details of a report are exactly the differences between two snapshots. */
module PolicyDetails {
  import opened Wrappers
  import opened Ordering
  import opened Snapshots
  import opened EvolutionPolicy
  import opened PolicyLaws

  // ---------------------------------------------------------------- what a difference is

  ghost predicate BindingDiffers(owner: Owner, older: Binding, newer: Binding, detail: Detail) {
    match detail
    case BindingRemoved(at, key) => at == owner && key in older && key !in newer
    case BindingAdded(at, key) => at == owner && key !in older && key in newer
    case BindingChanged(at, key) => at == owner && key in older && key in newer && older[key] != newer[key]
    case _ => false
  }

  /** The field's own attributes and constraints. */
  ghost predicate ShapeDiffers(path: string, older: Field, newer: Field, detail: Detail) {
    match detail
    case AttributeChanged(at, attribute) => at == path && !SameAttribute(attribute, older, newer)
    case ConstraintsChanged(at) => at == path && older.options.GetOr(map[]) != newer.options.GetOr(map[])
    case _ => false
  }

  ghost predicate FieldDiffers(path: string, older: Field, newer: Field, detail: Detail)
    decreases older, 0
  {
    || ShapeDiffers(path, older, newer, detail)
    || BindingDiffers(FieldAt(path), older.binding.GetOr(map[]), newer.binding.GetOr(map[]), detail)
    || (older.record.Some? && newer.record.Some? &&
          SchemaDiffers(older.record.value, newer.record.value, path + ".", detail))
  }

  ghost predicate IsAdded(path: string, added: Field, detail: Detail) {
    detail == if added.required == Some(true) then AddedRequired(path) else AddedOptional(path)
  }

  ghost predicate Removes(older: Schema, newer: Schema, prefix: string, detail: Detail) {
    exists name :: name in older.fields && name !in newer.fields && detail == RemovedField(prefix + name)
  }

  ghost predicate Alters(older: Schema, newer: Schema, prefix: string, detail: Detail)
    decreases older, 0
  {
    exists name :: name in older.fields && name in newer.fields &&
      FieldDiffers(prefix + name, older.fields[name], newer.fields[name], detail)
  }

  ghost predicate Adds(older: Schema, newer: Schema, prefix: string, detail: Detail) {
    exists name :: name in newer.fields && name !in older.fields && IsAdded(prefix + name, newer.fields[name], detail)
  }

  ghost predicate SchemaDiffers(older: Schema, newer: Schema, prefix: string, detail: Detail)
    decreases older, 1
  {
    Removes(older, newer, prefix, detail) || Alters(older, newer, prefix, detail) || Adds(older, newer, prefix, detail)
  }

  // ---------------------------------------------------------------- every step notes what differs

  lemma {:induction false} KeysNoted(noted: seq<Detail>, owner: Owner, keys: seq<string>, n: nat,
                                     older: Binding, newer: Binding, detail: Detail)
    requires n <= |keys| && forall i :: 0 <= i < |keys| ==> keys[i] in older || keys[i] in newer
    ensures detail in NoteKeys(noted, owner, keys, n, older, newer) <==>
            detail in noted || (BindingDiffers(owner, older, newer, detail) && detail.key in keys[..n])
  {
    if n > 0 {
      KeysNoted(noted, owner, keys, n - 1, older, newer, detail);
      assert keys[..n] == keys[..n - 1] + [keys[n - 1]];
    }
  }

  lemma BindingNoted(noted: seq<Detail>, owner: Owner, older: Binding, newer: Binding, detail: Detail)
    ensures detail in NoteBinding(noted, owner, older, newer) <==>
            detail in noted || BindingDiffers(owner, older, newer, detail)
  {
    var keys := Sorted(older.Keys + newer.Keys);
    assert forall i :: 0 <= i < |keys| ==> keys[i] in older.Keys + newer.Keys;
    SortedIsSorted(older.Keys + newer.Keys);
    KeysNoted(noted, owner, keys, |keys|, older, newer, detail);
    assert keys[..|keys|] == keys;
    if BindingDiffers(owner, older, newer, detail) {
      assert detail.key in older.Keys + newer.Keys;
    }
  }

  lemma {:induction false} AttributesNoted(noted: seq<Detail>, path: string, n: nat, older: Field, newer: Field, detail: Detail)
    requires n <= |BREAKING_ATTRIBUTES|
    ensures detail in NoteAttributes(noted, path, n, older, newer) <==>
            detail in noted ||
            exists i :: 0 <= i < n && !SameAttribute(BREAKING_ATTRIBUTES[i], older, newer) &&
                        detail == AttributeChanged(path, BREAKING_ATTRIBUTES[i])
  {
    if n > 0 {
      AttributesNoted(noted, path, n - 1, older, newer, detail);
    }
  }

  lemma ShapeNoted(noted: seq<Detail>, path: string, older: Field, newer: Field, detail: Detail)
    ensures var attributes := NoteAttributes(noted, path, |BREAKING_ATTRIBUTES|, older, newer);
      detail in NoteConstraints(attributes, path, older, newer) <==> detail in noted || ShapeDiffers(path, older, newer, detail)
  {
    hide NoteAttributes, SameAttribute;
    AttributesNoted(noted, path, |BREAKING_ATTRIBUTES|, older, newer, detail);
    if detail.AttributeChanged? && !SameAttribute(detail.attribute, older, newer) {
      var i := AllAttributesListed(detail.attribute);
    }
  }

  lemma {:induction false} FieldNoted(noted: seq<Detail>, path: string, older: Field, newer: Field, detail: Detail)
    ensures detail in NoteField(noted, path, older, newer) <==> detail in noted || FieldDiffers(path, older, newer, detail)
    decreases older, 1
  {
    hide NoteAttributes, NoteConstraints, NoteBinding, ShapeDiffers, BindingDiffers, SchemaDiffers;
    var attributes := NoteAttributes(noted, path, |BREAKING_ATTRIBUTES|, older, newer);
    var constraints := NoteConstraints(attributes, path, older, newer);
    var before, after := older.binding.GetOr(map[]), newer.binding.GetOr(map[]);
    ShapeNoted(noted, path, older, newer, detail);
    BindingNoted(constraints, FieldAt(path), before, after, detail);
    if older.record.Some? && newer.record.Some? {
      SchemaNoted(NoteBinding(constraints, FieldAt(path), before, after),
                  older.record.value, newer.record.value, path + ".", detail);
    }
  }

  lemma {:induction false} RemovedNoted(noted: seq<Detail>, names: seq<string>, n: nat, prefix: string, detail: Detail)
    requires n <= |names|
    ensures detail in NoteRemoved(noted, names, n, prefix) <==>
            detail in noted || exists i :: 0 <= i < n && detail == RemovedField(prefix + names[i])
  {
    if n > 0 {
      RemovedNoted(noted, names, n - 1, prefix, detail);
    }
  }

  lemma {:induction false} AddedNoted(noted: seq<Detail>, names: seq<string>, n: nat, newer: Schema, prefix: string, detail: Detail)
    requires n <= |names| && AllIn(names, newer)
    ensures detail in NoteAdded(noted, names, n, newer, prefix) <==>
            detail in noted || exists i :: 0 <= i < n && IsAdded(prefix + names[i], newer.fields[names[i]], detail)
  {
    if n > 0 {
      AddedNoted(noted, names, n - 1, newer, prefix, detail);
    }
  }

  lemma {:induction false} CommonNoted(noted: seq<Detail>, names: seq<string>, n: nat, older: Schema, newer: Schema,
                                       prefix: string, detail: Detail)
    requires n <= |names| && AllIn(names, older) && AllIn(names, newer)
    ensures detail in NoteCommon(noted, names, n, older, newer, prefix) <==>
            detail in noted ||
            exists i :: 0 <= i < n && FieldDiffers(prefix + names[i], older.fields[names[i]], newer.fields[names[i]], detail)
    decreases older, 0, n
  {
    hide NoteField, FieldDiffers;
    if n > 0 {
      var name := names[n - 1];
      CommonNoted(noted, names, n - 1, older, newer, prefix, detail);
      FieldNoted(NoteCommon(noted, names, n - 1, older, newer, prefix), prefix + name,
                 older.fields[name], newer.fields[name], detail);
    }
  }

  lemma {:induction false} SchemaNoted(noted: seq<Detail>, older: Schema, newer: Schema, prefix: string, detail: Detail)
    ensures detail in NoteSchema(noted, older, newer, prefix) <==>
            detail in noted || SchemaDiffers(older, newer, prefix, detail)
    decreases older, 1
  {
    hide NoteRemoved, NoteCommon, NoteAdded, FieldDiffers, IsAdded, RemovedNames, CommonNames, Removes, Alters, Adds;
    var removed, common, added := RemovedNames(older, newer), CommonNames(older, newer), RemovedNames(newer, older);
    var afterRemoved := NoteRemoved(noted, removed, |removed|, prefix);
    var afterCommon := NoteCommon(afterRemoved, common, |common|, older, newer, prefix);
    RemovedNoted(noted, removed, |removed|, prefix, detail);
    CommonNoted(afterRemoved, common, |common|, older, newer, prefix, detail);
    AddedNoted(afterCommon, added, |added|, newer, prefix, detail);
    NamesCover(older, newer);
    NamesCover(newer, older);
    RemovesByNames(older, newer, prefix, detail, removed);
    AltersByNames(older, newer, prefix, detail, common);
    AddsByNames(older, newer, prefix, detail, added);
  }

  lemma RemovesByNames(older: Schema, newer: Schema, prefix: string, detail: Detail, removed: seq<string>)
    requires forall name :: name in older.fields && name !in newer.fields <==> name in removed
    ensures Removes(older, newer, prefix, detail) <==>
            exists i :: 0 <= i < |removed| && detail == RemovedField(prefix + removed[i])
  {
    if name :| name in older.fields && name !in newer.fields && detail == RemovedField(prefix + name) {
      assert name in removed;
    }
    if i :| 0 <= i < |removed| && detail == RemovedField(prefix + removed[i]) {
      assert removed[i] in removed;
    }
  }

  lemma AltersByNames(older: Schema, newer: Schema, prefix: string, detail: Detail, common: seq<string>)
    requires forall name :: name in older.fields && name in newer.fields <==> name in common
    requires AllIn(common, older) && AllIn(common, newer)
    ensures Alters(older, newer, prefix, detail) <==>
            exists i :: 0 <= i < |common| &&
              FieldDiffers(prefix + common[i], older.fields[common[i]], newer.fields[common[i]], detail)
  {
    hide FieldDiffers;
    if name :| name in older.fields && name in newer.fields &&
               FieldDiffers(prefix + name, older.fields[name], newer.fields[name], detail) {
      assert name in common;
    }
  }

  lemma AddsByNames(older: Schema, newer: Schema, prefix: string, detail: Detail, added: seq<string>)
    requires forall name :: name in newer.fields && name !in older.fields <==> name in added
    requires AllIn(added, newer)
    ensures Adds(older, newer, prefix, detail) <==>
            exists i :: 0 <= i < |added| && IsAdded(prefix + added[i], newer.fields[added[i]], detail)
  {
    hide IsAdded;
    if name :| name in newer.fields && name !in older.fields && IsAdded(prefix + name, newer.fields[name], detail) {
      assert name in added;
    }
    if i :| 0 <= i < |added| && IsAdded(prefix + added[i], newer.fields[added[i]], detail) {
      assert added[i] in added;
    }
  }

  /**
   The report names every difference and nothing else: removed, changed and added fields under their
   dotted path in records too, and removed, changed and added binding keys.
   */
  lemma DetailsAreExact(older: Snapshot, newer: Snapshot, detail: Detail)
    ensures detail in ChangeDetails(older, newer) <==>
            || SchemaDiffers(older.Declared(), newer.Declared(), "", detail)
            || BindingDiffers(Message, older.Bound(), newer.Bound(), detail)
  {
    hide NoteSchema, NoteBinding, SchemaDiffers, BindingDiffers;
    var fields := NoteSchema([], older.Declared(), newer.Declared(), "");
    SchemaNoted([], older.Declared(), newer.Declared(), "", detail);
    BindingNoted(fields, Message, older.Bound(), newer.Bound(), detail);
  }
}

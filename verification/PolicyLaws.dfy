/**
 What a change class means, stated without the classifier: a step is within a level when every
 part of the older shape survives into the newer one as that level allows. The classifier decides
 exactly this, the relation composes, and so adjacent checks cover every pair of a history.
 */
module PolicyLaws {
  import opened Wrappers
  import opened Ordering
  import opened Snapshots
  import opened EvolutionPolicy

  // ---------------------------------------------------------------- the reference relation

  ghost predicate BindingWithin(older: Binding, newer: Binding, level: ChangeClass) {
    match level
    case Identical => older == newer
    case Backward => forall key :: key in older ==> key in newer && newer[key] == older[key]
    case Breaking => true
  }

  ghost predicate FieldWithin(older: Field, newer: Field, level: ChangeClass)
    decreases older
  {
    level != Breaking ==>
    && (forall attribute :: SameAttribute(attribute, older, newer))
    && (level == Identical ==> older.options.GetOr(map[]) == newer.options.GetOr(map[]))
    && BindingWithin(older.binding.GetOr(map[]), newer.binding.GetOr(map[]), level)
    && (older.record.Some? && newer.record.Some? ==>
          SchemaWithin(older.record.value, newer.record.value, level))
  }

  ghost predicate AdmitsAdded(added: Field, level: ChangeClass) {
    level == Breaking || (level == Backward && added.required != Some(true))
  }

  ghost predicate SchemaWithin(older: Schema, newer: Schema, level: ChangeClass)
    decreases older
  {
    level != Breaking ==>
    && older.fields.Keys <= newer.fields.Keys
    && (forall name :: name in older.fields ==> FieldWithin(older.fields[name], newer.fields[name], level))
    && (forall name :: name in newer.fields && name !in older.fields ==>
          AdmitsAdded(newer.fields[name], level))
  }

  ghost predicate SnapshotWithin(older: Snapshot, newer: Snapshot, level: ChangeClass) {
    && SchemaWithin(older.Declared(), newer.Declared(), level)
    && BindingWithin(older.Bound(), newer.Bound(), level)
  }

  // ---------------------------------------------------------------- the classifier decides it

  ghost predicate AtMost(noted: seq<Detail>, level: ChangeClass) {
    Worst(noted).Order() <= level.Order()
  }

  lemma AtMostMore(noted: seq<Detail>, detail: Detail, level: ChangeClass)
    ensures AtMost(noted + [detail], level) <==>
            AtMost(noted, level) && detail.Severity().Order() <= level.Order()
  {
    WorstOfMore(noted, detail);
  }

  ghost predicate KeyWithin(key: string, older: Binding, newer: Binding, level: ChangeClass) {
    match level
    case Identical => key in older && key in newer && newer[key] == older[key]
    case Backward => key in newer && (key in older ==> newer[key] == older[key])
    case Breaking => true
  }

  lemma KeyAtMost(noted: seq<Detail>, owner: Owner, key: string, older: Binding, newer: Binding, level: ChangeClass)
    requires key in older || key in newer
    ensures AtMost(NoteKey(noted, owner, key, older, newer), level) <==>
            AtMost(noted, level) && KeyWithin(key, older, newer, level)
  {
    hide Worst;
    AtMostMore(noted, BindingRemoved(owner, key), level);
    AtMostMore(noted, BindingAdded(owner, key), level);
    AtMostMore(noted, BindingChanged(owner, key), level);
  }

  lemma {:induction false} KeysAtMost(noted: seq<Detail>, owner: Owner, keys: seq<string>, n: nat,
                                      older: Binding, newer: Binding, level: ChangeClass)
    requires n <= |keys| && forall i :: 0 <= i < |keys| ==> keys[i] in older || keys[i] in newer
    ensures AtMost(NoteKeys(noted, owner, keys, n, older, newer), level) <==>
            AtMost(noted, level) && forall i :: 0 <= i < n ==> KeyWithin(keys[i], older, newer, level)
  {
    if n > 0 {
      KeysAtMost(noted, owner, keys, n - 1, older, newer, level);
      KeyAtMost(NoteKeys(noted, owner, keys, n - 1, older, newer), owner, keys[n - 1], older, newer, level);
    }
  }

  lemma BindingAtMost(noted: seq<Detail>, owner: Owner, older: Binding, newer: Binding, level: ChangeClass)
    ensures AtMost(NoteBinding(noted, owner, older, newer), level) <==>
            AtMost(noted, level) && BindingWithin(older, newer, level)
  {
    var keys := Sorted(older.Keys + newer.Keys);
    assert forall i :: 0 <= i < |keys| ==> keys[i] in older.Keys + newer.Keys;
    KeysAtMost(noted, owner, keys, |keys|, older, newer, level);
    SortedIsSorted(older.Keys + newer.Keys);
    BindingByKeys(older, newer, keys, level);
  }

  lemma BindingByKeys(older: Binding, newer: Binding, keys: seq<string>, level: ChangeClass)
    requires forall key :: key in keys <==> key in older || key in newer
    ensures BindingWithin(older, newer, level) <==>
            forall i :: 0 <= i < |keys| ==> KeyWithin(keys[i], older, newer, level)
  {
    if BindingWithin(older, newer, level) {
      forall i | 0 <= i < |keys| ensures KeyWithin(keys[i], older, newer, level) {
        assert keys[i] in keys;
      }
    }
    if forall i :: 0 <= i < |keys| ==> KeyWithin(keys[i], older, newer, level) {
      forall key | key in older || key in newer ensures KeyWithin(key, older, newer, level) {
        assert key in keys;
      }
      if level == Identical {
        forall key ensures key in older <==> key in newer {
          assert key in older || key in newer ==> KeyWithin(key, older, newer, level);
        }
        assert older.Keys == newer.Keys;
      } else if level == Backward {
        forall key | key in older ensures key in newer && newer[key] == older[key] {
          assert KeyWithin(key, older, newer, level);
        }
      }
    }
  }

  lemma {:induction false} AttributesAtMost(noted: seq<Detail>, path: string, n: nat,
                                            older: Field, newer: Field, level: ChangeClass)
    requires n <= |BREAKING_ATTRIBUTES|
    ensures AtMost(NoteAttributes(noted, path, n, older, newer), level) <==>
            AtMost(noted, level) &&
            (level == Breaking || forall i :: 0 <= i < n ==> SameAttribute(BREAKING_ATTRIBUTES[i], older, newer))
  {
    if n > 0 {
      AttributesAtMost(noted, path, n - 1, older, newer, level);
      AtMostMore(NoteAttributes(noted, path, n - 1, older, newer),
                 AttributeChanged(path, BREAKING_ATTRIBUTES[n - 1]), level);
    }
  }

  lemma AllAttributesListed(attribute: Attribute) returns (i: nat)
    ensures i < |BREAKING_ATTRIBUTES| && BREAKING_ATTRIBUTES[i] == attribute
  {
    i := match attribute
      case LogicalType => 0
      case PhysicalType => 1
      case Items => 2
      case Required => 3
      case ProtoFieldNumber => 4
      case RecordName => 5;
  }

  lemma {:induction false} FieldAtMost(noted: seq<Detail>, path: string, older: Field, newer: Field, level: ChangeClass)
    ensures AtMost(NoteField(noted, path, older, newer), level) <==>
            AtMost(noted, level) && FieldWithin(older, newer, level)
    decreases older, 1
  {
    hide NoteAttributes, NoteBinding, NoteSchema, Worst;
    var attributes := NoteAttributes(noted, path, |BREAKING_ATTRIBUTES|, older, newer);
    AttributesAtMost(noted, path, |BREAKING_ATTRIBUTES|, older, newer, level);
    assert (forall i :: 0 <= i < |BREAKING_ATTRIBUTES| ==> SameAttribute(BREAKING_ATTRIBUTES[i], older, newer))
       ==> forall attribute :: SameAttribute(attribute, older, newer) by {
      forall attribute | forall i :: 0 <= i < |BREAKING_ATTRIBUTES| ==> SameAttribute(BREAKING_ATTRIBUTES[i], older, newer)
        ensures SameAttribute(attribute, older, newer)
      {
        var i := AllAttributesListed(attribute);
      }
    }
    AtMostMore(attributes, ConstraintsChanged(path), level);
    var constraints := NoteConstraints(attributes, path, older, newer);
    var before, after := older.binding.GetOr(map[]), newer.binding.GetOr(map[]);
    BindingAtMost(constraints, FieldAt(path), before, after, level);
    if older.record.Some? && newer.record.Some? {
      SchemaAtMost(NoteBinding(constraints, FieldAt(path), before, after),
                   older.record.value, newer.record.value, path + ".", level);
    }
  }

  lemma {:induction false} RemovedAtMost(noted: seq<Detail>, names: seq<string>, n: nat, prefix: string, level: ChangeClass)
    requires n <= |names|
    ensures AtMost(NoteRemoved(noted, names, n, prefix), level) <==>
            AtMost(noted, level) && (level == Breaking || n == 0)
  {
    if n > 0 {
      RemovedAtMost(noted, names, n - 1, prefix, level);
      AtMostMore(NoteRemoved(noted, names, n - 1, prefix), RemovedField(prefix + names[n - 1]), level);
    }
  }

  lemma {:induction false} AddedAtMost(noted: seq<Detail>, names: seq<string>, n: nat, newer: Schema, prefix: string,
                                       level: ChangeClass)
    requires n <= |names| && AllIn(names, newer)
    ensures AtMost(NoteAdded(noted, names, n, newer, prefix), level) <==>
            AtMost(noted, level) &&
            forall i :: 0 <= i < n ==> AdmitsAdded(newer.fields[names[i]], level)
  {
    hide Worst;
    if n > 0 {
      AddedAtMost(noted, names, n - 1, newer, prefix, level);
      AtMostMore(NoteAdded(noted, names, n - 1, newer, prefix),
                 AddedDetail(prefix + names[n - 1], newer.fields[names[n - 1]]), level);
    }
  }

  lemma {:induction false} CommonAtMost(noted: seq<Detail>, names: seq<string>, n: nat, older: Schema, newer: Schema,
                                        prefix: string, level: ChangeClass)
    requires n <= |names| && AllIn(names, older) && AllIn(names, newer)
    ensures AtMost(NoteCommon(noted, names, n, older, newer, prefix), level) <==>
            AtMost(noted, level) &&
            forall i :: 0 <= i < n ==> FieldWithin(older.fields[names[i]], newer.fields[names[i]], level)
    decreases older, 0, n
  {
    hide NoteField, FieldWithin, Worst;
    if n > 0 {
      var name := names[n - 1];
      CommonAtMost(noted, names, n - 1, older, newer, prefix, level);
      FieldAtMost(NoteCommon(noted, names, n - 1, older, newer, prefix), prefix + name,
                  older.fields[name], newer.fields[name], level);
    }
  }

  lemma {:induction false} SchemaAtMost(noted: seq<Detail>, older: Schema, newer: Schema, prefix: string, level: ChangeClass)
    ensures AtMost(NoteSchema(noted, older, newer, prefix), level) <==>
            AtMost(noted, level) && SchemaWithin(older, newer, level)
    decreases older, 1
  {
    var removed, common, added := RemovedNames(older, newer), CommonNames(older, newer), RemovedNames(newer, older);
    var afterRemoved := NoteRemoved(noted, removed, |removed|, prefix);
    var afterCommon := NoteCommon(afterRemoved, common, |common|, older, newer, prefix);
    RemovedAtMost(noted, removed, |removed|, prefix, level);
    CommonAtMost(afterRemoved, common, |common|, older, newer, prefix, level);
    AddedAtMost(afterCommon, added, |added|, newer, prefix, level);
    SchemaByNames(older, newer, level);
  }

  lemma SchemaByNames(older: Schema, newer: Schema, level: ChangeClass)
    ensures var removed, common, added :=
        RemovedNames(older, newer), CommonNames(older, newer), RemovedNames(newer, older);
      SchemaWithin(older, newer, level) <==>
      && (level == Breaking || |removed| == 0)
      && (forall i :: 0 <= i < |common| ==> FieldWithin(older.fields[common[i]], newer.fields[common[i]], level))
      && (forall i :: 0 <= i < |added| ==> AdmitsAdded(newer.fields[added[i]], level))
  {
    NamesCover(older, newer);
    NamesCover(newer, older);
    SchemaByNameSeqs(older, newer, RemovedNames(older, newer), CommonNames(older, newer), RemovedNames(newer, older), level);
  }

  lemma SchemaByNameSeqs(older: Schema, newer: Schema, removed: seq<string>, common: seq<string>, added: seq<string>,
                         level: ChangeClass)
    requires forall name :: name in removed <==> name in older.fields && name !in newer.fields
    requires forall name :: name in common <==> name in older.fields && name in newer.fields
    requires forall name :: name in added <==> name in newer.fields && name !in older.fields
    requires AllIn(common, older) && AllIn(common, newer) && AllIn(added, newer)
    ensures SchemaWithin(older, newer, level) <==>
      && (level == Breaking || |removed| == 0)
      && (forall i :: 0 <= i < |common| ==> FieldWithin(older.fields[common[i]], newer.fields[common[i]], level))
      && (forall i :: 0 <= i < |added| ==> AdmitsAdded(newer.fields[added[i]], level))
  {
    if level == Breaking {
      return;
    }
    hide FieldWithin, AdmitsAdded;
    if |removed| > 0 {
      assert removed[0] in removed;
      return;
    }
    if SchemaWithin(older, newer, level) {
      forall i | 0 <= i < |common| ensures FieldWithin(older.fields[common[i]], newer.fields[common[i]], level) {
        assert common[i] in common;
      }
      forall i | 0 <= i < |added| ensures AdmitsAdded(newer.fields[added[i]], level) {
        assert added[i] in added;
      }
    }
    if && (forall i :: 0 <= i < |common| ==> FieldWithin(older.fields[common[i]], newer.fields[common[i]], level))
      && (forall i :: 0 <= i < |added| ==> AdmitsAdded(newer.fields[added[i]], level))
    {
      forall name | name in older.fields
        ensures name in newer.fields && FieldWithin(older.fields[name], newer.fields[name], level)
      {
        assert name !in removed;
        assert name in common;
      }
      forall name | name in newer.fields && name !in older.fields ensures AdmitsAdded(newer.fields[name], level) {
        assert name in added;
      }
    }
  }

  lemma NamesCover(older: Schema, newer: Schema)
    ensures forall name :: name in older.fields && name !in newer.fields <==> name in RemovedNames(older, newer)
    ensures forall name :: name in older.fields && name in newer.fields <==> name in CommonNames(older, newer)
  {
    SortedIsSorted(older.fields.Keys - newer.fields.Keys);
    SortedIsSorted(older.fields.Keys * newer.fields.Keys);
  }
}

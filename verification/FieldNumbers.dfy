/** Protobuf field numbers: who owns a number in a message or record, over a whole history. */
module FieldNumbers {
  import opened Wrappers
  import opened Ordering
  import opened Snapshots

  /** A number in a scope: "" for the message, a record's name for its fields. */
  datatype Slot = Slot(scope: string, number: int)

  datatype Use = Use(slot: Slot, name: string)

  function OwnUse(scope: string, name: string, field: Field): seq<Use> {
    if field.number.Some? then [Use(Slot(scope, field.number.value), name)] else []
  }

  /** `str(spec.get("recordName") or name)` */
  function RecordScope(name: string, field: Field): string {
    if field.recordName.Some? && field.recordName.value != "" then field.recordName.value else name
  }

  function FieldUses(scope: string, name: string, field: Field): seq<Use>
    decreases field, 0
  {
    OwnUse(scope, name, field) +
    (if field.record.Some? then SchemaUses(field.record.value, RecordScope(name, field)) else [])
  }

  function NamedUses(schema: Schema, scope: string, names: seq<string>, n: nat): seq<Use>
    requires n <= |names| && forall i :: 0 <= i < |names| ==> names[i] in schema.fields
    decreases schema, 0, n
  {
    if n == 0 then []
    else NamedUses(schema, scope, names, n - 1) + FieldUses(scope, names[n - 1], schema.fields[names[n - 1]])
  }

  /** (scope, number, name) of the numbered fields of a message and its records. */
  function SchemaUses(schema: Schema, scope: string): seq<Use>
    decreases schema, 1
  {
    var names := Sorted(schema.fields.Keys);
    NamedUses(schema, scope, names, |names|)
  }

  // ---------------------------------------------------------------- the same, without an order

  ghost predicate UsedByField(scope: string, name: string, field: Field, use: Use)
    decreases field
  {
    || (field.number == Some(use.slot.number) && use.slot.scope == scope && use.name == name)
    || (field.record.Some? && UsedBySchema(field.record.value, RecordScope(name, field), use))
  }

  /** A field of the schema, or of a record in it, declares this use. */
  ghost predicate UsedBySchema(schema: Schema, scope: string, use: Use)
    decreases schema
  {
    exists name :: name in schema.fields && UsedByField(scope, name, schema.fields[name], use)
  }

  lemma {:induction false} FieldUsesExact(scope: string, name: string, field: Field, use: Use)
    ensures use in FieldUses(scope, name, field) <==> UsedByField(scope, name, field, use)
    decreases field, 0
  {
    if field.record.Some? {
      SchemaUsesExact(field.record.value, RecordScope(name, field), use);
    }
  }

  lemma {:induction false} NamedUsesExact(schema: Schema, scope: string, names: seq<string>, n: nat, use: Use)
    requires n <= |names| && forall i :: 0 <= i < |names| ==> names[i] in schema.fields
    ensures use in NamedUses(schema, scope, names, n) <==>
            exists i :: 0 <= i < n && UsedByField(scope, names[i], schema.fields[names[i]], use)
    decreases schema, 0, n
  {
    hide UsedByField, FieldUses, SchemaUses;
    if n > 0 {
      NamedUsesExact(schema, scope, names, n - 1, use);
      FieldUsesExact(scope, names[n - 1], schema.fields[names[n - 1]], use);
    }
  }

  /** The listing holds exactly the declared uses, whatever order a document spells its fields in. */
  lemma {:induction false} SchemaUsesExact(schema: Schema, scope: string, use: Use)
    ensures use in SchemaUses(schema, scope) <==> UsedBySchema(schema, scope, use)
    decreases schema, 1
  {
    var names := Sorted(schema.fields.Keys);
    SortedIsSorted(schema.fields.Keys);
    NamedUsesExact(schema, scope, names, |names|, use);
    if UsedBySchema(schema, scope, use) {
      var name :| name in schema.fields && UsedByField(scope, name, schema.fields[name], use);
      assert name in names;
    }
  }

  // ---------------------------------------------------------------- ownership over a history

  ghost predicate UsedIn(history: seq<Snapshot>, use: Use) {
    exists i :: 0 <= i < |history| && UsedBySchema(history[i].Declared(), "", use)
  }

  /** No number of a scope names two different fields anywhere in the history. */
  ghost predicate NumbersOwned(history: seq<Snapshot>) {
    forall a, b :: UsedIn(history, a) && UsedIn(history, b) && a.slot == b.slot ==> a.name == b.name
  }

  /** One use of a number, in the order the uses are met, with the version that holds it. */
  datatype Claim = Claim(use: Use, version: string)

  datatype Owner = Owner(name: string, version: string)

  datatype NumberReuse = NumberReuse(slot: Slot, owner: Owner, name: string, version: string)

  /** The claims made after the first `n` uses of a snapshot. */
  function ClaimUses(made: seq<Claim>, uses: seq<Use>, n: nat, version: string): seq<Claim>
    requires n <= |uses|
  {
    if n == 0 then made else ClaimUses(made, uses, n - 1, version) + [Claim(uses[n - 1], version)]
  }

  function ClaimSnapshot(made: seq<Claim>, snapshot: Snapshot): seq<Claim> {
    var uses := SchemaUses(snapshot.Declared(), "");
    ClaimUses(made, uses, |uses|, snapshot.version)
  }

  /** The claims of the first `n` snapshots. */
  function Claims(history: seq<Snapshot>, n: nat): seq<Claim>
    requires n <= |history|
  {
    if n == 0 then [] else ClaimSnapshot(Claims(history, n - 1), history[n - 1])
  }

  /** The first claim of a slot owns it. */
  function FirstOwner(claims: seq<Claim>, slot: Slot): Option<Owner> {
    if claims == [] then None
    else
      var earlier := FirstOwner(claims[..|claims| - 1], slot);
      var last := claims[|claims| - 1];
      if earlier.None? && last.use.slot == slot then Some(Owner(last.use.name, last.version)) else earlier
  }

  lemma FirstOwnerOfMore(claims: seq<Claim>, claim: Claim, slot: Slot)
    ensures FirstOwner(claims + [claim], slot) ==
            if FirstOwner(claims, slot).None? && claim.use.slot == slot
            then Some(Owner(claim.use.name, claim.version)) else FirstOwner(claims, slot)
  {
    assert (claims + [claim])[..|claims|] == claims;
  }

  lemma {:induction false} FirstOwnerIsClaimed(claims: seq<Claim>, slot: Slot)
    ensures forall i :: 0 <= i < |claims| && claims[i].use.slot == slot ==> FirstOwner(claims, slot).Some?
    ensures FirstOwner(claims, slot).Some? ==>
            exists i :: 0 <= i < |claims| && claims[i].use == Use(slot, FirstOwner(claims, slot).value.name)
  {
    if claims != [] {
      var front := claims[..|claims| - 1];
      FirstOwnerIsClaimed(front, slot);
      if FirstOwner(front, slot).Some? {
        var i :| 0 <= i < |front| && front[i].use == Use(slot, FirstOwner(front, slot).value.name);
        assert claims[i] == front[i];
      }
    }
  }

  /** The reuses a claim list shows: every claim whose slot is first owned by another field. */
  function Reuses(claims: seq<Claim>): set<NumberReuse> {
    if claims == [] then {}
    else
      var last := claims[|claims| - 1];
      var owner := FirstOwner(claims, last.use.slot);
      Reuses(claims[..|claims| - 1]) +
      (if owner.Some? && owner.value.name != last.use.name
       then {NumberReuse(last.use.slot, owner.value, last.use.name, last.version)} else {})
  }

  /** Exactly the uses that name another field than the slot's first owner are reported. */
  lemma {:induction false} ReusesExact(claims: seq<Claim>, reuse: NumberReuse)
    ensures reuse in Reuses(claims) <==>
      && Claim(Use(reuse.slot, reuse.name), reuse.version) in claims
      && FirstOwner(claims, reuse.slot) == Some(reuse.owner) && reuse.owner.name != reuse.name
  {
    if claims != [] {
      var front, last := claims[..|claims| - 1], claims[|claims| - 1];
      ReusesExact(front, reuse);
      assert claims == front + [last];
      FirstOwnerIsClaimed(front, reuse.slot);
      FirstOwnerOfMore(front, last, reuse.slot);
    }
  }

  ghost predicate OwnersAre(owners: map<Slot, Owner>, claims: seq<Claim>) {
    forall slot :: FirstOwner(claims, slot) == if slot in owners then Some(owners[slot]) else None
  }

  /** One pass over the owner table for one more claim. */
  method ClaimOne(owners: map<Slot, Owner>, errors: set<NumberReuse>, claim: Claim, ghost made: seq<Claim>)
    returns (owners': map<Slot, Owner>, errors': set<NumberReuse>)
    requires OwnersAre(owners, made) && errors == Reuses(made)
    ensures OwnersAre(owners', made + [claim]) && errors' == Reuses(made + [claim])
  {
    owners', errors' := owners, errors;
    var slot := claim.use.slot;
    if slot !in owners' {
      owners' := owners'[slot := Owner(claim.use.name, claim.version)];
    }
    var previous := owners'[slot];
    if previous.name != claim.use.name {
      errors' := errors' + {NumberReuse(slot, previous, claim.use.name, claim.version)};
    }
    forall other ensures FirstOwner(made + [claim], other) ==
                         if other in owners' then Some(owners'[other]) else None
    {
      FirstOwnerOfMore(made, claim, other);
    }
    assert (made + [claim])[..|made|] == made;
  }

  /** A proto field number that named different fields, per message or record, in the history. */
  method ProtoNumberErrors(history: seq<Snapshot>) returns (errors: set<NumberReuse>)
    ensures errors == NumberErrors(history)
  {
    var owners: map<Slot, Owner> := map[];
    errors := {};
    for h := 0 to |history|
      invariant OwnersAre(owners, Claims(history, h)) && errors == Reuses(Claims(history, h))
    {
      ghost var made := Claims(history, h);
      var version := history[h].version;
      var uses := SchemaUses(history[h].Declared(), "");
      for i := 0 to |uses|
        invariant OwnersAre(owners, ClaimUses(made, uses, i, version))
        invariant errors == Reuses(ClaimUses(made, uses, i, version))
      {
        owners, errors := ClaimOne(owners, errors, Claim(uses[i], version), ClaimUses(made, uses, i, version));
      }
    }
  }

  function NumberErrors(history: seq<Snapshot>): set<NumberReuse> {
    Reuses(Claims(history, |history|))
  }

  // ---------------------------------------------------------------- comparing with the first owner is enough

  ghost predicate Claimed(claims: seq<Claim>, use: Use) {
    exists i :: 0 <= i < |claims| && claims[i].use == use
  }

  lemma {:induction false} ClaimUsesExact(made: seq<Claim>, uses: seq<Use>, n: nat, version: string, use: Use)
    requires n <= |uses|
    ensures Claimed(ClaimUses(made, uses, n, version), use) <==> Claimed(made, use) || use in uses[..n]
  {
    if n > 0 {
      var before := ClaimUses(made, uses, n - 1, version);
      var after := before + [Claim(uses[n - 1], version)];
      ClaimUsesExact(made, uses, n - 1, version, use);
      assert uses[..n] == uses[..n - 1] + [uses[n - 1]];
      if Claimed(before, use) {
        var i :| 0 <= i < |before| && before[i].use == use;
        assert after[i].use == use;
      }
      assert after[|before|].use == uses[n - 1];
    }
  }

  lemma {:induction false} ClaimsExact(history: seq<Snapshot>, n: nat, use: Use)
    requires n <= |history|
    ensures Claimed(Claims(history, n), use) <==>
            exists h :: 0 <= h < n && UsedBySchema(history[h].Declared(), "", use)
  {
    hide UsedBySchema, SchemaUses, ClaimUses;
    if n > 0 {
      var uses := SchemaUses(history[n - 1].Declared(), "");
      ClaimsExact(history, n - 1, use);
      ClaimUsesExact(Claims(history, n - 1), uses, |uses|, history[n - 1].version, use);
      SchemaUsesExact(history[n - 1].Declared(), "", use);
      assert uses[..|uses|] == uses;
    }
  }

  ghost predicate Consistent(claims: seq<Claim>) {
    forall i, j :: 0 <= i < |claims| && 0 <= j < |claims| && claims[i].use.slot == claims[j].use.slot ==>
      claims[i].use.name == claims[j].use.name
  }

  lemma {:induction false} NoReuseIsConsistent(claims: seq<Claim>)
    ensures Reuses(claims) == {} <==> Consistent(claims)
  {
    if claims != [] {
      var front, last := claims[..|claims| - 1], claims[|claims| - 1];
      hide Reuses, Consistent, FirstOwner, AgreesWith;
      NoReuseIsConsistent(front);
      assert claims == front + [last];
      NoMoreReuse(front, last);
      ConsistentMore(front, last);
      if Consistent(front) {
        FirstOwnerDecides(front, last);
      }
    }
  }

  lemma NoMoreReuse(claims: seq<Claim>, claim: Claim)
    ensures Reuses(claims + [claim]) == {} <==>
      && Reuses(claims) == {}
      && (FirstOwner(claims, claim.use.slot).None? || FirstOwner(claims, claim.use.slot).value.name == claim.use.name)
  {
    assert (claims + [claim])[..|claims|] == claims;
    FirstOwnerOfMore(claims, claim, claim.use.slot);
    hide FirstOwner;
  }

  lemma ConsistentMore(claims: seq<Claim>, claim: Claim)
    ensures Consistent(claims + [claim]) <==> Consistent(claims) && AgreesWith(claims, claim)
  {
    var more := claims + [claim];
    assert forall i :: 0 <= i < |claims| ==> more[i] == claims[i];
    assert more[|claims|] == claim;
    if Consistent(more) {
      forall i, j | 0 <= i < |claims| && 0 <= j < |claims| && claims[i].use.slot == claims[j].use.slot
        ensures claims[i].use.name == claims[j].use.name
      {
        assert more[i].use.slot == more[j].use.slot;
      }
    }
  }

  ghost predicate AgreesWith(claims: seq<Claim>, claim: Claim) {
    forall i :: 0 <= i < |claims| && claims[i].use.slot == claim.use.slot ==> claims[i].use.name == claim.use.name
  }

  /** Among consistent claims, agreeing with the first owner is agreeing with all. */
  lemma FirstOwnerDecides(claims: seq<Claim>, claim: Claim)
    requires Consistent(claims)
    ensures AgreesWith(claims, claim) <==>
            FirstOwner(claims, claim.use.slot).None? || FirstOwner(claims, claim.use.slot).value.name == claim.use.name
  {
    hide FirstOwner;
    FirstOwnerIsClaimed(claims, claim.use.slot);
  }

  /** Although each use is compared with the first owner only, no two uses anywhere can disagree unseen. */
  lemma NoReuseMeansOwned(history: seq<Snapshot>)
    ensures NumberErrors(history) == {} <==> NumbersOwned(history)
  {
    var claims := Claims(history, |history|);
    NoReuseIsConsistent(claims);
    forall use ensures UsedIn(history, use) <==> Claimed(claims, use) {
      ClaimsExact(history, |history|, use);
    }
    if NumbersOwned(history) {
      forall i, j | 0 <= i < |claims| && 0 <= j < |claims| && claims[i].use.slot == claims[j].use.slot
        ensures claims[i].use.name == claims[j].use.name
      {
        assert Claimed(claims, claims[i].use) && Claimed(claims, claims[j].use);
      }
    }
    if Consistent(claims) {
      forall a, b | UsedIn(history, a) && UsedIn(history, b) && a.slot == b.slot ensures a.name == b.name {
        assert Claimed(claims, a) && Claimed(claims, b);
      }
    }
  }
}

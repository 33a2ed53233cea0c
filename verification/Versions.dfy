/** Version numbers and the bump a change class requires. */
module Versions {
  import opened Strings
  import opened Snapshots
  import opened EvolutionPolicy

  datatype Version = Version(major: nat, minor: nat, patch: nat) {
    /** Python's tuple order */
    predicate Less(other: Version) {
      major < other.major || (major == other.major && MinorLess(other))
    }

    predicate MinorLess(other: Version) {
      minor < other.minor || (minor == other.minor && patch < other.patch)
    }

    /** `self[:2] < other[:2]` */
    predicate LessMinor(other: Version) {
      major < other.major || (major == other.major && minor < other.minor)
    }
  }

  function ParsePart(parts: seq<string>, i: nat): nat {
    if i < |parts| && IsDigits(parts[i]) then Numeral(parts[i]) else 0
  }

  /** Up to three dotted parts; a missing or non-numeric part counts as 0. */
  function ParseVersion(text: string): Version {
    var parts := Split(text, '.');
    Version(ParsePart(parts, 0), ParsePart(parts, 1), ParsePart(parts, 2))
  }

  function RenderVersion(v: Version): string {
    Join([Decimal(v.major), Decimal(v.minor), Decimal(v.patch)], '.')
  }

  lemma ParseOfRender(v: Version)
    ensures ParseVersion(RenderVersion(v)) == v
  {
    var parts := [Decimal(v.major), Decimal(v.minor), Decimal(v.patch)];
    assert Free(parts, '.') by {
      assert !IsDigit('.');
    }
    SplitOfJoin(parts, '.');
    NumeralOfDecimal(v.major);
    NumeralOfDecimal(v.minor);
    NumeralOfDecimal(v.patch);
  }

  /** Missing parts and parts that are no numbers count as 0; parts beyond the third do not count. */
  lemma ParseIsLenient(v: Version, word: string, more: seq<string>)
    requires '.' !in word && !IsDigits(word) && Free(more, '.')
    ensures ParseVersion(Decimal(v.major)) == Version(v.major, 0, 0)
    ensures ParseVersion(Join([Decimal(v.major), Decimal(v.minor)], '.')) == Version(v.major, v.minor, 0)
    ensures ParseVersion(Join([Decimal(v.major), word, Decimal(v.patch)], '.')) == Version(v.major, 0, v.patch)
    ensures ParseVersion(Join([Decimal(v.major), Decimal(v.minor), Decimal(v.patch)] + more, '.')) == v
  {
    hide Decimal, Numeral;
    assert !IsDigit('.');
    var all := [Decimal(v.major), Decimal(v.minor), Decimal(v.patch)];
    SplitWhole(Decimal(v.major), '.');
    SplitOfJoin([Decimal(v.major), Decimal(v.minor)], '.');
    SplitOfJoin([Decimal(v.major), word, Decimal(v.patch)], '.');
    assert Free(all, '.');
    SplitOfJoin(all + more, '.');
    NumeralOfDecimal(v.major);
    NumeralOfDecimal(v.minor);
    NumeralOfDecimal(v.patch);
  }

  datatype PolicyError =
    | WentBackwards(older: string, newer: string)
    | NoBump(older: string, newer: string, change: ChangeClass)
    | NeedsMajor(older: string, newer: string)
    | NeedsMinor(older: string, newer: string)

  /** The bump each class requires. */
  ghost predicate Bumps(before: Version, after: Version, change: ChangeClass) {
    match change
    case Identical => before == after || before.Less(after)
    case Backward => before.LessMinor(after)
    case Breaking => before.major < after.major
  }

  /** Enforce the bump policy for one step. */
  function VersionPolicyErrors(older: string, newer: string, change: ChangeClass): (errors: seq<PolicyError>)
    ensures errors == [] <==> Bumps(ParseVersion(older), ParseVersion(newer), change)
  {
    var before, after := ParseVersion(older), ParseVersion(newer);
    if change == Identical then
      if after.Less(before) then [WentBackwards(older, newer)] else []
    else if !before.Less(after) then [NoBump(older, newer, change)]
    else if change == Breaking && after.major <= before.major then [NeedsMajor(older, newer)]
    else if change == Backward && !before.LessMinor(after) then [NeedsMinor(older, newer)]
    else []
  }

  /** The policy findings for the step from one snapshot to a newer one. */
  function StepErrors(older: Snapshot, newer: Snapshot): seq<PolicyError> {
    VersionPolicyErrors(older.version, newer.version, ClassOf(older, newer))
  }

  /** Two accepted steps compose into an accepted step of the worse class, or of any milder one. */
  lemma BumpsCompose(a: Version, b: Version, c: Version, first: ChangeClass, second: ChangeClass, whole: ChangeClass)
    requires Bumps(a, b, first) && Bumps(b, c, second)
    requires whole.Order() <= Worse(first, second).Order()
    ensures Bumps(a, c, whole)
  {
  }
}

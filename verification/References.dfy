/** Task references in a `Dependencies` field, and the part of it that gates a start. */
module References {
  import opened Wrappers
  import opened Strings
  import opened PlanReader

  predicate IsSlugChar(c: char) {
    'a' <= c <= 'z' || IsDigit(c) || c == '-'
  }

  /** The length of the run of slug characters from `i`. */
  function SlugRun(text: string, i: nat): (n: nat)
    requires i <= |text|
    ensures i + n <= |text|
    ensures forall k :: i <= k < i + n ==> IsSlugChar(text[k])
    ensures i + n < |text| ==> !IsSlugChar(text[i + n])
    decreases |text| - i
  {
    if i < |text| && IsSlugChar(text[i]) then 1 + SlugRun(text, i + 1) else 0
  }

  lemma {:induction false} SlugRunIs(text: string, i: nat, n: nat)
    requires i + n <= |text| && (forall k :: i <= k < i + n ==> IsSlugChar(text[k]))
    requires i + n < |text| ==> !IsSlugChar(text[i + n])
    ensures SlugRun(text, i) == n
    decreases n
  {
    if n > 0 {
      SlugRunIs(text, i + 1, n - 1);
    }
  }

  /** A kebab-case slug with at least one hyphen. */
  predicate IsTaskSlug(slug: string) {
    var parts := Split(slug, '-');
    |parts| >= 2 && forall i :: 0 <= i < |parts| ==> parts[i] != []
  }

  /** The slug of a backticked reference that starts at `i`. */
  function ReferenceAt(text: string, i: nat): (slug: Option<string>)
    requires i < |text|
    ensures slug.Some? ==> i + |slug.value| + 2 <= |text|
  {
    var end := i + 1 + SlugRun(text, i + 1);
    if text[i] == '`' && end < |text| && text[end] == '`' && IsTaskSlug(text[i + 1..end]) then Some(text[i + 1..end])
    else None
  }

  /** Non-overlapping references from `i` on, left to right. */
  function ReferencesFrom(text: string, i: nat): seq<string>
    requires i <= |text|
    decreases |text| - i
  {
    if i == |text| then []
    else
      match ReferenceAt(text, i)
      case Some(slug) => [slug] + ReferencesFrom(text, i + |slug| + 2)
      case None => ReferencesFrom(text, i + 1)
  }

  /** `list(dict.fromkeys(names))` */
  function FirstUses(names: seq<string>): (unique: seq<string>)
    ensures forall name :: name in unique <==> name in names
  {
    if names == [] then []
    else
      var earlier := FirstUses(names[..|names| - 1]);
      var last := names[|names| - 1];
      if last in earlier then earlier else earlier + [last]
  }

  function ReferencesIn(text: string): seq<string> {
    FirstUses(ReferencesFrom(text, 0))
  }

  const MARKERS: seq<string> := ["optional:", "cross-lane note:", "blocks:"]

  predicate IsWordChar(c: char) {
    'a' <= c <= 'z' || 'A' <= c <= 'Z' || IsDigit(c) || c == '_'
  }

  predicate SpellsAt(text: string, i: nat, word: string) {
    i + |word| <= |text| && forall k :: 0 <= k < |word| ==> LowerChar(text[i + k]) == word[k]
  }

  /** An informational marker starts at `i`, at a word boundary, in any case. */
  predicate MarkerAt(text: string, i: nat) {
    (i == 0 || i > |text| || !IsWordChar(text[i - 1])) &&
    exists m :: 0 <= m < |MARKERS| && SpellsAt(text, i, MARKERS[m])
  }

  /** The start of the first marker from `i` on, or the end of the text. */
  function FirstMarker(text: string, i: nat): (at: nat)
    requires i <= |text|
    ensures i <= at <= |text|
    ensures at < |text| ==> MarkerAt(text, at)
    ensures forall k :: i <= k < at ==> !MarkerAt(text, k)
    decreases |text| - i
  {
    if i == |text| || MarkerAt(text, i) then i else FirstMarker(text, i + 1)
  }

  function Dependencies(task: Task): string {
    if "dependencies" in task.fields then task.fields["dependencies"] else ""
  }

  /** Every task-like slug named in the `Dependencies` field. */
  function DependencyReferences(task: Task): seq<string> {
    ReferencesIn(Dependencies(task))
  }

  /** The task ids that must leave the plan before this task can start: those before the first marker. */
  function StartDependencies(task: Task): seq<string> {
    var text := Dependencies(task);
    ReferencesIn(text[..FirstMarker(text, 0)])
  }

  // ---------------------------------------------------------------- cutting at a marker cuts no reference

  lemma SlugRunOfPrefix(text: string, at: nat, i: nat)
    requires i <= at <= |text|
    ensures var n := SlugRun(text, i);
      SlugRun(text[..at], i) == if i + n <= at then n else at - i
    decreases at - i
  {
    var short := text[..at];
    if i < at {
      assert short[i] == text[i];
      if IsSlugChar(text[i]) {
        SlugRunOfPrefix(text, at, i + 1);
      }
    }
  }

  /** No slug run that starts before a marker ends in a backtick beyond the marker's start. */
  lemma MarkerStopsRuns(text: string, at: nat, i: nat)
    requires i <= at < |text| && MarkerAt(text, at)
    ensures var end := i + SlugRun(text, i); end < |text| && (end >= at ==> text[end] != '`')
  {
    hide SlugRun;
    var m :| 0 <= m < |MARKERS| && SpellsAt(text, at, MARKERS[m]);
    var word := MARKERS[m];
    var end := i + SlugRun(text, i);
    assert LowerChar(text[at + (|word| - 1)]) == word[|word| - 1] == ':';
    assert !IsSlugChar(text[at + (|word| - 1)]);
    if at <= end {
      assert LowerChar(text[at + (end - at)]) == word[end - at];
      assert forall k :: 0 <= k < |word| ==> word[k] != '`';
    }
  }

  /** Before a marker the cut text holds the same references, each ending before the marker. */
  lemma ReferencesAgree(text: string, at: nat, i: nat)
    requires i < at < |text| && MarkerAt(text, at)
    ensures ReferenceAt(text[..at], i) == ReferenceAt(text, i)
    ensures ReferenceAt(text, i).Some? ==> i + |ReferenceAt(text, i).value| + 2 <= at
  {
    hide SlugRun, IsTaskSlug, MarkerAt;
    var short := text[..at];
    SlugRunOfPrefix(text, at, i + 1);
    MarkerStopsRuns(text, at, i + 1);
    var end := i + 1 + SlugRun(text, i + 1);
    assert short[i] == text[i];
    if end < at {
      assert short[end] == text[end];
      assert short[i + 1..end] == text[i + 1..end];
    }
  }

  lemma {:induction false} ReferencesBeforeMarker(text: string, at: nat, i: nat)
    requires i <= at < |text| && MarkerAt(text, at)
    ensures ReferencesFrom(text[..at], i) <= ReferencesFrom(text, i)
    decreases at - i
  {
    hide ReferenceAt, MarkerAt;
    if i < at {
      ReferencesAgree(text, at, i);
      match ReferenceAt(text, i)
      case Some(slug) => ReferencesBeforeMarker(text, at, i + |slug| + 2);
      case None => ReferencesBeforeMarker(text, at, i + 1);
    }
  }

  lemma {:induction false} FirstUsesOfPrefix(names: seq<string>, n: nat)
    requires n <= |names|
    ensures FirstUses(names[..n]) <= FirstUses(names)
  {
    if n == |names| {
      assert names[..n] == names;
    } else {
      FirstUsesOfPrefix(names[..|names| - 1], n);
      assert names[..|names| - 1][..n] == names[..n];
    }
  }

  /** The start dependencies are an initial stretch of all references: a marker only drops later ones. */
  lemma StartDependenciesComeFirst(task: Task)
    ensures StartDependencies(task) <= DependencyReferences(task)
  {
    var text := Dependencies(task);
    var at := FirstMarker(text, 0);
    if at < |text| {
      ReferencesBeforeMarker(text, at, 0);
      var all := ReferencesFrom(text, 0);
      var n := |ReferencesFrom(text[..at], 0)|;
      assert all[..n] == ReferencesFrom(text[..at], 0);
      FirstUsesOfPrefix(all, n);
    } else {
      assert text[..at] == text;
    }
  }
}

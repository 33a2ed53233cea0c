/** How a `Dependencies` field is written, and that reading it gives back exactly the task ids written. */
module DependencyText {
  import opened Wrappers
  import opened Strings
  import opened Sequences
  import opened PlanReader
  import opened References
  import opened CycleDetection
  import opened PlanIntegrity
  import opened Scheduler
  import opened Scheduling

  // ---------------------------------------------------------------- task ids

  predicate IsIdChar(c: char) {
    'a' <= c <= 'z' || '0' <= c <= '9'
  }

  ghost predicate AreWords(words: seq<string>) {
    |words| >= 2 && forall i, k :: 0 <= i < |words| && 0 <= k < |words[i]| ==> IsIdChar(words[i][k])
  }

  /** At least two non-empty words of lower-case letters and digits, joined by hyphens. */
  ghost predicate IsTaskId(text: string) {
    exists words :: AreWords(words) && [] !in words && text == Join(words, '-')
  }

  lemma {:induction false} JoinedChars(words: seq<string>)
    requires |words| >= 1 && forall i, k :: 0 <= i < |words| && 0 <= k < |words[i]| ==> IsIdChar(words[i][k])
    ensures forall k :: 0 <= k < |Join(words, '-')| ==> IsSlugChar(Join(words, '-')[k])
  {
    if |words| > 1 {
      var rest := words[1..];
      assert forall i :: 0 <= i < |rest| ==> rest[i] == words[i + 1];
      JoinedChars(rest);
    }
  }

  lemma {:induction false} SplitChars(text: string, separator: char)
    ensures forall i, k :: 0 <= i < |Split(text, separator)| && 0 <= k < |Split(text, separator)[i]| ==>
      Split(text, separator)[i][k] in text
  {
    if text != [] {
      var rest := Split(text[1..], separator);
      SplitChars(text[1..], separator);
      forall i, k | 0 <= i < |Split(text, separator)| && 0 <= k < |Split(text, separator)[i]|
        ensures Split(text, separator)[i][k] in text
      {
        if i == 0 {
          assert text[0] != separator && Split(text, separator)[0] == [text[0]] + rest[0];
          assert k > 0 ==> Split(text, separator)[0][k] == rest[0][k - 1];
        } else if text[0] == separator {
          assert Split(text, separator)[i] == rest[i - 1];
        } else {
          assert Split(text, separator)[i] == rest[i];
        }
      }
    }
  }

  /** The test for a slug decides exactly the form of a task id. */
  lemma TaskIdExact(text: string)
    ensures IsTaskId(text) <==> IsTaskSlug(text) && forall k :: 0 <= k < |text| ==> IsSlugChar(text[k])
  {
    hide Split, Join;
    if words :| AreWords(words) && [] !in words && text == Join(words, '-') {
      JoinedChars(words);
      assert Free(words, '-') by {
        forall i | 0 <= i < |words| ensures '-' !in words[i] {
          assert forall k :: 0 <= k < |words[i]| ==> IsIdChar(words[i][k]);
        }
      }
      SplitOfJoin(words, '-');
      forall i | 0 <= i < |words| ensures words[i] != [] {
        assert words[i] in words;
      }
    }
    if IsTaskSlug(text) && forall k :: 0 <= k < |text| ==> IsSlugChar(text[k]) {
      SlugWords(text);
    }
  }

  lemma SlugWords(text: string)
    requires IsTaskSlug(text) && forall k :: 0 <= k < |text| ==> IsSlugChar(text[k])
    ensures IsTaskId(text)
  {
    hide Split, Join;
    var words := Split(text, '-');
    SplitIsFree(text, '-');
    SplitChars(text, '-');
    JoinOfSplit(text, '-');
    forall i, k | 0 <= i < |words| && 0 <= k < |words[i]| ensures IsIdChar(words[i][k]) {
      assert words[i][k] in text && words[i][k] in words[i];
    }
    assert AreWords(words);
  }

  // ---------------------------------------------------------------- how a field is written

  datatype Part = Prose(text: string) | Code(text: string)

  function PartText(part: Part): string {
    match part
    case Prose(text) => text
    case Code(text) => "`" + (text + "`")
  }

  function FieldText(parts: seq<Part>): string {
    if parts == [] then "" else PartText(parts[0]) + FieldText(parts[1..])
  }

  /** No stray backtick; behind code that is no task id the text does not go on like a slug. */
  ghost predicate ProperPart(part: Part, rest: string) {
    '`' !in part.text &&
    (part.Code? && !IsTaskId(part.text) ==> rest == "" || !IsSlugChar(rest[0]))
  }

  ghost predicate ProperField(parts: seq<Part>) {
    parts != [] ==> ProperPart(parts[0], FieldText(parts[1..])) && ProperField(parts[1..])
  }

  /** The task ids written as code, in order. */
  ghost function IdsIn(parts: seq<Part>): seq<string> {
    if parts == [] then []
    else (if parts[0].Code? && IsTaskId(parts[0].text) then [parts[0].text] else []) + IdsIn(parts[1..])
  }

  // ---------------------------------------------------------------- reading the parts

  lemma {:induction false} NothingUntil(text: string, i: nat, j: nat)
    requires i <= j <= |text| && forall k :: i <= k < j ==> ReferenceAt(text, k).None?
    ensures ReferencesFrom(text, i) == ReferencesFrom(text, j)
    decreases j - i
  {
    hide ReferenceAt;
    if i < j {
      NothingUntil(text, i + 1, j);
    }
  }

  lemma NoBacktick(text: string, i: nat, j: nat)
    requires i <= j <= |text| && forall k :: i <= k < j ==> text[k] != '`'
    ensures ReferencesFrom(text, i) == ReferencesFrom(text, j)
  {
    hide SlugRun, IsTaskSlug, ReferencesFrom;
    NothingUntil(text, i, j);
  }

  lemma IdReads(text: string, i: nat, id: string)
    requires IsTaskId(id) && i + |id| + 2 <= |text| && text[i] == '`' == text[i + 1 + |id|] && text[i + 1..i + 1 + |id|] == id
    ensures ReferenceAt(text, i) == Some(id)
  {
    hide SlugRun, IsTaskSlug, IsTaskId;
    TaskIdExact(id);
    forall k | i + 1 <= k < i + 1 + |id| ensures IsSlugChar(text[k]) {
      assert text[k] == id[k - (i + 1)];
    }
    SlugRunIs(text, i + 1, |id|);
  }

  /** Code that is no task id is no reference. */
  lemma CodeIsNone(text: string, i: nat, code: string)
    requires !IsTaskId(code) && '`' !in code
    requires i + |code| + 2 <= |text| && text[i] == '`' == text[i + 1 + |code|] && text[i + 1..i + 1 + |code|] == code
    ensures ReferenceAt(text, i).None?
  {
    hide SlugRun, IsTaskSlug, IsTaskId;
    TaskIdExact(code);
    var n := SlugRun(text, i + 1);
    forall k | 0 <= k < |code| ensures text[i + 1 + k] == code[k] && code[k] != '`' {
      assert code[k] == text[i + 1..i + 1 + |code|][k] && code[k] in code;
    }
    assert n > |code| ==> IsSlugChar(text[i + 1 + |code|]);
    assert n < |code| ==> text[i + 1 + n] == code[n];
    if n == |code| {
      forall k | 0 <= k < |code| ensures IsSlugChar(code[k]) {
        assert code[k] == text[i + 1 + k];
      }
    }
  }

  /** A backtick that closes code opens no reference. */
  lemma CloserIsNone(text: string, i: nat)
    requires i < |text| && (i + 1 < |text| ==> !IsSlugChar(text[i + 1]))
    ensures ReferenceAt(text, i).None?
  {
    assert SlugRun(text, i + 1) == 0;
    assert text[i + 1..i + 1] == [];
    assert Split([], '-') == [[]];
  }

  lemma CodeParts(text: string, i: nat, code: string, rest: string)
    requires i <= |text| && text[i..] == ("`" + (code + "`")) + rest
    ensures i + |code| + 2 <= |text| && text[i] == '`' == text[i + 1 + |code|]
    ensures text[i + 1..i + 1 + |code|] == code && text[i + |code| + 2..] == rest
  {
    var all := ("`" + (code + "`")) + rest;
    assert |text| - i == |all|;
    assert text[i] == text[i..][0];
    assert text[i + 1 + |code|] == text[i..][1 + |code|];
    assert text[i + 1..i + 1 + |code|] == text[i..][1..1 + |code|] == code;
    assert text[i + |code| + 2..] == text[i..][|code| + 2..] == rest;
  }

  lemma PartReads(text: string, i: nat, part: Part, rest: string)
    requires i <= |text| && text[i..] == PartText(part) + rest && ProperPart(part, rest)
    ensures i + |PartText(part)| <= |text| && text[i + |PartText(part)|..] == rest
    ensures ReferencesFrom(text, i) ==
            (if part.Code? && IsTaskId(part.text) then [part.text] else []) + ReferencesFrom(text, i + |PartText(part)|)
  {
    hide ReferenceAt, IsTaskId, IsSlugChar, ReferencesFrom;
    match part
    case Prose(prose) => ProseReads(text, i, prose, rest);
    case Code(code) => CodePartReads(text, i, code, rest);
  }

  lemma CodePartReads(text: string, i: nat, code: string, rest: string)
    requires i <= |text| && text[i..] == ("`" + (code + "`")) + rest && ProperPart(Code(code), rest)
    ensures i + |code| + 2 <= |text| && text[i + |code| + 2..] == rest
    ensures ReferencesFrom(text, i) == (if IsTaskId(code) then [code] else []) + ReferencesFrom(text, i + |code| + 2)
  {
    hide ReferenceAt, IsTaskId, IsSlugChar, ReferencesFrom;
    CodeParts(text, i, code, rest);
    if IsTaskId(code) {
      IdReads(text, i, code);
      IdThen(text, i, code);
    } else {
      RestStarts(text, i + |code| + 2, rest);
      CodeReads(text, i, code);
    }
  }

  lemma RestStarts(text: string, i: nat, rest: string)
    requires i <= |text| && text[i..] == rest
    ensures rest == "" <==> i == |text|
    ensures i < |text| ==> text[i] == rest[0]
  {
  }

  lemma ProseReads(text: string, i: nat, prose: string, rest: string)
    requires i <= |text| && text[i..] == prose + rest && '`' !in prose
    ensures i + |prose| <= |text| && text[i + |prose|..] == rest
    ensures ReferencesFrom(text, i) == ReferencesFrom(text, i + |prose|)
  {
    hide ReferencesFrom;
    assert text[i..][|prose|..] == rest;
    forall k | i <= k < i + |prose| ensures text[k] != '`' {
      assert text[k] == text[i..][k - i] == prose[k - i];
    }
    NoBacktick(text, i, i + |prose|);
  }

  lemma IdThen(text: string, i: nat, id: string)
    requires i < |text| && ReferenceAt(text, i) == Some(id)
    ensures ReferencesFrom(text, i) == [id] + ReferencesFrom(text, i + |id| + 2)
  {
    hide ReferenceAt;
  }

  lemma CodeReads(text: string, i: nat, code: string)
    requires !IsTaskId(code) && '`' !in code
    requires i + |code| + 2 <= |text| && text[i] == '`' == text[i + 1 + |code|] && text[i + 1..i + 1 + |code|] == code
    requires i + |code| + 2 < |text| ==> !IsSlugChar(text[i + |code| + 2])
    ensures ReferencesFrom(text, i) == ReferencesFrom(text, i + |code| + 2)
  {
    hide ReferenceAt, IsTaskId, IsSlugChar, ReferencesFrom;
    CodeIsNone(text, i, code);
    var close := i + 1 + |code|;
    CloserIsNone(text, close);
    NothingUntil(text, i, i + 1);
    NothingUntil(text, close, close + 1);
    forall k | i + 1 <= k < close ensures text[k] != '`' {
      assert text[k] == code[k - (i + 1)];
    }
    NoBacktick(text, i + 1, close);
  }

  lemma {:induction false} PartsRead(text: string, i: nat, parts: seq<Part>)
    requires ProperField(parts) && i <= |text| && text[i..] == FieldText(parts)
    ensures ReferencesFrom(text, i) == IdsIn(parts)
    decreases |parts|
  {
    hide PartText, ProperPart, ReferencesFrom, IsTaskId;
    if parts == [] {
      NothingBehind(text);
    } else {
      PartReads(text, i, parts[0], FieldText(parts[1..]));
      PartsRead(text, i + |PartText(parts[0])|, parts[1..]);
    }
  }

  lemma NothingBehind(text: string)
    ensures ReferencesFrom(text, |text|) == []
  {
  }

  // ---------------------------------------------------------------- markers

  ghost predicate Opens(text: string, k: nat, word: string)
    requires k <= |text|
  {
    k + |word| <= |text| && Lower(text[k..k + |word|]) == word
  }

  /** `Optional:`, `Cross-lane note:` or `Blocks:` stands here, in any case and not within a word. */
  ghost predicate MarkedAt(text: string, k: nat)
    requires k <= |text|
  {
    && (Opens(text, k, "optional:") || Opens(text, k, "cross-lane note:") || Opens(text, k, "blocks:"))
    && (k > 0 ==> !('a' <= LowerChar(text[k - 1]) <= 'z' || '0' <= text[k - 1] <= '9' || text[k - 1] == '_'))
  }

  lemma OpensExact(text: string, k: nat, word: string)
    requires k <= |text|
    ensures Opens(text, k, word) <==> SpellsAt(text, k, word)
  {
    if k + |word| <= |text| {
      var part := text[k..k + |word|];
      assert forall n :: 0 <= n < |word| ==> part[n] == text[k + n] && Lower(part)[n] == LowerChar(part[n]);
      if SpellsAt(text, k, word) {
        assert forall n :: 0 <= n < |word| ==> Lower(part)[n] == word[n];
        assert Lower(part) == word;
      }
      if Lower(part) == word {
        forall n | 0 <= n < |word| ensures LowerChar(text[k + n]) == word[n] {
          assert Lower(part)[n] == word[n];
        }
      }
    }
  }

  lemma MarkerExact(text: string, k: nat)
    requires k <= |text|
    ensures MarkerAt(text, k) <==> MarkedAt(text, k)
  {
    hide SpellsAt, Opens;
    OpensExact(text, k, "optional:");
    OpensExact(text, k, "cross-lane note:");
    OpensExact(text, k, "blocks:");
    assert MARKERS[0] == "optional:" && MARKERS[1] == "cross-lane note:" && MARKERS[2] == "blocks:" && |MARKERS| == 3;
  }

  lemma FirstMarkerIs(text: string, at: nat)
    requires at <= |text| && (at < |text| ==> MarkedAt(text, at))
    requires forall k :: 0 <= k < at ==> !MarkedAt(text, k)
    ensures FirstMarker(text, 0) == at
  {
    hide MarkerAt, MarkedAt, FirstMarker;
    var found := FirstMarker(text, 0);
    MarkerExact(text, found);
    MarkerExact(text, at);
  }

  // ---------------------------------------------------------------- the reading law

  lemma {:induction false} FieldTextConcat(front: seq<Part>, back: seq<Part>)
    ensures FieldText(front + back) == FieldText(front) + FieldText(back)
  {
    if front == [] {
      assert front + back == back;
    } else {
      assert (front + back)[1..] == front[1..] + back;
      FieldTextConcat(front[1..], back);
    }
  }

  lemma {:induction false} FrontIsProper(front: seq<Part>, back: seq<Part>)
    requires ProperField(front + back)
    ensures ProperField(front)
  {
    if front != [] {
      assert (front + back)[1..] == front[1..] + back;
      FrontIsProper(front[1..], back);
      FieldTextConcat(front[1..], back);
    }
  }

  /** One occurrence each, in the order of first use. */
  ghost predicate UsedBefore(names: seq<string>, a: string, b: string) {
    exists p :: 0 <= p < |names| && names[p] == a && b !in names[..p + 1]
  }

  lemma {:induction false} FirstUsesExact(names: seq<string>)
    ensures Distinct(FirstUses(names))
    ensures forall name :: name in FirstUses(names) <==> name in names
    ensures forall i, j :: 0 <= i < j < |FirstUses(names)| ==> UsedBefore(names, FirstUses(names)[i], FirstUses(names)[j])
  {
    if names != [] {
      var front, last := names[..|names| - 1], names[|names| - 1];
      var earlier := FirstUses(front);
      FirstUsesExact(front);
      forall a, b | UsedBefore(front, a, b) ensures UsedBefore(names, a, b) {
        var p :| 0 <= p < |front| && front[p] == a && b !in front[..p + 1];
        assert names[..p + 1] == front[..p + 1] && names[p] == a;
      }
      if last !in earlier {
        forall i | 0 <= i < |earlier| ensures UsedBefore(names, earlier[i], last) {
          assert earlier[i] in front;
          var p :| 0 <= p < |front| && front[p] == earlier[i];
          assert names[..p + 1] == front[..p + 1] && names[p] == earlier[i];
          assert last !in front;
        }
      }
    }
  }

  /** The field as written: the first marker, if there is one, stands between the two stretches. */
  ghost predicate Written(task: Task, front: seq<Part>, back: seq<Part>) {
    && "dependencies" in task.fields && task.fields["dependencies"] == FieldText(front + back)
    && ProperField(front + back)
    && var text, at := FieldText(front) + FieldText(back), |FieldText(front)|;
       && (FieldText(back) != "" ==> MarkedAt(text, at))
       && forall k :: 0 <= k < at ==> !MarkedAt(text, k)
  }

  /**
   A written field is read as exactly its task ids: all of them as references, and those in front of
   the first marker as start dependencies, each once and in order of first use.
   */
  lemma DependenciesRead(task: Task, front: seq<Part>, back: seq<Part>)
    requires Written(task, front, back)
    ensures StartDependencies(task) == FirstUses(IdsIn(front))
    ensures DependencyReferences(task) == FirstUses(IdsIn(front + back))
  {
    hide ReferencesFrom, FirstMarker, FieldText, ProperField, IdsIn, FirstUses, MarkedAt;
    var text := Dependencies(task);
    var at := |FieldText(front)|;
    FieldTextConcat(front, back);
    FirstMarkerIs(text, at);
    FrontIsProper(front, back);
    assert text[0..] == text && text[..at] == FieldText(front) == text[..at][0..];
    PartsRead(text, 0, front + back);
    PartsRead(text[..at], 0, front);
  }

  lemma NoDependencies(task: Task)
    requires "dependencies" !in task.fields
    ensures StartDependencies(task) == DependencyReferences(task) == []
  {
    assert FirstUses([]) == [];
    assert ReferencesFrom("", 0) == [];
    var text := "";
    assert text[..FirstMarker(text, 0)] == "";
  }

  /** A task can start exactly when no id written in front of the first marker is an open task. */
  lemma EligibleAsWritten(task: Task, front: seq<Part>, back: seq<Part>, open: set<string>)
    requires Written(task, front, back)
    ensures Eligible(task, open) <==> forall id :: id in IdsIn(front) ==> id !in open
  {
    hide StartDependencies, IdsIn, Eligible, Written, FirstUses;
    DependenciesRead(task, front, back);
    EligibleMeans(task, open);
  }

  /** A start dependency graph has an edge exactly for each id of an open task written in front of the first marker. */
  lemma EdgesAsWritten(tasks: seq<Task>, i: nat, front: seq<Part>, back: seq<Part>, to: string)
    requires Distinct(Ids(tasks)) && i < |tasks| && Written(tasks[i], front, back)
    ensures Edge(GraphOf(tasks), tasks[i].identifier, to) <==> to in OpenIds(tasks) && to in IdsIn(front)
  {
    hide StartDependencies, IdsIn, Written, GraphOf, Edge, OpenIds, Distinct, FirstUses;
    DependenciesRead(tasks[i], front, back);
    EdgeMeans(tasks, i, to);
  }
}

/** Every line of a plan, however it is written, is read as the line that was meant. */
module PlanWriting {
  import opened Wrappers
  import opened Strings
  import opened PlanReader
  import opened References
  import opened PlanText

  // ---------------------------------------------------------------- stripping

  lemma {:induction false} StripLeftSpace(space: string, text: string)
    requires AllSpace(space) && (text == "" || !IsSpace(text[0]))
    ensures StripLeft(space + text) == text
  {
    if space == "" {
      assert space + text == text;
    } else {
      assert (space + text)[1..] == space[1..] + text;
      StripLeftSpace(space[1..], text);
    }
  }

  lemma {:induction false} StripRightSpace(text: string, space: string)
    requires AllSpace(space) && (text == "" || !IsSpace(text[|text| - 1]))
    ensures StripRight(text + space) == text
  {
    if space == "" {
      assert text + space == text;
    } else {
      var whole := text + space;
      assert whole[..|whole| - 1] == text + space[..|space| - 1];
      assert whole[|whole| - 1] == space[|space| - 1];
      StripRightSpace(text, space[..|space| - 1]);
    }
  }

  lemma HashIsNoSpace()
    ensures !IsSpace('#') && !IsSpace('-') && !IsSpace('`') && IsSpace(' ')
    ensures forall c :: IsSlugChar(c) ==> !IsSpace(c)
  {
  }

  /** A line that starts with a hash or a dash is no fence. */
  lemma NoFence(text: string)
    requires text != "" && !IsSpace(text[0]) && text[0] != '`'
    ensures !StartsWith(StripLeft(text), FENCE)
  {
    assert StripLeft(text) == text;
    NoPrefix(text, FENCE);
  }

  lemma NoHeading(text: string)
    requires text == "" || text[0] != '#'
    ensures SectionTitle(text).None? && GroupId(text).None? && TaskHead(text).None?
  {
    NoPrefix(text, SECTION);
    NoPrefix(text, GROUP);
    NoPrefix(text, TASK);
  }

  lemma NoPrefix(text: string, prefix: string)
    requires prefix != "" && (text == "" || text[0] != prefix[0])
    ensures !StartsWith(text, prefix)
  {
    if StartsWith(text, prefix) {
      PrefixChar(text, prefix, 0);
    }
  }

  lemma OtherPrefix(text: string, prefix: string, k: nat)
    requires k < |prefix| && k < |text| && text[k] != prefix[k]
    ensures !StartsWith(text, prefix)
  {
    if StartsWith(text, prefix) {
      PrefixChar(text, prefix, k);
    }
  }

  lemma PrefixChar(text: string, prefix: string, k: nat)
    requires StartsWith(text, prefix) && k < |prefix|
    ensures k < |text| && text[k] == prefix[k]
  {
    assert text[..|prefix|][k] == text[k];
  }

  lemma StartsWithPrefix(prefix: string, rest: string)
    ensures StartsWith(prefix + rest, prefix) && (prefix + rest)[|prefix|..] == rest
  {
    assert (prefix + rest)[..|prefix|] == prefix;
  }

  // ---------------------------------------------------------------- each kind of line

  lemma FenceReads(space: string, rest: string)
    requires AllSpace(space)
    ensures Classify(space + (FENCE + rest)) == Fence
  {
    hide SectionTitle, GroupId, TaskHead, FieldParts, IsContinuation, IsSpace;
    HashIsNoSpace();
    StripLeftSpace(space, FENCE + rest);
    StartsWithPrefix(FENCE, rest);
  }

  lemma SectionReads(title: string, space: string)
    requires AllSpace(space) && title != "" && (|title| == 1 || !IsSpace(title[|title| - 1]))
    ensures Classify(SECTION + (title + space)) == Section(title)
  {
    hide GroupId, TaskHead, FieldParts, IsContinuation, IsSpace, StripRight;
    var text := SECTION + (title + space);
    HashIsNoSpace();
    NoFence(text);
    StartsWithPrefix(SECTION, title + space);
    if IsSpace(title[|title| - 1]) {
      BlankTitle(title, space);
    } else {
      StripRightSpace(title, space);
    }
  }

  /** A title of white space only is cut to its first character. */
  lemma BlankTitle(title: string, space: string)
    requires AllSpace(space) && |title| == 1 && IsSpace(title[0])
    ensures StripRight(title + space) == "" && (title + space)[..1] == title
  {
    hide IsSpace;
    assert AllSpace(title + space);
    StripRightSpace("", title + space);
    assert "" + (title + space) == title + space;
  }

  lemma {:induction false} SlugRunBeforeIs(text: string, end: nat, n: nat)
    requires n <= end <= |text| && (forall k :: end - n <= k < end ==> IsSlugChar(text[k]))
    requires n < end ==> !IsSlugChar(text[end - n - 1])
    ensures SlugRunBefore(text, end) == n
    decreases n
  {
    if n > 0 {
      SlugRunBeforeIs(text, end - 1, n - 1);
    }
  }

  lemma GroupReads(title: string, id: string, space: string)
    requires AllSpace(space) && title != "" && IsSlug(id)
    ensures Classify((GROUP + (title + DASHES)) + (id + ("`" + space))) == Group(id)
  {
    hide SectionTitle, GroupId, TaskHead, FieldParts, IsContinuation, IsSpace, StripLeft, IsSlug;
    var text := (GROUP + (title + DASHES)) + (id + ("`" + space));
    HashIsNoSpace();
    NoFence(text);
    OtherPrefix(text, SECTION, 2);
    NoSection(text);
    GroupIdIs(title, id, space);
  }

  lemma NoSection(text: string)
    requires !StartsWith(text, SECTION)
    ensures SectionTitle(text).None?
  {
  }

  lemma GroupIdIs(title: string, id: string, space: string)
    requires AllSpace(space) && title != "" && IsSlug(id)
    ensures GroupId((GROUP + (title + DASHES)) + (id + ("`" + space))) == Some(id)
  {
    hide SlugRunBefore, StripRight, IsSpace, IsSlugChar, IsSlug, GroupId, StartsWith;
    var front := GROUP + (title + DASHES);
    var line := front + (id + ("`" + space));
    SlugHasStart(id);
    StripGroup(front, id, space);
    GroupStarts(title, id + ("`" + space));
    FrontEnds(title);
    SlugBetween(front, id);
    Pieces(front, id);
    GroupIdOf(line, front + (id + "`"), front, id);
  }

  lemma GroupStarts(title: string, rest: string)
    ensures StartsWith((GROUP + (title + DASHES)) + rest, GROUP)
  {
    StartsWithPrefix(GROUP, (title + DASHES) + rest);
    assert (GROUP + (title + DASHES)) + rest == GROUP + ((title + DASHES) + rest);
  }

  lemma FrontEnds(title: string)
    requires title != ""
    ensures var front := GROUP + (title + DASHES);
      && |front| > |GROUP| + |DASHES| && front[|front| - |DASHES|..] == DASHES && front[|front| - 1] == '`'
  {
  }

  lemma GroupIdOf(line: string, text: string, front: string, id: string)
    requires StartsWith(line, GROUP) && StripRight(line) == text && id != ""
    requires |text| == |front| + |id| + 1 && text[|text| - 1] == '`'
    requires text[..|front|] == front && text[|front|..|front| + |id|] == id
    requires |front| > |GROUP| + |DASHES| && front[|front| - |DASHES|..] == DASHES
    requires SlugRunBefore(text, |text| - 1) == |id|
    ensures GroupId(line) == Some(id)
  {
    hide SlugRunBefore, StripRight, StartsWith, IsSlugChar;
  }

  lemma Pieces(front: string, id: string)
    ensures var text := front + (id + "`");
      && |text| == |front| + |id| + 1 && text[|text| - 1] == '`'
      && text[..|front|] == front && text[|front|..|front| + |id|] == id
  {
  }

  lemma StripGroup(front: string, id: string, space: string)
    requires AllSpace(space)
    ensures StripRight(front + (id + ("`" + space))) == front + (id + "`")
  {
    hide StripRight, IsSpace;
    HashIsNoSpace();
    var text := front + (id + "`");
    assert front + (id + ("`" + space)) == text + space;
    assert text[|text| - 1] == '`';
    StripRightSpace(text, space);
  }

  lemma SlugBetween(front: string, id: string)
    requires IsSlug(id) && front != "" && front[|front| - 1] == '`'
    ensures SlugRunBefore(front + (id + "`"), |front| + |id|) == |id|
  {
    hide SlugRunBefore;
    var text := front + (id + "`");
    var end := |front| + |id|;
    forall k | |front| <= k < end ensures IsSlugChar(text[k]) {
      assert text[k] == id[k - |front|];
    }
    assert text[|front| - 1] == '`';
    SlugRunBeforeIs(text, end, |id|);
  }

  lemma TaskReads(id: string, optional: bool, space: string)
    requires AllSpace(space) && IsSlug(id) && id[0] != '-'
    ensures Classify(TaskText(id, optional) + space) == TaskHeading(id, optional)
  {
    hide SectionTitle, GroupId, TaskHead, FieldParts, IsContinuation, IsSpace, StripLeft, IsSlug;
    var text := TaskText(id, optional) + space;
    HashIsNoSpace();
    NoFence(text);
    OtherPrefix(text, SECTION, 2);
    OtherPrefix(text, GROUP, 3);
    NoSection(text);
    NoGroup(text);
    TaskHeadIs(id, optional, space);
  }

  lemma NoGroup(text: string)
    requires !StartsWith(text, GROUP)
    ensures GroupId(text).None?
  {
  }

  lemma TaskHeadIs(id: string, optional: bool, space: string)
    requires AllSpace(space) && IsSlug(id) && id[0] != '-'
    ensures TaskHead(TaskText(id, optional) + space) == Some((id, optional))
  {
    hide SlugRun, IsSpace, IsSlugChar, IsSlug, AllSpace, TaskHead, StartsWith, TaskText, OptionalText;
    var rest := OptionalText(optional) + space;
    var line := TaskText(id, optional) + space;
    TaskTextIs(id, optional, space);
    SlugHasStart(id);
    SpaceBehindId(optional, space);
    TaskRun(id, rest);
    OptionalReads(optional, space);
    StartsWithPrefix(TASK, id + rest);
    Cut(TASK, id, rest);
    TaskHeadOf(line, id, rest, optional);
  }

  lemma SlugHasStart(id: string)
    requires IsSlug(id)
    ensures id != ""
  {
  }

  lemma Cut(a: string, b: string, c: string)
    ensures var whole := a + (b + c); whole[|a|..|a| + |b|] == b && whole[|a| + |b|..] == c
  {
  }

  lemma TaskHeadOf(line: string, id: string, rest: string, optional: bool)
    requires StartsWith(line, TASK) && SlugRun(line, |TASK|) == |id| && id != "" && id[0] != '-'
    requires line[|TASK|..|TASK| + |id|] == id && line[|TASK| + |id|..] == rest
    requires !optional ==> AllSpace(rest)
    requires optional ==> !AllSpace(rest) && StartsWith(rest, OPTIONAL) && AllSpace(rest[|OPTIONAL|..])
    ensures TaskHead(line) == Some((id, optional))
  {
    hide SlugRun, AllSpace, StartsWith;
  }

  lemma TaskTextIs(id: string, optional: bool, space: string)
    ensures TaskText(id, optional) + space == TASK + (id + (OptionalText(optional) + space))
  {
  }

  lemma SpaceBehindId(optional: bool, space: string)
    requires AllSpace(space)
    ensures var rest := OptionalText(optional) + space; rest != "" ==> IsSpace(rest[0])
  {
  }

  lemma OptionalReads(optional: bool, space: string)
    requires AllSpace(space)
    ensures var rest := OptionalText(optional) + space;
      if optional then !AllSpace(rest) && StartsWith(rest, OPTIONAL) && rest[|OPTIONAL|..] == space else rest == space
  {
    if optional {
      StartsWithPrefix(OPTIONAL, space);
      NotAllSpace(OPTIONAL + space);
    }
  }

  lemma NotAllSpace(rest: string)
    requires |rest| >= 2 && rest[1] == '('
    ensures !AllSpace(rest)
  {
    assert !IsSpace(rest[1]);
  }

  lemma TaskRun(id: string, rest: string)
    requires IsSlug(id) && (rest != "" ==> IsSpace(rest[0]))
    ensures SlugRun(TASK + (id + rest), |TASK|) == |id|
  {
    hide SlugRun;
    HashIsNoSpace();
    var text := TASK + (id + rest);
    forall k | |TASK| <= k < |TASK| + |id| ensures IsSlugChar(text[k]) {
      assert text[k] == id[k - |TASK|];
    }
    if rest != "" {
      assert text[|TASK| + |id|] == rest[0];
    }
    SlugRunIs(text, |TASK|, |id|);
  }

  lemma {:induction false} KeyRunIs(text: string, i: nat, n: nat)
    requires i + n <= |text| && (forall k :: i <= k < i + n ==> PlanText.IsKeyChar(text[k]))
    requires i + n < |text| ==> !PlanText.IsKeyChar(text[i + n])
    ensures KeyRun(text, i) == n
    decreases n
  {
    if n > 0 {
      KeyRunIs(text, i + 1, n - 1);
    }
  }

  lemma FieldReads(key: string, space: string, value: string)
    requires AllSpace(space) && IsFieldKey(key) && (value != "" ==> !IsSpace(value[0]))
    ensures Classify(FIELD + (key + (":" + (space + value)))) == FieldLine(key, value)
  {
    hide SectionTitle, GroupId, TaskHead, FieldParts, IsContinuation, IsSpace, StripLeft, IsFieldKey;
    var text := FIELD + (key + (":" + (space + value)));
    HashIsNoSpace();
    NoFence(text);
    NoHeading(text);
    FieldPartsIs(key, space, value);
  }

  lemma FieldPartsIs(key: string, space: string, value: string)
    requires AllSpace(space) && IsFieldKey(key) && (value != "" ==> !IsSpace(value[0]))
    ensures FieldParts(FIELD + (key + (":" + (space + value)))) == Some((key, value))
  {
    hide KeyRun, IsSpace, StripLeft;
    var line := FIELD + (key + (":" + (space + value)));
    StartsWithPrefix(FIELD, key + (":" + (space + value)));
    KeyRunOf(key, space + value);
    var end := |FIELD| + |key|;
    assert line[|FIELD|..end] == key && line[end] == ':' && line[end + 1..] == space + value;
    assert line[|FIELD|] == key[0];
    StripLeftSpace(space, value);
  }

  lemma KeyRunOf(key: string, rest: string)
    requires IsFieldKey(key)
    ensures KeyRun(FIELD + (key + (":" + rest)), |FIELD|) == |key|
  {
    hide KeyRun;
    var text := FIELD + (key + (":" + rest));
    forall k | |FIELD| <= k < |FIELD| + |key| ensures PlanText.IsKeyChar(text[k]) {
      assert text[k] == key[k - |FIELD|];
    }
    assert text[|FIELD| + |key|] == ':';
    KeyRunIs(text, |FIELD|, |key|);
  }

  lemma {:induction false} LeadingSpacesIs(n: nat, rest: string)
    requires rest != "" && rest[0] != ' '
    ensures LeadingSpaces(Indent(n) + rest) == n
  {
    if n == 0 {
      assert Indent(0) + rest == rest;
    } else {
      assert (Indent(n) + rest)[1..] == Indent(n - 1) + rest;
      LeadingSpacesIs(n - 1, rest);
    }
  }

  lemma ContinuationReads(n: nat, words: string, space: string)
    requires n >= 2 && AllSpace(space) && words != "" && Stripped(words) && !StartsWith(words, FENCE)
    ensures Classify(Indent(n) + (words + space)) == Continuation(words)
  {
    hide SectionTitle, GroupId, TaskHead, FieldParts, IsContinuation, IsSpace, StripLeft, Strip, LeadingSpaces;
    var text := Indent(n) + (words + space);
    HashIsNoSpace();
    ContinuationStrips(n, words, space);
    NoFenceWithin(words, space);
    NoHeading(text);
    NoPrefix(text, FIELD);
    NoField(text);
    ContinuationIs(n, words, space);
  }

  lemma NoField(text: string)
    requires !StartsWith(text, FIELD)
    ensures FieldParts(text).None?
  {
  }

  lemma ContinuationIs(n: nat, words: string, space: string)
    requires n >= 2 && words != "" && !IsSpace(words[0])
    ensures IsContinuation(Indent(n) + (words + space))
  {
    hide LeadingSpaces;
    HashIsNoSpace();
    LeadingSpacesIs(n, words + space);
    assert (Indent(n) + (words + space))[n] == words[0];
  }

  lemma ContinuationStrips(n: nat, words: string, space: string)
    requires AllSpace(space) && words != "" && Stripped(words)
    ensures StripLeft(Indent(n) + (words + space)) == words + space
    ensures Strip(Indent(n) + (words + space)) == words
  {
    hide StripLeft, StripRight;
    assert AllSpace(Indent(n));
    assert (words + space)[0] == words[0];
    StripLeftSpace(Indent(n), words + space);
    StripRightSpace(words, space);
  }

  lemma NoFenceWithin(words: string, space: string)
    requires AllSpace(space) && !StartsWith(words, FENCE)
    ensures !StartsWith(words + space, FENCE)
  {
    var text := words + space;
    if |words| >= 3 {
      assert text[..3] == words[..3];
    } else if |text| >= 3 {
      assert text[|words|] == space[0] && IsSpace(space[0]);
      assert !IsSpace('`');
      OtherPrefix(text, FENCE, |words|);
    }
  }

  lemma ProseReads(text: string)
    requires text == "" || (text[0] !in {'#', '-', '`', ' '} && !IsSpace(text[0]))
    ensures Classify(text) == Other
  {
    hide SectionTitle, GroupId, TaskHead, FieldParts, IsSpace, StripLeft;
    if text == "" {
      EmptyStripsLeft();
    } else {
      NoFence(text);
    }
    NoHeading(text);
    NoPrefix(text, FIELD);
    NoField(text);
  }

  lemma EmptyStripsLeft()
    ensures StripLeft("") == ""
  {
  }

  /** A line written in any of its forms is read as that line. */
  lemma WrittenReads(text: string, line: Line)
    requires PlanText.Written(text, line)
    ensures Classify(text) == line
  {
    hide Classify, IsSpace, Stripped, StartsWith, IsSlug, IsFieldKey, TaskText, Indent, AllSpace;
    match line
    case Fence =>
      var space, rest :| AllSpace(space) && text == space + (FENCE + rest);
      FenceReads(space, rest);
    case Section(title) =>
      var space :| AllSpace(space) && text == SECTION + (title + space);
      SectionReads(title, space);
    case Group(id) =>
      var title, space :| AllSpace(space) && title != "" && text == (GROUP + (title + DASHES)) + (id + ("`" + space));
      GroupReads(title, id, space);
    case TaskHeading(id, optional) =>
      var space :| AllSpace(space) && text == TaskText(id, optional) + space;
      TaskReads(id, optional, space);
    case FieldLine(key, value) =>
      var space :| AllSpace(space) && text == FIELD + (key + (":" + (space + value)));
      FieldReads(key, space, value);
    case Continuation(words) =>
      var n: nat, space :| n >= 2 && AllSpace(space) && text == Indent(n) + (words + space);
      ContinuationReads(n, words, space);
    case Other =>
      ProseReads(text);
  }
}

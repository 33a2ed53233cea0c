/** What each pattern of the plan documents matches, exactly: nothing is read but what was written. */
module PlanPatterns {
  import opened Wrappers
  import opened Strings
  import opened PlanReader
  import opened References
  import opened PlanText
  import opened PlanWriting
  import opened Registry
  import opened PlanIntegrity
  import opened PlanGate

  // ---------------------------------------------------------------- what stripping takes away

  lemma {:induction false} LeftOf(text: string) returns (space: string)
    ensures AllSpace(space) && text == space + StripLeft(text)
    ensures StripLeft(text) == "" || !IsSpace(StripLeft(text)[0])
  {
    hide IsSpace;
    if text != "" && IsSpace(text[0]) {
      var rest := LeftOf(text[1..]);
      space := [text[0]] + rest;
      assert text == [text[0]] + text[1..];
    } else {
      space := "";
    }
  }

  lemma {:induction false} RightOf(text: string) returns (space: string)
    ensures AllSpace(space) && text == StripRight(text) + space
    ensures StripRight(text) == "" || !IsSpace(StripRight(text)[|StripRight(text)| - 1])
  {
    hide IsSpace;
    if text != "" && IsSpace(text[|text| - 1]) {
      var front := RightOf(text[..|text| - 1]);
      space := front + [text[|text| - 1]];
      assert text == text[..|text| - 1] + [text[|text| - 1]];
    } else {
      space := "";
    }
  }

  lemma PrefixAndRest(text: string, prefix: string)
    requires StartsWith(text, prefix)
    ensures text == prefix + text[|prefix|..]
  {
  }

  // ---------------------------------------------------------------- what was read was written

  lemma FenceWritten(text: string)
    requires StartsWith(StripLeft(text), FENCE)
    ensures PlanText.Written(text, Fence)
  {
    hide AllSpace, StripLeft;
    var space := LeftOf(text);
    PrefixAndRest(StripLeft(text), FENCE);
    var rest := StripLeft(text)[|FENCE|..];
    assert text == space + (FENCE + rest);
  }

  lemma SectionWritten(text: string)
    requires SectionTitle(text).Some?
    ensures PlanText.Written(text, Section(SectionTitle(text).value))
  {
    hide IsSpace, StripRight;
    var rest := text[|SECTION|..];
    PrefixAndRest(text, SECTION);
    var space := RightOf(rest);
    if StripRight(rest) == "" {
      assert rest == rest[..1] + rest[1..];
      assert AllSpace(rest[1..]);
    }
  }

  lemma GroupWritten(text: string)
    requires GroupId(text).Some?
    ensures PlanText.Written(text, Group(GroupId(text).value))
  {
    hide IsSpace, StripRight, SlugRunBefore, AllSpace, IsSlugChar, IsSlug, StartsWith, PlanText.Written;
    var line := StripRight(text);
    var end := |line| - 1;
    var n := SlugRunBefore(line, end);
    var space := RightOf(text);
    SlugOf(line, end - n, n);
    SamePrefix(text, line, space, end - n);
    GroupFrom(text, line, line[..end - n], line[end - n..end], space);
  }

  lemma GroupFrom(text: string, line: string, front: string, id: string, space: string)
    requires StartsWith(front, GROUP) && |front| > |GROUP| + |DASHES| && front[|front| - |DASHES|..] == DASHES
    requires line != "" && text == line + space && line == front + id + [line[|line| - 1]] && line[|line| - 1] == '`'
    requires IsSlug(id) && AllSpace(space)
    ensures PlanText.Written(text, Group(id))
  {
    hide IsSlug, AllSpace, StartsWith;
    FrontSpelled(front);
    IdAndSpace(text, line, front, id, space);
    var title := front[|GROUP|..|front| - |DASHES|];
    assert text == (GROUP + (title + DASHES)) + (id + ("`" + space));
  }

  lemma SamePrefix(text: string, line: string, space: string, n: nat)
    requires text == line + space && |GROUP| <= n <= |line| && StartsWith(text, GROUP)
    ensures StartsWith(line[..n], GROUP)
  {
    assert line[..n][..|GROUP|] == text[..|GROUP|];
  }

  lemma FrontSpelled(front: string)
    requires StartsWith(front, GROUP) && |front| > |GROUP| + |DASHES| && front[|front| - |DASHES|..] == DASHES
    ensures front[|GROUP|..|front| - |DASHES|] != "" && front == GROUP + (front[|GROUP|..|front| - |DASHES|] + DASHES)
    ensures front == (GROUP + front[|GROUP|..|front| - |DASHES|]) + DASHES
  {
    assert front == front[..|GROUP|] + (front[|GROUP|..|front| - |DASHES|] + front[|front| - |DASHES|..]);
  }

  lemma IdAndSpace(text: string, line: string, front: string, id: string, space: string)
    requires line != "" && text == line + space && line == front + id + [line[|line| - 1]] && line[|line| - 1] == '`'
    ensures text == front + (id + ("`" + space))
  {
    assert line == front + (id + "`");
  }

  lemma SlugOf(text: string, i: nat, n: nat)
    requires n > 0 && i + n <= |text| && forall k :: i <= k < i + n ==> IsSlugChar(text[k])
    ensures IsSlug(text[i..i + n])
  {
  }

  lemma TaskWritten(text: string)
    requires TaskHead(text).Some?
    ensures PlanText.Written(text, TaskHeading(TaskHead(text).value.0, TaskHead(text).value.1))
  {
    hide IsSpace, SlugRun, AllSpace, IsSlugChar, IsSlug, TaskText, StartsWith, PlanText.Written;
    var n := SlugRun(text, |TASK|);
    SlugOf(text, |TASK|, n);
    HeadPieces(text, n);
    TaskFrom(text, text[|TASK|..|TASK| + n], text[|TASK| + n..]);
  }

  lemma TaskFrom(text: string, id: string, rest: string)
    requires text == TASK + (id + rest) && IsSlug(id) && id[0] != '-'
    requires AllSpace(rest) || (StartsWith(rest, OPTIONAL) && AllSpace(rest[|OPTIONAL|..]))
    ensures PlanText.Written(text, TaskHeading(id, !AllSpace(rest)))
  {
    hide IsSlug, AllSpace, TaskText, StartsWith;
    if AllSpace(rest) {
      HeadingIs(text, id, false, rest, rest);
    } else {
      PrefixAndRest(rest, OPTIONAL);
      HeadingIs(text, id, true, rest, rest[|OPTIONAL|..]);
    }
  }

  lemma HeadPieces(text: string, n: nat)
    requires StartsWith(text, TASK) && |TASK| + n <= |text|
    ensures text == TASK + (text[|TASK|..|TASK| + n] + text[|TASK| + n..])
  {
    hide StartsWith;
    PrefixAndRest(text, TASK);
    CutAt(text, |TASK|, |TASK| + n);
  }

  lemma HeadingIs(text: string, id: string, optional: bool, rest: string, space: string)
    requires text == TASK + (id + rest) && rest == OptionalText(optional) + space
    ensures text == TaskText(id, optional) + space
  {
    assert id + rest == (id + OptionalText(optional)) + space;
  }

  lemma FieldWritten(text: string)
    requires FieldParts(text).Some?
    ensures PlanText.Written(text, FieldLine(FieldParts(text).value.0, FieldParts(text).value.1))
  {
    hide IsSpace, KeyRun, AllSpace, PlanText.IsKeyChar, IsLetter, StripLeft, IsFieldKey, StartsWith, PlanText.Written;
    var n := KeyRun(text, |FIELD|);
    var end := |FIELD| + n;
    PrefixAndRest(text, FIELD);
    CutAt(text, |FIELD|, end);
    OneChar(text, end, ':');
    KeyOf(text, |FIELD|, n);
    FieldFrom(text, text[|FIELD|..end], text[end..], text[end + 1..]);
  }

  lemma FieldFrom(text: string, key: string, colon: string, rest: string)
    requires text == FIELD + (key + colon) && colon == [':'] + rest && IsFieldKey(key)
    ensures PlanText.Written(text, FieldLine(key, StripLeft(rest)))
  {
    hide IsSpace, AllSpace, StripLeft, IsFieldKey;
    var space := LeftOf(rest);
    assert colon == ":" + (space + StripLeft(rest));
  }

  lemma KeyOf(text: string, i: nat, n: nat)
    requires n >= 2 && i + n <= |text| && IsLetter(text[i]) && forall k :: i <= k < i + n ==> PlanText.IsKeyChar(text[k])
    ensures IsFieldKey(text[i..i + n])
  {
  }

  lemma ContinuationWritten(text: string)
    requires IsContinuation(text) && !StartsWith(StripLeft(text), FENCE)
    ensures PlanText.Written(text, Continuation(Strip(text)))
  {
    hide IsSpace, StripLeft, StripRight, LeadingSpaces, AllSpace, StartsWith;
    var n := LeadingSpaces(text);
    var rest := text[n..];
    IndentOf(text, n);
    HashIsNoSpace();
    IndentStrips(n, rest);
    var space := RightOf(rest);
    NotBlank(rest);
    var words := StripRight(rest);
    assert words[0] == rest[0];
    NoFenceWithinFront(words, space);
    assert text == Indent(n) + (words + space);
  }

  lemma IndentOf(text: string, n: nat)
    requires n <= |text| && forall k :: 0 <= k < n ==> text[k] == ' '
    ensures text == Indent(n) + text[n..]
  {
    assert text[..n] == Indent(n);
  }

  lemma IndentStrips(n: nat, rest: string)
    requires rest != "" && !IsSpace(rest[0]) && IsSpace(' ')
    ensures StripLeft(Indent(n) + rest) == rest
  {
    StripLeftSpace(Indent(n), rest);
  }

  lemma NotBlank(rest: string)
    requires rest != "" && !IsSpace(rest[0])
    ensures StripRight(rest) != ""
  {
    var space := RightOf(rest);
    assert "" + space == space;
  }

  lemma NoFenceWithinFront(words: string, space: string)
    requires !StartsWith(words + space, FENCE)
    ensures !StartsWith(words, FENCE)
  {
    assert |FENCE| <= |words| ==> (words + space)[..|FENCE|] == words[..|FENCE|];
  }

  /** A line is read as a fence, heading, field or continuation exactly when it is written as that. */
  lemma ReadsExactly(text: string, line: Line)
    requires !line.Other?
    ensures Classify(text) == line <==> PlanText.Written(text, line)
  {
    hide SectionTitle, GroupId, TaskHead, FieldParts, IsContinuation, StripLeft, Strip, StartsWith, PlanText.Written;
    if Classify(text) == line {
      match line
      case Fence => FenceWritten(text);
      case Section(_) => SectionWritten(text);
      case Group(_) => GroupWritten(text);
      case TaskHeading(_, _) => TaskWritten(text);
      case FieldLine(_, _) => FieldWritten(text);
      case Continuation(_) => ContinuationWritten(text);
    }
    if PlanText.Written(text, line) {
      WrittenReads(text, line);
    }
  }

  /** Any other line is prose. */
  lemma ProseExactly(text: string)
    ensures Classify(text).Other? <==> forall line :: PlanText.Written(text, line) ==> line.Other?
  {
    hide Classify, PlanText.Written;
    var line := Classify(text);
    if !line.Other? {
      ReadsExactly(text, line);
    }
    if other :| PlanText.Written(text, other) && !other.Other? {
      ReadsExactly(text, other);
    }
  }

  // ---------------------------------------------------------------- other patterns

  /** A task serves a capability exactly when its field starts with the id in backticks, and a space or nothing follows. */
  lemma ServesExact(task: Task, id: string)
    ensures Serves(task) == Some(id) <==>
      && "serves" in task.fields && IsSlug(id)
      && exists rest :: task.fields["serves"] == "`" + (id + ("`" + rest)) && (rest == "" || IsSpace(rest[0]))
  {
    hide IsSpace, SlugRun, IsSlugChar;
    if "serves" in task.fields {
      var value := task.fields["serves"];
      if Serves(task) == Some(id) {
        var end := 1 + SlugRun(value, 1);
        SlugOf(value, 1, end - 1);
        var rest := value[end + 1..];
        assert value == "`" + (id + ("`" + rest));
      }
      if rest :| IsSlug(id) && value == "`" + (id + ("`" + rest)) && (rest == "" || IsSpace(rest[0])) {
        BackticksClose(value, id, rest);
      }
    }
  }

  lemma BackticksClose(value: string, id: string, rest: string)
    requires IsSlug(id) && value == "`" + (id + ("`" + rest))
    ensures value[0] == '`' && SlugRun(value, 1) == |id| && value[1..1 + |id|] == id && value[1 + |id|] == '`'
    ensures value[2 + |id|..] == rest
  {
    hide SlugRun;
    forall k | 1 <= k < 1 + |id| ensures IsSlugChar(value[k]) {
      assert value[k] == id[k - 1];
    }
    SlugRunIs(value, 1, |id|);
  }

  /** A record counts for a task exactly when its name is four digits, the group, the task's id and the suffix. */
  lemma RecordExact(name: string, group: string, id: string)
    ensures RecordedTask(name, group) == Some(id) <==>
      && id != "" && (forall k :: 0 <= k < |id| ==> IsSlugChar(id[k])) && (forall k :: 0 <= k < |group| ==> IsSlugChar(group[k]))
      && exists number :: |number| == 4 && IsDigits(number) && name == (number + "-") + (group + ("-" + (id + ".md")))
  {
    hide RecordRest, IsDigits, IsSlugChar;
    if RecordedTask(name, group) == Some(id) {
      var rest := RecordRest(name).value;
      assert rest == group + ("-" + id);
      var number := RecordSpelled(name, rest);
      SlugParts(group, id);
      Regrouped(number + "-", group, id);
    }
    if number :| |number| == 4 && IsDigits(number) && name == (number + "-") + (group + ("-" + (id + ".md"))) {
      if id != "" && (forall k :: 0 <= k < |id| ==> IsSlugChar(id[k])) && (forall k :: 0 <= k < |group| ==> IsSlugChar(group[k])) {
        RecordOf(number, group, id);
      }
    }
  }

  lemma RecordSpelled(name: string, rest: string) returns (number: string)
    requires RecordRest(name) == Some(rest)
    ensures |number| == 4 && IsDigits(number) && name == (number + "-") + (rest + RECORD_SUFFIX)
    ensures forall k :: 0 <= k < |rest| ==> IsSlugChar(rest[k])
  {
    hide SlugRun, IsDigits, IsSlugChar;
    number := name[..4];
    var end := |name| - |RECORD_SUFFIX|;
    assert name == (name[..4] + [name[4]]) + (name[5..end] + name[end..]);
  }

  lemma SlugParts(group: string, id: string)
    requires var rest := group + ("-" + id); forall k :: 0 <= k < |rest| ==> IsSlugChar(rest[k])
    ensures forall k :: 0 <= k < |id| ==> IsSlugChar(id[k])
    ensures forall k :: 0 <= k < |group| ==> IsSlugChar(group[k])
  {
    hide IsSlugChar;
    var rest := group + ("-" + id);
    forall k | 0 <= k < |id| ensures IsSlugChar(id[k]) {
      assert id[k] == rest[|group| + 1 + k];
    }
    forall k | 0 <= k < |group| ensures IsSlugChar(group[k]) {
      assert group[k] == rest[k];
    }
  }

  lemma RecordOf(number: string, group: string, id: string)
    requires |number| == 4 && IsDigits(number) && id != ""
    requires (forall k :: 0 <= k < |id| ==> IsSlugChar(id[k])) && (forall k :: 0 <= k < |group| ==> IsSlugChar(group[k]))
    ensures RecordedTask((number + "-") + (group + ("-" + (id + RECORD_SUFFIX))), group) == Some(id)
  {
    hide RecordRest, IsDigits, SlugRun;
    var rest := group + ("-" + id);
    var name := (number + "-") + (rest + RECORD_SUFFIX);
    Regrouped(number + "-", group, id);
    NameParts(number, rest, name);
    RecordRun(name, rest);
    RestOf(name, number, rest);
    assert rest[..|group| + 1] == group + "-" && rest[|group| + 1..] == id;
  }

  lemma RestOf(name: string, number: string, rest: string)
    requires |name| == 8 + |rest| && rest != "" && name[..4] == number && IsDigits(number) && name[4] == '-'
    requires name[5..|name| - 3] == rest && name[|name| - 3..] == RECORD_SUFFIX && SlugRun(name, 5) == |rest|
    ensures RecordRest(name) == Some(rest)
  {
    hide SlugRun, IsDigits;
  }

  lemma UpperIs(c: char, lower: char)
    requires 'a' <= lower <= 'z' || lower == ' ' || lower == '-'
    ensures UpperChar(c) == UpperChar(lower) <==> LowerChar(c) == lower
  {
  }

  lemma UpperExact(text: string, word: string)
    requires forall k :: 0 <= k < |word| ==> 'a' <= word[k] <= 'z' || word[k] == ' ' || word[k] == '-'
    ensures Upper(text) == Upper(word) <==> Lower(text) == word
  {
    hide UpperChar, LowerChar;
    if |text| == |word| {
      forall k | 0 <= k < |text| ensures Upper(text)[k] == Upper(word)[k] <==> Lower(text)[k] == word[k] {
        UpperIs(text[k], word[k]);
      }
      if Upper(text) == Upper(word) {
        forall k | 0 <= k < |text| ensures Lower(text)[k] == word[k] {
          assert Upper(text)[k] == Upper(word)[k];
        }
      }
    } else {
      assert |Upper(text)| == |text| && |Upper(word)| == |word| && |Lower(text)| == |text|;
    }
  }

  lemma StatusNames()
    ensures Upper("clear") == "CLEAR" && Upper("run needed") == "RUN NEEDED"
    ensures Upper("blocked by human") == "BLOCKED BY HUMAN" && Upper("human-gated") == "HUMAN-GATED"
  {
  }

  /** Each lane has its own two statuses, in any case and with space around them; no status is allowed as well. */
  lemma StatusExact(task: Task)
    ensures StatusAllowed(task) <==>
      || "agent status" !in task.fields || task.fields["agent status"] == ""
      || (task.section == "Agent Implementation Tasks" &&
            Lower(Strip(task.fields["agent status"])) in ["clear", "run needed"])
      || (task.section == "Human-Assisted Tasks" &&
            Lower(Strip(task.fields["agent status"])) in ["blocked by human", "human-gated"])
  {
    hide Upper, Lower, Strip;
    if "agent status" in task.fields {
      var text := Strip(task.fields["agent status"]);
      StatusNames();
      UpperExact(text, "clear");
      UpperExact(text, "run needed");
      UpperExact(text, "blocked by human");
      UpperExact(text, "human-gated");
    }
  }

  // ---------------------------------------------------------------- the text of the plan

  ghost predicate IsLink(text: string, front: string, caption: string, target: string, back: string) {
    && caption != "" && ']' !in caption && target != "" && ')' !in target
    && text == front + ("[" + (caption + ("](" + (target + (")" + back)))))
  }

  /** A text holds a link exactly when a non-empty caption in brackets stands directly before a non-empty target in parentheses. */
  lemma LinkExact(text: string)
    ensures HasLink(text) <==>
            exists front, caption, target, back :: IsLink(text, front, caption, target, back)
  {
    hide FirstOf;
    if i :| 0 <= i < |text| && LinkAt(text, i) {
      LinkSpelled(text, i);
    }
    if front, caption, target, back :| IsLink(text, front, caption, target, back) {
      LinkReads(text, front, caption, target, back);
    }
  }

  lemma LinkSpelled(text: string, i: nat)
    requires LinkAt(text, i)
    ensures exists front, caption, target, back :: IsLink(text, front, caption, target, back)
  {
    hide FirstOf, IsLink;
    var close := FirstOf(text, ']', i + 1);
    var end := FirstOf(text, ')', close + 2);
    LinkPieces(text, i, close, end);
  }

  lemma CutAt(text: string, a: nat, b: nat)
    requires a <= b <= |text|
    ensures text[a..] == text[a..b] + text[b..]
  {
  }

  lemma OneChar(text: string, i: nat, c: char)
    requires i < |text| && text[i] == c
    ensures text[i..] == [c] + text[i + 1..]
  {
  }

  /** What stands between an opening character and the first closing one. */
  lemma Enclosed(text: string, i: nat, open: char, end: nat, close: char)
    requires i + 1 < end < |text| && text[i] == open && forall k :: i + 1 <= k < end ==> text[k] != close
    ensures text[i..] == [open] + (text[i + 1..end] + text[end..])
    ensures text[i + 1..end] != "" && close !in text[i + 1..end]
  {
    OneChar(text, i, open);
    CutAt(text, i + 1, end);
  }

  lemma Whole(text: string, i: nat)
    requires i <= |text|
    ensures text == text[..i] + text[i..]
  {
  }

  lemma LinkPieces(text: string, i: nat, close: nat, end: nat)
    requires i + 1 < close && close + 2 < end < |text|
    requires text[i] == '[' && text[close] == ']' && text[close + 1] == '(' && text[end] == ')'
    requires (forall k :: i + 1 <= k < close ==> text[k] != ']') && forall k :: close + 2 <= k < end ==> text[k] != ')'
    ensures IsLink(text, text[..i], text[i + 1..close], text[close + 2..end], text[end + 1..])
  {
    hide *;
    Whole(text, i);
    Enclosed(text, i, '[', close, ']');
    TargetPieces(text, close, end);
    LinkFrom(text, text[..i], text[i..], text[i + 1..close], text[close..], text[close + 2..end], text[end + 1..]);
  }

  lemma TargetPieces(text: string, close: nat, end: nat)
    requires close + 2 < end < |text| && text[close] == ']' && text[close + 1] == '(' && text[end] == ')'
    requires forall k :: close + 2 <= k < end ==> text[k] != ')'
    ensures text[close..] == "](" + (text[close + 2..end] + (")" + text[end + 1..]))
    ensures text[close + 2..end] != "" && ')' !in text[close + 2..end]
  {
    hide *;
    var second := close + 1;
    OneChar(text, close, ']');
    Enclosed(text, second, '(', end, ')');
    OneChar(text, end, ')');
    TargetFrom(text[close..], text[second..], text[second + 1..end], text[end..], text[end + 1..]);
  }

  lemma TargetFrom(b: string, c: string, target: string, d: string, back: string)
    requires b == [']'] + c && c == ['('] + (target + d) && d == [')'] + back
    ensures b == "](" + (target + (")" + back))
  {
  }

  lemma LinkFrom(text: string, front: string, a: string, caption: string, b: string, target: string, back: string)
    requires text == front + a && a == ['['] + (caption + b) && b == "](" + (target + (")" + back))
    requires caption != "" && ']' !in caption && target != "" && ')' !in target
    ensures IsLink(text, front, caption, target, back)
  {
  }

  lemma FirstOfIs(text: string, c: char, i: nat, at: nat)
    requires i <= at < |text| && text[at] == c && forall k :: i <= k < at ==> text[k] != c
    ensures FirstOf(text, c, i) == at
  {
  }

  lemma LinkReads(text: string, front: string, caption: string, target: string, back: string)
    requires IsLink(text, front, caption, target, back)
    ensures LinkAt(text, |front|)
  {
    hide FirstOf;
    var i := |front|;
    var close := i + 1 + |caption|;
    var end := close + 2 + |target|;
    forall k | i + 1 <= k < close ensures text[k] != ']' {
      assert text[k] == caption[k - (i + 1)];
    }
    forall k | close + 2 <= k < end ensures text[k] != ')' {
      assert text[k] == target[k - (close + 2)];
    }
    assert text[close] == ']' && text[end] == ')';
    FirstOfIs(text, ']', i + 1, close);
    FirstOfIs(text, ')', close + 2, end);
  }

  /** `done`, `delivered` or `implemented` in any case, or a date. */
  ghost predicate IsHistory(word: string) {
    Lower(word) == "done" || Lower(word) == "delivered" || Lower(word) == "implemented" || IsDate(word)
  }

  predicate IsDate(word: string) {
    && |word| == 10 && word[4] == '-' == word[7]
    && IsDigits(word[..4]) && IsDigits(word[5..7]) && IsDigits(word[8..])
  }

  /** The word stands between two characters of no word, or the ends of the line. */
  ghost predicate IsWhole(line: string, front: string, word: string, back: string) {
    && line == front + (word + back)
    && (front == "" || !IsWordChar(front[|front| - 1]))
    && (back == "" || !IsWordChar(back[0]))
  }

  lemma WholeAt(line: string, i: nat, n: nat)
    requires 0 < n && i + n <= |line| && IsWordChar(line[i]) && IsWordChar(line[i + n - 1])
    ensures BoundaryAt(line, i) && BoundaryAt(line, i + n) <==> IsWhole(line, line[..i], line[i..i + n], line[i + n..])
  {
    hide IsWordChar;
    assert line == line[..i] + (line[i..i + n] + line[i + n..]);
  }

  lemma SpelledLower(line: string, i: nat, word: string)
    requires i + |word| <= |line|
    ensures SpellsAt(line, i, word) <==> Lower(line[i..i + |word|]) == word
  {
    hide LowerChar;
    var part := line[i..i + |word|];
    assert forall k :: 0 <= k < |word| ==> Lower(part)[k] == LowerChar(line[i + k]);
    if Lower(part) == word {
      forall k | 0 <= k < |word| ensures LowerChar(line[i + k]) == word[k] {
        assert Lower(part)[k] == word[k];
      }
    }
  }

  lemma HistoryWord(w: nat)
    requires w < |HISTORY_WORDS|
    ensures |HISTORY_WORDS[w]| > 0 && HISTORY_WORDS[w] in {"done", "delivered", "implemented"}
    ensures forall k :: 0 <= k < |HISTORY_WORDS[w]| ==> 'a' <= HISTORY_WORDS[w][k] <= 'z'
  {
    assert w == 0 || w == 1 || w == 2;
  }

  lemma LetterIsWordChar(c: char)
    requires 'a' <= LowerChar(c) <= 'z'
    ensures IsWordChar(c)
  {
  }

  lemma HistorySpelled(line: string, i: nat) returns (n: nat)
    requires i < |line| && HistoryAt(line, i)
    ensures i + n <= |line| && IsHistory(line[i..i + n]) && IsWhole(line, line[..i], line[i..i + n], line[i + n..])
  {
    hide IsWhole, IsDate, BoundaryAt, Lower, LowerChar, IsWordChar;
    var w :| 0 <= w < |HISTORY_WORDS| && SpellsAt(line, i, HISTORY_WORDS[w]) && BoundaryAt(line, i + |HISTORY_WORDS[w]|);
    n := |HISTORY_WORDS[w]|;
    HistoryWord(w);
    SpelledLower(line, i, HISTORY_WORDS[w]);
    assert LowerChar(line[i + 0]) == HISTORY_WORDS[w][0] && LowerChar(line[i + (n - 1)]) == HISTORY_WORDS[w][n - 1];
    LetterIsWordChar(line[i]);
    LetterIsWordChar(line[i + n - 1]);
    WholeAt(line, i, n);
  }

  lemma DateExact(line: string, i: nat)
    requires i + 10 <= |line|
    ensures DateAt(line, i) <==> IsDate(line[i..i + 10]) && BoundaryAt(line, i) && BoundaryAt(line, i + 10)
  {
    hide BoundaryAt, IsDigit;
    var date := line[i..i + 10];
    if IsDate(date) {
      assert forall k :: 0 <= k < 4 ==> date[..4][k] == date[k];
      assert forall k :: 5 <= k < 7 ==> date[5..7][k - 5] == date[k];
      assert forall k :: 8 <= k < 10 ==> date[8..][k - 8] == date[k];
    }
    if forall k :: 0 <= k < 10 ==> DateChar(date[k], k) {
      assert DateChar(date[4], 4) && DateChar(date[7], 7);
      assert forall k :: 0 <= k < 4 ==> DateChar(date[k], k);
      assert forall k :: 0 <= k < 2 ==> date[5..7][k] == date[5 + k] && DateChar(date[5 + k], 5 + k);
      assert forall k :: 0 <= k < 2 ==> date[8..][k] == date[8 + k] && DateChar(date[8 + k], 8 + k);
    }
  }

  lemma DateSpelled(line: string, i: nat) returns (n: nat)
    requires i < |line| && DateAt(line, i)
    ensures i + n <= |line| && IsHistory(line[i..i + n]) && IsWhole(line, line[..i], line[i..i + n], line[i + n..])
  {
    hide IsWhole, DateAt, BoundaryAt, Lower;
    n := 10;
    DateBounds(line, i);
    DateExact(line, i);
    DateIsWord(line, i);
    WholeAt(line, i, n);
  }

  lemma DateBounds(line: string, i: nat)
    requires DateAt(line, i)
    ensures i + 10 <= |line|
  {
  }

  lemma DateIsWord(line: string, i: nat)
    requires i + 10 <= |line| && IsDate(line[i..i + 10])
    ensures IsWordChar(line[i]) && IsWordChar(line[i + 9])
  {
    var date := line[i..i + 10];
    assert IsDigit(date[..4][0]) && IsDigit(date[8..][1]);
  }

  lemma HistoryReads(line: string, front: string, word: string, back: string)
    requires IsHistory(word) && IsWhole(line, front, word, back)
    ensures |front| < |line| && (HistoryAt(line, |front|) || DateAt(line, |front|))
  {
    hide HistoryAt, DateAt, IsDate, BoundaryAt, Lower, IsWordChar;
    var i, n := |front|, |word|;
    assert line[..i] == front && line[i..i + n] == word && line[i + n..] == back;
    if IsDate(word) {
      DateLength(word);
      DateIsWord(line, i);
      WholeAt(line, i, n);
      DateExact(line, i);
    } else {
      var w := if Lower(word) == "done" then 0 else if Lower(word) == "delivered" then 1 else 2;
      assert Lower(word) == HISTORY_WORDS[w];
      HistoryIsThere(line, i, w, n);
    }
  }

  lemma DateLength(word: string)
    requires IsDate(word)
    ensures |word| == 10
  {
  }

  lemma HistoryIsThere(line: string, i: nat, w: nat, n: nat)
    requires w < |HISTORY_WORDS| && i + n <= |line| && Lower(line[i..i + n]) == HISTORY_WORDS[w]
    requires IsWhole(line, line[..i], line[i..i + n], line[i + n..])
    ensures i < |line| && HistoryAt(line, i)
  {
    hide IsWhole, BoundaryAt, LowerChar, IsWordChar;
    HistoryWord(w);
    assert |Lower(line[i..i + n])| == n;
    SpelledLower(line, i, HISTORY_WORDS[w]);
    assert LowerChar(line[i + 0]) == HISTORY_WORDS[w][0] && LowerChar(line[i + (n - 1)]) == HISTORY_WORDS[w][n - 1];
    LetterIsWordChar(line[i]);
    LetterIsWordChar(line[i + n - 1]);
    WholeAt(line, i, n);
  }

  /** A line counts as history exactly when a history word or a date stands in it as a whole word. */
  lemma HistoryExact(line: string)
    ensures HoldsHistory(line) <==> exists front, word, back :: IsHistory(word) && IsWhole(line, front, word, back)
  {
    hide HistoryAt, DateAt, IsHistory, IsWhole;
    if i :| 0 <= i < |line| && (HistoryAt(line, i) || DateAt(line, i)) {
      if HistoryAt(line, i) {
        var n := HistorySpelled(line, i);
      } else {
        var n := DateSpelled(line, i);
      }
    }
    if front, word, back :| IsHistory(word) && IsWhole(line, front, word, back) {
      HistoryReads(line, front, word, back);
    }
  }
}

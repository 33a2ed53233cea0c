/** Corners of the dialect: what an empty value before a comment reads as, and what a bare key hides. */
module EnvDialect {
  import opened Wrappers
  import opened Strings
  import opened EnvParser
  import opened EnvTemplates
  import opened EnvLines
  import opened EnvReading
  import opened EnvRoundTrip

  // ---------------------------------------------------------------- an empty value before a comment

  /** The spaces in front of the comment, with or without a space that is no blank behind the blanks. */
  lemma {:induction false} LeadingBlanks(spaces: string) returns (n: nat)
    ensures n <= |spaces| && Blanks(spaces[..n]) && (n < |spaces| ==> !IsBlank(spaces[n]))
    ensures n == |spaces| <==> Blanks(spaces)
  {
    if spaces == "" || !IsBlank(spaces[0]) {
      n := 0;
    } else {
      n := LeadingBlanks(spaces[1..]);
      assert spaces == [spaces[0]] + spaces[1..];
      n := n + 1;
      assert spaces[..n] == [spaces[0]] + spaces[1..][..n - 1];
      assert n < |spaces| ==> spaces[n] == spaces[1..][n - 1];
    }
  }

  /** A comment behind spaces is cut off; one that nothing separates from the start of the value is the value. */
  lemma CommentBehind(left: string, comment: string)
    requires Spaces(left) && '\n' !in comment
    ensures var raw := StripLineEnd((left + ("#" + comment)) + "\n");
      var value := Strip(raw[..CommentStart(raw, 0)]);
      (value == "" <==> left != "") && (value != "" ==> value[0] == '#')
  {
    hide Strip, CommentStart, StripLineEnd, IsSpace;
    if left == "" {
      HashStaysFirst(comment);
      assert "" + ("#" + comment) == "#" + comment;
    } else {
      var tail := left + ("#" + comment);
      assert tail[..|left|] == left && tail[|left|] == '#';
      assert "" + tail == tail;
      TailLine("", tail, |left|);
    }
  }

  lemma HashStaysFirst(comment: string)
    requires '\n' !in comment
    ensures var raw := StripLineEnd(("#" + comment) + "\n");
      var value := Strip(raw[..CommentStart(raw, 0)]);
      value != "" && value[0] == '#'
  {
    var line := ("#" + comment) + "\n";
    StripLineEndKeeps(line, 1);
    var raw := StripLineEnd(line);
    assert raw[0] == line[0] == '#';
    CommentStartsLater(raw);
    StripRightKeepsStart(raw[..CommentStart(raw, 0)]);
  }

  lemma CommentStartsLater(raw: string)
    requires raw != "" && !IsSpace(raw[0])
    ensures CommentStart(raw, 0) >= 1
  {
  }

  lemma SpaceIsNoQuote(c: char)
    requires IsSpace(c) || c == '#'
    ensures c != '\'' && c != '"'
  {
  }

  /** The value read where only spaces stand before a comment. */
  lemma CommentedValue(text: string, i: nat, blanks: string, left: string, comment: string)
    requires Blanks(blanks) && Spaces(left) && (left != "" ==> !IsBlank(left[0])) && '\n' !in comment
    requires SpellsAt(text, i, blanks) && SpellsAt(text, i + |blanks|, left + (("#" + comment) + "\n"))
    ensures i <= |text| && ValueAt(text, i).Ok?
    ensures var scanned := ValueAt(text, i).value;
      && scanned.expandable && scanned.after == i + |blanks| + |left| + |comment| + 2
      && (scanned.value == "" <==> left != "") && (scanned.value != "" ==> scanned.value[0] == '#')
  {
    hide SpellsAt, SkipBlanks, RestOfLine, ValueAt, StripLineEnd, Strip, CommentStart, Blanks, IsSpace;
    var start := i + |blanks|;
    var hash := "#" + comment;
    StartsWithout(left, hash + "\n");
    SpelledTo(text, start, left + (hash + "\n"), 0, (left + (hash + "\n"))[0]);
    BlanksSkipped(text, i, blanks);
    SpacesHaveNoNewline(left, hash);
    LineIs(text, start, left, hash);
    CommentBehind(left, comment);
    PlainValue(text, i);
  }

  lemma StartsWithout(left: string, rest: string)
    requires Spaces(left) && (left != "" ==> !IsBlank(left[0])) && rest != "" && rest[0] == '#'
    ensures var c := (left + rest)[0]; !IsBlank(c) && c != '\'' && c != '"'
  {
    if left != "" {
      SpaceIsNoQuote(left[0]);
    }
  }

  lemma SpacesHaveNoNewline(left: string, hash: string)
    requires Spaces(left) && hash != "" && hash[0] == '#' && '\n' !in hash[1..]
    ensures '\n' !in left && '\n' !in hash
  {
    hide IsSpace;
    assert hash == [hash[0]] + hash[1..];
  }

  /** `KEY=`, spaces, and a comment. */
  function CommentedEmpty(key: string, spaces: string, comment: string): string {
    key + ("=" + (spaces + (("#" + comment) + "\n")))
  }

  lemma SplitSpaces(text: string, i: nat, spaces: string, n: nat, rest: string)
    requires n <= |spaces| && SpellsAt(text, i, spaces + rest)
    ensures SpellsAt(text, i, spaces[..n]) && SpellsAt(text, i + n, spaces[n..] + rest)
  {
    assert spaces + rest == spaces[..n] + (spaces[n..] + rest);
    SpelledAt(text, i, spaces[..n], spaces[n..] + rest);
  }

  lemma WholeText(text: string)
    ensures SpellsAt(text, 0, text)
  {
    assert text[0..|text|] == text;
  }

  /** Where the entry's value starts, at the beginning of a text. */
  lemma KeyAndEquals(text: string, key: string, rest: string)
    requires IsKey(key) && text == key + ("=" + rest)
    ensures |text| > 0 && ItemAt(text, 0) == Assignment(key, |key| + 1) && SpellsAt(text, |key| + 1, rest)
  {
    hide SpellsAt, ItemAt, IsKey;
    WholeText(text);
    SpelledAt(text, 0, key, "=" + rest);
    SpelledAt(text, |key|, "=", rest);
    SpelledTo(text, |key|, "=", 0, '=');
    PlainHead(text, key);
    EntryItem(text, 0, "", None, key, "", |key|);
    AssignedItem(text, 0, key, |key|);
  }

  lemma PlainHead(text: string, key: string)
    requires IsKey(key) && SpellsAt(text, 0, key) && |key| < |text| && text[|key|] == '='
    ensures EntryStands(text, 0, "", None, key, "", |key|)
  {
  }

  lemma ExpandKeepsStart(value: string, defined: map<string, Option<string>>, environ: map<string, string>)
    requires value != "" ==> value[0] == '#'
    ensures value == "" ==> Expand(value, defined, environ) == ""
    ensures value != "" ==> Expand(value, defined, environ) != "" && Expand(value, defined, environ)[0] == '#'
  {
    hide ExpandFrom, ReferenceAt;
    if value == "" {
      ExpandsNothing(value, defined, environ);
    } else {
      NoDollar(value);
      CharIsKept(value, 0, defined, environ);
    }
  }

  lemma NoDollar(value: string)
    requires value != "" && value[0] != '$'
    ensures ReferenceAt(value, 0).None?
  {
    if SpellsAt(value, 0, "${") {
      SpelledChar(value, 0, "${", 0);
    }
  }

  lemma OneAssignment(text: string, key: string, start: nat, environ: map<string, string>)
    requires |text| > 0 && ItemAt(text, 0) == Assignment(key, start) && start <= |text|
    requires ValueAt(text, start).Ok? && ValueAt(text, start).value.expandable && ValueAt(text, start).value.after == |text|
    ensures var value := Expand(ValueAt(text, start).value.value, map[], environ);
      Parse(text, environ) == Ok(EnvValues([key], map[key := Some(value)]))
  {
    hide ItemAt, ValueAt, Expand, ParseFrom;
    ParseTurn(text, 0, NO_VALUES, environ);
    var value := Expand(ValueAt(text, start).value.value, map[], environ);
    var after := NO_VALUES.Put(key, Some(value));
    assert after == EnvValues([key], map[key := Some(value)]);
    assert Step(text, 0, NO_VALUES, environ) == Ok(Progress(|text|, after));
    ParseEnd(text, after, environ);
  }

  /**
   Where only spaces stand between `=` and a comment, the value is read as empty exactly when some of
   those spaces is neither a blank nor a tab; otherwise the comment itself is read as the value.
   */
  lemma EmptyValueExact(key: string, spaces: string, comment: string, environ: map<string, string>) returns (value: string)
    requires IsKey(key) && Spaces(spaces) && '\n' !in comment
    ensures Parse(CommentedEmpty(key, spaces, comment), environ) == Ok(EnvValues([key], map[key := Some(value)]))
    ensures value == "" <==> !Blanks(spaces)
    ensures value != "" ==> value[0] == '#'
  {
    hide *;
    var text := CommentedEmpty(key, spaces, comment);
    var n := LeadingBlanks(spaces);
    CommentedText(key, spaces, comment, n);
    CommentedValue(text, |key| + 1, spaces[..n], spaces[n..], comment);
    var scanned := ValueAt(text, |key| + 1).value;
    ExpandKeepsStart(scanned.value, map[], environ);
    OneAssignment(text, key, |key| + 1, environ);
    value := Expand(scanned.value, map[], environ);
  }

  lemma CommentedText(key: string, spaces: string, comment: string, n: nat)
    requires IsKey(key) && Spaces(spaces) && n <= |spaces|
    ensures var text := CommentedEmpty(key, spaces, comment);
      && |text| == |key| + |spaces| + |comment| + 3
      && ItemAt(text, 0) == Assignment(key, |key| + 1)
      && SpellsAt(text, |key| + 1, spaces[..n])
      && SpellsAt(text, |key| + 1 + n, spaces[n..] + (("#" + comment) + "\n"))
    ensures Spaces(spaces[n..])
  {
    hide SpellsAt, ItemAt, IsKey, IsSpace;
    var rest := ("#" + comment) + "\n";
    KeyAndEquals(CommentedEmpty(key, spaces, comment), key, spaces + rest);
    SplitSpaces(CommentedEmpty(key, spaces, comment), |key| + 1, spaces, n, rest);
  }

  // ---------------------------------------------------------------- a bare key hides the environment

  /** A bare key, and an entry that refers to it with a default. */
  function BareThenReference(name: string, key: string, default: string, style: Style): seq<Line> {
    [Entry("", None, name, "", None),
     Entry("", None, key, "", Some(Written("", style, PieceText(Variable(name, Some(default))), "")))]
  }

  /** Whatever the environment holds, a reference behind a bare key of its name takes its default. */
  lemma BareKeyHidesEnvironment(name: string, key: string, default: string, style: Style, environ: map<string, string>)
    requires IsName(name) && IsKey(key) && '}' !in default && style != Single
    requires WritableValue(Written("", style, PieceText(Variable(name, Some(default))), ""))
    ensures var read := Parse(Render(BareThenReference(name, key, default, style)), environ);
      read.Ok? && key in read.value.values && read.value.values[key] == Some(default)
  {
    hide Parse, Render, PieceText, WritableValue, Expand, IsKeyChar, IsNameStart, IsNameChar;
    var lines := BareThenReference(name, key, default, style);
    var before := NO_VALUES.Put(name, None);
    NameIsKey(name);
    assert Writable(lines[0]) && Writable(lines[1]);
    ParseOfRender(lines, environ);
    assert AfterLines(lines, 0, environ) == NO_VALUES;
    assert AfterLines(lines, 1, environ) == before;
    OneVariable(name, Some(default), before.values, environ);
  }

  lemma NameIsKey(name: string)
    requires IsName(name)
    ensures IsKey(name)
  {
  }

  /** A real file: the environment has `A`, yet `${A:-d}` behind a bare `A` is `d`. */
  lemma BareKeyInFile()
    ensures var read := Parse("A\nB=${A:-d}\n", map["A" := "x"]);
      read.Ok? && "B" in read.value.values && read.value.values["B"] == Some("d")
  {
    hide Parse, WritableValue;
    BareFileText();
    BareFileIsWritable();
    BareKeyHidesEnvironment("A", "B", "d", Plain, map["A" := "x"]);
  }

  lemma BareFileText()
    ensures Render(BareThenReference("A", "B", "d", Plain)) == "A\nB=${A:-d}\n"
  {
    hide LineText;
    var lines := BareThenReference("A", "B", "d", Plain);
    BareLineText();
    ReferenceLineText();
    assert lines[1..][1..] == [] && lines[1..][0] == lines[1];
  }

  lemma BareLineText()
    ensures LineText(Entry("", None, "A", "", None)) == "A\n"
  {
  }

  lemma ReferenceLineText()
    ensures LineText(Entry("", None, "B", "", Some(Written("", Plain, PieceText(Variable("A", Some("d"))), "")))) == "B=${A:-d}\n"
  {
    hide LineText, PieceText;
    ReferenceText();
    PlainLineText("B", "${A:-d}");
  }

  lemma ReferenceText()
    ensures PieceText(Variable("A", Some("d"))) == "${A:-d}"
  {
  }

  lemma PlainLineText(key: string, text: string)
    ensures LineText(Entry("", None, key, "", Some(Written("", Plain, text, "")))) == key + "=" + text + "\n"
  {
    var value := Written("", Plain, text, "");
    assert ValueText(value) == text + "\n";
    assert key + ("" + ("=" + (text + "\n"))) == key + "=" + text + "\n";
  }

  lemma BareFileIsWritable()
    ensures IsName("A") && IsKey("B")
    ensures WritableValue(Written("", Plain, PieceText(Variable("A", Some("d"))), ""))
  {
    var text := "${A:-d}";
    assert PieceText(Variable("A", Some("d"))) == text;
    assert PlainTail("", 0);
    assert '#' !in text;
  }
}

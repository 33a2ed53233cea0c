/** The last line of a `.env` file needs no newline: adding one never changes what the file parses to. */
module EnvLastLine {
  import opened Wrappers
  import opened Strings
  import opened EnvParser
  import opened EnvLines
  import opened EnvRoundTrip

  function Longer(text: string): string {
    text + "\n"
  }

  /** The same place in both texts, or the end of each. */
  predicate SamePlace(text: string, a: nat, b: nat) {
    (a == b && a <= |text|) || (a == |text| && b == |text| + 1)
  }

  // ---------------------------------------------------------------- scanning

  lemma {:induction false} FindLonger(text: string, c: char, i: nat)
    requires i <= |text| && c != '\n'
    ensures Find(text, c, i) < |text| ==> Find(Longer(text), c, i) == Find(text, c, i)
    ensures Find(text, c, i) == |text| ==> Find(Longer(text), c, i) == |text| + 1
    decreases |text| - i
  {
    if i < |text| && text[i] != c {
      FindLonger(text, c, i + 1);
    }
  }

  lemma {:induction false} FindNewline(text: string, i: nat)
    requires i <= |text|
    ensures Find(Longer(text), '\n', i) == Find(text, '\n', i)
    decreases |text| - i
  {
    if i < |text| && text[i] != '\n' {
      FindNewline(text, i + 1);
    }
  }

  lemma RestLonger(text: string, i: nat)
    requires i <= |text|
    ensures SamePlace(text, RestOfLine(text, i), RestOfLine(Longer(text), i))
    ensures i == |text| ==> RestOfLine(Longer(text), i) == |text| + 1
  {
    hide Find;
    FindNewline(text, i);
  }

  lemma {:induction false} SkipBlanksLonger(text: string, i: nat)
    requires i <= |text|
    ensures SkipBlanks(Longer(text), i) == SkipBlanks(text, i)
    decreases |text| - i
  {
    if i < |text| && IsBlank(text[i]) {
      SkipBlanksLonger(text, i + 1);
    }
  }

  lemma {:induction false} KeyEndLonger(text: string, i: nat)
    requires i <= |text|
    ensures KeyEnd(Longer(text), i) == KeyEnd(text, i)
    decreases |text| - i
  {
    if i < |text| && IsKeyChar(text[i]) {
      KeyEndLonger(text, i + 1);
    }
  }

  lemma SpellsLonger(text: string, i: nat, word: string)
    requires i <= |text| && word != "" && '\n' !in word
    ensures SpellsAt(Longer(text), i, word) <==> SpellsAt(text, i, word)
  {
    if i + |word| <= |text| {
      assert Longer(text)[i..i + |word|] == text[i..i + |word|];
    } else if i + |word| == |text| + 1 {
      assert Longer(text)[i..i + |word|][|word| - 1] == '\n';
      assert word[|word| - 1] in word;
    }
  }

  lemma KeyStartLonger(text: string, i: nat)
    requires i <= |text|
    ensures KeyStart(Longer(text), i) == KeyStart(text, i)
  {
    hide SpellsAt, SkipBlanks;
    SpellsLonger(text, i, EXPORT);
    NewlineStartsNothing();
    if i + |EXPORT| < |text| {
      SkipBlanksLonger(text, i + |EXPORT|);
    }
  }

  lemma NewlineStartsNothing()
    ensures !IsNameStart('\n') && !IsBlank('\n') && '\n' !in EXPORT
  {
  }

  lemma KeyAtLonger(text: string, i: nat)
    requires i <= |text|
    ensures KeyAt(Longer(text), i) == KeyAt(text, i)
  {
    hide KeyStart, KeyEnd, SkipBlanks, IsNameStart;
    KeyStartLonger(text, i);
    NewlineStartsNothing();
    var start := KeyStart(text, i);
    if start < |text| && IsNameStart(text[start]) {
      KeyEndLonger(text, start);
      SkipBlanksLonger(text, KeyEnd(text, start));
      assert Longer(text)[start..KeyEnd(text, start)] == text[start..KeyEnd(text, start)];
    }
  }

  // ---------------------------------------------------------------- values

  lemma {:induction false} DoubleQuotedLonger(text: string, i: nat, out: string)
    requires i <= |text|
    ensures DoubleQuotedFrom(Longer(text), i, out) == DoubleQuotedFrom(text, i, out)
    decreases |text| - i
  {
    hide Unescaped;
    if i < |text| {
      if text[i] == '\\' && i + 1 < |text| {
        DoubleQuotedLonger(text, i + 2, out + Unescaped(text[i + 1]));
      } else if text[i] != '"' {
        DoubleQuotedLonger(text, i + 1, out + [text[i]]);
      }
    }
  }

  lemma StripLineEndLonger(line: string)
    ensures StripLineEnd(line + "\n") == StripLineEnd(line)
  {
    assert (line + "\n")[..|line|] == line;
  }

  lemma UnquotedLonger(text: string, i: nat)
    requires i <= |text|
    ensures var a, b := Unquoted(text, i), Unquoted(Longer(text), i);
      a.value == b.value && a.expandable && b.expandable && SamePlace(text, a.after, b.after)
  {
    hide RestOfLine, StripLineEnd, Strip, CommentStart;
    RestLonger(text, i);
    LineLonger(text, i);
    StripLineEndLonger(text[i..RestOfLine(text, i)]);
  }

  /** The line from `i` on is the same, or has the newline added. */
  lemma LineLonger(text: string, i: nat)
    requires i <= |text|
    ensures var a, b := RestOfLine(text, i), RestOfLine(Longer(text), i);
      Longer(text)[i..b] == if a == b then text[i..a] else text[i..a] + "\n"
  {
    hide RestOfLine;
    RestLonger(text, i);
    var a, b := RestOfLine(text, i), RestOfLine(Longer(text), i);
    if a == b {
      assert Longer(text)[i..a] == text[i..a];
    } else {
      assert Longer(text)[i..b] == text[i..a] + "\n";
    }
  }

  ghost predicate SameValue(text: string, a: Result<Scanned, EnvError>, b: Result<Scanned, EnvError>) {
    match (a, b)
    case (Ok(x), Ok(y)) => x.value == y.value && x.expandable == y.expandable && SamePlace(text, x.after, y.after)
    case (Err(x), Err(y)) => x == y
    case _ => false
  }

  lemma ValueLonger(text: string, i: nat)
    requires i <= |text|
    ensures SameValue(text, ValueAt(text, i), ValueAt(Longer(text), i))
  {
    hide SkipBlanks, Find, RestOfLine, DoubleQuotedFrom, Unquoted;
    SkipBlanksLonger(text, i);
    var start := SkipBlanks(text, i);
    if start < |text| && text[start] == '\'' {
      FindLonger(text, '\'', start + 1);
      var close := Find(text, '\'', start + 1);
      if close < |text| {
        RestLonger(text, close + 1);
        assert Longer(text)[start + 1..close] == text[start + 1..close];
      }
    } else if start < |text| && text[start] == '"' {
      DoubleQuotedLonger(text, start + 1, "");
      var quoted := DoubleQuotedFrom(text, start + 1, "");
      if quoted.Ok? {
        RestLonger(text, quoted.value.after);
      }
    } else {
      UnquotedLonger(text, start);
    }
  }

  // ---------------------------------------------------------------- lines

  lemma {:induction false} StripLeftLonger(line: string)
    ensures StripLeft(line + "\n") == if StripLeft(line) == "" then "" else StripLeft(line) + "\n"
  {
    if line == "" {
      assert StripLeft("\n"[1..]) == "";
      assert line + "\n" == "\n";
    } else {
      assert (line + "\n")[1..] == line[1..] + "\n";
      StripLeftLonger(line[1..]);
    }
  }

  lemma StripLonger(line: string)
    ensures Strip(line + "\n") == Strip(line)
  {
    hide StripLeft;
    StripLeftLonger(line);
    var left := StripLeft(line);
    assert (left + "\n")[..|left|] == left;
  }

  lemma ItemLonger(text: string, i: nat)
    requires i < |text|
    ensures ItemAt(Longer(text), i) == ItemAt(text, i)
  {
    hide RestOfLine, KeyAt, Strip, StripLeft, SpellsAt;
    RestLonger(text, i);
    LineLonger(text, i);
    var end := RestOfLine(text, i);
    var line := text[i..end];
    StripLeftLength(line);
    StripLonger(line);
    StripLeftLonger(line);
    EmptyStrips(line);
    var at := i + (|line| - |StripLeft(line)|);
    KeyAtLonger(text, at);
    var found := KeyAt(text, at);
    if found.Some? {
      SpellsLonger(text, found.value.after, "=");
      SliceLonger(text, found.value.after, end, RestOfLine(Longer(text), i));
    }
  }

  lemma EmptyStrips(line: string)
    ensures StripLeft(line) == "" ==> Strip(line) == ""
  {
    hide StripLeft;
  }

  lemma SliceLonger(text: string, from: nat, to: nat, end: nat)
    requires from <= |text| && to <= |text| && SamePlace(text, to, end)
    ensures Strip(Slice(Longer(text), from, end)) == Strip(Slice(text, from, to))
  {
    hide Strip;
    if end == to {
      if from <= to {
        assert Longer(text)[from..to] == text[from..to];
      }
    } else {
      assert Longer(text)[from..end] == text[from..to] + "\n";
      StripLonger(text[from..to]);
    }
  }

  ghost predicate SameProgress(text: string, a: Result<Progress, EnvError>, b: Result<Progress, EnvError>) {
    match (a, b)
    case (Ok(x), Ok(y)) => x.values == y.values && SamePlace(text, x.index, y.index)
    case (Err(x), Err(y)) => x == y
    case _ => false
  }

  lemma StepLonger(text: string, i: nat, values: EnvValues, environ: map<string, string>)
    requires i < |text|
    ensures SameProgress(text, Step(text, i, values, environ), Step(Longer(text), i, values, environ))
  {
    hide ItemAt, ValueAt, RestOfLine, Expand;
    ItemLonger(text, i);
    RestLonger(text, i);
    if ItemAt(text, i).Assignment? {
      ValueLonger(text, ItemAt(text, i).start);
    }
  }

  /** The added newline alone is a line without meaning. */
  lemma LastStep(text: string, values: EnvValues, environ: map<string, string>)
    ensures Step(Longer(text), |text|, values, environ) == Ok(Progress(|text| + 1, values))
  {
    hide RestOfLine, KeyAt;
    RestLonger(text, |text|);
    assert Longer(text)[|text|..|text| + 1] == "\n";
    assert StripLeft("\n"[1..]) == "";
  }

  lemma {:induction false} ParseLonger(text: string, i: nat, j: nat, values: EnvValues, environ: map<string, string>)
    requires SamePlace(text, i, j)
    ensures ParseFrom(Longer(text), j, values, environ) == ParseFrom(text, i, values, environ)
    decreases |text| - i
  {
    hide Step;
    if i < |text| {
      StepLonger(text, i, values, environ);
      var progress := Step(text, i, values, environ);
      if progress.Ok? {
        var other := Step(Longer(text), i, values, environ).value;
        ParseLonger(text, progress.value.index, other.index, progress.value.values, environ);
      }
    } else if j == |text| {
      LastStep(text, values, environ);
      ParseTurn(Longer(text), j, values, environ);
    }
  }

  /** A newline added at the end of a file, after whatever text, changes neither its variables nor its error. */
  lemma FinalNewlineIsOptional(text: string, environ: map<string, string>)
    ensures Parse(text + "\n", environ) == Parse(text, environ)
  {
    hide ParseFrom;
    ParseLonger(text, 0, 0, NO_VALUES, environ);
  }

  /** A file of written lines whose last newline is missing means the same. */
  lemma LastNewlineMayBeMissing(lines: seq<Line>, text: string, environ: map<string, string>)
    requires WritableFile(lines) && Render(lines) == text + "\n"
    ensures Parse(text, environ) == Ok(AfterLines(lines, |lines|, environ))
  {
    hide Parse, Render, AfterLines, Writable;
    ParseOfRender(lines, environ);
    FinalNewlineIsOptional(text, environ);
  }
}

/** Every written line of a `.env` file is read back as one step of the parser, with its meaning. */
module EnvReading {
  import opened Wrappers
  import opened Strings
  import opened EnvParser
  import opened EnvTemplates
  import opened EnvLines

  // ---------------------------------------------------------------- where a line ends

  lemma SpelledTo(text: string, i: nat, part: string, k: nat, c: char)
    requires SpellsAt(text, i, part) && k < |part| && part[k] == c
    ensures i + k < |text| && text[i + k] == c
  {
    SpelledChar(text, i, part, k);
  }

  /** No newline from `i` up to but not including `end`. */
  ghost predicate OneLine(text: string, i: nat, end: nat) {
    i <= end <= |text| && forall k :: i <= k < end ==> text[k] != '\n'
  }

  lemma PartOfLine(text: string, i: nat, part: string)
    requires SpellsAt(text, i, part) && '\n' !in part
    ensures OneLine(text, i, i + |part|)
  {
    forall k | i <= k < i + |part| ensures text[k] != '\n' {
      SpelledTo(text, i, part, k - i, part[k - i]);
    }
  }

  lemma LineGoesOn(text: string, i: nat, middle: nat, end: nat)
    requires OneLine(text, i, middle) && OneLine(text, middle, end)
    ensures OneLine(text, i, end)
  {
  }

  lemma LineEnds(text: string, i: nat, end: nat)
    requires OneLine(text, i, end) && SpellsAt(text, end, "\n")
    ensures end < |text| && RestOfLine(text, i) == end + 1
  {
    SpelledTo(text, end, "\n", 0, '\n');
    hide SpellsAt;
    FindsFirst(text, '\n', i, end);
  }

  lemma {:induction false} StripLeftIs(line: string, n: nat)
    requires n < |line| && !IsSpace(line[n]) && forall k :: 0 <= k < n ==> IsSpace(line[k])
    ensures StripLeft(line) == line[n..]
  {
    hide IsSpace;
    if n > 0 {
      StripLeftIs(line[1..], n - 1);
    }
  }

  lemma {:induction false} StripRightKeepsStart(text: string)
    requires text != "" && !IsSpace(text[0])
    ensures StripRight(text) != "" && StripRight(text)[0] == text[0]
  {
    if IsSpace(text[|text| - 1]) {
      StripRightKeepsStart(text[..|text| - 1]);
    }
  }

  /** What the parser sees of a line that starts, after spaces, with a visible character. */
  lemma VisibleLine(text: string, i: nat, space: string)
    requires SpellsAt(text, i, space) && Spaces(space) && i + |space| < |text| && !IsSpace(text[i + |space|])
    ensures var line := text[i..RestOfLine(text, i)];
      && |line| - |StripLeft(line)| == |space|
      && Strip(line) != "" && Strip(line)[0] == text[i + |space|]
  {
    HashIsNoSpace();
    hide IsSpace;
    forall k | i <= k < i + |space| ensures IsSpace(text[k]) && text[k] != '\n' {
      SpelledTo(text, i, space, k - i, space[k - i]);
    }
    hide SpellsAt, Find;
    var end := RestOfLine(text, i);
    assert end > i + |space|;
    var line := text[i..end];
    assert forall k :: 0 <= k <= |space| ==> line[k] == text[i + k];
    StripLeftIs(line, |space|);
    StripRightKeepsStart(line[|space|..]);
  }

  lemma HashIsNoSpace()
    ensures !IsSpace('#') && IsSpace('\n')
    ensures forall c :: IsNameStart(c) ==> !IsSpace(c) && c != '#'
    ensures forall c :: IsKeyChar(c) || IsBlank(c) ==> c != '\n'
  {
  }

  lemma {:induction false} SpacesStripToNothing(text: string)
    requires forall k :: 0 <= k < |text| ==> IsSpace(text[k])
    ensures StripLeft(text) == ""
  {
    if text != "" {
      SpacesStripToNothing(text[1..]);
    }
  }

  lemma {:induction false} SkipsBlanks(text: string, i: nat, n: nat)
    requires i + n < |text| && !IsBlank(text[i + n]) && forall k :: i <= k < i + n ==> IsBlank(text[k])
    ensures SkipBlanks(text, i) == i + n
    decreases n
  {
    if n > 0 {
      SkipsBlanks(text, i + 1, n - 1);
    }
  }

  lemma BlanksSkipped(text: string, i: nat, blanks: string)
    requires SpellsAt(text, i, blanks) && Blanks(blanks) && i + |blanks| < |text| && !IsBlank(text[i + |blanks|])
    ensures SkipBlanks(text, i) == i + |blanks|
  {
    forall k | i <= k < i + |blanks| ensures IsBlank(text[k]) {
      SpelledTo(text, i, blanks, k - i, blanks[k - i]);
    }
    hide SpellsAt, IsBlank;
    SkipsBlanks(text, i, |blanks|);
  }

  // ---------------------------------------------------------------- reading a key

  lemma {:induction false} KeyEndIs(text: string, i: nat, end: nat)
    requires i <= end < |text| && !IsKeyChar(text[end]) && forall k :: i <= k < end ==> IsKeyChar(text[k])
    ensures KeyEnd(text, i) == end
    decreases end - i
  {
    if i < end {
      KeyEndIs(text, i + 1, end);
    }
  }

  lemma KeyEnds(text: string, i: nat, key: string)
    requires IsKey(key) && SpellsAt(text, i, key) && i + |key| < |text| && !IsKeyChar(text[i + |key|])
    ensures KeyEnd(text, i) == i + |key| && text[i] == key[0]
  {
    forall k | i <= k < i + |key| ensures IsKeyChar(text[k]) {
      SpelledTo(text, i, key, k - i, key[k - i]);
    }
    SpelledTo(text, i, key, 0, key[0]);
    hide SpellsAt, IsKeyChar;
    KeyEndIs(text, i, i + |key|);
  }

  /** A key and its gap stand at `i`, before a character that ends them. */
  ghost predicate KeyStands(text: string, i: nat, key: string, gap: string) {
    && SpellsAt(text, i, key) && SpellsAt(text, i + |key|, gap) && i + |key| + |gap| < |text|
    && IsKey(key) && Blanks(gap)
    && !IsBlank(text[i + |key| + |gap|]) && (gap == "" ==> !IsKeyChar(text[i + |key|]))
  }

  lemma KeyReads(text: string, i: nat, key: string, gap: string)
    requires KeyStands(text, i, key, gap)
    ensures i < |text| && text[i] == key[0] && i + |key| + |gap| < |text|
    ensures KeyEnd(text, i) == i + |key| && SkipBlanks(text, i + |key|) == i + |key| + |gap|
  {
    GapStopsKey(text, i, key, gap);
    hide SpellsAt, IsKey, Blanks, IsBlank, IsKeyChar, KeyEnd, SkipBlanks;
    KeyEnds(text, i, key);
    BlanksSkipped(text, i + |key|, gap);
  }

  lemma GapStopsKey(text: string, i: nat, key: string, gap: string)
    requires KeyStands(text, i, key, gap)
    ensures i + |key| < |text| && !IsKeyChar(text[i + |key|])
  {
    ExportIsKey();
    if gap != "" {
      SpelledTo(text, i + |key|, gap, 0, gap[0]);
    }
  }

  lemma ExportIsKey()
    ensures forall k :: 0 <= k < |EXPORT| ==> IsKeyChar(EXPORT[k])
    ensures forall c :: IsBlank(c) ==> !IsKeyChar(c)
  {
  }

  lemma ExportEnds(text: string, i: nat)
    requires SpellsAt(text, i, EXPORT) && i + |EXPORT| < |text| && IsBlank(text[i + |EXPORT|])
    ensures KeyEnd(text, i) == i + |EXPORT| && text[i..i + |EXPORT|] == EXPORT
  {
    ExportIsKey();
    forall k | i <= k < i + |EXPORT| ensures IsKeyChar(text[k]) {
      SpelledTo(text, i, EXPORT, k - i, EXPORT[k - i]);
    }
    hide IsKeyChar, IsBlank;
    KeyEndIs(text, i, i + |EXPORT|);
  }

  /** Where a key stands unprefixed, `export` followed by blanks is not followed by a key. */
  lemma NoExportPrefix(text: string, i: nat, key: string, gap: string)
    requires KeyStands(text, i, key, gap) && StopsKey(None, key, gap, text[i + |key| + |gap|])
    ensures KeyStart(text, i) == i
  {
    hide KeyEnd, SkipBlanks, IsKey, Blanks;
    if SpellsAt(text, i, EXPORT) && i + |EXPORT| < |text| && IsBlank(text[i + |EXPORT|]) {
      KeyReads(text, i, key, gap);
      ExportEnds(text, i);
      assert key == EXPORT;
    }
  }

  lemma PrefixReads(text: string, i: nat, blanks: string, key: string, gap: string)
    requires SpellsAt(text, i, EXPORT + blanks) && blanks != "" && Blanks(blanks)
    requires KeyStands(text, i + |EXPORT| + |blanks|, key, gap)
    ensures KeyStart(text, i) == i + |EXPORT| + |blanks|
  {
    SpelledAt(text, i, EXPORT, blanks);
    SpelledTo(text, i + |EXPORT|, blanks, 0, blanks[0]);
    KeyReads(text, i + |EXPORT| + |blanks|, key, gap);
    assert IsNameStart(key[0]) && IsBlank(blanks[0]);
    NameIsNoBlank(key[0]);
    hide SpellsAt, Blanks, IsBlank, SkipBlanks, IsNameStart, KeyStands;
    BlanksSkipped(text, i + |EXPORT|, blanks);
  }

  lemma NameIsNoBlank(c: char)
    requires IsNameStart(c)
    ensures !IsBlank(c)
  {
  }

  /** `export` is a prefix only when blanks and a key follow it; otherwise it is a key like any other. */
  lemma KeyStartReads(text: string, i: nat, prefix: Option<string>, key: string, gap: string)
    requires prefix.Some? ==> prefix.value != "" && Blanks(prefix.value)
    requires SpellsAt(text, i, PrefixText(prefix)) && KeyStands(text, i + |PrefixText(prefix)|, key, gap)
    requires StopsKey(prefix, key, gap, text[i + |PrefixText(prefix)| + |key| + |gap|])
    ensures KeyStart(text, i) == i + |PrefixText(prefix)|
  {
    hide SpellsAt, KeyStart, KeyStands, StopsKey, Blanks;
    match prefix
    case None => NoExportPrefix(text, i, key, gap);
    case Some(blanks) => PrefixReads(text, i, blanks, key, gap);
  }

  lemma HeadReads(text: string, i: nat, prefix: Option<string>, key: string, gap: string)
    requires prefix.Some? ==> prefix.value != "" && Blanks(prefix.value)
    requires SpellsAt(text, i, PrefixText(prefix)) && KeyStands(text, i + |PrefixText(prefix)|, key, gap)
    requires StopsKey(prefix, key, gap, text[i + |PrefixText(prefix)| + |key| + |gap|])
    ensures i + |PrefixText(prefix)| + |key| + |gap| < |text|
    ensures KeyAt(text, i) == Some(KeyMatch(key, i + |PrefixText(prefix)| + |key| + |gap|))
  {
    var start := i + |PrefixText(prefix)|;
    assert text[start..start + |key|] == key && IsNameStart(key[0]);
    hide *;
    KeyStartReads(text, i, prefix, key, gap);
    KeyReads(text, start, key, gap);
    KeyAtIs(text, i, start, start + |key|);
  }

  lemma KeyAtIs(text: string, i: nat, start: nat, end: nat)
    requires i <= |text| && KeyStart(text, i) == start < end <= |text| && IsNameStart(text[start]) && KeyEnd(text, start) == end
    ensures KeyAt(text, i) == Some(KeyMatch(text[start..end], SkipBlanks(text, end)))
  {
    hide KeyStart, KeyEnd, SkipBlanks, IsNameStart;
  }

  // ---------------------------------------------------------------- reading a quoted value

  /** One written character is read back as itself. */
  lemma CharReads(text: string, i: nat, out: string, c: char, tail: string)
    requires SpellsAt(text, i, EscapedChar(c) + tail)
    ensures SpellsAt(text, i + |EscapedChar(c)|, tail)
    ensures DoubleQuotedFrom(text, i, out) == DoubleQuotedFrom(text, i + |EscapedChar(c)|, out + [c])
  {
    SpelledAt(text, i, EscapedChar(c), tail);
    SpelledChar(text, i, EscapedChar(c), 0);
    if c == '\\' || c == '"' {
      SpelledChar(text, i, EscapedChar(c), 1);
      assert Unescaped(c) == [c];
    }
  }

  lemma QuoteCloses(text: string, i: nat, out: string)
    requires SpellsAt(text, i, "\"")
    ensures DoubleQuotedFrom(text, i, out) == Ok(Scanned(out, true, i + 1))
  {
    SpelledChar(text, i, "\"", 0);
  }

  /** Unescaping gives back what was escaped, up to the closing quote. */
  lemma {:induction false} UnescapesBack(text: string, i: nat, out: string, value: string)
    requires SpellsAt(text, i, Escaped(value) + "\"")
    ensures DoubleQuotedFrom(text, i, out) == Ok(Scanned(out + value, true, i + |Escaped(value)| + 1))
    decreases |value|
  {
    hide DoubleQuotedFrom, SpellsAt, EscapedChar;
    if value == "" {
      assert Escaped(value) + "\"" == "\"";
      QuoteCloses(text, i, out);
      assert out + value == out;
    } else {
      var c, rest := value[0], value[1..];
      assert Escaped(value) + "\"" == EscapedChar(c) + (Escaped(rest) + "\"");
      CharReads(text, i, out, c, Escaped(rest) + "\"");
      UnescapesBack(text, i + |EscapedChar(c)|, out + [c], rest);
      assert out + [c] + rest == out + value by { assert [c] + rest == value; }
    }
  }

  /** The first occurrence of a character behind a text without it. */
  lemma FindsBehind(text: string, i: nat, part: string, c: char)
    requires SpellsAt(text, i, part + [c]) && c !in part
    ensures Find(text, c, i) == i + |part| < |text| && text[i..i + |part|] == part
  {
    SpelledAt(text, i, part, [c]);
    SpelledTo(text, i + |part|, [c], 0, c);
    forall k | i <= k < i + |part| ensures text[k] != c {
      SpelledTo(text, i, part, k - i, part[k - i]);
    }
    hide SpellsAt;
    FindsFirst(text, c, i, i + |part|);
  }

  lemma TailEnds(text: string, i: nat, tail: string)
    requires SpellsAt(text, i, tail + "\n") && '\n' !in tail
    ensures i <= |text| && RestOfLine(text, i) == i + |tail| + 1
  {
    hide SpellsAt, OneLine;
    InBounds(text, i, tail + "\n");
    SpelledAt(text, i, tail, "\n");
    PartOfLine(text, i, tail);
    LineEnds(text, i, i + |tail|);
  }

  lemma DoubleReads(text: string, i: nat, value: string)
    requires SpellsAt(text, i, "\"" + (Escaped(value) + "\""))
    ensures i < |text| && text[i] == '"'
    ensures DoubleQuotedFrom(text, i + 1, "") == Ok(Scanned(value, true, i + |Escaped(value)| + 2))
  {
    hide SpellsAt, Escaped, DoubleQuotedFrom;
    SpelledAt(text, i, "\"", Escaped(value) + "\"");
    SpelledTo(text, i, "\"", 0, '"');
    UnescapesBack(text, i + 1, "", value);
    assert "" + value == value;
  }

  lemma SingleReads(text: string, i: nat, value: string)
    requires SpellsAt(text, i, "'" + (value + "'")) && '\'' !in value
    ensures i < |text| && text[i] == '\''
    ensures Find(text, '\'', i + 1) == i + |value| + 1 < |text| && text[i + 1..i + |value| + 1] == value
  {
    hide SpellsAt, Find;
    SpelledAt(text, i, "'", value + "'");
    SpelledTo(text, i, "'", 0, '\'');
    FindsBehind(text, i + 1, value, '\'');
  }

  /** Keys are letters, digits, underscores, dots and hyphens, the first one a letter or an underscore. */
  lemma KeySpelled(key: string)
    ensures IsKey(key) <==>
      && key != "" && ('A' <= key[0] <= 'Z' || 'a' <= key[0] <= 'z' || key[0] == '_')
      && forall i :: 0 <= i < |key| ==>
           'A' <= key[i] <= 'Z' || 'a' <= key[i] <= 'z' || '0' <= key[i] <= '9' || key[i] in "_.-"
  {
    hide IsKeyChar;
    forall i | 0 <= i < |key|
      ensures IsKeyChar(key[i]) <==> 'A' <= key[i] <= 'Z' || 'a' <= key[i] <= 'z' || '0' <= key[i] <= '9' || key[i] in "_.-"
    {
      KeyCharIs(key[i]);
    }
  }

  lemma KeyCharIs(c: char)
    ensures IsKeyChar(c) <==> 'A' <= c <= 'Z' || 'a' <= c <= 'z' || '0' <= c <= '9' || c in "_.-"
  {
  }

  // ---------------------------------------------------------------- reading an unquoted value

  lemma {:induction false} StripLineEndKeeps(text: string, n: nat)
    requires n <= |text| && (n > 0 ==> text[n - 1] != '\r' && text[n - 1] != '\n')
    ensures n <= |StripLineEnd(text)| <= |text| && StripLineEnd(text) == text[..|StripLineEnd(text)|]
    ensures n < |text| && text[|text| - 1] == '\n' ==> |StripLineEnd(text)| < |text|
    decreases |text|
  {
    if |text| > n && (text[|text| - 1] == '\r' || text[|text| - 1] == '\n') {
      var front := text[..|text| - 1];
      StripLineEndKeeps(front, n);
      assert front[..|StripLineEnd(front)|] == text[..|StripLineEnd(front)|];
    }
  }

  /** No inline comment starts in the first `n` characters. */
  ghost predicate NoCommentBefore(raw: string, n: nat)
    requires n <= |raw|
  {
    forall k :: 0 <= k < n && k + 1 < |raw| ==> !(IsSpace(raw[k]) && raw[k + 1] == '#')
  }

  lemma {:induction false} CommentStartIs(raw: string, i: nat, n: nat)
    requires i <= n <= |raw| && NoCommentBefore(raw, n)
    requires n == |raw| || (n + 1 < |raw| && IsSpace(raw[n]) && raw[n + 1] == '#')
    ensures CommentStart(raw, i) == n
    decreases n - i
  {
    hide IsSpace;
    if i < n {
      CommentStartIs(raw, i + 1, n);
    }
  }

  lemma {:induction false} StripRightDrops(text: string, space: string)
    requires Stripped(text) && forall k :: 0 <= k < |space| ==> IsSpace(space[k])
    requires text != ""
    ensures StripRight(text + space) == text
  {
    hide IsSpace;
    if space == "" {
      assert text + space == text;
    } else {
      var whole := text + space;
      assert whole[..|whole| - 1] == text + space[..|space| - 1];
      StripRightDrops(text, space[..|space| - 1]);
    }
  }

  /** An unquoted value with its tail, cut at the comment and trimmed, is the value. */
  lemma TailIsCut(text: string, tail: string, n: nat, m: nat)
    requires Stripped(text) && NoComment(text) && PlainTail(tail, n)
    requires m <= |tail| && (n < |tail| ==> n < m)
    ensures var raw := text + tail[..m]; Strip(raw[..CommentStart(raw, 0)]) == text
  {
    var raw := text + tail[..m];
    var cut := if n < |tail| then |text| + n - 1 else |raw|;
    forall k | 0 <= k < |tail| && k < n ensures IsSpace(tail[k]) {
      assert tail[..n][k] == tail[k];
    }
    TailHasNoComment(text, tail, n, m);
    CommentStartIs(raw, 0, cut);
    var space := tail[..cut - |text|];
    assert raw[..cut] == text + space;
    if text == "" {
      assert text + space == space;
      SpacesStripToNothing(space);
    } else {
      assert !IsSpace((text + space)[0]);
      StripRightDrops(text, space);
    }
  }

  lemma TailHasNoComment(text: string, tail: string, n: nat, m: nat)
    requires Stripped(text) && NoComment(text) && PlainTail(tail, n)
    requires m <= |tail| && (n < |tail| ==> n < m)
    ensures var raw := text + tail[..m];
      NoCommentBefore(raw, if n < |tail| then |text| + n - 1 else |raw|)
  {
    var raw := text + tail[..m];
    var cut := if n < |tail| then |text| + n - 1 else |raw|;
    assert !IsSpace('#');
    hide IsSpace;
    forall k | 0 <= k < cut && k + 1 < |raw| ensures !(IsSpace(raw[k]) && raw[k + 1] == '#') {
      if k + 1 < |text| {
        assert raw[k] == text[k] && raw[k + 1] == text[k + 1];
      } else if k + 1 == |text| {
        assert raw[k] == text[|text| - 1];
      } else {
        assert raw[k + 1] == tail[k + 1 - |text|];
        assert tail[..n][k + 1 - |text|] == tail[k + 1 - |text|];
      }
    }
  }

  lemma PlainReads(text: string, i: nat, value: string, tail: string)
    requires WritablePlain(value, tail) && SpellsAt(text, i, value + (tail + "\n"))
    ensures i <= |text| && Unquoted(text, i) == Scanned(value, true, i + |value| + |tail| + 1)
  {
    PlainLine(value, tail);
    assert '\n' !in value && '\n' !in tail;
    hide WritablePlain;
    LineIs(text, i, value, tail);
    InBounds(text, i, value + (tail + "\n"));
    hide SpellsAt, Strip, CommentStart, StripLineEnd, RestOfLine;
  }

  lemma LineIs(text: string, i: nat, value: string, tail: string)
    requires SpellsAt(text, i, value + (tail + "\n")) && '\n' !in value && '\n' !in tail
    ensures i <= |text| && RestOfLine(text, i) == i + |value| + |tail| + 1
    ensures text[i..RestOfLine(text, i)] == (value + tail) + "\n"
  {
    SpelledAt(text, i, value, tail + "\n");
    SpelledAt(text, i + |value|, tail, "\n");
    PartOfLine(text, i, value);
    PartOfLine(text, i + |value|, tail);
    LineGoesOn(text, i, i + |value|, i + |value| + |tail|);
    LineEnds(text, i, i + |value| + |tail|);
    assert value + (tail + "\n") == (value + tail) + "\n";
  }

  /** The line of an unquoted value, without its end, cut and trimmed. */
  lemma PlainLine(value: string, tail: string)
    requires WritablePlain(value, tail)
    ensures var raw := StripLineEnd((value + tail) + "\n"); Strip(raw[..CommentStart(raw, 0)]) == value
  {
    var n: nat :| PlainTail(tail, n);
    TailLine(value, tail, n);
  }

  lemma TailLine(value: string, tail: string, n: nat)
    requires Stripped(value) && NoComment(value) && PlainTail(tail, n)
    ensures var raw := StripLineEnd((value + tail) + "\n"); Strip(raw[..CommentStart(raw, 0)]) == value
  {
    hide Strip, CommentStart, IsSpace, NoComment, Stripped;
    var line := (value + tail) + "\n";
    StrippedEnds(value);
    StripLineEndKeeps(line, |value| + if n < |tail| then n + 1 else 0);
    var m := |StripLineEnd(line)| - |value|;
    assert StripLineEnd(line) == value + tail[..m];
    hide StripLineEnd, PlainTail;
    TailIsCut(value, tail, n, m);
  }

  lemma StrippedEnds(value: string)
    requires Stripped(value)
    ensures value != "" ==> value[|value| - 1] != '\r' && value[|value| - 1] != '\n'
    ensures value != "" ==> !IsBlank(value[0])
  {
  }

  // ---------------------------------------------------------------- reading a value

  /** What follows the blanks behind `=` is no blank, and of an unquoted value no quote. */
  lemma ValueStarts(value: Written)
    requires WritableValue(value)
    ensures var rest := Quoted(value) + (value.tail + "\n");
      && !IsBlank(rest[0])
      && (value.style == Plain ==> rest[0] != '\'' && rest[0] != '"')
  {
    if value.style == Plain {
      if value.text != "" {
        StrippedEnds(value.text);
      } else {
        TailStarts(value.tail);
      }
    }
  }

  lemma TailStarts(tail: string)
    requires exists n: nat :: PlainTail(tail, n)
    ensures tail != "" ==> IsSpace(tail[0]) && tail[0] != '\'' && tail[0] != '"'
  {
    var n: nat :| PlainTail(tail, n);
    if tail != "" {
      assert tail[..n][0] == tail[0];
    }
  }

  lemma SingleValue(text: string, i: nat)
    requires i <= |text|
    requires var start := SkipBlanks(text, i); start < |text| && text[start] == '\'' && Find(text, '\'', start + 1) < |text|
    ensures var start := SkipBlanks(text, i); var close := Find(text, '\'', start + 1);
      ValueAt(text, i) == Ok(Scanned(text[start + 1..close], false, RestOfLine(text, close + 1)))
  {
    hide SkipBlanks, Find, RestOfLine, DoubleQuotedFrom, Unquoted;
  }

  lemma DoubleValue(text: string, i: nat, value: string, after: nat)
    requires i <= |text| && after <= |text|
    requires SkipBlanks(text, i) < |text| && text[SkipBlanks(text, i)] == '"'
    requires DoubleQuotedFrom(text, SkipBlanks(text, i) + 1, "") == Ok(Scanned(value, true, after))
    ensures ValueAt(text, i) == Ok(Scanned(value, true, RestOfLine(text, after)))
  {
    hide SkipBlanks, Find, RestOfLine, DoubleQuotedFrom, Unquoted;
  }

  lemma PlainValue(text: string, i: nat)
    requires i <= |text|
    requires var start := SkipBlanks(text, i); start < |text| && text[start] != '\'' && text[start] != '"'
    ensures ValueAt(text, i) == Ok(Unquoted(text, SkipBlanks(text, i)))
  {
    hide SkipBlanks, Find, RestOfLine, DoubleQuotedFrom, Unquoted;
  }

  lemma ValueReads(text: string, i: nat, value: Written)
    requires WritableValue(value) && SpellsAt(text, i, ValueText(value))
    ensures i <= |text| && ValueAt(text, i) == Ok(Scanned(value.text, value.style != Single, i + |ValueText(value)|))
  {
    hide *;
    ValueBlanks(text, i, value);
    match value.style
    case Single => SingleValueReads(text, i, value);
    case Double => DoubleValueReads(text, i, value);
    case Plain => PlainValueReads(text, i, value);
  }

  /** The value proper stands behind the blanks. */
  ghost predicate ValueStands(text: string, i: nat, value: Written)
    requires i <= |text|
  {
    var start := i + |value.blanks|;
    && SkipBlanks(text, i) == start < |text|
    && SpellsAt(text, start, Quoted(value) + (value.tail + "\n"))
    && text[start] == (Quoted(value) + (value.tail + "\n"))[0]
    && |ValueText(value)| == |value.blanks| + |Quoted(value)| + |value.tail| + 1
  }

  lemma ValueBlanks(text: string, i: nat, value: Written)
    requires WritableValue(value) && SpellsAt(text, i, ValueText(value))
    ensures i <= |text| && ValueStands(text, i, value)
  {
    assert Blanks(value.blanks);
    ValueStarts(value);
    InBounds(text, i, ValueText(value));
    hide SpellsAt, SkipBlanks, WritableValue, Quoted, Blanks, IsBlank;
    BehindBlanks(text, i, value.blanks, Quoted(value) + (value.tail + "\n"));
  }

  lemma BehindBlanks(text: string, i: nat, blanks: string, rest: string)
    requires SpellsAt(text, i, blanks + rest) && Blanks(blanks) && rest != "" && !IsBlank(rest[0])
    ensures var start := i + |blanks|;
      start < |text| && SkipBlanks(text, i) == start && SpellsAt(text, start, rest) && text[start] == rest[0]
  {
    hide SpellsAt, SkipBlanks, Blanks, IsBlank;
    SpelledAt(text, i, blanks, rest);
    SpelledTo(text, i + |blanks|, rest, 0, rest[0]);
    BlanksSkipped(text, i, blanks);
  }

  lemma SingleValueReads(text: string, i: nat, value: Written)
    requires value.style == Single && WritableValue(value) && i <= |text| && ValueStands(text, i, value)
    ensures ValueAt(text, i) == Ok(Scanned(value.text, false, i + |ValueText(value)|))
  {
    hide SpellsAt, SkipBlanks, Find, RestOfLine, ValueAt, ValueText, Blanks;
    var start := i + |value.blanks|;
    SpelledAt(text, start, Quoted(value), value.tail + "\n");
    SingleReads(text, start, value.text);
    TailEnds(text, start + |value.text| + 2, value.tail);
    SingleValue(text, i);
  }

  lemma DoubleValueReads(text: string, i: nat, value: Written)
    requires value.style == Double && WritableValue(value) && i <= |text| && ValueStands(text, i, value)
    ensures ValueAt(text, i) == Ok(Scanned(value.text, true, i + |ValueText(value)|))
  {
    hide SpellsAt, SkipBlanks, Find, RestOfLine, ValueAt, ValueText, Blanks, DoubleQuotedFrom, Escaped;
    var start := i + |value.blanks|;
    SpelledAt(text, start, Quoted(value), value.tail + "\n");
    DoubleReads(text, start, value.text);
    TailEnds(text, start + |Escaped(value.text)| + 2, value.tail);
    DoubleValue(text, i, value.text, start + |Escaped(value.text)| + 2);
  }

  lemma PlainValueReads(text: string, i: nat, value: Written)
    requires value.style == Plain && WritableValue(value) && i <= |text| && ValueStands(text, i, value)
    ensures ValueAt(text, i) == Ok(Scanned(value.text, true, i + |ValueText(value)|))
  {
    ValueStarts(value);
    hide SpellsAt, SkipBlanks, Find, RestOfLine, ValueAt, ValueText, Blanks, Unquoted, WritablePlain;
    PlainReads(text, i + |value.blanks|, value.text, value.tail);
    PlainValue(text, i);
  }

  // ---------------------------------------------------------------- reading a line

  lemma BlankReads(text: string, i: nat, space: string)
    requires Spaces(space) && SpellsAt(text, i, space + "\n")
    ensures i < |text| && ItemAt(text, i) == Nothing && RestOfLine(text, i) == i + |space| + 1
  {
    TailEnds(text, i, space);
    HashIsNoSpace();
    var line := text[i..i + |space| + 1];
    assert line == space + "\n";
    hide SpellsAt, KeyAt, RestOfLine, IsSpace;
    SpacesStripToNothing(line);
  }

  lemma CommentReads(text: string, i: nat, space: string, comment: string)
    requires Spaces(space) && '\n' !in comment && SpellsAt(text, i, space + ("#" + (comment + "\n")))
    ensures i < |text| && ItemAt(text, i) == Nothing && RestOfLine(text, i) == i + |space| + |comment| + 2
  {
    hide SpellsAt, KeyAt, RestOfLine, Strip, StripLeft, IsSpace, OneLine;
    var hash := i + |space|;
    SpelledAt(text, i, space, "#" + (comment + "\n"));
    SpelledAt(text, hash, "#", comment + "\n");
    SpelledAt(text, hash + 1, comment, "\n");
    SpelledTo(text, hash, "#", 0, '#');
    PartOfLine(text, i, space);
    PartOfLine(text, hash, "#");
    PartOfLine(text, hash + 1, comment);
    LineGoesOn(text, i, hash, hash + 1);
    LineGoesOn(text, i, hash + 1, hash + 1 + |comment|);
    LineEnds(text, i, hash + 1 + |comment|);
    HashIsNoSpace();
    VisibleLine(text, i, space);
  }

  lemma StrayReads(text: string, i: nat, space: string, stray: string)
    requires Writable(Stray(space, stray)) && SpellsAt(text, i, space + (stray + "\n"))
    ensures i < |text| && ItemAt(text, i) == Nothing && RestOfLine(text, i) == i + |space| + |stray| + 1
  {
    hide SpellsAt, KeyAt, RestOfLine, Strip, StripLeft, IsSpace, IsNameStart, OneLine;
    var start := i + |space|;
    SpelledAt(text, i, space, stray + "\n");
    SpelledAt(text, start, stray, "\n");
    SpelledTo(text, start, stray, 0, stray[0]);
    PartOfLine(text, i, space);
    PartOfLine(text, start, stray);
    LineGoesOn(text, i, start, start + |stray|);
    LineEnds(text, i, start + |stray|);
    VisibleLine(text, i, space);
    NoKeyHere(text, start);
  }

  lemma NoKeyHere(text: string, i: nat)
    requires i < |text| && !IsNameStart(text[i])
    ensures KeyAt(text, i).None?
  {
    if SpellsAt(text, i, EXPORT) {
      SpelledTo(text, i, EXPORT, 0, 'e');
    }
  }

  /** An entry stands at `i`, piece by piece, up to what follows its key and gap at `after`. */
  ghost predicate EntryStands(text: string, i: nat, space: string, prefix: Option<string>, key: string, gap: string, after: nat) {
    var start := i + |space|;
    var name := start + |PrefixText(prefix)|;
    && WritableHead(space, prefix, key, gap) && after == name + |key| + |gap|
    && SpellsAt(text, i, space) && SpellsAt(text, start, PrefixText(prefix))
    && KeyStands(text, name, key, gap) && StopsKey(prefix, key, gap, text[after])
  }

  lemma FivePieces(text: string, i: nat, a: string, b: string, c: string, d: string, e: string)
    requires SpellsAt(text, i, a + (b + (c + (d + e))))
    ensures SpellsAt(text, i, a) && SpellsAt(text, i + |a|, b) && SpellsAt(text, i + |a| + |b|, c)
    ensures SpellsAt(text, i + |a| + |b| + |c|, d) && SpellsAt(text, i + |a| + |b| + |c| + |d|, e)
  {
    hide SpellsAt;
    SpelledAt(text, i, a, b + (c + (d + e)));
    ThreePieces(text, i + |a|, b, c, d + e);
    SpelledAt(text, i + |a| + |b| + |c|, d, e);
  }

  lemma ThreePieces(text: string, i: nat, a: string, b: string, c: string)
    requires SpellsAt(text, i, a + (b + c))
    ensures SpellsAt(text, i, a) && SpellsAt(text, i + |a|, b) && SpellsAt(text, i + |a| + |b|, c)
  {
    hide SpellsAt;
    SpelledAt(text, i, a, b + c);
    SpelledAt(text, i + |a|, b, c);
  }

  lemma EntryLength(space: string, prefix: Option<string>, key: string, gap: string, rest: string)
    ensures |EntryText(space, prefix, key, gap, rest)| == |space| + |PrefixText(prefix)| + |key| + |gap| + |rest|
  {
    hide PrefixText;
  }

  lemma EntryPieces(text: string, i: nat, space: string, prefix: Option<string>, key: string, gap: string, rest: string)
    requires SpellsAt(text, i, EntryText(space, prefix, key, gap, rest))
    ensures var start := i + |space|;
      var name := start + |PrefixText(prefix)|;
      && SpellsAt(text, i, space) && SpellsAt(text, start, PrefixText(prefix))
      && SpellsAt(text, name, key) && SpellsAt(text, name + |key|, gap) && SpellsAt(text, name + |key| + |gap|, rest)
  {
    hide SpellsAt, PrefixText;
    FivePieces(text, i, space, PrefixText(prefix), key, gap, rest);
  }

  /** What follows the key and gap of an entry stands at the end of what comes before. */
  lemma EntryIsThere(text: string, i: nat, space: string, prefix: Option<string>, key: string, gap: string, rest: string)
    returns (after: nat)
    requires WritableHead(space, prefix, key, gap) && rest != "" && StopsKey(prefix, key, gap, rest[0])
    requires SpellsAt(text, i, EntryText(space, prefix, key, gap, rest))
    ensures EntryStands(text, i, space, prefix, key, gap, after)
    ensures SpellsAt(text, after, rest) && after + |rest| == i + |EntryText(space, prefix, key, gap, rest)|
  {
    hide SpellsAt, Spaces, IsKey, Blanks, PrefixText, IsBlank, IsKeyChar, IsNameStart, EntryText;
    after := i + |space| + |PrefixText(prefix)| + |key| + |gap|;
    EntryPieces(text, i, space, prefix, key, gap, rest);
    EntryLength(space, prefix, key, gap, rest);
    SpelledTo(text, after, rest, 0, rest[0]);
  }

  lemma HeadStarts(text: string, i: nat, prefix: Option<string>, key: string, gap: string)
    requires SpellsAt(text, i, PrefixText(prefix)) && KeyStands(text, i + |PrefixText(prefix)|, key, gap)
    ensures i < |text| && !IsSpace(text[i]) && text[i] != '#'
  {
    HashIsNoSpace();
    KeyReads(text, i + |PrefixText(prefix)|, key, gap);
    if prefix.Some? {
      SpelledAt(text, i, EXPORT, prefix.value);
      SpelledTo(text, i, EXPORT, 0, 'e');
      assert IsNameStart('e');
    }
  }

  /** What the parser finds on the line of an entry. */
  lemma EntryItem(text: string, i: nat, space: string, prefix: Option<string>, key: string, gap: string, after: nat)
    requires EntryStands(text, i, space, prefix, key, gap, after)
    ensures i < |text| && after < |text|
    ensures ItemAt(text, i) == EntryItemAt(text, i, key, after)
  {
    hide SpellsAt, KeyAt, PrefixText, IsSpace, Strip, StripLeft, RestOfLine, KeyStands, StopsKey, Spaces, Blanks, IsKey, Slice;
    var start := i + |space|;
    HeadStarts(text, start, prefix, key, gap);
    HeadReads(text, start, prefix, key, gap);
    VisibleLine(text, i, space);
  }

  function EntryItemAt(text: string, i: nat, key: string, after: nat): Item
    requires i <= |text| && after <= |text|
  {
    if SpellsAt(text, after, "=") then Assignment(key, after + 1)
    else if Strip(Slice(text, after, RestOfLine(text, i))) == "" then Bare(key)
    else Nothing
  }

  lemma HeadOnLine(text: string, i: nat, space: string, prefix: Option<string>, key: string, gap: string, after: nat)
    requires EntryStands(text, i, space, prefix, key, gap, after)
    ensures OneLine(text, i, after)
  {
    hide *;
    var start := i + |space|;
    var name := start + |PrefixText(prefix)|;
    var blank := name + |key|;
    EntrySpells(text, i, space, prefix, key, gap, after);
    NoNewlines(space, prefix, key, gap);
    PartOfLine(text, i, space);
    PartOfLine(text, start, PrefixText(prefix));
    PartOfLine(text, name, key);
    PartOfLine(text, blank, gap);
    LineGoesOn(text, i, start, name);
    LineGoesOn(text, i, name, blank);
    LineGoesOn(text, i, blank, after);
  }

  lemma EntrySpells(text: string, i: nat, space: string, prefix: Option<string>, key: string, gap: string, after: nat)
    requires EntryStands(text, i, space, prefix, key, gap, after)
    ensures var start := i + |space|;
      var name := start + |PrefixText(prefix)|;
      && SpellsAt(text, i, space) && SpellsAt(text, start, PrefixText(prefix))
      && SpellsAt(text, name, key) && SpellsAt(text, name + |key|, gap) && after == name + |key| + |gap|
    ensures WritableHead(space, prefix, key, gap)
  {
    hide SpellsAt, PrefixText, WritableHead, StopsKey, IsKey, Blanks, IsBlank, IsKeyChar;
  }

  lemma NoNewlines(space: string, prefix: Option<string>, key: string, gap: string)
    requires WritableHead(space, prefix, key, gap)
    ensures '\n' !in space && '\n' !in PrefixText(prefix) && '\n' !in key && '\n' !in gap
  {
    HashIsNoSpace();
    hide IsSpace, IsNameStart, IsKeyChar, IsBlank;
    assert '\n' !in EXPORT;
  }

  lemma AssignmentReads(text: string, i: nat, line: Line) returns (start: nat)
    requires line.Entry? && Writable(line) && line.value.Some? && SpellsAt(text, i, LineText(line))
    ensures i < |text| && ItemAt(text, i) == Assignment(line.key, start)
    ensures SpellsAt(text, start, ValueText(line.value.value))
    ensures start + |ValueText(line.value.value)| == i + |LineText(line)|
  {
    hide *;
    AssignedParts(line);
    var after := EntryIsThere(text, i, line.space, line.prefix, line.key, line.gap, EntryRest(line.value));
    start := after + 1;
    AssignedRest(text, after, line.value);
    EntryItem(text, i, line.space, line.prefix, line.key, line.gap, after);
    AssignedItem(text, i, line.key, after);
  }

  lemma AssignedItem(text: string, i: nat, key: string, after: nat)
    requires i <= |text| && after <= |text| && SpellsAt(text, after, "=")
    ensures EntryItemAt(text, i, key, after) == Assignment(key, after + 1)
  {
  }

  lemma AssignedRest(text: string, after: nat, value: Option<Written>)
    requires value.Some? && SpellsAt(text, after, EntryRest(value))
    ensures SpellsAt(text, after, "=") && SpellsAt(text, after + 1, ValueText(value.value))
    ensures |EntryRest(value)| == 1 + |ValueText(value.value)|
  {
    hide SpellsAt, ValueText;
    SpelledAt(text, after, "=", ValueText(value.value));
  }

  lemma AssignedParts(line: Line)
    requires line.Entry? && Writable(line) && line.value.Some?
    ensures WritableHead(line.space, line.prefix, line.key, line.gap)
    ensures EntryRest(line.value) != "" && StopsKey(line.prefix, line.key, line.gap, EntryRest(line.value)[0])
    ensures LineText(line) == EntryText(line.space, line.prefix, line.key, line.gap, EntryRest(line.value))
  {
    EqualsStopsKey(line.prefix, line.key, line.gap);
    hide WritableHead, WritableValue, EntryText, ValueText, StopsKey;
  }

  lemma EqualsStopsKey(prefix: Option<string>, key: string, gap: string)
    ensures StopsKey(prefix, key, gap, '=') && StopsKey(prefix, key, gap, '\n')
  {
  }

  /** The rest of an entry's line, when it is not an assignment. */
  lemma RestReads(text: string, i: nat, space: string, prefix: Option<string>, key: string, gap: string, after: nat, extra: string)
    requires EntryStands(text, i, space, prefix, key, gap, after) && SpellsAt(text, after, extra + "\n")
    requires '\n' !in extra && (extra != "" ==> extra[0] != '=')
    ensures i < |text| && RestOfLine(text, i) == after + |extra| + 1
    ensures ItemAt(text, i) == if Strip(extra + "\n") == "" then Bare(key) else Nothing
  {
    hide *;
    EntryItem(text, i, space, prefix, key, gap, after);
    HeadOnLine(text, i, space, prefix, key, gap, after);
    SpelledAt(text, after, extra, "\n");
    PartOfLine(text, after, extra);
    LineGoesOn(text, i, after, after + |extra|);
    LineEnds(text, i, after + |extra|);
    RestItem(text, i, key, after, extra);
  }

  lemma RestItem(text: string, i: nat, key: string, after: nat, extra: string)
    requires i <= |text| && SpellsAt(text, after, extra + "\n") && (extra != "" ==> extra[0] != '=')
    requires RestOfLine(text, i) == after + |extra| + 1
    ensures after <= |text|
    ensures EntryItemAt(text, i, key, after) == if Strip(extra + "\n") == "" then Bare(key) else Nothing
  {
    hide Strip, RestOfLine, SpellsAt, Slice;
    RestIs(text, after, extra);
  }

  lemma RestIs(text: string, after: nat, extra: string)
    requires SpellsAt(text, after, extra + "\n") && (extra != "" ==> extra[0] != '=')
    ensures after + |extra| + 1 <= |text| && Slice(text, after, after + |extra| + 1) == extra + "\n"
    ensures !SpellsAt(text, after, "=")
  {
    SpelledTo(text, after, extra + "\n", 0, (extra + "\n")[0]);
  }

  lemma BareReads(text: string, i: nat, line: Line)
    requires line.Entry? && Writable(line) && line.value.None? && SpellsAt(text, i, LineText(line))
    ensures i < |text| && ItemAt(text, i) == Bare(line.key) && RestOfLine(text, i) == i + |LineText(line)|
  {
    hide *;
    BareParts(line);
    NewlineStrips();
    var after := EntryIsThere(text, i, line.space, line.prefix, line.key, line.gap, "\n");
    RestReads(text, i, line.space, line.prefix, line.key, line.gap, after, "");
  }

  lemma BareParts(line: Line)
    requires line.Entry? && Writable(line) && line.value.None?
    ensures WritableHead(line.space, line.prefix, line.key, line.gap) && StopsKey(line.prefix, line.key, line.gap, '\n')
    ensures LineText(line) == EntryText(line.space, line.prefix, line.key, line.gap, "\n")
  {
    hide WritableHead, EntryText, StopsKey;
    EqualsStopsKey(line.prefix, line.key, line.gap);
  }

  lemma NewlineStrips()
    ensures "" + "\n" == "\n" && Strip("\n") == ""
  {
    SpacesStripToNothing("\n");
  }

  lemma ExtraReads(text: string, i: nat, line: Line)
    requires line.Extra? && Writable(line) && SpellsAt(text, i, LineText(line))
    ensures i < |text| && ItemAt(text, i) == Nothing && RestOfLine(text, i) == i + |LineText(line)|
  {
    hide *;
    ExtraParts(line);
    var after := EntryIsThere(text, i, line.space, line.prefix, line.key, line.gap, line.text + "\n");
    RestReads(text, i, line.space, line.prefix, line.key, line.gap, after, line.text);
  }

  lemma ExtraParts(line: Line)
    requires line.Extra? && Writable(line)
    ensures WritableHead(line.space, line.prefix, line.key, line.gap)
    ensures line.text + "\n" != "" && StopsKey(line.prefix, line.key, line.gap, (line.text + "\n")[0])
    ensures LineText(line) == EntryText(line.space, line.prefix, line.key, line.gap, line.text + "\n")
    ensures '\n' !in line.text && (line.text != "" ==> line.text[0] != '=')
    ensures Strip(line.text + "\n") != ""
  {
    hide WritableHead, EntryText, StopsKey, IsSpace, Strip;
    VisibleExtra(line.text);
  }

  lemma VisibleExtra(extra: string)
    requires exists k :: 0 <= k < |extra| && !IsSpace(extra[k])
    ensures Strip(extra + "\n") != ""
  {
    var k :| 0 <= k < |extra| && !IsSpace(extra[k]);
    var whole := extra + "\n";
    assert whole[k] == extra[k];
    hide IsSpace;
    VisibleStrips(whole, k);
  }

  lemma {:induction false} VisibleStrips(text: string, k: nat)
    requires k < |text| && !IsSpace(text[k])
    ensures Strip(text) != ""
    decreases k
  {
    if !IsSpace(text[0]) {
      StripRightKeepsStart(text);
    } else {
      VisibleStrips(text[1..], k - 1);
    }
  }

  /** One written line is one step of the parser, with the meaning of the line. */
  lemma LineReads(text: string, i: nat, line: Line, values: EnvValues, environ: map<string, string>)
    requires Writable(line) && SpellsAt(text, i, LineText(line)) && i < |text|
    ensures Step(text, i, values, environ) == Ok(Progress(i + |LineText(line)|, Apply(values, line, environ)))
  {
    hide SpellsAt, ItemAt, ValueAt, Expand, RestOfLine, WritableValue, StopsKey, IsSpace, WritableHead, Spaces, IsNameStart,
         PrefixText, EntryText, ValueText;
    match line
    case Blank(space) => BlankReads(text, i, space);
    case Comment(space, comment) => CommentReads(text, i, space, comment);
    case Stray(space, stray) => StrayReads(text, i, space, stray);
    case Extra(_, _, _, _, _) => ExtraReads(text, i, line);
    case Entry(space, prefix, key, gap, value) =>
      if value.Some? {
        var start := AssignmentReads(text, i, line);
        ValueReads(text, start, value.value);
      } else {
        BareReads(text, i, line);
      }
  }
}

/**
 Reading inverts writing: any file of written lines parses back to exactly the variables they set,
 whatever quoting, spacing and comments they are written with.
 */
module EnvRoundTrip {
  import opened Wrappers
  import opened EnvParser
  import opened EnvTemplates
  import opened EnvLines
  import opened EnvReading

  // ---------------------------------------------------------------- reading a file

  ghost predicate WritableFile(lines: seq<Line>) {
    forall i :: 0 <= i < |lines| ==> Writable(lines[i])
  }

  lemma LineIsThere(text: string, i: nat, line: Line, rest: string)
    requires i <= |text| && text[i..] == LineText(line) + rest
    ensures i < |text| && SpellsAt(text, i, LineText(line))
    ensures text[i + |LineText(line)|..] == rest
  {
    var own := LineText(line);
    assert |own| > 0;
    assert text[i..][..|own|] == own;
    assert text[i..][|own|..] == rest;
  }

  /** Written lines are read one after the other, whatever follows them. */
  lemma {:induction false} LinesRead(lines: seq<Line>, n: nat, text: string, i: nat, tail: string, environ: map<string, string>)
    requires WritableFile(lines) && n <= |lines|
    requires i <= |text| && text[i..] == Render(lines[n..]) + tail
    ensures |tail| <= |text| && text[|text| - |tail|..] == tail
    ensures ParseFrom(text, i, AfterLines(lines, n, environ), environ) ==
            ParseFrom(text, |text| - |tail|, AfterLines(lines, |lines|, environ), environ)
    decreases |lines| - n
  {
    hide Step, LineText, Writable, Apply, SpellsAt, ParseFrom;
    if n == |lines| {
      assert text[i..] == tail;
    } else {
      var line, rest := lines[n], lines[n + 1..];
      assert lines[n..][0] == line && lines[n..][1..] == rest;
      assert text[i..] == LineText(line) + (Render(rest) + tail);
      LineIsThere(text, i, line, Render(rest) + tail);
      LineReads(text, i, line, AfterLines(lines, n, environ), environ);
      ParseTurn(text, i, AfterLines(lines, n, environ), environ);
      LinesRead(lines, n + 1, text, i + |LineText(line)|, tail, environ);
    }
  }

  /**
   Any file of well-written lines parses, to exactly what its lines mean one after the other: literal,
   escaped and plain values, references, bare keys, repeated keys, comments, and lines without meaning.
   */
  lemma ParseOfRender(lines: seq<Line>, environ: map<string, string>)
    requires WritableFile(lines)
    ensures Parse(Render(lines), environ) == Ok(AfterLines(lines, |lines|, environ))
  {
    assert lines[0..] == lines;
    var text := Render(lines);
    assert text[0..] == text == text + "";
    LinesRead(lines, 0, text, 0, "", environ);
    ParseEnd(text, AfterLines(lines, |lines|, environ), environ);
  }

  // ---------------------------------------------------------------- the order of the variables

  ghost predicate Mentions(lines: seq<Line>, n: nat, key: string)
    requires n <= |lines|
  {
    exists k :: 0 <= k < n && lines[k].Entry? && lines[k].key == key
  }

  /** Some line names `a`, and no line up to it names `b`. */
  ghost predicate MentionedBefore(lines: seq<Line>, n: nat, a: string, b: string)
    requires n <= |lines|
  {
    exists k :: 0 <= k < n && lines[k].Entry? && lines[k].key == a && !Mentions(lines, k + 1, b)
  }

  lemma MentionsMore(lines: seq<Line>, n: nat, key: string)
    requires n < |lines|
    ensures Mentions(lines, n + 1, key) <==> Mentions(lines, n, key) || (lines[n].Entry? && lines[n].key == key)
  {
  }

  lemma MentionedBeforeMore(lines: seq<Line>, n: nat, a: string, b: string)
    requires n < |lines| && MentionedBefore(lines, n, a, b)
    ensures MentionedBefore(lines, n + 1, a, b)
  {
    hide Mentions;
  }

  lemma FirstMention(lines: seq<Line>, n: nat, a: string, b: string)
    requires n < |lines| && Mentions(lines, n, a) && !Mentions(lines, n, b)
    ensures MentionedBefore(lines, n + 1, a, b)
  {
    var k :| 0 <= k < n && lines[k].Entry? && lines[k].key == a;
    assert !Mentions(lines, k + 1, b);
  }

  /** The variables of a file are its keys, each once, in the order in which it first names them. */
  lemma {:induction false} OrderOfFirstMention(lines: seq<Line>, n: nat, environ: map<string, string>)
    requires n <= |lines|
    ensures var after := AfterLines(lines, n, environ);
      && (forall key :: key in after.values <==> key in after.order)
      && (forall key :: key in after.order <==> Mentions(lines, n, key))
      && (forall i, j :: 0 <= i < j < |after.order| ==>
            after.order[i] != after.order[j] && MentionedBefore(lines, n, after.order[i], after.order[j]))
  {
    hide Mentions, MentionedBefore, SetTo;
    if n == 0 {
      NoMention(lines);
    } else {
      OrderOfFirstMention(lines, n - 1, environ);
      var before := AfterLines(lines, n - 1, environ);
      var after := AfterLines(lines, n, environ);
      forall key ensures key in after.order <==> Mentions(lines, n, key) {
        MentionsMore(lines, n - 1, key);
      }
      forall i, j | 0 <= i < j < |after.order|
        ensures after.order[i] != after.order[j] && MentionedBefore(lines, n, after.order[i], after.order[j])
      {
        if j < |before.order| {
          MentionedBeforeMore(lines, n - 1, before.order[i], before.order[j]);
        } else {
          assert after.order[i] == before.order[i];
          assert after.order[i] in before.order;
          FirstMention(lines, n - 1, after.order[i], after.order[j]);
        }
      }
    }
  }

  lemma NoMention(lines: seq<Line>)
    ensures forall key :: !Mentions(lines, 0, key)
  {
  }

  // ---------------------------------------------------------------- quoted files

  ghost predicate Assigns(line: Line) {
    line.Entry? && line.value.Some? && (line.value.value.style != Single ==> NoReference(line.value.value.text))
  }

  /** Assignments without references to keys that do not repeat. */
  ghost predicate PlainMap(lines: seq<Line>) {
    && (forall i :: 0 <= i < |lines| ==> Assigns(lines[i]))
    && (forall i, j :: 0 <= i < j < |lines| ==> lines[i].key != lines[j].key)
  }

  lemma AssignsText(values: EnvValues, line: Line, environ: map<string, string>)
    requires Assigns(line)
    ensures Apply(values, line, environ) == values.Put(line.key, Some(line.value.value.text))
  {
    hide NoReference, Expand;
    if line.value.value.style != Single {
      ExpandsToItself(line.value.value.text, values.values, environ);
    }
  }

  /** The first `n` lines have set exactly their keys, in order, to the texts written. */
  ghost predicate SetInOrder(after: EnvValues, lines: seq<Line>, n: nat)
    requires n <= |lines| && forall i :: 0 <= i < |lines| ==> lines[i].Entry? && lines[i].value.Some?
  {
    && |after.order| == n
    && (forall i :: 0 <= i < n ==> after.order[i] == lines[i].key)
    && (forall i :: 0 <= i < n ==>
          lines[i].key in after.values && after.values[lines[i].key] == Some(lines[i].value.value.text))
    && (forall key :: key in after.values ==> key in after.order)
  }

  lemma PutInOrder(before: EnvValues, lines: seq<Line>, n: nat)
    requires PlainMap(lines) && n < |lines| && SetInOrder(before, lines, n)
    ensures SetInOrder(before.Put(lines[n].key, Some(lines[n].value.value.text)), lines, n + 1)
  {
    hide NoReference;
    assert lines[n].key !in before.values;
  }

  lemma {:induction false} LinesInOrder(lines: seq<Line>, n: nat, environ: map<string, string>)
    requires PlainMap(lines) && n <= |lines|
    ensures SetInOrder(AfterLines(lines, n, environ), lines, n)
  {
    hide NoReference, Apply;
    if n > 0 {
      LinesInOrder(lines, n - 1, environ);
      hide SetInOrder;
      AssignsText(AfterLines(lines, n - 1, environ), lines[n - 1], environ);
      PutInOrder(AfterLines(lines, n - 1, environ), lines, n - 1);
    }
  }

  /** Round trip: such a file parses back to exactly the ordered map of the values written. */
  lemma QuotedFileReadsBack(lines: seq<Line>, environ: map<string, string>)
    requires WritableFile(lines) && PlainMap(lines)
    ensures Parse(Render(lines), environ).Ok?
    ensures var read := Parse(Render(lines), environ).value;
      && |read.order| == |lines| && read.values.Keys == (set i | 0 <= i < |lines| :: lines[i].key)
      && forall i :: 0 <= i < |lines| ==>
           read.order[i] == lines[i].key && read.values[lines[i].key] == Some(lines[i].value.value.text)
  {
    hide Parse, AfterLines, NoReference;
    ParseOfRender(lines, environ);
    LinesInOrder(lines, |lines|, environ);
  }
}

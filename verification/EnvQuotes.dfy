/** Quoted values: every escape of a double-quoted text, and quotes that are never closed. */
module EnvQuotes {
  import opened Wrappers
  import opened EnvParser
  import opened EnvTemplates
  import opened EnvLines
  import opened EnvReading
  import opened EnvRoundTrip
  import opened EnvDialect

  /** What the character behind a backslash stands for. */
  const ESCAPES: map<char, char> :=
    map['n' := '\n', 't' := '\t', 'r' := '\r', 'a' := '\U{7}', 'b' := '\U{8}', 'f' := '\U{C}', 'v' := '\U{B}',
        '"' := '"', '\'' := '\'', '\\' := '\\']

  /** A character as it is, or one behind a backslash. */
  datatype Unit = Raw(c: char) | Escape(c: char)

  predicate IsUnit(unit: Unit) {
    unit.Raw? ==> unit.c != '\\' && unit.c != '"'
  }

  ghost predicate AllUnits(units: seq<Unit>) {
    forall k :: 0 <= k < |units| ==> IsUnit(units[k])
  }

  function UnitText(unit: Unit): string {
    if unit.Raw? then [unit.c] else ['\\', unit.c]
  }

  /** An escape that is none keeps its backslash. */
  function UnitMeans(unit: Unit): string {
    if unit.Raw? then [unit.c]
    else if unit.c in ESCAPES then [ESCAPES[unit.c]]
    else ['\\', unit.c]
  }

  function UnitsText(units: seq<Unit>): string {
    if units == [] then "" else UnitText(units[0]) + UnitsText(units[1..])
  }

  function UnitsMean(units: seq<Unit>): string {
    if units == [] then "" else UnitMeans(units[0]) + UnitsMean(units[1..])
  }

  lemma EscapeMeans(c: char)
    ensures Unescaped(c) == UnitMeans(Escape(c))
  {
  }

  lemma UnitReads(text: string, i: nat, out: string, unit: Unit, rest: string)
    requires IsUnit(unit) && i <= |text| && text[i..] == UnitText(unit) + rest
    ensures i + |UnitText(unit)| <= |text| && text[i + |UnitText(unit)|..] == rest
    ensures DoubleQuotedFrom(text, i, out) == DoubleQuotedFrom(text, i + |UnitText(unit)|, out + UnitMeans(unit))
  {
    hide Unescaped, UnitMeans;
    assert text[i] == text[i..][0];
    assert text[i + |UnitText(unit)|..] == text[i..][|UnitText(unit)|..];
    if unit.Escape? {
      assert text[i + 1] == text[i..][1];
      EscapeMeans(unit.c);
    } else {
      RawMeans(unit.c);
    }
  }

  lemma RawMeans(c: char)
    ensures UnitMeans(Raw(c)) == [c]
  {
  }

  /** Any text of characters and escapes is read as what they mean, up to whatever follows it. */
  lemma {:induction false} UnitsRead(text: string, i: nat, out: string, units: seq<Unit>, rest: string)
    requires AllUnits(units) && i <= |text| && text[i..] == UnitsText(units) + rest
    ensures |rest| <= |text| && text[|text| - |rest|..] == rest
    ensures DoubleQuotedFrom(text, i, out) == DoubleQuotedFrom(text, |text| - |rest|, out + UnitsMean(units))
    decreases |units|
  {
    hide DoubleQuotedFrom, UnitText, UnitMeans, IsUnit;
    if units == [] {
      assert text[i..] == rest && out + "" == out;
    } else {
      var more := UnitsText(units[1..]) + rest;
      assert text[i..] == UnitText(units[0]) + more;
      UnitReads(text, i, out, units[0], more);
      UnitsRead(text, i + |UnitText(units[0])|, out + UnitMeans(units[0]), units[1..], rest);
      assert out + UnitMeans(units[0]) + UnitsMean(units[1..]) == out + UnitsMean(units);
    }
  }

  // ---------------------------------------------------------------- an assignment in double quotes

  /** `KEY="..."` */
  function QuotedAssignment(key: string, units: seq<Unit>): string {
    key + ("=" + ("\"" + (UnitsText(units) + "\"\n")))
  }

  lemma OpensQuote(text: string, i: nat, quote: char, rest: string)
    requires SpellsAt(text, i, [quote] + rest) && i + 1 + |rest| == |text| && !IsBlank(quote)
    ensures i < |text| && text[i] == quote && SkipBlanks(text, i) == i && text[i + 1..] == rest
  {
    SpelledAt(text, i, [quote], rest);
    SpelledTo(text, i, [quote], 0, quote);
  }

  lemma ClosesLine(text: string, out: string)
    requires |text| >= 2 && text[|text| - 2..] == "\"\n"
    ensures DoubleQuotedFrom(text, |text| - 2, out) == Ok(Scanned(out, true, |text| - 1))
    ensures RestOfLine(text, |text| - 1) == |text|
  {
    assert text[|text| - 2] == text[|text| - 2..][0] && text[|text| - 1] == text[|text| - 2..][1];
  }

  /** A double-quoted value is what its characters and escapes mean, with its references expanded. */
  lemma EscapesMean(key: string, units: seq<Unit>, environ: map<string, string>)
    requires IsKey(key) && AllUnits(units)
    ensures Parse(QuotedAssignment(key, units), environ) ==
            Ok(EnvValues([key], map[key := Some(Expand(UnitsMean(units), map[], environ))]))
  {
    hide SpellsAt, ItemAt, Parse, Expand, DoubleQuotedFrom, UnitsText, UnitsMean, IsUnit, IsKey, RestOfLine, SkipBlanks;
    var text, start, rest := QuotedAssignment(key, units), |key| + 1, UnitsText(units) + "\"\n";
    assert "\"" + rest == ['"'] + rest;
    KeyAndEquals(text, key, ['"'] + rest);
    OpensQuote(text, start, '"', rest);
    UnitsRead(text, start + 1, "", units, "\"\n");
    assert "" + UnitsMean(units) == UnitsMean(units);
    ClosesLine(text, UnitsMean(units));
    DoubleValue(text, start, UnitsMean(units), |text| - 1);
    OneAssignment(text, key, start, environ);
  }

  // ---------------------------------------------------------------- quotes that are never closed

  /** The text ends within the quotes, or with a backslash behind which nothing stands. */
  lemma NeverClosed(text: string, i: nat, out: string)
    requires i <= |text| && (text[i..] == "" || text[i..] == "\\")
    ensures DoubleQuotedFrom(text, i, out) == Err(UnterminatedDoubleQuote)
  {
    assert i < |text| ==> text[i] == text[i..][0];
  }

  lemma NoQuote(text: string, i: nat, c: char)
    requires i <= |text| && c !in text[i..]
    ensures Find(text, c, i) == |text|
  {
    forall k | i <= k < |text| ensures text[k] != c {
      assert text[k] == text[i..][k - i];
    }
  }

  /** No quote of the kind, or none but escaped ones. */
  ghost predicate NeverCloses(quote: char, rest: string) {
    || (quote == '\'' && '\'' !in rest)
    || (quote == '"' && exists units, last :: AllUnits(units) && rest == UnitsText(units) + last && last in {"", "\\"})
  }

  /** An entry whose quote is never closed, at any place of a file. */
  lemma UnclosedValue(text: string, i: nat, quote: char, rest: string)
    requires i <= |text| && SpellsAt(text, i, [quote] + rest) && i + 1 + |rest| == |text|
    requires NeverCloses(quote, rest)
    ensures ValueAt(text, i) == Err(if quote == '"' then UnterminatedDoubleQuote else UnterminatedSingleQuote)
  {
    hide SpellsAt, DoubleQuotedFrom, UnitsText, IsUnit, Find, SkipBlanks;
    OpensQuote(text, i, quote, rest);
    if quote == '"' {
      var units, last :| AllUnits(units) && rest == UnitsText(units) + last && last in {"", "\\"};
      UnitsRead(text, i + 1, "", units, last);
      NeverClosed(text, |text| - |last|, "" + UnitsMean(units));
    } else {
      NoQuote(text, i + 1, '\'');
    }
  }

  /** A file in which a quote is never closed is refused as such, whatever written lines stand before it. */
  lemma UnclosedQuoteIsRefused(lines: seq<Line>, key: string, quote: char, rest: string,
                               environ: map<string, string>)
    requires WritableFile(lines) && IsKey(key)
    requires NeverCloses(quote, rest)
    ensures Parse(Render(lines) + (key + ("=" + ([quote] + rest))), environ) ==
            Err(if quote == '"' then UnterminatedDoubleQuote else UnterminatedSingleQuote)
  {
    hide SpellsAt, ItemAt, ParseFrom, UnitsText, IsUnit, IsKey, ValueAt, Render, WritableFile, AfterLines;
    var tail := key + ("=" + ([quote] + rest));
    var text := Render(lines) + tail;
    assert lines[0..] == lines && text[0..] == text;
    LinesRead(lines, 0, text, 0, tail, environ);
    var i, values := |text| - |tail|, AfterLines(lines, |lines|, environ);
    LastEntry(text, i, key, [quote] + rest);
    UnclosedValue(text, i + |key| + 1, quote, rest);
    ParseTurn(text, i, values, environ);
    StartsEmpty(lines, environ);
  }

  lemma StartsEmpty(lines: seq<Line>, environ: map<string, string>)
    ensures AfterLines(lines, 0, environ) == NO_VALUES
  {
  }

  lemma LastEntry(text: string, i: nat, key: string, value: string)
    requires IsKey(key) && i <= |text| && text[i..] == key + ("=" + value)
    ensures i < |text| && ItemAt(text, i) == Assignment(key, i + |key| + 1)
    ensures SpellsAt(text, i + |key| + 1, value) && i + |key| + 1 + |value| == |text|
  {
    hide ItemAt, IsKey, SpellsAt;
    WholeRest(text, i, key + ("=" + value));
    SpelledAt(text, i, key, "=" + value);
    SpelledAt(text, i + |key|, "=", value);
    SpelledTo(text, i + |key|, "=", 0, '=');
    HeadAt(text, i, key);
    EntryItem(text, i, "", None, key, "", i + |key|);
    AssignedItem(text, i, key, i + |key|);
  }

  lemma WholeRest(text: string, i: nat, rest: string)
    requires i <= |text| && text[i..] == rest
    ensures SpellsAt(text, i, rest) && i + |rest| == |text|
  {
    assert text[i..i + |rest|] == text[i..];
  }

  lemma HeadAt(text: string, i: nat, key: string)
    requires IsKey(key) && SpellsAt(text, i, key) && i + |key| < |text| && text[i + |key|] == '='
    ensures EntryStands(text, i, "", None, key, "", i + |key|)
  {
  }
}

/** The lines of a `.env` file as its author thinks of them, how they are written, and what they mean. */
module EnvLines {
  import opened Wrappers
  import opened Strings
  import opened EnvParser

  datatype Style = Single | Double | Plain

  /** A value as written: blanks after `=`, a style, and whatever else stands on its last line. */
  datatype Written = Written(blanks: string, style: Style, text: string, tail: string)

  /**
   A line, or several when a quoted value spans lines. Without a value, an entry is a bare key. A stray
   line starts with what is no key; an extra one has text other than `=` behind its key.
   */
  datatype Line =
    | Blank(space: string)
    | Comment(space: string, text: string)
    | Entry(space: string, prefix: Option<string>, key: string, gap: string, value: Option<Written>)
    | Stray(space: string, text: string)
    | Extra(space: string, prefix: Option<string>, key: string, gap: string, text: string)

  // ---------------------------------------------------------------- what can be written

  predicate IsKey(key: string) {
    key != "" && IsNameStart(key[0]) && forall i :: 0 <= i < |key| ==> IsKeyChar(key[i])
  }

  predicate Blanks(text: string) {
    forall i :: 0 <= i < |text| ==> IsBlank(text[i])
  }

  predicate Spaces(text: string) {
    forall i :: 0 <= i < |text| ==> IsSpace(text[i]) && text[i] != '\n'
  }

  /** No inline comment starts within the text. */
  predicate NoComment(text: string) {
    forall i :: 0 <= i < |text| - 1 ==> !(IsSpace(text[i]) && text[i + 1] == '#')
  }

  /** What may follow an unquoted value: spaces, and after at least one of them a comment. */
  ghost predicate PlainTail(tail: string, n: nat) {
    && '\n' !in tail && n <= |tail| && Spaces(tail[..n])
    && (n < |tail| ==> n > 0 && tail[n] == '#')
  }

  /** An unquoted value is trimmed and does not start with a quote; behind an empty one stands no blank. */
  ghost predicate WritablePlain(text: string, tail: string) {
    && Stripped(text) && '\n' !in text && NoComment(text)
    && (text == "" && tail != "" ==> !IsBlank(tail[0]))
    && (text != "" ==> text[0] != '\'' && text[0] != '"')
    && exists n: nat :: PlainTail(tail, n)
  }

  ghost predicate WritableValue(value: Written) {
    Blanks(value.blanks) &&
    match value.style
    case Single => '\'' !in value.text && '\n' !in value.tail
    case Double => '\n' !in value.tail
    case Plain => WritablePlain(value.text, value.tail)
  }

  /** What may stand behind a key and its gap so that they are read as such. */
  predicate StopsKey(prefix: Option<string>, key: string, gap: string, next: char) {
    && !IsBlank(next)
    && (gap == "" ==> !IsKeyChar(next))
    && (prefix.None? && key == EXPORT && gap != "" ==> !IsNameStart(next))
  }

  ghost predicate WritableHead(space: string, prefix: Option<string>, key: string, gap: string) {
    && Spaces(space) && IsKey(key) && Blanks(gap)
    && (prefix.Some? ==> prefix.value != "" && Blanks(prefix.value))
  }

  ghost predicate Writable(line: Line) {
    match line
    case Blank(space) => Spaces(space)
    case Comment(space, text) => Spaces(space) && '\n' !in text
    case Entry(space, prefix, key, gap, value) =>
      WritableHead(space, prefix, key, gap) && (value.Some? ==> WritableValue(value.value))
    case Stray(space, text) =>
      && Spaces(space) && '\n' !in text
      && text != "" && !IsSpace(text[0]) && text[0] != '#' && !IsNameStart(text[0])
    case Extra(space, prefix, key, gap, text) =>
      && WritableHead(space, prefix, key, gap) && '\n' !in text
      && text != "" && StopsKey(prefix, key, gap, text[0]) && text[0] != '='
      && exists k :: 0 <= k < |text| && !IsSpace(text[k])
  }

  // ---------------------------------------------------------------- how it is written

  function EscapedChar(c: char): string {
    if c == '\\' || c == '"' then ['\\', c] else [c]
  }

  /** Backslashes and double quotes escaped; everything else, newlines included, as it is. */
  function Escaped(value: string): string {
    if value == "" then "" else EscapedChar(value[0]) + Escaped(value[1..])
  }

  function Quoted(value: Written): string {
    match value.style
    case Single => "'" + (value.text + "'")
    case Double => "\"" + (Escaped(value.text) + "\"")
    case Plain => value.text
  }

  function ValueText(value: Written): string {
    value.blanks + (Quoted(value) + (value.tail + "\n"))
  }

  function PrefixText(prefix: Option<string>): string {
    if prefix.Some? then EXPORT + prefix.value else ""
  }

  function EntryText(space: string, prefix: Option<string>, key: string, gap: string, rest: string): string {
    space + (PrefixText(prefix) + (key + (gap + rest)))
  }

  /** What follows the key of an entry. */
  function EntryRest(value: Option<Written>): string {
    if value.Some? then "=" + ValueText(value.value) else "\n"
  }

  function LineText(line: Line): string {
    match line
    case Blank(space) => space + "\n"
    case Comment(space, text) => space + ("#" + (text + "\n"))
    case Entry(space, prefix, key, gap, value) => EntryText(space, prefix, key, gap, EntryRest(value))
    case Stray(space, text) => space + (text + "\n")
    case Extra(space, prefix, key, gap, text) => EntryText(space, prefix, key, gap, text + "\n")
  }

  function Render(lines: seq<Line>): string {
    if lines == [] then "" else LineText(lines[0]) + Render(lines[1..])
  }

  // ---------------------------------------------------------------- what it means

  /** The value an entry sets: literal in single quotes, else expanded against what is defined so far. */
  function SetTo(value: Written, values: EnvValues, environ: map<string, string>): string {
    if value.style == Single then value.text else Expand(value.text, values.values, environ)
  }

  function Apply(values: EnvValues, line: Line, environ: map<string, string>): EnvValues {
    match line
    case Blank(_) => values
    case Comment(_, _) => values
    case Stray(_, _) => values
    case Extra(_, _, _, _, _) => values
    case Entry(_, _, key, _, value) =>
      values.Put(key, if value.Some? then Some(SetTo(value.value, values, environ)) else None)
  }

  /** The variables after the first `n` lines. */
  function AfterLines(lines: seq<Line>, n: nat, environ: map<string, string>): EnvValues
    requires n <= |lines|
  {
    if n == 0 then NO_VALUES else Apply(AfterLines(lines, n - 1, environ), lines[n - 1], environ)
  }
}

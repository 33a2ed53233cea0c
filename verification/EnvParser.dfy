/** The `.env` dialect: an index-driven scanner with quoting, escapes and multi-line values. */
module EnvParser {
  import opened Wrappers
  import opened Strings

  datatype EnvError = UnterminatedSingleQuote | UnterminatedDoubleQuote

  /** An ordered dict of variables; None for a bare key. */
  datatype EnvValues = EnvValues(order: seq<string>, values: map<string, Option<string>>) {
    function Put(key: string, value: Option<string>): EnvValues {
      EnvValues(if key in values then order else order + [key], values[key := value])
    }
  }

  const NO_VALUES: EnvValues := EnvValues([], map[])

  // ---------------------------------------------------------------- scanning

  /** The first position of `c` from `i` on, or the end of the text. */
  function Find(text: string, c: char, i: nat): (at: nat)
    requires i <= |text|
    ensures i <= at <= |text|
    ensures at < |text| ==> text[at] == c
    ensures forall k :: i <= k < at ==> text[k] != c
    decreases |text| - i
  {
    if i == |text| || text[i] == c then i else Find(text, c, i + 1)
  }

  /** The index after the line that `i` lies on. */
  function RestOfLine(text: string, i: nat): (end: nat)
    requires i <= |text|
    ensures i <= end <= |text|
    ensures i < |text| ==> i < end
  {
    var at := Find(text, '\n', i);
    if at == |text| then |text| else at + 1
  }

  predicate IsBlank(c: char) {
    c == ' ' || c == '\t'
  }

  function SkipBlanks(text: string, i: nat): (at: nat)
    requires i <= |text|
    ensures i <= at <= |text|
    ensures at < |text| ==> !IsBlank(text[at])
    decreases |text| - i
  {
    if i < |text| && IsBlank(text[i]) then SkipBlanks(text, i + 1) else i
  }

  predicate IsNameStart(c: char) {
    'A' <= c <= 'Z' || 'a' <= c <= 'z' || c == '_'
  }

  predicate IsNameChar(c: char) {
    IsNameStart(c) || IsDigit(c)
  }

  predicate IsKeyChar(c: char) {
    IsNameChar(c) || c == '.' || c == '-'
  }

  function KeyEnd(text: string, i: nat): (at: nat)
    requires i <= |text|
    ensures i <= at <= |text|
    ensures forall k :: i <= k < at ==> IsKeyChar(text[k])
    ensures at < |text| ==> !IsKeyChar(text[at])
    decreases |text| - i
  {
    if i < |text| && IsKeyChar(text[i]) then KeyEnd(text, i + 1) else i
  }

  function NameEnd(text: string, i: nat): (at: nat)
    requires i <= |text|
    ensures i <= at <= |text|
    decreases |text| - i
  {
    if i < |text| && IsNameChar(text[i]) then NameEnd(text, i + 1) else i
  }

  predicate SpellsAt(text: string, i: nat, word: string) {
    i + |word| <= |text| && text[i..i + |word|] == word
  }

  datatype KeyMatch = KeyMatch(key: string, after: nat)

  const EXPORT := "export"

  /** Where the key starts: after an `export` prefix if a key follows it. */
  function KeyStart(text: string, i: nat): (start: nat)
    requires i <= |text|
    ensures i <= start <= |text|
  {
    if SpellsAt(text, i, EXPORT) && i + |EXPORT| < |text| && IsBlank(text[i + |EXPORT|]) then
      var start := SkipBlanks(text, i + |EXPORT|);
      if start < |text| && IsNameStart(text[start]) then start else i
    else i
  }

  /** The key at `i`, and the index after it and its trailing blanks. */
  function KeyAt(text: string, i: nat): (found: Option<KeyMatch>)
    requires i <= |text|
    ensures found.Some? ==> i < found.value.after <= |text|
  {
    var start := KeyStart(text, i);
    if start < |text| && IsNameStart(text[start]) then
      var end := KeyEnd(text, start);
      Some(KeyMatch(text[start..end], SkipBlanks(text, end)))
    else None
  }

  // ---------------------------------------------------------------- expansion

  datatype Reference = Reference(name: string, default: Option<string>, end: nat)

  /** A `${NAME}` or `${NAME:-default}` reference at `i`. */
  function ReferenceAt(value: string, i: nat): (found: Option<Reference>)
    requires i <= |value|
    ensures found.Some? ==> i < found.value.end <= |value|
  {
    if !SpellsAt(value, i, "${") || i + 2 == |value| || !IsNameStart(value[i + 2]) then None
    else
      var end := NameEnd(value, i + 2);
      var name := value[i + 2..end];
      if SpellsAt(value, end, "}") then Some(Reference(name, None, end + 1))
      else if SpellsAt(value, end, ":-") then
        var close := Find(value, '}', end + 2);
        if close < |value| then Some(Reference(name, Some(value[end + 2..close]), close + 1)) else None
      else None
  }

  /** What a reference stands for: a value of the same file, else of the environment, else its default. */
  function Lookup(reference: Reference, defined: map<string, Option<string>>, environ: map<string, string>): string {
    var found :=
      if reference.name in defined then defined[reference.name]
      else if reference.name in environ then Some(environ[reference.name])
      else None;
    match found
    case Some(value) => value
    case None => reference.default.GetOr("")
  }

  function ExpandFrom(value: string, i: nat, defined: map<string, Option<string>>, environ: map<string, string>): string
    requires i <= |value|
    decreases |value| - i
  {
    if i == |value| then ""
    else
      match ReferenceAt(value, i)
      case Some(reference) => Lookup(reference, defined, environ) + ExpandFrom(value, reference.end, defined, environ)
      case None => [value[i]] + ExpandFrom(value, i + 1, defined, environ)
  }

  function Expand(value: string, defined: map<string, Option<string>>, environ: map<string, string>): string {
    ExpandFrom(value, 0, defined, environ)
  }

  // ---------------------------------------------------------------- values

  function Unescaped(c: char): string {
    match c
    case 'n' => "\n"
    case 't' => "\t"
    case 'r' => "\r"
    case 'a' => "\U{7}"
    case 'b' => "\U{8}"
    case 'f' => "\U{C}"
    case 'v' => "\U{B}"
    case '"' => "\""
    case '\'' => "'"
    case '\\' => "\\"
    case _ => ['\\', c]
  }

  datatype Scanned = Scanned(value: string, expandable: bool, after: nat)

  /** The rest of a double-quoted string, after `out` has been read up to `i`. */
  function DoubleQuotedFrom(text: string, i: nat, out: string): (result: Result<Scanned, EnvError>)
    requires i <= |text|
    ensures result.Ok? ==> i < result.value.after <= |text|
    decreases |text| - i
  {
    if i == |text| then Err(UnterminatedDoubleQuote)
    else if text[i] == '\\' && i + 1 < |text| then DoubleQuotedFrom(text, i + 2, out + Unescaped(text[i + 1]))
    else if text[i] == '"' then Ok(Scanned(out, true, i + 1))
    else DoubleQuotedFrom(text, i + 1, out + [text[i]])
  }

  method DoubleQuoted(text: string, start: nat) returns (result: Result<Scanned, EnvError>)
    requires start < |text|
    ensures result == DoubleQuotedFrom(text, start + 1, "")
  {
    var out, i := "", start + 1;
    while i < |text|
      invariant start < i <= |text|
      invariant DoubleQuotedFrom(text, start + 1, "") == DoubleQuotedFrom(text, i, out)
    {
      var c := text[i];
      if c == '\\' && i + 1 < |text| {
        out, i := out + Unescaped(text[i + 1]), i + 2;
        continue;
      }
      if c == '"' {
        return Ok(Scanned(out, true, i + 1));
      }
      out, i := out + [c], i + 1;
    }
    return Err(UnterminatedDoubleQuote);
  }

  function StripLineEnd(text: string): string {
    if text != [] && (text[|text| - 1] == '\r' || text[|text| - 1] == '\n') then StripLineEnd(text[..|text| - 1]) else text
  }

  /** The start of the first inline comment (a space before `#`) from `i` on, or the end. */
  function CommentStart(raw: string, i: nat): (at: nat)
    requires i <= |raw|
    ensures i <= at <= |raw|
    decreases |raw| - i
  {
    if i == |raw| || (i + 1 < |raw| && IsSpace(raw[i]) && raw[i + 1] == '#') then i else CommentStart(raw, i + 1)
  }

  function Unquoted(text: string, i: nat): Scanned
    requires i <= |text|
  {
    var end := RestOfLine(text, i);
    var raw := StripLineEnd(text[i..end]);
    Scanned(Strip(raw[..CommentStart(raw, 0)]), true, end)
  }

  /** The value that starts at `i`, and the index after its last line. */
  function ValueAt(text: string, i: nat): (result: Result<Scanned, EnvError>)
    requires i <= |text|
    ensures result.Ok? ==> i <= result.value.after <= |text|
  {
    var start := SkipBlanks(text, i);
    if start < |text| && text[start] == '\'' then
      var close := Find(text, '\'', start + 1);
      if close == |text| then Err(UnterminatedSingleQuote)
      else Ok(Scanned(text[start + 1..close], false, RestOfLine(text, close + 1)))
    else if start < |text| && text[start] == '"' then
      match DoubleQuotedFrom(text, start + 1, "")
      case Ok(scanned) => Ok(scanned.(after := RestOfLine(text, scanned.after)))
      case Err(error) => Err(error)
    else Ok(Unquoted(text, start))
  }

  method Value(text: string, index: nat) returns (result: Result<Scanned, EnvError>)
    requires index <= |text|
    ensures result == ValueAt(text, index)
  {
    var i := index;
    while i < |text| && IsBlank(text[i])
      invariant index <= i <= |text|
      invariant SkipBlanks(text, index) == SkipBlanks(text, i)
    {
      i := i + 1;
    }
    if i < |text| && text[i] == '\'' {
      var close := Find(text, '\'', i + 1);
      if close == |text| {
        return Err(UnterminatedSingleQuote);
      }
      return Ok(Scanned(text[i + 1..close], false, RestOfLine(text, close + 1)));
    }
    if i < |text| && text[i] == '"' {
      var quoted := DoubleQuoted(text, i);
      if quoted.Err? {
        return quoted;
      }
      return Ok(quoted.value.(after := RestOfLine(text, quoted.value.after)));
    }
    return Ok(Unquoted(text, i));
  }

  // ---------------------------------------------------------------- lines

  /** What the line at `i` holds. */
  datatype Item =
    | Nothing
    | Bare(key: string)
    | Assignment(key: string, start: nat)

  /** `text[from:to]`, empty when the bounds cross */
  function Slice(text: string, from: nat, to: nat): string
    requires from <= |text| && to <= |text|
  {
    if from <= to then text[from..to] else ""
  }

  function ItemAt(text: string, i: nat): (item: Item)
    requires i < |text|
    ensures item.Assignment? ==> i < item.start <= |text|
  {
    var end := RestOfLine(text, i);
    var line := text[i..end];
    var stripped := Strip(line);
    StripLeftLength(line);
    var found := KeyAt(text, i + (|line| - |StripLeft(line)|));
    if stripped == "" || stripped[0] == '#' || found.None? then Nothing
    else if SpellsAt(text, found.value.after, "=") then Assignment(found.value.key, found.value.after + 1)
    else if Strip(Slice(text, found.value.after, end)) == "" then Bare(found.value.key)
    else Nothing
  }

  lemma {:induction false} StripLeftLength(text: string)
    ensures |StripLeft(text)| <= |text|
  {
    if text != [] && IsSpace(text[0]) {
      StripLeftLength(text[1..]);
    }
  }

  datatype Progress = Progress(index: nat, values: EnvValues)

  /** One turn of the parser: it always moves forward, or fails. */
  function Step(text: string, i: nat, values: EnvValues, environ: map<string, string>): (result: Result<Progress, EnvError>)
    requires i < |text|
    ensures result.Ok? ==> i < result.value.index <= |text|
  {
    match ItemAt(text, i)
    case Nothing => Ok(Progress(RestOfLine(text, i), values))
    case Bare(key) => Ok(Progress(RestOfLine(text, i), values.Put(key, None)))
    case Assignment(key, start) =>
      match ValueAt(text, start)
      case Err(error) => Err(error)
      case Ok(scanned) =>
        var value := if scanned.expandable then Expand(scanned.value, values.values, environ) else scanned.value;
        Ok(Progress(scanned.after, values.Put(key, Some(value))))
  }

  function ParseFrom(text: string, i: nat, values: EnvValues, environ: map<string, string>): Result<EnvValues, EnvError>
    requires i <= |text|
    decreases |text| - i
  {
    if i == |text| then Ok(values)
    else
      match Step(text, i, values, environ)
      case Err(error) => Err(error)
      case Ok(progress) => ParseFrom(text, progress.index, progress.values, environ)
  }

  function Parse(text: string, environ: map<string, string>): Result<EnvValues, EnvError> {
    ParseFrom(text, 0, NO_VALUES, environ)
  }

  /** One turn, as far as what it leads to is concerned. */
  lemma ParseTurn(text: string, i: nat, values: EnvValues, environ: map<string, string>)
    requires i < |text|
    ensures ParseFrom(text, i, values, environ) ==
            match Step(text, i, values, environ)
            case Err(error) => Err(error)
            case Ok(progress) => ParseFrom(text, progress.index, progress.values, environ)
  {
  }

  /** One turn of the scanning loop. */
  method Turn(text: string, index: nat, values: EnvValues, environ: map<string, string>)
    returns (result: Result<Progress, EnvError>)
    requires index < |text|
    ensures result == Step(text, index, values, environ)
  {
    hide Expand, RestOfLine, ValueAt, KeyAt, Strip, StripLeft;
    var end := RestOfLine(text, index);
    var line := text[index..end];
    var stripped := Strip(line);
    StripLeftLength(line);
    var found := KeyAt(text, index + (|line| - |StripLeft(line)|));
    if stripped == "" || stripped[0] == '#' || found.None? {
      return Ok(Progress(end, values));
    }
    var key, after := found.value.key, found.value.after;
    if SpellsAt(text, after, "=") {
      var scanned := Value(text, after + 1);
      if scanned.Err? {
        return Err(scanned.error);
      }
      var value := scanned.value.value;
      if scanned.value.expandable {
        value := Expand(value, values.values, environ);
      }
      return Ok(Progress(scanned.value.after, values.Put(key, Some(value))));
    }
    if Strip(Slice(text, after, end)) == "" {
      return Ok(Progress(end, values.Put(key, None)));
    }
    return Ok(Progress(end, values));
  }

  /** Parse `.env` text into ordered values; every turn advances, so every text is parsed or refused. */
  method ParseEnvText(text: string, environ: map<string, string>) returns (result: Result<EnvValues, EnvError>)
    ensures result == Parse(text, environ)
  {
    hide Step, ParseFrom;
    var values, index := NO_VALUES, 0;
    while index < |text|
      invariant index <= |text|
      invariant Parse(text, environ) == ParseFrom(text, index, values, environ)
      decreases |text| - index
    {
      ParseTurn(text, index, values, environ);
      var progress := Turn(text, index, values, environ);
      if progress.Err? {
        return Err(progress.error);
      }
      values, index := progress.value.values, progress.value.index;
    }
    ParseEnd(text, values, environ);
    return Ok(values);
  }

  lemma ParseEnd(text: string, values: EnvValues, environ: map<string, string>)
    ensures ParseFrom(text, |text|, values, environ) == Ok(values)
  {
  }
}

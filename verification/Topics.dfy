/** MQTT topic patterns: building, matching and subscribing. */
module Topics {
  import opened Wrappers
  import opened Strings

  const SEPARATOR := '/'

  // ---------------------------------------------------------------- levels

  predicate IsNameStart(c: char) {
    'a' <= c <= 'z'
  }

  predicate IsNameChar(c: char) {
    IsNameStart(c) || IsDigit(c) || c == '_'
  }

  predicate IsName(name: string) {
    name != [] && IsNameStart(name[0]) && forall i :: 0 <= i < |name| ==> IsNameChar(name[i])
  }

  /** The text a `$`-anchored pattern sees: one trailing newline does not count. */
  function Anchored(level: string): string {
    if level != [] && level[|level| - 1] == '\n' then level[..|level| - 1] else level
  }

  /** The name of a `{name}` placeholder level. */
  function Placeholder(level: string): (name: Option<string>)
    ensures name.Some? ==> IsName(name.value)
  {
    var text := Anchored(level);
    if |text| >= 3 && text[0] == '{' && text[|text| - 1] == '}' && IsName(text[1..|text| - 1])
    then Some(text[1..|text| - 1]) else None
  }

  predicate IsLiteralChar(c: char) {
    'A' <= c <= 'Z' || 'a' <= c <= 'z' || IsDigit(c) || c == '_' || c == '.' || c == '-'
  }

  predicate IsLiteral(level: string) {
    var text := Anchored(level);
    text != [] && forall i :: 0 <= i < |text| ==> IsLiteralChar(text[i])
  }

  /** A concrete level: non-empty, without separator, wildcard or null character. */
  predicate IsValue(value: string) {
    value != [] && forall i :: 0 <= i < |value| ==>
      value[i] != '/' && value[i] != '+' && value[i] != '#' && value[i] != '\0'
  }

  /** The level is the text, or the text and a newline. */
  predicate Spells(level: string, text: string) {
    level == text || level == text + "\n"
  }

  lemma AnchoredSpells(level: string, text: string)
    requires text != "" && text[|text| - 1] != '\n'
    ensures Anchored(level) == text <==> Spells(level, text)
  {
  }

  /** A level is a placeholder exactly when it spells a name in braces. */
  lemma PlaceholderExact(level: string, name: string)
    ensures Placeholder(level) == Some(name) <==> IsName(name) && Spells(level, "{" + (name + "}"))
  {
    hide Anchored, IsName, Spells;
    var text := "{" + (name + "}");
    AnchoredSpells(level, text);
    if Placeholder(level) == Some(name) {
      assert Anchored(level) == text;
    }
    if IsName(name) && Anchored(level) == text {
      assert text[1..|text| - 1] == name;
      assert name != "" by { NameIsNotEmpty(name); }
    }
  }

  lemma NameIsNotEmpty(name: string)
    requires IsName(name)
    ensures name != ""
  {
  }

  /** A level is a literal exactly when it spells letters, digits, underscores, dots and hyphens only. */
  lemma LiteralExact(level: string)
    ensures IsLiteral(level) <==>
      exists text :: text != "" && Spells(level, text) &&
        forall i :: 0 <= i < |text| ==>
          'A' <= text[i] <= 'Z' || 'a' <= text[i] <= 'z' || '0' <= text[i] <= '9' || text[i] in "_.-"
  {
    hide Anchored, Spells;
    if IsLiteral(level) {
      assert !IsLiteralChar('\n');
      AnchoredSpells(level, Anchored(level));
    }
    assert forall c :: IsLiteralChar(c) <==> 'A' <= c <= 'Z' || 'a' <= c <= 'z' || '0' <= c <= '9' || c in "_.-";
    if text :| text != "" && Spells(level, text) && forall i :: 0 <= i < |text| ==> IsLiteralChar(text[i]) {
      assert IsLiteralChar(text[|text| - 1]) && !IsLiteralChar('\n');
      AnchoredSpells(level, text);
    }
  }

  /** A value is anything but the empty text, with no separator, wildcard or null character in it. */
  lemma ValueExact(value: string)
    ensures IsValue(value) <==> value != "" && '/' !in value && '+' !in value && '#' !in value && '\0' !in value
  {
    assert forall c :: c in value <==> exists i :: 0 <= i < |value| && value[i] == c;
  }

  // ---------------------------------------------------------------- matching

  predicate LevelMatches(level: string, value: string) {
    if Placeholder(level).Some? then IsValue(value) else level == value
  }

  /** The values of the placeholders among the first `n` levels; a repeated name keeps its last value. */
  function Params(levels: seq<string>, values: seq<string>, n: nat): map<string, string>
    requires n <= |levels| == |values|
  {
    if n == 0 then map[]
    else
      var before := Params(levels, values, n - 1);
      match Placeholder(levels[n - 1])
      case Some(name) => before[name := values[n - 1]]
      case None => before
  }

  // ---------------------------------------------------------------- building

  datatype BuildError =
    | WrongNames(missing: set<string>, extra: set<string>)
    | NotALevel(value: string)

  /** The level a parameter map puts in place of a pattern level. */
  function BuiltLevel(level: string, params: map<string, string>): string
    requires Placeholder(level).Some? ==> Placeholder(level).value in params
  {
    match Placeholder(level)
    case Some(name) => params[name]
    case None => level
  }

  datatype TopicEntry = TopicEntry(pattern: string, contract: string, qos: int, retain: bool) {
    function Levels(): seq<string> {
      Split(pattern, SEPARATOR)
    }

    function Names(): set<string> {
      set i | 0 <= i < |Levels()| && Placeholder(Levels()[i]).Some? :: Placeholder(Levels()[i]).value
    }

    predicate MatchesLevels(values: seq<string>) {
      |values| == |Levels()| && forall i :: 0 <= i < |values| ==> LevelMatches(Levels()[i], values[i])
    }

    /** Placeholder values when a topic matches this pattern. */
    function Matched(topic: string): Option<map<string, string>> {
      var values := Split(topic, SEPARATOR);
      if MatchesLevels(values) then Some(Params(Levels(), values, |values|)) else None
    }

    method Match(topic: string) returns (params: Option<map<string, string>>)
      ensures params == Matched(topic)
    {
      hide Split, Placeholder, IsValue;
      var levels, values := Levels(), Split(topic, SEPARATOR);
      if |values| != |levels| {
        return None;
      }
      var found: map<string, string> := map[];
      for i := 0 to |levels|
        invariant forall k :: 0 <= k < i ==> LevelMatches(levels[k], values[k])
        invariant found == Params(levels, values, i)
      {
        var placeholder := Placeholder(levels[i]);
        if placeholder.None? {
          if levels[i] != values[i] {
            return None;
          }
        } else if IsValue(values[i]) {
          found := found[placeholder.value := values[i]];
        } else {
          return None;
        }
      }
      return Some(found);
    }

    /** The first level whose parameter is no single topic level. */
    function BadValue(params: map<string, string>, n: nat): Option<string>
      requires n <= |Levels()| && Names() <= params.Keys
    {
      if n == 0 then None
      else
        var before := BadValue(params, n - 1);
        var level := Levels()[n - 1];
        if before.Some? then before
        else if Placeholder(level).Some? && (assert Placeholder(level).value in Names(); !IsValue(params[Placeholder(level).value]))
        then Some(params[Placeholder(level).value])
        else None
    }

    function BuiltLevels(params: map<string, string>, n: nat): (built: seq<string>)
      requires n <= |Levels()| && Names() <= params.Keys
      ensures |built| == n
      ensures forall i :: 0 <= i < n ==>
        (Placeholder(Levels()[i]).Some? ==> Placeholder(Levels()[i]).value in params) &&
        built[i] == BuiltLevel(Levels()[i], params)
    {
      if n == 0 then []
      else
        assert Placeholder(Levels()[n - 1]).Some? ==> Placeholder(Levels()[n - 1]).value in Names();
        BuiltLevels(params, n - 1) + [BuiltLevel(Levels()[n - 1], params)]
    }

    /** The concrete topic for these placeholder values. */
    function Built(params: map<string, string>): Result<string, BuildError> {
      if params.Keys != Names() then Err(WrongNames(Names() - params.Keys, params.Keys - Names()))
      else
        match BadValue(params, |Levels()|)
        case Some(value) => Err(NotALevel(value))
        case None => Ok(Join(BuiltLevels(params, |Levels()|), SEPARATOR))
    }

    method Build(params: map<string, string>) returns (topic: Result<string, BuildError>)
      ensures topic == Built(params)
    {
      hide Placeholder, IsValue, Split, Join;
      var names := Names();
      var missing, extra := names - params.Keys, params.Keys - names;
      if missing != {} || extra != {} {
        return Err(WrongNames(missing, extra));
      }
      assert params.Keys == names;
      var levels := Levels();
      var built: seq<string> := [];
      for i := 0 to |levels|
        invariant BadValue(params, i) == None
        invariant built == BuiltLevels(params, i)
      {
        var placeholder := Placeholder(levels[i]);
        if placeholder.None? {
          built := built + [levels[i]];
          continue;
        }
        assert placeholder.value in names;
        var value := params[placeholder.value];
        if !IsValue(value) {
          BadValueStays(params, i + 1, |levels|);
          return Err(NotALevel(value));
        }
        built := built + [value];
      }
      return Ok(Join(built, SEPARATOR));
    }

    lemma {:induction false} BadValueStays(params: map<string, string>, n: nat, m: nat)
      requires n <= m <= |Levels()| && Names() <= params.Keys && BadValue(params, n).Some?
      ensures BadValue(params, m) == BadValue(params, n)
    {
      if n < m {
        BadValueStays(params, n, m - 1);
      }
    }

    /** The subscription filter: `+` for every placeholder. */
    function FilterLevels(): (filter: seq<string>)
      ensures |filter| == |Levels()|
      ensures forall i :: 0 <= i < |filter| ==>
        filter[i] == if Placeholder(Levels()[i]).Some? then "+" else Levels()[i]
    {
      seq(|Levels()|, i requires 0 <= i < |Levels()| => if Placeholder(Levels()[i]).Some? then "+" else Levels()[i])
    }

    function Subscription(): string {
      Join(FilterLevels(), SEPARATOR)
    }
  }

  /** A match has the names of the placeholders, each with the value of the last level that carries it. */
  lemma {:induction false} LastValueWins(levels: seq<string>, values: seq<string>, n: nat, name: string)
    requires n <= |levels| == |values|
    ensures name in Params(levels, values, n) <==> exists i :: 0 <= i < n && Placeholder(levels[i]) == Some(name)
    ensures name in Params(levels, values, n) ==>
      exists i :: 0 <= i < n && Placeholder(levels[i]) == Some(name) && Params(levels, values, n)[name] == values[i] &&
        forall j :: i < j < n ==> Placeholder(levels[j]) != Some(name)
  {
    hide Placeholder;
    if n > 0 {
      LastValueWins(levels, values, n - 1, name);
    }
  }

  // ---------------------------------------------------------------- match undoes build

  lemma {:induction false} NoBadValue(entry: TopicEntry, params: map<string, string>, n: nat)
    requires n <= |entry.Levels()| && entry.Names() <= params.Keys
    ensures entry.BadValue(params, n).None? <==>
            forall i :: 0 <= i < n && Placeholder(entry.Levels()[i]).Some? ==>
              Placeholder(entry.Levels()[i]).value in params && IsValue(params[Placeholder(entry.Levels()[i]).value])
  {
    hide Placeholder, IsValue, TopicEntry.Names, TopicEntry.Levels;
    if n > 0 {
      NoBadValue(entry, params, n - 1);
      if Placeholder(entry.Levels()[n - 1]).Some? {
        NameOfLevel(entry, n - 1);
      }
    }
  }

  lemma NameOfLevel(entry: TopicEntry, i: nat)
    requires i < |entry.Levels()| && Placeholder(entry.Levels()[i]).Some?
    ensures Placeholder(entry.Levels()[i]).value in entry.Names()
  {
  }

  /** Where the same name always carries the same value, the parameters give it back. */
  lemma {:induction false} ParamsGiveBack(levels: seq<string>, values: seq<string>, n: nat, given: map<string, string>)
    requires n <= |levels| == |values|
    requires forall i :: 0 <= i < n && Placeholder(levels[i]).Some? ==>
      Placeholder(levels[i]).value in given && given[Placeholder(levels[i]).value] == values[i]
    ensures forall name :: name in Params(levels, values, n) <==>
      exists i :: 0 <= i < n && Placeholder(levels[i]) == Some(name)
    ensures forall name :: name in Params(levels, values, n) ==> name in given && Params(levels, values, n)[name] == given[name]
  {
    hide Placeholder;
    if n > 0 {
      ParamsGiveBack(levels, values, n - 1, given);
    }
  }

  lemma ValueIsFree(value: string)
    requires IsValue(value)
    ensures SEPARATOR !in value
  {
  }

  lemma BuiltIsFree(entry: TopicEntry, params: map<string, string>)
    requires params.Keys == entry.Names() && entry.BadValue(params, |entry.Levels()|).None?
    ensures Free(entry.BuiltLevels(params, |entry.Levels()|), SEPARATOR)
  {
    hide Placeholder, IsValue;
    SplitIsFree(entry.pattern, SEPARATOR);
    NoBadValue(entry, params, |entry.Levels()|);
    var built := entry.BuiltLevels(params, |entry.Levels()|);
    forall i | 0 <= i < |built| ensures SEPARATOR !in built[i] {
      if Placeholder(entry.Levels()[i]).Some? {
        ValueIsFree(built[i]);
      }
    }
  }

  /** Every topic a pattern builds matches it again, with the same parameters. */
  lemma MatchUndoesBuild(entry: TopicEntry, params: map<string, string>)
    requires entry.Built(params).Ok?
    ensures entry.Matched(entry.Built(params).value) == Some(params)
  {
    hide Placeholder, IsValue, Split, Join;
    var levels := entry.Levels();
    var built := entry.BuiltLevels(params, |levels|);
    BuiltIsFree(entry, params);
    SplitOfJoin(built, SEPARATOR);
    NoBadValue(entry, params, |levels|);
    assert entry.MatchesLevels(built);
    hide TopicEntry.BuiltLevels;
    ParamsAreThose(entry, built, params);
  }

  lemma ParamsAreThose(entry: TopicEntry, values: seq<string>, params: map<string, string>)
    requires |values| == |entry.Levels()| && params.Keys == entry.Names()
    requires forall i :: 0 <= i < |values| && Placeholder(entry.Levels()[i]).Some? ==>
      Placeholder(entry.Levels()[i]).value in params && params[Placeholder(entry.Levels()[i]).value] == values[i]
    ensures Params(entry.Levels(), values, |values|) == params
  {
    hide Placeholder, Params, TopicEntry.Levels;
    var found := Params(entry.Levels(), values, |values|);
    ParamsGiveBack(entry.Levels(), values, |values|, params);
    forall name | name in params ensures name in found {
      assert name in entry.Names();
    }
    assert found.Keys == params.Keys;
    assert found == params;
  }

  // ---------------------------------------------------------------- build undoes match

  /** Levels with the same placeholder name carry the same value. */
  ghost predicate NamesAgree(levels: seq<string>, values: seq<string>)
    requires |levels| == |values|
  {
    forall i, j :: 0 <= i < j < |levels| && Placeholder(levels[i]).Some? && Placeholder(levels[i]) == Placeholder(levels[j]) ==>
      values[i] == values[j]
  }

  ghost predicate UniqueNames(levels: seq<string>) {
    forall i, j :: 0 <= i < j < |levels| && Placeholder(levels[i]).Some? ==> Placeholder(levels[i]) != Placeholder(levels[j])
  }

  lemma {:induction false} ParamsAreLast(levels: seq<string>, values: seq<string>, n: nat)
    requires n <= |levels| == |values|
    ensures forall name :: name in Params(levels, values, n) <==>
      exists i :: 0 <= i < n && Placeholder(levels[i]) == Some(name)
    ensures forall name :: name in Params(levels, values, n) ==>
      exists i :: 0 <= i < n && Placeholder(levels[i]) == Some(name) && Params(levels, values, n)[name] == values[i]
  {
    hide Placeholder;
    if n > 0 {
      ParamsAreLast(levels, values, n - 1);
    }
  }

  lemma MatchedParams(entry: TopicEntry, topic: string)
    requires entry.Matched(topic).Some?
    ensures var params := entry.Matched(topic).value;
      params.Keys == entry.Names() && entry.BadValue(params, |entry.Levels()|).None?
  {
    hide Placeholder, IsValue, Split, Params;
    var levels, values, params := entry.Levels(), Split(topic, SEPARATOR), entry.Matched(topic).value;
    ParamsAreLast(levels, values, |levels|);
    assert params.Keys == entry.Names();
    NoBadValue(entry, params, |levels|);
  }

  /** A build succeeds exactly with one level per pattern level, and the levels can be read off it. */
  lemma BuiltSplits(entry: TopicEntry, params: map<string, string>)
    requires params.Keys == entry.Names() && entry.BadValue(params, |entry.Levels()|).None?
    ensures var built := entry.BuiltLevels(params, |entry.Levels()|);
      entry.Built(params) == Ok(Join(built, SEPARATOR)) && Split(Join(built, SEPARATOR), SEPARATOR) == built
  {
    hide Placeholder, IsValue, Split, Join, TopicEntry.BuiltLevels;
    BuiltIsFree(entry, params);
    SplitOfJoin(entry.BuiltLevels(params, |entry.Levels()|), SEPARATOR);
  }

  /** What a match yields always builds a topic, and it is the matched one exactly when equal names agree. */
  lemma BuildUndoesMatch(entry: TopicEntry, topic: string)
    requires entry.Matched(topic).Some?
    ensures entry.Built(entry.Matched(topic).value).Ok?
    ensures entry.Built(entry.Matched(topic).value) == Ok(topic) <==> NamesAgree(entry.Levels(), Split(topic, SEPARATOR))
  {
    hide Placeholder, IsValue, Split, Join, TopicEntry.Built, TopicEntry.BuiltLevels, Params;
    var levels, values, params := entry.Levels(), Split(topic, SEPARATOR), entry.Matched(topic).value;
    MatchedParams(entry, topic);
    BuiltSplits(entry, params);
    JoinOfSplit(topic, SEPARATOR);
    var built := entry.BuiltLevels(params, |levels|);
    if NamesAgree(levels, values) {
      AgreeingNamesRebuild(levels, values, params, built);
    }
    if built == values {
      BuiltNamesAgree(levels, values, params);
    }
  }

  lemma BuiltNamesAgree(levels: seq<string>, built: seq<string>, params: map<string, string>)
    requires |levels| == |built|
    requires forall i :: 0 <= i < |levels| ==> (Placeholder(levels[i]).Some? ==> Placeholder(levels[i]).value in params)
    requires forall i :: 0 <= i < |levels| ==> built[i] == BuiltLevel(levels[i], params)
    ensures NamesAgree(levels, built)
  {
    hide Placeholder;
  }

  lemma AgreeAt(levels: seq<string>, values: seq<string>, i: nat, j: nat)
    requires |levels| == |values| && NamesAgree(levels, values) && i < |levels| && j < |levels|
    requires Placeholder(levels[i]).Some? && Placeholder(levels[i]) == Placeholder(levels[j])
    ensures values[i] == values[j]
  {
    hide Placeholder;
  }

  lemma AgreeingNamesRebuild(levels: seq<string>, values: seq<string>, params: map<string, string>, built: seq<string>)
    requires |levels| == |values| == |built| && NamesAgree(levels, values)
    requires params == Params(levels, values, |levels|)
    requires forall i :: 0 <= i < |levels| ==> LevelMatches(levels[i], values[i])
    requires forall i :: 0 <= i < |levels| ==> (Placeholder(levels[i]).Some? ==> Placeholder(levels[i]).value in params)
    requires forall i :: 0 <= i < |levels| ==> built[i] == BuiltLevel(levels[i], params)
    ensures built == values
  {
    hide Placeholder, IsValue, NamesAgree, Params;
    ParamsAreLast(levels, values, |levels|);
    forall i | 0 <= i < |levels| ensures built[i] == values[i] {
      if Placeholder(levels[i]).Some? {
        var name := Placeholder(levels[i]).value;
        var j :| 0 <= j < |levels| && Placeholder(levels[j]) == Some(name) && params[name] == values[j];
        AgreeAt(levels, values, i, j);
      }
    }
  }

  /** With unique names, building undoes every match. */
  lemma UniqueNamesRebuild(entry: TopicEntry, topic: string)
    requires UniqueNames(entry.Levels()) && entry.Matched(topic).Some?
    ensures entry.Built(entry.Matched(topic).value) == Ok(topic)
  {
    hide Placeholder, Split;
    BuildUndoesMatch(entry, topic);
  }
}

/** The topic map: well-formed patterns, the overlap test, and unambiguous resolution. */
module TopicMaps {
  import opened Strings
  import opened Topics

  // ---------------------------------------------------------------- pattern findings

  datatype Finding =
    | WrongPrefix(pattern: string)
    | InvalidLevel(pattern: string, level: string)
    | NotLiteralOrPlaceholder(pattern: string, level: string)
    | RepeatedNames(pattern: string, names: set<string>)
    | Unregistered(pattern: string, contract: string)
    | ListedTwice(pattern: string)
    | Overlapping(first: string, second: string)
    | NotItsOnlyTopic(contract: string, declared: string, found: seq<string>)

  const PREFIX := "ss/"

  /** A level the message binding allows: also the anonymous `+`. */
  predicate IsTopicLevel(level: string) {
    IsLiteral(level) || Anchored(level) == "+" || Placeholder(level).Some?
  }

  predicate TopicLevelOk(levels: seq<string>, i: nat)
    requires i < |levels|
  {
    (levels[i] == "#" && i == |levels| - 1) || IsTopicLevel(levels[i])
  }

  ghost predicate BindableTopic(topic: string) {
    PREFIX <= topic && forall i :: 0 <= i < |Split(topic, SEPARATOR)| ==> TopicLevelOk(Split(topic, SEPARATOR), i)
  }

  method TopicErrors(topic: string) returns (errors: seq<Finding>)
    ensures errors == [] <==> BindableTopic(topic)
  {
    if !(PREFIX <= topic) {
      return [WrongPrefix(topic)];
    }
    var levels := Split(topic, SEPARATOR);
    errors := LevelErrors(topic, levels);
  }

  method LevelErrors(topic: string, levels: seq<string>) returns (errors: seq<Finding>)
    ensures errors == [] <==> forall i :: 0 <= i < |levels| ==> TopicLevelOk(levels, i)
  {
    errors := [];
    for i := 0 to |levels|
      invariant errors == [] <==> forall k :: 0 <= k < i ==> TopicLevelOk(levels, k)
    {
      if levels[i] == "#" && i == |levels| - 1 {
        assert TopicLevelOk(levels, i);
        continue;
      }
      assert TopicLevelOk(levels, i) <==> IsTopicLevel(levels[i]);
      if !IsTopicLevel(levels[i]) {
        errors := errors + [InvalidLevel(topic, levels[i])];
      }
    }
  }

  predicate NamedOrLiteral(level: string) {
    IsLiteral(level) || Placeholder(level).Some?
  }

  /** Names that occur at more than one level. */
  function RepeatedNamesOf(levels: seq<string>): set<string> {
    set i, j | 0 <= i < j < |levels| && Placeholder(levels[i]).Some? && Placeholder(levels[i]) == Placeholder(levels[j])
      :: Placeholder(levels[i]).value
  }

  /** What a valid map promises of a pattern: rooted, literals and uniquely named placeholders only. */
  ghost predicate WellFormed(pattern: string) {
    var levels := Split(pattern, SEPARATOR);
    && PREFIX <= pattern
    && (forall i :: 1 <= i < |levels| ==> NamedOrLiteral(levels[i]))
    && UniqueNames(levels)
  }

  method PatternErrors(entry: TopicEntry) returns (errors: seq<Finding>)
    ensures errors == [] <==> WellFormed(entry.pattern)
  {
    hide TopicLevelOk, NamedOrLiteral, Split, Placeholder, UniqueNames, RepeatedNamesOf;
    var levels := entry.Levels();
    errors := TopicErrors(entry.pattern);
    if WellFormed(entry.pattern) {
      WellFormedIsBindable(entry.pattern);
    }
    if errors != [] {
      return;
    }
    for i := 1 to |levels|
      invariant errors == [] <==> forall k :: 1 <= k < i ==> NamedOrLiteral(levels[k])
    {
      if !NamedOrLiteral(levels[i]) {
        errors := errors + [NotLiteralOrPlaceholder(entry.pattern, levels[i])];
      }
    }
    var repeated := RepeatedNamesOf(levels);
    NoRepeatedNames(levels);
    if repeated != {} {
      errors := errors + [RepeatedNames(entry.pattern, repeated)];
    }
  }

  /** The binding's level rule is weaker than the map's, so it adds nothing to well-formedness. */
  lemma WellFormedIsBindable(pattern: string)
    requires WellFormed(pattern)
    ensures BindableTopic(pattern)
  {
    hide IsLiteral, Placeholder, Split;
    RootedPattern(pattern);
    forall i | 0 <= i < |Split(pattern, SEPARATOR)| ensures TopicLevelOk(Split(pattern, SEPARATOR), i) {
      assert i > 0 ==> NamedOrLiteral(Split(pattern, SEPARATOR)[i]);
    }
  }

  lemma NoRepeatedNames(levels: seq<string>)
    ensures RepeatedNamesOf(levels) == {} <==> UniqueNames(levels)
  {
    hide Placeholder;
    if !UniqueNames(levels) {
      var i, j :| 0 <= i < j < |levels| && Placeholder(levels[i]).Some? && Placeholder(levels[i]) == Placeholder(levels[j]);
      assert Placeholder(levels[i]).value in RepeatedNamesOf(levels);
    }
  }

  /** The root level of a prefixed pattern is the literal `ss`. */
  lemma RootedPattern(pattern: string)
    requires PREFIX <= pattern
    ensures Split(pattern, SEPARATOR)[0] == "ss" && |Split(pattern, SEPARATOR)| >= 2
    ensures IsLiteral("ss") && Placeholder("ss").None?
  {
    assert pattern == "ss" + [SEPARATOR] + pattern[3..];
    SplitHead("ss", pattern[3..], SEPARATOR);
  }

  // ---------------------------------------------------------------- overlap

  predicate LevelsOverlap(a: string, b: string) {
    a == b || Placeholder(a).Some? || Placeholder(b).Some?
  }

  /** The test the map uses: level by level, equal or open. */
  predicate PatternsOverlap(first: TopicEntry, second: TopicEntry) {
    |first.Levels()| == |second.Levels()| &&
    forall i :: 0 <= i < |first.Levels()| ==> LevelsOverlap(first.Levels()[i], second.Levels()[i])
  }

  /** A literal opposite a placeholder must itself be a possible value. */
  ghost predicate LiteralsAreValues(a: string, b: string) {
    (Placeholder(a).Some? && Placeholder(b).None? ==> IsValue(b)) &&
    (Placeholder(b).Some? && Placeholder(a).None? ==> IsValue(a))
  }

  ghost predicate ShareTopic(first: TopicEntry, second: TopicEntry) {
    exists topic :: first.Matched(topic).Some? && second.Matched(topic).Some?
  }

  function CommonLevel(a: string, b: string): string {
    if Placeholder(a).None? then a else if Placeholder(b).None? then b else "x"
  }

  lemma CommonLevelMatches(a: string, b: string)
    requires LevelsOverlap(a, b) && LiteralsAreValues(a, b)
    ensures LevelMatches(a, CommonLevel(a, b)) && LevelMatches(b, CommonLevel(a, b))
  {
    hide Placeholder;
  }

  /**
   The overlap test is exact for arbitrary patterns up to literals no topic level could hold: the
   patterns share a topic exactly when the test says so and every literal facing a placeholder is a value.
   */
  lemma OverlapExact(first: TopicEntry, second: TopicEntry)
    ensures ShareTopic(first, second) <==>
            PatternsOverlap(first, second) &&
            forall i :: 0 <= i < |first.Levels()| ==> LiteralsAreValues(first.Levels()[i], second.Levels()[i])
  {
    hide Placeholder, IsValue, Split, Join, Params;
    var a, b := first.Levels(), second.Levels();
    if topic :| first.Matched(topic).Some? && second.Matched(topic).Some? {
      var values := Split(topic, SEPARATOR);
      forall i | 0 <= i < |a| ensures LevelsOverlap(a[i], b[i]) && LiteralsAreValues(a[i], b[i]) {
        assert LevelMatches(a[i], values[i]) && LevelMatches(b[i], values[i]);
      }
    }
    if PatternsOverlap(first, second) && forall i :: 0 <= i < |a| ==> LiteralsAreValues(a[i], b[i]) {
      var common := seq(|a|, i requires 0 <= i < |a| => CommonLevel(a[i], b[i]));
      SplitIsFree(first.pattern, SEPARATOR);
      SplitIsFree(second.pattern, SEPARATOR);
      assert Free(common, SEPARATOR);
      SplitOfJoin(common, SEPARATOR);
      forall i | 0 <= i < |a| ensures LevelMatches(a[i], common[i]) && LevelMatches(b[i], common[i]) {
        CommonLevelMatches(a[i], b[i]);
      }
      assert first.MatchesLevels(common) && second.MatchesLevels(common);
      assert first.Matched(Join(common, SEPARATOR)).Some? && second.Matched(Join(common, SEPARATOR)).Some?;
    }
  }

  lemma LiteralIsValue(level: string)
    requires IsLiteral(level)
    ensures IsValue(level)
  {
    var text := Anchored(level);
    assert forall i :: 0 <= i < |text| ==> level[i] == text[i];
  }

  /** For well-formed patterns the test is exact: they overlap exactly when some topic matches both. */
  lemma WellFormedOverlapExact(first: TopicEntry, second: TopicEntry)
    requires WellFormed(first.pattern) && WellFormed(second.pattern)
    ensures PatternsOverlap(first, second) <==> ShareTopic(first, second)
  {
    hide Placeholder, IsLiteral, IsValue, Split, ShareTopic, LevelsOverlap;
    var a, b := first.Levels(), second.Levels();
    OverlapExact(first, second);
    if PatternsOverlap(first, second) {
      assert |a| == |b|;
      forall i | 0 <= i < |a| ensures LiteralsAreValues(a[i], b[i]) {
        LevelIsOpenOrValue(first.pattern, i);
        LevelIsOpenOrValue(second.pattern, i);
      }
    }
  }

  lemma LevelIsOpenOrValue(pattern: string, i: nat)
    requires WellFormed(pattern) && i < |Split(pattern, SEPARATOR)|
    ensures var level := Split(pattern, SEPARATOR)[i]; Placeholder(level).Some? || (IsLiteral(level) && IsValue(level))
  {
    hide Placeholder, IsLiteral, IsValue, Split;
    RootedPattern(pattern);
    var level := Split(pattern, SEPARATOR)[i];
    assert i > 0 ==> NamedOrLiteral(level);
    if Placeholder(level).None? {
      LiteralIsValue(level);
    }
  }

  // ---------------------------------------------------------------- wildcards of the protocol

  /**
   Matching of a topic filter against a topic name, level by level, as in section 4.7.1 of MQTT
   Version 3.1.1: `+` stands for exactly one level, a final `#` for any number of levels.
   */
  ghost predicate FilterMatches(filter: seq<string>, levels: seq<string>) {
    if filter == [] then levels == []
    else if filter == ["#"] then true
    else levels != [] && (filter[0] == "+" || filter[0] == levels[0]) && FilterMatches(filter[1..], levels[1..])
  }

  /** A filter that starts with a wildcard does not match a name that starts with `$` (section 4.7.2). */
  ghost predicate SubscriptionMatches(filter: string, topic: string) {
    && !(topic != "" && topic[0] == '$' && filter != "" && (filter[0] == '+' || filter[0] == '#'))
    && FilterMatches(Split(filter, SEPARATOR), Split(topic, SEPARATOR))
  }

  lemma {:induction false} FilterByLevel(filter: seq<string>, levels: seq<string>)
    requires forall i :: 0 <= i < |filter| ==> filter[i] != "#"
    ensures FilterMatches(filter, levels) <==>
            |filter| == |levels| && forall i :: 0 <= i < |filter| ==> filter[i] == "+" || filter[i] == levels[i]
  {
    if filter != [] {
      assert filter != ["#"] by { assert filter[0] != "#"; }
      if levels != [] {
        FilterByLevel(filter[1..], levels[1..]);
        assert filter == [filter[0]] + filter[1..] && levels == [levels[0]] + levels[1..];
      }
    }
  }

  lemma LiteralIsNoWildcard(level: string)
    requires IsLiteral(level)
    ensures level != "#" && level != "+"
  {
  }

  /** A topic matches an entry exactly when it matches the entry's subscription and each `+` level is a value. */
  lemma SubscriptionAgrees(entry: TopicEntry, topic: string)
    requires WellFormed(entry.pattern)
    ensures entry.Matched(topic).Some? <==>
            SubscriptionMatches(entry.Subscription(), topic) &&
            var values := Split(topic, SEPARATOR);
            forall i :: 0 <= i < |entry.Levels()| && i < |values| && Placeholder(entry.Levels()[i]).Some? ==> IsValue(values[i])
  {
    hide Placeholder, IsLiteral, IsValue, Split, Join, FilterMatches, WellFormed, Params;
    var levels, values, filter := entry.Levels(), Split(topic, SEPARATOR), entry.FilterLevels();
    forall i | 0 <= i < |levels|
      ensures Placeholder(levels[i]).Some? || (levels[i] != "#" && levels[i] != "+")
    {
      LevelIsOpenOrValue(entry.pattern, i);
      if Placeholder(levels[i]).None? {
        LiteralIsNoWildcard(levels[i]);
      }
    }
    assert Free(filter, SEPARATOR) by {
      SplitIsFree(entry.pattern, SEPARATOR);
    }
    SplitOfJoin(filter, SEPARATOR);
    FilterByLevel(filter, values);
    FilterIsRooted(entry);
  }

  lemma FilterIsRooted(entry: TopicEntry)
    requires WellFormed(entry.pattern)
    ensures entry.Subscription() != "" && entry.Subscription()[0] == 's'
  {
    RootedPattern(entry.pattern);
    assert entry.FilterLevels()[0] == "ss";
  }
}

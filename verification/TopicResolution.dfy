/** Checking a topic map, and resolving topics through a map without findings. */
module TopicResolution {
  import opened Wrappers
  import opened Ordering
  import opened Topics
  import opened TopicMaps

  datatype Resolved = Resolved(entry: TopicEntry, params: map<string, string>)

  /** The first entry from `i` on that a concrete topic matches. */
  function ResolveFrom(entries: seq<TopicEntry>, topic: string, i: nat): Option<Resolved>
    requires i <= |entries|
    decreases |entries| - i
  {
    if i == |entries| then None
    else
      match entries[i].Matched(topic)
      case Some(params) => Some(Resolved(entries[i], params))
      case None => ResolveFrom(entries, topic, i + 1)
  }

  function Resolve(entries: seq<TopicEntry>, topic: string): Option<Resolved> {
    ResolveFrom(entries, topic, 0)
  }

  // ---------------------------------------------------------------- findings

  method EntryErrors(entry: TopicEntry, registered: set<string>) returns (errors: seq<Finding>)
    ensures errors == [] <==> WellFormed(entry.pattern) && entry.contract in registered
  {
    errors := PatternErrors(entry);
    if entry.contract !in registered {
      errors := errors + [Unregistered(entry.pattern, entry.contract)];
    }
  }

  ghost predicate Apart(first: TopicEntry, second: TopicEntry) {
    first.pattern != second.pattern && !PatternsOverlap(first, second)
  }

  method OverlapErrors(entries: seq<TopicEntry>) returns (errors: seq<Finding>)
    ensures errors == [] <==> forall i, j :: 0 <= i < j < |entries| ==> Apart(entries[i], entries[j])
  {
    hide PatternsOverlap;
    errors := [];
    for i := 0 to |entries|
      invariant errors == [] <==> forall k, j :: 0 <= k < i && k < j < |entries| ==> Apart(entries[k], entries[j])
    {
      ghost var before := errors;
      for j := i + 1 to |entries|
        invariant errors == [] <==> before == [] && forall k :: i < k < j ==> Apart(entries[i], entries[k])
      {
        if entries[i].pattern == entries[j].pattern {
          errors := errors + [ListedTwice(entries[i].pattern)];
        } else if PatternsOverlap(entries[i], entries[j]) {
          errors := errors + [Overlapping(entries[i].pattern, entries[j].pattern)];
        }
      }
    }
  }

  /** The patterns mapped to a contract, in map order. */
  function PatternsFor(entries: seq<TopicEntry>, contract: string): seq<string> {
    if entries == [] then []
    else
      var last := entries[|entries| - 1];
      PatternsFor(entries[..|entries| - 1], contract) + (if last.contract == contract then [last.pattern] else [])
  }

  /** A contract whose binding names a topic is mapped exactly once, under that pattern. */
  ghost predicate BindingsMapped(entries: seq<TopicEntry>, declared: map<string, Option<string>>) {
    forall contract :: contract in declared && declared[contract].Some? ==>
      PatternsFor(entries, contract) == [declared[contract].value]
  }

  method BindingErrors(entries: seq<TopicEntry>, declared: map<string, Option<string>>) returns (errors: seq<Finding>)
    ensures errors == [] <==> BindingsMapped(entries, declared)
  {
    hide Sorted, PatternsFor;
    var contracts := Sorted(declared.Keys);
    SortedIsSorted(declared.Keys);
    errors := [];
    for i := 0 to |contracts|
      invariant errors == [] <==> forall k :: 0 <= k < i && declared[contracts[k]].Some? ==>
                  PatternsFor(entries, contracts[k]) == [declared[contracts[k]].value]
    {
      var topic := declared[contracts[i]];
      if topic.None? {
        continue;
      }
      var patterns := PatternsFor(entries, contracts[i]);
      if patterns != [topic.value] {
        errors := errors + [NotItsOnlyTopic(contracts[i], topic.value, patterns)];
      }
    }
    forall contract | contract in declared ensures exists k :: 0 <= k < |contracts| && contracts[k] == contract {
      assert contract in contracts;
    }
  }

  /** A map without findings. */
  ghost predicate ValidMap(entries: seq<TopicEntry>, registered: set<string>, declared: map<string, Option<string>>) {
    && (forall i :: 0 <= i < |entries| ==> WellFormed(entries[i].pattern) && entries[i].contract in registered)
    && (forall i, j :: 0 <= i < j < |entries| ==> Apart(entries[i], entries[j]))
    && BindingsMapped(entries, declared)
  }

  method TopicMapErrors(entries: seq<TopicEntry>, registered: set<string>, declared: map<string, Option<string>>)
    returns (errors: seq<Finding>)
    ensures errors == [] <==> ValidMap(entries, registered, declared)
  {
    hide WellFormed, Apart, BindingsMapped;
    errors := [];
    for i := 0 to |entries|
      invariant errors == [] <==>
        forall k :: 0 <= k < i ==> WellFormed(entries[k].pattern) && entries[k].contract in registered
    {
      var found := EntryErrors(entries[i], registered);
      errors := errors + found;
    }
    var overlaps := OverlapErrors(entries);
    var bindings := BindingErrors(entries, declared);
    errors := errors + overlaps + bindings;
  }

  // ---------------------------------------------------------------- unambiguous resolution

  /** In a valid map at most one entry matches a topic. */
  lemma AtMostOneMatch(entries: seq<TopicEntry>, registered: set<string>, declared: map<string, Option<string>>,
                       topic: string, i: nat, j: nat)
    requires ValidMap(entries, registered, declared) && i < |entries| && j < |entries|
    requires entries[i].Matched(topic).Some? && entries[j].Matched(topic).Some?
    ensures i == j
  {
    hide WellFormed, BindingsMapped, PatternsOverlap;
    if i != j {
      var a, b := if i < j then i else j, if i < j then j else i;
      var apart := Apart(entries[a], entries[b]);
      WellFormedOverlapExact(entries[a], entries[b]);
    }
  }

  lemma {:induction false} ResolveFinds(entries: seq<TopicEntry>, topic: string, i: nat, k: nat)
    requires k <= i < |entries| && entries[i].Matched(topic).Some?
    requires forall j :: k <= j < |entries| && entries[j].Matched(topic).Some? ==> j == i
    ensures ResolveFrom(entries, topic, k) == Some(Resolved(entries[i], entries[i].Matched(topic).value))
    decreases |entries| - k
  {
    if k < i {
      ResolveFinds(entries, topic, i, k + 1);
    }
  }

  lemma {:induction false} ResolveFindsNothing(entries: seq<TopicEntry>, topic: string, k: nat)
    requires k <= |entries|
    ensures ResolveFrom(entries, topic, k).None? <==> forall j :: k <= j < |entries| ==> entries[j].Matched(topic).None?
    decreases |entries| - k
  {
    if k < |entries| {
      ResolveFindsNothing(entries, topic, k + 1);
    }
  }

  /** What a matching entry resolves to in a valid map: itself, wherever it stands. */
  lemma MatchResolves(entries: seq<TopicEntry>, registered: set<string>, declared: map<string, Option<string>>,
                      topic: string, entry: TopicEntry)
    requires ValidMap(entries, registered, declared) && entry in entries && entry.Matched(topic).Some?
    ensures Resolve(entries, topic) == Some(Resolved(entry, entry.Matched(topic).value))
  {
    hide ValidMap;
    var i :| 0 <= i < |entries| && entries[i] == entry;
    forall j | 0 <= j < |entries| && entries[j].Matched(topic).Some? ensures j == i {
      AtMostOneMatch(entries, registered, declared, topic, i, j);
    }
    ResolveFinds(entries, topic, i, 0);
  }

  /** Reordering the entries of a valid map changes no resolution. */
  lemma ResolutionIsOrderFree(entries: seq<TopicEntry>, other: seq<TopicEntry>, registered: set<string>,
                              declared: map<string, Option<string>>, topic: string)
    requires ValidMap(entries, registered, declared) && multiset(entries) == multiset(other)
    ensures Resolve(entries, topic) == Resolve(other, topic)
  {
    hide ValidMap;
    assert forall entry :: entry in entries <==> entry in multiset(entries);
    assert forall entry :: entry in other <==> entry in multiset(other);
    ResolveFindsNothing(entries, topic, 0);
    ResolveFindsNothing(other, topic, 0);
    if i :| 0 <= i < |other| && other[i].Matched(topic).Some? {
      var entry := other[i];
      assert entry in other;
      MatchResolves(entries, registered, declared, topic, entry);
      OnlyMatchIn(entries, other, registered, declared, topic, i);
      ResolveFinds(other, topic, i, 0);
    } else {
      forall j | 0 <= j < |entries| ensures entries[j].Matched(topic).None? {
        assert entries[j] in other;
        var k :| 0 <= k < |other| && other[k] == entries[j];
      }
    }
  }

  lemma OnlyMatchIn(entries: seq<TopicEntry>, other: seq<TopicEntry>, registered: set<string>,
                    declared: map<string, Option<string>>, topic: string, i: nat)
    requires ValidMap(entries, registered, declared) && multiset(entries) == multiset(other)
    requires i < |other| && other[i].Matched(topic).Some?
    ensures forall j :: 0 <= j < |other| && other[j].Matched(topic).Some? ==> j == i
  {
    hide ValidMap;
    forall j | 0 <= j < |other| && other[j].Matched(topic).Some? ensures j == i {
      assert other[i] in multiset(entries) && other[j] in multiset(entries);
      var a :| 0 <= a < |entries| && entries[a] == other[i];
      var b :| 0 <= b < |entries| && entries[b] == other[j];
      AtMostOneMatch(entries, registered, declared, topic, a, b);
      if i != j {
        EntryOnce(entries, registered, declared, a);
        TwiceInMultiset(other, if i < j then i else j, if i < j then j else i);
      }
    }
  }

  lemma TwiceInMultiset(entries: seq<TopicEntry>, i: nat, j: nat)
    requires i < j < |entries| && entries[i] == entries[j]
    ensures multiset(entries)[entries[i]] >= 2
  {
    assert entries == entries[..j] + [entries[j]] + entries[j + 1..];
    assert entries[..j][i] == entries[i];
    assert entries[i] in multiset(entries[..j]);
  }

  lemma EntryOnce(entries: seq<TopicEntry>, registered: set<string>, declared: map<string, Option<string>>, a: nat)
    requires ValidMap(entries, registered, declared) && a < |entries|
    ensures multiset(entries)[entries[a]] == 1
  {
    hide WellFormed, BindingsMapped, PatternsOverlap;
    var entry := entries[a];
    assert entries == entries[..a] + [entry] + entries[a + 1..];
    forall k | 0 <= k < a ensures entries[..a][k] != entry {
      assert Apart(entries[k], entries[a]);
    }
    var tail := entries[a + 1..];
    forall k | 0 <= k < |tail| ensures tail[k] != entry {
      assert Apart(entries[a], entries[a + 1 + k]);
    }
    assert entry !in multiset(entries[..a]) && entry !in multiset(tail);
  }

  /** Resolving a built topic returns the entry that built it and its parameters. */
  lemma BuiltTopicResolves(entries: seq<TopicEntry>, registered: set<string>, declared: map<string, Option<string>>,
                           entry: TopicEntry, params: map<string, string>)
    requires ValidMap(entries, registered, declared) && entry in entries && entry.Built(params).Ok?
    ensures Resolve(entries, entry.Built(params).value) == Some(Resolved(entry, params))
  {
    hide ValidMap;
    MatchUndoesBuild(entry, params);
    MatchResolves(entries, registered, declared, entry.Built(params).value, entry);
  }

  lemma {:induction false} MappedPattern(entries: seq<TopicEntry>, contract: string, pattern: string)
    ensures pattern in PatternsFor(entries, contract) <==>
            exists i :: 0 <= i < |entries| && entries[i].contract == contract && entries[i].pattern == pattern
  {
    if entries != [] {
      MappedPattern(entries[..|entries| - 1], contract, pattern);
    }
  }

  /** Every topic of a contract's declared pattern resolves to that contract, and it has no other topic. */
  lemma DeclaredTopicResolves(entries: seq<TopicEntry>, registered: set<string>, declared: map<string, Option<string>>,
                              contract: string, topic: string)
    requires ValidMap(entries, registered, declared) && contract in declared && declared[contract].Some?
    ensures (Resolve(entries, topic).Some? && Resolve(entries, topic).value.entry.contract == contract) <==>
            TopicEntry(declared[contract].value, contract, 0, false).Matched(topic).Some?
  {
    hide WellFormed, Apart, PatternsFor;
    var pattern := declared[contract].value;
    MappedPattern(entries, contract, pattern);
    assert pattern in PatternsFor(entries, contract);
    var i :| 0 <= i < |entries| && entries[i].contract == contract && entries[i].pattern == pattern;
    if entries[i].Matched(topic).Some? {
      MatchResolves(entries, registered, declared, topic, entries[i]);
    }
    if Resolve(entries, topic).Some? && Resolve(entries, topic).value.entry.contract == contract {
      var k := ResolvedAt(entries, topic, 0);
      MappedPattern(entries, contract, entries[k].pattern);
      assert entries[k].pattern in [pattern];
    }
  }

  lemma {:induction false} ResolvedAt(entries: seq<TopicEntry>, topic: string, i: nat) returns (k: nat)
    requires i <= |entries| && ResolveFrom(entries, topic, i).Some?
    ensures i <= k < |entries| && entries[k].Matched(topic).Some?
    ensures ResolveFrom(entries, topic, i).value.entry == entries[k]
    decreases |entries| - i
  {
    if entries[i].Matched(topic).Some? {
      k := i;
    } else {
      k := ResolvedAt(entries, topic, i + 1);
    }
  }
}

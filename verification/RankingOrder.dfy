/** On a gated plan the ranking of a lane is its groups in registry order, each in document order. */
module RankingOrder {
  import opened Sequences
  import opened PlanReader
  import opened References
  import opened CycleDetection
  import opened PlanIntegrity
  import opened Scheduler

  /** The lane's groups in registry order, each group's tasks in document order. */
  function ByGroups(lane: seq<Task>, line: seq<string>, n: nat): seq<Task>
    requires n <= |line|
  {
    if n == 0 then [] else ByGroups(lane, line, n - 1) + InGroup(lane, line[n - 1])
  }

  ghost predicate Within(tasks: seq<Task>, part: seq<Task>) {
    forall i :: 0 <= i < |part| ==> part[i] in tasks
  }

  /** A part of the plan in document order. */
  ghost predicate InDocumentOrder(tasks: seq<Task>, part: seq<Task>)
    requires Within(tasks, part)
  {
    forall i, j :: 0 <= i < j < |part| ==> PositionOf(tasks, part[i]) < PositionOf(tasks, part[j])
  }

  ghost predicate StrictlyRanked(tasks: seq<Task>, order: map<string, nat>, part: seq<Task>)
    requires Within(tasks, part)
  {
    forall i, j :: 0 <= i < j < |part| ==> KeyOf(tasks, order, part[i]).Less(KeyOf(tasks, order, part[j]))
  }

  // ---------------------------------------------------------------- document order

  lemma PositionIs(tasks: seq<Task>, k: nat)
    requires Distinct(Ids(tasks)) && k < |tasks|
    ensures PositionOf(tasks, tasks[k]) == k
  {
    var i := PositionOf(tasks, tasks[k]);
    assert Ids(tasks)[i] == Ids(tasks)[k];
  }

  lemma {:induction false} SectionInOrder(tasks: seq<Task>, n: nat, section: string)
    requires Distinct(Ids(tasks)) && n <= |tasks|
    ensures Within(tasks, InSection(tasks[..n], section)) && InDocumentOrder(tasks, InSection(tasks[..n], section))
    ensures forall t :: t in InSection(tasks[..n], section) ==> t in tasks && PositionOf(tasks, t) < n
  {
    hide Distinct, Ids, PositionOf;
    if n > 0 {
      SectionInOrder(tasks, n - 1, section);
      PositionIs(tasks, n - 1);
      assert tasks[..n][..n - 1] == tasks[..n - 1];
      var before, after := InSection(tasks[..n - 1], section), InSection(tasks[..n], section);
      forall i | 0 <= i < |before| ensures before[i] in tasks && PositionOf(tasks, before[i]) < n - 1 {
        assert before[i] in before;
      }
    }
  }

  lemma {:induction false} GroupInOrder(tasks: seq<Task>, lane: seq<Task>, group: string)
    requires Within(tasks, lane) && InDocumentOrder(tasks, lane)
    ensures Within(tasks, InGroup(lane, group)) && InDocumentOrder(tasks, InGroup(lane, group))
  {
    hide PositionOf;
    if lane != [] {
      var front := lane[..|lane| - 1];
      assert Within(tasks, front) && InDocumentOrder(tasks, front) by {
        assert forall i :: 0 <= i < |front| ==> front[i] == lane[i];
      }
      GroupInOrder(tasks, front, group);
      GroupBefore(tasks, lane, group);
      OneMoreInOrder(tasks, InGroup(front, group), lane[|lane| - 1]);
    }
  }

  lemma OneMoreInOrder(tasks: seq<Task>, part: seq<Task>, task: Task)
    requires Within(tasks, part) && InDocumentOrder(tasks, part) && task in tasks
    requires forall i :: 0 <= i < |part| ==> PositionOf(tasks, part[i]) < PositionOf(tasks, task)
    ensures Within(tasks, part + [task]) && InDocumentOrder(tasks, part + [task])
    ensures part + [] == part
  {
    hide PositionOf;
  }

  lemma GroupBefore(tasks: seq<Task>, lane: seq<Task>, group: string)
    requires lane != [] && Within(tasks, lane) && InDocumentOrder(tasks, lane)
    ensures var before := InGroup(lane[..|lane| - 1], group);
      forall i :: 0 <= i < |before| ==>
        before[i] in tasks && PositionOf(tasks, before[i]) < PositionOf(tasks, lane[|lane| - 1])
  {
    hide PositionOf, InGroup;
    var front := lane[..|lane| - 1];
    var before := InGroup(front, group);
    InGroupExact(front, group);
    forall i | 0 <= i < |before|
      ensures before[i] in tasks && PositionOf(tasks, before[i]) < PositionOf(tasks, lane[|lane| - 1])
    {
      assert before[i] in before;
      var k :| 0 <= k < |front| && front[k] == before[i];
      assert lane[k] == before[i];
    }
  }

  // ---------------------------------------------------------------- grouping is strictly ranked

  lemma {:induction false} OrderIsIndex(line: seq<string>, k: nat)
    requires Distinct(line) && k < |line|
    ensures line[k] in CapabilityOrder(line) && CapabilityOrder(line)[line[k]] == k
  {
    if k < |line| - 1 {
      assert line[..|line| - 1][k] == line[k];
      OrderIsIndex(line[..|line| - 1], k);
    }
  }

  lemma GroupIsRanked(tasks: seq<Task>, order: map<string, nat>, group: string, part: seq<Task>)
    requires Within(tasks, part) && InDocumentOrder(tasks, part) && OptionalLast(part)
    requires forall i :: 0 <= i < |part| ==> part[i].group == group
    ensures StrictlyRanked(tasks, order, part)
  {
    hide PositionOf;
  }

  lemma {:induction false} GroupsAreRanked(tasks: seq<Task>, line: seq<string>, lane: seq<Task>, n: nat)
    requires Distinct(line) && n <= |line|
    requires Within(tasks, lane) && InDocumentOrder(tasks, lane)
    requires forall group :: OptionalLast(InGroup(lane, group))
    ensures Within(tasks, ByGroups(lane, line, n))
    ensures StrictlyRanked(tasks, CapabilityOrder(line), ByGroups(lane, line, n))
    ensures forall t :: t in ByGroups(lane, line, n) <==> t in lane && t.group in line[..n]
  {
    hide InDocumentOrder, OptionalLast, CapabilityOrder, KeyOf, InGroup, Distinct;
    if n > 0 {
      var group, order := line[n - 1], CapabilityOrder(line);
      var before, own := ByGroups(lane, line, n - 1), InGroup(lane, group);
      GroupsAreRanked(tasks, line, lane, n - 1);
      GroupInOrder(tasks, lane, group);
      InGroupExact(lane, group);
      assert forall i :: 0 <= i < |own| ==> own[i] in own;
      GroupIsRanked(tasks, order, group, own);
      assert line[..n] == line[..n - 1] + [group];
      assert forall i :: 0 <= i < |before| ==> before[i] in before;
      RanksAcross(tasks, line, n, before, own);
    }
  }

  lemma RanksAcross(tasks: seq<Task>, line: seq<string>, n: nat, before: seq<Task>, own: seq<Task>)
    requires Distinct(line) && 0 < n <= |line| && Within(tasks, before) && Within(tasks, own)
    requires forall i :: 0 <= i < |before| ==> before[i].group in line[..n - 1]
    requires forall i :: 0 <= i < |own| ==> own[i].group == line[n - 1]
    ensures forall i, j :: 0 <= i < |before| && 0 <= j < |own| ==>
              KeyOf(tasks, CapabilityOrder(line), before[i]).Less(KeyOf(tasks, CapabilityOrder(line), own[j]))
  {
    hide CapabilityOrder, PositionOf, KeyOf, Key.Less, Distinct;
    forall i, j | 0 <= i < |before| && 0 <= j < |own|
      ensures KeyOf(tasks, CapabilityOrder(line), before[i]).Less(KeyOf(tasks, CapabilityOrder(line), own[j]))
    {
      var k :| 0 <= k < n - 1 && line[..n - 1][k] == before[i].group;
      RanksEarlier(tasks, line, k, n - 1, before[i], own[j]);
    }
  }

  lemma RanksEarlier(tasks: seq<Task>, line: seq<string>, k: nat, n: nat, a: Task, b: Task)
    requires Distinct(line) && k < n < |line| && a in tasks && b in tasks
    requires a.group == line[k] && b.group == line[n]
    ensures KeyOf(tasks, CapabilityOrder(line), a).Less(KeyOf(tasks, CapabilityOrder(line), b))
  {
    hide CapabilityOrder, PositionOf;
    OrderIsIndex(line, k);
    OrderIsIndex(line, n);
  }

  // ---------------------------------------------------------------- what comes first

  /** In the registry `a` stands before `b`, or `b` does not stand in it. */
  ghost predicate StandsBefore(line: seq<string>, a: string, b: string) {
    exists k :: 0 <= k < |line| && line[k] == a && b !in line[..k + 1]
  }

  lemma {:induction false} OrderKeys(line: seq<string>, group: string)
    ensures group in CapabilityOrder(line) <==> group in line
    ensures |CapabilityOrder(line)| <= |line|
    ensures Distinct(line) ==> |CapabilityOrder(line)| == |line|
  {
    if line != [] {
      var front, last := line[..|line| - 1], line[|line| - 1];
      OrderKeys(front, group);
      OrderKeys(front, last);
      assert line == front + [last];
    }
  }

  lemma RankedBefore(line: seq<string>, a: string, b: string)
    requires Distinct(line)
    ensures var order := CapabilityOrder(line);
      var rankA, rankB := (if a in order then order[a] else |order|), (if b in order then order[b] else |order|);
      && (rankA < rankB <==> StandsBefore(line, a, b))
      && (rankA == rankB <==> a == b || (a !in line && b !in line))
  {
    hide CapabilityOrder;
    OrderKeys(line, a);
    OrderKeys(line, b);
    if a in line {
      var i :| 0 <= i < |line| && line[i] == a;
      OrderIsIndex(line, i);
    }
    if b in line {
      var j :| 0 <= j < |line| && line[j] == b;
      OrderIsIndex(line, j);
    }
  }

  /**
   A task goes before another exactly when its group stands earlier in the registry, those that do not
   stand in it last; within one standing, required work goes first, and then document order decides.
   */
  lemma KeyOrderExact(tasks: seq<Task>, line: seq<string>, a: Task, b: Task)
    requires Distinct(line) && a in tasks && b in tasks
    ensures KeyOf(tasks, CapabilityOrder(line), a).Less(KeyOf(tasks, CapabilityOrder(line), b)) <==>
      || StandsBefore(line, a.group, b.group)
      || (&& (a.group == b.group || (a.group !in line && b.group !in line))
          && (if a.optional != b.optional then b.optional else PositionOf(tasks, a) < PositionOf(tasks, b)))
  {
    hide CapabilityOrder, PositionOf, StandsBefore, Distinct;
    RankedBefore(line, a.group, b.group);
  }

  // ---------------------------------------------------------------- a strict ranking is unique

  lemma {:induction false} StrictRankingIsUnique(tasks: seq<Task>, order: map<string, nat>, a: seq<Task>, b: seq<Task>)
    requires Within(tasks, a) && Within(tasks, b)
    requires StrictlyRanked(tasks, order, a) && StrictlyRanked(tasks, order, b)
    requires forall t :: t in a <==> t in b
    ensures a == b
  {
    hide KeyOf;
    assert a != [] ==> a[0] in a;
    assert b != [] ==> b[0] in b;
    if a != [] && b != [] {
      var x, y := a[|a| - 1], b[|b| - 1];
      LastIsGreatest(tasks, order, a);
      LastIsGreatest(tasks, order, b);
      assert x in a && y in b;
      assert x == y;
      var a', b' := a[..|a| - 1], b[..|b| - 1];
      forall t ensures t in a' <==> t in b' {
        FrontHasTheRest(tasks, order, a, t);
        FrontHasTheRest(tasks, order, b, t);
      }
      StrictRankingIsUnique(tasks, order, a', b');
      assert a == a' + [x] && b == b' + [y];
    }
  }

  lemma LastIsGreatest(tasks: seq<Task>, order: map<string, nat>, part: seq<Task>)
    requires part != [] && Within(tasks, part) && StrictlyRanked(tasks, order, part)
    ensures forall t :: t in part ==>
              t == part[|part| - 1] || KeyOf(tasks, order, t).Less(KeyOf(tasks, order, part[|part| - 1]))
  {
    hide KeyOf;
  }

  lemma FrontHasTheRest(tasks: seq<Task>, order: map<string, nat>, part: seq<Task>, t: Task)
    requires part != [] && Within(tasks, part) && StrictlyRanked(tasks, order, part)
    ensures t in part[..|part| - 1] <==> t in part && t != part[|part| - 1]
  {
    var front, last := part[..|part| - 1], part[|part| - 1];
    assert part == front + [last];
    if t in front {
      var i :| 0 <= i < |front| && front[i] == t;
      assert KeyOf(tasks, order, part[i]).Less(KeyOf(tasks, order, last));
    }
  }

  lemma RankedIsStrict(tasks: seq<Task>, section: string, order: map<string, nat>)
    requires Distinct(Ids(tasks))
    ensures Within(tasks, Ranked(tasks, section, order))
    ensures StrictlyRanked(tasks, order, Ranked(tasks, section, order))
  {
    hide KeyOf;
    var lane, ranked := InSection(tasks, section), Ranked(tasks, section, order);
    InSectionExact(tasks, section);
    SortAscends(tasks, order, lane);
    SectionInOrder(tasks, |tasks|, section);
    assert tasks[..|tasks|] == tasks;
    NoRepeats(tasks, lane);
    forall i | 0 <= i < |ranked| ensures ranked[i] in tasks {
      assert ranked[i] in ranked;
    }
    forall i, j | 0 <= i < j < |ranked|
      ensures KeyOf(tasks, order, ranked[i]).Less(KeyOf(tasks, order, ranked[j]))
    {
      if ranked[i] == ranked[j] {
        TwiceInMultiset(ranked, i, j);
      }
      KeysDecide(tasks, order, ranked[i], ranked[j]);
    }
  }

  lemma {:induction false} NoRepeats(tasks: seq<Task>, part: seq<Task>)
    requires Within(tasks, part) && InDocumentOrder(tasks, part)
    ensures forall t :: multiset(part)[t] <= 1
  {
    hide PositionOf;
    if part != [] {
      var front, last := part[..|part| - 1], part[|part| - 1];
      NoRepeats(tasks, front);
      assert part == front + [last];
      forall i | 0 <= i < |front| ensures front[i] != last {
        assert PositionOf(tasks, part[i]) < PositionOf(tasks, part[|part| - 1]);
      }
      assert last !in multiset(front);
    }
  }

  lemma TwiceInMultiset(part: seq<Task>, i: nat, j: nat)
    requires i < j < |part| && part[i] == part[j]
    ensures multiset(part)[part[i]] >= 2
  {
    assert part == part[..j] + [part[j]] + part[j + 1..];
    assert part[..j][i] == part[i];
    assert part[i] in multiset(part[..j]);
  }

  // ---------------------------------------------------------------- the two orders agree

  lemma LaneIsRegistered(line: seq<string>, tasks: seq<Task>, recorded: set<string>, section: string)
    requires Sound(line, tasks, recorded)
    ensures forall t :: t in InSection(tasks, section) ==> t.group in line
  {
    hide InSection, DependenciesSound, GroupsFollow, OptionalFollows;
    InSectionExact(tasks, section);
    forall t | t in InSection(tasks, section) ensures t.group in line {
      var i :| 0 <= i < |tasks| && tasks[i] == t;
      assert Placed(tasks[i], (set c | c in line));
    }
  }

  /** The ranking of a lane is its groups in registry order, each group in document order. */
  lemma RankingIsByGroup(line: seq<string>, tasks: seq<Task>, recorded: set<string>, section: string)
    requires Sound(line, tasks, recorded) && section in PLAN_SECTIONS
    ensures Ranked(tasks, section, CapabilityOrder(line)) == ByGroups(InSection(tasks, section), line, |line|)
  {
    hide KeyOf, Ranked, DependenciesSound, GroupsFollow, InDocumentOrder, StrictlyRanked, CapabilityOrder, ByGroups;
    var lane, order := InSection(tasks, section), CapabilityOrder(line);
    SectionInOrder(tasks, |tasks|, section);
    assert tasks[..|tasks|] == tasks;
    InSectionExact(tasks, section);
    assert OptionalFollows(tasks, section);
    GroupsAreRanked(tasks, line, lane, |line|);
    assert line[..|line|] == line;
    RankedIsStrict(tasks, section, order);
    LaneIsRegistered(line, tasks, recorded, section);
    StrictRankingIsUnique(tasks, order, Ranked(tasks, section, order), ByGroups(lane, line, |line|));
  }

  // ---------------------------------------------------------------- the order gate and the ranking agree

  /** Groups by first use, each after those of smaller rank. */
  ghost predicate RankedGroups(line: seq<string>, groups: seq<string>) {
    && (forall i :: 0 <= i < |groups| ==> groups[i] in line)
    && (forall i, j :: 0 <= i < j < |groups| ==> IndexOf(line, groups[i]) < IndexOf(line, groups[j]))
  }

  lemma {:induction false} RanksOfRegistered(line: seq<string>, groups: seq<string>)
    requires forall i :: 0 <= i < |groups| ==> groups[i] in line
    ensures |RanksOf(line, groups)| == |groups|
    ensures forall i :: 0 <= i < |groups| ==> RanksOf(line, groups)[i] == IndexOf(line, groups[i])
  {
    hide IndexOf;
    if groups != [] {
      var front, last := groups[..|groups| - 1], groups[|groups| - 1];
      forall i | 0 <= i < |front| ensures front[i] in line {
        assert front[i] == groups[i];
      }
      RanksOfRegistered(line, front);
      RanksOfOneMore(line, groups);
    }
  }

  lemma RanksOfOneMore(line: seq<string>, groups: seq<string>)
    requires groups != [] && groups[|groups| - 1] in line
    ensures RanksOf(line, groups) ==
            RanksOf(line, groups[..|groups| - 1]) + [IndexOf(line, groups[|groups| - 1])]
  {
    hide IndexOf;
  }

  lemma {:induction false} FirstUsesDistinct(names: seq<string>)
    ensures Distinct(FirstUses(names))
  {
    if names != [] {
      FirstUsesDistinct(names[..|names| - 1]);
    }
  }

  /** The order gate says the lane's groups, by first task, are strictly ranked. */
  lemma GateRanksGroups(line: seq<string>, lane: seq<Task>)
    requires forall t :: t in lane ==> t.group in line
    requires Ascending(RanksOf(line, FirstUses(GroupsOf(lane))))
    ensures RankedGroups(line, FirstUses(GroupsOf(lane)))
  {
    hide IndexOf, RanksOf;
    var groups := FirstUses(GroupsOf(lane));
    FirstUsesDistinct(GroupsOf(lane));
    forall i | 0 <= i < |groups| ensures groups[i] in line {
      assert groups[i] in groups;
      var k :| 0 <= k < |lane| && GroupsOf(lane)[k] == groups[i];
      assert lane[k] in lane;
    }
    RanksOfRegistered(line, groups);
    forall i, j | 0 <= i < j < |groups| ensures IndexOf(line, groups[i]) < IndexOf(line, groups[j]) {
      assert RanksOf(line, groups)[i] <= RanksOf(line, groups)[j];
      assert line[IndexOf(line, groups[i])] != line[IndexOf(line, groups[j])];
    }
  }

  /** Groups that never step back in rank are strictly ranked by first use. */
  lemma {:induction false} SortedGroupsAreRanked(line: seq<string>, names: seq<string>)
    requires forall i :: 0 <= i < |names| ==> names[i] in line
    requires forall i, j :: 0 <= i < j < |names| ==> IndexOf(line, names[i]) <= IndexOf(line, names[j])
    ensures RankedGroups(line, FirstUses(names))
  {
    hide IndexOf;
    if names != [] {
      var front, last := names[..|names| - 1], names[|names| - 1];
      SortedGroupsAreRanked(line, front);
      var earlier := FirstUses(front);
      forall i | 0 <= i < |earlier| && last !in earlier ensures IndexOf(line, earlier[i]) < IndexOf(line, last) {
        assert earlier[i] in earlier;
        var k :| 0 <= k < |front| && front[k] == earlier[i];
        assert names[k] == earlier[i];
        assert line[IndexOf(line, earlier[i])] != line[IndexOf(line, last)];
      }
    }
  }

  lemma {:induction false} RankedGroupsUnique(line: seq<string>, a: seq<string>, b: seq<string>)
    requires RankedGroups(line, a) && RankedGroups(line, b)
    requires forall name :: name in a <==> name in b
    ensures a == b
  {
    hide IndexOf;
    assert a != [] ==> a[0] in a;
    assert b != [] ==> b[0] in b;
    if a != [] && b != [] {
      assert a[|a| - 1] in b && b[|b| - 1] in a;
      assert a[|a| - 1] == b[|b| - 1];
      var a', b' := a[..|a| - 1], b[..|b| - 1];
      forall name ensures name in a' <==> name in b' {
        NotTheLast(line, a, name);
        NotTheLast(line, b, name);
      }
      RankedGroupsUnique(line, a', b');
      assert a == a' + [a[|a| - 1]] && b == b' + [b[|b| - 1]];
    }
  }

  lemma NotTheLast(line: seq<string>, groups: seq<string>, name: string)
    requires groups != [] && RankedGroups(line, groups)
    ensures name in groups[..|groups| - 1] <==> name in groups && name != groups[|groups| - 1]
  {
    hide IndexOf;
    var front, last := groups[..|groups| - 1], groups[|groups| - 1];
    assert groups == front + [last];
    if name in front {
      var i :| 0 <= i < |front| && front[i] == name;
      assert IndexOf(line, groups[i]) < IndexOf(line, last);
    }
  }

  lemma StrictRankingSortsGroups(tasks: seq<Task>, line: seq<string>, part: seq<Task>)
    requires Distinct(line) && Within(tasks, part) && StrictlyRanked(tasks, CapabilityOrder(line), part)
    requires forall t :: t in part ==> t.group in line
    ensures forall i, j :: 0 <= i < j < |part| ==> IndexOf(line, part[i].group) <= IndexOf(line, part[j].group)
  {
    hide CapabilityOrder, IndexOf, PositionOf;
    forall i, j | 0 <= i < j < |part| ensures IndexOf(line, part[i].group) <= IndexOf(line, part[j].group) {
      assert part[i] in part && part[j] in part;
      OrderIsIndex(line, IndexOf(line, part[i].group));
      OrderIsIndex(line, IndexOf(line, part[j].group));
    }
  }

  /** The ranking meets the groups of a lane in the very order in which the document introduces them. */
  lemma RankingKeepsGroupOrder(line: seq<string>, tasks: seq<Task>, recorded: set<string>, section: string)
    requires Sound(line, tasks, recorded) && section in PLAN_SECTIONS
    ensures FirstUses(GroupsOf(Ranked(tasks, section, CapabilityOrder(line)))) ==
            FirstUses(GroupsOf(InSection(tasks, section)))
  {
    hide KeyOf, Ranked, DependenciesSound, StrictlyRanked, RanksOf, IndexOf, OptionalFollows;
    var lane, ranked := InSection(tasks, section), Ranked(tasks, section, CapabilityOrder(line));
    InSectionExact(tasks, section);
    LaneIsRegistered(line, tasks, recorded, section);
    assert GroupsFollow(line, tasks, section);
    GateRanksGroups(line, lane);
    RankedIsStrict(tasks, section, CapabilityOrder(line));
    StrictRankingSortsGroups(tasks, line, ranked);
    forall i | 0 <= i < |ranked| ensures GroupsOf(ranked)[i] in line {
      assert ranked[i] in ranked;
    }
    SortedGroupsAreRanked(line, GroupsOf(ranked));
    SameTasksSameGroups(ranked, lane);
    RankedGroupsUnique(line, FirstUses(GroupsOf(ranked)), FirstUses(GroupsOf(lane)));
  }

  lemma SameTasksSameGroups(a: seq<Task>, b: seq<Task>)
    requires forall t :: t in a <==> t in b
    ensures forall group :: group in GroupsOf(a) <==> group in GroupsOf(b)
  {
    forall group ensures group in GroupsOf(a) <==> group in GroupsOf(b) {
      if group in GroupsOf(a) {
        var i :| 0 <= i < |a| && GroupsOf(a)[i] == group;
        assert a[i] in b;
        var j :| 0 <= j < |b| && b[j] == a[i];
        assert GroupsOf(b)[j] == group;
      }
      if group in GroupsOf(b) {
        var i :| 0 <= i < |b| && GroupsOf(b)[i] == group;
        assert b[i] in a;
        var j :| 0 <= j < |a| && a[j] == b[i];
        assert GroupsOf(a)[j] == group;
      }
    }
  }
}

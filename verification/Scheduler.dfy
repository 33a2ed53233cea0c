/** Choosing the next task: eligibility, the ranking of a lane, and why a gated plan never deadlocks. */
module Scheduler {
  import opened Wrappers
  import opened PlanReader
  import opened References
  import opened PlanIntegrity

  /** The start dependencies of a task that are still open. */
  function OpenDependencies(task: Task, open: set<string>): seq<string> {
    StillOpen(StartDependencies(task), open)
  }

  function StillOpen(dependencies: seq<string>, open: set<string>): seq<string> {
    if dependencies == [] then []
    else (if dependencies[0] in open then [dependencies[0]] else []) + StillOpen(dependencies[1..], open)
  }

  predicate Eligible(task: Task, open: set<string>) {
    OpenDependencies(task, open) == []
  }

  lemma {:induction false} NothingStillOpen(dependencies: seq<string>, open: set<string>)
    ensures StillOpen(dependencies, open) == [] <==> forall d :: d in dependencies ==> d !in open
  {
    if dependencies != [] {
      NothingStillOpen(dependencies[1..], open);
      assert dependencies == [dependencies[0]] + dependencies[1..];
    }
  }

  // ---------------------------------------------------------------- ranking a lane

  datatype Key = Key(rank: nat, optional: bool, index: nat) {
    /** Python's tuple order */
    predicate Less(other: Key) {
      rank < other.rank ||
      (rank == other.rank && ((!optional && other.optional) || (optional == other.optional && index < other.index)))
    }
  }

  /** `{capability: number}`: a repeated capability keeps its last number. */
  function CapabilityOrder(line: seq<string>): map<string, nat> {
    if line == [] then map[] else CapabilityOrder(line[..|line| - 1])[line[|line| - 1] := |line| - 1]
  }

  /** `tasks.index(task)` */
  function PositionOf(tasks: seq<Task>, task: Task): (i: nat)
    requires task in tasks
    ensures i < |tasks| && tasks[i] == task
    ensures forall k :: 0 <= k < i ==> tasks[k] != task
  {
    if tasks[0] == task then 0 else 1 + PositionOf(tasks[1..], task)
  }

  function KeyOf(tasks: seq<Task>, order: map<string, nat>, task: Task): Key
    requires task in tasks
  {
    Key(if task.group in order then order[task.group] else |order|, task.optional, PositionOf(tasks, task))
  }

  /** Insert after every task whose key is not greater: one step of a stable sort. */
  function Insert(tasks: seq<Task>, order: map<string, nat>, sorted: seq<Task>, task: Task): (result: seq<Task>)
    requires task in tasks && forall t :: t in sorted ==> t in tasks
    ensures multiset(result) == multiset(sorted) + multiset{task}
    ensures forall t :: t in result <==> t in sorted || t == task
  {
    if sorted == [] || !KeyOf(tasks, order, task).Less(KeyOf(tasks, order, sorted[|sorted| - 1])) then
      sorted + [task]
    else
      var front, last := sorted[..|sorted| - 1], sorted[|sorted| - 1];
      assert sorted == front + [last];
      Insert(tasks, order, front, task) + [last]
  }

  function SortByKey(tasks: seq<Task>, order: map<string, nat>, lane: seq<Task>): (result: seq<Task>)
    requires forall t :: t in lane ==> t in tasks
    ensures multiset(result) == multiset(lane)
    ensures forall t :: t in result <==> t in lane
  {
    if lane == [] then []
    else
      var front, last := lane[..|lane| - 1], lane[|lane| - 1];
      assert lane == front + [last];
      Insert(tasks, order, SortByKey(tasks, order, front), last)
  }

  lemma {:induction false} InSectionExact(tasks: seq<Task>, section: string)
    ensures forall t :: t in InSection(tasks, section) <==> t in tasks && t.section == section
  {
    if tasks != [] {
      InSectionExact(tasks[..|tasks| - 1], section);
      assert tasks == tasks[..|tasks| - 1] + [tasks[|tasks| - 1]];
    }
  }

  lemma {:induction false} InGroupExact(tasks: seq<Task>, group: string)
    ensures forall t :: t in InGroup(tasks, group) <==> t in tasks && t.group == group
  {
    if tasks != [] {
      InGroupExact(tasks[..|tasks| - 1], group);
      assert tasks == tasks[..|tasks| - 1] + [tasks[|tasks| - 1]];
    }
  }

  /** The tasks of a lane in scheduling order. */
  function Ranked(tasks: seq<Task>, section: string, order: map<string, nat>): (ranked: seq<Task>)
    ensures multiset(ranked) == multiset(InSection(tasks, section))
    ensures forall t :: t in ranked <==> t in tasks && t.section == section
  {
    InSectionExact(tasks, section);
    SortByKey(tasks, order, InSection(tasks, section))
  }

  ghost predicate KeysAscend(tasks: seq<Task>, order: map<string, nat>, sorted: seq<Task>)
    requires forall t :: t in sorted ==> t in tasks
  {
    forall i, j :: 0 <= i < j < |sorted| ==>
      !KeyOf(tasks, order, sorted[j]).Less(KeyOf(tasks, order, sorted[i]))
  }

  lemma {:induction false} InsertAscends(tasks: seq<Task>, order: map<string, nat>, sorted: seq<Task>, task: Task)
    requires task in tasks && forall t :: t in sorted ==> t in tasks
    requires KeysAscend(tasks, order, sorted)
    ensures KeysAscend(tasks, order, Insert(tasks, order, sorted, task))
  {
    hide KeyOf;
    if sorted != [] {
      var front, last := sorted[..|sorted| - 1], sorted[|sorted| - 1];
      if KeyOf(tasks, order, task).Less(KeyOf(tasks, order, last)) {
        InsertAscends(tasks, order, front, task);
        var inserted := Insert(tasks, order, front, task);
        forall i | 0 <= i < |inserted|
          ensures !KeyOf(tasks, order, last).Less(KeyOf(tasks, order, inserted[i]))
        {
          assert inserted[i] in inserted;
        }
      } else {
        forall i | 0 <= i < |sorted| ensures !KeyOf(tasks, order, task).Less(KeyOf(tasks, order, sorted[i])) {
        }
      }
    }
  }

  lemma {:induction false} SortAscends(tasks: seq<Task>, order: map<string, nat>, lane: seq<Task>)
    requires forall t :: t in lane ==> t in tasks
    ensures KeysAscend(tasks, order, SortByKey(tasks, order, lane))
  {
    if lane != [] {
      SortAscends(tasks, order, lane[..|lane| - 1]);
      InsertAscends(tasks, order, SortByKey(tasks, order, lane[..|lane| - 1]), lane[|lane| - 1]);
    }
  }

  // ---------------------------------------------------------------- the lane line

  datatype LaneLine = Nothing | Next(task: Task) | NoneEligible(first: Task, waiting: seq<string>)

  /** Which of the ranked tasks can start. */
  function Startable(ranked: seq<Task>, open: set<string>): (flags: seq<bool>)
    ensures |flags| == |ranked| && forall i :: 0 <= i < |ranked| ==> (flags[i] <==> Eligible(ranked[i], open))
  {
    seq(|ranked|, i requires 0 <= i < |ranked| => Eligible(ranked[i], open))
  }

  /** The first position from `i` on that is set. */
  function FirstSet(flags: seq<bool>, i: nat): (found: Option<nat>)
    requires i <= |flags|
    ensures found.None? ==> forall k :: i <= k < |flags| ==> !flags[k]
    ensures found.Some? ==> i <= found.value < |flags| && flags[found.value]
    ensures found.Some? ==> forall k :: i <= k < found.value ==> !flags[k]
    decreases |flags| - i
  {
    if i == |flags| then None else if flags[i] then Some(i) else FirstSet(flags, i + 1)
  }

  /** The next task of a ranked lane, or what the first in line waits on. */
  function LaneLineOf(ranked: seq<Task>, open: set<string>): LaneLine {
    if ranked == [] then Nothing
    else
      match FirstSet(Startable(ranked, open), 0)
      case Some(i) => Next(ranked[i])
      case None => NoneEligible(ranked[0], OpenDependencies(ranked[0], open))
  }

  lemma RankedAscends(tasks: seq<Task>, section: string, order: map<string, nat>)
    ensures KeysAscend(tasks, order, Ranked(tasks, section, order))
  {
    InSectionExact(tasks, section);
    SortAscends(tasks, order, InSection(tasks, section));
  }

  lemma LineIsLeast(tasks: seq<Task>, order: map<string, nat>, ranked: seq<Task>, open: set<string>)
    requires (forall t :: t in ranked ==> t in tasks) && KeysAscend(tasks, order, ranked)
    ensures var line := LaneLineOf(ranked, open);
      && (line.Nothing? <==> ranked == [])
      && (line.Next? <==> exists i :: 0 <= i < |ranked| && Eligible(ranked[i], open))
      && (line.Next? ==> line.task in ranked && Eligible(line.task, open))
      && (line.Next? ==> forall t :: t in ranked && Eligible(t, open) ==>
            t == line.task || KeyOf(tasks, order, line.task).Less(KeyOf(tasks, order, t)))
  {
    hide Eligible, KeyOf, OpenDependencies, Startable, FirstSet;
    var found := FirstSet(Startable(ranked, open), 0);
    if found.Some? {
      var i := found.value;
      forall t | t in ranked && Eligible(t, open)
        ensures t == ranked[i] || KeyOf(tasks, order, ranked[i]).Less(KeyOf(tasks, order, t))
      {
        var j :| 0 <= j < |ranked| && ranked[j] == t;
        KeysDecide(tasks, order, ranked[i], t);
      }
    }
  }

  /** The dependencies still open are kept in order, and as often as they are named. */
  lemma {:induction false} StillOpenExact(a: seq<string>, b: seq<string>, open: set<string>)
    ensures StillOpen(a + b, open) == StillOpen(a, open) + StillOpen(b, open)
    ensures forall d :: d in StillOpen(a, open) <==> d in a && d in open
  {
    if a == [] {
      assert a + b == b;
    } else {
      assert (a + b)[1..] == a[1..] + b;
      assert a == [a[0]] + a[1..];
      StillOpenExact(a[1..], b, open);
    }
  }

  /** Where no task of a lane can start, its line names the least of them and what that one waits on. */
  lemma FirstInLineWaits(tasks: seq<Task>, section: string, order: map<string, nat>)
    ensures var line, open := LaneLineOf(Ranked(tasks, section, order), OpenIds(tasks)), OpenIds(tasks);
      line.NoneEligible? ==>
        && line.first in tasks && line.first.section == section && !Eligible(line.first, open)
        && (forall t :: t in tasks && t.section == section ==> !Eligible(t, open))
        && (forall t :: t in tasks && t.section == section ==>
              t == line.first || KeyOf(tasks, order, line.first).Less(KeyOf(tasks, order, t)))
        && line.waiting != []
        && (forall d :: d in line.waiting <==> d in StartDependencies(line.first) && d in open)
        && line.waiting == StillOpen(StartDependencies(line.first), open)
  {
    hide KeyOf, OpenIds, Ranked, StillOpen, StartDependencies;
    var ranked, open := Ranked(tasks, section, order), OpenIds(tasks);
    RankedAscends(tasks, section, order);
    if ranked != [] {
      assert ranked[0] in ranked;
      StillOpenExact(StartDependencies(ranked[0]), [], open);
      forall t | t in tasks && t.section == section
        ensures t == ranked[0] || KeyOf(tasks, order, ranked[0]).Less(KeyOf(tasks, order, t))
        ensures LaneLineOf(ranked, open).NoneEligible? ==> !Eligible(t, open)
      {
        assert t in ranked;
        var j :| 0 <= j < |ranked| && ranked[j] == t;
        KeysDecide(tasks, order, ranked[0], t);
      }
    }
  }

  /** A lane line names the least eligible task of its lane under (rank, optional, position). */
  lemma NextIsLeast(tasks: seq<Task>, section: string, order: map<string, nat>)
    ensures var line, open := LaneLineOf(Ranked(tasks, section, order), OpenIds(tasks)), OpenIds(tasks);
      && (line.Nothing? <==> forall t :: t in tasks ==> t.section != section)
      && (line.Next? <==> exists t :: t in tasks && t.section == section && Eligible(t, open))
      && (line.Next? ==> line.task in tasks && line.task.section == section && Eligible(line.task, open))
      && (line.Next? ==> forall t :: t in tasks && t.section == section && Eligible(t, open) ==>
            t == line.task || KeyOf(tasks, order, line.task).Less(KeyOf(tasks, order, t)))
  {
    hide Eligible, KeyOf, OpenIds, LaneLineOf, Ranked, KeysAscend;
    var ranked, open := Ranked(tasks, section, order), OpenIds(tasks);
    RankedAscends(tasks, section, order);
    LineIsLeast(tasks, order, ranked, open);
    assert ranked != [] ==> ranked[0] in ranked;
    if t :| t in tasks && t.section == section && Eligible(t, open) {
      assert t in ranked;
      var i :| 0 <= i < |ranked| && ranked[i] == t;
      assert Eligible(ranked[i], open);
    }
  }

  /** Keys differ between different tasks and are totally ordered. */
  lemma KeysDecide(tasks: seq<Task>, order: map<string, nat>, a: Task, b: Task)
    requires a in tasks && b in tasks
    ensures a == b || KeyOf(tasks, order, a).Less(KeyOf(tasks, order, b)) ||
            KeyOf(tasks, order, b).Less(KeyOf(tasks, order, a))
  {
  }
}

/** What the gate buys: the plan can always be worked off, and its ranking is its document order by group. */
module Scheduling {
  import opened Sequences
  import opened PlanReader
  import opened References
  import opened CycleDetection
  import opened PlanIntegrity
  import opened Scheduler

  // ---------------------------------------------------------------- an acyclic graph has a sink

  ghost predicate HasExit(graph: Graph, node: string) {
    exists to :: Edge(graph, node, to)
  }

  ghost predicate NoSink(graph: Graph) {
    forall node {:trigger HasExit(graph, node)} :: node in graph ==> HasExit(graph, node)
  }

  lemma {:induction false} LongWalk(graph: Graph, start: string, n: nat) returns (walk: seq<string>)
    requires start in graph && NoSink(graph)
    ensures |walk| == n + 1 && Walk(graph, walk) && forall i :: 0 <= i < |walk| ==> walk[i] in graph
  {
    if n == 0 {
      walk := [start];
    } else {
      walk := LongWalk(graph, start, n - 1);
      assert HasExit(graph, walk[n - 1]);
      var to :| Edge(graph, walk[n - 1], to);
      WalkMore(graph, walk, to);
      walk := walk + [to];
    }
  }

  /** A walk longer than the number of nodes meets one of them twice. */
  lemma {:induction false} Repeats(walk: seq<string>, nodes: set<string>) returns (i: nat, j: nat)
    requires forall k :: 0 <= k < |walk| ==> walk[k] in nodes
    requires |walk| > |nodes|
    ensures i < j < |walk| && walk[i] == walk[j]
    decreases |walk|
  {
    var last := walk[|walk| - 1];
    if k :| 0 <= k < |walk| - 1 && walk[k] == last {
      i, j := k, |walk| - 1;
    } else {
      i, j := Repeats(walk[..|walk| - 1], nodes - {last});
    }
  }

  lemma SinkExists(graph: Graph) returns (sink: string)
    requires Acyclic(graph) && graph != map[]
    ensures sink in graph && !HasExit(graph, sink)
  {
    hide HasExit;
    if NoSink(graph) {
      NoSinkMeansCycle(graph);
      assert false;
    }
    sink :| sink in graph && !HasExit(graph, sink);
  }

  lemma NoSinkMeansCycle(graph: Graph)
    requires NoSink(graph) && graph != map[]
    ensures !Acyclic(graph)
  {
    hide NoSink;
    var start :| start in graph;
    var walk := LongWalk(graph, start, |graph.Keys|);
    var i, j := Repeats(walk, graph.Keys);
    var closed := walk[i..j + 1];
    forall k | 0 <= k < |closed| - 1 ensures Edge(graph, closed[k], closed[k + 1]) {
      assert Edge(graph, walk[i + k], walk[i + k + 1]);
    }
    assert ClosedWalk(graph, closed);
  }

  // ---------------------------------------------------------------- deadlock-freedom

  lemma EdgeMeans(tasks: seq<Task>, i: nat, to: string)
    requires Distinct(Ids(tasks)) && i < |tasks|
    ensures Edge(GraphOf(tasks), tasks[i].identifier, to) <==>
            to in OpenIds(tasks) && to in StartDependencies(tasks[i])
  {
    hide *;
    GraphEntry(tasks, i);
    GraphNodes(tasks, to);
    EdgeOf(GraphOf(tasks), tasks[i].identifier, to);
  }

  lemma EdgeOf(graph: Graph, from: string, to: string)
    ensures Edge(graph, from, to) <==> from in graph && to in graph && to in graph[from]
  {
  }

  lemma EligibleMeans(task: Task, open: set<string>)
    ensures Eligible(task, open) <==> !exists d :: d in open && d in StartDependencies(task)
  {
    hide StartDependencies, StillOpen;
    NothingStillOpen(StartDependencies(task), open);
  }

  lemma SinkIsEligible(tasks: seq<Task>, i: nat)
    requires Distinct(Ids(tasks)) && i < |tasks|
    ensures Eligible(tasks[i], OpenIds(tasks)) <==> !HasExit(GraphOf(tasks), tasks[i].identifier)
  {
    hide *;
    EligibleMeans(tasks[i], OpenIds(tasks));
    forall to
      ensures Edge(GraphOf(tasks), tasks[i].identifier, to) <==> to in OpenIds(tasks) && to in StartDependencies(tasks[i])
    {
      EdgeMeans(tasks, i, to);
    }
    ExitMeans(GraphOf(tasks), tasks[i].identifier, StartDependencies(tasks[i]), OpenIds(tasks));
  }

  lemma ExitMeans(graph: Graph, node: string, dependencies: seq<string>, open: set<string>)
    requires forall to :: Edge(graph, node, to) <==> to in open && to in dependencies
    ensures HasExit(graph, node) <==> exists d :: d in open && d in dependencies
  {
    hide Edge;
  }

  /** A non-empty plan whose start dependencies are acyclic has an eligible task. */
  lemma SomeTaskIsEligible(tasks: seq<Task>) returns (i: nat)
    requires Distinct(Ids(tasks)) && Acyclic(GraphOf(tasks)) && tasks != []
    ensures i < |tasks| && Eligible(tasks[i], OpenIds(tasks))
  {
    hide HasExit, Acyclic, Distinct, GraphOf, Eligible;
    GraphEntry(tasks, 0);
    var sink := SinkExists(GraphOf(tasks));
    GraphKeys(tasks, sink);
    i :| 0 <= i < |tasks| && tasks[i].identifier == sink;
    SinkIsEligible(tasks, i);
  }

  /** A non-empty plan without findings has a lane whose line names a next task. */
  lemma GatedPlanNamesNextTask(line: seq<string>, tasks: seq<Task>, recorded: set<string>) returns (section: string)
    requires Sound(line, tasks, recorded) && tasks != []
    ensures section in PLAN_SECTIONS
    ensures LaneLineOf(Ranked(tasks, section, CapabilityOrder(line)), OpenIds(tasks)).Next?
  {
    hide Eligible, LaneLineOf, Ranked, GroupsFollow, OptionalFollows;
    var i := SomeTaskIsEligible(tasks);
    section := tasks[i].section;
    assert Placed(tasks[i], (set c | c in line));
    NextIsLeast(tasks, section, CapabilityOrder(line));
  }

  function Removed(tasks: seq<Task>, i: nat): seq<Task>
    requires i < |tasks|
  {
    tasks[..i] + tasks[i + 1..]
  }

  /** Finishing tasks one by one, each eligible when its turn comes. */
  ghost predicate Workable(tasks: seq<Task>, picks: seq<nat>)
    decreases |picks|
  {
    picks == [] ||
    (picks[0] < |tasks| && Eligible(tasks[picks[0]], OpenIds(tasks)) && Workable(Removed(tasks, picks[0]), picks[1..]))
  }

  ghost function Remaining(tasks: seq<Task>, picks: seq<nat>): seq<Task>
    requires Workable(tasks, picks)
    decreases |picks|
  {
    if picks == [] then tasks else Remaining(Removed(tasks, picks[0]), picks[1..])
  }

  lemma RemovalKeepsIds(tasks: seq<Task>, i: nat)
    requires i < |tasks| && Distinct(Ids(tasks))
    ensures Distinct(Ids(Removed(tasks, i)))
  {
    var rest := Removed(tasks, i);
    forall a, b | 0 <= a < b < |rest| ensures Ids(rest)[a] != Ids(rest)[b] {
      var a', b' := if a < i then a else a + 1, if b < i then b else b + 1;
      assert tasks[a'] == rest[a] && tasks[b'] == rest[b];
      assert Ids(tasks)[a'] != Ids(tasks)[b'];
    }
  }

  lemma RemovalKeepsGate(tasks: seq<Task>, i: nat)
    requires i < |tasks| && Distinct(Ids(tasks)) && Acyclic(GraphOf(tasks))
    ensures Distinct(Ids(Removed(tasks, i))) && Acyclic(GraphOf(Removed(tasks, i)))
  {
    hide StartDependencies, GraphOf, Edge, Distinct, Ids, Removed;
    var rest := Removed(tasks, i);
    RemovalKeepsIds(tasks, i);
    forall walk ensures !ClosedWalk(GraphOf(rest), walk) {
      if ClosedWalk(GraphOf(rest), walk) {
        forall k | 0 <= k < |walk| - 1 ensures Edge(GraphOf(tasks), walk[k], walk[k + 1]) {
          assert Edge(GraphOf(rest), walk[k], walk[k + 1]);
          EdgeSurvives(tasks, i, walk[k], walk[k + 1]);
        }
        assert !ClosedWalk(GraphOf(tasks), walk);
      }
    }
  }

  lemma EdgeSurvives(tasks: seq<Task>, i: nat, from: string, to: string)
    requires i < |tasks| && Distinct(Ids(tasks)) && Distinct(Ids(Removed(tasks, i)))
    requires Edge(GraphOf(Removed(tasks, i)), from, to)
    ensures Edge(GraphOf(tasks), from, to)
  {
    hide StartDependencies, GraphOf, Edge, OpenIds, Ids, Distinct;
    var rest := Removed(tasks, i);
    var a := HolderOf(rest, from, to);
    EdgeMeans(rest, a, to);
    EdgeMeans(tasks, if a < i then a else a + 1, to);
    RemovalKeepsOpen(tasks, i, to);
  }

  lemma RemovalKeepsOpen(tasks: seq<Task>, i: nat, id: string)
    requires i < |tasks| && id in OpenIds(Removed(tasks, i))
    ensures id in OpenIds(tasks)
  {
    var rest := Removed(tasks, i);
    var b :| 0 <= b < |rest| && rest[b].identifier == id;
    assert tasks[if b < i then b else b + 1] == rest[b];
  }

  lemma HolderOf(tasks: seq<Task>, from: string, to: string) returns (a: nat)
    requires Edge(GraphOf(tasks), from, to)
    ensures a < |tasks| && tasks[a].identifier == from
  {
    hide StartDependencies, GraphOf;
    GraphKeys(tasks, from);
    a :| 0 <= a < |tasks| && tasks[a].identifier == from;
  }

  /**
   Scheduler deadlock-freedom: however eligible tasks are picked, each pick removes one task, and as
   long as any is left some task is eligible, so every maximal order empties the plan in exactly as
   many steps as it has tasks.
   */
  lemma {:induction false} PlanEmpties(tasks: seq<Task>, picks: seq<nat>)
    requires Distinct(Ids(tasks)) && Acyclic(GraphOf(tasks)) && Workable(tasks, picks)
    ensures |Remaining(tasks, picks)| == |tasks| - |picks|
    ensures var rest := Remaining(tasks, picks);
      (rest == [] <==> |picks| == |tasks|) &&
      (rest != [] ==> exists i :: 0 <= i < |rest| && Eligible(rest[i], OpenIds(rest)))
    decreases |picks|
  {
    hide Eligible, GraphOf;
    if picks == [] {
      if tasks != [] {
        var i := SomeTaskIsEligible(tasks);
      }
    } else {
      RemovalKeepsGate(tasks, picks[0]);
      PlanEmpties(Removed(tasks, picks[0]), picks[1..]);
    }
  }

  /** In a gated plan every start dependency is an open task or a recorded finished one, never the task itself. */
  lemma StartDependenciesAreKnown(line: seq<string>, tasks: seq<Task>, recorded: set<string>, i: nat, dependency: string)
    requires Sound(line, tasks, recorded) && i < |tasks| && dependency in StartDependencies(tasks[i])
    ensures dependency != tasks[i].identifier && (dependency in OpenIds(tasks) || dependency in recorded)
  {
    hide StartDependencies, DependencyReferences, GroupsFollow, OptionalFollows, Placed, Acyclic;
    StartDependenciesComeFirst(tasks[i]);
    var k :| 0 <= k < |StartDependencies(tasks[i])| && StartDependencies(tasks[i])[k] == dependency;
    assert DependencyReferences(tasks[i])[k] == dependency;
    assert dependency in DependencyReferences(tasks[i]);
    assert KnownReferences(tasks[i], OpenIds(tasks), recorded);
  }
}

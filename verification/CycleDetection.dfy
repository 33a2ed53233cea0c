/** Start-dependency cycles: the coloured depth-first search over a task graph. */
module CycleDetection {
  import opened Sequences

  type Graph = map<string, seq<string>>

  /** An edge between two tasks of the graph; dependencies on other names are ignored. */
  ghost predicate Edge(graph: Graph, from: string, to: string) {
    from in graph && to in graph && to in graph[from]
  }

  ghost predicate Walk(graph: Graph, walk: seq<string>) {
    forall i :: 0 <= i < |walk| - 1 ==> Edge(graph, walk[i], walk[i + 1])
  }

  /** A walk along at least one edge that returns to where it started. */
  ghost predicate ClosedWalk(graph: Graph, walk: seq<string>) {
    |walk| >= 2 && walk[0] == walk[|walk| - 1] && Walk(graph, walk)
  }

  /** A closed walk that meets no other task twice. */
  ghost predicate Cycle(graph: Graph, walk: seq<string>) {
    ClosedWalk(graph, walk) && Distinct(walk[..|walk| - 1])
  }

  ghost predicate Acyclic(graph: Graph) {
    forall walk :: !ClosedWalk(graph, walk)
  }

  /** The edge a reported cycle was closed by. */
  predicate Closes(finding: seq<string>, from: string, to: string) {
    |finding| >= 2 && finding[|finding| - 2] == from && finding[|finding| - 1] == to
  }

  predicate Reported(findings: seq<seq<string>>, from: string, to: string) {
    exists i :: 0 <= i < |findings| && Closes(findings[i], from, to)
  }

  /** The graph with the closing edge of every report deleted. */
  function Without(graph: Graph, findings: seq<seq<string>>): Graph {
    map node | node in graph :: Kept(graph[node], node, findings)
  }

  function Kept(dependencies: seq<string>, node: string, findings: seq<seq<string>>): seq<string> {
    if dependencies == [] then []
    else
      var rest := Kept(dependencies[1..], node, findings);
      if Reported(findings, node, dependencies[0]) then rest else [dependencies[0]] + rest
  }

  lemma {:induction false} KeptExact(dependencies: seq<string>, node: string, findings: seq<seq<string>>, to: string)
    ensures to in Kept(dependencies, node, findings) <==> to in dependencies && !Reported(findings, node, to)
  {
    if dependencies != [] {
      KeptExact(dependencies[1..], node, findings, to);
      assert dependencies == [dependencies[0]] + dependencies[1..];
    }
  }

  // ---------------------------------------------------------------- a finishing order rules out cycles

  function IndexOf(path: seq<string>, node: string): (i: nat)
    requires node in path
    ensures i < |path| && path[i] == node && node !in path[..i]
  {
    if path[0] == node then 0
    else
      assert node in path[1..];
      assert path[..1 + IndexOf(path[1..], node)] == [path[0]] + path[1..][..IndexOf(path[1..], node)];
      1 + IndexOf(path[1..], node)
  }

  /** Every edge of a finished node was reported, or leads to a node finished before it. */
  ghost predicate FinishedEarlier(graph: Graph, finish: seq<string>, findings: seq<seq<string>>) {
    forall u, v {:trigger Edge(graph, finish[u], v)} :: 0 <= u < |finish| && Edge(graph, finish[u], v) ==>
      Reported(findings, finish[u], v) || v in finish[..u]
  }

  lemma {:induction false} WalkDescends(graph: Graph, finish: seq<string>, findings: seq<seq<string>>, walk: seq<string>, n: nat)
    requires Distinct(finish) && FinishedEarlier(graph, finish, findings)
    requires forall node :: node in graph ==> node in finish
    requires |walk| >= 1 && n < |walk| && Walk(graph, walk) && walk[0] in finish
    requires forall i :: 0 <= i < n ==> !Reported(findings, walk[i], walk[i + 1])
    ensures walk[n] in finish && IndexOf(finish, walk[n]) + n <= IndexOf(finish, walk[0])
  {
    if n > 0 {
      WalkDescends(graph, finish, findings, walk, n - 1);
      var u := IndexOf(finish, walk[n - 1]);
      assert Edge(graph, walk[n - 1], walk[n - 1 + 1]);
      assert Edge(graph, finish[u], walk[n]);
      var v := IndexOf(finish, walk[n]);
      assert walk[n] in finish[..u];
      var w :| 0 <= w < u && finish[w] == walk[n];
      assert v == w;
    }
  }

  /** Deleting the closing edges leaves no closed walk. */
  lemma RemainderIsAcyclic(graph: Graph, finish: seq<string>, findings: seq<seq<string>>)
    requires Distinct(finish) && FinishedEarlier(graph, finish, findings)
    requires forall node :: node in graph ==> node in finish
    ensures Acyclic(Without(graph, findings))
  {
    forall walk ensures !ClosedWalk(Without(graph, findings), walk) {
      if ClosedWalk(Without(graph, findings), walk) {
        forall i | 0 <= i < |walk| - 1
          ensures Edge(graph, walk[i], walk[i + 1]) && !Reported(findings, walk[i], walk[i + 1])
        {
          assert Edge(Without(graph, findings), walk[i], walk[i + 1]);
          KeptExact(graph[walk[i]], walk[i], findings, walk[i + 1]);
        }
        assert Edge(graph, walk[0], walk[0 + 1]);
        WalkDescends(graph, finish, findings, walk, |walk| - 1);
      }
    }
  }

  // ---------------------------------------------------------------- the search

  const ON_PATH := 1
  const EXPLORED := 2

  /** The search state agrees with the current path and the finishing order. */
  ghost predicate Consistent(graph: Graph, state: map<string, int>, findings: seq<seq<string>>,
                             finish: seq<string>, path: seq<string>)
  {
    && state.Keys <= graph.Keys
    && (forall node :: node in state ==> state[node] == ON_PATH || state[node] == EXPLORED)
    && (forall node :: node in state && state[node] == ON_PATH <==> node in path)
    && (forall node :: node in state && state[node] == EXPLORED <==> node in finish)
    && Distinct(finish) && Distinct(path) && Walk(graph, path)
    && FinishedEarlier(graph, finish, findings)
    && (forall i :: 0 <= i < |findings| ==> Cycle(graph, findings[i]))
  }

  /** The first `n` dependencies of a node are settled: foreign, finished, or reported. */
  ghost predicate Settled(graph: Graph, findings: seq<seq<string>>, finish: seq<string>, node: string, n: nat)
    requires node in graph && n <= |graph[node]|
  {
    forall k :: 0 <= k < n && graph[node][k] in graph ==>
      Reported(findings, node, graph[node][k]) || graph[node][k] in finish
  }

  lemma BackEdgeClosesCycle(graph: Graph, path: seq<string>, dependency: string)
    requires path != [] && Walk(graph, path) && Distinct(path) && dependency in path
    requires Edge(graph, path[|path| - 1], dependency)
    ensures var cycle := path[IndexOf(path, dependency)..] + [dependency];
      Cycle(graph, cycle) && Closes(cycle, path[|path| - 1], dependency)
  {
    hide IndexOf, Distinct;
    var start := IndexOf(path, dependency);
    var cycle := path[start..] + [dependency];
    DistinctFrom(path, start);
    assert cycle[..|cycle| - 1] == path[start..];
    forall i | 0 <= i < |cycle| - 1 ensures Edge(graph, cycle[i], cycle[i + 1]) {
      if i < |cycle| - 2 {
        assert Edge(graph, path[start + i], path[start + i + 1]);
      }
    }
  }

  lemma DistinctFrom(path: seq<string>, start: nat)
    requires Distinct(path) && start <= |path|
    ensures Distinct(path[start..])
  {
  }

  lemma ReportedMore(findings: seq<seq<string>>, finding: seq<string>, from: string, to: string)
    ensures Reported(findings, from, to) ==> Reported(findings + [finding], from, to)
    ensures Closes(finding, from, to) ==> Reported(findings + [finding], from, to)
  {
    var more := findings + [finding];
    if Reported(findings, from, to) {
      var i :| 0 <= i < |findings| && Closes(findings[i], from, to);
      assert more[i] == findings[i];
    }
    assert more[|findings|] == finding;
  }

  lemma FinishedMore(graph: Graph, findings: seq<seq<string>>, finish: seq<string>, node: string)
    requires node in graph && node !in finish && FinishedEarlier(graph, finish, findings)
    requires Settled(graph, findings, finish, node, |graph[node]|)
    ensures FinishedEarlier(graph, finish + [node], findings)
  {
    var more := finish + [node];
    forall u, v | 0 <= u < |more| && Edge(graph, more[u], v)
      ensures Reported(findings, more[u], v) || v in more[..u]
    {
      if u < |finish| {
        assert Edge(graph, finish[u], v);
        assert more[..u] == finish[..u];
      } else {
        assert more[..u] == finish;
        var k :| 0 <= k < |graph[node]| && graph[node][k] == v;
      }
    }
  }

  lemma FinishedWithMoreReports(graph: Graph, findings: seq<seq<string>>, finish: seq<string>, finding: seq<string>)
    requires FinishedEarlier(graph, finish, findings)
    ensures FinishedEarlier(graph, finish, findings + [finding])
  {
    forall u, v | 0 <= u < |finish| && Edge(graph, finish[u], v)
      ensures Reported(findings + [finding], finish[u], v) || v in finish[..u]
    {
      ReportedMore(findings, finding, finish[u], v);
    }
  }

  lemma Enter(graph: Graph, state: map<string, int>, findings: seq<seq<string>>, finish: seq<string>,
              path: seq<string>, node: string)
    requires Consistent(graph, state, findings, finish, path)
    requires node in graph && node !in state && Walk(graph, path + [node])
    ensures Consistent(graph, state[node := ON_PATH], findings, finish, path + [node])
    ensures node !in finish
  {
  }

  lemma Leave(graph: Graph, state: map<string, int>, findings: seq<seq<string>>, finish: seq<string>,
              path: seq<string>, node: string)
    requires Consistent(graph, state, findings, finish, path + [node])
    requires node in graph && Settled(graph, findings, finish, node, |graph[node]|)
    ensures Consistent(graph, state[node := EXPLORED], findings, finish + [node], path)
  {
    var whole := path + [node];
    assert whole[|path|] == node;
    assert node in state && node !in finish;
    FinishedMore(graph, findings, finish, node);
    assert Walk(graph, path) by {
      forall i | 0 <= i < |path| - 1 ensures Edge(graph, path[i], path[i + 1]) {
        assert Edge(graph, whole[i], whole[i + 1]);
      }
    }
    assert forall i :: 0 <= i < |path| ==> path[i] == whole[i];
  }

  /** Not on the path and not finished means not met yet, and the other way round. */
  lemma Colours(graph: Graph, state: map<string, int>, findings: seq<seq<string>>, finish: seq<string>,
                path: seq<string>, node: string)
    requires Consistent(graph, state, findings, finish, path)
    ensures node in state && state[node] == ON_PATH <==> node in path
    ensures node in state && state[node] == EXPLORED <==> node in finish
    ensures node in state ==> state[node] == ON_PATH || state[node] == EXPLORED
  {
  }

  lemma WalkMore(graph: Graph, path: seq<string>, node: string)
    requires path != [] && Walk(graph, path) && Edge(graph, path[|path| - 1], node)
    ensures Walk(graph, path + [node])
  {
    var more := path + [node];
    forall i | 0 <= i < |more| - 1 ensures Edge(graph, more[i], more[i + 1]) {
      if i < |path| - 1 { assert Edge(graph, path[i], path[i + 1]); }
    }
  }

  class CycleSearch {
    const graph: Graph
    var state: map<string, int>
    var findings: seq<seq<string>>
    ghost var finish: seq<string>

    constructor (graph: Graph)
      ensures this.graph == graph
      ensures state == map[] && findings == [] && finish == []
    {
      this.graph := graph;
      state, findings, finish := map[], [], [];
    }

    /** Append the cycle an edge back onto the current path closes. */
    method Report(path: seq<string>, dependency: string)
      requires path != [] && Consistent(graph, state, findings, finish, path)
      requires dependency in path && Edge(graph, path[|path| - 1], dependency)
      modifies this`findings
      ensures Consistent(graph, state, findings, finish, path)
      ensures Reported(findings, path[|path| - 1], dependency)
      ensures old(findings) <= findings
    {
      var cycle := path[IndexOf(path, dependency)..] + [dependency];
      BackEdgeClosesCycle(graph, path, dependency);
      FinishedWithMoreReports(graph, findings, finish, cycle);
      ReportedMore(findings, cycle, path[|path| - 1], dependency);
      findings := findings + [cycle];
    }

    method Visit(node: string, ghost front: seq<string>, path: seq<string>)
      requires node in graph && node !in state
      requires path == front + [node] && Walk(graph, path)
      requires Consistent(graph, state, findings, finish, front)
      modifies this`state, this`findings, this`finish
      ensures Consistent(graph, state, findings, finish, front)
      ensures node in finish && old(finish) <= finish && old(findings) <= findings
      ensures old(state.Keys) <= state.Keys
      decreases graph.Keys - state.Keys
    {
      hide Consistent, Settled, Walk, FinishedEarlier, Reported;
      Enter(graph, state, findings, finish, front, node);
      state := state[node := ON_PATH];
      SettledNothing(graph, findings, finish, node);
      for i := 0 to |graph[node]|
        invariant Consistent(graph, state, findings, finish, path)
        invariant old(finish) <= finish && old(findings) <= findings
        invariant old(state.Keys) + {node} <= state.Keys
        invariant Settled(graph, findings, finish, node, i)
      {
        var dependency := graph[node][i];
        ghost var before, finished := findings, finish;
        Colours(graph, state, findings, finish, path, dependency);
        if dependency !in graph || (dependency in state && state[dependency] == EXPLORED) {
          SettledMore(graph, before, findings, finished, finish, node, i);
          continue;
        }
        assert Edge(graph, node, dependency);
        if dependency in state && state[dependency] == ON_PATH {
          Report(path, dependency);
        } else {
          WalkMore(graph, path, dependency);
          Visit(dependency, path, path + [dependency]);
        }
        SettledMore(graph, before, findings, finished, finish, node, i);
      }
      Leave(graph, state, findings, finish, front, node);
      state := state[node := EXPLORED];
      finish := finish + [node];
    }

    /** Search from every task, in plan order. */
    method Search(order: seq<string>)
      requires forall node :: node in order <==> node in graph
      requires state == map[] && findings == [] && finish == []
      modifies this`state, this`findings, this`finish
      ensures forall i :: 0 <= i < |findings| ==> Cycle(graph, findings[i])
      ensures Acyclic(Without(graph, findings))
    {
      for i := 0 to |order|
        invariant Consistent(graph, state, findings, finish, [])
        invariant forall k :: 0 <= k < i ==> order[k] in state
      {
        if order[i] !in state {
          Visit(order[i], [], [order[i]]);
        }
      }
      RemainderIsAcyclic(graph, finish, findings);
    }
  }

  lemma SettledNothing(graph: Graph, findings: seq<seq<string>>, finish: seq<string>, node: string)
    requires node in graph
    ensures Settled(graph, findings, finish, node, 0)
  {
  }

  lemma SettledMore(graph: Graph, before: seq<seq<string>>, findings: seq<seq<string>>, finished: seq<string>,
                    finish: seq<string>, node: string, n: nat)
    requires node in graph && n < |graph[node]| && before <= findings && finished <= finish
    requires Settled(graph, before, finished, node, n)
    requires graph[node][n] in graph ==> Reported(findings, node, graph[node][n]) || graph[node][n] in finish
    ensures Settled(graph, findings, finish, node, n + 1)
  {
    forall k | 0 <= k < n && graph[node][k] in graph
      ensures Reported(findings, node, graph[node][k]) || graph[node][k] in finish
    {
      if Reported(before, node, graph[node][k]) {
        var i :| 0 <= i < |before| && Closes(before[i], node, graph[node][k]);
        assert findings[i] == before[i];
      }
    }
  }

  /** Report every start-dependency cycle of a plan, one per edge back onto the search path. */
  method CycleFindings(graph: Graph, order: seq<string>) returns (findings: seq<seq<string>>)
    requires forall node :: node in order <==> node in graph
    ensures forall i :: 0 <= i < |findings| ==> Cycle(graph, findings[i])
    ensures Acyclic(Without(graph, findings))
    ensures findings == [] <==> Acyclic(graph)
  {
    var search := new CycleSearch(graph);
    search.Search(order);
    findings := search.findings;
    if findings == [] {
      NothingDeleted(graph);
    } else {
      assert ClosedWalk(graph, findings[0]);
    }
  }

  lemma NothingDeleted(graph: Graph)
    requires Acyclic(Without(graph, []))
    ensures Acyclic(graph)
  {
    forall walk ensures !ClosedWalk(graph, walk) {
      if ClosedWalk(graph, walk) {
        forall i | 0 <= i < |walk| - 1 ensures Edge(Without(graph, []), walk[i], walk[i + 1]) {
          assert Edge(graph, walk[i], walk[i + 1]);
          KeptExact(graph[walk[i]], walk[i], [], walk[i + 1]);
        }
        assert ClosedWalk(Without(graph, []), walk);
      }
    }
  }
}

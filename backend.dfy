/** The pipeline analysis service: `is_dag` (adjacency list plus a depth-first search with a
    recursion stack) and `parse_pipeline`, which reports the raw list lengths and the verdict. */
module Backend {

  /** Request records after validation: every id, source and target is a string. */
  datatype Node = Node(id: string)
  datatype Edge = Edge(source: string, target: string)
  datatype Pipeline = Pipeline(nodes: seq<Node>, edges: seq<Edge>)

  /** The response body `{num_nodes, num_edges, is_dag}`. */
  datatype Analysis = Analysis(numNodes: nat, numEdges: nat, isDag: bool)

  /** `adj_list`: node id to the targets of its outgoing edges, in edge order. */
  type Adjacency = map<string, seq<string>>

  function NodeIds(nodes: seq<Node>): set<string> {
    set n | n in nodes :: n.id
  }

  // ---------------------------------------------------------------------------
  // The graph the verdict is about
  // ---------------------------------------------------------------------------

  /** An edge u -> v counts for cycle detection when its source is a listed node. */
  ghost predicate Step(nodes: seq<Node>, edges: seq<Edge>, u: string, v: string) {
    u in NodeIds(nodes) && Edge(u, v) in edges
  }

  /** A walk of at least one step along counted edges. */
  ghost predicate IsWalk(nodes: seq<Node>, edges: seq<Edge>, w: seq<string>) {
    |w| >= 2 && forall i :: 0 <= i < |w| - 1 ==> Step(nodes, edges, w[i], w[i + 1])
  }

  /** A directed cycle: a walk that returns to where it started. */
  ghost predicate HasCycle(nodes: seq<Node>, edges: seq<Edge>) {
    exists w :: IsWalk(nodes, edges, w) && w[0] == w[|w| - 1]
  }

  /** A self-loop on a listed node is a cycle. */
  lemma SelfLoopIsCycle(nodes: seq<Node>, edges: seq<Edge>, a: string)
    requires a in NodeIds(nodes) && Edge(a, a) in edges
    ensures HasCycle(nodes, edges)
  {
    assert IsWalk(nodes, edges, [a, a]);
  }

  /** Every id on a cycle is a listed node: an id that is only an edge target has no
      outgoing edges and can never lie on a cycle. */
  lemma CycleStaysOnListedNodes(nodes: seq<Node>, edges: seq<Edge>, w: seq<string>, i: nat)
    requires IsWalk(nodes, edges, w) && w[0] == w[|w| - 1] && i < |w|
    ensures w[i] in NodeIds(nodes)
  {
    if i == |w| - 1 {
      assert Step(nodes, edges, w[0], w[1]);
    } else {
      assert Step(nodes, edges, w[i], w[i + 1]);
    }
  }

  /** With no listed node there is nothing to form a cycle. */
  lemma NoNodesNoCycle(edges: seq<Edge>)
    ensures !HasCycle([], edges)
  {
    forall w | |w| >= 2
      ensures !IsWalk([], edges, w)
    {
      assert !Step([], edges, w[0], w[1]);
    }
  }

  /** An edge whose source is not a listed node changes nothing, wherever it sits. */
  lemma UnlistedSourceIgnored(nodes: seq<Node>, before: seq<Edge>, e: Edge, after: seq<Edge>)
    requires e.source !in NodeIds(nodes)
    ensures HasCycle(nodes, before + [e] + after) <==> HasCycle(nodes, before + after)
  {
    SameStepsSameCycles(nodes, before + [e] + after, before + after);
  }

  /** The verdict depends only on which edges are present, not on their order or
      repetition. */
  lemma EdgeOrderIrrelevant(nodes: seq<Node>, edges1: seq<Edge>, edges2: seq<Edge>)
    requires forall e :: e in edges1 <==> e in edges2
    ensures HasCycle(nodes, edges1) <==> HasCycle(nodes, edges2)
  {
    SameStepsSameCycles(nodes, edges1, edges2);
  }

  /** Two edge lists with the same counted steps have the same cycles. */
  lemma SameStepsSameCycles(nodes: seq<Node>, edges1: seq<Edge>, edges2: seq<Edge>)
    requires forall u, v :: Step(nodes, edges1, u, v) <==> Step(nodes, edges2, u, v)
    ensures HasCycle(nodes, edges1) <==> HasCycle(nodes, edges2)
  {
    if HasCycle(nodes, edges1) {
      var w :| IsWalk(nodes, edges1, w) && w[0] == w[|w| - 1];
      assert IsWalk(nodes, edges2, w);
    }
    if HasCycle(nodes, edges2) {
      var w :| IsWalk(nodes, edges2, w) && w[0] == w[|w| - 1];
      assert IsWalk(nodes, edges1, w);
    }
  }

  /** A potential that every counted edge strictly lowers rules out cycles. */
  lemma PotentialRulesOutCycles(nodes: seq<Node>, edges: seq<Edge>, f: string -> nat)
    requires forall u, v :: Step(nodes, edges, u, v) ==> f(v) < f(u)
    ensures !HasCycle(nodes, edges)
  {
    if HasCycle(nodes, edges) {
      var w :| IsWalk(nodes, edges, w) && w[0] == w[|w| - 1];
      PotentialDecreasesAlongWalk(nodes, edges, f, w, |w| - 1);
    }
  }

  lemma {:induction false} PotentialDecreasesAlongWalk(nodes: seq<Node>, edges: seq<Edge>,
                                                       f: string -> nat, w: seq<string>, k: nat)
    requires forall u, v :: Step(nodes, edges, u, v) ==> f(v) < f(u)
    requires IsWalk(nodes, edges, w) && 1 <= k < |w|
    ensures f(w[k]) < f(w[0])
  {
    assert Step(nodes, edges, w[k - 1], w[k]);
    if k > 1 {
      PotentialDecreasesAlongWalk(nodes, edges, f, w, k - 1);
    }
  }

  /** Nodes A, B, C with edges A -> B and B -> C form a DAG; adding C -> A closes a cycle. */
  lemma ChainExample()
    ensures !HasCycle([Node("A"), Node("B"), Node("C")], [Edge("A", "B"), Edge("B", "C")])
    ensures HasCycle([Node("A"), Node("B"), Node("C")],
                     [Edge("A", "B"), Edge("B", "C"), Edge("C", "A")])
  {
    var nodes := [Node("A"), Node("B"), Node("C")];
    var chain := [Edge("A", "B"), Edge("B", "C")];
    var f := (x: string) => if x == "A" then 2 else if x == "B" then 1 else 0;
    forall u, v | Step(nodes, chain, u, v)
      ensures f(v) < f(u)
    {
      assert Edge(u, v) == chain[0] || Edge(u, v) == chain[1];
    }
    PotentialRulesOutCycles(nodes, chain, f);
    var loop := chain + [Edge("C", "A")];
    assert NodeIds(nodes) == {"A", "B", "C"};
    assert IsWalk(nodes, loop, ["A", "B", "C", "A"]) by {
      assert Step(nodes, loop, "A", "B") && Step(nodes, loop, "B", "C") && Step(nodes, loop, "C", "A") by {
        assert loop[0] == Edge("A", "B") && loop[1] == Edge("B", "C") && loop[2] == Edge("C", "A");
      }
    }
  }

  // ---------------------------------------------------------------------------
  // Adjacency construction
  // ---------------------------------------------------------------------------

  /** The targets of the edges leaving `u`, in the order the edges are listed. */
  function TargetsFrom(edges: seq<Edge>, u: string): seq<string>
  {
    if edges == [] then []
    else
      var last := edges[|edges| - 1];
      TargetsFrom(edges[..|edges| - 1], u) + (if last.source == u then [last.target] else [])
  }

  lemma {:induction false} TargetsFromMembers(edges: seq<Edge>, u: string, v: string)
    ensures v in TargetsFrom(edges, u) <==> Edge(u, v) in edges
  {
    if edges != [] {
      var init := edges[..|edges| - 1];
      TargetsFromMembers(init, u, v);
      assert edges == init + [edges[|edges| - 1]];
    }
  }

  /** Builds `adj_list`: one entry per listed id, then each edge appended to its source's
      list when the source is listed. */
  method BuildAdjacency(nodes: seq<Node>, edges: seq<Edge>) returns (adj: Adjacency)
    ensures adj.Keys == NodeIds(nodes)
    ensures forall u :: u in adj ==> adj[u] == TargetsFrom(edges, u)
  {
    adj := map[];
    for i := 0 to |nodes|
      invariant adj.Keys == NodeIds(nodes[..i])
      invariant forall u :: u in adj ==> adj[u] == []
    {
      assert nodes[..i + 1] == nodes[..i] + [nodes[i]];
      adj := adj[nodes[i].id := []];
    }
    assert nodes[..|nodes|] == nodes;
    for j := 0 to |edges|
      invariant adj.Keys == NodeIds(nodes)
      invariant forall u :: u in adj ==> adj[u] == TargetsFrom(edges[..j], u)
    {
      assert edges[..j + 1][..j] == edges[..j];
      var e := edges[j];
      if e.source in adj {
        adj := adj[e.source := adj[e.source] + [e.target]];
      }
    }
    assert edges[..|edges|] == edges;
  }

  // ---------------------------------------------------------------------------
  // The graph as the search sees it
  // ---------------------------------------------------------------------------

  /** `adj_list.get(node_id, [])`. */
  function Successors(adj: Adjacency, u: string): seq<string> {
    if u in adj then adj[u] else []
  }

  ghost predicate AdjWalk(adj: Adjacency, w: seq<string>) {
    |w| >= 2 && forall i :: 0 <= i < |w| - 1 ==> w[i + 1] in Successors(adj, w[i])
  }

  ghost predicate AdjHasCycle(adj: Adjacency) {
    exists w :: AdjWalk(adj, w) && w[0] == w[|w| - 1]
  }

  /** Every id the search can be called on: the listed ids and every edge target. */
  function Universe(adj: Adjacency): set<string> {
    adj.Keys + set u, v | u in adj && v in adj[u] :: v
  }

  /** The built adjacency has exactly the counted edges as its steps. */
  lemma AdjacencySteps(nodes: seq<Node>, edges: seq<Edge>, adj: Adjacency, u: string, v: string)
    requires adj.Keys == NodeIds(nodes)
    requires forall x :: x in adj ==> adj[x] == TargetsFrom(edges, x)
    ensures v in Successors(adj, u) <==> Step(nodes, edges, u, v)
  {
    TargetsFromMembers(edges, u, v);
  }

  /** The search's graph has a cycle exactly when the counted edges do. */
  lemma AdjacencyCycles(nodes: seq<Node>, edges: seq<Edge>, adj: Adjacency)
    requires adj.Keys == NodeIds(nodes)
    requires forall x :: x in adj ==> adj[x] == TargetsFrom(edges, x)
    ensures AdjHasCycle(adj) <==> HasCycle(nodes, edges)
  {
    forall w | |w| >= 2
      ensures AdjWalk(adj, w) <==> IsWalk(nodes, edges, w)
    {
      forall i | 0 <= i < |w| - 1
        ensures w[i + 1] in Successors(adj, w[i]) <==> Step(nodes, edges, w[i], w[i + 1])
      {
        AdjacencySteps(nodes, edges, adj, w[i], w[i + 1]);
      }
    }
    if AdjHasCycle(adj) {
      var w :| AdjWalk(adj, w) && w[0] == w[|w| - 1];
      assert IsWalk(nodes, edges, w);
    }
    if HasCycle(nodes, edges) {
      var w :| IsWalk(nodes, edges, w) && w[0] == w[|w| - 1];
      assert AdjWalk(adj, w);
    }
  }

  // ---------------------------------------------------------------------------
  // Why the search is right
  // ---------------------------------------------------------------------------

  /** The finished ids, each with the time it finished: every successor of a finished id
      finished earlier. */
  ghost predicate Finished(adj: Adjacency, rank: map<string, nat>, clock: nat) {
    forall b :: b in rank ==>
      rank[b] < clock &&
      forall c :: c in Successors(adj, b) ==> c in rank && rank[c] < rank[b]
  }

  /** Consecutive ids on the search path are joined by an edge. */
  ghost predicate Linked(adj: Adjacency, path: seq<string>) {
    forall i :: 0 <= i < |path| - 1 ==> path[i + 1] in Successors(adj, path[i])
  }

  /** An edge from the top of the path back to an id on the path closes a cycle. */
  lemma BackEdgeClosesCycle(adj: Adjacency, path: seq<string>, m: string)
    requires Linked(adj, path)
    requires path != [] && m in path && m in Successors(adj, path[|path| - 1])
    ensures AdjHasCycle(adj)
  {
    var j :| 0 <= j < |path| && path[j] == m;
    var w := path[j..] + [m];
    assert forall i :: 0 <= i < |w| - 1 ==> w[i + 1] in Successors(adj, w[i]) by {
      forall i | 0 <= i < |w| - 1
        ensures w[i + 1] in Successors(adj, w[i])
      {
        if i < |w| - 2 {
          assert w[i] == path[j + i] && w[i + 1] == path[j + i + 1];
        }
      }
    }
    assert AdjWalk(adj, w);
  }

  /** Along a walk out of a finished id, finishing times strictly decrease. */
  lemma {:induction false} RankDecreasesAlongWalk(adj: Adjacency, rank: map<string, nat>, clock: nat,
                                                  w: seq<string>, k: nat)
    requires Finished(adj, rank, clock) && AdjWalk(adj, w) && w[0] in rank
    requires 1 <= k < |w|
    ensures w[k] in rank && rank[w[k]] < rank[w[0]]
  {
    if k > 1 {
      RankDecreasesAlongWalk(adj, rank, clock, w, k - 1);
    }
  }

  /** An id whose successors have all finished may finish next. */
  lemma FinishNext(adj: Adjacency, rank: map<string, nat>, clock: nat, n: string)
    requires Finished(adj, rank, clock) && n !in rank
    requires forall c :: c in Successors(adj, n) ==> c in rank
    ensures Finished(adj, rank[n := clock], clock + 1)
  {
  }

  /** Once every listed id has finished, no cycle exists. */
  lemma RankedGraphIsAcyclic(adj: Adjacency, rank: map<string, nat>, clock: nat)
    requires Finished(adj, rank, clock)
    requires adj.Keys <= rank.Keys
    ensures !AdjHasCycle(adj)
  {
    if AdjHasCycle(adj) {
      var w :| AdjWalk(adj, w) && w[0] == w[|w| - 1];
      assert w[1] in Successors(adj, w[0]);
      RankDecreasesAlongWalk(adj, rank, clock, w, |w| - 1);
    }
  }

  /** What the search keeps true between steps: `rec_stack` is the set of ids on the current
      path, every visited id is on the path or finished, and finished ids are closed under
      successors with decreasing finishing times. */
  ghost predicate SearchInvariant(adj: Adjacency, visited: set<string>, recStack: set<string>,
                                  path: seq<string>, rank: map<string, nat>, clock: nat) {
    && recStack == (set x | x in path)
    && Linked(adj, path)
    && visited == recStack + rank.Keys
    && recStack !! rank.Keys
    && Finished(adj, rank, clock)
  }

  /** Entering an unvisited successor of the top of the path. */
  lemma Enter(adj: Adjacency, visited: set<string>, recStack: set<string>,
              path: seq<string>, rank: map<string, nat>, clock: nat, n: string)
    requires SearchInvariant(adj, visited, recStack, path, rank, clock)
    requires n !in visited && (path != [] ==> n in Successors(adj, path[|path| - 1]))
    ensures SearchInvariant(adj, visited + {n}, recStack + {n}, path + [n], rank, clock)
  {
    assert (set x | x in path + [n]) == (set x | x in path) + {n};
  }

  /** Leaving an id once all of its successors have finished. */
  lemma Leave(adj: Adjacency, visited: set<string>, recStack: set<string>,
              path: seq<string>, rank: map<string, nat>, clock: nat, n: string)
    requires SearchInvariant(adj, visited, recStack, path + [n], rank, clock)
    requires n !in path
    requires forall c :: c in Successors(adj, n) ==> c in rank
    ensures SearchInvariant(adj, visited, recStack - {n}, path, rank[n := clock], clock + 1)
  {
    assert (set x | x in path + [n]) == (set x | x in path) + {n};
    FinishNext(adj, rank, clock, n);
    assert Linked(adj, path) by {
      forall i | 0 <= i < |path| - 1
        ensures path[i + 1] in Successors(adj, path[i])
      {
        assert path[i] == (path + [n])[i] && path[i + 1] == (path + [n])[i + 1];
      }
    }
  }

  // ---------------------------------------------------------------------------
  // The search
  // ---------------------------------------------------------------------------

  /** The state `has_cycle_dfs` closes over: the adjacency list and the `visited` and
      `rec_stack` sets. The ghost `path` is `rec_stack` in call order, `rank` records when
      each id left the stack, `clock` counts departures. */
  class CycleSearch {
    const adj: Adjacency
    var visited: set<string>
    var recStack: set<string>
    ghost var path: seq<string>
    ghost var rank: map<string, nat>
    ghost var clock: nat

    ghost predicate Valid()
      reads this
    {
      SearchInvariant(adj, visited, recStack, path, rank, clock)
    }

    constructor (adj: Adjacency)
      ensures Valid() && this.adj == adj
      ensures visited == {} && recStack == {} && path == []
    {
      this.adj := adj;
      visited, recStack := {}, {};
      path, rank, clock := [], map[], 0;
    }

    /** `has_cycle_dfs(n)`: true when a cycle was met below `n`; otherwise `n` has left the
        stack, finished, and the stack is what it was. */
    method HasCycleDfs(n: string) returns (found: bool)
      requires Valid()
      requires n !in visited && n in Universe(adj)
      requires path != [] ==> n in Successors(adj, path[|path| - 1])
      modifies this
      decreases Universe(adj) - visited
      ensures old(visited) <= visited
      ensures found ==> AdjHasCycle(adj)
      ensures !found ==> Valid() && path == old(path) && recStack == old(recStack)
      ensures !found ==> n in rank && old(rank).Keys <= rank.Keys
    {
      Enter(adj, visited, recStack, path, rank, clock, n);
      visited := visited + {n};
      recStack := recStack + {n};
      path := path + [n];
      var succ := Successors(adj, n);
      var i := 0;
      while i < |succ|
        invariant 0 <= i <= |succ|
        invariant Valid()
        invariant path == old(path) + [n] && recStack == old(recStack) + {n}
        invariant old(visited) + {n} <= visited
        invariant old(rank).Keys <= rank.Keys
        invariant forall k :: 0 <= k < i ==> succ[k] in rank
      {
        var m := succ[i];
        if m !in visited {
          assert n in adj && m in adj[n];
          assert m in Universe(adj);
          found := HasCycleDfs(m);
          if found {
            return;
          }
        } else if m in recStack {
          BackEdgeClosesCycle(adj, path, m);
          return true;
        }
        i := i + 1;
      }
      assert forall c :: c in succ ==> c in rank;
      Leave(adj, visited, recStack, old(path), rank, clock, n);
      recStack := recStack - {n};
      path := old(path);
      rank := rank[n := clock];
      clock := clock + 1;
      found := false;
    }

    /** One turn of the outer loop: searches from `n` unless it was already visited. */
    method Visit(n: string) returns (found: bool)
      requires Valid() && path == [] && recStack == {} && n in adj
      modifies this
      ensures found ==> AdjHasCycle(adj)
      ensures !found ==> Valid() && path == [] && recStack == {}
      ensures !found ==> n in rank && old(rank).Keys <= rank.Keys
    {
      if n !in visited {
        found := HasCycleDfs(n);
      } else {
        assert visited == recStack + rank.Keys;
        found := false;
      }
    }
  }

  /** `is_dag`: false exactly when the edges whose source is a listed node form a cycle. */
  method IsDag(nodes: seq<Node>, edges: seq<Edge>) returns (r: bool)
    ensures r <==> !HasCycle(nodes, edges)
  {
    var adj := BuildAdjacency(nodes, edges);
    AdjacencyCycles(nodes, edges, adj);
    var search := new CycleSearch(adj);
    for i := 0 to |nodes|
      invariant search.Valid() && search.adj == adj && search.path == [] && search.recStack == {}
      invariant forall k :: 0 <= k < i ==> nodes[k].id in search.rank
    {
      assert nodes[i].id in adj by {
        assert nodes[i] in nodes;
      }
      var found := search.Visit(nodes[i].id);
      if found {
        return false;
      }
    }
    RankedGraphIsAcyclic(adj, search.rank, search.clock);
    return true;
  }

  /** `parse_pipeline`: the raw list lengths and the `is_dag` verdict. */
  method ParsePipeline(p: Pipeline) returns (a: Analysis)
    ensures a.numNodes == |p.nodes| && a.numEdges == |p.edges|
    ensures a.isDag <==> !HasCycle(p.nodes, p.edges)
  {
    var dag := IsDag(p.nodes, p.edges);
    a := Analysis(|p.nodes|, |p.edges|, dag);
  }
}

/** The submit button: it keeps the edges that exist and have both endpoints, sends the node
    ids and those edges to the analysis service, and reports the service's answer. */
module Submit {
  import opened Js
  import opened Flow
  import Backend

  /** `edge && edge.source && edge.target`. */
  predicate Countable(e: Option<FlowEdge>) {
    e.Some? && Truthy(e.value.source) && Truthy(e.value.target)
  }

  /** `edges.filter(...)`, in the original order. */
  function ValidEdges(edges: seq<Option<FlowEdge>>): (r: seq<FlowEdge>)
    ensures |r| <= |edges|
    ensures forall k :: 0 <= k < |r| ==> Countable(Some(r[k]))
  {
    if edges == [] then []
    else (if Countable(edges[0]) then [edges[0].value] else []) + ValidEdges(edges[1..])
  }

  /** An edge is sent exactly when it is present in the store and has both endpoints. */
  lemma {:induction false} ValidEdgesMembers(edges: seq<Option<FlowEdge>>, e: FlowEdge)
    ensures e in ValidEdges(edges) <==> Some(e) in edges && Countable(Some(e))
  {
    if edges != [] {
      ValidEdgesMembers(edges[1..], e);
      assert edges == [edges[0]] + edges[1..];
    }
  }

  /** Filtering keeps the order: it distributes over concatenation. */
  lemma {:induction false} ValidEdgesAppend(a: seq<Option<FlowEdge>>, b: seq<Option<FlowEdge>>)
    ensures ValidEdges(a + b) == ValidEdges(a) + ValidEdges(b)
  {
    if a == [] {
      assert a + b == b;
    } else {
      assert (a + b)[1..] == a[1..] + b;
      ValidEdgesAppend(a[1..], b);
    }
  }

  /** Nothing is dropped exactly when every entry is a countable edge. */
  lemma {:induction false} ValidEdgesKeepsAll(edges: seq<Option<FlowEdge>>)
    ensures |ValidEdges(edges)| == |edges| <==> forall k :: 0 <= k < |edges| ==> Countable(edges[k])
  {
    if edges != [] {
      ValidEdgesKeepsAll(edges[1..]);
      if Countable(edges[0]) {
        assert forall k :: 1 <= k < |edges| ==> edges[k] == edges[1..][k - 1];
      } else {
        assert |ValidEdges(edges)| < |edges|;
      }
    }
  }

  /** The store's entries for a list of edges. */
  function Lift(edges: seq<FlowEdge>): (r: seq<Option<FlowEdge>>)
    ensures |r| == |edges| && forall k :: 0 <= k < |edges| ==> r[k] == Some(edges[k])
  {
    if edges == [] then [] else [Some(edges[0])] + Lift(edges[1..])
  }

  /** Filtering the filtered edges again changes nothing. */
  lemma ValidEdgesIdempotent(edges: seq<Option<FlowEdge>>)
    ensures ValidEdges(Lift(ValidEdges(edges))) == ValidEdges(edges)
  {
    KeepsCountable(ValidEdges(edges));
  }

  lemma {:induction false} KeepsCountable(es: seq<FlowEdge>)
    requires forall k :: 0 <= k < |es| ==> Countable(Some(es[k]))
    ensures ValidEdges(Lift(es)) == es
  {
    if es != [] {
      assert Lift(es)[1..] == Lift(es[1..]);
      KeepsCountable(es[1..]);
    }
  }

  /** `nodes.map(node => ({ id: node.id }))`. */
  function NodeRecords(nodes: seq<FlowNode>): (r: seq<Backend.Node>)
    ensures |r| == |nodes| && forall k :: 0 <= k < |nodes| ==> r[k].id == nodes[k].id
  {
    if nodes == [] then [] else [Backend.Node(nodes[0].id)] + NodeRecords(nodes[1..])
  }

  /** `validEdges.map(edge => ({ source, target }))`. */
  function EdgeRecords(edges: seq<FlowEdge>): (r: seq<Backend.Edge>)
    requires forall k :: 0 <= k < |edges| ==> edges[k].source.Some? && edges[k].target.Some?
    ensures |r| == |edges|
    ensures forall k :: 0 <= k < |edges| ==>
              r[k] == Backend.Edge(edges[k].source.value, edges[k].target.value)
  {
    if edges == [] then []
    else [Backend.Edge(edges[0].source.value, edges[0].target.value)] + EdgeRecords(edges[1..])
  }

  /** The request body `pipelineData`. */
  function Serialize(nodes: seq<FlowNode>, edges: seq<Option<FlowEdge>>): (p: Backend.Pipeline)
    ensures |p.nodes| == |nodes| && |p.edges| == |ValidEdges(edges)|
  {
    Backend.Pipeline(NodeRecords(nodes), EdgeRecords(ValidEdges(edges)))
  }

  /** Entries that cannot be counted do not change the request: removing them first gives
      the same body. */
  lemma SerializeIgnoresInvalid(nodes: seq<FlowNode>, edges: seq<Option<FlowEdge>>)
    ensures Serialize(nodes, Lift(ValidEdges(edges))) == Serialize(nodes, edges)
  {
    ValidEdgesIdempotent(edges);
  }

  /** A sent edge joins two non-empty ids, and it is sent exactly when a store entry with
      those endpoints exists. */
  lemma SentEdges(nodes: seq<FlowNode>, edges: seq<Option<FlowEdge>>, u: string, v: string)
    ensures Backend.Edge(u, v) in Serialize(nodes, edges).edges <==>
            u != "" && v != "" && Some(FlowEdge(Some(u), Some(v))) in edges
  {
    var valid := ValidEdges(edges);
    var sent := Serialize(nodes, edges).edges;
    ValidEdgesMembers(edges, FlowEdge(Some(u), Some(v)));
    if Backend.Edge(u, v) in sent {
      var k :| 0 <= k < |sent| && sent[k] == Backend.Edge(u, v);
      assert Countable(Some(valid[k]));
      assert sent[k] == Backend.Edge(valid[k].source.value, valid[k].target.value);
      assert valid[k] == FlowEdge(Some(u), Some(v));
    }
    if u != "" && v != "" && Some(FlowEdge(Some(u), Some(v))) in edges {
      var k :| 0 <= k < |valid| && valid[k] == FlowEdge(Some(u), Some(v));
      assert sent[k] == Backend.Edge(u, v);
    }
  }

  /** How the request fares on the way: answered, refused with an HTTP status, or never
      delivered. */
  datatype Transport = Answered | HttpError(status: int) | Unreachable

  /** What the user is shown: the analysis, or an error alert. */
  datatype Outcome = Report(analysis: Backend.Analysis) | ErrorAlert

  /** The alert's DAG line. */
  function DagStatus(isDag: bool): (s: string)
    ensures isDag <==> s == "Yes (Valid DAG)"
    ensures !isDag <==> s == "No (Contains Cycles)"
  {
    if isDag then "Yes (Valid DAG)" else "No (Contains Cycles)"
  }

  /** `handleSubmit`. The store is only read. An answered request is analysed by the
      service on the body sent; any other fate ends in the error alert. */
  method HandleSubmit(nodes: seq<FlowNode>, edges: seq<Option<FlowEdge>>, transport: Transport)
    returns (body: Backend.Pipeline, outcome: Outcome)
    ensures body == Serialize(nodes, edges)
    ensures outcome.Report? <==> transport.Answered?
    ensures outcome.Report? ==> outcome.analysis.numNodes == |nodes|
    ensures outcome.Report? ==> outcome.analysis.numEdges == |ValidEdges(edges)|
    ensures outcome.Report? ==> (outcome.analysis.isDag <==> !Backend.HasCycle(body.nodes, body.edges))
  {
    body := Serialize(nodes, edges);
    if transport.Answered? {
      var analysis := Backend.ParsePipeline(body);
      outcome := Report(analysis);
    } else {
      outcome := ErrorAlert;
    }
  }
}

/** The delete button: it removes every selected node and every edge that touches one,
    or alerts and changes nothing when no node is selected. */
module DeleteNodeButton {
  import opened Js
  import opened Flow

  /** `nodesToDelete`: the ids of the selected nodes, in canvas order. */
  function SelectedIds(nodes: seq<FlowNode>): seq<string> {
    if nodes == [] then []
    else (if nodes[0].selected then [nodes[0].id] else []) + SelectedIds(nodes[1..])
  }

  lemma {:induction false} SelectedIdsMembers(nodes: seq<FlowNode>, x: string)
    ensures x in SelectedIds(nodes) <==> exists n :: n in nodes && n.selected && n.id == x
  {
    if nodes != [] {
      SelectedIdsMembers(nodes[1..], x);
      assert nodes == [nodes[0]] + nodes[1..];
    }
  }

  /** The nodes whose id is not being deleted, in canvas order. */
  function RemainingNodes(nodes: seq<FlowNode>, ids: seq<string>): seq<FlowNode> {
    if nodes == [] then []
    else (if nodes[0].id !in ids then [nodes[0]] else []) + RemainingNodes(nodes[1..], ids)
  }

  /** `includes` on an endpoint: a missing endpoint is in no id list. */
  predicate Touches(e: FlowEdge, ids: seq<string>) {
    (e.source.Some? && e.source.value in ids) || (e.target.Some? && e.target.value in ids)
  }

  function RemainingEdges(edges: seq<FlowEdge>, ids: seq<string>): seq<FlowEdge> {
    if edges == [] then []
    else (if !Touches(edges[0], ids) then [edges[0]] else []) + RemainingEdges(edges[1..], ids)
  }

  lemma {:induction false} RemainingNodesMembers(nodes: seq<FlowNode>, ids: seq<string>, n: FlowNode)
    ensures n in RemainingNodes(nodes, ids) <==> n in nodes && n.id !in ids
  {
    if nodes != [] {
      RemainingNodesMembers(nodes[1..], ids, n);
      assert nodes == [nodes[0]] + nodes[1..];
    }
  }

  lemma {:induction false} RemainingEdgesMembers(edges: seq<FlowEdge>, ids: seq<string>, e: FlowEdge)
    ensures e in RemainingEdges(edges, ids) <==> e in edges && !Touches(e, ids)
  {
    if edges != [] {
      RemainingEdgesMembers(edges[1..], ids, e);
      assert edges == [edges[0]] + edges[1..];
    }
  }

  /** Number of edges touching a deleted id. */
  function TouchingCount(edges: seq<FlowEdge>, ids: seq<string>): nat {
    if edges == [] then 0 else (if Touches(edges[0], ids) then 1 else 0) + TouchingCount(edges[1..], ids)
  }

  /** Exactly the touching edges go. */
  lemma {:induction false} RemainingEdgesCount(edges: seq<FlowEdge>, ids: seq<string>)
    ensures |RemainingEdges(edges, ids)| + TouchingCount(edges, ids) == |edges|
  {
    if edges != [] {
      RemainingEdgesCount(edges[1..], ids);
    }
  }

  /** No selected node survives, so a second press finds nothing to delete. */
  lemma NoSelectedRemain(nodes: seq<FlowNode>)
    ensures forall n :: n in RemainingNodes(nodes, SelectedIds(nodes)) ==> !n.selected
    ensures SelectedIds(RemainingNodes(nodes, SelectedIds(nodes))) == []
  {
    var ids := SelectedIds(nodes);
    var rest := RemainingNodes(nodes, ids);
    forall n | n in rest
      ensures !n.selected
    {
      RemainingNodesMembers(nodes, ids, n);
      SelectedIdsMembers(nodes, n.id);
    }
    if SelectedIds(rest) != [] {
      SelectedIdsMembers(rest, SelectedIds(rest)[0]);
    }
  }

  /** Every edge joins two nodes on the canvas. */
  predicate Attached(nodes: seq<FlowNode>, edges: seq<FlowEdge>) {
    forall e :: e in edges ==>
      e.source.Some? && e.target.Some? &&
      (exists n :: n in nodes && n.id == e.source.value) &&
      (exists n :: n in nodes && n.id == e.target.value)
  }

  /** Deletion leaves no dangling edge behind. */
  lemma DeletionKeepsAttached(nodes: seq<FlowNode>, edges: seq<FlowEdge>, ids: seq<string>)
    requires Attached(nodes, edges)
    ensures Attached(RemainingNodes(nodes, ids), RemainingEdges(edges, ids))
  {
    var ns := RemainingNodes(nodes, ids);
    forall e | e in RemainingEdges(edges, ids)
      ensures e.source.Some? && e.target.Some?
      ensures exists n :: n in ns && n.id == e.source.value
      ensures exists n :: n in ns && n.id == e.target.value
    {
      RemainingEdgesMembers(edges, ids, e);
      var s :| s in nodes && s.id == e.source.value;
      var t :| t in nodes && t.id == e.target.value;
      RemainingNodesMembers(nodes, ids, s);
      RemainingNodesMembers(nodes, ids, t);
    }
  }

  /** The canvas the button reads and writes through `getNodes`/`setNodes` and
      `getEdges`/`setEdges`. */
  class Canvas {
    var nodes: seq<FlowNode>
    var edges: seq<FlowEdge>

    constructor (nodes: seq<FlowNode>, edges: seq<FlowEdge>)
      ensures this.nodes == nodes && this.edges == edges
    {
      this.nodes := nodes;
      this.edges := edges;
    }

    /** `handleDelete`: alerts, and changes nothing, exactly when no node is selected;
        otherwise replaces both lists. */
    method HandleDelete() returns (alerted: bool)
      modifies this
      ensures alerted <==> forall n :: n in old(nodes) ==> !n.selected
      ensures alerted ==> nodes == old(nodes) && edges == old(edges)
      ensures !alerted ==> nodes == RemainingNodes(old(nodes), SelectedIds(old(nodes)))
      ensures !alerted ==> edges == RemainingEdges(old(edges), SelectedIds(old(nodes)))
    {
      var ids := SelectedIds(nodes);
      if ids == [] {
        forall n | n in nodes
          ensures !n.selected
        {
          SelectedIdsMembers(nodes, n.id);
        }
        return true;
      }
      SelectedIdsMembers(nodes, ids[0]);
      nodes, edges := RemainingNodes(nodes, ids), RemainingEdges(edges, ids);
      return false;
    }
  }
}

/** Edge endpoints as the component stores them: the node records captured when the edge
    was added. A node record is never changed; a drag replaces it with a new one, and the
    render looks each endpoint up with `nodes.indexOf`. Object identity is approximated here
    by equality of the records. */
module StaleReferences {
  import opened NodeIds
  import opened GraphData
  import opened Geometry
  import opened EdgeStore

  datatype EdgeRef = EdgeRef(source: NodeData, target: NodeData, directed: bool, bend: int)

  /** `nodes.indexOf(n)`: the first position holding n, or -1. */
  function IndexOfNode(nodes: seq<NodeData>, n: NodeData): (r: int)
    ensures -1 <= r < |nodes|
    ensures r >= 0 ==> nodes[r] == n && forall j :: 0 <= j < r ==> nodes[j] != n
    ensures r == -1 <==> n !in nodes
  {
    if nodes == [] then -1
    else if nodes[0] == n then 0
    else
      var k := IndexOfNode(nodes[1..], n);
      if k == -1 then -1 else k + 1
  }

  /** The edges with each endpoint record replaced by its id. */
  function Strip(edges: seq<EdgeRef>): (r: seq<EdgeData>)
    ensures |r| == |edges|
    ensures forall k :: 0 <= k < |edges| ==>
              r[k] == EdgeData(edges[k].source.id, edges[k].target.id, edges[k].directed, edges[k].bend)
  {
    seq(|edges|, k requires 0 <= k < |edges| =>
      EdgeData(edges[k].source.id, edges[k].target.id, edges[k].directed, edges[k].bend))
  }

  /** The edge-insertion effect as written: when both ids are non-empty and name a node and no
      edge holds the triple (compared by the ids of its records), the new edge holds the two
      records `find` returns; otherwise the list is unchanged. */
  function InsertEdgeRef(nodes: seq<NodeData>, edges: seq<EdgeRef>, sourceId: string, targetId: string, directed: bool): (r: seq<EdgeRef>)
    ensures Accepts(nodes, Strip(edges), sourceId, targetId, directed) ==>
              r == edges + [EdgeRef(FindNode(nodes, sourceId).value, FindNode(nodes, targetId).value, directed, 0)]
    ensures !Accepts(nodes, Strip(edges), sourceId, targetId, directed) ==> r == edges
  {
    var stripped := Strip(edges);
    if sourceId != [] && targetId != [] then
      match (FindNode(nodes, sourceId), FindNode(nodes, targetId))
      case (Some(source), Some(target)) =>
        if exists k :: 0 <= k < |edges| && edges[k].source.id == sourceId
                       && edges[k].target.id == targetId && edges[k].directed == directed
        then
          assert HasEdge(stripped, sourceId, targetId, directed);
          edges
        else
          assert !HasEdge(stripped, sourceId, targetId, directed);
          edges + [EdgeRef(source, target, directed, 0)]
      case _ => edges
    else edges
  }

  /** Seen through the ids of their records, the as-written insertion and the corrected one
      build the same list: the two models differ only in how endpoints are resolved later. */
  lemma InsertEdgeRefAgrees(nodes: seq<NodeData>, edges: seq<EdgeRef>, sourceId: string, targetId: string, directed: bool)
    ensures Strip(InsertEdgeRef(nodes, edges, sourceId, targetId, directed))
            == InsertEdge(nodes, Strip(edges), sourceId, targetId, directed)
  {
  }

  /** Right after insertion the endpoint records are found. */
  lemma FreshEdgeResolves(nodes: seq<NodeData>, e: EdgeRef)
    requires e.source in nodes && e.target in nodes
    ensures 0 <= IndexOfNode(nodes, e.source) < |nodes| && 0 <= IndexOfNode(nodes, e.target) < |nodes|
  {
  }

  /** After the source node is dragged to a different position, no node is the captured
      record: `indexOf` yields -1, and the matrix row `adjacencyMatrix[-1]` the render writes
      into does not exist. */
  lemma DragLeavesStaleEndpoint(nodes: seq<NodeData>, e: EdgeRef, x: int, y: int)
    requires e.source in nodes && (x != e.source.x || y != e.source.y)
    ensures IndexOfNode(MoveNode(nodes, e.source.id, x, y), e.source) == -1
  {
    var moved := MoveNode(nodes, e.source.id, x, y);
    forall k | 0 <= k < |moved| ensures moved[k] != e.source {
      if nodes[k].id != e.source.id { assert moved[k].id != e.source.id; }
    }
  }

  /** The concrete instance: one node v1, a self-loop on it, v1 dragged from (100, 100) to
      (50, 60). The index the render computes lies outside the matrix. */
  lemma SelfLoopDragCounterexample()
    ensures var v1 := NodeData(NodeId(1), 100, 100);
            var edges := InsertEdgeRef([v1], [], NodeId(1), NodeId(1), false);
            |edges| == 1
            && IndexOfNode([v1], edges[0].source) == 0
            && IndexOfNode(MoveNode([v1], NodeId(1), 50, 60), edges[0].source) == -1
  {
    var v1 := NodeData(NodeId(1), 100, 100);
    assert FindNode([v1], NodeId(1)) == Some(v1);
    var edges := InsertEdgeRef([v1], [], NodeId(1), NodeId(1), false);
    assert edges == [EdgeRef(v1, v1, false, 0)];
    FreshEdgeResolves([v1], edges[0]);
    DragLeavesStaleEndpoint([v1], edges[0], 50, 60);
  }
}

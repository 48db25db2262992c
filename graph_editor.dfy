/** The graph component's state (its node list, its edge list and the node being dragged) and
    the handlers and effects that replace it. */
module GraphEditor {
  import opened NodeIds
  import opened GraphData
  import opened Geometry
  import opened EdgeStore
  import opened Statistics

  class Graph {
    var nodes: seq<NodeData>
    var edges: seq<EdgeData>
    /** The node captured on mouse-down; only its id is used afterwards. */
    var dragged: Option<NodeData>

    /** Ids are distinct and every edge endpoint names a node. */
    ghost predicate Valid()
      reads this
    {
      DistinctIds(nodes) && EdgesResolve(nodes, edges)
    }

    /** The initial state: no nodes, no edges, nothing dragged. */
    constructor ()
      ensures Valid()
      ensures nodes == [] && edges == [] && dragged == None
    {
      nodes, edges, dragged := [], [], None;
    }

    /** The node-count effect: a fresh list `v1..vN`, and no edges. */
    method Regenerate(count: int, place: nat -> Point)
      requires Valid()
      modifies this
      ensures Valid()
      ensures |nodes| == NodeCount(count)
      ensures forall i :: 0 <= i < |nodes| ==>
                nodes[i].id == NodeId(i + 1) && nodes[i].x == place(i).x && nodes[i].y == place(i).y
      ensures edges == [] && dragged == old(dragged)
    {
      nodes := GenerateNodes(count, place);
      edges := [];
    }

    /** The edge-insertion effect for the current form values. */
    method AddEdge(sourceId: string, targetId: string, directed: bool)
      requires Valid()
      modifies this
      ensures Valid()
      ensures edges == InsertEdge(old(nodes), old(edges), sourceId, targetId, directed)
      ensures nodes == old(nodes) && dragged == old(dragged)
    {
      InsertEdgeKeepsResolve(nodes, edges, sourceId, targetId, directed);
      edges := InsertEdge(nodes, edges, sourceId, targetId, directed);
    }

    /** `toggleEdgeDirection(index)`. */
    method ToggleEdgeDirection(index: int)
      requires Valid()
      modifies this
      ensures Valid()
      ensures edges == ToggleDirection(old(edges), index)
      ensures nodes == old(nodes) && dragged == old(dragged)
    {
      edges := ToggleDirection(edges, index);
    }

    /** `bendEdge(index, bend)`. */
    method BendEdge(index: int, bend: int)
      requires Valid()
      modifies this
      ensures Valid()
      ensures edges == SetBend(old(edges), index, bend)
      ensures nodes == old(nodes) && dragged == old(dragged)
    {
      edges := SetBend(edges, index, bend);
    }

    /** `handleNodeDrag(id, x, y)`. */
    method NodeDrag(id: string, x: int, y: int)
      requires Valid()
      modifies this
      ensures Valid()
      ensures nodes == MoveNode(old(nodes), id, x, y)
      ensures edges == old(edges) && dragged == old(dragged)
    {
      MoveNodeKeepsEdgesResolved(nodes, edges, id, x, y);
      nodes := MoveNode(nodes, id, x, y);
    }

    /** `handleNodeMouseDown(id)`: start dragging the node with that id; an unknown id leaves
        the drag state as it was. */
    method NodeMouseDown(id: string)
      requires Valid()
      modifies this
      ensures Valid()
      ensures dragged == if HasNode(nodes, id) then FindNode(nodes, id) else old(dragged)
      ensures nodes == old(nodes) && edges == old(edges)
    {
      var node := FindNode(nodes, id);
      if node.Some? {
        dragged := node;
      }
    }

    /** `handleMouseMove` with the pointer at canvas position (x, y): moves the dragged node,
        or does nothing when no node is dragged. */
    method MouseMove(x: int, y: int)
      requires Valid()
      modifies this
      ensures Valid()
      ensures old(dragged).None? ==> nodes == old(nodes)
      ensures old(dragged).Some? ==> nodes == MoveNode(old(nodes), old(dragged).value.id, x, y)
      ensures edges == old(edges) && dragged == old(dragged)
    {
      if dragged.Some? {
        NodeDrag(dragged.value.id, x, y);
      }
    }

    /** `handleMouseUp`: the drag ends. */
    method MouseUp()
      requires Valid()
      modifies this
      ensures Valid()
      ensures dragged == None
      ensures nodes == old(nodes) && edges == old(edges)
    {
      dragged := None;
    }

    /** What the render reads off the state: matrix, degrees and the directed flag. */
    method Derived() returns (matrix: array2<int>, degrees: array<int>, directed: bool)
      requires Valid()
      ensures fresh(matrix) && fresh(degrees)
      ensures matrix.Length0 == |nodes| && matrix.Length1 == |nodes| && degrees.Length == |nodes|
      ensures forall i, j :: 0 <= i < |nodes| && 0 <= j < |nodes| ==>
                matrix[i, j] == if Adjacent(nodes, edges, i, j) then 1 else 0
      ensures forall i :: 0 <= i < |nodes| ==> degrees[i] == Degree(nodes, edges, i)
      ensures Total(degrees[..]) == 2 * |edges|
      ensures directed <==> exists k :: 0 <= k < |edges| && edges[k].directed
    {
      matrix, degrees := ComputeStatistics(nodes, edges);
      directed := AnyDirected(edges);
    }
  }

  /** A session: three nodes, an undirected edge v1-v2 requested twice, then toggled, then
      v1 dragged to (50, 60). */
  method Session(place: nat -> Point)
  {
    var g := new Graph();
    g.Regenerate(3, place);
    var v1, v2 := NodeId(1), NodeId(2);
    var ns := g.nodes;
    IndexOfDistinct(ns, 0);
    IndexOfDistinct(ns, 1);

    g.AddEdge(v1, v2, false);
    assert g.edges == [EdgeData(v1, v2, false, 0)];
    g.AddEdge(v1, v2, false);
    InsertEdgeIdempotent(ns, [], v1, v2, false);
    assert g.edges == [EdgeData(v1, v2, false, 0)];

    g.ToggleEdgeDirection(0);
    assert g.edges == [EdgeData(v1, v2, true, 0)];
    var m, d, directed := g.Derived();
    ThreeNodeStatistics(ns, true);
    assert m[0, 1] == 1 && m[1, 0] == 0;
    assert d[0] == 1 && d[1] == 1 && d[2] == 0;
    assert directed;

    g.NodeMouseDown(v1);
    g.MouseMove(50, 60);
    assert g.nodes[0] == NodeData(v1, 50, 60) && g.nodes[1] == ns[1];
    g.MouseUp();
    assert g.dragged == None;
  }

  /** Statistics of one edge v1-v2 over nodes v1, v2, v3, either direction flag. */
  lemma ThreeNodeStatistics(nodes: seq<NodeData>, directed: bool)
    requires |nodes| == 3 && DistinctIds(nodes)
    requires nodes[0].id == NodeId(1) && nodes[1].id == NodeId(2)
    ensures var edges := [EdgeData(NodeId(1), NodeId(2), directed, 0)];
            Adjacent(nodes, edges, 0, 1) && !Adjacent(nodes, edges, 1, 0)
            && Degree(nodes, edges, 0) == 1 && Degree(nodes, edges, 1) == 1 && Degree(nodes, edges, 2) == 0
  {
    var e := EdgeData(NodeId(1), NodeId(2), directed, 0);
    IndexOfDistinct(nodes, 0);
    IndexOfDistinct(nodes, 1);
    AdjacencyIsDirectional(nodes, e, 0, 1);
    assert [e][..0] == [];
    IncidenceCases(nodes, e, 0, 1, 0);
    IncidenceCases(nodes, e, 0, 1, 1);
    IncidenceCases(nodes, e, 0, 1, 2);
  }
}

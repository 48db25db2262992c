/** The node list: regeneration from a count, and moving one node. */
module Geometry {
  import opened NodeIds
  import opened GraphData

  /** A canvas position. */
  datatype Point = Point(x: int, y: int)

  /** How many nodes the regeneration loop creates for `count`: `i < count` never holds for a
      count of zero or less. */
  function NodeCount(count: int): nat {
    if count < 0 then 0 else count
  }

  /** The regeneration loop: nodes `v1..vN` in list order. `place(i)` stands for the random
      position given to the i-th node. */
  method GenerateNodes(count: int, place: nat -> Point) returns (nodes: seq<NodeData>)
    ensures |nodes| == NodeCount(count)
    ensures forall i :: 0 <= i < |nodes| ==>
              nodes[i].id == NodeId(i + 1) && nodes[i].x == place(i).x && nodes[i].y == place(i).y
    ensures DistinctIds(nodes)
  {
    nodes := [];
    var i := 0;
    while i < count
      invariant 0 <= i <= NodeCount(count)
      invariant |nodes| == i
      invariant forall k :: 0 <= k < i ==>
                  nodes[k].id == NodeId(k + 1) && nodes[k].x == place(k).x && nodes[k].y == place(k).y
    {
      nodes := nodes + [NodeData(NodeId(i + 1), place(i).x, place(i).y)];
      i := i + 1;
    }
    forall a, b | 0 <= a < b < |nodes| ensures nodes[a].id != nodes[b].id {
      NodeIdInjective(a + 1, b + 1);
    }
  }

  /** `handleNodeDrag(id, x, y)`: every node carrying `id` gets the new position; ids, order
      and all other nodes are kept. */
  function MoveNode(nodes: seq<NodeData>, id: string, x: int, y: int): (r: seq<NodeData>)
    ensures |r| == |nodes| && Ids(r) == Ids(nodes)
    ensures forall i :: 0 <= i < |nodes| ==>
              if nodes[i].id == id then r[i].x == x && r[i].y == y else r[i] == nodes[i]
  {
    var r := seq(|nodes|, i requires 0 <= i < |nodes| =>
      if nodes[i].id == id then nodes[i].(x := x, y := y) else nodes[i]);
    assert forall i :: 0 <= i < |nodes| ==> r[i].id == nodes[i].id;
    IdsPointwise(r, nodes);
    r
  }

  lemma IdsPointwise(a: seq<NodeData>, b: seq<NodeData>)
    requires |a| == |b| && forall i :: 0 <= i < |a| ==> a[i].id == b[i].id
    ensures Ids(a) == Ids(b)
  {
  }

  /** An id that names no node changes nothing. */
  lemma MoveUnknownNode(nodes: seq<NodeData>, id: string, x: int, y: int)
    requires !HasNode(nodes, id)
    ensures MoveNode(nodes, id, x, y) == nodes
  {
    var r := MoveNode(nodes, id, x, y);
    assert forall i :: 0 <= i < |nodes| ==> r[i] == nodes[i];
  }

  /** With distinct ids exactly the named node moves. */
  lemma MoveNodeAt(nodes: seq<NodeData>, i: nat, x: int, y: int)
    requires DistinctIds(nodes) && i < |nodes|
    ensures var r := MoveNode(nodes, nodes[i].id, x, y);
            r[i] == NodeData(nodes[i].id, x, y)
            && forall j :: 0 <= j < |nodes| && j != i ==> r[j] == nodes[j]
  {
  }

  /** A later move of the same node overrides an earlier one. */
  lemma MoveNodeOverrides(nodes: seq<NodeData>, id: string, x1: int, y1: int, x2: int, y2: int)
    ensures MoveNode(MoveNode(nodes, id, x1, y1), id, x2, y2) == MoveNode(nodes, id, x2, y2)
  {
    var r := MoveNode(MoveNode(nodes, id, x1, y1), id, x2, y2);
    var s := MoveNode(nodes, id, x2, y2);
    assert forall i :: 0 <= i < |nodes| ==> r[i] == s[i];
  }

  /** Moving keeps the ids distinct and every edge endpoint resolving, to the same index. */
  lemma MoveNodeKeepsEdgesResolved(nodes: seq<NodeData>, edges: seq<EdgeData>, id: string, x: int, y: int)
    requires DistinctIds(nodes) && EdgesResolve(nodes, edges)
    ensures var r := MoveNode(nodes, id, x, y);
            DistinctIds(r) && EdgesResolve(r, edges)
            && forall k :: 0 <= k < |edges| ==>
                 IndexOfId(r, edges[k].source) == IndexOfId(nodes, edges[k].source)
                 && IndexOfId(r, edges[k].target) == IndexOfId(nodes, edges[k].target)
  {
    var r := MoveNode(nodes, id, x, y);
    forall s: string ensures IndexOfId(r, s) == IndexOfId(nodes, s) {
      IndexOfIdDependsOnIds(r, nodes, s);
    }
  }
}

/** The records the graph component stores, and the lookups shared by its operations. */
module GraphData {

  datatype Option<T> = None | Some(value: T)

  /** A drawn vertex: its label and its canvas position. */
  datatype NodeData = NodeData(id: string, x: int, y: int)

  /** An edge. Its endpoints are node ids, resolved through the node list on every use.
      `bend` is the perpendicular offset of the curve's control point (0 is straight). */
  datatype EdgeData = EdgeData(source: string, target: string, directed: bool, bend: int)

  /** The node ids in list order. */
  function Ids(nodes: seq<NodeData>): (ids: seq<string>)
    ensures |ids| == |nodes|
    ensures forall i :: 0 <= i < |nodes| ==> ids[i] == nodes[i].id
  {
    if nodes == [] then [] else [nodes[0].id] + Ids(nodes[1..])
  }

  /** Position of the first node whose id is `id` (what `nodes.find` stops at). */
  function IndexOfId(nodes: seq<NodeData>, id: string): (r: Option<nat>)
    ensures r.Some? ==> r.value < |nodes| && nodes[r.value].id == id
    ensures r.Some? ==> forall j :: 0 <= j < r.value ==> nodes[j].id != id
    ensures r.None? <==> forall j :: 0 <= j < |nodes| ==> nodes[j].id != id
  {
    if nodes == [] then None
    else if nodes[0].id == id then Some(0)
    else match IndexOfId(nodes[1..], id)
      case None => None
      case Some(k) => Some(k + 1)
  }

  /** `nodes.find(node => node.id === id)`. */
  function FindNode(nodes: seq<NodeData>, id: string): (r: Option<NodeData>)
    ensures r.Some? ==> r.value.id == id && r.value in nodes
    ensures r.Some? ==> exists i :: 0 <= i < |nodes| && nodes[i] == r.value
                                    && forall j :: 0 <= j < i ==> nodes[j].id != id
    ensures r.None? <==> !HasNode(nodes, id)
  {
    match IndexOfId(nodes, id)
    case None => None
    case Some(i) => Some(nodes[i])
  }

  /** Some node carries the id. */
  predicate HasNode(nodes: seq<NodeData>, id: string) {
    exists i :: 0 <= i < |nodes| && nodes[i].id == id
  }

  /** The lookup depends on the ids and their order only, not on positions. */
  lemma {:induction false} IndexOfIdDependsOnIds(a: seq<NodeData>, b: seq<NodeData>, id: string)
    requires Ids(a) == Ids(b)
    ensures IndexOfId(a, id) == IndexOfId(b, id)
  {
    if a != [] {
      assert a[0].id == Ids(a)[0] == Ids(b)[0] == b[0].id;
      assert Ids(a[1..]) == Ids(a)[1..] == Ids(b)[1..] == Ids(b[1..]);
      IndexOfIdDependsOnIds(a[1..], b[1..], id);
    }
  }

  /** No two nodes share an id (`v1..vN` after regeneration). */
  predicate DistinctIds(nodes: seq<NodeData>) {
    forall i, j :: 0 <= i < j < |nodes| ==> nodes[i].id != nodes[j].id
  }

  /** With distinct ids, the lookup finds every node at its own position. */
  lemma IndexOfDistinct(nodes: seq<NodeData>, i: nat)
    requires DistinctIds(nodes) && i < |nodes|
    ensures IndexOfId(nodes, nodes[i].id) == Some(i)
  {
  }

  /** Both endpoints of every edge name a node. */
  predicate EdgesResolve(nodes: seq<NodeData>, edges: seq<EdgeData>) {
    forall k :: 0 <= k < |edges| ==>
      IndexOfId(nodes, edges[k].source).Some? && IndexOfId(nodes, edges[k].target).Some?
  }

  /** The edge has this (source id, target id, directed) triple. */
  predicate SameTriple(e: EdgeData, sourceId: string, targetId: string, directed: bool) {
    e.source == sourceId && e.target == targetId && e.directed == directed
  }

  /** Some edge has the triple. */
  predicate HasEdge(edges: seq<EdgeData>, sourceId: string, targetId: string, directed: bool) {
    exists k :: 0 <= k < |edges| && SameTriple(edges[k], sourceId, targetId, directed)
  }

  /** `edges.find(...)` on the triple, as a search from the front. */
  function ContainsTriple(edges: seq<EdgeData>, sourceId: string, targetId: string, directed: bool): (b: bool)
    ensures b <==> HasEdge(edges, sourceId, targetId, directed)
  {
    if edges == [] then false
    else SameTriple(edges[0], sourceId, targetId, directed)
         || (assert forall k :: 1 <= k < |edges| ==> edges[k] == edges[1..][k - 1];
             ContainsTriple(edges[1..], sourceId, targetId, directed))
  }

  /** No two edges share a (source id, target id, directed) triple. */
  predicate NoDuplicateEdges(edges: seq<EdgeData>) {
    forall i, j :: 0 <= i < j < |edges| ==>
      !SameTriple(edges[i], edges[j].source, edges[j].target, edges[j].directed)
  }
}

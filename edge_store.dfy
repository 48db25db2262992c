/** The edge list: insertion with de-duplication, and the two positional updates. */
module EdgeStore {
  import opened GraphData

  /** When the insertion effect appends: both ids are non-empty, both name a node, and no
      edge already has the (source, target, directed) triple. */
  predicate Accepts(nodes: seq<NodeData>, edges: seq<EdgeData>, sourceId: string, targetId: string, directed: bool) {
    sourceId != [] && targetId != []
    && HasNode(nodes, sourceId) && HasNode(nodes, targetId)
    && !HasEdge(edges, sourceId, targetId, directed)
  }

  /** The edge-insertion effect: look up both endpoints, look for an edge with the same
      triple, and append a straight edge when there is none. */
  function InsertEdge(nodes: seq<NodeData>, edges: seq<EdgeData>, sourceId: string, targetId: string, directed: bool): (r: seq<EdgeData>)
    ensures Accepts(nodes, edges, sourceId, targetId, directed) ==>
              r == edges + [EdgeData(sourceId, targetId, directed, 0)]
    ensures !Accepts(nodes, edges, sourceId, targetId, directed) ==> r == edges
  {
    if sourceId != [] && targetId != [] then
      match (FindNode(nodes, sourceId), FindNode(nodes, targetId))
      case (Some(source), Some(target)) =>
        if ContainsTriple(edges, sourceId, targetId, directed) then edges
        else edges + [EdgeData(source.id, target.id, directed, 0)]
      case _ => edges
    else edges
  }

  /** Running the effect a second time with the same inputs changes nothing. */
  lemma InsertEdgeIdempotent(nodes: seq<NodeData>, edges: seq<EdgeData>, sourceId: string, targetId: string, directed: bool)
    ensures var once := InsertEdge(nodes, edges, sourceId, targetId, directed);
            InsertEdge(nodes, once, sourceId, targetId, directed) == once
  {
    var once := InsertEdge(nodes, edges, sourceId, targetId, directed);
    if Accepts(nodes, edges, sourceId, targetId, directed) {
      assert SameTriple(once[|edges|], sourceId, targetId, directed);
      assert HasEdge(once, sourceId, targetId, directed);
    }
  }

  /** A directed and an undirected edge between the same ordered pair are distinct and
      both end up in the list, in insertion order. */
  lemma BothDirectionsCoexist(nodes: seq<NodeData>, edges: seq<EdgeData>, sourceId: string, targetId: string)
    requires sourceId != [] && targetId != []
    requires HasNode(nodes, sourceId) && HasNode(nodes, targetId)
    requires !HasEdge(edges, sourceId, targetId, false) && !HasEdge(edges, sourceId, targetId, true)
    ensures InsertEdge(nodes, InsertEdge(nodes, edges, sourceId, targetId, false), sourceId, targetId, true)
            == edges + [EdgeData(sourceId, targetId, false, 0), EdgeData(sourceId, targetId, true, 0)]
  {
    var once := InsertEdge(nodes, edges, sourceId, targetId, false);
    assert once == edges + [EdgeData(sourceId, targetId, false, 0)];
    assert !HasEdge(once, sourceId, targetId, true) by {
      forall k | 0 <= k < |once| ensures !SameTriple(once[k], sourceId, targetId, true) {
        if k < |edges| { assert once[k] == edges[k]; }
      }
    }
  }

  /** Insertion keeps every endpoint resolvable: an appended edge names two nodes. */
  lemma InsertEdgeKeepsResolve(nodes: seq<NodeData>, edges: seq<EdgeData>, sourceId: string, targetId: string, directed: bool)
    requires EdgesResolve(nodes, edges)
    ensures EdgesResolve(nodes, InsertEdge(nodes, edges, sourceId, targetId, directed))
  {
  }

  /** Insertion never creates a duplicate triple. */
  lemma InsertEdgeKeepsNoDuplicates(nodes: seq<NodeData>, edges: seq<EdgeData>, sourceId: string, targetId: string, directed: bool)
    requires NoDuplicateEdges(edges)
    ensures NoDuplicateEdges(InsertEdge(nodes, edges, sourceId, targetId, directed))
  {
  }

  /** `toggleEdgeDirection(index)`: the edge at `index` has its direction flipped; an index
      outside the list matches no edge and leaves the list as it was. */
  function ToggleDirection(edges: seq<EdgeData>, index: int): (r: seq<EdgeData>)
    ensures |r| == |edges|
    ensures forall k :: 0 <= k < |edges| ==>
              r[k].source == edges[k].source && r[k].target == edges[k].target
              && r[k].bend == edges[k].bend
              && (r[k].directed <==> (if k == index then !edges[k].directed else edges[k].directed))
  {
    seq(|edges|, k requires 0 <= k < |edges| =>
      if k == index then edges[k].(directed := !edges[k].directed) else edges[k])
  }

  /** Every edge other than the one at `index` is untouched; out of range, nothing changes. */
  lemma ToggleDirectionFrame(edges: seq<EdgeData>, index: int)
    ensures forall k :: 0 <= k < |edges| && k != index ==> ToggleDirection(edges, index)[k] == edges[k]
    ensures !(0 <= index < |edges|) ==> ToggleDirection(edges, index) == edges
  {
  }

  /** Toggling the same edge twice restores the list. */
  lemma ToggleDirectionTwice(edges: seq<EdgeData>, index: int)
    ensures ToggleDirection(ToggleDirection(edges, index), index) == edges
  {
    var r := ToggleDirection(ToggleDirection(edges, index), index);
    assert forall k :: 0 <= k < |edges| ==> r[k] == edges[k];
  }

  /** Toggling does not respect the no-duplicate rule the insertion enforces: flipping the
      undirected copy of a pair that is also present as a directed edge yields two equal
      triples. */
  lemma ToggleDirectionCanDuplicate(a: string, b: string)
    ensures var edges := [EdgeData(a, b, false, 0), EdgeData(a, b, true, 0)];
            NoDuplicateEdges(edges) && !NoDuplicateEdges(ToggleDirection(edges, 0))
  {
    var edges := [EdgeData(a, b, false, 0), EdgeData(a, b, true, 0)];
    var r := ToggleDirection(edges, 0);
    assert SameTriple(r[0], r[1].source, r[1].target, r[1].directed);
  }

  /** `bendEdge(index, bend)`: the edge at `index` gets the bend; nothing else changes. */
  function SetBend(edges: seq<EdgeData>, index: int, bend: int): (r: seq<EdgeData>)
    ensures |r| == |edges|
    ensures forall k :: 0 <= k < |edges| ==>
              r[k].source == edges[k].source && r[k].target == edges[k].target
              && r[k].directed == edges[k].directed
              && r[k].bend == (if k == index then bend else edges[k].bend)
  {
    seq(|edges|, k requires 0 <= k < |edges| =>
      if k == index then edges[k].(bend := bend) else edges[k])
  }

  /** Every edge other than the one at `index` is untouched; out of range, nothing changes. */
  lemma SetBendFrame(edges: seq<EdgeData>, index: int, bend: int)
    ensures forall k :: 0 <= k < |edges| && k != index ==> SetBend(edges, index, bend)[k] == edges[k]
    ensures !(0 <= index < |edges|) ==> SetBend(edges, index, bend) == edges
  {
  }

  /** A later bend of the same edge overrides an earlier one, and re-applying the current
      bend changes nothing. */
  lemma SetBendOverrides(edges: seq<EdgeData>, index: int, b1: int, b2: int)
    ensures SetBend(SetBend(edges, index, b1), index, b2) == SetBend(edges, index, b2)
    ensures 0 <= index < |edges| ==> SetBend(edges, index, edges[index].bend) == edges
  {
    var r := SetBend(SetBend(edges, index, b1), index, b2);
    assert forall k :: 0 <= k < |edges| ==> r[k] == SetBend(edges, index, b2)[k];
    if 0 <= index < |edges| {
      assert forall k :: 0 <= k < |edges| ==> SetBend(edges, index, edges[index].bend)[k] == edges[k];
    }
  }

  /** The bend is not part of an edge's identity: bending keeps both invariants. */
  lemma SetBendKeepsInvariants(nodes: seq<NodeData>, edges: seq<EdgeData>, index: int, bend: int)
    requires EdgesResolve(nodes, edges) && NoDuplicateEdges(edges)
    ensures EdgesResolve(nodes, SetBend(edges, index, bend)) && NoDuplicateEdges(SetBend(edges, index, bend))
  {
  }

  /** Toggling keeps every endpoint resolvable. */
  lemma ToggleDirectionKeepsResolve(nodes: seq<NodeData>, edges: seq<EdgeData>, index: int)
    requires EdgesResolve(nodes, edges)
    ensures EdgesResolve(nodes, ToggleDirection(edges, index))
  {
  }
}

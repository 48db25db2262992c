/** The data recomputed on every render: the adjacency matrix, the degree of every node and
    whether any edge is directed. */
module Statistics {
  import opened GraphData
  import opened Geometry
  import opened EdgeStore

  /** The edge runs from node i to node j. */
  predicate Connects(nodes: seq<NodeData>, e: EdgeData, i: nat, j: nat) {
    IndexOfId(nodes, e.source) == Some(i) && IndexOfId(nodes, e.target) == Some(j)
  }

  /** Some edge runs from node i to node j, whatever its direction flag. */
  predicate Adjacent(nodes: seq<NodeData>, edges: seq<EdgeData>, i: nat, j: nat) {
    exists e :: e in edges && Connects(nodes, e, i, j)
  }

  /** How many of the edge's two endpoints are node i. */
  function Incidence(nodes: seq<NodeData>, e: EdgeData, i: nat): nat {
    (if IndexOfId(nodes, e.source) == Some(i) then 1 else 0)
    + (if IndexOfId(nodes, e.target) == Some(i) then 1 else 0)
  }

  /** Degree of node i: the number of edge endpoints at node i over the whole list. */
  function Degree(nodes: seq<NodeData>, edges: seq<EdgeData>, i: nat): nat {
    if edges == [] then 0
    else Degree(nodes, edges[..|edges| - 1], i) + Incidence(nodes, edges[|edges| - 1], i)
  }

  /** Sum of the degrees of nodes 0..n-1. */
  function DegreeSum(nodes: seq<NodeData>, edges: seq<EdgeData>, n: nat): nat {
    if n == 0 then 0 else DegreeSum(nodes, edges, n - 1) + Degree(nodes, edges, n - 1)
  }

  /** Sum of a sequence, from the back. */
  function Total(s: seq<int>): int {
    if s == [] then 0 else Total(s[..|s| - 1]) + s[|s| - 1]
  }

  /** A self-loop adds 2 to its node and nothing elsewhere; any other edge adds 1 to each
      endpoint. */
  lemma IncidenceCases(nodes: seq<NodeData>, e: EdgeData, p: nat, q: nat, i: nat)
    requires IndexOfId(nodes, e.source) == Some(p) && IndexOfId(nodes, e.target) == Some(q)
    ensures p == q ==> Incidence(nodes, e, i) == (if i == p then 2 else 0)
    ensures p != q ==> Incidence(nodes, e, i) == (if i == p || i == q then 1 else 0)
  {
  }

  /** How many of nodes 0..n-1 the id resolves to: one when it resolves below n. */
  function HitCount(nodes: seq<NodeData>, id: string, n: nat): nat {
    if n == 0 then 0
    else HitCount(nodes, id, n - 1) + (if IndexOfId(nodes, id) == Some(n - 1) then 1 else 0)
  }

  lemma {:induction false} HitCountOfResolved(nodes: seq<NodeData>, id: string, n: nat)
    requires IndexOfId(nodes, id).Some?
    ensures HitCount(nodes, id, n) == if IndexOfId(nodes, id).value < n then 1 else 0
  {
    if n > 0 { HitCountOfResolved(nodes, id, n - 1); }
  }

  /** Appending an edge adds its endpoint hits among nodes 0..n-1 to the degree sum. */
  lemma {:induction false} DegreeSumSnoc(nodes: seq<NodeData>, edges: seq<EdgeData>, e: EdgeData, n: nat)
    ensures DegreeSum(nodes, edges + [e], n)
            == DegreeSum(nodes, edges, n) + HitCount(nodes, e.source, n) + HitCount(nodes, e.target, n)
  {
    if n > 0 {
      DegreeSumSnoc(nodes, edges, e, n - 1);
      assert (edges + [e])[..|edges|] == edges;
    }
  }

  /** The handshake rule with loops counted twice: the degrees add up to twice the number of
      edges. */
  lemma {:induction false} Handshake(nodes: seq<NodeData>, edges: seq<EdgeData>)
    requires EdgesResolve(nodes, edges)
    ensures DegreeSum(nodes, edges, |nodes|) == 2 * |edges|
  {
    if edges == [] {
      DegreeSumOfNoEdges(nodes, |nodes|);
    } else {
      var prefix, last := edges[..|edges| - 1], edges[|edges| - 1];
      assert prefix + [last] == edges;
      assert EdgesResolve(nodes, prefix) by {
        forall k | 0 <= k < |prefix| ensures prefix[k] == edges[k] { }
      }
      Handshake(nodes, prefix);
      DegreeSumSnoc(nodes, prefix, last, |nodes|);
      HitCountOfResolved(nodes, last.source, |nodes|);
      HitCountOfResolved(nodes, last.target, |nodes|);
    }
  }

  lemma {:induction false} DegreeSumOfNoEdges(nodes: seq<NodeData>, n: nat)
    ensures DegreeSum(nodes, [], n) == 0
  {
    if n > 0 { DegreeSumOfNoEdges(nodes, n - 1); }
  }

  /** A sequence holding the degrees of nodes 0..n-1 totals to their degree sum. */
  lemma {:induction false} TotalOfDegrees(nodes: seq<NodeData>, edges: seq<EdgeData>, s: seq<int>)
    requires |s| <= |nodes| && forall i :: 0 <= i < |s| ==> s[i] == Degree(nodes, edges, i)
    ensures Total(s) == DegreeSum(nodes, edges, |s|)
  {
    if s != [] { TotalOfDegrees(nodes, edges, s[..|s| - 1]); }
  }

  /** An edge from node i to node j marks (i, j) and not (j, i): a single edge between two
      different nodes makes them adjacent in its own direction only. */
  lemma AdjacencyIsDirectional(nodes: seq<NodeData>, e: EdgeData, i: nat, j: nat)
    requires Connects(nodes, e, i, j) && i != j
    ensures Adjacent(nodes, [e], i, j) && !Adjacent(nodes, [e], j, i)
  {
    assert e in [e];
  }

  /** A second edge between an already adjacent ordered pair marks no new entry. */
  lemma ParallelEdgesCollapse(nodes: seq<NodeData>, edges: seq<EdgeData>, e: EdgeData, i: nat, j: nat)
    requires Connects(nodes, e, i, j) && Adjacent(nodes, edges, i, j)
    ensures forall a: nat, b: nat :: Adjacent(nodes, edges + [e], a, b) <==> Adjacent(nodes, edges, a, b)
  {
    var w :| w in edges && Connects(nodes, w, i, j);
    forall a: nat, b: nat | Adjacent(nodes, edges + [e], a, b) ensures Adjacent(nodes, edges, a, b) {
      var f :| f in edges + [e] && Connects(nodes, f, a, b);
      if f == e { assert w in edges && Connects(nodes, w, a, b); }
    }
    forall a: nat, b: nat | Adjacent(nodes, edges, a, b) ensures Adjacent(nodes, edges + [e], a, b) {
      var f :| f in edges && Connects(nodes, f, a, b);
      assert f in edges + [e];
    }
  }

  /** Adjacency and degrees read only the endpoints of the edges. */
  lemma {:induction false} SameEndpointsSameStatistics(nodes: seq<NodeData>, a: seq<EdgeData>, b: seq<EdgeData>)
    requires |a| == |b|
    requires forall k :: 0 <= k < |a| ==> a[k].source == b[k].source && a[k].target == b[k].target
    ensures forall i: nat, j: nat :: Adjacent(nodes, a, i, j) <==> Adjacent(nodes, b, i, j)
    ensures forall i: nat :: Degree(nodes, a, i) == Degree(nodes, b, i)
  {
    forall i: nat, j: nat | Adjacent(nodes, a, i, j) ensures Adjacent(nodes, b, i, j) {
      var e :| e in a && Connects(nodes, e, i, j);
      var k :| 0 <= k < |a| && a[k] == e;
      assert b[k] in b && Connects(nodes, b[k], i, j);
    }
    forall i: nat, j: nat | Adjacent(nodes, b, i, j) ensures Adjacent(nodes, a, i, j) {
      var e :| e in b && Connects(nodes, e, i, j);
      var k :| 0 <= k < |b| && b[k] == e;
      assert a[k] in a && Connects(nodes, a[k], i, j);
    }
    forall i: nat ensures Degree(nodes, a, i) == Degree(nodes, b, i) {
      DegreeSameEndpoints(nodes, a, b, i);
    }
  }

  lemma {:induction false} DegreeSameEndpoints(nodes: seq<NodeData>, a: seq<EdgeData>, b: seq<EdgeData>, i: nat)
    requires |a| == |b|
    requires forall k :: 0 <= k < |a| ==> a[k].source == b[k].source && a[k].target == b[k].target
    ensures Degree(nodes, a, i) == Degree(nodes, b, i)
  {
    if a != [] {
      DegreeSameEndpoints(nodes, a[..|a| - 1], b[..|b| - 1], i);
    }
  }

  /** Toggling a direction or bending an edge leaves the matrix and the degrees as they were. */
  lemma EdgeUpdatesKeepStatistics(nodes: seq<NodeData>, edges: seq<EdgeData>, index: int, bend: int)
    ensures forall i: nat, j: nat ::
              (Adjacent(nodes, ToggleDirection(edges, index), i, j) <==> Adjacent(nodes, edges, i, j))
              && (Adjacent(nodes, SetBend(edges, index, bend), i, j) <==> Adjacent(nodes, edges, i, j))
    ensures forall i: nat ::
              Degree(nodes, ToggleDirection(edges, index), i) == Degree(nodes, edges, i)
              && Degree(nodes, SetBend(edges, index, bend), i) == Degree(nodes, edges, i)
  {
    SameEndpointsSameStatistics(nodes, ToggleDirection(edges, index), edges);
    SameEndpointsSameStatistics(nodes, SetBend(edges, index, bend), edges);
  }

  /** Adjacency and degrees read only the ids of the nodes and their order. */
  lemma {:induction false} SameIdsSameStatistics(m: seq<NodeData>, n: seq<NodeData>, edges: seq<EdgeData>, i: nat, j: nat)
    requires Ids(m) == Ids(n)
    ensures Adjacent(m, edges, i, j) <==> Adjacent(n, edges, i, j)
    ensures Degree(m, edges, i) == Degree(n, edges, i)
  {
    forall s: string ensures IndexOfId(m, s) == IndexOfId(n, s) {
      IndexOfIdDependsOnIds(m, n, s);
    }
    DegreeSameNodes(m, n, edges, i);
  }

  lemma {:induction false} DegreeSameNodes(m: seq<NodeData>, n: seq<NodeData>, edges: seq<EdgeData>, i: nat)
    requires forall s: string :: IndexOfId(m, s) == IndexOfId(n, s)
    ensures Degree(m, edges, i) == Degree(n, edges, i)
  {
    if edges != [] { DegreeSameNodes(m, n, edges[..|edges| - 1], i); }
  }

  /** Dragging a node leaves the matrix and the degrees as they were: edges follow the node. */
  lemma MoveNodeKeepsStatistics(nodes: seq<NodeData>, edges: seq<EdgeData>, id: string, x: int, y: int, i: nat, j: nat)
    ensures Adjacent(MoveNode(nodes, id, x, y), edges, i, j) <==> Adjacent(nodes, edges, i, j)
    ensures Degree(MoveNode(nodes, id, x, y), edges, i) == Degree(nodes, edges, i)
  {
    SameIdsSameStatistics(MoveNode(nodes, id, x, y), nodes, edges, i, j);
  }

  /** `edges.some(edge => edge.directed)`. */
  function AnyDirected(edges: seq<EdgeData>): (b: bool)
    ensures b <==> exists k :: 0 <= k < |edges| && edges[k].directed
  {
    if edges == [] then false
    else edges[0].directed
         || (assert forall k :: 1 <= k < |edges| ==> edges[k] == edges[1..][k - 1];
             AnyDirected(edges[1..]))
  }

  /** The render-time pass over the edges: a zero matrix and zero degrees, then for each edge
      its (source, target) entry is set to 1 and its endpoints' degrees are raised (by 2 at
      once for a self-loop). */
  method ComputeStatistics(nodes: seq<NodeData>, edges: seq<EdgeData>) returns (matrix: array2<int>, degrees: array<int>)
    requires EdgesResolve(nodes, edges)
    ensures fresh(matrix) && fresh(degrees)
    ensures matrix.Length0 == |nodes| && matrix.Length1 == |nodes| && degrees.Length == |nodes|
    ensures forall i, j :: 0 <= i < |nodes| && 0 <= j < |nodes| ==>
              matrix[i, j] == if Adjacent(nodes, edges, i, j) then 1 else 0
    ensures forall i :: 0 <= i < |nodes| ==> degrees[i] == Degree(nodes, edges, i)
    ensures Total(degrees[..]) == 2 * |edges|
  {
    var n := |nodes|;
    matrix := new int[n, n]((i, j) => 0);
    degrees := new int[n](i => 0);
    for k := 0 to |edges|
      invariant forall i, j :: 0 <= i < n && 0 <= j < n ==>
                  matrix[i, j] == if Adjacent(nodes, edges[..k], i, j) then 1 else 0
      invariant forall i :: 0 <= i < n ==> degrees[i] == Degree(nodes, edges[..k], i)
    {
      var e := edges[k];
      var s := IndexOfId(nodes, e.source).value;
      var t := IndexOfId(nodes, e.target).value;
      assert edges[..k + 1] == edges[..k] + [e];
      AdjacentSnoc(nodes, edges[..k], e);
      matrix[s, t] := 1;
      if s == t {
        degrees[s] := degrees[s] + 2;
      } else {
        degrees[s] := degrees[s] + 1;
        degrees[t] := degrees[t] + 1;
      }
      forall i | 0 <= i < n ensures degrees[i] == Degree(nodes, edges[..k + 1], i) {
        IncidenceCases(nodes, e, s, t, i);
      }
    }
    assert edges[..|edges|] == edges;
    TotalOfDegrees(nodes, edges, degrees[..]);
    Handshake(nodes, edges);
  }

  lemma AdjacentSnoc(nodes: seq<NodeData>, edges: seq<EdgeData>, e: EdgeData)
    ensures forall i: nat, j: nat ::
              Adjacent(nodes, edges + [e], i, j) <==> Adjacent(nodes, edges, i, j) || Connects(nodes, e, i, j)
  {
    forall i: nat, j: nat | Adjacent(nodes, edges + [e], i, j)
      ensures Adjacent(nodes, edges, i, j) || Connects(nodes, e, i, j)
    {
      var f :| f in edges + [e] && Connects(nodes, f, i, j);
    }
    forall i: nat, j: nat | Adjacent(nodes, edges, i, j) || Connects(nodes, e, i, j)
      ensures Adjacent(nodes, edges + [e], i, j)
    {
      if Connects(nodes, e, i, j) {
        assert e in edges + [e];
      } else {
        var f :| f in edges && Connects(nodes, f, i, j);
        assert f in edges + [e];
      }
    }
  }
}

# Graph editor model

A Dafny model of the interactive graph component of a small React application
(`src/components/Graph.tsx`). The component keeps three pieces of state: a node list, an
edge list, and the node currently being dragged. It changes them in response to the form
controls (node count, source id, target id, directed flag) and to pointer events. On every
render it recomputes three derived values: an adjacency matrix, the degree of each node and
an "is any edge directed" flag.

Modules, following the component's parts:

- `NodeIds` (`node_ids.dfy`): the labels `v1`, `v2`, … as `v` followed by a decimal numeral.
  It proves that the numeral reads back to its number, so the labels are distinct.
- `GraphData` (`graph_data.dfy`): the node and edge records and the lookups the operations
  share. These are `find` by id, the first index of an id, and the search for an edge
  triple. It also holds the invariants: distinct ids, every endpoint resolves, no
  duplicate triple.
- `Geometry` (`geometry.dfy`): the regeneration loop (a `method` with a loop, as in the
  source) and the `map`-based node move.
- `EdgeStore` (`edge_store.dfy`): the insertion effect and the two `map`-based positional
  updates (direction toggle, bend), with their lemmas.
- `Statistics` (`statistics.dfy`): reference definitions of adjacency and degree. It has the
  render-time pass as a method that fills a fresh `array2` matrix and an `array` of degrees
  in place, as the `forEach` loop does. Both the handshake rule and the "any edge directed"
  flag are proved here.
- `GraphEditor` (`graph_editor.dfy`): class `Graph`, holding the component state in fields
  `nodes`, `edges` and `dragged`. Each effect and handler is a method that replaces these
  fields, under the invariant `Valid()`: ids distinct and every edge endpoint resolving.
  `Session` is a client that replays a short interaction against these contracts.
- `StaleReferences` (`stale_refs.dfy`): edges that hold node records, with `indexOf`
  lookup. This is the code as written, kept for the finding below.

Edge endpoints are node ids, resolved through the node list on every use. The source stores
node objects in the edge and resolves them by object identity. A drag then breaks the
lookup (see "## Findings"). The model resolves by id because edges are meant to follow the
node they name.

Edge cases the model treats as the code does:

- Toggling direction or setting the bend at an index outside the edge list leaves the
  list unchanged. The source does not check the index; `map` matches no position, so the
  list comes back as it was.
- The "no two edges share (source, target, directed)" rule holds only at insertion.
  Toggling an edge's direction can make its triple equal to another edge's
  (`EdgeStore.ToggleDirectionCanDuplicate`). So `Valid()` does not include
  `NoDuplicateEdges`. Insertion and bending are proved to keep that rule.
- A node count of zero or less produces no nodes (the `for` condition never holds).

## Model

| member | source | states |
|---|---|---|
| `NodeIds.ParseDecimalOfDecimal` | src/components/Graph.tsx:41 | The decimal numeral used in a node label reads back to the number it was printed from. |
| `NodeIds.NodeIdInjective` | src/components/Graph.tsx:41 | Two labels `v${k}` are equal exactly when their numbers are equal. |
| `NodeIds.NodeId` | src/components/Graph.tsx:41 | The label of the k-th node is `v` followed by an all-digit numeral that reads back to k. |
| `NodeIds.Decimal` | src/components/Graph.tsx:41 | The numeral is non-empty, all digits, and has no leading zero. |
| `GraphData.IndexOfId` | src/components/Graph.tsx:52-53 | Lookup by id yields the first position holding that id, or none exactly when no node carries it. |
| `GraphData.FindNode` | src/components/Graph.tsx:52-53 | `find` by id returns the first node of the list with that id (no earlier node carries it), or nothing exactly when no node has it. |
| `GraphData.ContainsTriple` | src/components/Graph.tsx:55-60 | The search for an existing edge succeeds exactly when some edge has the same source id, target id and direction flag. |
| `GraphData.IndexOfIdDependsOnIds` | src/components/Graph.tsx:88-90 | Two node lists with the same ids in the same order resolve every id to the same position, whatever the coordinates. |
| `Geometry.GenerateNodes` | src/components/Graph.tsx:38-45 | The loop yields max(count, 0) nodes; node i has id `v(i+1)` and the position supplied for it; all ids are distinct. |
| `GraphEditor.Graph.Regenerate` | src/components/Graph.tsx:37-48 | The node-count effect replaces the node list with `v1..vN` in order and empties the edge list; the drag state is kept. |
| `EdgeStore.InsertEdge` | src/components/Graph.tsx:50-72 | Appends exactly the straight edge (source, target, directed, bend 0) when both ids are non-empty, both name a node and no edge has that triple; otherwise the list is unchanged. |
| `EdgeStore.InsertEdgeIdempotent` | src/components/Graph.tsx:55-61 | Running the insertion twice with the same inputs gives the same list as running it once. |
| `EdgeStore.BothDirectionsCoexist` | src/components/Graph.tsx:55-61 | An undirected and a directed edge on the same ordered pair are both appended, as two distinct entries in insertion order. |
| `EdgeStore.InsertEdgeKeepsResolve` | src/components/Graph.tsx:51-68 | After insertion every endpoint still names a node. |
| `EdgeStore.InsertEdgeKeepsNoDuplicates` | src/components/Graph.tsx:55-61 | Insertion never makes two edges share a triple. |
| `GraphEditor.Graph.AddEdge` | src/components/Graph.tsx:50-72 | The insertion effect replaces the edge list by the insertion's result, keeps nodes and drag state, and keeps `Valid()`. |
| `EdgeStore.ToggleDirection` | src/components/Graph.tsx:74-79 | Same length; endpoints and bends of all edges kept; the direction flag flipped at the given index and kept elsewhere. |
| `EdgeStore.ToggleDirectionFrame` | src/components/Graph.tsx:74-79 | Every other edge is untouched; an index outside the list changes nothing. |
| `EdgeStore.ToggleDirectionTwice` | src/components/Graph.tsx:74-79 | Toggling the same index twice restores the original list. |
| `EdgeStore.ToggleDirectionCanDuplicate` | src/components/Graph.tsx:74-79 | A list without duplicate triples can get one by a toggle: the uniqueness rule is enforced only by insertion. |
| `EdgeStore.ToggleDirectionKeepsResolve` | src/components/Graph.tsx:74-79 | A toggle keeps every endpoint resolving. |
| `GraphEditor.Graph.ToggleEdgeDirection` | src/components/Graph.tsx:74-79 | The handler replaces the edge list by the toggled list and nothing else. |
| `EdgeStore.SetBend` | src/components/Graph.tsx:81-86 | Same length; endpoints and direction of all edges kept; bend set at the given index and kept elsewhere. |
| `EdgeStore.SetBendFrame` | src/components/Graph.tsx:81-86 | Every other edge is untouched; an index outside the list changes nothing. |
| `EdgeStore.SetBendOverrides` | src/components/Graph.tsx:81-86 | A later bend of the same edge overrides an earlier one; re-applying the current bend changes nothing. |
| `EdgeStore.SetBendKeepsInvariants` | src/components/Graph.tsx:81-86 | Bending keeps every endpoint resolving and keeps triples unique. |
| `GraphEditor.Graph.BendEdge` | src/components/Graph.tsx:81-86 | The handler replaces the edge list by the bent list and nothing else. |
| `Geometry.MoveNode` | src/components/Graph.tsx:88-90 | Same ids in the same order; every node with the id gets (x, y); every other node is unchanged. |
| `Geometry.MoveUnknownNode` | src/components/Graph.tsx:88-90 | An id that names no node leaves the list unchanged. |
| `Geometry.MoveNodeAt` | src/components/Graph.tsx:88-90 | With distinct ids exactly the named node moves, to exactly (x, y). |
| `Geometry.MoveNodeOverrides` | src/components/Graph.tsx:88-90 | A later move of the same node overrides an earlier one. |
| `Geometry.MoveNodeKeepsEdgesResolved` | src/components/Graph.tsx:88-90 | After a move ids stay distinct and every edge endpoint resolves to the same position as before. |
| `GraphEditor.Graph.NodeDrag` | src/components/Graph.tsx:88-90 | The handler replaces the node list by the moved list; edges and drag state are kept. |
| `GraphEditor.Graph.NodeMouseDown` | src/components/Graph.tsx:92-97 | A known id makes its node the dragged one; an unknown id leaves the drag state as it was. |
| `GraphEditor.Graph.MouseMove` | src/components/Graph.tsx:99-106 | With no dragged node nothing changes; otherwise the dragged node's id is moved to the pointer position. |
| `GraphEditor.Graph.MouseUp` | src/components/Graph.tsx:108-110 | The drag state is cleared and nothing else changes. |
| `GraphEditor.Graph.constructor` | src/components/Graph.tsx:33-35 | The initial state has no nodes, no edges and no dragged node. |
| `Statistics.ComputeStatistics` | src/components/Graph.tsx:119-131 | The pass yields an N×N matrix whose entry (i, j) is 1 exactly when some edge runs from node i to node j, else 0. Degree i counts the edge endpoints at node i, a loop adding 2 through the source's own branch. The degrees total twice the number of edges. |
| `Statistics.Handshake` | src/components/Graph.tsx:120-131 | When every endpoint resolves, the degrees of all nodes add up to twice the number of edges. |
| `Statistics.IncidenceCases` | src/components/Graph.tsx:125-130 | A self-loop adds 2 to its node and nothing elsewhere; any other edge adds 1 to each endpoint. |
| `Statistics.AdjacencyIsDirectional` | src/components/Graph.tsx:124 | An edge from i to j (i ≠ j) marks (i, j) and not (j, i). |
| `Statistics.ParallelEdgesCollapse` | src/components/Graph.tsx:124 | Another edge between an already adjacent ordered pair changes no matrix entry. |
| `Statistics.EdgeUpdatesKeepStatistics` | src/components/Graph.tsx:119-131 | Toggling a direction or bending an edge changes neither the matrix nor any degree. |
| `Statistics.SameIdsSameStatistics` | src/components/Graph.tsx:119-131 | Two node lists with the same ids in the same order give the same adjacency and the same degree for every node and every edge list. |
| `Statistics.MoveNodeKeepsStatistics` | src/components/Graph.tsx:119-131 | Dragging a node changes no matrix entry and no degree: edges follow the node by id. |
| `Statistics.AnyDirected` | src/components/Graph.tsx:133 | True exactly when some edge has its direction flag set. |
| `GraphEditor.Graph.Derived` | src/components/Graph.tsx:119-133 | What the render reads: the matrix and degrees as above for the current state, and the directed flag. |
| `GraphEditor.ThreeNodeStatistics` | src/components/Graph.tsx:119-131 | With nodes v1, v2, v3 and one edge v1→v2 (either flag): (0, 1) adjacent, (1, 0) not, degrees 1, 1, 0. |
| `StaleReferences.IndexOfNode` | src/components/Graph.tsx:122-123 | `indexOf` yields the first position holding the record, or -1 exactly when the list does not hold it. |
| `StaleReferences.InsertEdgeRef` | src/components/Graph.tsx:50-72 | The insertion as written appends the edge holding the two records `find` returns, bend 0, exactly when both ids are non-empty, both name a node and no edge's records carry that triple; otherwise the list is unchanged. |
| `StaleReferences.InsertEdgeRefAgrees` | src/components/Graph.tsx:50-72 | Read through the ids of its records, the list the as-written insertion builds is the one the id-based insertion builds. |
| `StaleReferences.FreshEdgeResolves` | src/components/Graph.tsx:122-123 | Endpoint records held by the node list are found at a valid position. |
| `StaleReferences.DragLeavesStaleEndpoint` | src/components/Graph.tsx:89 | After an edge's source node is dragged to a different position, `indexOf` of the captured record yields -1. |
| `StaleReferences.SelfLoopDragCounterexample` | src/components/Graph.tsx:122-124 | One node, a self-loop on it, one drag: the lookup goes from position 0 to -1, outside the matrix. |

## Findings

| source | as written | input that shows it | evidently intended | confidence | as-written member | corrected member |
|---|---|---|---|---|---|---|
| src/components/Graph.tsx:89 | Edges keep the node object found at insertion. A drag replaces that node with a copy carrying the new position. On the next render `nodes.indexOf(edge.source)` yields -1, and `adjacencyMatrix[-1][targetIndex] = 1` (line 124) writes into a row that does not exist, which throws. | Node count 1; add edge v1→v1; mouse-down on v1; mouse-move to any other position. | An edge follows the node it names: after a drag every endpoint still resolves to the same position, and the matrix and degrees are unchanged. | high, not executed | `StaleReferences.SelfLoopDragCounterexample` | `Statistics.MoveNodeKeepsStatistics` |

The corrected model resolves endpoints by id (`GraphData.IndexOfId`). The class `Graph`
uses only that form. Its invariant `Valid()`, kept by every handler
(`Geometry.MoveNodeKeepsEdgesResolved` for drags), guarantees that the render never
computes an index outside the matrix. The as-written module compares node records by
value in place of object identity. The two agree on the first drag that changes the
node's position, which is the case the counterexample uses.

## Left out

- Random placement: the positions `Math.random()` gives new nodes are a parameter
  `place`, a function from the node's index to a point. The bounds of the random range are
  not modelled.
- Coordinates and bends are integers; the source's floating-point numbers and the
  pointer-coordinate arithmetic (`getBoundingClientRect`, client minus canvas offset) are
  not modelled. `MouseMove` takes the canvas position directly.
- Node counts that are not integers (a fractional or NaN form value) are not modelled: the
  count is an `int`.
- Node labels use the decimal form JavaScript prints below 10^21; exponent notation for
  larger counts is not modelled.
- React effect scheduling and dependency arrays: each effect is an explicit method that a
  caller invokes. The re-running of the insertion effect whenever `nodes` changes is not
  modelled. For example, after a regeneration it re-adds the edge still named in the form.
- The `window` mouse-up listener registration and removal (lines 112-117): `MouseUp` is
  the handler it installs.
- Rendering: the SVG and table markup (lines 135-205). The edge component's path strings,
  loop drawing and its bend computed from mixed client and canvas coordinates.
- The node component's second path into `handleNodeDrag` (src/components/Node.tsx:13-30).
  Its own dragging flag is set by a mouse-down on the circle and cleared only by a mouse-up
  on the circle, while the graph's drag state is cleared by the window listener. While the
  flag is set, a mouse-move over the node calls `handleNodeDrag` directly (a direct
  `NodeDrag` call in the model). So in the application a node can move while the graph has
  no dragged node, which `MouseMove` alone does not capture. That flag is not modelled.
- The application shell's form state and its save action, which only writes to the
  console. The editable-span widget of the homework folder.
- Immutability and change detection by reference: every operation returns a new value or
  assigns a new value to a field, so sharing between old and new lists is not observable.
- `StaleReferences.IndexOfNode`: object identity is modelled as equality of node records,
  so two distinct objects with equal fields are not told apart.

# Directed weighted graphs, two backings, one contract

This project models the graph library of the `tp-grafos` repository. The
library has one abstract contract, `AbstractGraph` (graph_lib.py). Two classes
implement it over a fixed vertex set `0 .. n-1`:

- `AdjacencyListGraph` (list_graph.py) keeps, for each vertex, a dictionary
  from successor to edge weight.
- `AdjacencyMatrixGraph` (matrix_graph.py) keeps an `n x n` matrix of weights,
  where `0.0` means "no edge".

Both classes keep a vertex-weight list, which starts at 1.0 for every vertex.
Both also keep an edge counter, `num_edges`, which is updated alongside the
structure. Self-loops are refused. An out-of-range vertex is an error, and the
range check comes before the self-loop check.

The Dafny model is functional. Every mutator returns a new graph or an error,
as `Result<T> = Ok(value) | Err(error)`. The error is
`InvalidVertex(v)` for a bad index or `SelfLoop(u)` for `addEdge(u, u)`.

Modules:

- `GraphSpec` (graph_spec.dfy): the abstract graph. It has `n`, a map from
  edges `(u, v)` to weights, and the vertex weights. Every operation of the
  contract is defined over it, with its error cases. It also holds the
  abstract lemmas:
  - the edge count is the sum of the out-degrees;
  - "complete" as a count is the same as "every ordered pair of distinct
    vertices is an edge", and "empty" as a count is the same as "no edge";
  - weak connectivity is defined as reachability from vertex 0 along walks
    that ignore edge direction;
  - the invariant of the breadth-first search that `isConnected` runs.
- `ListBacking` (list_graph.dfy) and `MatrixBacking` (matrix_graph.dfy):
  - the two concrete representations, each with a representation invariant
    and an abstraction function `Abs` into `GraphSpec`;
  - every operation of the class, with a contract stating that it refines the
    abstract operation. For the matrix this holds while no edge weight is set
    to 0.0; `setEdgeWeight` with 0.0 acts as `removeEdge` on the abstract graph;
  - the proof that, in every valid graph, the stored edge counter equals the
    number of edges. Every list operation keeps its graph valid. For the
    matrix this holds while no edge weight is set to 0.0: writing 0.0 erases
    the edge but leaves the counter one too high (`ZeroWeightDropsEdge`);
  - the degree scans and the breadth-first search of `isConnected`, written
    as loops with their invariants.
- `Equivalence` (equivalence.dfy): replays one sequence of edits on both
  backings.
  - If no edit sets an edge weight to `0.0`, both backings stand for the same
    abstract graph after the edits, so every query answers alike.
  - If an edit sets the weight of an existing edge to `0.0`, the backings
    diverge, and a concrete two-vertex example shows it. Setting the weight
    of an absent edge does nothing on either backing.
- `QuickTest` (quick_test.dfy): the repository's quick test script
  (test_graph.py), replayed on the adjacency-list model.
- `Counting` (counting.dfy): cardinality helpers for finite sets of indices.

## Model

| member | source | states |
|---|---|---|
| GraphSpec.Empty | list_graph.py:4-8 | a new graph has n vertices, no edges, every vertex weight 1.0, and satisfies the graph invariant |
| GraphSpec.HasEdge | list_graph.py:20-23 | fails exactly when u or v is out of range; in a valid graph a reported edge is never a self-loop |
| GraphSpec.AddEdge | list_graph.py:25-34 | fails exactly on an out-of-range vertex or u == v; an out-of-range u is reported first, then an out-of-range v, and only then SelfLoop(u); afterwards u -> v is an edge; an existing edge leaves the graph unchanged; a new edge gets weight 1.0 and raises the edge count by one; no other edge or vertex weight changes; validity is preserved |
| GraphSpec.RemoveEdge | list_graph.py:36-41 | fails exactly on an out-of-range vertex; afterwards u -> v is not an edge; the count drops by one exactly when the edge existed; a missing edge leaves the graph unchanged; nothing else changes |
| GraphSpec.IsDivergent | list_graph.py:51-55 | fails exactly when (u1, v1) is out of range, or (u1, v1) is an edge and (u2, v2) is out of range; true exactly when both pairs are edges leaving the same vertex towards different heads; when (u1, v1) is in range but absent the answer is false without the second pair being checked |
| GraphSpec.IsConvergent | list_graph.py:57-61 | fails under the same conditions as IsDivergent; true exactly when both pairs are edges entering the same vertex from different tails; short-circuits on an absent first edge as above |
| GraphSpec.IsIncident | list_graph.py:63-67 | fails exactly when u or v is out of range, and x is never checked; true exactly when u -> v is an edge and x is one of its endpoints |
| GraphSpec.InDegree | list_graph.py:69-75 | fails exactly for an out-of-range vertex; in a valid graph the in-degree is at most n - 1 |
| GraphSpec.OutDegree | list_graph.py:77-79 | fails exactly for an out-of-range vertex; in a valid graph the out-degree is at most n - 1 |
| GraphSpec.SetVertexWeight | list_graph.py:81-83 | fails exactly for an out-of-range vertex; the weight then reads back as written; edges are untouched and validity is preserved |
| GraphSpec.SetEdgeWeight | list_graph.py:89-93 | fails exactly on an out-of-range vertex; changes the weight of an existing edge only (reads back as written); an absent edge leaves the graph unchanged; the edge set and count never change |
| GraphSpec.GetEdgeWeight | list_graph.py:95-98 | fails exactly on an out-of-range vertex; an absent edge reads as 0.0 |
| GraphSpec.DegreeBounds | list_graph.py:69-79 | in a valid graph both degrees of any vertex are at most n - 1 |
| GraphSpec.EdgeCountIsSumOfOutDegrees | list_graph.py:17-18 | the number of edges equals the sum of all out-degrees |
| GraphSpec.OutDegreeFull | list_graph.py:129-131 | an out-degree is at most n - 1, and equals n - 1 exactly when the vertex points to every other vertex |
| GraphSpec.CompleteIffAllPairs | list_graph.py:129-131 | an edge count of n(n-1) holds exactly when every ordered pair of distinct vertices is an edge |
| GraphSpec.EmptyIffNoEdge | list_graph.py:126-127 | an edge count of zero holds exactly when no pair is an edge |
| GraphSpec.ClosedContainsReachable | list_graph.py:100-124 | a vertex set that holds 0 and is closed under edges in either direction holds every vertex reachable from 0 |
| GraphSpec.ConnectedIffAllReached | list_graph.py:100-124 | the graph is weakly connected exactly when the set reachable from 0 has n members |
| GraphSpec.ConnectedSmallCases | list_graph.py:100-101 | the empty graph is not connected; one vertex is; two vertices joined by an edge in either direction are |
| GraphSpec.BfsDequeue | list_graph.py:108-110 | taking the head of the queue keeps the search invariant and increases the number of processed vertices by one, up to at most n |
| GraphSpec.BfsFinish | list_graph.py:108-124 | once the queue is empty and every processed vertex has had its neighbours seen, the processed set is exactly the set reachable from 0 |
| ListBacking.CounterIsEdgeCount | list_graph.py:25-41 | in every valid list graph the stored counter equals the number of abstract edges and the sum of the out-degrees |
| ListBacking.New | list_graph.py:4-8 | a new list graph satisfies the representation invariant and stands for the empty graph on n vertices |
| ListBacking.GetVertexCount | list_graph.py:14-15 | returns the abstract vertex count |
| ListBacking.GetEdgeCount | list_graph.py:17-18 | the stored counter is the number of abstract edges |
| ListBacking.HasEdge | list_graph.py:20-23 | refines GraphSpec.HasEdge |
| ListBacking.AddEdge | list_graph.py:25-34 | keeps the invariant (counter included) and refines GraphSpec.AddEdge, errors included |
| ListBacking.RemoveEdge | list_graph.py:36-41 | keeps the invariant and refines GraphSpec.RemoveEdge |
| ListBacking.IsSuccessor | list_graph.py:43-45 | refines the abstract successor query, which is HasEdge(u, v) |
| ListBacking.IsPredecessor | list_graph.py:47-49 | refines the abstract predecessor query, which is HasEdge(v, u) |
| ListBacking.IsDivergent | list_graph.py:51-55 | refines GraphSpec.IsDivergent, including the short-circuit |
| ListBacking.IsConvergent | list_graph.py:57-61 | refines GraphSpec.IsConvergent |
| ListBacking.IsIncident | list_graph.py:63-67 | refines GraphSpec.IsIncident |
| ListBacking.InDegree | list_graph.py:69-75 | the loop over all dictionaries counts exactly the abstract in-neighbours |
| ListBacking.OutDegree | list_graph.py:77-79 | the size of the successor dictionary is the abstract out-degree |
| ListBacking.SetVertexWeight | list_graph.py:81-83 | keeps the invariant and refines GraphSpec.SetVertexWeight |
| ListBacking.GetVertexWeight | list_graph.py:85-87 | refines the abstract vertex-weight query |
| ListBacking.SetEdgeWeight | list_graph.py:89-93 | keeps the invariant and refines GraphSpec.SetEdgeWeight for every weight, 0.0 included |
| ListBacking.GetEdgeWeight | list_graph.py:95-98 | refines GraphSpec.GetEdgeWeight, where an absent edge reads 0.0 |
| ListBacking.IsEmptyGraph | list_graph.py:126-127 | the counter test agrees with the abstract emptiness |
| ListBacking.IsCompleteGraph | list_graph.py:129-131 | the counter test agrees with the abstract completeness |
| ListBacking.BfsCount | list_graph.py:102-122 | the breadth-first search over successors and predecessors processes each vertex reachable from 0 exactly once, so it counts the reachable set, at most n |
| ListBacking.VisitSuccessors | list_graph.py:112-116 | the loop over u's successor map leaves every successor of u visited, only adds reachable vertices, and keeps the search invariant |
| ListBacking.VisitPredecessors | list_graph.py:118-122 | the loop over all vertices leaves every i with an edge i -> u visited, only adds reachable vertices, and keeps the search invariant |
| ListBacking.IsConnected | list_graph.py:100-124 | answers exactly whether the graph is weakly connected, and is false for n = 0 |
| MatrixBacking.CounterIsEdgeCount | matrix_graph.py:25-41 | in every valid matrix graph the stored counter equals the number of nonzero cells, which is the number of abstract edges |
| MatrixBacking.New | matrix_graph.py:4-8 | a new zero matrix satisfies the invariant and stands for the empty graph on n vertices |
| MatrixBacking.GetVertexCount | matrix_graph.py:14-15 | on any well-shaped matrix, stale counter included, returns the abstract vertex count |
| MatrixBacking.GetEdgeCount | matrix_graph.py:17-18 | on any well-shaped matrix returns the stored counter, which is the number of abstract edges whenever the counter invariant holds |
| MatrixBacking.HasEdge | matrix_graph.py:20-23 | a nonzero cell refines GraphSpec.HasEdge |
| MatrixBacking.AddEdge | matrix_graph.py:25-34 | keeps the shape and the counter invariant and refines GraphSpec.AddEdge; on any well-shaped matrix, even one with a stale counter, the counter goes up by one exactly when the edge was absent |
| MatrixBacking.RemoveEdge | matrix_graph.py:36-41 | keeps the shape and the counter invariant and refines GraphSpec.RemoveEdge; on any well-shaped matrix the counter goes down by one exactly when the edge was present |
| MatrixBacking.IsSuccessor | matrix_graph.py:43-44 | refines the abstract successor query |
| MatrixBacking.IsPredecessor | matrix_graph.py:46-47 | refines the abstract predecessor query |
| MatrixBacking.IsDivergent | matrix_graph.py:49-52 | refines GraphSpec.IsDivergent |
| MatrixBacking.IsConvergent | matrix_graph.py:54-57 | refines GraphSpec.IsConvergent |
| MatrixBacking.IsIncident | matrix_graph.py:59-62 | refines GraphSpec.IsIncident |
| MatrixBacking.InDegree | matrix_graph.py:64-70 | the column scan counts exactly the abstract in-neighbours |
| MatrixBacking.OutDegree | matrix_graph.py:72-78 | the row scan counts exactly the abstract out-neighbours |
| MatrixBacking.SetVertexWeight | matrix_graph.py:80-82 | keeps the invariant, never changes the counter, and refines GraphSpec.SetVertexWeight |
| MatrixBacking.GetVertexWeight | matrix_graph.py:84-86 | refines the abstract vertex-weight query |
| MatrixBacking.SetEdgeWeight | matrix_graph.py:88-92 | never changes the counter; for a nonzero weight it keeps the invariant and refines GraphSpec.SetEdgeWeight; for weight 0.0 it acts on the abstract graph as RemoveEdge |
| MatrixBacking.GetEdgeWeight | matrix_graph.py:94-97 | the stored cell refines GraphSpec.GetEdgeWeight |
| MatrixBacking.IsEmptyGraph | matrix_graph.py:121-122 | on any well-shaped matrix tests the stored counter for zero, which agrees with the abstract emptiness whenever the counter invariant holds |
| MatrixBacking.IsCompleteGraph | matrix_graph.py:124-126 | on any well-shaped matrix compares the stored counter with n(n-1), which agrees with the abstract completeness whenever the counter invariant holds |
| MatrixBacking.BfsCount | matrix_graph.py:101-117 | the search that tests both cells matrix[u][v] and matrix[v][u] counts exactly the set reachable from 0, at most n |
| MatrixBacking.VisitNeighbours | matrix_graph.py:111-117 | the loop over all v leaves every vertex adjacent to u in either direction visited, only adds reachable vertices, and keeps the search invariant |
| MatrixBacking.IsConnected | matrix_graph.py:99-119 | answers exactly whether the graph is weakly connected |
| MatrixBacking.ZeroWeightDropsEdge | matrix_graph.py:88-92 | setting the weight of an existing edge to 0.0 erases the edge while the counter still counts it, so the counter invariant breaks |
| Equivalence.ListRunRefines | list_graph.py:25-93 | any sequence of edits on a list graph refines the same edits on the abstract graph, errors included |
| Equivalence.MatrixRunRefines | matrix_graph.py:25-92 | any sequence of edits with no zero edge weight on a matrix graph refines the same edits on the abstract graph and keeps the invariant |
| Equivalence.BackingsAgree | graph_lib.py:4-79 | from n vertices, the same zero-free edits fail alike on both backings or leave them standing for the same abstract graph, with equal counts and equal edge queries; the list's abstract graph is valid |
| Equivalence.QueriesAgree | graph_lib.py:4-79 | two graphs that stand for the same abstract graph give identical answers to all fifteen queries: vertex and edge counts, hasEdge, isSuccessor, isPredecessor, isDivergent, isConvergent, isIncident, both weight reads, both degree scans, isConnected, isEmptyGraph and isCompleteGraph; the hasEdge, isDivergent, isConvergent, isIncident, in-degree and isConnected answers also equal the abstract ones |
| Equivalence.StaleCounterOvercounts | matrix_graph.py:25-34 | after the 0.0 write has left the counter stale, adding 0 -> 1 again raises the counter to 2 while the matrix holds one edge |
| Equivalence.ZeroWeightDiverges | matrix_graph.py:88-92 | after adding 0 -> 1 and setting its weight to 0.0, the list still reports the edge while the matrix does not, both counters say 1, the matrix has no edge left yet its isEmptyGraph answers false, and the matrix invariant is broken |
| QuickTest.QuickTestTrace | test_graph.py:6-21 | on the quick test's graph, 0 -> 1 is an edge, 1 -> 3 is not, vertex 2 has out- and in-degree 2, and the weight 5.5 written to 0 -> 1 reads back |

## Left out

- `exportToGEPHI` (both classes): writes a file. File output is outside the model.
- `main.py`, `data_format.py` and the downloader load data and drive the library. They are not part of this model.
- Floating point: weights are Dafny `real`. Only exact comparison with 0.0 matters to the code, and `real` keeps that. Rounding and NaN are not modelled. A NaN weight would count as an edge in the matrix.
- Exceptions: `ValueError` and its message text become the `InvalidVertex`/`SelfLoop` error values. Callers' handling of them is not modelled.
- Negative `numVertices`: the constructors take a `nat`. In the source, a negative count gives empty storage while the stored count stays negative; that case is not modelled.
- Dictionary iteration order and queue order in `isConnected`: the model proves the count is independent of them. It picks successors from a set in an unspecified order.
- Mutation in place: the classes mutate `self`. The model returns new values, so aliasing between graph objects is not modelled.
- MatrixBacking.SetEdgeWeight: the representation invariant is promised only for nonzero weights. With weight 0.0 the source keeps a stale counter, as ZeroWeightDropsEdge shows, and the model keeps that behaviour as written.
- Every MatrixBacking operation requires only the shape invariant, so it applies to the states a 0.0 weight reaches. The counter-reading ones (GetEdgeCount, IsEmptyGraph, IsCompleteGraph) tie their answer to the abstract graph only while the counter invariant holds.
- GraphSpec.IsSuccessor, GraphSpec.IsPredecessor, GraphSpec.GetVertexWeight, GraphSpec.IsEmpty and GraphSpec.IsComplete are the abstract definitions. Their properties are stated by the backings' refinements and by CompleteIffAllPairs and EmptyIffNoEdge.

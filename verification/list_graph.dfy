/** The adjacency-list backing (list_graph.py): for each vertex, a map from
    successor to edge weight, one weight per vertex, and an edge counter.

    Every operation is proved to refine the contract of GraphSpec through the
    abstraction Abs, which reads the successor maps as a set of weighted
    ordered pairs. */
module ListBacking {
  import opened Counting
  import opened GraphSpec

  datatype ListGraph = ListGraph(
    numVertices: nat,
    adj: seq<map<int, real>>,
    vertexWeights: seq<real>,
    numEdges: int)

  /** The number of entries over all successor maps. */
  function TotalSize(adj: seq<map<int, real>>): nat
  {
    if |adj| == 0 then 0 else TotalSize(adj[..|adj| - 1]) + |adj[|adj| - 1]|
  }

  /** One successor map per vertex, successors in range and never the vertex
      itself, and the counter equal to the total number of map entries. */
  ghost predicate Valid(g: ListGraph)
  {
    && |g.adj| == g.numVertices
    && |g.vertexWeights| == g.numVertices
    && (forall u, v :: 0 <= u < |g.adj| && v in g.adj[u] ==> InRange(g.numVertices, v) && v != u)
    && g.numEdges == TotalSize(g.adj)
  }

  ghost function EdgeMap(adj: seq<map<int, real>>): (m: map<Edge, real>)
    ensures forall u, v :: (u, v) in m <==> 0 <= u < |adj| && v in adj[u]
    ensures forall u, v :: (u, v) in m ==> m[(u, v)] == adj[u][v]
  {
    var pairs := set u, v | 0 <= u < |adj| && v in adj[u] :: (u, v);
    map e | e in pairs :: adj[e.0][e.1]
  }

  /** The abstract graph a list graph stands for. */
  ghost function Abs(g: ListGraph): AbsGraph
  {
    AbsGraph(g.numVertices, EdgeMap(g.adj), g.vertexWeights)
  }

  ghost function Lift(r: Result<ListGraph>): Result<AbsGraph>
  {
    match r
    case Ok(g) => Ok(Abs(g))
    case Err(e) => Err(e)
  }

  lemma AbsValid(g: ListGraph)
    requires Valid(g)
    ensures GraphSpec.Valid(Abs(g))
  {
  }

  // ---------------------------------------------------------------------
  // The edge counter.

  lemma {:induction false} TotalSizeUpdate(adj: seq<map<int, real>>, u: int, m: map<int, real>)
    requires 0 <= u < |adj|
    ensures TotalSize(adj[u := m]) == TotalSize(adj) - |adj[u]| + |m|
    decreases |adj|
  {
    var last := |adj| - 1;
    assert adj[u := m][..last] == if u == last then adj[..last] else adj[..last][u := m];
    if u < last {
      TotalSizeUpdate(adj[..last], u, m);
    }
  }

  /** n empty successor maps. */
  function NoEntries(n: nat): (adj: seq<map<int, real>>)
    ensures |adj| == n && forall i :: 0 <= i < n ==> adj[i] == map[]
  {
    seq(n, _ => map[])
  }

  lemma {:induction false} TotalSizeNoEntries(n: nat)
    ensures TotalSize(NoEntries(n)) == 0
  {
    if n > 0 {
      assert NoEntries(n)[..n - 1] == NoEntries(n - 1);
      TotalSizeNoEntries(n - 1);
    }
  }

  lemma {:induction false} TotalSizeIsSumOfOutDegrees(g: ListGraph, k: nat)
    requires Valid(g) && k <= g.numVertices
    ensures TotalSize(g.adj[..k]) == SumOutDegrees(Abs(g), k)
  {
    if k > 0 {
      assert g.adj[..k][..k - 1] == g.adj[..k - 1];
      TotalSizeIsSumOfOutDegrees(g, k - 1);
      RowIsOutNeighbours(g, k - 1);
    }
  }

  /** The keys of u's successor map are u's abstract out-neighbours. */
  lemma RowIsOutNeighbours(g: ListGraph, u: int)
    requires Valid(g) && InRange(g.numVertices, u)
    ensures g.adj[u].Keys == OutNeighbours(Abs(g), u)
    ensures |g.adj[u]| == |OutNeighbours(Abs(g), u)|
  {
    forall v | v in g.adj[u]
      ensures v in OutNeighbours(Abs(g), u)
    {
      assert InRange(g.numVertices, v) && (u, v) in Abs(g).edges;
    }
  }

  /** Writing weight w for v in u's map writes it for the pair (u, v). */
  lemma EdgeMapPut(adj: seq<map<int, real>>, u: int, v: int, w: real)
    requires 0 <= u < |adj|
    ensures EdgeMap(adj[u := adj[u][v := w]]) == EdgeMap(adj)[(u, v) := w]
  {
    var before, after := EdgeMap(adj), EdgeMap(adj[u := adj[u][v := w]]);
    forall e | e in after
      ensures e in before[(u, v) := w] && after[e] == before[(u, v) := w][e]
    {
      assert (e.0, e.1) in after;
    }
    forall e | e in before[(u, v) := w]
      ensures e in after
    {
      if e != (u, v) {
        assert (e.0, e.1) in before;
      }
    }
  }

  /** Entry y of map x after deleting v from map u. */
  lemma EntryAfterDelete(adj: seq<map<int, real>>, u: int, v: int, x: int, y: int)
    requires 0 <= u < |adj| && 0 <= x < |adj|
    ensures y in adj[u := adj[u] - {v}][x] <==> y in adj[x] && (x, y) != (u, v)
    ensures y in adj[u := adj[u] - {v}][x] ==> adj[u := adj[u] - {v}][x][y] == adj[x][y]
  {
  }

  /** Deleting v from u's map deletes the pair (u, v). */
  lemma EdgeMapDelete(adj: seq<map<int, real>>, u: int, v: int)
    requires 0 <= u < |adj|
    ensures EdgeMap(adj[u := adj[u] - {v}]) == EdgeMap(adj) - {(u, v)}
  {
    var before, after := EdgeMap(adj), EdgeMap(adj[u := adj[u] - {v}]);
    forall e | e in after
      ensures e in before - {(u, v)} && after[e] == before[e]
    {
      assert (e.0, e.1) in after;
      EntryAfterDelete(adj, u, v, e.0, e.1);
    }
    forall e | e in before - {(u, v)}
      ensures e in after
    {
      assert (e.0, e.1) in before;
      EntryAfterDelete(adj, u, v, e.0, e.1);
    }
  }

  /** The list graph after writing (u, v, w) and moving the counter by delta. */
  function Put(g: ListGraph, u: int, v: int, w: real, delta: int): ListGraph
    requires 0 <= u < |g.adj|
  {
    g.(adj := g.adj[u := g.adj[u][v := w]], numEdges := g.numEdges + delta)
  }

  /** Writing a weight grows u's map by one entry exactly when v was absent. */
  lemma MapPutCard(m: map<int, real>, v: int, w: real)
    ensures |m[v := w]| == |m| + (if v in m then 0 else 1)
  {
    if v in m {
      assert m[v := w].Keys == m.Keys;
    } else {
      assert m[v := w].Keys == m.Keys + {v};
    }
  }

  lemma PutValid(g: ListGraph, u: int, v: int, w: real)
    requires Valid(g) && InRange(g.numVertices, u) && InRange(g.numVertices, v) && u != v
    ensures Valid(Put(g, u, v, w, if v in g.adj[u] then 0 else 1))
  {
    TotalSizeUpdate(g.adj, u, g.adj[u][v := w]);
    MapPutCard(g.adj[u], v, w);
  }

  lemma PutStep(g: ListGraph, u: int, v: int, w: real)
    requires Valid(g) && InRange(g.numVertices, u) && InRange(g.numVertices, v) && u != v
    ensures var delta := if v in g.adj[u] then 0 else 1;
      Valid(Put(g, u, v, w, delta)) && Abs(Put(g, u, v, w, delta)) == Abs(g).(edges := Abs(g).edges[(u, v) := w])
  {
    PutValid(g, u, v, w);
    EdgeMapPut(g.adj, u, v, w);
  }

  lemma DeleteStep(g: ListGraph, u: int, v: int)
    requires Valid(g) && InRange(g.numVertices, u) && v in g.adj[u]
    ensures var g' := g.(adj := g.adj[u := g.adj[u] - {v}], numEdges := g.numEdges - 1);
      Valid(g') && Abs(g') == Abs(g).(edges := Abs(g).edges - {(u, v)})
  {
    TotalSizeUpdate(g.adj, u, g.adj[u] - {v});
    EdgeMapDelete(g.adj, u, v);
  }

  /** The counter of a valid list graph is the number of abstract edges,
      which is also the sum of the out-degrees. */
  lemma CounterIsEdgeCount(g: ListGraph)
    requires Valid(g)
    ensures g.numEdges == EdgeCount(Abs(g)) == SumOutDegrees(Abs(g), g.numVertices)
  {
    TotalSizeIsSumOfOutDegrees(g, g.numVertices);
    assert g.adj[..g.numVertices] == g.adj;
    EdgeCountIsSumOfOutDegrees(Abs(g));
  }

  // ---------------------------------------------------------------------
  // Operations.

  /** A graph on n vertices, no edges, every vertex weight 1.0. */
  function New(n: nat): (g: ListGraph)
    ensures Valid(g) && Abs(g) == Empty(n)
  {
    TotalSizeNoEntries(n);
    var g := ListGraph(n, NoEntries(n), seq(n, _ => 1.0), 0);
    assert EdgeMap(g.adj) == map[];
    g
  }

  /** The vertex count fixed at construction. */
  function GetVertexCount(g: ListGraph): (r: nat)
    requires Valid(g)
    ensures r == Abs(g).n && r == |Abs(g).vertexWeights|
  {
    g.numVertices
  }

  function GetEdgeCount(g: ListGraph): (r: int)
    requires Valid(g)
    ensures r == EdgeCount(Abs(g))
  {
    CounterIsEdgeCount(g);
    g.numEdges
  }

  function HasEdge(g: ListGraph, u: int, v: int): (r: Result<bool>)
    requires Valid(g)
    ensures r == GraphSpec.HasEdge(Abs(g), u, v)
  {
    if !InRange(g.numVertices, u) || !InRange(g.numVertices, v) then Err(PairError(g.numVertices, u, v))
    else Ok(v in g.adj[u])
  }

  function AddEdge(g: ListGraph, u: int, v: int): (r: Result<ListGraph>)
    requires Valid(g)
    ensures r.Ok? ==> Valid(r.value)
    ensures Lift(r) == GraphSpec.AddEdge(Abs(g), u, v)
  {
    if !InRange(g.numVertices, u) || !InRange(g.numVertices, v) then Err(PairError(g.numVertices, u, v))
    else if u == v then Err(SelfLoop(u))
    else if HasEdge(g, u, v) == Ok(true) then Ok(g)
    else
      PutStep(g, u, v, 1.0);
      Ok(Put(g, u, v, 1.0, 1))
  }

  function RemoveEdge(g: ListGraph, u: int, v: int): (r: Result<ListGraph>)
    requires Valid(g)
    ensures r.Ok? ==> Valid(r.value)
    ensures Lift(r) == GraphSpec.RemoveEdge(Abs(g), u, v)
  {
    if !InRange(g.numVertices, u) || !InRange(g.numVertices, v) then Err(PairError(g.numVertices, u, v))
    else if HasEdge(g, u, v) == Ok(true) then
      DeleteStep(g, u, v);
      Ok(g.(adj := g.adj[u := g.adj[u] - {v}], numEdges := g.numEdges - 1))
    else Ok(g)
  }

  function IsSuccessor(g: ListGraph, u: int, v: int): (r: Result<bool>)
    requires Valid(g)
    ensures r == GraphSpec.IsSuccessor(Abs(g), u, v)
  {
    HasEdge(g, u, v)
  }

  function IsPredecessor(g: ListGraph, u: int, v: int): (r: Result<bool>)
    requires Valid(g)
    ensures r == GraphSpec.IsPredecessor(Abs(g), u, v)
  {
    HasEdge(g, v, u)
  }

  function IsDivergent(g: ListGraph, u1: int, v1: int, u2: int, v2: int): (r: Result<bool>)
    requires Valid(g)
    ensures r == GraphSpec.IsDivergent(Abs(g), u1, v1, u2, v2)
  {
    match HasEdge(g, u1, v1)
    case Err(e) => Err(e)
    case Ok(first) =>
      if !first then Ok(false)
      else match HasEdge(g, u2, v2)
        case Err(e) => Err(e)
        case Ok(second) => Ok(second && u1 == u2 && v1 != v2)
  }

  function IsConvergent(g: ListGraph, u1: int, v1: int, u2: int, v2: int): (r: Result<bool>)
    requires Valid(g)
    ensures r == GraphSpec.IsConvergent(Abs(g), u1, v1, u2, v2)
  {
    match HasEdge(g, u1, v1)
    case Err(e) => Err(e)
    case Ok(first) =>
      if !first then Ok(false)
      else match HasEdge(g, u2, v2)
        case Err(e) => Err(e)
        case Ok(second) => Ok(second && v1 == v2 && u1 != u2)
  }

  function IsIncident(g: ListGraph, u: int, v: int, x: int): (r: Result<bool>)
    requires Valid(g)
    ensures r == GraphSpec.IsIncident(Abs(g), u, v, x)
  {
    match HasEdge(g, u, v)
    case Err(e) => Err(e)
    case Ok(b) => Ok(b && (x == u || x == v))
  }

  /** Scans every successor map for u. */
  method InDegree(g: ListGraph, u: int) returns (r: Result<nat>)
    requires Valid(g)
    ensures r == GraphSpec.InDegree(Abs(g), u)
  {
    if !InRange(g.numVertices, u) {
      return Err(InvalidVertex(u));
    }
    ghost var preds := InNeighbours(Abs(g), u);
    var degree := 0;
    var i := 0;
    while i < g.numVertices
      invariant 0 <= i <= g.numVertices
      invariant degree == |Below(preds, i)|
    {
      BelowStep(preds, i);
      assert i in preds <==> u in g.adj[i];
      if u in g.adj[i] {
        degree := degree + 1;
      }
      i := i + 1;
    }
    BelowAll(preds, g.numVertices);
    r := Ok(degree);
  }

  /** The size of u's successor map. */
  function OutDegree(g: ListGraph, u: int): (r: Result<nat>)
    requires Valid(g)
    ensures r == GraphSpec.OutDegree(Abs(g), u)
  {
    if !InRange(g.numVertices, u) then Err(InvalidVertex(u))
    else
      RowIsOutNeighbours(g, u);
      Ok(|g.adj[u]|)
  }

  function SetVertexWeight(g: ListGraph, v: int, w: real): (r: Result<ListGraph>)
    requires Valid(g)
    ensures r.Ok? ==> Valid(r.value)
    ensures Lift(r) == GraphSpec.SetVertexWeight(Abs(g), v, w)
  {
    if !InRange(g.numVertices, v) then Err(InvalidVertex(v))
    else Ok(g.(vertexWeights := g.vertexWeights[v := w]))
  }

  function GetVertexWeight(g: ListGraph, v: int): (r: Result<real>)
    requires Valid(g)
    ensures r == GraphSpec.GetVertexWeight(Abs(g), v)
  {
    if !InRange(g.numVertices, v) then Err(InvalidVertex(v))
    else Ok(g.vertexWeights[v])
  }

  function SetEdgeWeight(g: ListGraph, u: int, v: int, w: real): (r: Result<ListGraph>)
    requires Valid(g)
    ensures r.Ok? ==> Valid(r.value)
    ensures Lift(r) == GraphSpec.SetEdgeWeight(Abs(g), u, v, w)
  {
    if !InRange(g.numVertices, u) || !InRange(g.numVertices, v) then Err(PairError(g.numVertices, u, v))
    else if HasEdge(g, u, v) == Ok(true) then
      PutStep(g, u, v, w);
      Ok(Put(g, u, v, w, 0))
    else Ok(g)
  }

  /** The stored weight, or 0.0 for an absent edge (dict.get with a default). */
  function GetEdgeWeight(g: ListGraph, u: int, v: int): (r: Result<real>)
    requires Valid(g)
    ensures r == GraphSpec.GetEdgeWeight(Abs(g), u, v)
  {
    if !InRange(g.numVertices, u) || !InRange(g.numVertices, v) then Err(PairError(g.numVertices, u, v))
    else if v in g.adj[u] then Ok(g.adj[u][v])
    else Ok(0.0)
  }

  function IsEmptyGraph(g: ListGraph): (r: bool)
    requires Valid(g)
    ensures r == GraphSpec.IsEmpty(Abs(g))
  {
    CounterIsEdgeCount(g);
    g.numEdges == 0
  }

  function IsCompleteGraph(g: ListGraph): (r: bool)
    requires Valid(g)
    ensures r == GraphSpec.IsComplete(Abs(g))
  {
    CounterIsEdgeCount(g);
    g.numEdges == g.numVertices * (g.numVertices - 1)
  }

  /** The breadth-first search of isConnected from vertex 0, following edges
      in both directions; returns how many vertices were dequeued. */
  method BfsCount(g: ListGraph) returns (count: nat)
    requires Valid(g) && g.numVertices > 0
    ensures count <= g.numVertices
    ensures count == |ReachableSet(Abs(g))|
  {
    ghost var a := Abs(g);
    var visited: set<int> := {0};
    var queue: seq<int> := [0];
    ghost var done: set<int> := {};
    count := 0;
    BfsStart(a);
    while |queue| > 0
      invariant BfsInvariant(a, visited, queue, done)
      invariant NeighboursSeen(a, done, visited)
      invariant count == |done|
      decreases g.numVertices - |done|
    {
      BfsDequeue(a, visited, queue, done);
      var u := queue[0];
      queue := queue[1..];
      count := count + 1;
      done := done + {u};
      ghost var seen := visited;
      visited, queue := VisitSuccessors(g, u, visited, queue, done);
      visited, queue := VisitPredecessors(g, u, visited, queue, done);
      forall x, y | x in done && InRange(g.numVertices, y) && Adjacent(a, x, y)
        ensures y in visited
      {
        if x != u {
          assert y in seen;
        }
      }
    }
    BfsFinish(Abs(g), visited, done);
  }

  /** The inner loop over u's successor map: every successor not yet visited
      is marked and queued. */
  method VisitSuccessors(g: ListGraph, u: int, visited: set<int>, queue: seq<int>, ghost done: set<int>)
    returns (visited': set<int>, queue': seq<int>)
    requires Valid(g) && InRange(g.numVertices, u) && u in visited
    requires BfsInvariant(Abs(g), visited, queue, done)
    ensures BfsInvariant(Abs(g), visited', queue', done)
    ensures visited <= visited'
    ensures forall y :: y in g.adj[u] ==> y in visited'
  {
    visited', queue' := visited, queue;
    var pending := g.adj[u].Keys;
    while pending != {}
      invariant BfsInvariant(Abs(g), visited', queue', done)
      invariant visited <= visited'
      invariant pending <= g.adj[u].Keys
      invariant forall y :: y in g.adj[u] && y !in pending ==> y in visited'
      decreases pending
    {
      EmptyOrMember(pending);
      var v :| v in pending;
      pending := pending - {v};
      if v !in visited' {
        ReachableStep(Abs(g), u, v);
        BfsEnqueue(Abs(g), visited', queue', done, v);
        visited' := visited' + {v};
        queue' := queue' + [v];
      }
    }
  }

  /** The inner loop over all vertices i: every i with u in its successor map
      and not yet visited is marked and queued. */
  method VisitPredecessors(g: ListGraph, u: int, visited: set<int>, queue: seq<int>, ghost done: set<int>)
    returns (visited': set<int>, queue': seq<int>)
    requires Valid(g) && InRange(g.numVertices, u) && u in visited
    requires BfsInvariant(Abs(g), visited, queue, done)
    ensures BfsInvariant(Abs(g), visited', queue', done)
    ensures visited <= visited'
    ensures forall y :: 0 <= y < g.numVertices && u in g.adj[y] ==> y in visited'
  {
    visited', queue' := visited, queue;
    var i := 0;
    while i < g.numVertices
      invariant 0 <= i <= g.numVertices
      invariant BfsInvariant(Abs(g), visited', queue', done)
      invariant visited <= visited'
      invariant forall y :: 0 <= y < i && u in g.adj[y] ==> y in visited'
    {
      if u in g.adj[i] && i !in visited' {
        ReachableStep(Abs(g), u, i);
        BfsEnqueue(Abs(g), visited', queue', done, i);
        visited' := visited' + {i};
        queue' := queue' + [i];
      }
      i := i + 1;
    }
  }

  method IsConnected(g: ListGraph) returns (r: bool)
    requires Valid(g)
    ensures r == GraphSpec.IsConnected(Abs(g))
  {
    if g.numVertices == 0 {
      return false;
    }
    var count := BfsCount(g);
    ConnectedIffAllReached(Abs(g));
    r := count == g.numVertices;
  }
}

/** The graph contract shared by both backings (the abstract graph of
    graph_lib.py), stated over an abstract state: a fixed vertex count, a map
    from ordered vertex pairs to edge weights, and one weight per vertex.

    Every operation of the contract is defined here once, as the reference
    that the adjacency-list and adjacency-matrix backings are proved to
    refine. */
module GraphSpec {
  import opened Counting

  /** The two ways an operation can fail; both are a ValueError in the source. */
  datatype GraphError =
    | InvalidVertex(vertex: int)  // an index outside 0 .. n-1
    | SelfLoop(vertex: int)       // addEdge(u, u)

  datatype Result<+T> = Ok(value: T) | Err(error: GraphError)

  type Edge = (int, int)

  datatype AbsGraph = AbsGraph(n: nat, edges: map<Edge, real>, vertexWeights: seq<real>)

  predicate InRange(n: nat, v: int)
  {
    0 <= v < n
  }

  /** Edges join two distinct vertices of the graph; one weight per vertex. */
  ghost predicate Valid(g: AbsGraph)
  {
    && |g.vertexWeights| == g.n
    && forall e :: e in g.edges ==> InRange(g.n, e.0) && InRange(g.n, e.1) && e.0 != e.1
  }

  /** The index check that fails first when u is checked before v, if any. */
  function PairError(n: nat, u: int, v: int): GraphError
    requires !InRange(n, u) || !InRange(n, v)
  {
    if !InRange(n, u) then InvalidVertex(u) else InvalidVertex(v)
  }

  /** A graph on n vertices with no edge and every vertex weight 1.0. */
  function Empty(n: nat): (g: AbsGraph)
    ensures Valid(g) && |g.edges| == 0 && |g.vertexWeights| == n
    ensures forall v :: InRange(n, v) ==> g.vertexWeights[v] == 1.0
  {
    AbsGraph(n, map[], seq(n, _ => 1.0))
  }

  function EdgeCount(g: AbsGraph): nat
  {
    |g.edges|
  }

  function HasEdge(g: AbsGraph, u: int, v: int): (r: Result<bool>)
    ensures r.Err? <==> !InRange(g.n, u) || !InRange(g.n, v)
    ensures Valid(g) && r == Ok(true) ==> u != v
  {
    if !InRange(g.n, u) || !InRange(g.n, v) then Err(PairError(g.n, u, v))
    else Ok((u, v) in g.edges)
  }

  /** Adds the edge u -> v with weight 1.0 unless it is already there. */
  function AddEdge(g: AbsGraph, u: int, v: int): (r: Result<AbsGraph>)
    ensures r.Err? <==> !InRange(g.n, u) || !InRange(g.n, v) || u == v
    ensures !InRange(g.n, u) ==> r == Err(InvalidVertex(u))
    ensures InRange(g.n, u) && !InRange(g.n, v) ==> r == Err(InvalidVertex(v))
    ensures r.Err? && InRange(g.n, u) && InRange(g.n, v) ==> r.error == SelfLoop(u)
    ensures r.Ok? ==> HasEdge(r.value, u, v) == Ok(true)
    ensures r.Ok? ==> EdgeCount(r.value) == EdgeCount(g) + (if (u, v) in g.edges then 0 else 1)
    ensures r.Ok? && (u, v) in g.edges ==> r.value == g
    ensures r.Ok? && (u, v) !in g.edges ==> r.value.edges[(u, v)] == 1.0
    ensures r.Ok? ==> r.value.edges - {(u, v)} == g.edges - {(u, v)}
    ensures r.Ok? ==> r.value.n == g.n && r.value.vertexWeights == g.vertexWeights
    ensures r.Ok? && Valid(g) ==> Valid(r.value)
  {
    if !InRange(g.n, u) || !InRange(g.n, v) then Err(PairError(g.n, u, v))
    else if u == v then Err(SelfLoop(u))
    else if (u, v) in g.edges then Ok(g)
    else Ok(g.(edges := g.edges[(u, v) := 1.0]))
  }

  /** Deletes the edge u -> v if it is there. */
  function RemoveEdge(g: AbsGraph, u: int, v: int): (r: Result<AbsGraph>)
    ensures r.Err? <==> !InRange(g.n, u) || !InRange(g.n, v)
    ensures r.Ok? ==> HasEdge(r.value, u, v) == Ok(false)
    ensures r.Ok? ==> EdgeCount(r.value) == EdgeCount(g) - (if (u, v) in g.edges then 1 else 0)
    ensures r.Ok? && (u, v) !in g.edges ==> r.value == g
    ensures r.Ok? ==> r.value.edges - {(u, v)} == g.edges - {(u, v)}
    ensures r.Ok? ==> r.value.n == g.n && r.value.vertexWeights == g.vertexWeights
    ensures r.Ok? && Valid(g) ==> Valid(r.value)
  {
    if !InRange(g.n, u) || !InRange(g.n, v) then Err(PairError(g.n, u, v))
    else if (u, v) in g.edges then Ok(g.(edges := g.edges - {(u, v)}))
    else Ok(g)
  }

  /** v is a successor of u when the edge u -> v exists. */
  function IsSuccessor(g: AbsGraph, u: int, v: int): Result<bool>
  {
    HasEdge(g, u, v)
  }

  /** v is a predecessor of u when the edge v -> u exists. */
  function IsPredecessor(g: AbsGraph, u: int, v: int): Result<bool>
  {
    HasEdge(g, v, u)
  }

  /** The source tests the second edge only when the first exists, so an
      out-of-range second pair is reported only in that case. */
  function IsDivergent(g: AbsGraph, u1: int, v1: int, u2: int, v2: int): (r: Result<bool>)
    ensures r.Err? <==> !InRange(g.n, u1) || !InRange(g.n, v1)
                        || ((u1, v1) in g.edges && (!InRange(g.n, u2) || !InRange(g.n, v2)))
    ensures r.Ok? && r.value <==> ((u1, v1) in g.edges && (u2, v2) in g.edges && u1 == u2 && v1 != v2
                                 && InRange(g.n, u1) && InRange(g.n, v1) && InRange(g.n, u2) && InRange(g.n, v2))
    ensures InRange(g.n, u1) && InRange(g.n, v1) && (u1, v1) !in g.edges ==> r == Ok(false)
  {
    match HasEdge(g, u1, v1)
    case Err(e) => Err(e)
    case Ok(first) =>
      if !first then Ok(false)
      else match HasEdge(g, u2, v2)
        case Err(e) => Err(e)
        case Ok(second) => Ok(second && u1 == u2 && v1 != v2)
  }

  function IsConvergent(g: AbsGraph, u1: int, v1: int, u2: int, v2: int): (r: Result<bool>)
    ensures r.Err? <==> !InRange(g.n, u1) || !InRange(g.n, v1)
                        || ((u1, v1) in g.edges && (!InRange(g.n, u2) || !InRange(g.n, v2)))
    ensures r.Ok? && r.value <==> ((u1, v1) in g.edges && (u2, v2) in g.edges && v1 == v2 && u1 != u2
                                 && InRange(g.n, u1) && InRange(g.n, v1) && InRange(g.n, u2) && InRange(g.n, v2))
    ensures InRange(g.n, u1) && InRange(g.n, v1) && (u1, v1) !in g.edges ==> r == Ok(false)
  {
    match HasEdge(g, u1, v1)
    case Err(e) => Err(e)
    case Ok(first) =>
      if !first then Ok(false)
      else match HasEdge(g, u2, v2)
        case Err(e) => Err(e)
        case Ok(second) => Ok(second && v1 == v2 && u1 != u2)
  }

  /** x is incident to u -> v when the edge exists and x is one of its ends;
      x itself is not range-checked. */
  function IsIncident(g: AbsGraph, u: int, v: int, x: int): (r: Result<bool>)
    ensures r.Err? <==> !InRange(g.n, u) || !InRange(g.n, v)
    ensures r.Ok? ==> (r.value <==> (u, v) in g.edges && (x == u || x == v))
  {
    match HasEdge(g, u, v)
    case Err(e) => Err(e)
    case Ok(b) => Ok(b && (x == u || x == v))
  }

  function InNeighbours(g: AbsGraph, u: int): set<int>
  {
    set i | 0 <= i < g.n && (i, u) in g.edges
  }

  function OutNeighbours(g: AbsGraph, u: int): set<int>
  {
    set j | 0 <= j < g.n && (u, j) in g.edges
  }

  /** The number of edges ending at u. */
  function InDegree(g: AbsGraph, u: int): (r: Result<nat>)
    ensures r.Err? <==> !InRange(g.n, u)
    ensures r.Ok? && Valid(g) ==> r.value <= g.n - 1
  {
    if !InRange(g.n, u) then Err(InvalidVertex(u))
    else
      DegreeBounds(g, u);
      Ok(|InNeighbours(g, u)|)
  }

  /** The number of edges starting at u. */
  function OutDegree(g: AbsGraph, u: int): (r: Result<nat>)
    ensures r.Err? <==> !InRange(g.n, u)
    ensures r.Ok? && Valid(g) ==> r.value <= g.n - 1
  {
    if !InRange(g.n, u) then Err(InvalidVertex(u))
    else
      DegreeBounds(g, u);
      Ok(|OutNeighbours(g, u)|)
  }

  function SetVertexWeight(g: AbsGraph, v: int, w: real): (r: Result<AbsGraph>)
    requires |g.vertexWeights| == g.n
    ensures r.Err? <==> !InRange(g.n, v)
    ensures r.Ok? ==> |r.value.vertexWeights| == r.value.n && GetVertexWeight(r.value, v) == Ok(w)
    ensures r.Ok? && Valid(g) ==> Valid(r.value)
    ensures r.Ok? ==> r.value.edges == g.edges
    ensures r.Ok? ==> |r.value.vertexWeights| == g.n
                      && forall x :: InRange(g.n, x) && x != v ==> r.value.vertexWeights[x] == g.vertexWeights[x]
  {
    if !InRange(g.n, v) then Err(InvalidVertex(v))
    else Ok(g.(vertexWeights := g.vertexWeights[v := w]))
  }

  function GetVertexWeight(g: AbsGraph, v: int): Result<real>
    requires |g.vertexWeights| == g.n
  {
    if !InRange(g.n, v) then Err(InvalidVertex(v))
    else Ok(g.vertexWeights[v])
  }

  /** Changes the weight of an existing edge; has no effect on an absent one. */
  function SetEdgeWeight(g: AbsGraph, u: int, v: int, w: real): (r: Result<AbsGraph>)
    ensures r.Err? <==> !InRange(g.n, u) || !InRange(g.n, v)
    ensures r.Ok? ==> r.value.edges.Keys == g.edges.Keys && EdgeCount(r.value) == EdgeCount(g)
    ensures r.Ok? && (u, v) in g.edges ==> GetEdgeWeight(r.value, u, v) == Ok(w)
    ensures r.Ok? && (u, v) !in g.edges ==> r.value == g
    ensures r.Ok? ==> r.value.edges - {(u, v)} == g.edges - {(u, v)}
    ensures r.Ok? ==> r.value.n == g.n && r.value.vertexWeights == g.vertexWeights
    ensures r.Ok? && Valid(g) ==> Valid(r.value)
  {
    if !InRange(g.n, u) || !InRange(g.n, v) then Err(PairError(g.n, u, v))
    else if (u, v) in g.edges then Ok(g.(edges := g.edges[(u, v) := w]))
    else Ok(g)
  }

  /** The stored weight of u -> v, or 0.0 when there is no such edge. */
  function GetEdgeWeight(g: AbsGraph, u: int, v: int): (r: Result<real>)
    ensures r.Err? <==> !InRange(g.n, u) || !InRange(g.n, v)
    ensures r.Ok? && (u, v) !in g.edges ==> r.value == 0.0
  {
    if !InRange(g.n, u) || !InRange(g.n, v) then Err(PairError(g.n, u, v))
    else if (u, v) in g.edges then Ok(g.edges[(u, v)])
    else Ok(0.0)
  }

  function IsEmpty(g: AbsGraph): bool
  {
    EdgeCount(g) == 0
  }

  function IsComplete(g: AbsGraph): bool
  {
    EdgeCount(g) == g.n * (g.n - 1)
  }

  // ---------------------------------------------------------------------
  // Weak connectivity: reachability from vertex 0 ignoring edge direction.

  ghost predicate Adjacent(g: AbsGraph, x: int, y: int)
  {
    (x, y) in g.edges || (y, x) in g.edges
  }

  /** A non-empty sequence of vertices, each adjacent to the next in either direction. */
  ghost predicate IsWalk(g: AbsGraph, p: seq<int>)
  {
    && |p| > 0
    && (forall i :: 0 <= i < |p| ==> InRange(g.n, p[i]))
    && (forall i :: 0 <= i < |p| - 1 ==> Adjacent(g, p[i], p[i + 1]))
  }

  ghost predicate Reachable(g: AbsGraph, x: int)
  {
    exists p :: IsWalk(g, p) && p[0] == 0 && p[|p| - 1] == x
  }

  ghost function ReachableSet(g: AbsGraph): set<int>
  {
    set x | 0 <= x < g.n && Reachable(g, x)
  }

  /** What isConnected decides: there is a vertex 0 and every vertex is reachable from it. */
  ghost predicate IsConnected(g: AbsGraph)
  {
    g.n > 0 && forall x :: 0 <= x < g.n ==> Reachable(g, x)
  }

  // ---------------------------------------------------------------------
  // Lemmas about the contract.

  /** Degrees are at most n - 1 because self-loops are excluded. */
  lemma DegreeBounds(g: AbsGraph, u: int)
    requires InRange(g.n, u)
    ensures Valid(g) ==> |InNeighbours(g, u)| <= g.n - 1 && |OutNeighbours(g, u)| <= g.n - 1
  {
    if Valid(g) {
      var others := Range(g.n) - {u};
      RangeCard(g.n);
      assert |others| == g.n - 1;
      SubsetCard(InNeighbours(g, u), others);
      SubsetCard(OutNeighbours(g, u), others);
    }
  }

  /** The sum of the out-degrees of vertices 0 .. k-1. */
  function SumOutDegrees(g: AbsGraph, k: nat): nat
  {
    if k == 0 then 0 else SumOutDegrees(g, k - 1) + |OutNeighbours(g, k - 1)|
  }

  function EdgesFrom(g: AbsGraph, k: int): set<Edge>
  {
    set e | e in g.edges.Keys && e.0 < k
  }

  lemma {:induction false} EdgesFromCard(g: AbsGraph, k: nat)
    requires Valid(g)
    ensures |EdgesFrom(g, k)| == SumOutDegrees(g, k)
  {
    if k == 0 {
      assert EdgesFrom(g, 0) == {};
    } else {
      EdgesFromCard(g, k - 1);
      var row := Row(k - 1, OutNeighbours(g, k - 1));
      assert EdgesFrom(g, k) == EdgesFrom(g, k - 1) + row;
      assert EdgesFrom(g, k - 1) !! row;
      RowCard(k - 1, OutNeighbours(g, k - 1));
    }
  }

  /** The number of edges is the sum of the out-degrees. */
  lemma EdgeCountIsSumOfOutDegrees(g: AbsGraph)
    requires Valid(g)
    ensures EdgeCount(g) == SumOutDegrees(g, g.n)
  {
    EdgesFromCard(g, g.n);
    assert EdgesFrom(g, g.n) == g.edges.Keys;
  }

  /** Vertex u has an edge to every other vertex. */
  ghost predicate FullRow(g: AbsGraph, u: int)
  {
    forall v :: InRange(g.n, v) && v != u ==> (u, v) in g.edges
  }

  lemma OutDegreeFull(g: AbsGraph, u: int)
    requires Valid(g) && InRange(g.n, u)
    ensures |OutNeighbours(g, u)| <= g.n - 1
    ensures |OutNeighbours(g, u)| == g.n - 1 <==> FullRow(g, u)
  {
    var others := Range(g.n) - {u};
    RangeCard(g.n);
    assert |others| == g.n - 1;
    SubsetCard(OutNeighbours(g, u), others);
    if |OutNeighbours(g, u)| == g.n - 1 {
      SubsetSameCard(OutNeighbours(g, u), others);
      forall v | InRange(g.n, v) && v != u
        ensures (u, v) in g.edges
      {
        assert v in others;
      }
    }
    if FullRow(g, u) {
      forall x | x in others
        ensures x in OutNeighbours(g, u)
      {
        assert InRange(g.n, x) && x != u;
      }
      assert OutNeighbours(g, u) == others;
    }
  }

  lemma {:induction false} SumOutDegreesFull(g: AbsGraph, k: nat)
    requires Valid(g) && k <= g.n
    ensures SumOutDegrees(g, k) <= k * (g.n - 1)
    ensures SumOutDegrees(g, k) == k * (g.n - 1) <==> forall u :: 0 <= u < k ==> FullRow(g, u)
  {
    if k > 0 {
      SumOutDegreesFull(g, k - 1);
      OutDegreeFull(g, k - 1);
      assert k * (g.n - 1) == (k - 1) * (g.n - 1) + (g.n - 1);
    }
  }

  /** isCompleteGraph: the edge count reaches n * (n - 1) exactly when every
      ordered pair of distinct vertices is joined. */
  lemma CompleteIffAllPairs(g: AbsGraph)
    requires Valid(g)
    ensures IsComplete(g) <==> forall u, v :: InRange(g.n, u) && InRange(g.n, v) && u != v ==> (u, v) in g.edges
  {
    EdgeCountIsSumOfOutDegrees(g);
    SumOutDegreesFull(g, g.n);
    if IsComplete(g) {
      forall u, v | InRange(g.n, u) && InRange(g.n, v) && u != v
        ensures (u, v) in g.edges
      {
        assert FullRow(g, u);
      }
    }
    if forall u, v :: InRange(g.n, u) && InRange(g.n, v) && u != v ==> (u, v) in g.edges {
      assert forall u :: 0 <= u < g.n ==> FullRow(g, u);
    }
  }

  /** isEmptyGraph: no edge at all. */
  lemma EmptyIffNoEdge(g: AbsGraph)
    ensures IsEmpty(g) <==> forall u, v :: (u, v) !in g.edges
  {
    if forall u, v :: (u, v) !in g.edges {
      forall e: Edge
        ensures e !in g.edges.Keys
      {
        assert (e.0, e.1) !in g.edges;
      }
      assert g.edges.Keys == {};
    }
  }

  lemma ReachableStart(g: AbsGraph)
    requires g.n > 0
    ensures Reachable(g, 0)
  {
    assert IsWalk(g, [0]);
  }

  /** Reachability extends across one edge in either direction. */
  lemma ReachableStep(g: AbsGraph, x: int, y: int)
    requires Reachable(g, x) && Adjacent(g, x, y) && InRange(g.n, y)
    ensures Reachable(g, y)
  {
    var p :| IsWalk(g, p) && p[0] == 0 && p[|p| - 1] == x;
    var q := p + [y];
    assert IsWalk(g, q);
  }

  /** A set holding vertex 0 and closed under adjacency holds every reachable vertex. */
  lemma ClosedContainsReachable(g: AbsGraph, s: set<int>)
    requires 0 in s
    requires forall x, y :: x in s && InRange(g.n, y) && Adjacent(g, x, y) ==> y in s
    ensures forall x :: Reachable(g, x) ==> x in s
  {
    forall x | Reachable(g, x)
      ensures x in s
    {
      var p :| IsWalk(g, p) && p[0] == 0 && p[|p| - 1] == x;
      var i := 0;
      while i < |p| - 1
        invariant 0 <= i < |p|
        invariant p[i] in s
      {
        assert Adjacent(g, p[i], p[i + 1]);
        i := i + 1;
      }
    }
  }

  /** Connectivity holds exactly when the reachable set covers all n vertices. */
  lemma ConnectedIffAllReached(g: AbsGraph)
    requires g.n > 0
    ensures IsConnected(g) <==> |ReachableSet(g)| == g.n
  {
    assert ReachableSet(g) <= Range(g.n);
    SubsetOfRange(ReachableSet(g), g.n);
    if |ReachableSet(g)| == g.n {
      forall x | 0 <= x < g.n
        ensures Reachable(g, x)
      {
        assert x in Range(g.n);
      }
    }
  }

  /** The fixed cases: no vertex means not connected, one vertex is connected,
      and one edge in either direction connects two vertices. */
  lemma ConnectedSmallCases(g: AbsGraph)
    ensures g.n == 0 ==> !IsConnected(g)
    ensures g.n == 1 ==> IsConnected(g)
    ensures g.n == 2 && ((0, 1) in g.edges || (1, 0) in g.edges) ==> IsConnected(g)
  {
    if g.n == 1 {
      ReachableStart(g);
    }
    if g.n == 2 && ((0, 1) in g.edges || (1, 0) in g.edges) {
      ReachableStart(g);
      ReachableStep(g, 0, 1);
    }
  }

  // ---------------------------------------------------------------------
  // Bookkeeping of the breadth-first search that both backings run for
  // isConnected: `done` holds the dequeued vertices, `queue` the waiting ones.

  ghost predicate BfsInvariant(g: AbsGraph, visited: set<int>, queue: seq<int>, done: set<int>)
  {
    && 0 in visited
    && visited <= Range(g.n)
    && done <= visited
    && (forall x :: x in visited ==> Reachable(g, x))
    && (forall x :: x in visited ==> x in done || x in queue)
    && (forall i :: 0 <= i < |queue| ==> queue[i] in visited && queue[i] !in done)
    && (forall i, j :: 0 <= i < j < |queue| ==> queue[i] != queue[j])
  }

  /** Every neighbour of a vertex in `from` has been seen. */
  ghost predicate NeighboursSeen(g: AbsGraph, from: set<int>, visited: set<int>)
  {
    forall x, y :: x in from && InRange(g.n, y) && Adjacent(g, x, y) ==> y in visited
  }

  lemma BfsStart(g: AbsGraph)
    requires g.n > 0
    ensures BfsInvariant(g, {0}, [0], {}) && NeighboursSeen(g, {}, {0})
  {
    ReachableStart(g);
  }

  lemma BfsDequeue(g: AbsGraph, visited: set<int>, queue: seq<int>, done: set<int>)
    requires BfsInvariant(g, visited, queue, done) && |queue| > 0
    ensures queue[0] !in done && InRange(g.n, queue[0])
    ensures BfsInvariant(g, visited, queue[1..], done + {queue[0]})
    ensures |done + {queue[0]}| == |done| + 1 <= g.n
  {
    var u := queue[0];
    forall x | x in visited
      ensures x in done + {u} || x in queue[1..]
    {
      if x !in done && x != u {
        var i :| 0 <= i < |queue| && queue[i] == x;
        assert queue[1..][i - 1] == x;
      }
    }
    SubsetOfRange(done + {u}, g.n);
  }

  lemma BfsEnqueue(g: AbsGraph, visited: set<int>, queue: seq<int>, done: set<int>, v: int)
    requires BfsInvariant(g, visited, queue, done)
    requires InRange(g.n, v) && v !in visited && Reachable(g, v)
    ensures BfsInvariant(g, visited + {v}, queue + [v], done)
  {
  }

  /** When the queue runs dry, the finished vertices are exactly the reachable ones. */
  lemma BfsFinish(g: AbsGraph, visited: set<int>, done: set<int>)
    requires BfsInvariant(g, visited, [], done) && NeighboursSeen(g, done, visited)
    ensures done == ReachableSet(g) && |done| <= g.n
  {
    assert visited == done;
    ClosedContainsReachable(g, done);
    SubsetOfRange(done, g.n);
  }
}

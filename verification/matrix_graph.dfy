/** The adjacency-matrix backing (matrix_graph.py): an n-by-n weight matrix in
    which a cell holding exactly 0.0 means "no edge", one weight per vertex,
    and an edge counter.

    The operations are proved to refine the contract of GraphSpec through the
    abstraction Abs, which reads every non-zero cell as a weighted edge. The
    one place the refinement needs a side condition is setEdgeWeight with
    weight 0.0: writing the sentinel deletes the edge without moving the
    counter (ZeroWeightDropsEdge). */
module MatrixBacking {
  import opened Counting
  import opened GraphSpec

  datatype MatrixGraph = MatrixGraph(
    numVertices: nat,
    matrix: seq<seq<real>>,
    vertexWeights: seq<real>,
    numEdges: int)

  /** n rows of n cells with a zero diagonal, and one weight per vertex. */
  ghost predicate Shaped(g: MatrixGraph)
  {
    && |g.matrix| == g.numVertices
    && |g.vertexWeights| == g.numVertices
    && (forall i :: 0 <= i < g.numVertices ==> |g.matrix[i]| == g.numVertices)
    && (forall i :: 0 <= i < g.numVertices ==> g.matrix[i][i] == 0.0)
  }

  /** The columns of the non-zero cells of a row. */
  function NonzeroColumns(row: seq<real>): set<int>
  {
    set j | 0 <= j < |row| && row[j] != 0.0
  }

  /** The number of non-zero cells of rows 0 .. |m|-1. */
  function NonzeroCells(m: seq<seq<real>>): nat
  {
    if |m| == 0 then 0 else NonzeroCells(m[..|m| - 1]) + |NonzeroColumns(m[|m| - 1])|
  }

  /** A well-shaped matrix whose counter equals its number of non-zero cells. */
  ghost predicate Valid(g: MatrixGraph)
  {
    Shaped(g) && g.numEdges == NonzeroCells(g.matrix)
  }

  ghost function EdgeMap(m: seq<seq<real>>): (e: map<Edge, real>)
    ensures forall u, v :: (u, v) in e <==> 0 <= u < |m| && 0 <= v < |m[u]| && m[u][v] != 0.0
    ensures forall u, v :: (u, v) in e ==> e[(u, v)] == m[u][v]
  {
    var pairs := set u, v | 0 <= u < |m| && 0 <= v < |m[u]| && m[u][v] != 0.0 :: (u, v);
    map p | p in pairs :: m[p.0][p.1]
  }

  /** The abstract graph a matrix graph stands for. */
  ghost function Abs(g: MatrixGraph): AbsGraph
  {
    AbsGraph(g.numVertices, EdgeMap(g.matrix), g.vertexWeights)
  }

  ghost function Lift(r: Result<MatrixGraph>): Result<AbsGraph>
  {
    match r
    case Ok(g) => Ok(Abs(g))
    case Err(e) => Err(e)
  }

  lemma AbsValid(g: MatrixGraph)
    requires Shaped(g)
    ensures GraphSpec.Valid(Abs(g))
  {
    forall e | e in Abs(g).edges
      ensures InRange(g.numVertices, e.0) && InRange(g.numVertices, e.1) && e.0 != e.1
    {
      assert (e.0, e.1) in Abs(g).edges;
    }
  }

  // ---------------------------------------------------------------------
  // The edge counter.

  lemma {:induction false} NonzeroCellsUpdate(m: seq<seq<real>>, u: int, row: seq<real>)
    requires 0 <= u < |m|
    ensures NonzeroCells(m[u := row]) == NonzeroCells(m) - |NonzeroColumns(m[u])| + |NonzeroColumns(row)|
    decreases |m|
  {
    var last := |m| - 1;
    assert m[u := row][..last] == if u == last then m[..last] else m[..last][u := row];
    if u < last {
      NonzeroCellsUpdate(m[..last], u, row);
    }
  }

  /** Writing w into column v adds or removes v from the non-zero columns. */
  lemma NonzeroColumnsPut(row: seq<real>, v: int, w: real)
    requires 0 <= v < |row|
    ensures NonzeroColumns(row[v := w]) == if w != 0.0 then NonzeroColumns(row) + {v} else NonzeroColumns(row) - {v}
    ensures |NonzeroColumns(row[v := w])| ==
      |NonzeroColumns(row)| + (if w != 0.0 then 1 else 0) - (if row[v] != 0.0 then 1 else 0)
  {
    assert v in NonzeroColumns(row) <==> row[v] != 0.0;
  }

  /** n rows of n zero cells. */
  function ZeroMatrix(n: nat): (m: seq<seq<real>>)
    ensures |m| == n && forall i :: 0 <= i < n ==> m[i] == seq(n, _ => 0.0)
  {
    seq(n, _ => seq(n, _ => 0.0))
  }

  lemma {:induction false} NonzeroCellsZero(m: seq<seq<real>>)
    requires forall i :: 0 <= i < |m| ==> forall j :: 0 <= j < |m[i]| ==> m[i][j] == 0.0
    ensures NonzeroCells(m) == 0
  {
    if |m| > 0 {
      NonzeroCellsZero(m[..|m| - 1]);
      assert NonzeroColumns(m[|m| - 1]) == {};
    }
  }

  lemma {:induction false} NonzeroCellsIsSumOfOutDegrees(g: MatrixGraph, k: nat)
    requires Shaped(g) && k <= g.numVertices
    ensures NonzeroCells(g.matrix[..k]) == SumOutDegrees(Abs(g), k)
  {
    if k > 0 {
      assert g.matrix[..k][..k - 1] == g.matrix[..k - 1];
      NonzeroCellsIsSumOfOutDegrees(g, k - 1);
      RowIsOutNeighbours(g, k - 1);
    }
  }

  /** The non-zero columns of row u are u's abstract out-neighbours. */
  lemma RowIsOutNeighbours(g: MatrixGraph, u: int)
    requires Shaped(g) && InRange(g.numVertices, u)
    ensures NonzeroColumns(g.matrix[u]) == OutNeighbours(Abs(g), u)
  {
    forall v | v in OutNeighbours(Abs(g), u)
      ensures v in NonzeroColumns(g.matrix[u])
    {
      assert (u, v) in Abs(g).edges;
    }
  }

  /** The counter of a valid matrix graph is the number of abstract edges,
      which is also the sum of the out-degrees. */
  lemma CounterIsEdgeCount(g: MatrixGraph)
    requires Valid(g)
    ensures g.numEdges == EdgeCount(Abs(g)) == SumOutDegrees(Abs(g), g.numVertices)
  {
    NonzeroCellsIsSumOfOutDegrees(g, g.numVertices);
    assert g.matrix[..g.numVertices] == g.matrix;
    AbsValid(g);
    EdgeCountIsSumOfOutDegrees(Abs(g));
  }

  /** CounterIsEdgeCount for a matrix graph that may have lost its counter invariant. */
  lemma CounterWhenValid(g: MatrixGraph)
    requires Shaped(g)
    ensures Valid(g) ==> g.numEdges == EdgeCount(Abs(g))
  {
    if Valid(g) {
      CounterIsEdgeCount(g);
    }
  }

  // ---------------------------------------------------------------------
  // Writing one cell.

  /** The matrix graph after writing w into cell (u, v) and moving the counter by delta. */
  function Put(g: MatrixGraph, u: int, v: int, w: real, delta: int): MatrixGraph
    requires Shaped(g) && InRange(g.numVertices, u) && InRange(g.numVertices, v)
  {
    g.(matrix := g.matrix[u := g.matrix[u][v := w]], numEdges := g.numEdges + delta)
  }

  /** Cell (x, y) after writing w into cell (u, v). */
  lemma CellAfterWrite(m: seq<seq<real>>, u: int, v: int, w: real, x: int, y: int)
    requires 0 <= u < |m| && 0 <= v < |m[u]| && 0 <= x < |m| && 0 <= y < |m[x]|
    ensures |m[u := m[u][v := w]][x]| == |m[x]|
    ensures m[u := m[u][v := w]][x][y] == if (x, y) == (u, v) then w else m[x][y]
  {
  }

  /** A non-zero write stores the edge under its new weight. */
  lemma PutStore(g: MatrixGraph, u: int, v: int, w: real, delta: int)
    requires Shaped(g) && InRange(g.numVertices, u) && InRange(g.numVertices, v) && u != v && w != 0.0
    ensures Abs(Put(g, u, v, w, delta)).edges == Abs(g).edges[(u, v) := w]
  {
    var m := g.matrix[u := g.matrix[u][v := w]];
    assert Put(g, u, v, w, delta).matrix == m;
    var before, after := EdgeMap(g.matrix), EdgeMap(m);
    forall e | e in after
      ensures e in before[(u, v) := w] && after[e] == before[(u, v) := w][e]
    {
      assert (e.0, e.1) in after;
      CellAfterWrite(g.matrix, u, v, w, e.0, e.1);
    }
    forall e | e in before[(u, v) := w]
      ensures e in after
    {
      if e != (u, v) {
        assert (e.0, e.1) in before;
        CellAfterWrite(g.matrix, u, v, w, e.0, e.1);
      }
    }
  }

  /** A zero write deletes the edge. */
  lemma PutErase(g: MatrixGraph, u: int, v: int, delta: int)
    requires Shaped(g) && InRange(g.numVertices, u) && InRange(g.numVertices, v) && u != v
    ensures Abs(Put(g, u, v, 0.0, delta)).edges == Abs(g).edges - {(u, v)}
  {
    var m := g.matrix[u := g.matrix[u][v := 0.0]];
    assert Put(g, u, v, 0.0, delta).matrix == m;
    var before, after := EdgeMap(g.matrix), EdgeMap(m);
    forall e | e in after
      ensures e in before - {(u, v)} && after[e] == before[e]
    {
      assert (e.0, e.1) in after;
      CellAfterWrite(g.matrix, u, v, 0.0, e.0, e.1);
    }
    forall e | e in before - {(u, v)}
      ensures e in after
    {
      assert (e.0, e.1) in before;
      CellAfterWrite(g.matrix, u, v, 0.0, e.0, e.1);
    }
  }

  /** A non-zero write stores the edge, a zero write deletes it. */
  lemma PutAbs(g: MatrixGraph, u: int, v: int, w: real, delta: int)
    requires Shaped(g) && InRange(g.numVertices, u) && InRange(g.numVertices, v) && u != v
    ensures Shaped(Put(g, u, v, w, delta))
    ensures Abs(Put(g, u, v, w, delta)) == Abs(g).(edges :=
      if w != 0.0 then Abs(g).edges[(u, v) := w] else Abs(g).edges - {(u, v)})
  {
    PutShaped(g, u, v, w, delta);
    if w != 0.0 {
      PutStore(g, u, v, w, delta);
    } else {
      PutErase(g, u, v, delta);
    }
  }

  /** The counter stays exact exactly when delta is the change in non-zero cells. */
  lemma PutCounter(g: MatrixGraph, u: int, v: int, w: real, delta: int)
    requires Valid(g) && InRange(g.numVertices, u) && InRange(g.numVertices, v) && u != v
    ensures Valid(Put(g, u, v, w, delta)) <==>
      delta == (if w != 0.0 then 1 else 0) - (if g.matrix[u][v] != 0.0 then 1 else 0)
  {
    PutShaped(g, u, v, w, delta);
    NonzeroColumnsPut(g.matrix[u], v, w);
    NonzeroCellsUpdate(g.matrix, u, g.matrix[u][v := w]);
  }

  lemma PutShaped(g: MatrixGraph, u: int, v: int, w: real, delta: int)
    requires Shaped(g) && InRange(g.numVertices, u) && InRange(g.numVertices, v) && u != v
    ensures Shaped(Put(g, u, v, w, delta))
  {
  }

  lemma PutStep(g: MatrixGraph, u: int, v: int, w: real, delta: int)
    requires Shaped(g) && InRange(g.numVertices, u) && InRange(g.numVertices, v) && u != v
    ensures Shaped(Put(g, u, v, w, delta))
    ensures Abs(Put(g, u, v, w, delta)) == Abs(g).(edges :=
      if w != 0.0 then Abs(g).edges[(u, v) := w] else Abs(g).edges - {(u, v)})
    ensures Valid(g) ==>
      (Valid(Put(g, u, v, w, delta)) <==>
        delta == (if w != 0.0 then 1 else 0) - (if g.matrix[u][v] != 0.0 then 1 else 0))
  {
    PutAbs(g, u, v, w, delta);
    if Valid(g) {
      PutCounter(g, u, v, w, delta);
    }
  }

  /** Two vertices are adjacent when the cell in either direction is non-zero. */
  lemma AdjacentCells(g: MatrixGraph, u: int, y: int)
    requires Shaped(g) && InRange(g.numVertices, u) && InRange(g.numVertices, y)
    ensures Adjacent(Abs(g), u, y) <==> g.matrix[u][y] != 0.0 || g.matrix[y][u] != 0.0
  {
  }

  // ---------------------------------------------------------------------
  // Operations.

  /** A graph on n vertices, all cells 0.0, every vertex weight 1.0. */
  function New(n: nat): (g: MatrixGraph)
    ensures Valid(g) && Abs(g) == Empty(n)
  {
    var g := MatrixGraph(n, ZeroMatrix(n), seq(n, _ => 1.0), 0);
    NonzeroCellsZero(g.matrix);
    assert EdgeMap(g.matrix) == map[];
    g
  }

  /** The vertex count fixed at construction. */
  function GetVertexCount(g: MatrixGraph): (r: nat)
    requires Shaped(g)
    ensures r == Abs(g).n && r == |Abs(g).vertexWeights|
  {
    g.numVertices
  }

  /** The stored counter, which is the number of edges while the counter invariant holds. */
  function GetEdgeCount(g: MatrixGraph): (r: int)
    requires Shaped(g)
    ensures Valid(g) ==> r == EdgeCount(Abs(g))
  {
    CounterWhenValid(g);
    g.numEdges
  }

  function HasEdge(g: MatrixGraph, u: int, v: int): (r: Result<bool>)
    requires Shaped(g)
    ensures r == GraphSpec.HasEdge(Abs(g), u, v)
  {
    if !InRange(g.numVertices, u) || !InRange(g.numVertices, v) then Err(PairError(g.numVertices, u, v))
    else Ok(g.matrix[u][v] != 0.0)
  }

  function AddEdge(g: MatrixGraph, u: int, v: int): (r: Result<MatrixGraph>)
    requires Shaped(g)
    ensures r.Ok? ==> Shaped(r.value) && (Valid(g) ==> Valid(r.value))
    ensures r.Ok? ==> r.value.numEdges == g.numEdges + (if (u, v) in Abs(g).edges then 0 else 1)
    ensures Lift(r) == GraphSpec.AddEdge(Abs(g), u, v)
  {
    if !InRange(g.numVertices, u) || !InRange(g.numVertices, v) then Err(PairError(g.numVertices, u, v))
    else if u == v then Err(SelfLoop(u))
    else if HasEdge(g, u, v) == Ok(true) then Ok(g)
    else
      PutStep(g, u, v, 1.0, 1);
      Ok(Put(g, u, v, 1.0, 1))
  }

  function RemoveEdge(g: MatrixGraph, u: int, v: int): (r: Result<MatrixGraph>)
    requires Shaped(g)
    ensures r.Ok? ==> Shaped(r.value) && (Valid(g) ==> Valid(r.value))
    ensures r.Ok? ==> r.value.numEdges == g.numEdges - (if (u, v) in Abs(g).edges then 1 else 0)
    ensures Lift(r) == GraphSpec.RemoveEdge(Abs(g), u, v)
  {
    if !InRange(g.numVertices, u) || !InRange(g.numVertices, v) then Err(PairError(g.numVertices, u, v))
    else if HasEdge(g, u, v) == Ok(true) then
      PutStep(g, u, v, 0.0, -1);
      Ok(Put(g, u, v, 0.0, -1))
    else Ok(g)
  }

  function IsSuccessor(g: MatrixGraph, u: int, v: int): (r: Result<bool>)
    requires Shaped(g)
    ensures r == GraphSpec.IsSuccessor(Abs(g), u, v)
  {
    HasEdge(g, u, v)
  }

  function IsPredecessor(g: MatrixGraph, u: int, v: int): (r: Result<bool>)
    requires Shaped(g)
    ensures r == GraphSpec.IsPredecessor(Abs(g), u, v)
  {
    HasEdge(g, v, u)
  }

  function IsDivergent(g: MatrixGraph, u1: int, v1: int, u2: int, v2: int): (r: Result<bool>)
    requires Shaped(g)
    ensures r == GraphSpec.IsDivergent(Abs(g), u1, v1, u2, v2)
  {
    match HasEdge(g, u1, v1)
    case Err(e) => Err(e)
    case Ok(first) =>
      if !first then Ok(false)
      else match HasEdge(g, u2, v2)
        case Err(e) => Err(e)
        case Ok(second) => Ok(second && u1 == u2 && v1 != v2)
  }

  function IsConvergent(g: MatrixGraph, u1: int, v1: int, u2: int, v2: int): (r: Result<bool>)
    requires Shaped(g)
    ensures r == GraphSpec.IsConvergent(Abs(g), u1, v1, u2, v2)
  {
    match HasEdge(g, u1, v1)
    case Err(e) => Err(e)
    case Ok(first) =>
      if !first then Ok(false)
      else match HasEdge(g, u2, v2)
        case Err(e) => Err(e)
        case Ok(second) => Ok(second && v1 == v2 && u1 != u2)
  }

  function IsIncident(g: MatrixGraph, u: int, v: int, x: int): (r: Result<bool>)
    requires Shaped(g)
    ensures r == GraphSpec.IsIncident(Abs(g), u, v, x)
  {
    match HasEdge(g, u, v)
    case Err(e) => Err(e)
    case Ok(b) => Ok(b && (x == u || x == v))
  }

  /** Counts the non-zero cells of column u. */
  method InDegree(g: MatrixGraph, u: int) returns (r: Result<nat>)
    requires Shaped(g)
    ensures r == GraphSpec.InDegree(Abs(g), u)
  {
    if !InRange(g.numVertices, u) {
      return Err(InvalidVertex(u));
    }
    ghost var preds := InNeighbours(Abs(g), u);
    var degree := 0;
    var i := 0;
    while i < g.numVertices
      invariant 0 <= i <= g.numVertices
      invariant degree == |Below(preds, i)|
    {
      BelowStep(preds, i);
      assert i in preds <==> g.matrix[i][u] != 0.0;
      if g.matrix[i][u] != 0.0 {
        degree := degree + 1;
      }
      i := i + 1;
    }
    BelowAll(preds, g.numVertices);
    r := Ok(degree);
  }

  /** Counts the non-zero cells of row u. */
  method OutDegree(g: MatrixGraph, u: int) returns (r: Result<nat>)
    requires Shaped(g)
    ensures r == GraphSpec.OutDegree(Abs(g), u)
  {
    if !InRange(g.numVertices, u) {
      return Err(InvalidVertex(u));
    }
    ghost var succs := OutNeighbours(Abs(g), u);
    var degree := 0;
    var j := 0;
    while j < g.numVertices
      invariant 0 <= j <= g.numVertices
      invariant degree == |Below(succs, j)|
    {
      BelowStep(succs, j);
      assert j in succs <==> g.matrix[u][j] != 0.0;
      if g.matrix[u][j] != 0.0 {
        degree := degree + 1;
      }
      j := j + 1;
    }
    BelowAll(succs, g.numVertices);
    r := Ok(degree);
  }

  function SetVertexWeight(g: MatrixGraph, v: int, w: real): (r: Result<MatrixGraph>)
    requires Shaped(g)
    ensures r.Ok? ==> Shaped(r.value) && (Valid(g) ==> Valid(r.value))
    ensures r.Ok? ==> r.value.numEdges == g.numEdges
    ensures Lift(r) == GraphSpec.SetVertexWeight(Abs(g), v, w)
  {
    if !InRange(g.numVertices, v) then Err(InvalidVertex(v))
    else Ok(g.(vertexWeights := g.vertexWeights[v := w]))
  }

  function GetVertexWeight(g: MatrixGraph, v: int): (r: Result<real>)
    requires Shaped(g)
    ensures r == GraphSpec.GetVertexWeight(Abs(g), v)
  {
    if !InRange(g.numVertices, v) then Err(InvalidVertex(v))
    else Ok(g.vertexWeights[v])
  }

  /** Overwrites the cell of an existing edge. A weight of 0.0 is the absence
      sentinel, so it deletes the edge while the counter stays put. */
  function SetEdgeWeight(g: MatrixGraph, u: int, v: int, w: real): (r: Result<MatrixGraph>)
    requires Shaped(g)
    ensures r.Ok? ==> Shaped(r.value)
    ensures r.Ok? ==> r.value.numEdges == g.numEdges
    ensures w != 0.0 ==> Lift(r) == GraphSpec.SetEdgeWeight(Abs(g), u, v, w)
    ensures w != 0.0 && r.Ok? && Valid(g) ==> Valid(r.value)
    ensures w == 0.0 ==> Lift(r) == GraphSpec.RemoveEdge(Abs(g), u, v)
  {
    if !InRange(g.numVertices, u) || !InRange(g.numVertices, v) then Err(PairError(g.numVertices, u, v))
    else if HasEdge(g, u, v) == Ok(true) then
      PutStep(g, u, v, w, 0);
      Ok(Put(g, u, v, w, 0))
    else Ok(g)
  }

  /** The cell itself: 0.0 exactly when the edge is absent. */
  function GetEdgeWeight(g: MatrixGraph, u: int, v: int): (r: Result<real>)
    requires Shaped(g)
    ensures r == GraphSpec.GetEdgeWeight(Abs(g), u, v)
  {
    if !InRange(g.numVertices, u) || !InRange(g.numVertices, v) then Err(PairError(g.numVertices, u, v))
    else Ok(g.matrix[u][v])
  }

  /** Tests the stored counter; it agrees with the edges while the counter invariant holds. */
  function IsEmptyGraph(g: MatrixGraph): (r: bool)
    requires Shaped(g)
    ensures r <==> GetEdgeCount(g) == 0
    ensures Valid(g) ==> r == GraphSpec.IsEmpty(Abs(g))
  {
    CounterWhenValid(g);
    g.numEdges == 0
  }

  /** Tests the stored counter; it agrees with the edges while the counter invariant holds. */
  function IsCompleteGraph(g: MatrixGraph): (r: bool)
    requires Shaped(g)
    ensures r <==> GetEdgeCount(g) == g.numVertices * (g.numVertices - 1)
    ensures Valid(g) ==> r == GraphSpec.IsComplete(Abs(g))
  {
    CounterWhenValid(g);
    g.numEdges == g.numVertices * (g.numVertices - 1)
  }

  /** The breadth-first search of isConnected from vertex 0; a cell in either
      direction joins two vertices. Returns how many vertices were dequeued. */
  method BfsCount(g: MatrixGraph) returns (count: nat)
    requires Shaped(g) && g.numVertices > 0
    ensures count <= g.numVertices
    ensures count == |ReachableSet(Abs(g))|
  {
    ghost var a := Abs(g);
    var visited: set<int> := {0};
    var queue: seq<int> := [0];
    ghost var done: set<int> := {};
    count := 0;
    BfsStart(a);
    while |queue| > 0
      invariant BfsInvariant(a, visited, queue, done)
      invariant NeighboursSeen(a, done, visited)
      invariant count == |done|
      decreases g.numVertices - |done|
    {
      BfsDequeue(a, visited, queue, done);
      var u := queue[0];
      queue := queue[1..];
      count := count + 1;
      done := done + {u};
      ghost var seen := visited;
      visited, queue := VisitNeighbours(g, u, visited, queue, done);
      forall x, y | x in done && InRange(g.numVertices, y) && Adjacent(a, x, y)
        ensures y in visited
      {
        if x != u {
          assert y in seen;
        }
      }
    }
    BfsFinish(a, visited, done);
  }

  /** The inner loop over all vertices v: every v joined to u by a non-zero
      cell in either direction and not yet visited is marked and queued. */
  method VisitNeighbours(g: MatrixGraph, u: int, visited: set<int>, queue: seq<int>, ghost done: set<int>)
    returns (visited': set<int>, queue': seq<int>)
    requires Shaped(g) && InRange(g.numVertices, u) && u in visited
    requires BfsInvariant(Abs(g), visited, queue, done)
    ensures BfsInvariant(Abs(g), visited', queue', done)
    ensures visited <= visited'
    ensures forall y :: InRange(g.numVertices, y) && Adjacent(Abs(g), u, y) ==> y in visited'
  {
    visited', queue' := visited, queue;
    var v := 0;
    while v < g.numVertices
      invariant 0 <= v <= g.numVertices
      invariant BfsInvariant(Abs(g), visited', queue', done)
      invariant visited <= visited'
      invariant forall y :: 0 <= y < v && Adjacent(Abs(g), u, y) ==> y in visited'
    {
      AdjacentCells(g, u, v);
      if g.matrix[u][v] != 0.0 || g.matrix[v][u] != 0.0 {
        if v !in visited' {
          ReachableStep(Abs(g), u, v);
          BfsEnqueue(Abs(g), visited', queue', done, v);
          visited' := visited' + {v};
          queue' := queue' + [v];
        }
      }
      v := v + 1;
    }
  }

  method IsConnected(g: MatrixGraph) returns (r: bool)
    requires Shaped(g)
    ensures r == GraphSpec.IsConnected(Abs(g))
  {
    if g.numVertices == 0 {
      return false;
    }
    var count := BfsCount(g);
    ConnectedIffAllReached(Abs(g));
    r := count == g.numVertices;
  }

  // ---------------------------------------------------------------------
  // The 0.0 sentinel.

  /** setEdgeWeight(u, v, 0.0) on an existing edge deletes it from the matrix
      but leaves the counter one above the number of non-zero cells. */
  lemma ZeroWeightDropsEdge(g: MatrixGraph, u: int, v: int)
    requires Valid(g) && HasEdge(g, u, v) == Ok(true)
    ensures SetEdgeWeight(g, u, v, 0.0).Ok?
    ensures HasEdge(SetEdgeWeight(g, u, v, 0.0).value, u, v) == Ok(false)
    ensures SetEdgeWeight(g, u, v, 0.0).value.numEdges == NonzeroCells(SetEdgeWeight(g, u, v, 0.0).value.matrix) + 1
    ensures !Valid(SetEdgeWeight(g, u, v, 0.0).value)
  {
    PutStep(g, u, v, 0.0, 0);
    PutStep(g, u, v, 0.0, -1);
  }
}

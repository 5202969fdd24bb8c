/** Cross-backing equivalence: the same sequence of edits, applied to a fresh
    adjacency-list graph and a fresh adjacency-matrix graph, fails at the same
    edit with the same error or leaves both standing for the same abstract
    graph, so that every query of the contract answers alike. The one
    condition is that no edit writes an edge weight of 0.0, which the matrix
    reads as "no edge" (ZeroWeightDiverges). */
module Equivalence {
  import opened GraphSpec
  import ListBacking
  import MatrixBacking

  /** The mutators of the contract; the vertex count is fixed at construction. */
  datatype Edit =
    | AddEdgeEdit(u: int, v: int)
    | RemoveEdgeEdit(u: int, v: int)
    | SetEdgeWeightEdit(u: int, v: int, w: real)
    | SetVertexWeightEdit(v: int, w: real)

  /** No edit writes the matrix's absence sentinel as an edge weight. */
  predicate NonzeroWeights(edits: seq<Edit>)
  {
    forall i :: 0 <= i < |edits| && edits[i].SetEdgeWeightEdit? ==> edits[i].w != 0.0
  }

  function ApplySpec(g: AbsGraph, e: Edit): (r: Result<AbsGraph>)
    requires |g.vertexWeights| == g.n
    ensures r.Ok? ==> r.value.n == g.n && |r.value.vertexWeights| == g.n
    ensures r.Ok? && Valid(g) ==> Valid(r.value)
  {
    match e
    case AddEdgeEdit(u, v) => AddEdge(g, u, v)
    case RemoveEdgeEdit(u, v) => RemoveEdge(g, u, v)
    case SetEdgeWeightEdit(u, v, w) => SetEdgeWeight(g, u, v, w)
    case SetVertexWeightEdit(v, w) => SetVertexWeight(g, v, w)
  }

  /** Applies the edits in order; the first failing edit ends the run with its error. */
  function RunSpec(g: AbsGraph, edits: seq<Edit>): (r: Result<AbsGraph>)
    requires |g.vertexWeights| == g.n
    ensures r.Ok? ==> r.value.n == g.n && |r.value.vertexWeights| == g.n
    ensures r.Ok? && Valid(g) ==> Valid(r.value)
    decreases |edits|
  {
    if |edits| == 0 then Ok(g)
    else match ApplySpec(g, edits[0])
      case Err(e) => Err(e)
      case Ok(g') => RunSpec(g', edits[1..])
  }

  function ApplyList(g: ListBacking.ListGraph, e: Edit): (r: Result<ListBacking.ListGraph>)
    requires ListBacking.Valid(g)
    ensures r.Ok? ==> ListBacking.Valid(r.value)
    ensures ListBacking.Lift(r) == ApplySpec(ListBacking.Abs(g), e)
  {
    match e
    case AddEdgeEdit(u, v) => ListBacking.AddEdge(g, u, v)
    case RemoveEdgeEdit(u, v) => ListBacking.RemoveEdge(g, u, v)
    case SetEdgeWeightEdit(u, v, w) => ListBacking.SetEdgeWeight(g, u, v, w)
    case SetVertexWeightEdit(v, w) => ListBacking.SetVertexWeight(g, v, w)
  }

  function RunList(g: ListBacking.ListGraph, edits: seq<Edit>): (r: Result<ListBacking.ListGraph>)
    requires ListBacking.Valid(g)
    ensures r.Ok? ==> ListBacking.Valid(r.value)
    decreases |edits|
  {
    if |edits| == 0 then Ok(g)
    else match ApplyList(g, edits[0])
      case Err(e) => Err(e)
      case Ok(g') => RunList(g', edits[1..])
  }

  function ApplyMatrix(g: MatrixBacking.MatrixGraph, e: Edit): (r: Result<MatrixBacking.MatrixGraph>)
    requires MatrixBacking.Shaped(g)
    ensures r.Ok? ==> MatrixBacking.Shaped(r.value)
    ensures !(e.SetEdgeWeightEdit? && e.w == 0.0) ==>
      MatrixBacking.Lift(r) == ApplySpec(MatrixBacking.Abs(g), e)
      && (r.Ok? && MatrixBacking.Valid(g) ==> MatrixBacking.Valid(r.value))
  {
    MatrixBacking.AbsValid(g);
    match e
    case AddEdgeEdit(u, v) => MatrixBacking.AddEdge(g, u, v)
    case RemoveEdgeEdit(u, v) => MatrixBacking.RemoveEdge(g, u, v)
    case SetEdgeWeightEdit(u, v, w) => MatrixBacking.SetEdgeWeight(g, u, v, w)
    case SetVertexWeightEdit(v, w) => MatrixBacking.SetVertexWeight(g, v, w)
  }

  function RunMatrix(g: MatrixBacking.MatrixGraph, edits: seq<Edit>): (r: Result<MatrixBacking.MatrixGraph>)
    requires MatrixBacking.Shaped(g)
    ensures r.Ok? ==> MatrixBacking.Shaped(r.value)
    decreases |edits|
  {
    if |edits| == 0 then Ok(g)
    else match ApplyMatrix(g, edits[0])
      case Err(e) => Err(e)
      case Ok(g') => RunMatrix(g', edits[1..])
  }

  /** The list backing refines the contract on every edit sequence. */
  lemma {:induction false} ListRunRefines(g: ListBacking.ListGraph, edits: seq<Edit>)
    requires ListBacking.Valid(g)
    ensures ListBacking.Lift(RunList(g, edits)) == RunSpec(ListBacking.Abs(g), edits)
    decreases |edits|
  {
    if |edits| > 0 {
      match ApplyList(g, edits[0])
      case Err(e) =>
      case Ok(g') => ListRunRefines(g', edits[1..]);
    }
  }

  /** The matrix backing refines the contract, counter invariant included, on
      every edit sequence that never writes the weight 0.0. */
  lemma {:induction false} MatrixRunRefines(g: MatrixBacking.MatrixGraph, edits: seq<Edit>)
    requires MatrixBacking.Valid(g) && NonzeroWeights(edits)
    ensures MatrixBacking.Lift(RunMatrix(g, edits)) == RunSpec(MatrixBacking.Abs(g), edits)
    ensures RunMatrix(g, edits).Ok? ==> MatrixBacking.Valid(RunMatrix(g, edits).value)
    decreases |edits|
  {
    if |edits| > 0 {
      assert !(edits[0].SetEdgeWeightEdit? && edits[0].w == 0.0);
      assert NonzeroWeights(edits[1..]) by {
        forall i | 0 <= i < |edits[1..]| && edits[1..][i].SetEdgeWeightEdit?
          ensures edits[1..][i].w != 0.0
        {
          assert edits[1..][i] == edits[i + 1];
        }
      }
      match ApplyMatrix(g, edits[0])
      case Err(e) =>
      case Ok(g') => MatrixRunRefines(g', edits[1..]);
    }
  }

  /** Starting from n vertices and replaying the same edits, both backings fail
      alike or end in graphs that stand for the same abstract graph and agree
      on edges, edge and vertex weights, the edge count, emptiness and
      completeness. The degree scans and the search of isConnected are
      specified over the abstract graph, so they agree too (QueriesAgree). */
  lemma BackingsAgree(n: nat, edits: seq<Edit>)
    requires NonzeroWeights(edits)
    ensures var l, m := RunList(ListBacking.New(n), edits), RunMatrix(MatrixBacking.New(n), edits);
      && (l.Err? <==> m.Err?)
      && (l.Err? ==> l.error == m.error)
      && (l.Ok? ==>
        && GraphSpec.Valid(ListBacking.Abs(l.value))
        && MatrixBacking.Valid(m.value)
        && ListBacking.Abs(l.value) == MatrixBacking.Abs(m.value)
        && ListBacking.GetEdgeCount(l.value) == MatrixBacking.GetEdgeCount(m.value)
        && ListBacking.IsEmptyGraph(l.value) == MatrixBacking.IsEmptyGraph(m.value)
        && ListBacking.IsCompleteGraph(l.value) == MatrixBacking.IsCompleteGraph(m.value)
        && (forall u, v :: ListBacking.HasEdge(l.value, u, v) == MatrixBacking.HasEdge(m.value, u, v))
        && (forall u, v :: ListBacking.GetEdgeWeight(l.value, u, v) == MatrixBacking.GetEdgeWeight(m.value, u, v))
        && (forall v :: ListBacking.GetVertexWeight(l.value, v) == MatrixBacking.GetVertexWeight(m.value, v)))
  {
    var l0, m0 := ListBacking.New(n), MatrixBacking.New(n);
    ListRunRefines(l0, edits);
    MatrixRunRefines(m0, edits);
    var l := RunList(l0, edits);
    if l.Ok? {
      ListBacking.AbsValid(l.value);
    }
  }

  /** The answers of every query of the contract: the pair queries at (u, v),
      the vertex queries at u, the second pair (u2, v2) of the divergence and
      convergence tests and the third vertex x of the incidence test. */
  datatype Answers = Answers(
    vertexCount: int,
    edgeCount: int,
    hasEdge: Result<bool>,
    successor: Result<bool>,
    predecessor: Result<bool>,
    divergent: Result<bool>,
    convergent: Result<bool>,
    incident: Result<bool>,
    vertexWeight: Result<real>,
    edgeWeight: Result<real>,
    inDegree: Result<nat>,
    outDegree: Result<nat>,
    connected: bool,
    empty: bool,
    complete: bool)

  /** Two graphs that stand for the same abstract graph give the same answers
      to every query, including the degree scans and the breadth-first search. */
  method QueriesAgree(l: ListBacking.ListGraph, m: MatrixBacking.MatrixGraph,
                      u: int, v: int, u2: int, v2: int, x: int)
    returns (fromList: Answers, fromMatrix: Answers)
    requires ListBacking.Valid(l) && MatrixBacking.Valid(m)
    requires ListBacking.Abs(l) == MatrixBacking.Abs(m)
    ensures fromList == fromMatrix
    ensures fromList.hasEdge == HasEdge(ListBacking.Abs(l), u, v)
    ensures fromList.divergent == IsDivergent(ListBacking.Abs(l), u, v, u2, v2)
    ensures fromList.convergent == IsConvergent(ListBacking.Abs(l), u, v, u2, v2)
    ensures fromList.incident == IsIncident(ListBacking.Abs(l), u, v, x)
    ensures fromList.inDegree == InDegree(ListBacking.Abs(l), u)
    ensures fromList.connected == IsConnected(ListBacking.Abs(l))
  {
    var inL := ListBacking.InDegree(l, u);
    var conL := ListBacking.IsConnected(l);
    fromList := Answers(ListBacking.GetVertexCount(l), ListBacking.GetEdgeCount(l),
      ListBacking.HasEdge(l, u, v), ListBacking.IsSuccessor(l, u, v), ListBacking.IsPredecessor(l, u, v),
      ListBacking.IsDivergent(l, u, v, u2, v2), ListBacking.IsConvergent(l, u, v, u2, v2),
      ListBacking.IsIncident(l, u, v, x), ListBacking.GetVertexWeight(l, u),
      ListBacking.GetEdgeWeight(l, u, v), inL, ListBacking.OutDegree(l, u), conL,
      ListBacking.IsEmptyGraph(l), ListBacking.IsCompleteGraph(l));
    var inM := MatrixBacking.InDegree(m, u);
    var outM := MatrixBacking.OutDegree(m, u);
    var conM := MatrixBacking.IsConnected(m);
    fromMatrix := Answers(MatrixBacking.GetVertexCount(m), MatrixBacking.GetEdgeCount(m),
      MatrixBacking.HasEdge(m, u, v), MatrixBacking.IsSuccessor(m, u, v), MatrixBacking.IsPredecessor(m, u, v),
      MatrixBacking.IsDivergent(m, u, v, u2, v2), MatrixBacking.IsConvergent(m, u, v, u2, v2),
      MatrixBacking.IsIncident(m, u, v, x), MatrixBacking.GetVertexWeight(m, u),
      MatrixBacking.GetEdgeWeight(m, u, v), inM, outM, conM,
      MatrixBacking.IsEmptyGraph(m), MatrixBacking.IsCompleteGraph(m));
  }

  /** The edits that tell the backings apart: add 0 -> 1, then set its weight to 0.0. */
  function ZeroWeightEdits(): seq<Edit>
  {
    [AddEdgeEdit(0, 1), SetEdgeWeightEdit(0, 1, 0.0)]
  }

  /** On the abstract graph the two edits leave the edge 0 -> 1 in place with weight 0.0. */
  lemma ZeroWeightSpec()
    ensures RunSpec(Empty(2), ZeroWeightEdits()) == Ok(AbsGraph(2, map[(0, 1) := 0.0], [1.0, 1.0]))
  {
    var edits := ZeroWeightEdits();
    var a0 := AbsGraph(2, map[], [1.0, 1.0]);
    assert Empty(2) == a0;
    var a1 := AbsGraph(2, map[(0, 1) := 1.0], [1.0, 1.0]);
    assert AddEdge(a0, 0, 1) == Ok(a1);
    assert RunSpec(a0, edits) == RunSpec(a1, edits[1..]);
    var a2 := AbsGraph(2, map[(0, 1) := 0.0], [1.0, 1.0]);
    assert a1.edges[(0, 1) := 0.0] == a2.edges;
    assert SetEdgeWeight(a1, 0, 1, 0.0) == Ok(a2);
    assert RunSpec(a1, edits[1..]) == RunSpec(a2, []);
  }

  lemma ZeroWeightList()
    ensures var l := RunList(ListBacking.New(2), ZeroWeightEdits());
      && l.Ok?
      && ListBacking.HasEdge(l.value, 0, 1) == Ok(true)
      && ListBacking.GetEdgeWeight(l.value, 0, 1) == Ok(0.0)
      && ListBacking.GetEdgeCount(l.value) == 1
  {
    var l0 := ListBacking.New(2);
    ListRunRefines(l0, ZeroWeightEdits());
    ZeroWeightSpec();
    var a := AbsGraph(2, map[(0, 1) := 0.0], [1.0, 1.0]);
    assert EdgeCount(a) == 1;
  }

  lemma ZeroWeightMatrix()
    ensures var m := RunMatrix(MatrixBacking.New(2), ZeroWeightEdits());
      && m.Ok?
      && MatrixBacking.HasEdge(m.value, 0, 1) == Ok(false)
      && MatrixBacking.GetEdgeCount(m.value) == 1
      && !MatrixBacking.IsEmptyGraph(m.value)
      && MatrixBacking.Abs(m.value).edges == map[]
      && !MatrixBacking.Valid(m.value)
  {
    var edits := ZeroWeightEdits();
    var m0 := MatrixBacking.New(2);
    assert MatrixBacking.HasEdge(m0, 0, 1) == Ok(false);
    var m1 := MatrixBacking.AddEdge(m0, 0, 1).value;
    assert m1.numEdges == 1;
    assert RunMatrix(m0, edits) == RunMatrix(m1, edits[1..]);
    assert MatrixBacking.HasEdge(m1, 0, 1) == Ok(true);
    MatrixBacking.ZeroWeightDropsEdge(m1, 0, 1);
    var m2 := MatrixBacking.SetEdgeWeight(m1, 0, 1, 0.0).value;
    assert RunMatrix(m1, edits[1..]) == RunMatrix(m2, []) == Ok(m2);
    assert MatrixBacking.Abs(m1).edges == map[(0, 1) := 1.0];
    assert MatrixBacking.Lift(Ok(m2)) == RemoveEdge(MatrixBacking.Abs(m1), 0, 1);
    assert MatrixBacking.Abs(m2).edges == map[(0, 1) := 1.0] - {(0, 1)};
  }

  /** Once the counter is stale it stays wrong: adding 0 -> 1 again after the
      0.0 write raises the counter to 2 while the matrix holds one edge. */
  lemma StaleCounterOvercounts()
    ensures var m := RunMatrix(MatrixBacking.New(2), ZeroWeightEdits());
      && m.Ok?
      && var a := MatrixBacking.AddEdge(m.value, 0, 1);
      && a.Ok?
      && MatrixBacking.GetEdgeCount(a.value) == 2
      && MatrixBacking.Abs(a.value).edges == map[(0, 1) := 1.0]
      && EdgeCount(MatrixBacking.Abs(a.value)) == 1
  {
  }

  /** With a weight of 0.0 the backings part ways: after adding 0 -> 1 and
      setting its weight to 0.0, the list still has the edge (weight 0.0),
      while the matrix has lost it yet still counts one edge, so its
      isEmptyGraph answers false for a graph with no edge left. */
  lemma ZeroWeightDiverges()
    ensures var l, m := RunList(ListBacking.New(2), ZeroWeightEdits()), RunMatrix(MatrixBacking.New(2), ZeroWeightEdits());
      && l.Ok? && m.Ok?
      && ListBacking.HasEdge(l.value, 0, 1) != MatrixBacking.HasEdge(m.value, 0, 1)
      && ListBacking.GetEdgeCount(l.value) == MatrixBacking.GetEdgeCount(m.value) == 1
      && MatrixBacking.Abs(m.value).edges == map[]
      && !MatrixBacking.IsEmptyGraph(m.value)
      && !MatrixBacking.Valid(m.value)
  {
    ZeroWeightList();
    ZeroWeightMatrix();
  }
}

/** The repository's quick test, replayed on the adjacency-list graph: four
    vertices, five edges, two edge queries, both degrees of vertex 2 and one
    edge-weight update. */
module QuickTest {
  import opened GraphSpec
  import ListBacking
  import Equivalence

  /** The five edges the quick test adds, in order. */
  function TestEdges(): seq<Equivalence.Edit>
  {
    [ Equivalence.AddEdgeEdit(0, 1), Equivalence.AddEdgeEdit(0, 2), Equivalence.AddEdgeEdit(1, 2),
      Equivalence.AddEdgeEdit(2, 0), Equivalence.AddEdgeEdit(2, 3) ]
  }

  /** The initial vertex weights of four vertices. */
  function Ones(): seq<real>
  {
    [1.0, 1.0, 1.0, 1.0]
  }

  /** The abstract graph the five additions build. */
  function Built(): AbsGraph
  {
    AbsGraph(4, map[(0, 1) := 1.0, (0, 2) := 1.0, (1, 2) := 1.0, (2, 0) := 1.0, (2, 3) := 1.0], Ones())
  }

  /** Adding an absent, proper edge inserts it with weight 1.0 and moves the run on. */
  lemma AddFresh(g: AbsGraph, e: seq<Equivalence.Edit>, u: int, v: int)
    requires |g.vertexWeights| == g.n && InRange(g.n, u) && InRange(g.n, v) && u != v
    requires (u, v) !in g.edges
    requires |e| > 0 && e[0] == Equivalence.AddEdgeEdit(u, v)
    ensures Equivalence.RunSpec(g, e) == Equivalence.RunSpec(g.(edges := g.edges[(u, v) := 1.0]), e[1..])
  {
  }

  /** The graph after the first three additions. */
  function Partial(): AbsGraph
  {
    AbsGraph(4, map[(0, 1) := 1.0, (0, 2) := 1.0, (1, 2) := 1.0], Ones())
  }

  /** The graph after the first addition. */
  function First(): AbsGraph
  {
    AbsGraph(4, map[(0, 1) := 1.0], Ones())
  }

  lemma BuildsFirst()
    ensures Equivalence.RunSpec(Empty(4), TestEdges()) == Equivalence.RunSpec(First(), TestEdges()[1..])
  {
    var g0 := AbsGraph(4, map[], Ones());
    assert Empty(4) == g0;
    AddFresh(g0, TestEdges(), 0, 1);
    assert g0.(edges := g0.edges[(0, 1) := 1.0]) == First();
  }

  lemma BuildsPartial()
    ensures Equivalence.RunSpec(First(), TestEdges()[1..]) == Equivalence.RunSpec(Partial(), TestEdges()[3..])
  {
    var e := TestEdges()[1..];
    var g1 := First();
    var g2 := g1.(edges := g1.edges[(0, 2) := 1.0]);
    AddFresh(g1, e, 0, 2);
    AddFresh(g2, e[1..], 1, 2);
    assert e[1..][1..] == TestEdges()[3..];
    assert g2.(edges := g2.edges[(1, 2) := 1.0]) == Partial();
  }

  lemma BuildsRest()
    ensures Equivalence.RunSpec(Partial(), TestEdges()[3..]) == Ok(Built())
  {
    var e := TestEdges()[3..];
    var g3 := Partial();
    var g4 := g3.(edges := g3.edges[(2, 0) := 1.0]);
    AddFresh(g3, e, 2, 0);
    AddFresh(g4, e[1..], 2, 3);
    assert e[1..][1..] == [];
    assert g4.(edges := g4.edges[(2, 3) := 1.0]) == Built();
  }

  lemma BuildsTestGraph()
    ensures Equivalence.RunSpec(Empty(4), TestEdges()) == Ok(Built())
  {
    BuildsFirst();
    BuildsPartial();
    BuildsRest();
  }

  lemma TestDegrees()
    ensures OutDegree(Built(), 2) == Ok(2)
    ensures InDegree(Built(), 2) == Ok(2)
  {
    var g := Built();
    assert OutNeighbours(g, 2) == {0, 3} by {
      forall j | j in OutNeighbours(g, 2) ensures j == 0 || j == 3 {
        assert (2, j) in g.edges;
      }
      assert (2, 0) in g.edges && (2, 3) in g.edges;
    }
    assert InNeighbours(g, 2) == {0, 1} by {
      forall i | i in InNeighbours(g, 2) ensures i == 0 || i == 1 {
        assert (i, 2) in g.edges;
      }
      assert (0, 2) in g.edges && (1, 2) in g.edges;
    }
  }

  lemma TestQueries()
    ensures HasEdge(Built(), 0, 1) == Ok(true)
    ensures HasEdge(Built(), 1, 3) == Ok(false)
    ensures SetEdgeWeight(Built(), 0, 1, 5.5).Ok?
    ensures GetEdgeWeight(SetEdgeWeight(Built(), 0, 1, 5.5).value, 0, 1) == Ok(5.5)
  {
  }

  /** On the adjacency list: 0 -> 1 is an edge, 1 -> 3 is not, vertex 2 has
      out- and in-degree 2, and after setting the weight of 0 -> 1 to 5.5 that
      edge reads back 5.5. */
  lemma QuickTestTrace()
    ensures var r := Equivalence.RunList(ListBacking.New(4), TestEdges());
      && r.Ok?
      && ListBacking.HasEdge(r.value, 0, 1) == Ok(true)
      && ListBacking.HasEdge(r.value, 1, 3) == Ok(false)
      && ListBacking.OutDegree(r.value, 2) == Ok(2)
      && InDegree(ListBacking.Abs(r.value), 2) == Ok(2)
      && ListBacking.SetEdgeWeight(r.value, 0, 1, 5.5).Ok?
      && ListBacking.GetEdgeWeight(ListBacking.SetEdgeWeight(r.value, 0, 1, 5.5).value, 0, 1) == Ok(5.5)
  {
    var l0 := ListBacking.New(4);
    Equivalence.ListRunRefines(l0, TestEdges());
    BuildsTestGraph();
    var r := Equivalence.RunList(l0, TestEdges());
    assert r.Ok? && ListBacking.Abs(r.value) == Built();
    var l := r.value;
    TestDegrees();
    TestQueries();
    var s := ListBacking.SetEdgeWeight(l, 0, 1, 5.5);
    assert ListBacking.Lift(s) == SetEdgeWeight(Built(), 0, 1, 5.5);
    assert ListBacking.GetEdgeWeight(s.value, 0, 1) == GetEdgeWeight(ListBacking.Abs(s.value), 0, 1);
  }
}

/**
  Callers of LarryGraph reasoning from the method contracts alone, on the
  situations exercised by StudentTests.java.
 */
module Clients {
  import opened Wrappers
  import opened Adjacency
  import opened Queries
  import opened Graph

  method VertexTwice() {
    var g := new LarryGraph<int>();
    var first := g.NewVertex(1);
    var present := g.IsVertex(1);
    var second := g.NewVertex(1);
    assert first && present && !second;
  }

  method EdgeRefusals() {
    var g := new LarryGraph<int>();
    var _ := g.NewVertex(1);
    var _ := g.NewVertex(2);
    var added := g.NewEdge(1, 2, 5);
    assert added;
    var w := g.EdgeWeight(1, 2);
    assert g.adj[1] == [Edge(2, 5)];
    assert w == 5;
    var negative := g.NewEdge(1, 2, -3);
    var loop := g.NewEdge(1, 1, 3);
    assert !negative && !loop;
  }

  method RemoveEdgeTwice() {
    var g := new LarryGraph<int>();
    var _ := g.NewVertex(1);
    var _ := g.NewVertex(2);
    var _ := g.NewEdge(1, 2, 5);
    var first := g.RemoveEdge(1, 2);
    assert g.adj[1] == [];
    var w := g.EdgeWeight(1, 2);
    var second := g.RemoveEdge(1, 2);
    assert first && w == -1 && !second;
  }

  method RemoveVertexWithEdge() {
    var g := new LarryGraph<int>();
    var _ := g.NewVertex(1);
    var _ := g.NewVertex(2);
    var _ := g.NewEdge(1, 2, 5);
    var removed := g.RemoveVertex(1);
    var present := g.IsVertex(1);
    var w := g.EdgeWeight(1, 2);
    assert removed && !present && w == -1;
  }

  method ChangeWeight() {
    var g := new LarryGraph<int>();
    var _ := g.NewVertex(1);
    var _ := g.NewVertex(2);
    var _ := g.NewEdge(1, 2, 5);
    var changed := g.ChangeEdge(1, 2, 10);
    assert g.adj[1] == [Edge(2, 10)];
    var w := g.EdgeWeight(1, 2);
    var negative := g.ChangeEdge(1, 2, -3);
    assert changed && w == 10 && !negative;
  }

  method NeighborsInOrder() {
    var g := new LarryGraph<int>();
    var _ := g.NewVertex(1);
    var _ := g.NewVertex(2);
    var _ := g.NewEdge(1, 2, 5);
    var ns := g.GetNeighbors(1);
    assert g.adj[1] == [Edge(2, 5)];
    assert Targets(g.adj[1]) == [2];
    assert ns == Some([2]);
    var unknown := g.GetNeighbors(7);
    assert unknown == None;
  }

  /** In a graph holding the edges 1->2 (weight 5) and 2->3 (weight 10), the path [1, 2, 3] costs 15. */
  lemma ChainCost(m: Adj<int>)
    requires 1 in m && 2 in m && 3 in m && m[1] == [Edge(2, 5)] && m[2] == [Edge(3, 10)]
    ensures PathCost(m, [1, 2, 3]) == 15
  {
    var p := [1, 2, 3];
    assert IndexOf(m[1], 2) == Some(0) && IndexOf(m[2], 3) == Some(0);
    assert Weight(m, p[0], p[1]) == 5 && Weight(m, p[1], p[2]) == 10;
    assert HopsExist(m, p, 0) && HopSum(m, p, 0) == 0;
    assert HopsExist(m, p, 1) && HopSum(m, p, 1) == 5;
  }

  method PathCosts() {
    var g := new LarryGraph<int>();
    var _ := g.NewVertex(1);
    var _ := g.NewVertex(2);
    var _ := g.NewVertex(3);
    var _ := g.NewEdge(1, 2, 5);
    var _ := g.NewEdge(2, 3, 10);
    assert g.adj[1] == [Edge(2, 5)] && g.adj[2] == [Edge(3, 10)];
    ChainCost(g.adj);
    var p := [1, 2, 3];
    var cost := g.CostOfPath(p);
    assert cost == 15;
  }

  method InvalidPaths() {
    var g := new LarryGraph<int>();
    var _ := g.NewVertex(1);
    var _ := g.NewVertex(2);
    var _ := g.NewEdge(1, 2, 5);
    var empty := g.CostOfPath([]);
    var missing := g.CostOfPath([1, 3]);
    assert empty == -1 && missing == -1;
  }
}

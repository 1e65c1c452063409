/**
  LarryGraph: a generic, mutable, weighted directed graph stored as an
  adjacency list. Each method mirrors the loop of the Java class and is proved
  against the specification functions of Adjacency and Queries.
 */
module Graph {
  import opened Wrappers
  import opened Adjacency
  import opened Queries

  /** The list without `x`: the key order after a key is removed. */
  function Erase<T(==)>(s: seq<T>, x: T): (r: seq<T>)
    ensures forall i :: 0 <= i < |r| ==> r[i] in s && r[i] != x
    ensures forall i :: 0 <= i < |s| && s[i] != x ==> s[i] in r
    ensures (forall i, j :: 0 <= i < j < |s| ==> s[i] != s[j]) ==>
      forall i, j :: 0 <= i < j < |r| ==> r[i] != r[j]
  {
    if s == [] then []
    else if s[0] == x then Erase(s[1..], x)
    else [s[0]] + Erase(s[1..], x)
  }

  /** Erasing a removed vertex from the key order leaves a valid key order for the remaining vertices. */
  lemma EnumeratesErase<V>(order: seq<V>, m: Adj<V>, m': Adj<V>, v: V)
    requires Enumerates(order, m) && m'.Keys == m.Keys - {v}
    ensures Enumerates(Erase(order, v), m')
  {
    var r := Erase(order, v);
    forall u | u in m' ensures u in r {
      var i :| 0 <= i < |order| && order[i] == u;
    }
  }

  /**
    The iterator loop of removeLarryGraphVertex over one outgoing list: each
    edge aimed at `v` is removed where it stands, the others are stepped over.
   */
  method StripEdges<V(==)>(edges: seq<Edge<V>>, v: V) returns (kept: seq<Edge<V>>)
    ensures kept == Strip(edges, v)
  {
    kept := edges;
    var i := 0;
    ghost var j := 0;
    while i < |kept|
      invariant 0 <= i <= |kept| && 0 <= j <= |edges|
      invariant kept[..i] == Strip(edges[..j], v)
      invariant kept[i..] == edges[j..]
      decreases |kept| - i
    {
      assert kept[i] == edges[j];
      assert edges[..j + 1][..j] == edges[..j];
      if kept[i].target == v {
        kept := kept[..i] + kept[i + 1..];
      } else {
        i := i + 1;
      }
      j := j + 1;
    }
    assert edges[..j] == edges;
  }

  /** The state part-way through the sweep of removeLarryGraphVertex: the lists of the first `k` vertices in key order are stripped of `v`. */
  ghost function StrippedUpTo<V>(m: Adj<V>, order: seq<V>, v: V, k: nat): Adj<V>
    requires k <= |order|
  {
    map u | u in m :: if u in order[..k] then Strip(m[u], v) else m[u]
  }

  /** One more step of the sweep strips the list of the next vertex and nothing else. */
  lemma StrippedStep<V>(m: Adj<V>, order: seq<V>, v: V, k: nat)
    requires Enumerates(order, m) && k < |order|
    ensures order[k] in StrippedUpTo(m, order, v, k)
    ensures StrippedUpTo(m, order, v, k)[order[k]] == m[order[k]]
    ensures StrippedUpTo(m, order, v, k + 1) ==
      StrippedUpTo(m, order, v, k)[order[k] := Strip(m[order[k]], v)]
  {
    assert order[..k + 1] == order[..k] + [order[k]];
    assert order[k] !in order[..k];
  }

  /** The finished sweep, with `v` then dropped, is the state after removing `v`. */
  lemma StrippedAll<V>(m: Adj<V>, order: seq<V>, v: V)
    requires Enumerates(order, m)
    ensures StrippedUpTo(m, order, v, |order|) - {v} == WithoutVertex(m, v)
  {
    assert order[..|order|] == order;
  }

  class LarryGraph<V(==)> {
    /** The adjacency list: every vertex and its outgoing edges in insertion order. */
    var adj: Adj<V>
    /** The order in which the key set is iterated; a hash map fixes no particular one. */
    var order: seq<V>

    /** The graph invariant, and the key order listing every vertex once. */
    ghost predicate Valid()
      reads this
    {
      Wf(adj) && Enumerates(order, adj)
    }

    constructor ()
      ensures Valid() && adj == map[] && order == []
    {
      adj := map[];
      order := [];
    }

    /** newLarryGraphVertex: true iff `v` was not a vertex; a new vertex starts with no edges. */
    method NewVertex(v: V) returns (added: bool)
      requires Valid()
      modifies this
      ensures Valid()
      ensures added <==> v !in old(adj)
      ensures adj == WithVertex(old(adj), v)
      ensures !added ==> order == old(order)
    {
      var present := IsVertex(v);
      if present {
        return false;
      }
      EnumeratesAppend(order, adj, v, []);
      WithVertexKeeps(adj, v);
      adj := adj[v := []];
      order := order + [v];
      return true;
    }

    /** isLarryGraphVertex. */
    method IsVertex(v: V) returns (b: bool)
      ensures b <==> v in adj
    {
      b := v in adj;
    }

    /** getLarryGraphVertices: a snapshot of the key order, listing every vertex exactly once. */
    method Vertices() returns (vs: seq<V>)
      requires Valid()
      ensures vs == order
      ensures forall v :: v in vs <==> v in adj
      ensures forall i, j :: 0 <= i < j < |vs| ==> vs[i] != vs[j]
    {
      vs := order;
    }

    /**
      newLarryGraphEdge: refused (false, nothing changes) for a negative weight,
      a self-loop with a non-zero weight, or an existing f->t edge; otherwise
      both endpoints are registered and Edge(t, w) is appended to f's list.
     */
    method NewEdge(f: V, t: V, w: int) returns (ok: bool)
      requires Valid()
      modifies this
      ensures Valid()
      ensures ok <==> Admissible(old(adj), f, t, w)
      ensures adj == if ok then WithEdge(old(adj), f, t, w) else old(adj)
      ensures !ok ==> order == old(order)
    {
      if w < 0 {
        return false;
      }
      if f == t && w != 0 {
        return false;
      }
      if f in adj {
        var edges := adj[f];
        var i := 0;
        while i < |edges|
          invariant 0 <= i <= |edges|
          invariant forall j :: 0 <= j < i ==> edges[j].target != t
        {
          if edges[i].target == t {
            assert Targets(edges)[i] == t;
            return false;
          }
          i := i + 1;
        }
        assert t !in Targets(edges);
      }
      ghost var m0 := adj;
      WithEdgeKeeps(m0, f, t, w);
      var _ := NewVertex(f);
      var _ := NewVertex(t);
      EnumeratesSameKeys(order, adj, adj[f := adj[f] + [Edge(t, w)]]);
      adj := adj[f := adj[f] + [Edge(t, w)]];
      assert adj == WithEdge(m0, f, t, w);
      return true;
    }

    /** larryGraphEdgeWeight: the weight of f->t, or -1. */
    method EdgeWeight(f: V, t: V) returns (w: int)
      ensures w == Weight(adj, f, t)
    {
      if f !in adj || t !in adj {
        return -1;
      }
      var edges := adj[f];
      var i := 0;
      while i < |edges|
        invariant 0 <= i <= |edges|
        invariant forall j :: 0 <= j < i ==> edges[j].target != t
      {
        if edges[i].target == t {
          return edges[i].weight;
        }
        i := i + 1;
      }
      return -1;
    }

    /** removeLarryGraphEdge: false when an endpoint or the edge is missing; otherwise the f->t edge is taken out of f's list. */
    method RemoveEdge(f: V, t: V) returns (ok: bool)
      requires Valid()
      modifies this
      ensures Valid()
      ensures ok <==> f in old(adj) && t in old(adj) && t in Targets(old(adj)[f])
      ensures adj == if ok then WithoutEdge(old(adj), f, t) else old(adj)
      ensures order == old(order)
    {
      if f !in adj || t !in adj {
        return false;
      }
      var edges := adj[f];
      var i := 0;
      while i < |edges|
        invariant 0 <= i <= |edges|
        invariant forall j :: 0 <= j < i ==> edges[j].target != t
      {
        if edges[i].target == t {
          assert Targets(edges)[i] == t;
          WithoutEdgeKeeps(adj, f, t);
          EnumeratesSameKeys(order, adj, adj[f := edges[..i] + edges[i + 1..]]);
          adj := adj[f := edges[..i] + edges[i + 1..]];
          return true;
        }
        i := i + 1;
      }
      return false;
    }

    /**
      removeLarryGraphVertex: false when `v` is not a vertex; otherwise every
      edge aimed at `v` is removed from every list, then `v` and its own list.
     */
    method RemoveVertex(v: V) returns (ok: bool)
      requires Valid()
      modifies this
      ensures Valid()
      ensures ok <==> v in old(adj)
      ensures adj == if ok then WithoutVertex(old(adj), v) else old(adj)
      ensures !ok ==> order == old(order)
    {
      if v !in adj {
        return false;
      }
      var k := 0;
      while k < |order|
        invariant 0 <= k <= |order|
        invariant order == old(order)
        invariant adj == StrippedUpTo(old(adj), order, v, k)
      {
        var u := order[k];
        StrippedStep(old(adj), order, v, k);
        var kept := StripEdges(adj[u], v);
        adj := adj[u := kept];
        k := k + 1;
      }
      StrippedAll(old(adj), order, v);
      WithoutVertexKeeps(old(adj), v);
      EnumeratesErase(order, old(adj), WithoutVertex(old(adj), v), v);
      adj := adj - {v};
      order := Erase(order, v);
      return true;
    }

    /**
      changeLarryGraphEdge: false for a negative weight, a non-zero self-loop,
      a missing endpoint or a missing edge; otherwise the f->t edge takes the
      new weight and nothing else changes.
     */
    method ChangeEdge(f: V, t: V, w: int) returns (ok: bool)
      requires Valid()
      modifies this
      ensures Valid()
      ensures ok <==> w >= 0 && (f == t ==> w == 0) && f in old(adj) && t in old(adj) && t in Targets(old(adj)[f])
      ensures adj == if ok then old(adj)[f := Reweighed(old(adj)[f], t, w)] else old(adj)
      ensures order == old(order)
    {
      if w < 0 {
        return false;
      }
      if f == t && w != 0 {
        return false;
      }
      if f !in adj || t !in adj {
        return false;
      }
      var edges := adj[f];
      var found := false;
      var i := 0;
      while i < |edges|
        invariant 0 <= i <= |edges|
        invariant f in adj && adj == old(adj)[f := adj[f]] && |adj[f]| == |edges|
        invariant order == old(order)
        invariant forall j :: 0 <= j < i ==> adj[f][j] == Reweigh(edges[j], t, w)
        invariant forall j :: i <= j < |edges| ==> adj[f][j] == edges[j]
        invariant found <==> exists j :: 0 <= j < i && edges[j].target == t
      {
        if edges[i].target == t {
          adj := adj[f := adj[f][i := Edge(edges[i].target, w)]];
          found := true;
        }
        i := i + 1;
      }
      assert adj[f] == Reweighed(edges, t, w);
      if found {
        var j :| 0 <= j < |edges| && edges[j].target == t;
        assert Targets(edges)[j] == t;
        ReweighedKeeps(old(adj), f, t, w);
        EnumeratesSameKeys(order, old(adj), adj);
      } else {
        forall j | 0 <= j < |edges| ensures Targets(edges)[j] != t {
        }
        ReweighedAbsent(edges, t, w);
        assert adj == old(adj);
      }
      return found;
    }

    /** getNeighbors: the absent-marker for an unknown vertex, otherwise the targets of its list in order. */
    method GetNeighbors(v: V) returns (r: Option<seq<V>>)
      ensures r == Neighbors(adj, v)
    {
      if v !in adj {
        return None;
      }
      var edges := adj[v];
      var ns: seq<V> := [];
      var i := 0;
      while i < |edges|
        invariant 0 <= i <= |edges|
        invariant |ns| == i
        invariant forall j :: 0 <= j < i ==> ns[j] == edges[j].target
      {
        ns := ns + [edges[i].target];
        i := i + 1;
      }
      assert ns == Targets(edges);
      return Some(ns);
    }

    /**
      predecessorsOfVertex: scans the vertices in key order and stops after the
      first one whose list has an edge to `d`, reporting it once per such edge.
     */
    method PredecessorsOf(d: V) returns (preds: seq<V>)
      requires Valid()
      ensures preds == Predecessors(adj, order, d)
    {
      preds := [];
      var k := 0;
      while k < |order|
        invariant 0 <= k <= |order|
        invariant preds == []
        invariant Predecessors(adj, order, d) == PredecessorsFrom(adj, order, d, k)
      {
        var s := order[k];
        var edges := adj[s];
        var found := false;
        var i := 0;
        while i < |edges|
          invariant 0 <= i <= |edges|
          invariant preds == Repeat(s, Count(edges[..i], d))
          invariant found <==> Count(edges[..i], d) > 0
        {
          assert edges[..i + 1][..i] == edges[..i];
          if edges[i].target == d {
            preds := preds + [s];
            found := true;
          }
          i := i + 1;
        }
        assert edges[..i] == edges;
        if found {
          break;
        }
        k := k + 1;
      }
    }

    /** costOfPath: -1 for a path shorter than two or with a missing hop, otherwise the sum of its hop weights. */
    method CostOfPath(p: seq<V>) returns (cost: int)
      ensures cost == PathCost(adj, p)
    {
      if |p| < 2 {
        return -1;
      }
      cost := 0;
      var i := 0;
      while i < |p| - 1
        invariant 0 <= i <= |p| - 1
        invariant HopsExist(adj, p, i)
        invariant cost == HopSum(adj, p, i)
      {
        var from, to := p[i], p[i + 1];
        if from !in adj || to !in adj {
          HopsExistAt(adj, p, |p| - 1, i);
          return -1;
        }
        var w := EdgeWeight(from, to);
        if w == -1 {
          HopsExistAt(adj, p, |p| - 1, i);
          return -1;
        }
        cost := cost + w;
        i := i + 1;
      }
    }
  }
}

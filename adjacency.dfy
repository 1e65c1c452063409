/**
  The abstract state of a LarryGraph: every vertex label maps to the ordered
  list of its outgoing edges. This module defines that state, the invariant the
  graph keeps, the edge-weight lookup, and the new state each mutator produces,
  with lemmas saying what those mutations preserve and change.
 */
module Adjacency {
  import opened Wrappers

  /** One outgoing edge: its target vertex and its weight. */
  datatype Edge<V> = Edge(target: V, weight: int)

  type Adj<V> = map<V, seq<Edge<V>>>

  /** The targets of an outgoing list, in list order. */
  function Targets<V>(edges: seq<Edge<V>>): (ts: seq<V>)
    ensures |ts| == |edges|
    ensures forall i :: 0 <= i < |edges| ==> ts[i] == edges[i].target
  {
    if edges == [] then [] else [edges[0].target] + Targets(edges[1..])
  }

  /** The position of the first edge of `edges` aimed at `t`, if any. */
  function IndexOf<V(==)>(edges: seq<Edge<V>>, t: V): (r: Option<nat>)
    ensures r.None? <==> t !in Targets(edges)
    ensures r.Some? ==> r.value < |edges| && edges[r.value].target == t
    ensures r.Some? ==> forall j :: 0 <= j < r.value ==> edges[j].target != t
  {
    if edges == [] then None
    else if edges[0].target == t then Some(0)
    else match IndexOf(edges[1..], t)
      case None => None
      case Some(i) => Some(i + 1)
  }

  // ---------------------------------------------------------------------------
  // The graph invariant
  // ---------------------------------------------------------------------------

  /** No two edges of one list share a target. */
  ghost predicate DistinctTargets<V>(edges: seq<Edge<V>>) {
    forall i, j :: 0 <= i < j < |edges| ==> edges[i].target != edges[j].target
  }

  /** An edge leaving `v`: non-negative weight, weight 0 on a self-loop, target registered. */
  ghost predicate EdgeOk<V>(m: Adj<V>, v: V, e: Edge<V>) {
    && e.weight >= 0
    && (e.target == v ==> e.weight == 0)
    && e.target in m
  }

  ghost predicate ListOk<V>(m: Adj<V>, v: V, edges: seq<Edge<V>>) {
    && DistinctTargets(edges)
    && forall i :: 0 <= i < |edges| ==> EdgeOk(m, v, edges[i])
  }

  /** The invariant every LarryGraph keeps between operations. */
  ghost predicate Wf<V>(m: Adj<V>) {
    forall v :: v in m ==> ListOk(m, v, m[v])
  }

  // ---------------------------------------------------------------------------
  // Edge weight lookup (larryGraphEdgeWeight)
  // ---------------------------------------------------------------------------

  /** The weight of the edge f->t, or the sentinel -1 when an endpoint is not a vertex or there is no such edge. */
  function Weight<V(==)>(m: Adj<V>, f: V, t: V): int {
    if f !in m || t !in m then -1
    else match IndexOf(m[f], t)
      case None => -1
      case Some(i) => m[f][i].weight
  }

  /** Under the invariant, -1 is returned exactly when the edge is missing, and it never collides with a stored weight. */
  lemma WeightSentinel<V>(m: Adj<V>, f: V, t: V)
    requires Wf(m)
    ensures Weight(m, f, t) == -1 <==> (f !in m || t !in m || t !in Targets(m[f]))
    ensures Weight(m, f, t) != -1 ==> Weight(m, f, t) >= 0
  {
    if f in m && t in m {
      match IndexOf(m[f], t)
      case None =>
      case Some(i) => assert EdgeOk(m, f, m[f][i]);
    }
  }

  /** Under the invariant, looking up the target of a stored edge gives back that edge's weight. */
  lemma WeightOfStored<V>(m: Adj<V>, f: V, i: nat)
    requires Wf(m) && f in m && i < |m[f]|
    ensures Weight(m, f, m[f][i].target) == m[f][i].weight
  {
    var t := m[f][i].target;
    assert ListOk(m, f, m[f]) && EdgeOk(m, f, m[f][i]);
    assert t in Targets(m[f]) by { assert Targets(m[f])[i] == t; }
    assert forall j :: 0 <= j < i ==> m[f][j].target != t;
  }

  /** Under the invariant, Weight is determined by list membership alone. */
  lemma WeightByMembership<V>(m: Adj<V>, f: V, b: V)
    requires Wf(m)
    ensures f in m && b in m && b in Targets(m[f]) ==>
      exists i :: 0 <= i < |m[f]| && m[f][i].target == b && Weight(m, f, b) == m[f][i].weight
    ensures !(f in m && b in m && b in Targets(m[f])) ==> Weight(m, f, b) == -1
  {
    if f in m && b in m && b in Targets(m[f]) {
      var i := IndexOf(m[f], b).value;
      assert m[f][i].target == b && Weight(m, f, b) == m[f][i].weight;
    }
  }

  /**
    Two invariant-respecting graphs with the same vertices whose lists for `f`
    hold the same edges give every edge from `f` the same weight.
   */
  lemma SameEdgesSameWeight<V>(m: Adj<V>, m': Adj<V>, f: V, b: V)
    requires Wf(m) && Wf(m') && f in m && f in m' && b in m && b in m'
    requires forall e :: e in m[f] && e.target == b <==> e in m'[f] && e.target == b
    ensures Weight(m, f, b) == Weight(m', f, b)
  {
    WeightByMembership(m, f, b);
    WeightByMembership(m', f, b);
    if b in Targets(m[f]) {
      var i :| 0 <= i < |m[f]| && m[f][i].target == b && Weight(m, f, b) == m[f][i].weight;
      assert m[f][i] in m'[f];
      var k :| 0 <= k < |m'[f]| && m'[f][k] == m[f][i];
      assert Targets(m'[f])[k] == b;
      WeightOfStored(m', f, k);
    } else {
      forall k | 0 <= k < |m'[f]| ensures m'[f][k].target != b {
        TargetOfMember(m[f], m'[f][k]);
      }
    }
  }

  lemma TargetOfMember<V>(edges: seq<Edge<V>>, e: Edge<V>)
    ensures e in edges ==> e.target in Targets(edges)
  {
    if e in edges {
      var i :| 0 <= i < |edges| && edges[i] == e;
      assert Targets(edges)[i] == e.target;
    }
  }

  // ---------------------------------------------------------------------------
  // Adding a vertex (newLarryGraphVertex)
  // ---------------------------------------------------------------------------

  /** The state after registering `v`: a new vertex gets an empty list, an existing one is left as it is. */
  function WithVertex<V>(m: Adj<V>, v: V): Adj<V> {
    if v in m then m else m[v := []]
  }

  /** Registering a vertex keeps the invariant and changes no edge weight. */
  lemma WithVertexKeeps<V>(m: Adj<V>, v: V)
    requires Wf(m)
    ensures Wf(WithVertex(m, v))
    ensures v in WithVertex(m, v) && WithVertex(m, v).Keys == m.Keys + {v}
    ensures v !in m ==> WithVertex(m, v)[v] == []
    ensures forall u :: u in m ==> WithVertex(m, v)[u] == m[u]
    ensures forall a, b :: Weight(WithVertex(m, v), a, b) == Weight(m, a, b)
  {
    var m' := WithVertex(m, v);
    forall u | u in m' ensures ListOk(m', u, m'[u]) {
      if u in m {
        assert m'[u] == m[u] && ListOk(m, u, m[u]);
      }
    }
    forall a, b ensures Weight(m', a, b) == Weight(m, a, b) {
      WeightByMembership(m, a, b);
      WeightByMembership(m', a, b);
      if v !in m && a in m {
        assert ListOk(m, a, m[a]);
        forall k | 0 <= k < |m[a]| ensures m[a][k].target != v {
          assert EdgeOk(m, a, m[a][k]);
        }
      }
    }
  }

  // ---------------------------------------------------------------------------
  // Adding an edge (newLarryGraphEdge)
  // ---------------------------------------------------------------------------

  /** The three refusals of newLarryGraphEdge: a negative weight, a non-zero self-loop, an existing f->t edge. */
  predicate Admissible<V(==)>(m: Adj<V>, f: V, t: V, w: int) {
    && w >= 0
    && (f == t ==> w == 0)
    && (f in m ==> t !in Targets(m[f]))
  }

  /** The state after an admitted edge insertion: both endpoints registered, Edge(t, w) appended to f's list. */
  function WithEdge<V>(m: Adj<V>, f: V, t: V, w: int): Adj<V> {
    var m1 := WithVertex(WithVertex(m, f), t);
    m1[f := m1[f] + [Edge(t, w)]]
  }

  /**
    An admitted insertion keeps the invariant, makes f->t weigh `w`, and leaves
    the weight of every other ordered pair as it was.
   */
  lemma WithEdgeKeeps<V>(m: Adj<V>, f: V, t: V, w: int)
    requires Wf(m) && Admissible(m, f, t, w)
    ensures Wf(WithEdge(m, f, t, w))
    ensures WithEdge(m, f, t, w).Keys == m.Keys + {f, t}
    ensures WithEdge(m, f, t, w)[f] == (if f in m then m[f] else []) + [Edge(t, w)]
    ensures forall u :: u in m && u != f ==> WithEdge(m, f, t, w)[u] == m[u]
    ensures Weight(WithEdge(m, f, t, w), f, t) == w
    ensures forall a, b :: (a != f || b != t) ==> Weight(WithEdge(m, f, t, w), a, b) == Weight(m, a, b)
  {
    var m0 := WithVertex(m, f);
    var m1 := WithVertex(m0, t);
    var m' := WithEdge(m, f, t, w);
    WithVertexKeeps(m, f);
    WithVertexKeeps(m0, t);
    assert m1[f] == if f in m then m[f] else [];
    assert t !in Targets(m1[f]);
    var l := m1[f] + [Edge(t, w)];
    assert ListOk(m1, f, m1[f]);
    assert ListOk(m', f, l) by {
      forall i, j | 0 <= i < j < |l| ensures l[i].target != l[j].target {
        if j == |l| - 1 {
          assert Targets(m1[f])[i] == l[i].target;
        }
      }
      forall i | 0 <= i < |l| ensures EdgeOk(m', f, l[i]) {
        if i < |m1[f]| { assert EdgeOk(m1, f, m1[f][i]); }
      }
    }
    forall u | u in m' && u != f ensures ListOk(m', u, m'[u]) {
      assert m'[u] == m1[u] && ListOk(m1, u, m1[u]);
      forall i | 0 <= i < |m'[u]| ensures EdgeOk(m', u, m'[u][i]) {
        assert EdgeOk(m1, u, m1[u][i]);
      }
    }
    assert Wf(m');
    WeightOfStored(m', f, |l| - 1);
    forall a, b | a != f || b != t ensures Weight(m', a, b) == Weight(m1, a, b) {
      if a in m' && b in m' {
        SameEdgesSameWeight(m', m1, a, b);
      } else {
        WeightByMembership(m', a, b);
        WeightByMembership(m1, a, b);
      }
    }
  }

  // ---------------------------------------------------------------------------
  // Removing an edge (removeLarryGraphEdge)
  // ---------------------------------------------------------------------------

  /**
    Replacing the list of `f` by another list that is valid for `f` keeps the
    invariant and the vertices, and leaves every edge not leaving `f` as it was.
   */
  lemma ReplaceListKeeps<V>(m: Adj<V>, f: V, l: seq<Edge<V>>)
    requires Wf(m) && f in m && ListOk(m, f, l)
    ensures Wf(m[f := l]) && m[f := l].Keys == m.Keys
    ensures forall a, b :: a != f ==> Weight(m[f := l], a, b) == Weight(m, a, b)
  {
    var m' := m[f := l];
    assert m'.Keys == m.Keys;
    forall u | u in m' ensures ListOk(m', u, m'[u]) {
      assert ListOk(m, u, m'[u]);
      forall i | 0 <= i < |m'[u]| ensures EdgeOk(m', u, m'[u][i]) {
        assert EdgeOk(m, u, m'[u][i]);
      }
    }
  }

  /** The list with the element at position `i` taken out. */
  function RemoveAt<T>(s: seq<T>, i: nat): (r: seq<T>)
    requires i < |s|
    ensures |r| == |s| - 1
    ensures forall e :: e in r ==> e in s
  {
    s[..i] + s[i + 1..]
  }

  /** The state after removing the first f->t edge from f's list. */
  function WithoutEdge<V(==)>(m: Adj<V>, f: V, t: V): Adj<V>
    requires f in m && t in Targets(m[f])
  {
    m[f := RemoveAt(m[f], IndexOf(m[f], t).value)]
  }

  /**
    Removing an existing edge keeps the invariant, makes f->t read -1, and
    leaves the weight of every other ordered pair as it was.
   */
  lemma WithoutEdgeKeeps<V>(m: Adj<V>, f: V, t: V)
    requires Wf(m) && f in m && t in Targets(m[f])
    ensures Wf(WithoutEdge(m, f, t)) && WithoutEdge(m, f, t).Keys == m.Keys
    ensures Weight(WithoutEdge(m, f, t), f, t) == -1
    ensures t !in Targets(WithoutEdge(m, f, t)[f])
    ensures forall a, b :: (a != f || b != t) ==> Weight(WithoutEdge(m, f, t), a, b) == Weight(m, a, b)
  {
    var s := m[f];
    var k := IndexOf(s, t).value;
    var l := RemoveAt(s, k);
    assert ListOk(m, f, s);
    assert forall i :: 0 <= i < |l| ==> l[i] == s[if i < k then i else i + 1];
    assert ListOk(m, f, l) by {
      forall i | 0 <= i < |l| ensures EdgeOk(m, f, l[i]) {
        assert EdgeOk(m, f, s[if i < k then i else i + 1]);
      }
    }
    ReplaceListKeeps(m, f, l);
    var m' := m[f := l];
    forall i | 0 <= i < |l| ensures l[i].target != t {
      assert l[i] == s[if i < k then i else i + 1];
    }
    WeightByMembership(m', f, t);
    forall b | b in m && b != t ensures Weight(m', f, b) == Weight(m, f, b) {
      forall e: Edge<V> ensures e in l && e.target == b <==> e in s && e.target == b {
        if e in s && e.target == b {
          var i :| 0 <= i < |s| && s[i] == e;
          assert i != k;
          assert e == l[if i < k then i else i - 1];
        }
      }
      SameEdgesSameWeight(m', m, f, b);
    }
  }

  // ---------------------------------------------------------------------------
  // Changing a weight (changeLarryGraphEdge)
  // ---------------------------------------------------------------------------

  /** One edge after a weight change aimed at `t`: edges to other targets are left alone. */
  function Reweigh<V(==)>(e: Edge<V>, t: V, w: int): Edge<V> {
    if e.target == t then Edge(e.target, w) else e
  }

  /** The list after every edge aimed at `t` has its weight set to `w`. */
  function Reweighed<V(==)>(edges: seq<Edge<V>>, t: V, w: int): seq<Edge<V>> {
    seq(|edges|, i requires 0 <= i < |edges| => Reweigh(edges[i], t, w))
  }

  /** A list with no edge aimed at `t` is not touched by a weight change. */
  lemma ReweighedAbsent<V>(edges: seq<Edge<V>>, t: V, w: int)
    requires t !in Targets(edges)
    ensures Reweighed(edges, t, w) == edges
  {
    forall i | 0 <= i < |edges| ensures Reweighed(edges, t, w)[i] == edges[i] {
      assert Targets(edges)[i] == edges[i].target;
    }
  }

  /**
    A permitted weight change on an existing edge keeps the invariant, makes
    f->t weigh `w`, and leaves the weight of every other ordered pair as it was.
   */
  lemma ReweighedKeeps<V>(m: Adj<V>, f: V, t: V, w: int)
    requires Wf(m) && f in m && t in m && t in Targets(m[f])
    requires w >= 0 && (f == t ==> w == 0)
    ensures Wf(m[f := Reweighed(m[f], t, w)])
    ensures m[f := Reweighed(m[f], t, w)].Keys == m.Keys
    ensures Weight(m[f := Reweighed(m[f], t, w)], f, t) == w
    ensures forall a, b :: (a != f || b != t) ==> Weight(m[f := Reweighed(m[f], t, w)], a, b) == Weight(m, a, b)
  {
    var s := m[f];
    var l := Reweighed(s, t, w);
    assert ListOk(m, f, s);
    assert ListOk(m, f, l) by {
      forall i | 0 <= i < |l| ensures EdgeOk(m, f, l[i]) {
        assert EdgeOk(m, f, s[i]);
      }
    }
    ReplaceListKeeps(m, f, l);
    var m' := m[f := l];
    var k :| 0 <= k < |s| && Targets(s)[k] == t;
    assert l[k] == Edge(t, w);
    WeightOfStored(m', f, k);
    forall b | b in m && b != t ensures Weight(m', f, b) == Weight(m, f, b) {
      forall e: Edge<V> | e.target == b {
        ReweighedOthers(s, t, w, e);
      }
      SameEdgesSameWeight(m', m, f, b);
    }
  }

  /** A weight change aimed at `t` neither adds nor drops an edge to any other target. */
  lemma ReweighedOthers<V>(edges: seq<Edge<V>>, t: V, w: int, e: Edge<V>)
    requires e.target != t
    ensures e in Reweighed(edges, t, w) <==> e in edges
  {
    var l := Reweighed(edges, t, w);
    if e in edges {
      var i :| 0 <= i < |edges| && edges[i] == e;
      assert l[i] == e;
    }
    if e in l {
      var i :| 0 <= i < |l| && l[i] == e;
      assert edges[i] == e;
    }
  }

  // ---------------------------------------------------------------------------
  // Removing a vertex (removeLarryGraphVertex)
  // ---------------------------------------------------------------------------

  /** The list with every edge aimed at `v` dropped, the rest kept in order. */
  function Strip<V(==)>(edges: seq<Edge<V>>, v: V): seq<Edge<V>> {
    if edges == [] then []
    else
      var last := edges[|edges| - 1];
      Strip(edges[..|edges| - 1], v) + (if last.target == v then [] else [last])
  }

  /** Strip keeps exactly the edges not aimed at `v`. */
  lemma {:induction false} StripMember<V>(edges: seq<Edge<V>>, v: V, e: Edge<V>)
    ensures e in Strip(edges, v) <==> e in edges && e.target != v
  {
    if edges != [] {
      var init := edges[..|edges| - 1];
      StripMember(init, v, e);
      assert edges == init + [edges[|edges| - 1]];
    }
  }

  /** Strip works piecewise, so the surviving edges keep their relative order. */
  lemma {:induction false} StripConcat<V>(a: seq<Edge<V>>, b: seq<Edge<V>>, v: V)
    ensures Strip(a + b, v) == Strip(a, v) + Strip(b, v)
  {
    if b != [] {
      var init := b[..|b| - 1];
      StripConcat(a, init, v);
      assert (a + b)[..|a + b| - 1] == a + init;
    } else {
      assert a + b == a;
    }
  }

  /** Strip of a list with no edge aimed at `v` is the list itself. */
  lemma {:induction false} StripAbsent<V>(edges: seq<Edge<V>>, v: V)
    requires forall i :: 0 <= i < |edges| ==> edges[i].target != v
    ensures Strip(edges, v) == edges
  {
    if edges != [] {
      var init := edges[..|edges| - 1];
      StripAbsent(init, v);
      assert edges == init + [edges[|edges| - 1]];
    }
  }

  /** Strip keeps targets distinct. */
  lemma {:induction false} StripDistinct<V>(edges: seq<Edge<V>>, v: V)
    requires DistinctTargets(edges)
    ensures DistinctTargets(Strip(edges, v))
  {
    if edges != [] {
      var init := edges[..|edges| - 1];
      var last := edges[|edges| - 1];
      StripDistinct(init, v);
      var ri := Strip(init, v);
      if last.target != v {
        forall i | 0 <= i < |ri| ensures ri[i].target != last.target {
          StripMember(init, v, ri[i]);
          var j :| 0 <= j < |init| && init[j] == ri[i];
          assert edges[j] == ri[i];
        }
      }
    }
  }

  /** The state after removing `v`: its own list is gone and every edge aimed at it is stripped. */
  function WithoutVertex<V(==)>(m: Adj<V>, v: V): Adj<V> {
    map u | u in m && u != v :: Strip(m[u], v)
  }

  /**
    Removing a vertex keeps the invariant, leaves no edge aimed at it, and
    keeps the weight of every edge between two surviving vertices.
   */
  lemma WithoutVertexKeeps<V>(m: Adj<V>, v: V)
    requires Wf(m)
    ensures Wf(WithoutVertex(m, v))
    ensures WithoutVertex(m, v).Keys == m.Keys - {v}
    ensures forall u :: u in WithoutVertex(m, v) ==> v !in Targets(WithoutVertex(m, v)[u])
    ensures forall a, b :: a != v && b != v ==> Weight(WithoutVertex(m, v), a, b) == Weight(m, a, b)
  {
    var m' := WithoutVertex(m, v);
    forall u | u in m' ensures ListOk(m', u, m'[u]) && v !in Targets(m'[u]) {
      assert ListOk(m, u, m[u]);
      StripDistinct(m[u], v);
      var l := m'[u];
      assert l == Strip(m[u], v);
      forall i | 0 <= i < |l| ensures EdgeOk(m', u, l[i]) && l[i].target != v {
        StripMember(m[u], v, l[i]);
        var j :| 0 <= j < |m[u]| && m[u][j] == l[i];
        assert EdgeOk(m, u, m[u][j]);
      }
    }
    assert Wf(m');
    forall a, b | a != v && b != v ensures Weight(m', a, b) == Weight(m, a, b) {
      if a in m && b in m {
        forall e: Edge<V> ensures e in m'[a] && e.target == b <==> e in m[a] && e.target == b {
          StripMember(m[a], v, e);
        }
        SameEdgesSameWeight(m', m, a, b);
      }
    }
  }

  /** Registering a fresh vertex and removing it again gives back the graph. */
  lemma WithoutVertexUndoes<V>(m: Adj<V>, v: V)
    requires Wf(m) && v !in m
    ensures WithoutVertex(WithVertex(m, v), v) == m
  {
    var m' := WithoutVertex(WithVertex(m, v), v);
    forall u | u in m ensures m'[u] == m[u] {
      assert ListOk(m, u, m[u]);
      forall i | 0 <= i < |m[u]| ensures m[u][i].target != v {
        assert EdgeOk(m, u, m[u][i]);
      }
      StripAbsent(m[u], v);
    }
  }

  /** Inserting an admitted edge between existing vertices and removing it again gives back the graph. */
  lemma WithoutEdgeUndoes<V>(m: Adj<V>, f: V, t: V, w: int)
    requires Wf(m) && f in m && t in m && Admissible(m, f, t, w)
    ensures f in WithEdge(m, f, t, w) && t in Targets(WithEdge(m, f, t, w)[f])
    ensures WithoutEdge(WithEdge(m, f, t, w), f, t) == m
  {
    var s := m[f];
    var m' := WithEdge(m, f, t, w);
    assert m'[f] == s + [Edge(t, w)];
    assert Targets(m'[f])[|s|] == t;
    forall j | 0 <= j < |s| ensures m'[f][j].target != t {
      assert Targets(s)[j] == s[j].target;
    }
    var k := IndexOf(m'[f], t).value;
    assert RemoveAt(m'[f], k) == s;
  }
}

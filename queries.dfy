/**
  The read-only queries of a LarryGraph over its abstract state: the
  neighbours of a vertex, its predecessors (with the early stop of the
  scan in LarryGraph.java), and the cost of a path.
 */
module Queries {
  import opened Wrappers
  import opened Adjacency

  // ---------------------------------------------------------------------------
  // Neighbours (getNeighbors)
  // ---------------------------------------------------------------------------

  /** The absent-marker for an unknown vertex, otherwise the targets of its outgoing list in list order. */
  function Neighbors<V(==)>(m: Adj<V>, v: V): Option<seq<V>> {
    if v in m then Some(Targets(m[v])) else None
  }

  /**
    Under the invariant, the neighbours of a known vertex are exactly the
    vertices it has an edge to (a non-sentinel weight), each listed once.
   */
  lemma NeighborsMeaning<V>(m: Adj<V>, v: V)
    requires Wf(m)
    ensures Neighbors(m, v).None? <==> v !in m
    ensures Neighbors(m, v).Some? ==> forall x :: x in Neighbors(m, v).value <==> Weight(m, v, x) >= 0
    ensures Neighbors(m, v).Some? ==>
      forall i, j :: 0 <= i < j < |Neighbors(m, v).value| ==> Neighbors(m, v).value[i] != Neighbors(m, v).value[j]
  {
    if v in m {
      var ns := Targets(m[v]);
      assert ListOk(m, v, m[v]);
      forall x ensures x in ns <==> Weight(m, v, x) >= 0 {
        WeightSentinel(m, v, x);
        if x in ns {
          var i :| 0 <= i < |ns| && ns[i] == x;
          assert EdgeOk(m, v, m[v][i]);
        }
      }
    }
  }

  // ---------------------------------------------------------------------------
  // Predecessors (predecessorsOfVertex)
  // ---------------------------------------------------------------------------

  /** The number of edges of `edges` aimed at `d`. */
  function Count<V(==)>(edges: seq<Edge<V>>, d: V): nat {
    if edges == [] then 0
    else Count(edges[..|edges| - 1], d) + (if edges[|edges| - 1].target == d then 1 else 0)
  }

  /** `n` copies of `x`. */
  function Repeat<T>(x: T, n: nat): seq<T> {
    seq(n, _ => x)
  }

  /**
    The scan of predecessorsOfVertex from position `k` of the key order: the
    first source with an edge to `d` is reported once per such edge, and the
    scan stops after it.
   */
  function PredecessorsFrom<V(==)>(m: Adj<V>, order: seq<V>, d: V, k: nat): seq<V>
    requires k <= |order|
    decreases |order| - k
  {
    if k == |order| then []
    else
      var c := if order[k] in m then Count(m[order[k]], d) else 0;
      if c > 0 then Repeat(order[k], c) else PredecessorsFrom(m, order, d, k + 1)
  }

  function Predecessors<V(==)>(m: Adj<V>, order: seq<V>, d: V): seq<V> {
    PredecessorsFrom(m, order, d, 0)
  }

  /** A list has an edge aimed at `d` exactly when it counts at least one. */
  lemma {:induction false} CountPositive<V>(edges: seq<Edge<V>>, d: V)
    ensures Count(edges, d) > 0 <==> d in Targets(edges)
  {
    if edges != [] {
      var init := edges[..|edges| - 1];
      CountPositive(init, d);
      assert Targets(edges) == Targets(init) + [edges[|edges| - 1].target] by {
        assert edges == init + [edges[|edges| - 1]];
      }
    }
  }

  /** With distinct targets, no vertex is counted twice. */
  lemma {:induction false} CountAtMostOne<V>(edges: seq<Edge<V>>, d: V)
    requires DistinctTargets(edges)
    ensures Count(edges, d) <= 1
  {
    if edges != [] {
      var init := edges[..|edges| - 1];
      assert DistinctTargets(init);
      CountAtMostOne(init, d);
      CountPositive(init, d);
      if edges[|edges| - 1].target == d {
        forall i | 0 <= i < |init| ensures Targets(init)[i] != d {
          assert edges[i] == init[i];
        }
      }
    }
  }

  /** Under the invariant, the scan from `k` reports the first source at or after `k` with an edge to `d`, once, or nothing. */
  lemma {:induction false} PredecessorsFromShape<V>(m: Adj<V>, order: seq<V>, d: V, k: nat)
    requires Wf(m) && k <= |order|
    requires forall i :: k <= i < |order| ==> order[i] in m
    ensures PredecessorsFrom(m, order, d, k) == [] <==>
      forall i :: k <= i < |order| ==> d !in Targets(m[order[i]])
    ensures PredecessorsFrom(m, order, d, k) != [] ==>
      exists i :: k <= i < |order| && PredecessorsFrom(m, order, d, k) == [order[i]]
        && d in Targets(m[order[i]])
        && forall j :: k <= j < i ==> d !in Targets(m[order[j]])
    decreases |order| - k
  {
    if k < |order| {
      var s := order[k];
      CountPositive(m[s], d);
      assert ListOk(m, s, m[s]);
      CountAtMostOne(m[s], d);
      if Count(m[s], d) == 0 {
        PredecessorsFromShape(m, order, d, k + 1);
        assert PredecessorsFrom(m, order, d, k) == PredecessorsFrom(m, order, d, k + 1);
        if PredecessorsFrom(m, order, d, k + 1) != [] {
          var i :| k + 1 <= i < |order| && PredecessorsFrom(m, order, d, k + 1) == [order[i]]
            && d in Targets(m[order[i]])
            && forall j :: k + 1 <= j < i ==> d !in Targets(m[order[j]]);
          assert forall j :: k <= j < i ==> d !in Targets(m[order[j]]);
        }
      } else {
        assert Repeat(s, 1) == [s];
        assert PredecessorsFrom(m, order, d, k) == [order[k]];
      }
    }
  }

  /** The key order lists every vertex exactly once (the model of the key-set iteration). */
  ghost predicate Enumerates<V>(order: seq<V>, m: Adj<V>) {
    && (forall i, j :: 0 <= i < j < |order| ==> order[i] != order[j])
    && (forall i :: 0 <= i < |order| ==> order[i] in m)
    && (forall v :: v in m ==> v in order)
  }

  /** Replacing the lists of existing vertices leaves the key order valid. */
  lemma EnumeratesSameKeys<V>(order: seq<V>, m: Adj<V>, m': Adj<V>)
    requires Enumerates(order, m) && m'.Keys == m.Keys
    ensures Enumerates(order, m')
  {
  }

  /** Registering a new vertex at the end of the key order keeps the key order valid. */
  lemma EnumeratesAppend<V>(order: seq<V>, m: Adj<V>, v: V, edges: seq<Edge<V>>)
    requires Enumerates(order, m) && v !in m
    ensures Enumerates(order + [v], m[v := edges])
  {
    var o := order + [v];
    forall u | u in m[v := edges] ensures u in o {
      if u != v {
        var i :| 0 <= i < |order| && order[i] == u;
        assert o[i] == u;
      } else {
        assert o[|order|] == u;
      }
    }
  }

  /**
    Under the invariant, predecessorsOfVertex answers nothing exactly when no
    vertex has an edge to `d`, and otherwise exactly one vertex: the first in
    key order that has an edge to `d`.
   */
  lemma PredecessorsFirst<V>(m: Adj<V>, order: seq<V>, d: V)
    requires Wf(m) && Enumerates(order, m)
    ensures Predecessors(m, order, d) == [] <==> forall s :: s in m ==> d !in Targets(m[s])
    ensures Predecessors(m, order, d) != [] ==>
      exists i :: 0 <= i < |order| && Predecessors(m, order, d) == [order[i]]
        && d in Targets(m[order[i]])
        && forall j :: 0 <= j < i ==> d !in Targets(m[order[j]])
  {
    PredecessorsFromShape(m, order, d, 0);
    if Predecessors(m, order, d) == [] {
      forall s | s in m ensures d !in Targets(m[s]) {
        var i :| 0 <= i < |order| && order[i] == s;
      }
    }
  }

  /**
    The early stop: a vertex with an edge to `d` that comes after another such
    vertex in key order is not reported.
   */
  lemma PredecessorsOmitsLater<V>(m: Adj<V>, order: seq<V>, d: V, i: nat, j: nat)
    requires Wf(m) && Enumerates(order, m)
    requires i < j < |order|
    requires d in Targets(m[order[i]]) && d in Targets(m[order[j]])
    ensures Predecessors(m, order, d) != []
    ensures order[j] !in Predecessors(m, order, d)
  {
    PredecessorsFirst(m, order, d);
    var k :| 0 <= k < |order| && Predecessors(m, order, d) == [order[k]]
      && d in Targets(m[order[k]])
      && forall l :: 0 <= l < k ==> d !in Targets(m[order[l]]);
    assert k <= i;
  }

  // ---------------------------------------------------------------------------
  // Path cost (costOfPath)
  // ---------------------------------------------------------------------------

  /** Each of the first `n` hops of `p` has an edge (a weight other than the -1 sentinel). */
  predicate HopsExist<V(==)>(m: Adj<V>, p: seq<V>, n: nat)
    requires n < |p|
  {
    n == 0 || (HopsExist(m, p, n - 1) && Weight(m, p[n - 1], p[n]) != -1)
  }

  /** The sum of the weights of the first `n` hops of `p`, accumulated front to back. */
  function HopSum<V(==)>(m: Adj<V>, p: seq<V>, n: nat): int
    requires n < |p|
  {
    if n == 0 then 0 else HopSum(m, p, n - 1) + Weight(m, p[n - 1], p[n])
  }

  /** The cost of a path: -1 for fewer than two vertices or a missing hop, otherwise the sum of its hop weights. */
  function PathCost<V(==)>(m: Adj<V>, p: seq<V>): int {
    if |p| < 2 || !HopsExist(m, p, |p| - 1) then -1 else HopSum(m, p, |p| - 1)
  }

  /** If the first `n` hops exist, each of them has an edge. */
  lemma {:induction false} HopsExistAt<V>(m: Adj<V>, p: seq<V>, n: nat, i: nat)
    requires i < n < |p|
    ensures HopsExist(m, p, n) ==> Weight(m, p[i], p[i + 1]) != -1
  {
    if i < n - 1 {
      HopsExistAt(m, p, n - 1, i);
    }
  }

  /** Hop `i` of `p` has an unknown endpoint or no edge. */
  ghost predicate HopMissing<V>(m: Adj<V>, p: seq<V>, i: nat)
    requires i + 1 < |p|
  {
    p[i] !in m || p[i + 1] !in m || p[i + 1] !in Targets(m[p[i]])
  }

  /** Under the invariant, the first `n` hops exist exactly when none of them is missing, and then their sum is not negative. */
  lemma {:induction false} HopsExistMeaning<V>(m: Adj<V>, p: seq<V>, n: nat)
    requires Wf(m) && n < |p|
    ensures HopsExist(m, p, n) <==> forall i :: 0 <= i < n ==> !HopMissing(m, p, i)
    ensures HopsExist(m, p, n) ==> HopSum(m, p, n) >= 0
  {
    if n > 0 {
      HopsExistMeaning(m, p, n - 1);
      WeightSentinel(m, p[n - 1], p[n]);
      assert Weight(m, p[n - 1], p[n]) == -1 <==> HopMissing(m, p, n - 1);
      assert (forall i :: 0 <= i < n ==> !HopMissing(m, p, i)) <==>
        (forall i :: 0 <= i < n - 1 ==> !HopMissing(m, p, i)) && !HopMissing(m, p, n - 1);
    }
  }

  /**
    Under the invariant, costOfPath returns -1 exactly when the path is too
    short or some hop has an unknown endpoint or no edge; otherwise the cost is
    a genuine non-negative sum, so -1 is unambiguous.
   */
  lemma PathCostSentinel<V>(m: Adj<V>, p: seq<V>)
    requires Wf(m)
    ensures PathCost(m, p) == -1 <==> |p| < 2 || exists i :: 0 <= i < |p| - 1 && HopMissing(m, p, i)
    ensures PathCost(m, p) != -1 ==> PathCost(m, p) >= 0
  {
    if |p| >= 2 {
      HopsExistMeaning(m, p, |p| - 1);
    }
  }

  /** Hop checks and hop sums depend only on the vertices they walk over. */
  lemma {:induction false} HopPrefix<V>(m: Adj<V>, p: seq<V>, r: seq<V>, n: nat)
    requires n < |p| && n < |r| && p[..n + 1] == r[..n + 1]
    ensures HopsExist(m, p, n) == HopsExist(m, r, n)
    ensures HopSum(m, p, n) == HopSum(m, r, n)
  {
    if n > 0 {
      assert p[..n] == r[..n] by {
        assert p[..n] == p[..n + 1][..n] && r[..n] == r[..n + 1][..n];
      }
      assert p[n - 1] == p[..n + 1][n - 1] && p[n] == p[..n + 1][n];
      assert r[n - 1] == r[..n + 1][n - 1] && r[n] == r[..n + 1][n];
      HopPrefix(m, p, r, n - 1);
    }
  }

  /** The hops of `p + q[1..]` past the joint are the hops of `q`. */
  lemma {:induction false} HopJoin<V>(m: Adj<V>, p: seq<V>, q: seq<V>, k: nat)
    requires |p| >= 1 && k < |q| && p[|p| - 1] == q[0]
    ensures HopsExist(m, p + q[1..], |p| - 1 + k) == (HopsExist(m, p, |p| - 1) && HopsExist(m, q, k))
    ensures HopSum(m, p + q[1..], |p| - 1 + k) == HopSum(m, p, |p| - 1) + HopSum(m, q, k)
  {
    var joined := p + q[1..];
    if k == 0 {
      assert joined[..|p|] == p[..|p|];
      HopPrefix(m, joined, p, |p| - 1);
    } else {
      HopJoin(m, p, q, k - 1);
      assert joined[|p| - 2 + k] == q[k - 1] && joined[|p| - 1 + k] == q[k];
    }
  }

  /**
    Under the invariant, the cost of two paths joined at a shared vertex is the
    sum of their costs, and -1 as soon as either of them is invalid.
   */
  lemma PathCostJoin<V>(m: Adj<V>, p: seq<V>, q: seq<V>)
    requires Wf(m) && |p| >= 2 && |q| >= 2 && p[|p| - 1] == q[0]
    ensures PathCost(m, p + q[1..]) ==
      if PathCost(m, p) == -1 || PathCost(m, q) == -1 then -1 else PathCost(m, p) + PathCost(m, q)
  {
    HopJoin(m, p, q, |q| - 1);
    HopsExistMeaning(m, p, |p| - 1);
    HopsExistMeaning(m, q, |q| - 1);
  }
}

# LarryGraph in Dafny

A model of `LarryGraph<V>`, a generic, mutable, weighted directed graph kept as an
adjacency list. It maps each vertex label to the ordered list of its outgoing edges,
and each edge is a target vertex with an integer weight.

The class keeps four invariants (`Adjacency.Wf`), and every mutator preserves them:
- no two edges in one list share a target;
- every weight is at least 0;
- a self-loop weighs 0;
- every edge target is itself a vertex.

Layout:

- `wrappers.dfy` (module `Wrappers`): `Option`. `None` stands for the `null` that
  `getNeighbors` returns for an unknown vertex.
- `adjacency.dfy` (module `Adjacency`): the `Edge` value, the invariant `Wf` and the
  weight lookup `Weight`. Also the specification of each mutation as a function on the
  abstract map (`WithVertex`, `WithEdge`, `WithoutEdge`, `Reweighed`, `WithoutVertex`),
  each with a lemma proving it keeps `Wf` and says which weights change.
- `queries.dfy` (module `Queries`): the specifications of the three queries
  (`Neighbors`, `Predecessors`, `PathCost`) and what they mean.
- `larry_graph.dfy` (module `Graph`): the class `LarryGraph`. Its field `adj` is the
  Java field `map`, and its field `order` is the iteration order of the map's key set.
  Each Java method is a method with the loops of the source, proved against the
  specification functions above.
- `clients.dfy` (module `Clients`): scenarios from the student tests, written as
  straight-line methods whose assertions follow from the method contracts alone.

Java's `HashMap` promises no key order. So `order` is only required to list every
vertex exactly once (`Queries.Enumerates`). `NewVertex`, `NewEdge` and `RemoveVertex`
promise nothing more about it after they succeed. `RemoveEdge` and `ChangeEdge` leave it
unchanged. `predecessorsOfVertex` is specified against whatever order it holds.

`predecessorsOfVertex` keeps its early `break`. The scan stops after the first source
vertex, in key order, that has an edge to the destination. That source is reported once
per matching edge, so under the invariant it appears exactly once. Later sources with
an edge to the destination are omitted (`Queries.PredecessorsOmitsLater`).

For vertex removal the model follows the code (LarryGraph.java:205-219): every source
vertex's list is stripped of edges to the removed vertex, and no scan stops early. The early stop is only in `predecessorsOfVertex`.

## Model

| member | source | states |
|---|---|---|
| Graph.LarryGraph.constructor | LarryGraph.java:45-47 | a new graph has no vertices and satisfies the invariant |
| Graph.LarryGraph.NewVertex | LarryGraph.java:56-67 | returns true iff the vertex was absent; the new state is `WithVertex` of the old one (empty list for a new vertex, nothing else changes); the invariant is kept |
| Graph.LarryGraph.IsVertex | LarryGraph.java:75-80 | true iff the label is a key of the map |
| Graph.LarryGraph.Vertices | LarryGraph.java:87-94 | the returned collection is the key order itself, so it holds exactly the vertices, each once, in the order `predecessorsOfVertex` scans them |
| Graph.LarryGraph.NewEdge | LarryGraph.java:105-134 | returns true iff the weight is non-negative, a self-loop weighs 0 and no f->t edge exists; on success the state is `WithEdge` (endpoints registered as `NewVertex` does, then one edge appended), otherwise nothing changes; the invariant is kept |
| Graph.LarryGraph.EdgeWeight | LarryGraph.java:143-156 | the result is `Weight` of the current map, found by the same first-match scan |
| Graph.LarryGraph.RemoveEdge | LarryGraph.java:166-188 | returns true iff both endpoints are vertices and f's list targets t; on success the state is `WithoutEdge`, otherwise nothing changes; the key order and the invariant are kept |
| Graph.LarryGraph.RemoveVertex | LarryGraph.java:197-221 | returns true iff the vertex existed; on success the state is `WithoutVertex` (every list stripped of edges to it, then its key removed), otherwise nothing changes; the invariant is kept |
| Graph.LarryGraph.ChangeEdge | LarryGraph.java:232-258 | returns true iff the new weight is admissible, both endpoints are vertices and f->t exists; on success only f's list changes, to `Reweighed`; the key order and the invariant are kept |
| Graph.LarryGraph.GetNeighbors | LarryGraph.java:266-286 | the result is `Neighbors`: `None` for an unknown vertex, else the targets in list order |
| Graph.LarryGraph.PredecessorsOf | LarryGraph.java:294-320 | the result is `Predecessors` over the current key order, including the stop after the first contributing source; the map is not changed |
| Graph.LarryGraph.CostOfPath | LarryGraph.java:328-350 | the result is `PathCost`, computed hop by hop through `EdgeWeight` with the same early returns; the map is not changed |
| Graph.StripEdges | LarryGraph.java:208-216 | the iterator-removal loop leaves exactly `Strip(edges, v)`: the edges not targeting v, in their original order |
| Graph.Erase | LarryGraph.java:219 | removing a key from the key order leaves the other keys, each once, and never the removed one |
| Graph.EnumeratesErase | LarryGraph.java:219 | after a vertex is removed, the erased key order lists every remaining vertex exactly once |
| Graph.StrippedStep | LarryGraph.java:205-217 | one pass of the outer removal loop strips the current source's list and no other |
| Graph.StrippedAll | LarryGraph.java:205-219 | after the outer loop over every key, dropping the vertex yields `WithoutVertex` |
| Adjacency.Targets | LarryGraph.java:119-122 | the targets of a list, position by position |
| Adjacency.IndexOf | LarryGraph.java:150-153 | the first position whose edge targets t; `None` iff no edge of the list targets t |
| Adjacency.WeightSentinel | LarryGraph.java:143-156 | under the invariant the weight is -1 iff an endpoint is not a vertex or no f->t edge exists, and is otherwise at least 0 |
| Adjacency.WeightOfStored | LarryGraph.java:150-153 | looking up a stored edge's target returns that edge's weight |
| Adjacency.WeightByMembership | LarryGraph.java:143-156 | the weight is the weight of the one stored f->t edge when it exists, else -1 |
| Adjacency.SameEdgesSameWeight | LarryGraph.java:150-153 | two well-formed maps whose lists for f hold the same f->b edges report the same weight for f->b |
| Adjacency.TargetOfMember | LarryGraph.java:119-122 | an edge of a list contributes its target to the list's targets |
| Adjacency.WithVertexKeeps | LarryGraph.java:56-67 | adding a vertex keeps the invariant, adds exactly that key with an empty list when new, and leaves every list and weight as it was |
| Adjacency.WithEdgeKeeps | LarryGraph.java:105-133 | an admitted insertion keeps the invariant, registers both endpoints, appends exactly `Edge(t, w)` to f's list, sets the f->t weight to w and changes no other list or weight |
| Adjacency.ReplaceListKeeps | LarryGraph.java:174-186 | replacing f's list by one valid for f keeps the invariant and the vertices, and no weight of an edge leaving another vertex changes |
| Adjacency.RemoveAt | LarryGraph.java:183 | removing one position shortens the list by one and adds no edge |
| Adjacency.WithoutEdgeKeeps | LarryGraph.java:166-188 | removing f->t keeps the invariant and the keys; afterwards f->t weighs -1 and a second removal is refused; no other weight changes |
| Adjacency.WithoutEdgeUndoes | LarryGraph.java:105-188 | removing an edge just added between existing vertices restores the map |
| Adjacency.ReweighedAbsent | LarryGraph.java:250-257 | when no edge targets t, the weight-change loop changes nothing |
| Adjacency.ReweighedKeeps | LarryGraph.java:232-258 | an accepted weight change keeps the invariant and the keys, sets the f->t weight to the new value and changes no other weight |
| Adjacency.ReweighedOthers | LarryGraph.java:250-255 | a weight change aimed at t neither adds nor drops any edge to another target |
| Adjacency.StripMember | LarryGraph.java:210-216 | an edge survives stripping iff it was in the list and does not target the removed vertex |
| Adjacency.StripConcat | LarryGraph.java:210-216 | stripping works piecewise over a concatenation, so surviving edges keep their relative order |
| Adjacency.StripAbsent | LarryGraph.java:210-216 | a list with no edge to the vertex is left unchanged |
| Adjacency.StripDistinct | LarryGraph.java:210-216 | stripping keeps targets distinct |
| Adjacency.WithoutVertexKeeps | LarryGraph.java:197-221 | removing a vertex keeps the invariant, drops exactly that key, leaves no edge targeting it, and keeps every weight between surviving vertices |
| Adjacency.WithoutVertexUndoes | LarryGraph.java:56-67 | removing a vertex just added as new restores the map |
| Queries.NeighborsMeaning | LarryGraph.java:266-286 | `None` iff the vertex is unknown; otherwise x is listed iff the edge v->x has a weight, and no neighbour is listed twice |
| Queries.CountPositive | LarryGraph.java:307-313 | a source is added at least once iff its list targets the destination |
| Queries.CountAtMostOne | LarryGraph.java:307-313 | under distinct targets a source is added at most once |
| Queries.PredecessorsFromShape | LarryGraph.java:301-318 | the scan from a position yields nothing iff no later key targets d, else exactly the first such key, once |
| Queries.EnumeratesAppend | LarryGraph.java:64 | appending a new key to the key order keeps it valid for the extended map |
| Queries.PredecessorsFirst | LarryGraph.java:294-320 | the result is empty iff no vertex has an edge to d; otherwise it is exactly the first source in key order with such an edge |
| Queries.PredecessorsOmitsLater | LarryGraph.java:315-317 | when two sources have edges to d, the later one in key order is not reported |
| Queries.HopsExistAt | LarryGraph.java:333-344 | when the first n hops exist, each of them has an edge |
| Queries.HopsExistMeaning | LarryGraph.java:337-344 | the first n hops exist iff none of them is missing, and then their sum is at least 0 |
| Queries.PathCostSentinel | LarryGraph.java:328-350 | the cost is -1 iff the path is shorter than two or some hop is missing; otherwise it is at least 0 |
| Queries.HopPrefix | LarryGraph.java:333-348 | the hop checks and the accumulated sum depend only on the path prefix already visited |
| Queries.HopJoin | LarryGraph.java:333-348 | the hops of two joined paths exist iff those of both parts do, and their sums add |
| Queries.PathCostJoin | LarryGraph.java:328-350 | the cost of two paths joined at a shared vertex is the sum of their costs, and -1 when either part is invalid |
| Clients.ChainCost | StudentTests.java:94-104 | with edges 1->2 of weight 5 and 2->3 of weight 10, the path [1, 2, 3] costs 15 |

## Left out

- Null checks and `IllegalArgumentException` (LarryGraph.java:57-58, 76-77, 106-107 and the like): Dafny type parameters have no null value, so these paths cannot arise.
- `toString` (LarryGraph.java:352-365): it builds a diagnostic string through `V.toString` and `StringBuilder`, and promises nothing.
- Hashing and the iteration order of `HashMap`: the key set's order is the field `order`. It is an arbitrary list of the vertices, each once.
- Graph.LarryGraph.NewVertex: after adding a new vertex, promises only that `order` lists every vertex once, not where the new vertex appears, because `HashMap` fixes no position.
- Graph.LarryGraph.NewEdge: after a successful insertion, promises only that `order` lists every vertex once, for the same reason.
- Graph.LarryGraph.RemoveVertex: after a successful removal, promises only that `order` lists the remaining vertices once each, for the same reason.
- Graph.LarryGraph.CostOfPath: sums with unbounded integers and does not model the wrap-around of Java's 32-bit `cost += edgeWeight` (LarryGraph.java:347).
- Aliasing of the mutable inner `Edge` object (`edge.weight = newWeight`, LarryGraph.java:252): an edge is a value, and a weight change replaces it within f's list.
- Java's 32-bit `int` weights are modelled as unbounded integers. The model also accepts weights above 2^31-1, which a Java caller cannot pass; the invariant keeps them non-negative.
- StudentTests.java is a JUnit harness. It is not modelled; a few of its situations are restated in `clients.dfy`.

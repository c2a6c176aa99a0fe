/**
  The vertex orders the Hamiltonian path counter can use: the greedy degree
  order (repeatedly take a vertex of largest, or smallest, degree in the
  subgraph induced by the vertices not yet taken) and the dispatch of
  get_count from a GraphOrder to the vertex order and traversal it hands to
  the path enumerator.
*/
module Util {
  import opened Wrappers
  import opened Seqs
  import opened Graphs
  import opened Sorting
  import opened Widths
  import opened Decoding
  import opened Pathwidth

  /** The degree a is strictly better than b: larger for max, smaller for min. */
  predicate Prefers(decreasing: bool, a: nat, b: nat)
  {
    if decreasing then a > b else a < b
  }

  /** v is a vertex of the subgraph induced by keep and no vertex of it has a
      strictly better degree there. */
  ghost predicate Extreme<V>(adj: map<V, seq<V>>, keep: set<V>, v: V, decreasing: bool)
  {
    v in keep && forall w | w in keep :: !Prefers(decreasing, Degree(adj, keep, w), Degree(adj, keep, v))
  }

  /** discrim(degs, key=lambda _: _[1])[0]: max or min by degree, scanning the
      vertices of the induced subgraph in vertex order and keeping the first
      vertex that reaches the extreme, as Python's max and min do. */
  method Discrim<V(==)>(nodes: seq<V>, adj: map<V, seq<V>>, keep: set<V>, decreasing: bool) returns (nxt: V)
    requires keep != {} && keep <= Elems(nodes)
    ensures Extreme(adj, keep, nxt, decreasing)
    ensures exists k | 0 <= k < |nodes| && nodes[k] == nxt ::
      forall i | 0 <= i < k && nodes[i] in keep :: Prefers(decreasing, Degree(adj, keep, nxt), Degree(adj, keep, nodes[i]))
  {
    var best: Option<V> := None;
    ghost var bk: nat := 0;
    for j := 0 to |nodes|
      invariant best.None? ==> forall i | 0 <= i < j :: nodes[i] !in keep
      invariant best.Some? ==> bk < j && nodes[bk] == best.value && best.value in keep
      invariant best.Some? ==> forall i | 0 <= i < bk && nodes[i] in keep ::
        Prefers(decreasing, Degree(adj, keep, best.value), Degree(adj, keep, nodes[i]))
      invariant best.Some? ==> forall i | bk <= i < j && nodes[i] in keep ::
        !Prefers(decreasing, Degree(adj, keep, nodes[i]), Degree(adj, keep, best.value))
    {
      var v := nodes[j];
      if v in keep && (best.None? || Prefers(decreasing, Degree(adj, keep, v), Degree(adj, keep, best.value))) {
        best, bk := Some(v), j;
      }
    }
    var w := Pick(keep);
    assert w in nodes;
    nxt := best.value;
    forall u | u in keep ensures !Prefers(decreasing, Degree(adj, keep, u), Degree(adj, keep, nxt)) {
      assert u in nodes;
      var i :| 0 <= i < |nodes| && nodes[i] == u;
    }
  }

  /** degree_order(gph, decreasing): every vertex exactly once, each taken with an
      extreme degree in the subgraph induced by the vertices not yet taken. The
      graph itself is left as it is: the loop works on the set nds, whose induced
      subgraph is xgph. */
  method DegreeOrder<V(==)>(g: Graph<V>, decreasing: bool) returns (order: seq<V>)
    requires g.Valid()
    ensures Distinct(order) && Elems(order) == Elems(g.nodes) && |order| == |g.nodes|
    ensures forall i | 0 <= i < |order| :: Extreme(g.adj, Elems(g.nodes) - Elems(order[..i]), order[i], decreasing)
  {
    var nodes, adj := g.nodes, g.adj;
    var nds := Elems(nodes);
    order := [];
    while nds != {}
      invariant nds == Elems(nodes) - Elems(order)
      invariant Distinct(order) && Elems(order) <= Elems(nodes)
      invariant forall i | 0 <= i < |order| :: Extreme(adj, Elems(nodes) - Elems(order[..i]), order[i], decreasing)
      decreases |nds|
    {
      var nxt := Discrim(nodes, adj, nds, decreasing);
      OrderStep(nodes, adj, order, nxt, decreasing);
      order := order + [nxt];
      nds := nds - {nxt};
    }
    DistinctSameElems(order, nodes);
  }

  /** Taking one more extreme vertex keeps the order duplicate-free and every
      vertex in it extreme among those left when it was taken. */
  lemma OrderStep<V>(nodes: seq<V>, adj: map<V, seq<V>>, prev: seq<V>, nxt: V, decreasing: bool)
    requires Distinct(prev) && Elems(prev) <= Elems(nodes)
    requires forall i | 0 <= i < |prev| :: Extreme(adj, Elems(nodes) - Elems(prev[..i]), prev[i], decreasing)
    requires Extreme(adj, Elems(nodes) - Elems(prev), nxt, decreasing)
    ensures Distinct(prev + [nxt]) && Elems(prev + [nxt]) <= Elems(nodes)
    ensures Elems(nodes) - Elems(prev + [nxt]) == Elems(nodes) - Elems(prev) - {nxt}
    ensures forall i | 0 <= i < |prev + [nxt]| ::
      Extreme(adj, Elems(nodes) - Elems((prev + [nxt])[..i]), (prev + [nxt])[i], decreasing)
  {
    var order := prev + [nxt];
    assert Elems(order) == Elems(prev) + {nxt};
    forall i | 0 <= i < |order| ensures Extreme(adj, Elems(nodes) - Elems(order[..i]), order[i], decreasing) {
      if i == |prev| {
        assert order[..i] == prev;
      } else {
        assert order[..i] == prev[..i] && order[i] == prev[i];
      }
    }
  }

  /** The orders get_count accepts. */
  datatype GraphOrder = Default | Increasing | Decreasing | PathWidth | Dfs | Bfs

  /** Where the vertex order comes from. */
  datatype Strategy = ByDegree(decreasing: bool) | ByPathWidth | BySorted

  /** The match in get_count: which vertex order and which traversal string. */
  function Dispatch(order: GraphOrder): (r: (Strategy, string))
    ensures r.0.ByDegree? <==> order in {Increasing, Decreasing, Dfs, Bfs}
    ensures r.0.ByDegree? ==> (r.0.decreasing <==> order != Increasing)
    ensures r.0 == ByPathWidth <==> order == PathWidth
    ensures r.0 == BySorted <==> order == Default
    ensures r.1 in {"as-is", "dfs", "bfs"}
    ensures r.1 == "dfs" <==> order == Dfs
    ensures r.1 == "bfs" <==> order == Bfs
  {
    match order
    case Increasing => (ByDegree(false), "as-is")
    case Decreasing => (ByDegree(true), "as-is")
    case PathWidth => (ByPathWidth, "as-is")
    case Dfs => (ByDegree(true), "dfs")
    case Bfs => (ByDegree(true), "bfs")
    case _ => (BySorted, "as-is")
  }

  /** The vertex order (edges) and traversal get_count hands to the path
      enumerator. Each order lists every vertex exactly once; a degree order takes
      extreme degrees greedily, the path-width order is the one pathwidth_order
      reads off the solver's model, and the fallback is the sorted vertex list. */
  method EdgeOrder(g: Graph<int>, order: GraphOrder, oracle: Wcnf -> Option<seq<int>>)
    returns (r: Result<(seq<int>, string), SolveError>, ghost vsp: VertexSeparation?<int>)
    requires g.Valid() && Sound(oracle)
    ensures r.Failure? ==> order == PathWidth && r.error == Unsatisfiable
    ensures r.Success? ==> r.value.1 == Dispatch(order).1
    ensures r.Success? ==> Distinct(r.value.0) && Elems(r.value.0) == Elems(g.nodes) && |r.value.0| == |g.nodes|
    ensures r.Success? && Dispatch(order).0.ByDegree? ==> forall i | 0 <= i < |r.value.0| ::
      Extreme(g.adj, Elems(g.nodes) - Elems(r.value.0[..i]), r.value.0[i], Dispatch(order).0.decreasing)
    ensures order == PathWidth ==>
      && vsp != null && fresh(vsp) && vsp.Valid()
      && vsp.nodes == g.nodes && vsp.adj == g.adj
      && r == (match OrderOf(vsp.Solve(oracle))
               case Failure(e) => Failure(e)
               case Success(p) => Success((p.1, "as-is")))
    ensures r.Success? && order == PathWidth ==>
      Width(g.adj, r.value.0, |g.nodes|, false) <= vsp.Solve(oracle).value.0 <= |g.nodes|
    ensures order == Default ==> r == Success((SortInts(g.nodes), "as-is"))
  {
    vsp := null;
    var (strategy, traversal) := Dispatch(order);
    match strategy
    case ByDegree(decreasing) =>
      var edges := DegreeOrder(g, decreasing);
      r := Success((edges, traversal));
    case ByPathWidth =>
      var res;
      res, vsp := PathwidthOrder(g, oracle);
      match res {
        case Failure(e) =>
          r := Failure(e);
        case Success((_, edges)) =>
          r := Success((edges, traversal));
      }
    case BySorted =>
      var edges := SortInts(g.nodes);
      MultisetDistinct(g.nodes, edges);
      assert Elems(edges) == Elems(g.nodes) by {
        forall x ensures x in edges <==> x in g.nodes {
          assert x in edges <==> x in multiset(edges);
          assert x in g.nodes <==> x in multiset(g.nodes);
        }
      }
      r := Success((edges, traversal));
  }
}

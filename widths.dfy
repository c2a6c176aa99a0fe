/**
  The vertex separation of a layout: for every prefix of the vertex order the
  size of its frontier, and the largest of those sizes. Two frontiers are in
  use: Kinnersley's (prefix vertices with a neighbour outside the prefix, as
  separation counts) and the reversed one (vertices outside the prefix with a
  neighbour in it, as alt_separation counts).
*/
module Widths {
  import opened Seqs
  import opened Graphs

  /** bad in separation: the vertices of the prefix whose neighbours are not all in it. */
  function Inner<V(==)>(adj: map<V, seq<V>>, prefix: seq<V>): set<V>
  {
    set v | v in prefix && !(Elems(Nbr(adj, v)) <= Elems(prefix))
  }

  /** bad in alt_separation: the neighbours of prefix vertices that lie outside the prefix. */
  function Outer<V(==)>(adj: map<V, seq<V>>, prefix: seq<V>): set<V>
  {
    set v, w | v in prefix && w in Nbr(adj, v) && w !in prefix :: w
  }

  function Frontier<V(==)>(adj: map<V, seq<V>>, prefix: seq<V>, alt: bool): set<V>
  {
    if alt then Outer(adj, prefix) else Inner(adj, prefix)
  }

  function Max(a: int, b: int): int
  {
    if a < b then b else a
  }

  /** val after the first k rounds of the loop: the largest frontier among the prefixes of length 1..k. */
  function Width<V(==)>(adj: map<V, seq<V>>, order: seq<V>, k: nat, alt: bool): nat
    requires k <= |order|
  {
    if k == 0 then 0 else Max(|Frontier(adj, order[..k], alt)|, Width(adj, order, k - 1, alt))
  }

  /** Width is the maximum: no prefix exceeds it, and some prefix reaches it unless there is none. */
  lemma {:induction false} WidthIsMax<V>(adj: map<V, seq<V>>, order: seq<V>, k: nat, alt: bool)
    requires k <= |order|
    ensures forall j | 1 <= j <= k :: |Frontier(adj, order[..j], alt)| <= Width(adj, order, k, alt)
    ensures k == 0 ==> Width(adj, order, k, alt) == 0
    ensures k > 0 ==> exists j | 1 <= j <= k :: |Frontier(adj, order[..j], alt)| == Width(adj, order, k, alt)
  {
    if k > 0 {
      WidthIsMax(adj, order, k - 1, alt);
      if |Frontier(adj, order[..k], alt)| < Width(adj, order, k - 1, alt) {
        var j :| 1 <= j <= k - 1 && |Frontier(adj, order[..j], alt)| == Width(adj, order, k - 1, alt);
      }
    }
  }

  /** A bound on every prefix frontier bounds the width. */
  lemma {:induction false} WidthBound<V>(adj: map<V, seq<V>>, order: seq<V>, k: nat, alt: bool, b: nat)
    requires k <= |order|
    requires forall j | 1 <= j <= k :: |Frontier(adj, order[..j], alt)| <= b
    ensures Width(adj, order, k, alt) <= b
  {
    if k > 0 {
      WidthBound(adj, order, k - 1, alt, b);
    }
  }

  /** Both widths are at most the number of vertices, and 0 when no vertex has a neighbour. */
  lemma WidthWithin<V>(nodes: seq<V>, adj: map<V, seq<V>>, order: seq<V>, alt: bool)
    requires WellFormed(nodes, adj) && Elems(order) <= Elems(nodes)
    ensures Width(adj, order, |order|, alt) <= |nodes|
    ensures (forall v | v in adj :: adj[v] == []) ==> Width(adj, order, |order|, alt) == 0
  {
    DistinctCard(nodes);
    forall j | 1 <= j <= |order| ensures |Frontier(adj, order[..j], alt)| <= |nodes| {
      assert Frontier(adj, order[..j], alt) <= Elems(nodes);
      SubsetCard(Frontier(adj, order[..j], alt), Elems(nodes));
    }
    WidthBound(adj, order, |order|, alt, |nodes|);
    if forall v | v in adj :: adj[v] == [] {
      forall j | 1 <= j <= |order| ensures |Frontier(adj, order[..j], alt)| <= 0 {
        assert Frontier(adj, order[..j], alt) == {};
      }
      WidthBound(adj, order, |order|, alt, 0);
    }
  }
}

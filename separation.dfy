/**
  separation and alt_separation: the vertex separation of the layout that
  lists the vertices in ascending order, under the two frontier conventions.
*/
module Separation {
  import opened Seqs
  import opened Graphs
  import opened Sorting
  import opened Widths

  lemma OuterSource<V>(adj: map<V, seq<V>>, prefix: seq<V>, w: V) returns (v: V)
    requires w in Outer(adj, prefix)
    ensures v in prefix && w in Nbr(adj, v) && w !in prefix
  {
    v :| v in prefix && w in Nbr(adj, v) && w !in prefix;
  }

  lemma OuterIntro<V>(adj: map<V, seq<V>>, prefix: seq<V>, v: V, w: V)
    requires v in prefix && w in Nbr(adj, v) && w !in prefix
    ensures w in Outer(adj, prefix)
  {
  }

  /** The frontiers written over the set of prefix vertices, as the loops compute them. */
  lemma FrontierSets(adj: map<int, seq<int>>, prefix: seq<int>)
    ensures Inner(adj, prefix) == set v | v in Elems(prefix) && !(Elems(Nbr(adj, v)) <= Elems(prefix))
    ensures Outer(adj, prefix) == set v, w | v in Elems(prefix) && w in Nbr(adj, v) && w !in Elems(prefix) :: w
  {
    var t := Elems(prefix);
    var o := set v, w | v in t && w in Nbr(adj, v) && w !in t :: w;
    forall w | w in o ensures w in Outer(adj, prefix) {
      var v :| v in t && w in Nbr(adj, v) && w !in t;
      OuterIntro(adj, prefix, v, w);
    }
    forall w | w in Outer(adj, prefix) ensures w in o {
      var v := OuterSource(adj, prefix, w);
      assert v in t && w !in t;
    }
  }

  /** One round of the loop: bad is the frontier of the next prefix, so val grows to the next width. */
  lemma InnerStep(adj: map<int, seq<int>>, order: seq<int>, k: nat, t: set<int>, bad: set<int>)
    requires k < |order| && t == Elems(order[..k + 1])
    requires bad == set v | v in t && !(Elems(Nbr(adj, v)) <= t)
    ensures Width(adj, order, k + 1, false) == Max(|bad|, Width(adj, order, k, false))
  {
    FrontierSets(adj, order[..k + 1]);
  }

  /** One round of the loop: bad is the frontier of the next prefix, so val grows to the next width. */
  lemma OuterStep(adj: map<int, seq<int>>, order: seq<int>, k: nat, t: set<int>, bad: set<int>)
    requires k < |order| && t == Elems(order[..k + 1])
    requires bad == set v, w | v in t && w in Nbr(adj, v) && w !in t :: w
    ensures Width(adj, order, k + 1, true) == Max(|bad|, Width(adj, order, k, true))
  {
    FrontierSets(adj, order[..k + 1]);
  }

  lemma SortedLayout(nodes: seq<int>, adj: map<int, seq<int>>)
    requires WellFormed(nodes, adj)
    ensures |SortInts(nodes)| == |nodes| && Elems(SortInts(nodes)) <= Elems(nodes)
  {
    var s := SortInts(nodes);
    assert |s| == |multiset(s)| == |multiset(nodes)| == |nodes|;
    forall x | x in s ensures x in nodes {
      assert x in multiset(s);
    }
  }

  /** separation(gph): the largest number of vertices, over the prefixes of the sorted
      vertices, that are in the prefix and have a neighbour outside it. */
  method Separation(g: Graph<int>) returns (val: nat)
    requires g.Valid()
    ensures val == Width(g.adj, SortInts(g.nodes), |g.nodes|, false)
    ensures val <= |g.nodes|
    ensures (forall v | v in g.adj :: g.adj[v] == []) ==> val == 0
  {
    var nodes, adj := g.nodes, g.adj;
    var snodes := SortInts(nodes);
    SortedLayout(nodes, adj);
    val := 0;
    for ind := 0 to |nodes|
      invariant val == Width(adj, snodes, ind, false)
    {
      var tnodes := Elems(snodes[..ind + 1]);
      var bad := set node | node in tnodes && !(Elems(Nbr(adj, node)) <= tnodes);
      InnerStep(adj, snodes, ind, tnodes, bad);
      val := Max(|bad|, val);
    }
    WidthWithin(nodes, adj, snodes, false);
    assert (forall v | v in adj :: adj[v] == []) ==> val == 0;
  }

  /** alt_separation(gph): the largest number of vertices, over the prefixes of the sorted
      vertices, that are outside the prefix and have a neighbour in it. */
  method AltSeparation(g: Graph<int>) returns (val: nat)
    requires g.Valid()
    ensures val == Width(g.adj, SortInts(g.nodes), |g.nodes|, true)
    ensures val <= |g.nodes|
    ensures (forall v | v in g.adj :: g.adj[v] == []) ==> val == 0
  {
    var nodes, adj := g.nodes, g.adj;
    var snodes := SortInts(nodes);
    SortedLayout(nodes, adj);
    val := 0;
    for ind := 0 to |nodes|
      invariant val == Width(adj, snodes, ind, true)
    {
      var tnodes := Elems(snodes[..ind + 1]);
      var bad := set node, nbr | node in tnodes && nbr in Nbr(adj, node) && nbr !in tnodes :: nbr;
      OuterStep(adj, snodes, ind, tnodes, bad);
      val := Max(|bad|, val);
    }
    WidthWithin(nodes, adj, snodes, true);
    assert (forall v | v in adj :: adj[v] == []) ==> val == 0;
  }
}

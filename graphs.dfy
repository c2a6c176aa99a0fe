/**
  Undirected graphs as the generators and orderers use them: vertices in
  insertion order and, for every vertex, its neighbours in insertion order,
  the way a networkx Graph keeps its adjacency dictionaries.
*/
module Graphs {
  import opened Seqs

  /** The neighbours of a, in insertion order; an absent vertex has none. */
  function Nbr<V>(adj: map<V, seq<V>>, a: V): seq<V>
  {
    if a in adj then adj[a] else []
  }

  /** a and b are joined by an edge. */
  predicate Edge<V>(adj: map<V, seq<V>>, a: V, b: V)
  {
    b in Nbr(adj, a)
  }

  /** The adjacency after recording b as a neighbour of a: a key that is already
      present keeps its position, a new one goes last. */
  function Link<V>(adj: map<V, seq<V>>, a: V, b: V): (r: map<V, seq<V>>)
    ensures r.Keys == adj.Keys + {a}
    ensures Edge(r, a, b)
  {
    adj[a := if b in Nbr(adj, a) then Nbr(adj, a) else Nbr(adj, a) + [b]]
  }

  /** Linking adds the one edge end a-b and nothing else. */
  lemma LinkEdges<V>(adj: map<V, seq<V>>, a: V, b: V, x: V, y: V)
    ensures Edge(Link(adj, a, b), x, y) <==> Edge(adj, x, y) || (x == a && y == b)
  {
  }

  /** The shape every graph has: distinct vertices, one adjacency list per vertex,
      duplicate-free lists, and every edge recorded at both ends. */
  ghost predicate WellFormed<V>(nodes: seq<V>, adj: map<V, seq<V>>)
  {
    && Distinct(nodes)
    && (forall v | v in adj :: v in nodes)
    && (forall v | v in nodes :: v in adj)
    && (forall v | v in adj :: Distinct(adj[v]))
    && Symmetric(adj)
  }

  /** Every edge is recorded at both ends. */
  ghost predicate Symmetric<V>(adj: map<V, seq<V>>)
  {
    forall v, w | v in adj && w in adj[v] :: w in adj && v in adj[w]
  }

  /** Every vertex was entered through an edge, so every vertex has a neighbour. */
  ghost predicate EdgeInduced<V>(adj: map<V, seq<V>>)
  {
    forall v | v in adj :: adj[v] != []
  }

  /** How many elements of s lie in keep. */
  function CountIn<V>(s: seq<V>, keep: set<V>): (r: nat)
    ensures r <= |s|
  {
    if s == [] then 0 else CountIn(s[..|s| - 1], keep) + (if s[|s| - 1] in keep then 1 else 0)
  }

  /** The degree of v in the subgraph induced by keep, counted the networkx way:
      one for each neighbour in keep, and a self-loop once more. */
  function Degree<V>(adj: map<V, seq<V>>, keep: set<V>, v: V): nat
  {
    CountIn(Nbr(adj, v), keep) + (if v in Nbr(adj, v) then 1 else 0)
  }

  class Graph<V(==)> {
    const name: string
    var nodes: seq<V>
    var adj: map<V, seq<V>>

    ghost predicate Valid()
      reads this
    {
      WellFormed(nodes, adj)
    }

    /** An empty graph with the given name. */
    constructor (name: string)
      ensures Valid() && this.name == name && nodes == [] && adj == map[]
    {
      this.name := name;
      nodes := [];
      adj := map[];
    }

    /** Adds the edge u-v, entering u and then v as vertices when they are new. */
    method AddEdge(u: V, v: V)
      requires Valid()
      modifies this
      ensures Valid()
      ensures nodes == old(nodes) + (if u in old(adj) then [] else [u])
                                  + (if v in old(adj) || v == u then [] else [v])
      ensures adj == Link(Link(old(adj), u, v), v, u)
      ensures forall a, b :: Edge(adj, a, b) <==> Edge(old(adj), a, b) || (a == u && b == v) || (a == v && b == u)
      ensures EdgeInduced(old(adj)) ==> EdgeInduced(adj)
    {
      var nodes', adj' := AddedNodes(nodes, adj, u, v), Link(Link(adj, u, v), v, u);
      AddEdgeEdges(adj, u, v, adj');
      AddEdgeWellFormed(nodes, adj, u, v, nodes', adj');
      nodes, adj := nodes', adj';
    }
  }

  /** Linking both ends adds the edge u-v in both directions and nothing else. */
  lemma AddEdgeEdges<V>(adj: map<V, seq<V>>, u: V, v: V, adj': map<V, seq<V>>)
    requires adj' == Link(Link(adj, u, v), v, u)
    ensures forall a, b :: Edge(adj', a, b) <==> Edge(adj, a, b) || (a == u && b == v) || (a == v && b == u)
    ensures EdgeInduced(adj) ==> EdgeInduced(adj')
  {
    forall a, b ensures Edge(adj', a, b) <==> Edge(adj, a, b) || (a == u && b == v) || (a == v && b == u) {
      LinkEdges(adj, u, v, a, b);
      LinkEdges(Link(adj, u, v), v, u, a, b);
    }
  }

  /** The vertex list after add_edge(u, v): u, then v, appended when new. */
  function AddedNodes<V>(nodes: seq<V>, adj: map<V, seq<V>>, u: V, v: V): seq<V>
  {
    nodes + (if u in adj then [] else [u]) + (if v in adj || v == u then [] else [v])
  }

  /** Adding an edge keeps a graph well formed. */
  lemma AddEdgeWellFormed<V>(nodes: seq<V>, adj: map<V, seq<V>>, u: V, v: V, nodes': seq<V>, adj': map<V, seq<V>>)
    requires WellFormed(nodes, adj)
    requires nodes' == AddedNodes(nodes, adj, u, v) && adj' == Link(Link(adj, u, v), v, u)
    ensures WellFormed(nodes', adj')
  {
    AddedNodesDistinct(nodes, adj, u, v, nodes');
    AddedKeys(nodes, adj, u, v, nodes', adj');
    LinkedLists(adj, u, v, adj');
    LinkedSymmetric(adj, u, v, adj');
  }

  lemma AddedKeys<V>(nodes: seq<V>, adj: map<V, seq<V>>, u: V, v: V, nodes': seq<V>, adj': map<V, seq<V>>)
    requires forall x | x in adj :: x in nodes
    requires forall x | x in nodes :: x in adj
    requires nodes' == AddedNodes(nodes, adj, u, v) && adj' == Link(Link(adj, u, v), v, u)
    ensures forall x | x in adj' :: x in nodes'
    ensures forall x | x in nodes' :: x in adj'
  {
    assert adj'.Keys == adj.Keys + {u, v};
    forall x | x in adj' ensures x in nodes' {
      if x != u && x != v { assert x in nodes; }
    }
    forall x | x in nodes' ensures x in adj' {
      if x != u && x != v { assert x in nodes; }
    }
  }

  lemma LinkedLists<V>(adj: map<V, seq<V>>, u: V, v: V, adj': map<V, seq<V>>)
    requires forall y | y in adj :: Distinct(adj[y])
    requires adj' == Link(Link(adj, u, v), v, u)
    ensures forall x | x in adj' :: Distinct(adj'[x])
  {
    forall x | x in adj' ensures Distinct(adj'[x]) {
      LinkedDistinct(adj, u, v, x);
    }
  }

  lemma LinkedSymmetric<V>(adj: map<V, seq<V>>, u: V, v: V, adj': map<V, seq<V>>)
    requires Symmetric(adj)
    requires adj' == Link(Link(adj, u, v), v, u)
    ensures Symmetric(adj')
  {
    forall x, w | x in adj' && w in adj'[x] ensures w in adj' && x in adj'[w] {
      SymmetricStep(adj, u, v, x, w);
    }
  }

  lemma AddedNodesDistinct<V>(nodes: seq<V>, adj: map<V, seq<V>>, u: V, v: V, nodes': seq<V>)
    requires Distinct(nodes)
    requires forall x | x in nodes :: x in adj
    requires nodes' == AddedNodes(nodes, adj, u, v)
    ensures Distinct(nodes')
  {
    forall i, j | 0 <= i < j < |nodes'| ensures nodes'[i] != nodes'[j] {
      if j >= |nodes| {
        assert nodes'[j] !in nodes;
        if i < |nodes| { assert nodes'[i] in nodes; }
      }
    }
  }

  lemma LinkedDistinct<V>(adj: map<V, seq<V>>, u: V, v: V, x: V)
    requires forall y | y in adj :: Distinct(adj[y])
    requires x in Link(Link(adj, u, v), v, u)
    ensures Distinct(Link(Link(adj, u, v), v, u)[x])
  {
    var adj1 := Link(adj, u, v);
    assert forall y | y in adj1 :: Distinct(adj1[y]) by {
      forall y | y in adj1 ensures Distinct(adj1[y]) {
        var l := Nbr(adj, y);
        assert Distinct(l);
      }
    }
    var l := Nbr(adj1, x);
    assert Distinct(l);
  }

  lemma SymmetricStep<V>(adj: map<V, seq<V>>, u: V, v: V, x: V, w: V)
    requires Symmetric(adj)
    requires x in Link(Link(adj, u, v), v, u) && w in Link(Link(adj, u, v), v, u)[x]
    ensures w in Link(Link(adj, u, v), v, u) && x in Link(Link(adj, u, v), v, u)[w]
  {
    var adj1 := Link(adj, u, v);
    var adj' := Link(adj1, v, u);
    assert Edge(adj', x, w);
    LinkEdges(adj, u, v, x, w);
    LinkEdges(adj1, v, u, x, w);
    LinkEdges(adj, u, v, w, x);
    LinkEdges(adj1, v, u, w, x);
    if Edge(adj, x, w) {
      assert x in adj && w in adj[x];
      assert Edge(adj, w, x);
    }
    assert Edge(adj', w, x);
  }

  /** A graph whose vertices all entered through edges and that has no edge is empty. */
  lemma EdgelessIsEmpty<V>(nodes: seq<V>, adj: map<V, seq<V>>)
    requires WellFormed(nodes, adj) && EdgeInduced(adj)
    requires forall a, b :: !Edge(adj, a, b)
    ensures nodes == []
  {
    if nodes != [] {
      var v := nodes[0];
      assert v in adj;
      assert Edge(adj, v, adj[v][0]);
    }
  }

  /** A vertex whose neighbours all lie in a set has at most that many neighbours. */
  lemma DegreeWithin<V>(nodes: seq<V>, adj: map<V, seq<V>>, v: V, bound: set<V>)
    requires WellFormed(nodes, adj) && v in adj
    requires forall w :: Edge(adj, v, w) ==> w in bound
    ensures |adj[v]| <= |bound|
  {
    forall w | w in Elems(adj[v]) ensures w in bound {
      assert Edge(adj, v, w);
    }
    DistinctWithin(adj[v], bound);
  }
}

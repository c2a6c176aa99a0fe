/**
  Why the decoded order is a layout of width at most the solver's objective:
  in an assignment that satisfies the hard clauses and the cardinality
  constraints, every vertex gets a rank in 1..n, the first t vertices by rank
  are exactly S[t] = {v | y(v,t)}, and every vertex of S[t] with a neighbour
  outside S[t] has u(v,t) true, of which there are at most as many as true z.
*/
module Layout {
  import opened Wrappers
  import opened Seqs
  import opened Graphs
  import opened Encoding
  import opened Meaning
  import opened Sorting
  import opened Decoding
  import opened Widths

  /** T satisfies everything _model imposes on a graph of n = |nodes| vertices, names
      only variables _model uses, and yvals are its true y variables. */
  ghost predicate Solution<V>(nodes: seq<V>, adj: map<V, seq<V>>, T: set<Key<V>>, yvals: set<(V, int)>)
  {
    && WellFormed(nodes, adj)
    && SatAll(T, Hard(nodes, adj, |nodes|, |nodes|))
    && SatCards(T, Cards(nodes, |nodes|, |nodes|))
    && (forall k | k in T :: InRange(k, nodes, |nodes|))
    && (forall p | p in yvals :: Y(p.0, p.1) in T)
    && (forall k | k in T && k.Y? :: (k.v, k.t) in yvals)
  }

  /** The monotonicity clauses are among the hard clauses, so they hold too. */
  lemma MonoSat<V>(nodes: seq<V>, adj: map<V, seq<V>>, n: nat, T: set<Key<V>>)
    requires SatAll(T, Hard(nodes, adj, n, n))
    ensures SatAll(T, Mono(nodes, n))
  {
    var hard := Hard(nodes, adj, n, n);
    forall i | 0 <= i < |Mono(nodes, n)| ensures Sat(T, Mono(nodes, n)[i]) {
      BaseInHard(nodes, adj, n, n, Mono(nodes, n)[i]);
      var j :| 0 <= j < |hard| && hard[j] == Mono(nodes, n)[i];
      assert Sat(T, hard[j]);
    }
  }

  /** After the last step every vertex is placed: y(v,n) holds for all v. */
  lemma AllPlaced<V>(nodes: seq<V>, adj: map<V, seq<V>>, T: set<Key<V>>, yvals: set<(V, int)>)
    requires Solution(nodes, adj, T, yvals)
    ensures forall v | v in nodes :: Y(v, |nodes|) in T
  {
    var n := |nodes|;
    if n > 0 {
      CardsModel(nodes, n, T, n);
      DistinctCard(nodes);
      SubsetFull(YSet(T, nodes, n), Elems(nodes));
      forall v | v in nodes ensures Y(v, n) in T {
        assert v in Elems(nodes);
      }
    }
  }

  /** Every vertex has a rank in 1..n, and y(v,t) holds exactly from its rank on. */
  lemma RankMeaning<V>(nodes: seq<V>, adj: map<V, seq<V>>, T: set<Key<V>>, yvals: set<(V, int)>, v: V)
    requires Solution(nodes, adj, T, yvals) && v in nodes
    ensures RankOf(yvals, v).Some?
    ensures 1 <= RankOf(yvals, v).value <= |nodes|
    ensures forall t | 1 <= t <= |nodes| :: Y(v, t) in T <==> RankOf(yvals, v).value <= t
  {
    var n := |nodes|;
    AllPlaced(nodes, adj, T, yvals);
    assert Y(v, n) in T;
    var r := RankOf(yvals, v).value;
    assert Y(v, r) in T && InRange(Y(v, r), nodes, n);
    MonoSat(nodes, adj, n, T);
    forall t | 1 <= t <= n ensures Y(v, t) in T <==> r <= t {
      if r <= t {
        MonoModel(nodes, n, T, v, r, t);
      }
      if Y(v, t) in T {
        assert (Y(v, t).v, Y(v, t).t) in yvals;
      }
    }
  }

  /** In a sequence of (vertex, rank) pairs sorted by rank, with distinct vertices, a set
      of t vertices defined by "rank at most t" is exactly the first t vertices. */
  lemma LevelPrefix<V>(s: seq<(V, int)>, S: set<V>, t: nat)
    requires Distinct(Names(s)) && SortedBy(s, Step)
    requires forall i | 0 <= i < |s| :: s[i].0 in S <==> s[i].1 <= t
    requires S <= Elems(Names(s)) && |S| == t <= |s|
    ensures Elems(Names(s)[..t]) == S
  {
    var names := Names(s);
    forall i | 0 <= i < |s| && s[i].1 > t ensures t <= i {
      assert S <= Elems(names[..i]) by {
        forall v | v in S ensures v in names[..i] {
          var j :| 0 <= j < |names| && names[j] == v;
          assert Step(s[j]) <= t < Step(s[i]);
          assert names[..i][j] == v;
        }
      }
      assert Distinct(names[..i]);
      DistinctCard(names[..i]);
      SubsetCard(S, Elems(names[..i]));
    }
    forall i | 0 <= i < |s| && s[i].1 <= t ensures i < t {
      assert Elems(names[..i + 1]) <= S by {
        forall v | v in names[..i + 1] ensures v in S {
          var j :| 0 <= j <= i && names[..i + 1][j] == v;
          assert j == i || Step(s[j]) <= Step(s[i]);
        }
      }
      assert Distinct(names[..i + 1]);
      DistinctCard(names[..i + 1]);
      SubsetCard(Elems(names[..i + 1]), S);
    }
    forall v ensures v in Elems(names[..t]) <==> v in S {
      if v in names[..t] {
        var i :| 0 <= i < t && names[..t][i] == v;
      }
      if v in S {
        var j :| 0 <= j < |names| && names[j] == v;
        assert names[..t][j] == v;
      }
    }
  }

  /** Sorted by rank, the (vertex, rank) pairs of duplicate-free vertices that all have a
      rank list every vertex once, each with its rank. */
  lemma SortedRanks<V>(yvals: set<(V, int)>, nodes: seq<V>)
    requires Distinct(nodes)
    requires forall i | 0 <= i < |nodes| :: RankOf(yvals, nodes[i]).Some?
    ensures Ranks(yvals, nodes).Success?
    ensures var s := SortBy(Ranks(yvals, nodes).value, Step);
      && Distinct(Names(s)) && Elems(Names(s)) == Elems(nodes) && |s| == |nodes|
      && SortedBy(s, Step)
      && forall i | 0 <= i < |s| :: s[i].0 in nodes && RankOf(yvals, s[i].0) == Some(s[i].1)
  {
    var items := Ranks(yvals, nodes).value;
    var s := SortBy(items, Step);
    SortSorted(items, Step);
    PairsDistinct(nodes, items);
    MultisetDistinct(items, s);
    SortedPairs(yvals, nodes, items, s);
    NamesDistinct(yvals, s);
    NamesCover(nodes, items, s);
  }

  lemma PairsDistinct<V>(nodes: seq<V>, items: seq<(V, int)>)
    requires Distinct(nodes) && |items| == |nodes|
    requires forall i | 0 <= i < |nodes| :: items[i].0 == nodes[i]
    ensures Distinct(items)
  {
    forall i, j | 0 <= i < j < |items| ensures items[i] != items[j] {
      assert items[i].0 == nodes[i] && items[j].0 == nodes[j];
    }
  }

  lemma SortedPairs<V>(yvals: set<(V, int)>, nodes: seq<V>, items: seq<(V, int)>, s: seq<(V, int)>)
    requires |items| == |nodes|
    requires forall i | 0 <= i < |nodes| :: RankOf(yvals, nodes[i]).Some? && items[i] == (nodes[i], RankOf(yvals, nodes[i]).value)
    requires multiset(s) == multiset(items)
    ensures forall i | 0 <= i < |s| :: s[i].0 in nodes && RankOf(yvals, s[i].0) == Some(s[i].1)
  {
    forall i | 0 <= i < |s| ensures s[i].0 in nodes && RankOf(yvals, s[i].0) == Some(s[i].1) {
      assert s[i] in multiset(items);
      var j :| 0 <= j < |items| && items[j] == s[i];
    }
  }

  lemma NamesDistinct<V>(yvals: set<(V, int)>, s: seq<(V, int)>)
    requires Distinct(s)
    requires forall i | 0 <= i < |s| :: RankOf(yvals, s[i].0) == Some(s[i].1)
    ensures Distinct(Names(s))
  {
    var names := Names(s);
    forall i, j | 0 <= i < j < |s| ensures names[i] != names[j] {
      assert RankOf(yvals, s[i].0) == Some(s[i].1) && RankOf(yvals, s[j].0) == Some(s[j].1);
    }
  }

  lemma NamesCover<V>(nodes: seq<V>, items: seq<(V, int)>, s: seq<(V, int)>)
    requires |items| == |nodes| && multiset(s) == multiset(items)
    requires forall i | 0 <= i < |nodes| :: items[i].0 == nodes[i]
    requires forall i | 0 <= i < |s| :: s[i].0 in nodes
    ensures Elems(Names(s)) == Elems(nodes) && |s| == |nodes|
  {
    var names := Names(s);
    forall v | v in nodes ensures v in names {
      var i :| 0 <= i < |nodes| && nodes[i] == v;
      assert items[i] in multiset(s);
      var j :| 0 <= j < |s| && s[j] == items[i];
      assert names[j] == v;
    }
    assert |s| == |multiset(s)| == |multiset(items)| == |nodes|;
  }

  /** The ranks of a solution, sorted, list every vertex once. */
  lemma OrderIsPermutation<V>(nodes: seq<V>, adj: map<V, seq<V>>, T: set<Key<V>>, yvals: set<(V, int)>)
    requires Solution(nodes, adj, T, yvals)
    ensures Ranks(yvals, nodes).Success?
    ensures var s := SortBy(Ranks(yvals, nodes).value, Step);
      && Distinct(Names(s)) && Elems(Names(s)) == Elems(nodes) && |s| == |nodes|
      && SortedBy(s, Step)
      && forall i | 0 <= i < |s| :: s[i].0 in nodes && RankOf(yvals, s[i].0) == Some(s[i].1)
  {
    forall i | 0 <= i < |nodes| ensures RankOf(yvals, nodes[i]).Some? {
      RankMeaning(nodes, adj, T, yvals, nodes[i]);
    }
    SortedRanks(yvals, nodes);
  }

  /** The first t vertices of the decoded order are S[t]. */
  lemma PrefixIsLevel<V>(nodes: seq<V>, adj: map<V, seq<V>>, T: set<Key<V>>, yvals: set<(V, int)>, t: int)
    requires Solution(nodes, adj, T, yvals) && 1 <= t <= |nodes|
    ensures Ranks(yvals, nodes).Success?
    ensures var order := Order(Ranks(yvals, nodes).value);
      t <= |order| && Elems(order[..t]) == YSet(T, nodes, t)
  {
    var n := |nodes|;
    OrderIsPermutation(nodes, adj, T, yvals);
    var s := SortBy(Ranks(yvals, nodes).value, Step);
    CardsModel(nodes, n, T, t);
    forall i | 0 <= i < |s| ensures s[i].0 in YSet(T, nodes, t) <==> s[i].1 <= t {
      RankMeaning(nodes, adj, T, yvals, s[i].0);
    }
    LevelPrefix(s, YSet(T, nodes, t), t);
  }

  /** When a prefix of the order is S[t], its vertices with a neighbour outside the prefix
      are at most the number of true z. */
  lemma FrontierBound<V>(nodes: seq<V>, adj: map<V, seq<V>>, T: set<Key<V>>, prefix: seq<V>, t: int)
    requires WellFormed(nodes, adj) && 1 <= t <= |nodes|
    requires SatAll(T, Hard(nodes, adj, |nodes|, |nodes|))
    requires SatCards(T, Cards(nodes, |nodes|, |nodes|))
    requires Elems(prefix) == YSet(T, nodes, t)
    ensures |Inner(adj, prefix)| <= |ZSet(T, |nodes|)|
  {
    var n := |nodes|;
    var inner := Inner(adj, prefix);
    forall v | v in inner ensures v in USet(T, nodes, t) {
      InnerWitness(nodes, adj, T, prefix, t, v);
    }
    SubsetCard(inner, USet(T, nodes, t));
    CardsModel(nodes, n, T, t);
  }

  lemma InnerWitness<V>(nodes: seq<V>, adj: map<V, seq<V>>, T: set<Key<V>>, prefix: seq<V>, t: int, v: V)
    requires WellFormed(nodes, adj) && 1 <= t <= |nodes|
    requires SatAll(T, Hard(nodes, adj, |nodes|, |nodes|))
    requires Elems(prefix) == YSet(T, nodes, t)
    requires v in Inner(adj, prefix)
    ensures v in USet(T, nodes, t)
  {
    assert v in prefix && !(Elems(Nbr(adj, v)) <= Elems(prefix));
    var w :| w in Elems(Nbr(adj, v)) && w !in Elems(prefix);
    assert v in Elems(prefix);
    assert v in adj && w in adj[v];
    assert w in nodes;
    BoundaryModel(nodes, adj, |nodes|, T, t, v, w);
  }

  /** Decoded from any solution, the order is a permutation of the vertices, each of its
      prefixes of length t is S[t], and its vertex separation is at most the number of
      true z, which is at most n. */
  lemma LayoutWidth<V>(nodes: seq<V>, adj: map<V, seq<V>>, T: set<Key<V>>, yvals: set<(V, int)>)
    requires Solution(nodes, adj, T, yvals)
    ensures Ranks(yvals, nodes).Success?
    ensures var order := Order(Ranks(yvals, nodes).value);
      && Distinct(order) && Elems(order) == Elems(nodes) && |order| == |nodes|
      && (forall t | 1 <= t <= |nodes| :: Elems(order[..t]) == YSet(T, nodes, t))
      && Width(adj, order, |order|, false) <= |ZSet(T, |nodes|)| <= |nodes|
  {
    var n := |nodes|;
    OrderIsPermutation(nodes, adj, T, yvals);
    var order := Order(Ranks(yvals, nodes).value);
    forall t | 1 <= t <= n ensures Elems(order[..t]) == YSet(T, nodes, t) {
      PrefixIsLevel(nodes, adj, T, yvals, t);
    }
    forall t | 1 <= t <= n ensures |Frontier(adj, order[..t], false)| <= |ZSet(T, n)| {
      FrontierBound(nodes, adj, T, order[..t], t);
    }
    WidthBound(adj, order, n, false, |ZSet(T, n)|);
    ZSetWithin(n, T);
  }
}

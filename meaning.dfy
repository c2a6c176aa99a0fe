/**
  What each clause family of VertexSeparation._model says: which clauses it
  contains, and what any assignment satisfying it must look like.
*/
module Meaning {
  import opened Seqs
  import opened Graphs
  import opened Encoding

  // ------------------------------------------------------------ monotonicity

  /** c is [-y(v,t), y(v,t+1)] for a vertex v of nodes and 1 <= t < n. */
  predicate MonoClause<V(==)>(nodes: seq<V>, n: int, c: Clause<V>)
  {
    && |c| == 2 && c[0].Neg? && c[0].key.Y?
    && c[0].key.v in nodes && 1 <= c[0].key.t < n
    && c[1] == Pos(Y(c[0].key.v, c[0].key.t + 1))
  }

  /** The monotonicity family holds exactly the clauses [-y(v,t), y(v,t+1)]. */
  lemma {:induction false} MonoMember<V>(nodes: seq<V>, n: int, c: Clause<V>)
    ensures c in Mono(nodes, n) <==> MonoClause(nodes, n, c)
  {
    if nodes != [] {
      MonoMember(nodes[1..], n, c);
      assert c in Mono(nodes, n) <==> c in MonoFor(nodes[0], n) || c in Mono(nodes[1..], n);
      assert forall v | v in nodes :: v == nodes[0] || v in nodes[1..];
      if MonoClause(nodes, n, c) && c[0].key.v == nodes[0] {
        assert MonoFor(nodes[0], n)[c[0].key.t - 1] == c;
      }
    }
  }

  /** Over distinct vertices no monotonicity clause is emitted twice. */
  lemma {:induction false} MonoDistinct<V>(nodes: seq<V>, n: int)
    requires Distinct(nodes)
    ensures Distinct(Mono(nodes, n))
  {
    if nodes != [] {
      var head := MonoFor(nodes[0], n);
      var tail := Mono(nodes[1..], n);
      assert Distinct(nodes[1..]);
      MonoDistinct(nodes[1..], n);
      forall i, j | 0 <= i < |head| && 0 <= j < |tail| ensures head[i] != tail[j] {
        MonoMember(nodes[1..], n, tail[j]);
      }
      ConcatDistinct(head, tail);
    }
  }

  /** For every vertex and every 1 <= t < n the clause [-y(v,t), y(v,t+1)] occurs exactly once. */
  lemma MonoOnce<V>(nodes: seq<V>, n: int, v: V, t: int)
    requires Distinct(nodes)
    ensures multiset(Mono(nodes, n))[[Neg(Y(v, t)), Pos(Y(v, t + 1))]] == if v in nodes && 1 <= t < n then 1 else 0
  {
    MonoDistinct(nodes, n);
    MonoMember(nodes, n, [Neg(Y(v, t)), Pos(Y(v, t + 1))]);
    DistinctOccurrences(Mono(nodes, n), [Neg(Y(v, t)), Pos(Y(v, t + 1))]);
  }

  lemma ConcatDistinct<T>(a: seq<T>, b: seq<T>)
    requires Distinct(a) && Distinct(b)
    requires forall i, j | 0 <= i < |a| && 0 <= j < |b| :: a[i] != b[j]
    ensures Distinct(a + b)
  {
    var ab := a + b;
    forall i, j | 0 <= i < j < |ab| ensures ab[i] != ab[j] {
      if j < |a| {
      } else if i < |a| {
        assert ab[j] == b[j - |a|];
      } else {
        assert ab[i] == b[i - |a|] && ab[j] == b[j - |a|];
      }
    }
  }

  /** In any assignment satisfying the family, y(v,.) only switches on: once true it stays true up to n. */
  lemma {:induction false} MonoModel<V>(nodes: seq<V>, n: int, T: set<Key<V>>, v: V, t: int, t': int)
    requires SatAll(T, Mono(nodes, n))
    requires v in nodes && 1 <= t <= t' <= n && Y(v, t) in T
    decreases t' - t
    ensures Y(v, t') in T
  {
    if t < t' {
      MonoModel(nodes, n, T, v, t, t' - 1);
      var c := [Neg(Y(v, t' - 1)), Pos(Y(v, t'))];
      MonoMember(nodes, n, c);
      var i :| 0 <= i < |Mono(nodes, n)| && Mono(nodes, n)[i] == c;
      assert Sat(T, c);
      assert !Holds(T, c[0]);
    }
  }

  // ------------------------------------------------------------------ z chain

  /** The chain holds [z(t), -z(t+1)] exactly for 1 <= t < n. */
  lemma ZChainMember<V>(n: int, t: int)
    ensures [Pos(Z(t)), Neg(Z(t + 1))] in ZChain<V>(n) <==> 1 <= t < n
  {
    if 1 <= t < n {
      assert ZChain<V>(n)[t - 1] == [Pos(Z(t)), Neg(Z(t + 1))];
    }
  }

  /** In any assignment satisfying the chain, a true z(t') makes every earlier z(t) true. */
  lemma {:induction false} ZChainModel<V>(n: int, T: set<Key<V>>, t: int, t': int)
    requires SatAll(T, ZChain<V>(n))
    requires 1 <= t <= t' <= n && Z(t') in T
    decreases t' - t
    ensures Z(t) in T
  {
    if t < t' {
      var c: Clause<V> := [Pos(Z(t)), Neg(Z(t + 1))];
      assert ZChain<V>(n)[t - 1] == c;
      ZChainModel(n, T, t + 1, t');
      assert Sat(T, c);
      assert !Holds(T, c[1]);
    }
  }

  /** So the true z steps are 1..k for k the number of true z. */
  lemma ZPrefix<V>(n: int, T: set<Key<V>>)
    requires SatAll(T, ZChain<V>(n))
    ensures forall t | 1 <= t <= n :: Z(t) in T <==> t <= |ZSet(T, n)|
  {
    var S := ZSet(T, n);
    forall t, t' | 1 <= t <= t' && t' in S ensures t in S {
      ZChainModel(n, T, t, t');
    }
    DownwardClosed(S, n);
    forall t | 1 <= t <= n ensures Z(t) in T <==> t <= |S| {
      RangeCard(1, |S| + 1);
      assert Z(t) in T <==> t in S;
    }
  }

  /** A set of steps 1..n closed downwards is 1..k with k its size. */
  lemma {:induction false} DownwardClosed(S: set<int>, n: int)
    requires forall t | t in S :: 1 <= t <= n
    requires forall t, t' | 1 <= t <= t' && t' in S :: t in S
    ensures S == Elems(Interval(1, |S| + 1))
  {
    if n >= 1 && n in S {
      RangeCard(1, n + 1);
      forall t ensures t in S <==> t in Elems(Interval(1, n + 1)) {
        if 1 <= t <= n {
          assert t in S;
        }
      }
      assert S == Elems(Interval(1, n + 1));
    } else if n >= 1 {
      DownwardClosed(S, n - 1);
    } else {
      assert forall t :: t !in S;
      assert S == {};
      RangeCard(1, 1);
    }
  }

  // ----------------------------------------------------------------- boundary

  /** c is [-y(v,t), u(v,t), y(w,t)] for a vertex v of nodes and a neighbour w of v. */
  predicate BoundaryClause<V(==)>(nodes: seq<V>, adj: map<V, seq<V>>, t: int, c: Clause<V>)
  {
    && |c| == 3 && c[0].Neg? && c[0].key.Y? && c[0].key.t == t && c[0].key.v in nodes
    && c[1] == Pos(U(c[0].key.v, t))
    && c[2].Pos? && c[2].key.Y? && c[2].key.t == t && Edge(adj, c[0].key.v, c[2].key.v)
  }

  /** The boundary family of step t holds exactly the clauses [-y(v,t), u(v,t), y(w,t)]. */
  lemma {:induction false} BoundaryMember<V>(nodes: seq<V>, adj: map<V, seq<V>>, t: int, c: Clause<V>)
    ensures c in Boundary(nodes, adj, t) <==> BoundaryClause(nodes, adj, t, c)
  {
    if nodes != [] {
      BoundaryMember(nodes[1..], adj, t, c);
      var head := BoundaryFor(adj, nodes[0], t);
      assert c in Boundary(nodes, adj, t) <==> c in head || c in Boundary(nodes[1..], adj, t);
      assert forall v | v in nodes :: v == nodes[0] || v in nodes[1..];
      if BoundaryClause(nodes, adj, t, c) && c[0].key.v == nodes[0] {
        var j :| 0 <= j < |Nbr(adj, nodes[0])| && Nbr(adj, nodes[0])[j] == c[2].key.v;
        assert head[j] == c;
      }
    }
  }

  /** The monotonicity and chain clauses stay among the hard clauses at every step. */
  lemma {:induction false} BaseInHard<V>(nodes: seq<V>, adj: map<V, seq<V>>, n: nat, k: int, c: Clause<V>)
    requires c in Mono(nodes, n) || c in ZChain<V>(n)
    decreases k
    ensures c in Hard(nodes, adj, n, k)
  {
    if k > 0 {
      BaseInHard(nodes, adj, n, k - 1, c);
    }
  }

  /** The boundary clauses of step t are among the hard clauses from step t on. */
  lemma {:induction false} BoundaryInHard<V>(nodes: seq<V>, adj: map<V, seq<V>>, n: nat, k: int, t: int, c: Clause<V>)
    requires 1 <= t <= k && c in Boundary(nodes, adj, t)
    decreases k
    ensures c in Hard(nodes, adj, n, k)
  {
    if t < k {
      BoundaryInHard(nodes, adj, n, k - 1, t, c);
    }
  }

  /** In any assignment satisfying the hard clauses, a vertex of S[t] with a neighbour outside S[t] has u(v,t) true. */
  lemma BoundaryModel<V>(nodes: seq<V>, adj: map<V, seq<V>>, n: nat, T: set<Key<V>>, t: int, v: V, w: V)
    requires SatAll(T, Hard(nodes, adj, n, n))
    requires 1 <= t <= n && v in nodes && Edge(adj, v, w)
    requires Y(v, t) in T && Y(w, t) !in T
    ensures U(v, t) in T
  {
    var c := [Neg(Y(v, t)), Pos(U(v, t)), Pos(Y(w, t))];
    BoundaryMember(nodes, adj, t, c);
    BoundaryInHard(nodes, adj, n, n, t, c);
    SatIn(T, Hard(nodes, adj, n, n), c);
    MiddleHolds(T, c);
  }

  lemma SatIn<V>(T: set<Key<V>>, cs: seq<Clause<V>>, c: Clause<V>)
    requires SatAll(T, cs) && c in cs
    ensures Sat(T, c)
  {
  }

  /** A satisfied three-literal clause whose outer literals are false has its middle one true. */
  lemma MiddleHolds<V>(T: set<Key<V>>, c: Clause<V>)
    requires |c| == 3 && Sat(T, c) && !Holds(T, c[0]) && !Holds(T, c[2])
    ensures Holds(T, c[1])
  {
  }

  // ------------------------------------------------------------ the objective

  /** The weight T loses on the soft clauses of n steps is its number of true z. */
  lemma {:induction false} SoftCost<V>(n: nat, T: set<Key<V>>)
    ensures Cost(T, Soft<V>(n)) == |ZSet(T, n)|
  {
    if n > 0 {
      SoftCost(n - 1, T);
      assert Soft<V>(n)[..n - 1] == Soft<V>(n - 1);
      var c := Soft<V>(n)[n - 1];
      assert Sat(T, c) <==> Z(n) !in T by {
        assert c == [Neg(Z(n))];
        if Sat(T, c) {
          var i :| 0 <= i < |c| && Holds(T, c[i]);
        }
        if Z(n) !in T {
          assert Holds(T, c[0]);
        }
      }
      ZSetStep(n, T);
    }
  }

  lemma ZSetStep<V>(n: int, T: set<Key<V>>)
    requires n >= 1
    ensures ZSet(T, n) == ZSet(T, n - 1) + (if Z(n) in T then {n} else {})
    ensures n !in ZSet(T, n - 1)
  {
    forall t | t in ZSet(T, n) ensures t in ZSet(T, n - 1) + (if Z(n) in T then {n} else {}) {
      var k :| k in T && k.Z? && 1 <= k.t <= n && k.t == t;
      assert k == Z(t);
    }
    if Z(n) in T {
      assert n in ZSet(T, n);
    }
  }

  lemma ZSetWithin<V>(n: int, T: set<Key<V>>)
    ensures |ZSet(T, n)| <= if n > 0 then n else 0
  {
    var lo := if n > 0 then n else 0;
    RangeCard(1, lo + 1);
    SubsetCard(ZSet(T, n), Elems(Interval(1, lo + 1)));
  }

  // ---------------------------------------------------- cardinality constraints

  lemma {:induction false} CountConcat<V>(T: set<Key<V>>, a: seq<Lit<V>>, b: seq<Lit<V>>)
    ensures CountTrue(T, a + b) == CountTrue(T, a) + CountTrue(T, b)
  {
    if b != [] {
      assert (a + b)[..|a + b| - 1] == a + b[..|b| - 1];
      assert (a + b)[|a + b| - 1] == b[|b| - 1];
      assert b == b[..|b| - 1] + [b[|b| - 1]];
      CountConcat(T, a, b[..|b| - 1]);
    } else {
      assert a + b == a;
    }
  }

  /** -z(1..n) has n minus the number of true z true literals. */
  lemma {:induction false} CountZNeg<V>(n: nat, T: set<Key<V>>)
    ensures CountTrue(T, ZNeg<V>(n)) == n - |ZSet(T, n)|
  {
    ZSetWithin(n, T);
    if n > 0 {
      assert ZNeg<V>(n)[..n - 1] == ZNeg<V>(n - 1);
      CountZNeg(n - 1, T);
      ZSetStep(n, T);
    }
  }

  /** Over distinct vertices, the true literals of ylits are the vertices of S[t]. */
  lemma {:induction false} CountYLits<V>(nodes: seq<V>, T: set<Key<V>>, t: int)
    requires Distinct(nodes)
    ensures CountTrue(T, YLits(nodes, t)) == |YSet(T, nodes, t)|
  {
    if nodes != [] {
      var init := nodes[..|nodes| - 1];
      var last := nodes[|nodes| - 1];
      assert Distinct(init);
      assert YLits(nodes, t)[..|nodes| - 1] == YLits(init, t);
      CountYLits(init, T, t);
      assert nodes == init + [last];
      assert YSet(T, nodes, t) == YSet(T, init, t) + (if Y(last, t) in T then {last} else {});
      assert last !in init by {
        forall j | 0 <= j < |init| ensures init[j] != last {
          assert init[j] == nodes[j];
        }
      }
    }
  }

  /** Over distinct vertices, the true literals of ulits are the vertices with u(v,t) true. */
  lemma {:induction false} CountULits<V>(nodes: seq<V>, T: set<Key<V>>, t: int)
    requires Distinct(nodes)
    ensures CountTrue(T, ULits(nodes, t)) == |USet(T, nodes, t)|
  {
    if nodes != [] {
      var init := nodes[..|nodes| - 1];
      var last := nodes[|nodes| - 1];
      assert Distinct(init);
      assert ULits(nodes, t)[..|nodes| - 1] == ULits(init, t);
      CountULits(init, T, t);
      assert nodes == init + [last];
      assert USet(T, nodes, t) == USet(T, init, t) + (if U(last, t) in T then {last} else {});
      assert last !in init by {
        forall j | 0 <= j < |init| ensures init[j] != last {
          assert init[j] == nodes[j];
        }
      }
    }
  }

  /** The constraints of step t sit in the list of k steps for every 1 <= t <= k. */
  lemma {:induction false} CardsMember<V>(nodes: seq<V>, n: nat, k: int, t: int)
    requires 1 <= t <= k
    decreases k
    ensures Equals(YLits(nodes, t), t) in Cards(nodes, n, k)
    ensures AtMost(ULits(nodes, t) + ZNeg(n), n) in Cards(nodes, n, k)
  {
    if t < k {
      CardsMember(nodes, n, k - 1, t);
    }
    assert StepCards(nodes, n, t)[0] == Equals(YLits(nodes, t), t);
    assert StepCards(nodes, n, t)[1] == AtMost(ULits(nodes, t) + ZNeg(n), n);
  }

  /** In any assignment satisfying the constraints, S[t] has exactly t vertices and at
      most as many vertices have u(v,t) true as there are true z. */
  lemma CardsModel<V>(nodes: seq<V>, n: nat, T: set<Key<V>>, t: int)
    requires Distinct(nodes) && SatCards(T, Cards(nodes, n, n))
    requires 1 <= t <= n
    ensures |YSet(T, nodes, t)| == t
    ensures |USet(T, nodes, t)| <= |ZSet(T, n)|
  {
    CardsMember(nodes, n, n, t);
    var cs := Cards(nodes, n, n);
    var i :| 0 <= i < |cs| && cs[i] == Equals(YLits(nodes, t), t);
    assert SatCard(T, cs[i]);
    var j :| 0 <= j < |cs| && cs[j] == AtMost(ULits(nodes, t) + ZNeg(n), n);
    assert SatCard(T, cs[j]);
    CountYLits(nodes, T, t);
    CountULits(nodes, T, t);
    CountConcat(T, ULits(nodes, t), ZNeg(n));
    CountZNeg(n, T);
  }
}

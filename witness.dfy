/**
  The formula of VertexSeparation._model always has a model: the layout that
  takes the vertices in their listed order, with every u and every z true.
  So a solver that finds a model whenever there is one never leaves solve
  without a solution.
*/
module Witness {
  import opened Seqs
  import opened Graphs
  import opened Encoding
  import opened Meaning
  import opened Pool

  /** Under the listed-order layout, y(v,t) holds when v is among the first t vertices;
      every u and every z holds. */
  predicate Placed<V(==)>(nodes: seq<V>, k: Key<V>)
  {
    match k
    case Y(v, t) => 0 <= t <= |nodes| && v in nodes[..t]
    case U(_, _) => true
    case Z(_) => true
  }

  /** The listed-order layout, restricted to the numbered variables. */
  function Identity<V(==)>(nodes: seq<V>, m: map<Key<V>, nat>): set<Key<V>>
  {
    set k | k in m && Placed(nodes, k)
  }

  /** Every hard clause is a monotonicity, a chain or a boundary clause. */
  lemma {:induction false} HardParts<V>(nodes: seq<V>, adj: map<V, seq<V>>, n: nat, k: int, c: Clause<V>)
    requires c in Hard(nodes, adj, n, k)
    decreases k
    ensures c in Mono(nodes, n) || c in ZChain<V>(n) || exists t | 1 <= t <= k :: c in Boundary(nodes, adj, t)
  {
    if k > 0 {
      if c in Boundary(nodes, adj, k) {
        assert exists t | 1 <= t <= k :: c in Boundary(nodes, adj, t);
      } else {
        assert c in Hard(nodes, adj, n, k - 1);
        HardParts(nodes, adj, n, k - 1, c);
        if exists t | 1 <= t <= k - 1 :: c in Boundary(nodes, adj, t) {
          var t :| 1 <= t <= k - 1 && c in Boundary(nodes, adj, t);
          assert 1 <= t <= k;
        }
      }
    }
  }

  /** Every constraint of the steps 1..k is one of the two of some step t. */
  lemma {:induction false} CardsParts<V>(nodes: seq<V>, n: nat, k: int, c: Card<Lit<V>>)
    requires c in Cards(nodes, n, k)
    decreases k
    ensures exists t | 1 <= t <= k :: c == Equals(YLits(nodes, t), t) || c == AtMost(ULits(nodes, t) + ZNeg(n), n)
  {
    if k > 0 {
      if c !in StepCards(nodes, n, k) {
        CardsParts(nodes, n, k - 1, c);
      }
    }
  }

  /** A numbered clause with a positive u or z literal holds under the layout. */
  lemma PositiveHolds<V>(nodes: seq<V>, m: map<Key<V>, nat>, c: Clause<V>, i: nat)
    requires Numbered(m, c) && i < |c| && c[i].Pos? && !c[i].key.Y?
    ensures Sat(Identity(nodes, m), c)
  {
    assert Holds(Identity(nodes, m), c[i]);
  }

  /** The listed-order layout satisfies every hard clause. */
  lemma IdentityHard<V>(nodes: seq<V>, adj: map<V, seq<V>>, m: map<Key<V>, nat>)
    requires NumberedAll(m, Hard(nodes, adj, |nodes|, |nodes|))
    ensures SatAll(Identity(nodes, m), Hard(nodes, adj, |nodes|, |nodes|))
  {
    var n := |nodes|;
    var hard := Hard(nodes, adj, n, n);
    var T := Identity(nodes, m);
    forall i | 0 <= i < |hard| ensures Sat(T, hard[i]) {
      var c := hard[i];
      assert Numbered(m, c);
      HardParts(nodes, adj, n, n, c);
      if c in Mono(nodes, n) {
        MonoMember(nodes, n, c);
        var v, t := c[0].key.v, c[0].key.t;
        if Y(v, t) in T {
          assert v in nodes[..t + 1] by {
            assert nodes[..t] <= nodes[..t + 1];
          }
          assert Holds(T, c[1]);
        } else {
          assert Holds(T, c[0]);
        }
      } else if c in ZChain<V>(n) {
        var j :| 0 <= j < |ZChain<V>(n)| && ZChain<V>(n)[j] == c;
        PositiveHolds(nodes, m, c, 0);
      } else {
        var t :| 1 <= t <= n && c in Boundary(nodes, adj, t);
        BoundaryMember(nodes, adj, t, c);
        PositiveHolds(nodes, m, c, 1);
      }
    }
  }

  /** Under the layout S[t] is the first t vertices, so it has t of them. */
  lemma IdentityLevel<V>(nodes: seq<V>, m: map<Key<V>, nat>, t: int)
    requires Distinct(nodes) && 1 <= t <= |nodes| && Numbered(m, YLits(nodes, t))
    ensures |YSet(Identity(nodes, m), nodes, t)| == t
  {
    var S := YSet(Identity(nodes, m), nodes, t);
    forall v ensures v in S <==> v in Elems(nodes[..t]) {
      if v in nodes[..t] {
        var i :| 0 <= i < t && nodes[i] == v;
        assert YLits(nodes, t)[i].key == Y(v, t);
      }
    }
    assert S == Elems(nodes[..t]);
    assert Distinct(nodes[..t]);
    DistinctCard(nodes[..t]);
  }

  /** Under the layout all n z are true. */
  lemma IdentityZ<V>(nodes: seq<V>, m: map<Key<V>, nat>, n: nat)
    requires Numbered(m, ZNeg<V>(n))
    ensures |ZSet(Identity(nodes, m), n)| == n
  {
    var zs := ZSet(Identity(nodes, m), n);
    RangeCard(1, n + 1);
    forall t ensures t in zs <==> t in Elems(Interval(1, n + 1)) {
      if 1 <= t <= n {
        assert ZNeg<V>(n)[t - 1].key == Z(t);
      }
    }
    assert zs == Elems(Interval(1, n + 1));
  }

  /** Under the layout exactly t of the y(.,t) are true. */
  lemma IdentityEquals<V>(nodes: seq<V>, m: map<Key<V>, nat>, t: int)
    requires Distinct(nodes) && 1 <= t <= |nodes| && Numbered(m, YLits(nodes, t))
    ensures SatCard(Identity(nodes, m), Equals(YLits(nodes, t), t))
  {
    IdentityLevel(nodes, m, t);
    CountYLits(nodes, Identity(nodes, m), t);
  }

  /** Under the layout ulits + zneg has at most n true literals: zneg has none. */
  lemma IdentityAtMost<V>(nodes: seq<V>, m: map<Key<V>, nat>, t: int)
    requires Numbered(m, ULits(nodes, t) + ZNeg(|nodes|))
    ensures SatCard(Identity(nodes, m), AtMost(ULits(nodes, t) + ZNeg(|nodes|), |nodes|))
  {
    var n := |nodes|;
    var T := Identity(nodes, m);
    var us := ULits(nodes, t);
    assert Numbered(m, ZNeg<V>(n)) by {
      forall j | 0 <= j < n ensures ZNeg<V>(n)[j].key in m {
        assert ZNeg<V>(n)[j] == (us + ZNeg(n))[|us| + j];
      }
    }
    IdentityZ(nodes, m, n);
    CountConcat(T, us, ZNeg(n));
    CountZNeg(n, T);
  }

  /** The listed-order layout satisfies every cardinality constraint. */
  lemma IdentityCards<V>(nodes: seq<V>, m: map<Key<V>, nat>)
    requires Distinct(nodes) && NumberedCards(m, Cards(nodes, |nodes|, |nodes|))
    ensures SatCards(Identity(nodes, m), Cards(nodes, |nodes|, |nodes|))
  {
    var n := |nodes|;
    var cards := Cards(nodes, n, n);
    forall i | 0 <= i < |cards| ensures SatCard(Identity(nodes, m), cards[i]) {
      var c := cards[i];
      assert Numbered(m, c.lits);
      CardsParts(nodes, n, n, c);
      var t :| 1 <= t <= n && (c == Equals(YLits(nodes, t), t) || c == AtMost(ULits(nodes, t) + ZNeg(n), n));
      if c == Equals(YLits(nodes, t), t) {
        IdentityEquals(nodes, m, t);
      } else {
        IdentityAtMost(nodes, m, t);
      }
    }
  }

  /** The integer model of the layout: variable i is true when the pool's object i is
      placed. */
  function LayoutModel<V(==)>(nodes: seq<V>, id2obj: map<nat, Key<V>>, top: nat): (soln: seq<int>)
    ensures Total(soln, top)
  {
    seq(top, i requires 0 <= i < top => if i + 1 in id2obj && Placed(nodes, id2obj[i + 1]) then i + 1 else -(i + 1))
  }

  /** Read back through the pool, the integer model is the listed-order layout. */
  lemma LayoutAssignment<V>(nodes: seq<V>, m: map<Key<V>, nat>, id2obj: map<nat, Key<V>>, top: nat)
    requires Bijection(m, id2obj, top)
    ensures NumbersWithin(m, top)
    ensures Assignment(m, LayoutModel(nodes, id2obj, top)) == Identity(nodes, m)
  {
    var soln := LayoutModel(nodes, id2obj, top);
    forall k ensures k in Assignment(m, soln) <==> k in Identity(nodes, m) {
      if k in m {
        assert id2obj[m[k]] == k;
        assert soln[m[k] - 1] > 0 <==> Placed(nodes, k);
      }
    }
  }
}

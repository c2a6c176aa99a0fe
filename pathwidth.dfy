/**
  VertexSeparation and pathwidth_order: the object that numbers the variables
  of the model through a pool and collects the numbered clauses, its solve,
  and the layout read back from a solver's model.

  The MaxSAT solver is a parameter: a function from the weighted formula to
  an optional model. Sound states the one thing the model relies on, that a
  model it returns satisfies the hard part of the formula.
*/
module Pathwidth {
  import opened Wrappers
  import opened Seqs
  import opened Graphs
  import opened Pool
  import opened Encoding
  import opened Meaning
  import opened Decoding
  import opened Widths
  import opened Layout
  import opened Witness

  /** The WCNF handed to RC2: the number of variables, the hard clauses, the weighted
      soft clauses, and the cardinality constraints (kept whole; see README). */
  datatype Wcnf = Wcnf(nv: nat, hard: seq<seq<int>>, soft: seq<(seq<int>, nat)>, cards: seq<Card<int>>)

  /** soln is a model of w: total over its variables, every hard clause and constraint true. */
  ghost predicate Satisfies(w: Wcnf, soln: seq<int>)
  {
    && Total(soln, w.nv)
    && (forall i | 0 <= i < |w.hard| :: SatInt(soln, w.hard[i]))
    && (forall i | 0 <= i < |w.cards| :: SatCardInt(soln, w.cards[i]))
  }

  /** A solver is sound when every model it returns satisfies the formula. */
  ghost predicate Sound(oracle: Wcnf -> Option<seq<int>>)
  {
    forall w :: oracle(w).Some? ==> Satisfies(w, oracle(w).value)
  }

  /** A solver is complete when it returns a model for every formula that has one. */
  ghost predicate Complete(oracle: Wcnf -> Option<seq<int>>)
  {
    forall w, soln :: Satisfies(w, soln) ==> oracle(w).Some?
  }

  /** The soft clauses, each with weight 1. */
  function Weighted(cs: seq<seq<int>>): (r: seq<(seq<int>, nat)>)
    ensures |r| == |cs| && forall i | 0 <= i < |cs| :: r[i] == (cs[i], 1)
  {
    seq(|cs|, i requires 0 <= i < |cs| => (cs[i], 1))
  }

  /** The weight of the soft clauses soln falsifies: the objective RC2 minimises. */
  function CostInt(soln: seq<int>, soft: seq<(seq<int>, nat)>): nat
  {
    if soft == [] then 0
    else CostInt(soln, soft[..|soft| - 1]) + (if SatInt(soln, soft[|soft| - 1].0) then 0 else soft[|soft| - 1].1)
  }

  // ------------------------------------------------------------------ ranges

  /** Every variable _model names is a y, u or z of a vertex and a step in 1..n. */
  lemma MonoInRange<V>(nodes: seq<V>, n: int)
    ensures ClausesInRange(Mono(nodes, n), nodes, n)
  {
    forall i | 0 <= i < |Mono(nodes, n)| ensures LitsInRange(Mono(nodes, n)[i], nodes, n) {
      MonoMember(nodes, n, Mono(nodes, n)[i]);
    }
  }

  lemma BoundaryInRange<V>(nodes: seq<V>, adj: map<V, seq<V>>, n: int, t: int)
    requires WellFormed(nodes, adj) && 1 <= t <= n
    ensures ClausesInRange(Boundary(nodes, adj, t), nodes, n)
  {
    forall i | 0 <= i < |Boundary(nodes, adj, t)| ensures LitsInRange(Boundary(nodes, adj, t)[i], nodes, n) {
      var c := Boundary(nodes, adj, t)[i];
      BoundaryMember(nodes, adj, t, c);
      BoundaryClauseInRange(nodes, adj, n, t, c);
    }
  }

  lemma BoundaryClauseInRange<V>(nodes: seq<V>, adj: map<V, seq<V>>, n: int, t: int, c: Clause<V>)
    requires WellFormed(nodes, adj) && 1 <= t <= n && BoundaryClause(nodes, adj, t, c)
    ensures LitsInRange(c, nodes, n)
  {
    var v, w := c[0].key.v, c[2].key.v;
    assert v in adj && w in adj[v];
    assert w in nodes;
    assert InRange(c[0].key, nodes, n) && InRange(c[1].key, nodes, n) && InRange(c[2].key, nodes, n);
  }

  lemma StepLitsInRange<V>(nodes: seq<V>, n: int, t: int)
    requires 1 <= t <= n
    ensures LitsInRange(YLits(nodes, t), nodes, n) && LitsInRange(ULits(nodes, t), nodes, n)
    ensures LitsInRange([Neg(Z(t))], nodes, n)
  {
    assert forall i | 0 <= i < |nodes| :: nodes[i] in nodes;
  }

  lemma ZInRange<V>(nodes: seq<V>, n: nat)
    ensures ClausesInRange(ZChain<V>(n), nodes, n) && LitsInRange(ZNeg<V>(n), nodes, n)
  {
  }

  lemma NumberedAllConcat<V>(m0: map<Key<V>, nat>, m: map<Key<V>, nat>, a: seq<Clause<V>>, b: seq<Clause<V>>)
    requires Extends(m0, m) && NumberedAll(m0, a) && NumberedAll(m, b)
    ensures NumberedAll(m, a + b)
  {
    forall i | 0 <= i < |a + b| ensures Numbered(m, (a + b)[i]) {
      if i < |a| {
        assert (a + b)[i] == a[i];
      } else {
        assert (a + b)[i] == b[i - |a|];
      }
    }
  }

  lemma NumberedCardsConcat<V>(m0: map<Key<V>, nat>, m: map<Key<V>, nat>, a: seq<Card<Lit<V>>>, b: seq<Card<Lit<V>>>)
    requires Extends(m0, m) && NumberedCards(m0, a) && NumberedCards(m, b)
    ensures NumberedCards(m, a + b)
  {
    forall i | 0 <= i < |a + b| ensures Numbered(m, (a + b)[i].lits) {
      if i < |a| {
        assert (a + b)[i] == a[i];
      } else {
        assert (a + b)[i] == b[i - |a|];
      }
    }
  }

  lemma EncodeClausesConcat<V>(m: map<Key<V>, nat>, a: seq<Clause<V>>, b: seq<Clause<V>>)
    ensures EncodeClauses(m, a + b) == EncodeClauses(m, a) + EncodeClauses(m, b)
  {
    assert forall i | 0 <= i < |a + b| :: EncodeClauses(m, a + b)[i] == (EncodeClauses(m, a) + EncodeClauses(m, b))[i];
  }

  lemma EncodeCardsConcat<V>(m: map<Key<V>, nat>, a: seq<Card<Lit<V>>>, b: seq<Card<Lit<V>>>)
    ensures EncodeCards(m, a + b) == EncodeCards(m, a) + EncodeCards(m, b)
  {
    assert forall i | 0 <= i < |a + b| :: EncodeCards(m, a + b)[i] == (EncodeCards(m, a) + EncodeCards(m, b))[i];
  }

  /** After a round the hard clauses are those of one more step. */
  lemma HardStep<V>(nodes: seq<V>, adj: map<V, seq<V>>, n: nat, t: int, m0: map<Key<V>, nat>, m: map<Key<V>, nat>,
                    h0: seq<seq<int>>, hb: seq<seq<int>>)
    requires t >= 1 && Extends(m0, m)
    requires NumberedAll(m0, Hard(nodes, adj, n, t - 1)) && h0 == EncodeClauses(m0, Hard(nodes, adj, n, t - 1))
    requires NumberedAll(m, Boundary(nodes, adj, t)) && hb == EncodeClauses(m, Boundary(nodes, adj, t))
    ensures NumberedAll(m, Hard(nodes, adj, n, t)) && h0 + hb == EncodeClauses(m, Hard(nodes, adj, n, t))
  {
    EncodeClausesStable(m0, m, Hard(nodes, adj, n, t - 1));
    EncodeClausesConcat(m, Hard(nodes, adj, n, t - 1), Boundary(nodes, adj, t));
    NumberedAllConcat(m0, m, Hard(nodes, adj, n, t - 1), Boundary(nodes, adj, t));
  }

  /** After a round the soft clauses are those of one more step. */
  lemma SoftStep<V>(m0: map<Key<V>, nat>, m: map<Key<V>, nat>, t: nat, s0: seq<(seq<int>, nat)>, z: seq<int>)
    requires t >= 1 && Extends(m0, m)
    requires NumberedAll(m0, Soft<V>(t - 1)) && s0 == Weighted(EncodeClauses(m0, Soft<V>(t - 1)))
    requires Numbered(m, [Neg(Z(t))]) && z == EncodeLits(m, [Neg(Z(t))])
    ensures NumberedAll(m, Soft<V>(t)) && s0 + [(z, 1)] == Weighted(EncodeClauses(m, Soft<V>(t)))
  {
    var prev := Soft<V>(t - 1);
    EncodeClausesStable(m0, m, prev);
    assert Soft<V>(t) == prev + [[Neg(Z(t))]];
    EncodeClausesConcat(m, prev, [[Neg(Z(t))]]);
    NumberedAllConcat(m0, m, prev, [[Neg(Z(t))]]);
  }

  /** After a round the constraints are those of one more step. */
  lemma CardsStep<V>(nodes: seq<V>, n: nat, t: int, m0: map<Key<V>, nat>, m: map<Key<V>, nat>,
                     c0: seq<Card<int>>, ylits: seq<int>, ulits: seq<int>, zneg: seq<int>)
    requires t >= 1 && Extends(m0, m)
    requires NumberedCards(m0, Cards(nodes, n, t - 1)) && c0 == EncodeCards(m0, Cards(nodes, n, t - 1))
    requires Numbered(m, YLits(nodes, t)) && ylits == EncodeLits(m, YLits(nodes, t))
    requires Numbered(m, ULits(nodes, t)) && ulits == EncodeLits(m, ULits(nodes, t))
    requires Numbered(m, ZNeg(n)) && zneg == EncodeLits(m, ZNeg(n))
    ensures NumberedCards(m, Cards(nodes, n, t))
    ensures c0 + [Equals(ylits, t), AtMost(ulits + zneg, n)] == EncodeCards(m, Cards(nodes, n, t))
  {
    var prev := Cards(nodes, n, t - 1);
    var step := StepCards(nodes, n, t);
    EncodeCardsStable(m0, m, prev);
    EncodeCardsConcat(m, prev, step);
    assert EncodeLits(m, ULits(nodes, t) + ZNeg(n)) == ulits + zneg;
    assert EncodeCards(m, step) == [Equals(ylits, t), AtMost(ulits + zneg, n)];
    assert Numbered(m, step[1].lits) by {
      forall i | 0 <= i < |step[1].lits| ensures step[1].lits[i].key in m {
        if i < |ULits(nodes, t)| {
          assert step[1].lits[i] == ULits(nodes, t)[i];
        } else {
          assert step[1].lits[i] == ZNeg(n)[i - |ULits(nodes, t)|];
        }
      }
    }
    NumberedCardsConcat(m0, m, prev, step);
  }

  // ----------------------------------------------------------- reading back

  /** Read through a numbering, the integer objective of a total model is the named one. */
  lemma {:induction false} CostBridge<V>(m: map<Key<V>, nat>, soln: seq<int>, cs: seq<Clause<V>>)
    requires Total(soln, |soln|) && NumbersWithin(m, |soln|) && NumberedAll(m, cs)
    ensures CostInt(soln, Weighted(EncodeClauses(m, cs))) == Cost(Assignment(m, soln), cs)
  {
    if cs != [] {
      var init := cs[..|cs| - 1];
      assert Weighted(EncodeClauses(m, cs))[..|cs| - 1] == Weighted(EncodeClauses(m, init));
      assert NumberedAll(m, init) by {
        forall i | 0 <= i < |init| ensures Numbered(m, init[i]) {
          assert init[i] == cs[i];
        }
      }
      CostBridge(m, soln, init);
      ClauseBridge(m, soln, cs[|cs| - 1]);
    }
  }

  /** The formula _model builds, numbered by m. */
  function Formula<V(==)>(nodes: seq<V>, adj: map<V, seq<V>>, m: map<Key<V>, nat>, top: nat): Wcnf
  {
    var n := |nodes|;
    Wcnf(top, EncodeClauses(m, Hard(nodes, adj, n, n)), Weighted(EncodeClauses(m, Soft(n))), EncodeCards(m, Cards(nodes, n, n)))
  }

  /** The numbered formula always has a model: the listed-order layout, every u and z
      true. */
  lemma FormulaSatisfiable<V>(nodes: seq<V>, adj: map<V, seq<V>>, m: map<Key<V>, nat>, id2obj: map<nat, Key<V>>, top: nat)
    requires Distinct(nodes) && Bijection(m, id2obj, top)
    requires NumberedAll(m, Hard(nodes, adj, |nodes|, |nodes|)) && NumberedCards(m, Cards(nodes, |nodes|, |nodes|))
    ensures Satisfies(Formula(nodes, adj, m, top), LayoutModel(nodes, id2obj, top))
  {
    var n := |nodes|;
    var soln := LayoutModel(nodes, id2obj, top);
    var hard, cards := Hard(nodes, adj, n, n), Cards(nodes, n, n);
    LayoutAssignment(nodes, m, id2obj, top);
    IdentityHard(nodes, adj, m);
    IdentityCards(nodes, m);
    forall i | 0 <= i < |hard| ensures SatInt(soln, EncodeLits(m, hard[i])) {
      ClauseBridge(m, soln, hard[i]);
    }
    forall i | 0 <= i < |cards| ensures SatCardInt(soln, EncodeCard(m, cards[i])) {
      CountBridge(m, soln, cards[i].lits);
    }
  }

  /** Any model of the numbered formula decodes: every vertex has a rank, the width is
      the model's objective value and at most n, and the vertices sorted by rank form a
      layout whose vertex separation is at most that width. */
  lemma DecodeModel<V>(nodes: seq<V>, adj: map<V, seq<V>>, m: map<Key<V>, nat>, id2obj: map<nat, Key<V>>, top: nat, soln: seq<int>)
    requires WellFormed(nodes, adj)
    requires Bijection(m, id2obj, top) && forall k | k in m :: InRange(k, nodes, |nodes|)
    requires NumberedAll(m, Hard(nodes, adj, |nodes|, |nodes|)) && NumberedAll(m, Soft<V>(|nodes|))
    requires NumberedCards(m, Cards(nodes, |nodes|, |nodes|))
    requires Satisfies(Formula(nodes, adj, m, top), soln)
    ensures Decode(id2obj, nodes, soln).Success?
    ensures var (sep, items) := Decode(id2obj, nodes, soln).value;
      && sep == CostInt(soln, Formula(nodes, adj, m, top).soft) && sep <= |nodes|
      && Distinct(Order(items)) && Elems(Order(items)) == Elems(nodes) && |Order(items)| == |nodes|
      && Width(adj, Order(items), |nodes|, false) <= sep
  {
    var n := |nodes|;
    var w := Formula(nodes, adj, m, top);
    var T := Assignment(m, soln);
    var pos := Positives(id2obj, soln);
    assert NumbersWithin(m, |soln|);
    forall i | 0 <= i < |Hard(nodes, adj, n, n)| ensures SatInt(soln, EncodeClauses(m, Hard(nodes, adj, n, n))[i]) {
      assert SatInt(soln, w.hard[i]);
    }
    forall i | 0 <= i < |Cards(nodes, n, n)| ensures SatCardInt(soln, EncodeCards(m, Cards(nodes, n, n))[i]) {
      assert SatCardInt(soln, w.cards[i]);
    }
    ModelBridge(m, soln, Hard(nodes, adj, n, n), Cards(nodes, n, n));
    DecodeMeaning(m, id2obj, top, soln, n);
    LayoutWidth(nodes, adj, T, YVals(pos));
    CostBridge(m, soln, Soft<V>(n));
    SoftCost<V>(n, T);
  }

  class VertexSeparation<V(==)> {
    const nodes: seq<V>
    const adj: map<V, seq<V>>
    const size: nat
    const pool: IdPool<Key<V>>
    var hard: seq<seq<int>>
    var soft: seq<(seq<int>, nat)>
    var cards: seq<Card<int>>

    /** The pool is a gap-free numbering of variables of the model only. */
    ghost predicate Numbering()
      reads this, pool
    {
      && size == |nodes|
      && pool.Valid()
      && forall k | k in pool.obj2id :: InRange(k, nodes, size)
    }

    /** The formula after the steps 1..k of the tme loop: the numbered families. */
    ghost predicate Built(k: nat)
      reads this, pool
    {
      && Numbering()
      && NumberedAll(pool.obj2id, Hard(nodes, adj, size, k))
      && NumberedAll(pool.obj2id, Soft(k))
      && NumberedCards(pool.obj2id, Cards(nodes, size, k))
      && hard == EncodeClauses(pool.obj2id, Hard(nodes, adj, size, k))
      && soft == Weighted(EncodeClauses(pool.obj2id, Soft(k)))
      && cards == EncodeCards(pool.obj2id, Cards(nodes, size, k))
    }

    /** A well-formed graph and the whole formula of its n = size steps. */
    ghost predicate Valid()
      reads this, pool
    {
      WellFormed(nodes, adj) && Built(size)
    }

    /** VertexSeparation(gph): number and collect the whole model of gph. */
    constructor (g: Graph<V>)
      requires g.Valid()
      ensures Valid() && nodes == g.nodes && adj == g.adj && size == |g.nodes|
      ensures fresh(pool)
    {
      nodes := g.nodes;
      adj := g.adj;
      size := |g.nodes|;
      pool := new IdPool();
      hard := [];
      soft := [];
      cards := [];
      new;
      Model();
    }

    /** pool.id for each literal of lits, in order, negated for a negative literal. */
    method Number(lits: seq<Lit<V>>) returns (r: seq<int>)
      requires Numbering() && LitsInRange(lits, nodes, size)
      modifies pool
      ensures Numbering() && Extends(old(pool.obj2id), pool.obj2id)
      ensures Numbered(pool.obj2id, lits) && r == EncodeLits(pool.obj2id, lits)
    {
      r := [];
      for i := 0 to |lits|
        invariant Numbering() && Extends(old(pool.obj2id), pool.obj2id)
        invariant Numbered(pool.obj2id, lits[..i]) && r == EncodeLits(pool.obj2id, lits[..i])
      {
        ghost var m0 := pool.obj2id;
        var vid := pool.Id(lits[i].key);
        EncodeStable(m0, pool.obj2id, lits[..i]);
        r := r + [if lits[i].Pos? then vid as int else -(vid as int)];
        assert lits[..i + 1] == lits[..i] + [lits[i]];
      }
      assert lits[..|lits|] == lits;
    }

    /** The clauses of a family, numbered clause by clause, literal by literal: the
        list comprehension handed to self._cnf.extend. */
    method NumberAll(cs: seq<Clause<V>>) returns (r: seq<seq<int>>)
      requires Numbering() && ClausesInRange(cs, nodes, size)
      modifies pool
      ensures Numbering() && Extends(old(pool.obj2id), pool.obj2id)
      ensures NumberedAll(pool.obj2id, cs) && r == EncodeClauses(pool.obj2id, cs)
    {
      r := [];
      for j := 0 to |cs|
        invariant Numbering() && Extends(old(pool.obj2id), pool.obj2id)
        invariant NumberedAll(pool.obj2id, cs[..j]) && r == EncodeClauses(pool.obj2id, cs[..j])
      {
        ghost var m0 := pool.obj2id;
        var c := Number(cs[j]);
        EncodeClausesStable(m0, pool.obj2id, cs[..j]);
        r := r + [c];
        assert cs[..j + 1] == cs[..j] + [cs[j]];
        EncodeClausesConcat(pool.obj2id, cs[..j], [cs[j]]);
      }
      assert cs[..|cs|] == cs;
    }

    /** _model: the monotonicity and chain clauses, then one round per step tme. */
    method Model()
      requires WellFormed(nodes, adj) && Numbering() && hard == [] && soft == [] && cards == []
      modifies this, pool
      ensures Valid()
    {
      var zneg := BaseLits();
      for tme := 1 to size + 1
        invariant Built(tme - 1)
        invariant Numbered(pool.obj2id, ZNeg(size)) && zneg == EncodeLits(pool.obj2id, ZNeg(size))
      {
        Round(tme, zneg);
      }
    }

    /** The part of _model before the tme loop: the monotonicity clauses, the chain
        clauses and zneg. */
    method BaseLits() returns (zneg: seq<int>)
      requires Numbering() && hard == [] && soft == [] && cards == []
      modifies this, pool
      ensures Built(0)
      ensures Numbered(pool.obj2id, ZNeg(size)) && zneg == EncodeLits(pool.obj2id, ZNeg(size))
    {
      MonoInRange(nodes, size);
      ZInRange(nodes, size);
      var mono := NumberAll(Mono(nodes, size));
      ghost var m1 := pool.obj2id;
      var chain := NumberAll(ZChain(size));
      ghost var m2 := pool.obj2id;
      hard := hard + mono + chain;
      zneg := Number(ZNeg(size));
      ghost var m := pool.obj2id;
      EncodeClausesStable(m1, m, Mono(nodes, size));
      EncodeClausesStable(m2, m, ZChain(size));
      EncodeClausesConcat(m, Mono(nodes, size), ZChain(size));
      NumberedAllConcat(m1, m, Mono(nodes, size), ZChain(size));
      assert Hard(nodes, adj, size, 0) == Mono(nodes, size) + ZChain(size);
    }

    /** The numbered literals of one pass of the tme loop, in the order the pass asks
        the pool for them. */
    method RoundLits(tme: nat) returns (hb: seq<seq<int>>, z: seq<int>, ylits: seq<int>, ulits: seq<int>)
      requires WellFormed(nodes, adj) && Numbering() && 1 <= tme <= size
      modifies pool
      ensures Numbering() && Extends(old(pool.obj2id), pool.obj2id)
      ensures NumberedAll(pool.obj2id, Boundary(nodes, adj, tme)) && hb == EncodeClauses(pool.obj2id, Boundary(nodes, adj, tme))
      ensures Numbered(pool.obj2id, [Neg(Z(tme))]) && z == EncodeLits(pool.obj2id, [Neg(Z(tme))])
      ensures Numbered(pool.obj2id, YLits(nodes, tme)) && ylits == EncodeLits(pool.obj2id, YLits(nodes, tme))
      ensures Numbered(pool.obj2id, ULits(nodes, tme)) && ulits == EncodeLits(pool.obj2id, ULits(nodes, tme))
    {
      BoundaryInRange(nodes, adj, size, tme);
      StepLitsInRange(nodes, size, tme);
      hb := NumberAll(Boundary(nodes, adj, tme));
      ghost var m1 := pool.obj2id;
      z := Number([Neg(Z(tme))]);
      ghost var m2 := pool.obj2id;
      ylits := Number(YLits(nodes, tme));
      ghost var m3 := pool.obj2id;
      ulits := Number(ULits(nodes, tme));
      EncodeClausesStable(m1, pool.obj2id, Boundary(nodes, adj, tme));
      EncodeStable(m2, pool.obj2id, [Neg(Z(tme))]);
      EncodeStable(m3, pool.obj2id, YLits(nodes, tme));
    }

    /** One pass of the tme loop: the boundary clauses of step tme, the soft clause
        [-z(tme)], exactly tme of the y and at most size of ulits + zneg. */
    method Round(tme: nat, zneg: seq<int>)
      requires WellFormed(nodes, adj)
      requires 1 <= tme <= size && Built(tme - 1)
      requires Numbered(pool.obj2id, ZNeg(size)) && zneg == EncodeLits(pool.obj2id, ZNeg(size))
      modifies this, pool
      ensures Built(tme)
      ensures Numbered(pool.obj2id, ZNeg(size)) && zneg == EncodeLits(pool.obj2id, ZNeg(size))
    {
      ghost var m0, h0, s0, c0 := pool.obj2id, hard, soft, cards;
      var hb, z, ylits, ulits := RoundLits(tme);
      hard := hard + hb;
      soft := soft + [(z, 1)];
      cards := cards + [Equals(ylits, tme), AtMost(ulits + zneg, size)];
      RoundBuilt(tme, m0, h0, s0, c0, hb, z, ylits, ulits, zneg);
    }

    /** The state after a round is the state of one more step. */
    lemma RoundBuilt(tme: nat, m0: map<Key<V>, nat>, h0: seq<seq<int>>, s0: seq<(seq<int>, nat)>, c0: seq<Card<int>>,
                     hb: seq<seq<int>>, z: seq<int>, ylits: seq<int>, ulits: seq<int>, zneg: seq<int>)
      requires 1 <= tme <= size && Numbering() && Extends(m0, pool.obj2id)
      requires NumberedAll(m0, Hard(nodes, adj, size, tme - 1)) && h0 == EncodeClauses(m0, Hard(nodes, adj, size, tme - 1))
      requires NumberedAll(m0, Soft(tme - 1)) && s0 == Weighted(EncodeClauses(m0, Soft(tme - 1)))
      requires NumberedCards(m0, Cards(nodes, size, tme - 1)) && c0 == EncodeCards(m0, Cards(nodes, size, tme - 1))
      requires Numbered(m0, ZNeg(size)) && zneg == EncodeLits(m0, ZNeg(size))
      requires NumberedAll(pool.obj2id, Boundary(nodes, adj, tme)) && hb == EncodeClauses(pool.obj2id, Boundary(nodes, adj, tme))
      requires Numbered(pool.obj2id, [Neg(Z(tme))]) && z == EncodeLits(pool.obj2id, [Neg(Z(tme))])
      requires Numbered(pool.obj2id, YLits(nodes, tme)) && ylits == EncodeLits(pool.obj2id, YLits(nodes, tme))
      requires Numbered(pool.obj2id, ULits(nodes, tme)) && ulits == EncodeLits(pool.obj2id, ULits(nodes, tme))
      requires hard == h0 + hb && soft == s0 + [(z, 1)]
      requires cards == c0 + [Equals(ylits, tme), AtMost(ulits + zneg, size)]
      ensures Built(tme)
      ensures Numbered(pool.obj2id, ZNeg(size)) && zneg == EncodeLits(pool.obj2id, ZNeg(size))
    {
      EncodeStable(m0, pool.obj2id, ZNeg(size));
      HardStep(nodes, adj, size, tme, m0, pool.obj2id, h0, hb);
      SoftStep(m0, pool.obj2id, tme, s0, z);
      CardsStep(nodes, size, tme, m0, pool.obj2id, c0, ylits, ulits, zneg);
    }

    /** solve: hand the formula to the solver and read its model back. */
    function Solve(oracle: Wcnf -> Option<seq<int>>): Result<(nat, seq<(V, int)>), SolveError>
      reads this, pool
    {
      match oracle(Formula(nodes, adj, pool.obj2id, pool.top))
      case None => Failure(Unsatisfiable)
      case Some(soln) => Decode(pool.id2obj, nodes, soln)
    }

    /** The formula of a valid object has the listed-order layout as a model. */
    lemma Satisfiable()
      requires Valid()
      ensures Satisfies(Formula(nodes, adj, pool.obj2id, pool.top), LayoutModel(nodes, pool.id2obj, pool.top))
    {
      FormulaSatisfiable(nodes, adj, pool.obj2id, pool.id2obj, pool.top);
    }

    /** With a sound solver that finds a model whenever there is one, solve succeeds. */
    lemma SolveSucceeds(oracle: Wcnf -> Option<seq<int>>)
      requires Valid() && Sound(oracle) && Complete(oracle)
      ensures Solve(oracle).Success?
    {
      Satisfiable();
      SolveCorrect(oracle);
    }

    /** With a sound solver, solve fails only when the solver finds no model; otherwise
        its width is the model's objective value, at most n, and the vertex separation of
        the order its ranks give. */
    lemma SolveCorrect(oracle: Wcnf -> Option<seq<int>>)
      requires Valid() && Sound(oracle)
      ensures Solve(oracle).Failure? ==> Solve(oracle).error == Unsatisfiable
      ensures Solve(oracle).Success? ==> var (sep, items) := Solve(oracle).value;
        && sep == CostInt(oracle(Formula(nodes, adj, pool.obj2id, pool.top)).value, soft) && sep <= size
        && Distinct(Order(items)) && Elems(Order(items)) == Elems(nodes) && |Order(items)| == size
        && Width(adj, Order(items), size, false) <= sep
    {
      var w := Formula(nodes, adj, pool.obj2id, pool.top);
      if oracle(w).Some? {
        var soln := oracle(w).value;
        assert Satisfies(w, soln);
        assert Solve(oracle) == Decode(pool.id2obj, nodes, soln);
        assert soft == w.soft;
        DecodeModel(nodes, adj, pool.obj2id, pool.id2obj, pool.top, soln);
      }
    }
  }

  /** What pathwidth_order returns from the result of solve: the width, and the
      vertices sorted by rank. */
  function OrderOf<V>(res: Result<(nat, seq<(V, int)>), SolveError>): Result<(nat, seq<V>), SolveError>
  {
    match res
    case Failure(e) => Failure(e)
    case Success(p) => Success((p.0, Order(p.1)))
  }

  /** pathwidth_order: the width the solver's model gives and the vertices in the
      order of their ranks in it, read back through the VertexSeparation built
      for g. */
  method PathwidthOrder<V(==)>(g: Graph<V>, oracle: Wcnf -> Option<seq<int>>)
    returns (r: Result<(nat, seq<V>), SolveError>, ghost vsp: VertexSeparation<V>)
    requires g.Valid() && Sound(oracle)
    ensures fresh(vsp) && vsp.Valid() && vsp.nodes == g.nodes && vsp.adj == g.adj
    ensures r == OrderOf(vsp.Solve(oracle))
    ensures r.Failure? ==> r.error == Unsatisfiable
    ensures r.Success? ==> var (sep, order) := r.value;
      && Distinct(order) && Elems(order) == Elems(g.nodes) && |order| == |g.nodes|
      && Width(g.adj, order, |order|, false) <= sep <= |g.nodes|
  {
    var v := new VertexSeparation(g);
    var res := v.Solve(oracle);
    v.SolveCorrect(oracle);
    vsp := v;
    match res
    case Failure(e) =>
      r := Failure(e);
    case Success(p) =>
      r := Success((p.0, Order(p.1)));
  }
}

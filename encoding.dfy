/**
  The constraint system VertexSeparation._model builds, written over named
  variables: y(v,t) "v is among the first t vertices", u(v,t) "v is among the
  first t and has a neighbour outside them", z(t) "the width is at least t".
  The clause families are lists in the order the source emits them; their
  meaning is given over an assignment (the set of variables that are true),
  and their numbering into pysat's integer literals over a pool map.
*/
module Encoding {
  import opened Seqs
  import opened Graphs
  import opened Pool

  /** ('y', (v, t)), ('u', (v, t)) and ('z', t). */
  datatype Key<V> = Y(v: V, t: int) | U(v: V, t: int) | Z(t: int)

  datatype Lit<V> = Pos(key: Key<V>) | Neg(key: Key<V>)

  type Clause<V> = seq<Lit<V>>

  /** The cardinality constraints CardEnc.equals / CardEnc.atmost stand for. */
  datatype Card<L> = Equals(lits: seq<L>, bound: int) | AtMost(lits: seq<L>, bound: int)

  // ---------------------------------------------------------------- families

  /** The y monotonicity clauses of one vertex, t = 1 .. n-1. */
  function MonoFor<V(==)>(v: V, n: int): (r: seq<Clause<V>>)
    ensures |r| == if n > 1 then n - 1 else 0
    ensures forall i | 0 <= i < |r| :: r[i] == [Neg(Y(v, i + 1)), Pos(Y(v, i + 2))]
  {
    seq(if n > 1 then n - 1 else 0, i => [Neg(Y(v, i + 1)), Pos(Y(v, i + 2))])
  }

  /** [-y(v,t), y(v,t+1)] for (v, t) in product(nodes, range(1, n)). */
  function Mono<V(==)>(nodes: seq<V>, n: int): seq<Clause<V>>
  {
    if nodes == [] then [] else MonoFor(nodes[0], n) + Mono(nodes[1..], n)
  }

  /** [z(t), -z(t+1)] for t in range(1, n): z is non-increasing. */
  function ZChain<V(==)>(n: int): (r: seq<Clause<V>>)
    ensures |r| == if n > 1 then n - 1 else 0
    ensures forall i | 0 <= i < |r| :: r[i] == [Pos(Z(i + 1)), Neg(Z(i + 2))]
  {
    seq(if n > 1 then n - 1 else 0, i => [Pos(Z(i + 1)), Neg(Z(i + 2))])
  }

  /** zneg: -z(t) for t in 1..n. */
  function ZNeg<V(==)>(n: nat): (r: seq<Lit<V>>)
    ensures |r| == n && forall i | 0 <= i < n :: r[i] == Neg(Z(i + 1))
  {
    seq(n, i => Neg(Z(i + 1)))
  }

  /** The boundary clauses of one vertex at step t, one per neighbour. */
  function BoundaryFor<V(==)>(adj: map<V, seq<V>>, v: V, t: int): (r: seq<Clause<V>>)
    ensures |r| == |Nbr(adj, v)|
    ensures forall j | 0 <= j < |r| :: r[j] == [Neg(Y(v, t)), Pos(U(v, t)), Pos(Y(Nbr(adj, v)[j], t))]
  {
    seq(|Nbr(adj, v)|, j requires 0 <= j < |Nbr(adj, v)| => [Neg(Y(v, t)), Pos(U(v, t)), Pos(Y(Nbr(adj, v)[j], t))])
  }

  /** [-y(node,t), u(node,t), y(nbr,t)] for node in nodes for nbr in neighbors(node). */
  function Boundary<V(==)>(nodes: seq<V>, adj: map<V, seq<V>>, t: int): seq<Clause<V>>
  {
    if nodes == [] then [] else BoundaryFor(adj, nodes[0], t) + Boundary(nodes[1..], adj, t)
  }

  /** ylits at step t. */
  function YLits<V(==)>(nodes: seq<V>, t: int): (r: seq<Lit<V>>)
    ensures |r| == |nodes| && forall i | 0 <= i < |nodes| :: r[i] == Pos(Y(nodes[i], t))
  {
    seq(|nodes|, i requires 0 <= i < |nodes| => Pos(Y(nodes[i], t)))
  }

  /** ulits at step t. */
  function ULits<V(==)>(nodes: seq<V>, t: int): (r: seq<Lit<V>>)
    ensures |r| == |nodes| && forall i | 0 <= i < |nodes| :: r[i] == Pos(U(nodes[i], t))
  {
    seq(|nodes|, i requires 0 <= i < |nodes| => Pos(U(nodes[i], t)))
  }

  /** The hard clauses after the steps 1..k of the tme loop. */
  function Hard<V(==)>(nodes: seq<V>, adj: map<V, seq<V>>, n: nat, k: int): seq<Clause<V>>
    decreases k
  {
    if k <= 0 then Mono(nodes, n) + ZChain(n) else Hard(nodes, adj, n, k - 1) + Boundary(nodes, adj, k)
  }

  /** The soft unit clauses [-z(t)], weight 1, of the steps 1..k. */
  function Soft<V(==)>(k: nat): (r: seq<Clause<V>>)
    ensures |r| == k && forall i | 0 <= i < k :: r[i] == [Neg(Z(i + 1))]
  {
    seq(k, i => [Neg(Z(i + 1))])
  }

  /** The two cardinality constraints of one step: exactly t of the y(.,t), and
      at most n of ulits + zneg. */
  function StepCards<V(==)>(nodes: seq<V>, n: nat, t: int): seq<Card<Lit<V>>>
  {
    [Equals(YLits(nodes, t), t), AtMost(ULits(nodes, t) + ZNeg(n), n)]
  }

  /** The cardinality constraints of the steps 1..k. */
  function Cards<V(==)>(nodes: seq<V>, n: nat, k: int): seq<Card<Lit<V>>>
    decreases k
  {
    if k <= 0 then [] else Cards(nodes, n, k - 1) + StepCards(nodes, n, k)
  }

  // --------------------------------------------------------------- semantics

  /** l is true under the assignment T (the set of true variables). */
  predicate Holds<V(==)>(T: set<Key<V>>, l: Lit<V>)
  {
    if l.Pos? then l.key in T else l.key !in T
  }

  predicate Sat<V(==)>(T: set<Key<V>>, c: Clause<V>)
  {
    exists i | 0 <= i < |c| :: Holds(T, c[i])
  }

  predicate SatAll<V(==)>(T: set<Key<V>>, cs: seq<Clause<V>>)
  {
    forall i | 0 <= i < |cs| :: Sat(T, cs[i])
  }

  /** The number of true literals in lits, counted with repetition. */
  function CountTrue<V(==)>(T: set<Key<V>>, lits: seq<Lit<V>>): (r: nat)
    ensures r <= |lits|
  {
    if lits == [] then 0 else CountTrue(T, lits[..|lits| - 1]) + (if Holds(T, lits[|lits| - 1]) then 1 else 0)
  }

  predicate SatCard<V(==)>(T: set<Key<V>>, c: Card<Lit<V>>)
  {
    match c
    case Equals(lits, b) => CountTrue(T, lits) == b
    case AtMost(lits, b) => CountTrue(T, lits) <= b
  }

  predicate SatCards<V(==)>(T: set<Key<V>>, cs: seq<Card<Lit<V>>>)
  {
    forall i | 0 <= i < |cs| :: SatCard(T, cs[i])
  }

  /** The total weight of the soft clauses T falsifies (every weight is 1). */
  function Cost<V(==)>(T: set<Key<V>>, soft: seq<Clause<V>>): nat
  {
    if soft == [] then 0 else Cost(T, soft[..|soft| - 1]) + (if Sat(T, soft[|soft| - 1]) then 0 else 1)
  }

  /** The steps t in 1..n whose z(t) is true. */
  function ZSet<V(==)>(T: set<Key<V>>, n: int): set<int>
  {
    set k | k in T && k.Z? && 1 <= k.t <= n :: k.t
  }

  /** The vertices of nodes whose y(v,t) is true: the set S[t]. */
  function YSet<V(==)>(T: set<Key<V>>, nodes: seq<V>, t: int): set<V>
  {
    set v | v in nodes && Y(v, t) in T
  }

  /** The vertices of nodes whose u(v,t) is true. */
  function USet<V(==)>(T: set<Key<V>>, nodes: seq<V>, t: int): set<V>
  {
    set v | v in nodes && U(v, t) in T
  }

  // ---------------------------------------------------------------- numbering

  /** The pysat literal of l: the number of its variable, negated for a negative literal. */
  function EncodeLit<V(==)>(m: map<Key<V>, nat>, l: Lit<V>): int
  {
    if l.key !in m then 0 else if l.Pos? then m[l.key] as int else -(m[l.key] as int)
  }

  function EncodeLits<V(==)>(m: map<Key<V>, nat>, c: seq<Lit<V>>): (r: seq<int>)
    ensures |r| == |c| && forall i | 0 <= i < |c| :: r[i] == EncodeLit(m, c[i])
  {
    seq(|c|, i requires 0 <= i < |c| => EncodeLit(m, c[i]))
  }

  function EncodeClauses<V(==)>(m: map<Key<V>, nat>, cs: seq<Clause<V>>): (r: seq<seq<int>>)
    ensures |r| == |cs| && forall i | 0 <= i < |cs| :: r[i] == EncodeLits(m, cs[i])
  {
    seq(|cs|, i requires 0 <= i < |cs| => EncodeLits(m, cs[i]))
  }

  function EncodeCard<V(==)>(m: map<Key<V>, nat>, c: Card<Lit<V>>): Card<int>
  {
    match c
    case Equals(lits, b) => Equals(EncodeLits(m, lits), b)
    case AtMost(lits, b) => AtMost(EncodeLits(m, lits), b)
  }

  function EncodeCards<V(==)>(m: map<Key<V>, nat>, cs: seq<Card<Lit<V>>>): (r: seq<Card<int>>)
    ensures |r| == |cs| && forall i | 0 <= i < |cs| :: r[i] == EncodeCard(m, cs[i])
  {
    seq(|cs|, i requires 0 <= i < |cs| => EncodeCard(m, cs[i]))
  }

  /** Every variable of lits is numbered by m. */
  ghost predicate Numbered<V>(m: map<Key<V>, nat>, lits: seq<Lit<V>>)
  {
    forall i | 0 <= i < |lits| :: lits[i].key in m
  }

  ghost predicate NumberedAll<V>(m: map<Key<V>, nat>, cs: seq<Clause<V>>)
  {
    forall i | 0 <= i < |cs| :: Numbered(m, cs[i])
  }

  ghost predicate NumberedCards<V>(m: map<Key<V>, nat>, cs: seq<Card<Lit<V>>>)
  {
    forall i | 0 <= i < |cs| :: Numbered(m, cs[i].lits)
  }

  /** Numbering more variables does not change the literals already written. */
  lemma EncodeStable<V>(m0: map<Key<V>, nat>, m: map<Key<V>, nat>, lits: seq<Lit<V>>)
    requires Extends(m0, m) && Numbered(m0, lits)
    ensures EncodeLits(m, lits) == EncodeLits(m0, lits)
  {
  }

  lemma EncodeClausesStable<V>(m0: map<Key<V>, nat>, m: map<Key<V>, nat>, cs: seq<Clause<V>>)
    requires Extends(m0, m) && NumberedAll(m0, cs)
    ensures EncodeClauses(m, cs) == EncodeClauses(m0, cs)
  {
    forall i | 0 <= i < |cs| ensures EncodeLits(m, cs[i]) == EncodeLits(m0, cs[i]) {
      EncodeStable(m0, m, cs[i]);
    }
  }

  lemma EncodeCardsStable<V>(m0: map<Key<V>, nat>, m: map<Key<V>, nat>, cs: seq<Card<Lit<V>>>)
    requires Extends(m0, m) && NumberedCards(m0, cs)
    ensures EncodeCards(m, cs) == EncodeCards(m0, cs)
  {
    forall i | 0 <= i < |cs| ensures EncodeCard(m, cs[i]) == EncodeCard(m0, cs[i]) {
      EncodeStable(m0, m, cs[i].lits);
    }
  }

  /** The variables the model may mention: y and u of a vertex and a step, z of a step. */
  predicate InRange<V(==)>(k: Key<V>, nodes: seq<V>, n: int)
  {
    match k
    case Y(v, t) => v in nodes && 1 <= t <= n
    case U(v, t) => v in nodes && 1 <= t <= n
    case Z(t) => 1 <= t <= n
  }

  ghost predicate LitsInRange<V>(lits: seq<Lit<V>>, nodes: seq<V>, n: int)
  {
    forall i | 0 <= i < |lits| :: InRange(lits[i].key, nodes, n)
  }

  ghost predicate ClausesInRange<V>(cs: seq<Clause<V>>, nodes: seq<V>, n: int)
  {
    forall i | 0 <= i < |cs| :: LitsInRange(cs[i], nodes, n)
  }

  // -------------------------------------------------- the integer-side meaning

  /** soln is a pysat model over nv variables: entry i is i+1 or -(i+1). */
  ghost predicate Total(soln: seq<int>, nv: nat)
  {
    |soln| == nv && forall i | 0 <= i < nv :: soln[i] == i + 1 || soln[i] == -(i + 1)
  }

  /** The integer literal x is true in soln. */
  predicate TrueIn(soln: seq<int>, x: int)
  {
    (0 < x <= |soln| && soln[x - 1] == x) || (0 < -x <= |soln| && soln[-x - 1] == x)
  }

  predicate SatInt(soln: seq<int>, c: seq<int>)
  {
    exists i | 0 <= i < |c| :: TrueIn(soln, c[i])
  }

  function CountInt(soln: seq<int>, lits: seq<int>): nat
  {
    if lits == [] then 0 else CountInt(soln, lits[..|lits| - 1]) + (if TrueIn(soln, lits[|lits| - 1]) then 1 else 0)
  }

  predicate SatCardInt(soln: seq<int>, c: Card<int>)
  {
    match c
    case Equals(lits, b) => CountInt(soln, lits) == b
    case AtMost(lits, b) => CountInt(soln, lits) <= b
  }

  /** The assignment a pysat model gives the numbered variables. */
  function Assignment<V(==)>(m: map<Key<V>, nat>, soln: seq<int>): set<Key<V>>
  {
    set k | k in m && 1 <= m[k] <= |soln| && soln[m[k] - 1] > 0
  }

  /** A numbered literal is true in the integer model exactly when it holds under its assignment. */
  lemma LitBridge<V>(m: map<Key<V>, nat>, soln: seq<int>, l: Lit<V>)
    requires Total(soln, |soln|) && l.key in m && 1 <= m[l.key] <= |soln|
    ensures TrueIn(soln, EncodeLit(m, l)) <==> Holds(Assignment(m, soln), l)
  {
  }

  ghost predicate NumbersWithin<V>(m: map<Key<V>, nat>, nv: nat)
  {
    forall k | k in m :: 1 <= m[k] <= nv
  }

  lemma ClauseBridge<V>(m: map<Key<V>, nat>, soln: seq<int>, c: Clause<V>)
    requires Total(soln, |soln|) && NumbersWithin(m, |soln|) && Numbered(m, c)
    ensures SatInt(soln, EncodeLits(m, c)) <==> Sat(Assignment(m, soln), c)
  {
    var e := EncodeLits(m, c);
    if SatInt(soln, e) {
      var i :| 0 <= i < |e| && TrueIn(soln, e[i]);
      LitBridge(m, soln, c[i]);
    }
    if Sat(Assignment(m, soln), c) {
      var i :| 0 <= i < |c| && Holds(Assignment(m, soln), c[i]);
      LitBridge(m, soln, c[i]);
    }
  }

  lemma {:induction false} CountBridge<V>(m: map<Key<V>, nat>, soln: seq<int>, lits: seq<Lit<V>>)
    requires Total(soln, |soln|) && NumbersWithin(m, |soln|) && Numbered(m, lits)
    ensures CountInt(soln, EncodeLits(m, lits)) == CountTrue(Assignment(m, soln), lits)
  {
    if lits != [] {
      var init := lits[..|lits| - 1];
      assert EncodeLits(m, lits)[..|lits| - 1] == EncodeLits(m, init);
      CountBridge(m, soln, init);
      LitBridge(m, soln, lits[|lits| - 1]);
    }
  }

  /** Whatever satisfies the numbered hard clauses and constraints satisfies, read
      back through the numbering, the named ones. */
  lemma ModelBridge<V>(m: map<Key<V>, nat>, soln: seq<int>, hard: seq<Clause<V>>, cards: seq<Card<Lit<V>>>)
    requires Total(soln, |soln|) && NumbersWithin(m, |soln|)
    requires NumberedAll(m, hard) && NumberedCards(m, cards)
    requires forall i | 0 <= i < |hard| :: SatInt(soln, EncodeClauses(m, hard)[i])
    requires forall i | 0 <= i < |cards| :: SatCardInt(soln, EncodeCards(m, cards)[i])
    ensures SatAll(Assignment(m, soln), hard) && SatCards(Assignment(m, soln), cards)
  {
    forall i | 0 <= i < |hard| ensures Sat(Assignment(m, soln), hard[i]) {
      assert SatInt(soln, EncodeClauses(m, hard)[i]);
      ClauseBridge(m, soln, hard[i]);
    }
    forall i | 0 <= i < |cards| ensures SatCard(Assignment(m, soln), cards[i]) {
      CountBridge(m, soln, cards[i].lits);
      assert SatCardInt(soln, EncodeCards(m, cards)[i]);
      match cards[i]
      case Equals(lits, b) =>
      case AtMost(lits, b) =>
    }
  }
}

/** The Hamming cube: 0/1 tuples of a fixed length, joined when they differ in one place. */
module Hamming {
  import opened Seqs
  import opened Graphs

  type Bits = seq<int>

  /** a has num entries, each 0 or 1. */
  predicate IsTuple(num: nat, a: Bits)
  {
    |a| == num && forall i | 0 <= i < |a| :: a[i] == 0 || a[i] == 1
  }

  /** a and b have the same length and disagree in exactly one position. */
  predicate OneApart(a: Bits, b: Bits)
  {
    |a| == |b| && exists i | 0 <= i < |a| :: a[i] != b[i] && forall j | 0 <= j < |a| && j != i :: a[j] == b[j]
  }

  /** The edge relation of the cube of dimension num. */
  predicate HammingEdge(num: nat, a: Bits, b: Bits)
  {
    IsTuple(num, a) && IsTuple(num, b) && OneApart(a, b)
  }

  /** pnt[:i] + (1 - pnt[i],) + pnt[i + 1:] */
  function Flip(a: Bits, i: nat): (r: Bits)
    requires i < |a|
    ensures |r| == |a| && r[i] == 1 - a[i]
    ensures forall j | 0 <= j < |a| && j != i :: r[j] == a[j]
  {
    a[..i] + [1 - a[i]] + a[i + 1..]
  }

  /** The other endpoints hamming_graph adds from a, in the order of the positions flipped. */
  function Flips(a: Bits): (r: seq<Bits>)
    ensures |r| == |a|
  {
    seq(|a|, k requires 0 <= k < |a| => Flip(a, k))
  }

  /** The neighbours generated from a tuple are exactly the tuples one position away. */
  lemma FlipsMeaning(num: nat, a: Bits, b: Bits)
    requires IsTuple(num, a)
    ensures b in Flips(a) <==> HammingEdge(num, a, b)
  {
    if b in Flips(a) {
      var k :| 0 <= k < |a| && Flips(a)[k] == b;
      assert a[k] != b[k] && forall j | 0 <= j < |a| && j != k :: a[j] == b[j];
    }
    if HammingEdge(num, a, b) {
      var i :| 0 <= i < |a| && a[i] != b[i] && forall j | 0 <= j < |a| && j != i :: a[j] == b[j];
      assert b == Flip(a, i);
      assert Flips(a)[i] == b;
    }
  }

  /** Flipping different positions gives different tuples. */
  lemma FlipsDistinct(a: Bits)
    ensures Distinct(Flips(a))
  {
    forall i, j | 0 <= i < j < |a| ensures Flips(a)[i] != Flips(a)[j] {
      assert Flips(a)[i][i] != Flips(a)[j][i];
    }
  }

  /** x in front of every tuple of s. */
  function Prepend(x: int, s: seq<Bits>): (r: seq<Bits>)
    ensures |r| == |s|
    ensures forall i | 0 <= i < |s| :: r[i] == [x] + s[i]
  {
    seq(|s|, i requires 0 <= i < |s| => [x] + s[i])
  }

  /** itertools.product(range(2), repeat=num): the first position varies slowest. */
  function Tuples(num: nat): seq<Bits>
  {
    if num == 0 then [[]] else Prepend(0, Tuples(num - 1)) + Prepend(1, Tuples(num - 1))
  }

  function Pow2(n: nat): nat
  {
    if n == 0 then 1 else 2 * Pow2(n - 1)
  }

  /** Membership in a half of the product. */
  lemma PrependMember(x: int, s: seq<Bits>, a: Bits)
    ensures a in Prepend(x, s) <==> |a| > 0 && a[0] == x && a[1..] in s
  {
    if a in Prepend(x, s) {
      var i :| 0 <= i < |s| && Prepend(x, s)[i] == a;
      assert a[1..] == s[i];
    }
    if |a| > 0 && a[0] == x && a[1..] in s {
      var i :| 0 <= i < |s| && s[i] == a[1..];
      assert Prepend(x, s)[i] == a;
    }
  }

  lemma TailTuple(num: nat, a: Bits)
    requires |a| == num + 1
    ensures IsTuple(num + 1, a) <==> (a[0] == 0 || a[0] == 1) && IsTuple(num, a[1..])
  {
    if (a[0] == 0 || a[0] == 1) && IsTuple(num, a[1..]) {
      forall j | 1 <= j < |a| ensures a[j] == 0 || a[j] == 1 {
        assert a[j] == a[1..][j - 1];
      }
    }
  }

  /** The product lists every 0/1 tuple of length num and nothing else. */
  lemma {:induction false} TuplesComplete(num: nat, a: Bits)
    ensures a in Tuples(num) <==> IsTuple(num, a)
  {
    if num > 0 {
      var t := Tuples(num - 1);
      assert a in Tuples(num) <==> a in Prepend(0, t) || a in Prepend(1, t);
      PrependMember(0, t, a);
      PrependMember(1, t, a);
      if |a| > 0 {
        TuplesComplete(num - 1, a[1..]);
        if |a| == num {
          TailTuple(num - 1, a);
        }
      }
    }
  }

  /** The product repeats no tuple and has 2^num of them. */
  lemma {:induction false} TuplesDistinct(num: nat)
    ensures Distinct(Tuples(num)) && |Tuples(num)| == Pow2(num)
  {
    if num > 0 {
      TuplesDistinct(num - 1);
      var t := Tuples(num - 1);
      var r := Tuples(num);
      forall i, j | 0 <= i < j < |r| ensures r[i] != r[j] {
        var ti := if i < |t| then t[i] else t[i - |t|];
        var tj := if j < |t| then t[j] else t[j - |t|];
        assert r[i] == [r[i][0]] + ti && r[j] == [r[j][0]] + tj;
        if r[i][0] == r[j][0] {
          assert r[i][1..] == ti && r[j][1..] == tj;
        }
      }
    }
  }

  // The decimal rendering of the dimension used in the graph name.

  function Digit(d: nat): (c: char)
    requires d < 10
    ensures '0' <= c <= '9' && c as int - '0' as int == d
  {
    ('0' as int + d) as char
  }

  /** str(n) for a non-negative integer. */
  function Decimal(n: nat): string
    decreases n
  {
    if n < 10 then [Digit(n)] else Decimal(n / 10) + [Digit(n % 10)]
  }

  /** int(s) for a string of decimal digits. */
  function ParseDecimal(s: string): nat
  {
    if s == [] then 0
    else ParseDecimal(s[..|s| - 1]) * 10 + (if '0' <= s[|s| - 1] <= '9' then s[|s| - 1] as int - '0' as int else 0)
  }

  /** The rendering is all digits, has no leading zero, and reads back as n. */
  lemma {:induction false} DecimalRoundTrip(n: nat)
    decreases n
    ensures var s := Decimal(n);
      && |s| >= 1
      && (forall i | 0 <= i < |s| :: '0' <= s[i] <= '9')
      && (s[0] == '0' ==> n == 0)
      && ParseDecimal(s) == n
  {
    if n >= 10 {
      DecimalRoundTrip(n / 10);
      var s := Decimal(n);
      var init := Decimal(n / 10);
      assert s == init + [Digit(n % 10)];
      assert s[..|s| - 1] == init;
      assert s[0] == init[0];
      forall i | 0 <= i < |s| ensures '0' <= s[i] <= '9' {
        if i < |init| { assert s[i] == init[i]; }
      }
    }
  }

  /**
    hamming_graph(num): for every tuple of the product, the edges to the
    tuples obtained by flipping each position in turn.
  */
  method HammingGraph(num: nat) returns (g: Graph<Bits>)
    ensures fresh(g) && g.Valid() && g.name == "hamming(" + Decimal(num) + ")"
    ensures forall a, b :: Edge(g.adj, a, b) <==> HammingEdge(num, a, b)
    ensures forall v | v in g.adj :: IsTuple(num, v) && |g.adj[v]| == num
    ensures forall v :: !Edge(g.adj, v, v)
    ensures num >= 1 ==> |g.nodes| == Pow2(num)
    ensures num == 0 ==> g.nodes == []
  {
    g := new Graph("hamming(" + Decimal(num) + ")");
    var pnts := Tuples(num);
    forall a | a in pnts ensures IsTuple(num, a) {
      TuplesComplete(num, a);
    }
    for p := 0 to |pnts|
      invariant g.Valid() && EdgeInduced(g.adj) && g.name == "hamming(" + Decimal(num) + ")"
      invariant forall a, b :: Edge(g.adj, a, b) <==> Added(pnts, p, 0, a, b) || Added(pnts, p, 0, b, a)
    {
      AddFlips(g, pnts, p);
    }
    forall a, b ensures Edge(g.adj, a, b) <==> HammingEdge(num, a, b) {
      assert pnts[..|pnts|] == pnts;
      TuplesComplete(num, a);
      TuplesComplete(num, b);
      if IsTuple(num, a) {
        FlipsMeaning(num, a, b);
      }
      if IsTuple(num, b) {
        FlipsMeaning(num, b, a);
      }
    }
    HammingShape(g, num);
  }

  /** The edges present after the points before p, and the first i flips of point p. */
  predicate Added(pnts: seq<Bits>, p: nat, i: nat, a: Bits, b: Bits)
    requires p <= |pnts|
  {
    (a in pnts[..p] && b in Flips(a)) || (p < |pnts| && a == pnts[p] && i <= |a| && b in Flips(a)[..i])
  }

  /** The inner generator of hamming_graph: every flip of one point. */
  method AddFlips(g: Graph<Bits>, pnts: seq<Bits>, p: nat)
    requires g.Valid() && EdgeInduced(g.adj) && p < |pnts|
    requires forall a, b :: Edge(g.adj, a, b) <==> Added(pnts, p, 0, a, b) || Added(pnts, p, 0, b, a)
    modifies g
    ensures g.Valid() && EdgeInduced(g.adj)
    ensures forall a, b :: Edge(g.adj, a, b) <==> Added(pnts, p + 1, 0, a, b) || Added(pnts, p + 1, 0, b, a)
  {
    var pnt := pnts[p];
    for i := 0 to |pnt|
      invariant g.Valid() && EdgeInduced(g.adj)
      invariant forall a, b :: Edge(g.adj, a, b) <==> Added(pnts, p, i, a, b) || Added(pnts, p, i, b, a)
    {
      ghost var before := g.adj;
      g.AddEdge(pnt, Flip(pnt, i));
      FlipAdded(pnts, p, i, before, g.adj);
    }
    forall a, b ensures Added(pnts, p + 1, 0, a, b) <==> Added(pnts, p, |pnt|, a, b) {
      AddedNext(pnts, p, a, b);
    }
  }

  /** Adding the edge to the i-th flip of point p extends the added edges by that one. */
  lemma FlipAdded(pnts: seq<Bits>, p: nat, i: nat, before: map<Bits, seq<Bits>>, after: map<Bits, seq<Bits>>)
    requires p < |pnts| && i < |pnts[p]|
    requires forall a, b :: Edge(before, a, b) <==> Added(pnts, p, i, a, b) || Added(pnts, p, i, b, a)
    requires forall a, b :: Edge(after, a, b) <==>
      Edge(before, a, b) || (a == pnts[p] && b == Flip(pnts[p], i)) || (a == Flip(pnts[p], i) && b == pnts[p])
    ensures forall a, b :: Edge(after, a, b) <==> Added(pnts, p, i + 1, a, b) || Added(pnts, p, i + 1, b, a)
  {
    forall a, b ensures Edge(after, a, b) <==> Added(pnts, p, i + 1, a, b) || Added(pnts, p, i + 1, b, a) {
      AddedStep(pnts, p, i, a, b);
      AddedStep(pnts, p, i, b, a);
    }
  }

  lemma AddedStep(pnts: seq<Bits>, p: nat, i: nat, a: Bits, b: Bits)
    requires p < |pnts| && i < |pnts[p]|
    ensures Added(pnts, p, i + 1, a, b) <==> Added(pnts, p, i, a, b) || (a == pnts[p] && b == Flip(pnts[p], i))
  {
    assert Flips(pnts[p])[..i + 1] == Flips(pnts[p])[..i] + [Flip(pnts[p], i)];
  }

  lemma AddedNext(pnts: seq<Bits>, p: nat, a: Bits, b: Bits)
    requires p < |pnts|
    ensures Added(pnts, p + 1, 0, a, b) <==> Added(pnts, p, |pnts[p]|, a, b)
  {
    assert pnts[..p + 1] == pnts[..p] + [pnts[p]];
    assert Flips(pnts[p])[..|pnts[p]|] == Flips(pnts[p]);
  }

  /** Degrees, self-loops and the vertex count, from the edge relation. */
  lemma HammingShape(g: Graph<Bits>, num: nat)
    requires g.Valid() && EdgeInduced(g.adj)
    requires forall a, b :: Edge(g.adj, a, b) <==> HammingEdge(num, a, b)
    ensures forall v | v in g.adj :: IsTuple(num, v) && |g.adj[v]| == num
    ensures forall v :: !Edge(g.adj, v, v)
    ensures num >= 1 ==> |g.nodes| == Pow2(num)
    ensures num == 0 ==> g.nodes == []
  {
    forall v | v in g.adj ensures IsTuple(num, v) && |g.adj[v]| == num {
      assert Edge(g.adj, v, g.adj[v][0]);
      forall w ensures w in Elems(g.adj[v]) <==> w in Elems(Flips(v)) {
        FlipsMeaning(num, v, w);
      }
      FlipsDistinct(v);
      DistinctSameElems(g.adj[v], Flips(v));
    }
    if num >= 1 {
      forall a ensures a in Elems(g.nodes) <==> a in Elems(Tuples(num)) {
        TuplesComplete(num, a);
        if IsTuple(num, a) {
          FlipsMeaning(num, a, Flip(a, 0));
          assert Flips(a)[0] == Flip(a, 0);
          assert Edge(g.adj, a, Flip(a, 0));
        }
      }
      TuplesDistinct(num);
      DistinctSameElems(g.nodes, Tuples(num));
    } else {
      EdgelessIsEmpty(g.nodes, g.adj);
    }
  }
}

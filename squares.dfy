/**
  Square-sum graphs: vertices 1..num, with i and j joined when i + j is a
  perfect square; and the walk that reads a square chain off a graph whose
  vertices have degree at most two.
*/
module Squares {
  import opened Wrappers
  import opened Graphs

  function Sq(k: int): int
  {
    k * k
  }

  /** s is the square of an integer. */
  ghost predicate IsSquare(s: int)
  {
    exists r | 0 <= r <= s :: Sq(r) == s
  }

  /** The squares the generator precomputes: k^2 for 2 <= k < 2 num - 1. */
  function SquaresUpTo(num: int): set<int>
  {
    set k | 2 <= k < 2 * num - 1 :: Sq(k)
  }

  /** i and j are distinct vertices 1..num whose sum is a perfect square. */
  ghost predicate SquareEdge(num: int, i: int, j: int)
  {
    1 <= i <= num && 1 <= j <= num && i != j && IsSquare(i + j)
  }

  lemma SquareAtLeastRoot(k: int)
    requires k >= 2
    ensures k < Sq(k)
  {
    assert Sq(k) == k * k == k + k * (k - 1);
    assert k * (k - 1) >= k by {
      assert k - 1 >= 1;
    }
  }

  /** The precomputed set holds every square that the sum of two distinct
      vertices can reach, so membership means exactly "is a perfect square". */
  lemma SquaresCover(num: int, s: int)
    requires 3 <= s <= 2 * num - 1
    ensures s in SquaresUpTo(num) <==> IsSquare(s)
  {
    if s in SquaresUpTo(num) {
      var k :| 2 <= k < 2 * num - 1 && Sq(k) == s;
      SquareAtLeastRoot(k);
      assert 0 <= k <= s && Sq(k) == s;
    }
    if IsSquare(s) {
      var r :| 0 <= r <= s && Sq(r) == s;
      assert r >= 2;
      SquareAtLeastRoot(r);
      assert r < 2 * num - 1;
    }
  }

  /** (i, j) is among the pairs the generator has looked at, lowest index first. */
  predicate Visited(ind: int, jind: int, i: int, j: int)
  {
    var lo := if i < j then i else j;
    var hi := if i < j then j else i;
    lo < ind || (lo == ind && hi < jind)
  }

  lemma VisitedStep(ind: int, jind: int, i: int, j: int)
    requires ind < jind
    ensures Visited(ind, jind + 1, i, j) <==> Visited(ind, jind, i, j) || (i == ind && j == jind) || (i == jind && j == ind)
  {
  }

  /** square_graph(num): for 1 <= ind < num and ind < jind <= num, add the edge
      ind-jind when ind + jind is one of the precomputed squares. */
  method SquareGraph(num: int) returns (g: Graph<int>)
    ensures fresh(g) && g.Valid() && EdgeInduced(g.adj)
    ensures forall i, j :: Edge(g.adj, i, j) <==> SquareEdge(num, i, j)
    ensures forall v | v in g.adj :: 1 <= v <= num
    ensures g.nodes == [] <==> num <= 2
  {
    g := new Graph("");
    var squares := SquaresUpTo(num);
    var ind := 1;
    while ind < num
      invariant fresh(g) && g.Valid() && g.name == "" && EdgeInduced(g.adj)
      invariant 1 <= ind
      invariant forall i, j :: Edge(g.adj, i, j) <==> SquareEdge(num, i, j) && Visited(ind, 0, i, j)
    {
      AddPartners(g, num, squares, ind);
      ind := ind + 1;
    }
    forall v | v in g.adj ensures 1 <= v <= num {
      assert Edge(g.adj, v, g.adj[v][0]);
    }
    SquareGraphEmpty(num, g.nodes, g.adj);
  }

  /** The inner loop of square_graph: the partners jind of one ind. */
  method AddPartners(g: Graph<int>, num: int, squares: set<int>, ind: int)
    requires g.Valid() && EdgeInduced(g.adj)
    requires squares == SquaresUpTo(num) && 1 <= ind < num
    requires forall i, j :: Edge(g.adj, i, j) <==> SquareEdge(num, i, j) && Visited(ind, 0, i, j)
    modifies g
    ensures g.Valid() && EdgeInduced(g.adj)
    ensures forall i, j :: Edge(g.adj, i, j) <==> SquareEdge(num, i, j) && Visited(ind + 1, 0, i, j)
  {
    var jind := ind + 1;
    while jind <= num
      invariant g.Valid() && EdgeInduced(g.adj)
      invariant ind + 1 <= jind <= num + 1
      invariant forall i, j :: Edge(g.adj, i, j) <==> SquareEdge(num, i, j) && Visited(ind, jind, i, j)
    {
      SquaresCover(num, ind + jind);
      assert SquareEdge(num, ind, jind) <==> ind + jind in squares;
      if ind + jind in squares {
        g.AddEdge(ind, jind);
      }
      forall i, j ensures Edge(g.adj, i, j) <==> SquareEdge(num, i, j) && Visited(ind, jind + 1, i, j) {
        VisitedStep(ind, jind, i, j);
      }
      jind := jind + 1;
    }
    forall i, j ensures SquareEdge(num, i, j) && Visited(ind, num + 1, i, j) <==> SquareEdge(num, i, j) && Visited(ind + 1, 0, i, j) {
    }
  }

  /** Vertices 1..num with num <= 2 have no square sum, so the graph is empty. */
  lemma SmallSquareGraphEmpty(num: int, i: int, j: int)
    requires num <= 2
    ensures !SquareEdge(num, i, j)
  {
    if 1 <= i <= num && 1 <= j <= num && i != j {
      assert i + j == 3;
    }
  }

  /** A square-sum graph built edge by edge has no vertex exactly when num <= 2:
      below that no two vertices sum to a square, and from 3 on 1 + 3 = 4 does. */
  lemma SquareGraphEmpty(num: int, nodes: seq<int>, adj: map<int, seq<int>>)
    requires WellFormed(nodes, adj) && EdgeInduced(adj)
    requires forall i, j :: Edge(adj, i, j) <==> SquareEdge(num, i, j)
    ensures nodes == [] <==> num <= 2
  {
    if num <= 2 {
      forall a, b ensures !Edge(adj, a, b) {
        SmallSquareGraphEmpty(num, a, b);
      }
      EdgelessIsEmpty(nodes, adj);
    } else {
      assert SquareEdge(num, 1, 3) by {
        assert Sq(2) == 4;
      }
      assert Edge(adj, 1, 3);
      assert 1 in nodes;
    }
  }

  /** The first element of s other than x, if there is one. */
  function FirstOther(s: seq<int>, x: int): (r: Option<int>)
    ensures r.None? <==> forall i | 0 <= i < |s| :: s[i] == x
    ensures r.Some? ==> r.value in s && r.value != x
  {
    if s == [] then None
    else if s[0] != x then Some(s[0])
    else FirstOther(s[1..], x)
  }

  /** The walk from last, arrived at from prev: keep moving to the first
      neighbour that is not the vertex just left, until there is none.
      The walk need not end, so it is given a bound of fuel steps. */
  function Walk(adj: map<int, seq<int>>, prev: int, last: int, fuel: nat): Option<seq<int>>
    decreases fuel
  {
    if fuel == 0 then None
    else match FirstOther(Nbr(adj, last), prev)
      case None => Some([last])
      case Some(next) =>
        match Walk(adj, last, next, fuel - 1)
        case None => None
        case Some(rest) => Some([last] + rest)
  }

  /** The vertex before position i of a walk that was entered from prev. */
  function Before(w: seq<int>, prev: int, i: nat): int
    requires i <= |w|
  {
    if i == 0 then prev else w[i - 1]
  }

  /** A walk starts where it is told to, every step goes to the first neighbour
      other than the vertex just left (so it is an edge and never steps straight
      back), and it stops exactly where no such neighbour exists. */
  lemma {:induction false} WalkShape(adj: map<int, seq<int>>, prev: int, last: int, fuel: nat)
    requires Walk(adj, prev, last, fuel).Some?
    decreases fuel
    ensures var w := Walk(adj, prev, last, fuel).value;
      && 1 <= |w| <= fuel
      && w[0] == last
      && (forall i | 0 <= i < |w| - 1 :: FirstOther(Nbr(adj, w[i]), Before(w, prev, i)) == Some(w[i + 1]))
      && (forall i | 0 <= i < |w| - 1 :: Edge(adj, w[i], w[i + 1]) && w[i + 1] != Before(w, prev, i))
      && FirstOther(Nbr(adj, w[|w| - 1]), Before(w, prev, |w| - 1)).None?
  {
    assert fuel > 0;
    var w := Walk(adj, prev, last, fuel).value;
    match FirstOther(Nbr(adj, last), prev)
    case None =>
    case Some(next) =>
      WalkShape(adj, last, next, fuel - 1);
      var rest := Walk(adj, last, next, fuel - 1).value;
      assert w == [last] + rest;
      forall i | 0 <= i < |w| - 1 ensures FirstOther(Nbr(adj, w[i]), Before(w, prev, i)) == Some(w[i + 1]) {
        if i > 0 {
          assert w[i] == rest[i - 1] && w[i + 1] == rest[i] && Before(w, prev, i) == Before(rest, last, i - 1);
        }
      }
      forall i | 0 <= i < |w| - 1 ensures Edge(adj, w[i], w[i + 1]) && w[i + 1] != Before(w, prev, i) {
        assert FirstOther(Nbr(adj, w[i]), Before(w, prev, i)) == Some(w[i + 1]);
      }
      assert w[|w| - 1] == rest[|rest| - 1] && Before(w, prev, |w| - 1) == Before(rest, last, |rest| - 1);
  }

  /** What square_sequence returns: the walk from the first neighbour of vertex 0
      with its final vertex dropped, or the error the source raises. */
  function SequenceSpec(adj: map<int, seq<int>>, fuel: nat): Result<seq<int>, WalkError>
  {
    if 0 !in adj then Failure(MissingStart)
    else if adj[0] == [] then Failure(NoNeighbour)
    else match Walk(adj, 0, adj[0][0], fuel)
      case None => Failure(OutOfFuel)
      case Some(w) => Success(w[..|w| - 1])
  }

  /** MissingStart: vertex 0 is not in the graph; NoNeighbour: it has no neighbour;
      OutOfFuel: the walk did not stop within the bound. */
  datatype WalkError = MissingStart | NoNeighbour | OutOfFuel

  /** The walk o with path in front of it. */
  function Prefixed(path: seq<int>, o: Option<seq<int>>): Option<seq<int>>
  {
    match o
    case None => None
    case Some(w) => Some(path + w)
  }

  lemma PrefixedTwice(a: seq<int>, b: seq<int>, o: Option<seq<int>>)
    ensures Prefixed(a, Prefixed(b, o)) == Prefixed(a + b, o)
  {
    if o.Some? {
      assert a + (b + o.value) == (a + b) + o.value;
    }
  }

  lemma PrefixedNothing(o: Option<seq<int>>)
    ensures Prefixed([], o) == o
  {
    if o.Some? {
      assert [] + o.value == o.value;
    }
  }

  /** square_sequence(gph), with the `while True` loop bounded by fuel appends. */
  method SquareSequence(g: Graph<int>, fuel: nat) returns (r: Result<seq<int>, WalkError>)
    requires g.Valid()
    ensures r == SequenceSpec(g.adj, fuel)
    ensures r.Success? && r.value != [] ==> r.value[0] == g.adj[0][0]
    ensures r.Success? ==> forall i | 0 <= i < |r.value| - 1 ::
              Edge(g.adj, r.value[i], r.value[i + 1]) && r.value[i + 1] != Before(r.value, 0, i)
  {
    if 0 !in g.adj {
      return Failure(MissingStart);
    }
    if g.adj[0] == [] {
      return Failure(NoNeighbour);
    }
    var path := [];
    var last := g.adj[0][0];
    var prev := 0;
    var steps := fuel;
    PrefixedNothing(Walk(g.adj, prev, last, steps));
    while true
      invariant Walk(g.adj, 0, g.adj[0][0], fuel) == Prefixed(path, Walk(g.adj, prev, last, steps))
      decreases steps
    {
      if steps == 0 {
        return Failure(OutOfFuel);
      }
      var nxt := FirstOther(Nbr(g.adj, last), prev);
      PrefixedTwice(path, [last], if nxt.Some? then Walk(g.adj, last, nxt.value, steps - 1) else Some([]));
      path := path + [last];
      if nxt.Some? {
        prev, last := last, nxt.value;
        steps := steps - 1;
      } else {
        assert Walk(g.adj, 0, g.adj[0][0], fuel) == Some(path);
        break;
      }
    }
    r := Success(path[..|path| - 1]);
    SequenceShape(g.adj, fuel);
  }

  /** The chain square_sequence returns begins at the first neighbour of 0, and
      every step of it is an edge that does not go straight back. */
  lemma SequenceShape(adj: map<int, seq<int>>, fuel: nat)
    ensures var r := SequenceSpec(adj, fuel);
      && (r.Success? && r.value != [] ==> r.value[0] == adj[0][0])
      && (r.Success? ==> forall i | 0 <= i < |r.value| - 1 ::
            Edge(adj, r.value[i], r.value[i + 1]) && r.value[i + 1] != Before(r.value, 0, i))
  {
    var r := SequenceSpec(adj, fuel);
    if r.Success? {
      WalkShape(adj, 0, adj[0][0], fuel);
      var w := Walk(adj, 0, adj[0][0], fuel).value;
      assert r.value == w[..|w| - 1];
      forall i | 0 <= i < |r.value| - 1
        ensures Edge(adj, r.value[i], r.value[i + 1]) && r.value[i + 1] != Before(r.value, 0, i)
      {
        assert r.value[i] == w[i] && r.value[i + 1] == w[i + 1] && Before(r.value, 0, i) == Before(w, 0, i);
      }
    }
  }
}

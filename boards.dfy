/**
  The shared shape of the grid and knight's-move generators: a board of
  squares, a set of step vectors, and an edge between two squares of the
  board whenever one is a step away from the other.
*/
module Boards {
  import opened Graphs

  type Cell = (int, int)

  /** The vector from a to b. */
  function Diff(b: Cell, a: Cell): Cell
  {
    (b.0 - a.0, b.1 - a.1)
  }

  /** The square one step d away from a. */
  function Shift(a: Cell, d: Cell): (r: Cell)
    ensures Diff(r, a) == d
  {
    (a.0 + d.0, a.1 + d.1)
  }

  /** a lies on the rows x cols board [0, rows) x [0, cols). */
  predicate OnBoard(rows: int, cols: int, a: Cell)
  {
    0 <= a.0 < rows && 0 <= a.1 < cols
  }

  /** The squares of the rows x cols board (itertools.product(range(rows), range(cols))). */
  function Board(rows: int, cols: int): (r: set<Cell>)
    ensures forall a :: a in r <==> OnBoard(rows, cols, a)
  {
    set i, j | 0 <= i < rows && 0 <= j < cols :: (i, j)
  }

  /** The edge relation the generators build: both squares on the board and one a step from the other. */
  predicate Stepped(board: set<Cell>, steps: set<Cell>, a: Cell, b: Cell)
  {
    a in board && b in board && (Diff(b, a) in steps || Diff(a, b) in steps)
  }

  /** The edges present once every square outside todo has been processed. */
  predicate Added(board: set<Cell>, steps: set<Cell>, todo: set<Cell>, a: Cell, b: Cell)
  {
    a in board && b in board
    && ((a !in todo && Diff(b, a) in steps) || (b !in todo && Diff(a, b) in steps))
  }

  /** The edges added from square s for the steps in done. */
  predicate Partial(board: set<Cell>, done: set<Cell>, s: Cell, a: Cell, b: Cell)
  {
    a in board && b in board
    && ((a == s && Diff(b, a) in done) || (b == s && Diff(a, b) in done))
  }

  /**
    For every square of the board (in whatever order the set yields them) and
    every step (likewise), add the edge to the stepped-to square when it is on
    the board. Vertices enter the graph only through these edges.
  */
  method StepGraph(board: set<Cell>, steps: set<Cell>) returns (g: Graph<Cell>)
    ensures fresh(g) && g.Valid() && g.name == ""
    ensures forall a, b :: Edge(g.adj, a, b) <==> Stepped(board, steps, a, b)
    ensures EdgeInduced(g.adj)
  {
    g := new Graph("");
    var todo := board;
    while todo != {}
      invariant fresh(g) && g.Valid() && g.name == "" && EdgeInduced(g.adj)
      invariant todo <= board
      invariant forall a, b :: Edge(g.adj, a, b) <==> Added(board, steps, todo, a, b)
      decreases todo
    {
      var square :| square in todo;
      AddSquare(g, board, steps, todo, square);
      todo := todo - {square};
    }
  }

  /** The inner loop of the generators: every step from one square. */
  method AddSquare(g: Graph<Cell>, board: set<Cell>, steps: set<Cell>, ghost todo: set<Cell>, square: Cell)
    requires g.Valid() && EdgeInduced(g.adj)
    requires square in todo && todo <= board
    requires forall a, b :: Edge(g.adj, a, b) <==> Added(board, steps, todo, a, b)
    modifies g
    ensures g.Valid() && EdgeInduced(g.adj)
    ensures forall a, b :: Edge(g.adj, a, b) <==> Added(board, steps, todo - {square}, a, b)
  {
    var rest := steps;
    while rest != {}
      invariant g.Valid() && EdgeInduced(g.adj)
      invariant rest <= steps
      invariant forall a, b :: Edge(g.adj, a, b) <==>
                  Added(board, steps, todo, a, b) || Partial(board, steps - rest, square, a, b)
      decreases rest
    {
      var delta :| delta in rest;
      var nbr := Shift(square, delta);
      ghost var before := g.adj;
      if nbr in board {
        g.AddEdge(square, nbr);
      }
      StepAdded(board, steps, todo, rest, square, delta, before, g.adj);
      rest := rest - {delta};
    }
    forall a, b ensures Edge(g.adj, a, b) <==> Added(board, steps, todo - {square}, a, b) {
      assert steps - rest == steps;
    }
  }

  /** Handling one more step from s adds its edge, when the stepped-to square is on the board, and nothing else. */
  lemma StepAdded(board: set<Cell>, steps: set<Cell>, todo: set<Cell>, rest: set<Cell>, s: Cell, delta: Cell,
                  before: map<Cell, seq<Cell>>, after: map<Cell, seq<Cell>>)
    requires delta in rest && rest <= steps && s in board
    requires forall a, b :: Edge(before, a, b) <==> Added(board, steps, todo, a, b) || Partial(board, steps - rest, s, a, b)
    requires Shift(s, delta) in board ==> forall a, b :: Edge(after, a, b) <==>
      Edge(before, a, b) || (a == s && b == Shift(s, delta)) || (a == Shift(s, delta) && b == s)
    requires Shift(s, delta) !in board ==> after == before
    ensures forall a, b :: Edge(after, a, b) <==>
      Added(board, steps, todo, a, b) || Partial(board, steps - (rest - {delta}), s, a, b)
  {
    forall a, b ensures Edge(after, a, b) <==>
      Added(board, steps, todo, a, b) || Partial(board, steps - (rest - {delta}), s, a, b) {
      PartialStep(board, steps, rest, s, delta, a, b);
    }
  }

  lemma PartialStep(board: set<Cell>, steps: set<Cell>, rest: set<Cell>, s: Cell, delta: Cell, a: Cell, b: Cell)
    requires delta in rest && rest <= steps && s in board
    ensures Partial(board, steps - (rest - {delta}), s, a, b) <==>
              Partial(board, steps - rest, s, a, b)
              || (Shift(s, delta) in board && ((a == s && b == Shift(s, delta)) || (a == Shift(s, delta) && b == s)))
  {
    assert steps - (rest - {delta}) == (steps - rest) + {delta};
  }

  /** A square has at most as many neighbours as there are steps. */
  lemma StepDegree(nodes: seq<Cell>, adj: map<Cell, seq<Cell>>, board: set<Cell>, steps: set<Cell>, v: Cell)
    requires WellFormed(nodes, adj) && v in adj
    requires forall a, b :: Edge(adj, a, b) ==> a in board && Diff(b, a) in steps
    ensures |adj[v]| <= |steps|
  {
    var reach := set d | d in steps :: Shift(v, d);
    forall w | Edge(adj, v, w) ensures w in reach {
      assert Shift(v, Diff(w, v)) == w;
    }
    DegreeWithin(nodes, adj, v, reach);
    ImageCard(v, steps);
  }

  lemma {:induction false} ImageCard(v: Cell, steps: set<Cell>)
    ensures |set d | d in steps :: Shift(v, d)| <= |steps|
  {
    if steps != {} {
      var d :| d in steps;
      ImageCard(v, steps - {d});
      assert (set e | e in steps :: Shift(v, e)) == (set e | e in steps - {d} :: Shift(v, e)) + {Shift(v, d)};
    }
  }
}

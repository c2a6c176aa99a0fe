/** The rows x cols grid graph: squares joined when one unit step apart. */
module Grid {
  import opened Graphs
  import opened Boards

  /** The four unit steps along one coordinate. */
  const UnitSteps: set<Cell> := {(1, 0), (-1, 0), (0, 1), (0, -1)}

  /** The second dimension: mnum, or num when mnum is passed as 0. */
  function Columns(num: int, mnum: int): int
  {
    if mnum == 0 then num else mnum
  }

  function Abs(x: int): nat
  {
    if x < 0 then -x else x
  }

  /** Both squares on the board, differing by exactly one in exactly one coordinate. */
  predicate GridEdge(rows: int, cols: int, a: Cell, b: Cell)
  {
    OnBoard(rows, cols, a) && OnBoard(rows, cols, b) && Abs(a.0 - b.0) + Abs(a.1 - b.1) == 1
  }

  lemma UnitStepsMeaning(a: Cell, b: Cell)
    ensures Diff(b, a) in UnitSteps <==> Abs(a.0 - b.0) + Abs(a.1 - b.1) == 1
    ensures Diff(b, a) in UnitSteps <==> Diff(a, b) in UnitSteps
  {
  }

  /** A grid of a single square, or of no square, has no edge; any other grid has one. */
  lemma GridEdgeless(rows: int, cols: int)
    ensures (forall a, b :: !GridEdge(rows, cols, a, b)) <==> (rows <= 0 || cols <= 0 || (rows == 1 && cols == 1))
  {
    if !(rows <= 0 || cols <= 0 || (rows == 1 && cols == 1)) {
      if rows >= 2 {
        assert GridEdge(rows, cols, (0, 0), (1, 0));
      } else {
        assert GridEdge(rows, cols, (0, 0), (0, 1));
      }
    }
  }

  /** A grid edge never joins a square to itself, and the relation is symmetric. */
  lemma GridEdgeShape(rows: int, cols: int, a: Cell, b: Cell)
    ensures !GridEdge(rows, cols, a, a)
    ensures GridEdge(rows, cols, a, b) <==> GridEdge(rows, cols, b, a)
  {
  }

  /** grid_graph(num, mnum) */
  method GridGraph(num: int, mnum: int) returns (g: Graph<Cell>)
    ensures fresh(g) && g.Valid()
    ensures forall a, b :: Edge(g.adj, a, b) <==> GridEdge(num, Columns(num, mnum), a, b)
    ensures forall v | v in g.adj :: OnBoard(num, Columns(num, mnum), v) && 0 < |g.adj[v]| <= 4
    ensures forall v :: !Edge(g.adj, v, v)
    ensures g.nodes == [] <==> (num <= 0 || Columns(num, mnum) <= 0 || (num == 1 && Columns(num, mnum) == 1))
  {
    var cols := if mnum == 0 then num else mnum;
    g := StepGraph(Board(num, cols), UnitSteps);
    GridShape(num, cols, g.nodes, g.adj);
  }

  /** The graph the unit steps build is the grid relation, with at most four
      neighbours per square and no vertex when the grid has no edge. */
  lemma GridShape(rows: int, cols: int, nodes: seq<Cell>, adj: map<Cell, seq<Cell>>)
    requires WellFormed(nodes, adj) && EdgeInduced(adj)
    requires forall a, b :: Edge(adj, a, b) <==> Stepped(Board(rows, cols), UnitSteps, a, b)
    ensures forall a, b :: Edge(adj, a, b) <==> GridEdge(rows, cols, a, b)
    ensures forall v | v in adj :: OnBoard(rows, cols, v) && 0 < |adj[v]| <= 4
    ensures forall v :: !Edge(adj, v, v)
    ensures nodes == [] <==> (rows <= 0 || cols <= 0 || (rows == 1 && cols == 1))
  {
    forall a, b ensures Edge(adj, a, b) <==> GridEdge(rows, cols, a, b) {
      UnitStepsMeaning(a, b);
    }
    forall v | v in adj ensures OnBoard(rows, cols, v) && 0 < |adj[v]| <= 4 {
      assert Edge(adj, v, adj[v][0]);
      forall a, b | Edge(adj, a, b) ensures a in Board(rows, cols) && Diff(b, a) in UnitSteps {
        UnitStepsMeaning(a, b);
      }
      StepDegree(nodes, adj, Board(rows, cols), UnitSteps, v);
    }
    forall v ensures !Edge(adj, v, v) {
      assert Diff(v, v) == (0, 0) && (0, 0) !in UnitSteps;
    }
    GridEdgeless(rows, cols);
    if rows <= 0 || cols <= 0 || (rows == 1 && cols == 1) {
      EdgelessIsEmpty(nodes, adj);
    } else {
      var a, b :| GridEdge(rows, cols, a, b);
      assert a in adj;
    }
  }
}

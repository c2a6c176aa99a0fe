/** The knight's-move graph of the num x num board. */
module Knights {
  import opened Graphs
  import opened Boards

  /** The eight knight moves. */
  const KnightSteps: set<Cell> := {(1, 2), (1, -2), (-1, 2), (-1, -2), (2, 1), (2, -1), (-2, 1), (-2, -1)}

  /** Both squares on the num x num board, a knight's move apart. */
  predicate KnightEdge(num: int, a: Cell, b: Cell)
  {
    OnBoard(num, num, a) && OnBoard(num, num, b) && Diff(b, a) in KnightSteps
  }

  /** The moves are closed under negation, so a knight can always move back. */
  lemma KnightStepsSymmetric(a: Cell, b: Cell)
    ensures Diff(b, a) in KnightSteps <==> Diff(a, b) in KnightSteps
  {
  }

  /** The relation is symmetric and has no self-loops. */
  lemma KnightEdgeShape(num: int, a: Cell, b: Cell)
    ensures !KnightEdge(num, a, a)
    ensures KnightEdge(num, a, b) <==> KnightEdge(num, b, a)
  {
  }

  /** A board of side at most 2 has no knight's move; a larger one has. */
  lemma KnightEdgeless(num: int)
    ensures (forall a, b :: !KnightEdge(num, a, b)) <==> num <= 2
  {
    if num > 2 {
      assert KnightEdge(num, (0, 0), (1, 2));
    } else {
      forall a, b ensures !KnightEdge(num, a, b) {
        if OnBoard(num, num, a) && OnBoard(num, num, b) {
          assert -1 <= Diff(b, a).0 <= 1 && -1 <= Diff(b, a).1 <= 1;
        }
      }
    }
  }

  /** knight_graph(num) */
  method KnightGraph(num: int) returns (g: Graph<Cell>)
    ensures fresh(g) && g.Valid()
    ensures forall a, b :: Edge(g.adj, a, b) <==> KnightEdge(num, a, b)
    ensures forall v | v in g.adj :: OnBoard(num, num, v) && 0 < |g.adj[v]| <= 8
    ensures forall v :: !Edge(g.adj, v, v)
    ensures g.nodes == [] <==> num <= 2
  {
    g := StepGraph(Board(num, num), KnightSteps);
    KnightShape(num, g.nodes, g.adj);
  }

  /** The graph the knight steps build is the knight relation, with at most eight
      neighbours per square and no vertex when no move fits on the board. */
  lemma KnightShape(num: int, nodes: seq<Cell>, adj: map<Cell, seq<Cell>>)
    requires WellFormed(nodes, adj) && EdgeInduced(adj)
    requires forall a, b :: Edge(adj, a, b) <==> Stepped(Board(num, num), KnightSteps, a, b)
    ensures forall a, b :: Edge(adj, a, b) <==> KnightEdge(num, a, b)
    ensures forall v | v in adj :: OnBoard(num, num, v) && 0 < |adj[v]| <= 8
    ensures forall v :: !Edge(adj, v, v)
    ensures nodes == [] <==> num <= 2
  {
    forall a, b ensures Edge(adj, a, b) <==> KnightEdge(num, a, b) {
      KnightStepsSymmetric(a, b);
    }
    forall v | v in adj ensures OnBoard(num, num, v) && 0 < |adj[v]| <= 8 {
      assert Edge(adj, v, adj[v][0]);
      StepDegree(nodes, adj, Board(num, num), KnightSteps, v);
    }
    forall v ensures !Edge(adj, v, v) {
      assert Diff(v, v) == (0, 0) && (0, 0) !in KnightSteps;
    }
    KnightEdgeless(num);
    if num <= 2 {
      EdgelessIsEmpty(nodes, adj);
    } else {
      assert KnightEdge(num, (0, 0), (1, 2));
      assert (0, 0) in adj;
    }
  }
}

# Vertex orders for counting Hamiltonian paths

The `hamiltonian` package counts Hamiltonian paths of families of graphs by
handing an edge list to an external enumeration engine. The list is ordered
so that the engine's frontier stays small. This project models, in Dafny, the
part of the package that builds the graphs and chooses that order. It proves
what each piece promises.

- **Graph generators.**
  - `square_graph(n)` joins i < j ≤ n when i + j is a perfect square.
  - `square_sequence` walks along a square chain.
  - `grid_graph` and `knight_graph` join board squares that are one unit
    step or one knight move apart.
  - `hamming_graph(n)` joins 0/1 tuples of length n that differ in exactly
    one place.
- **The vertex separation model** (`VertexSeparation._model`). It is a
  weighted MaxSAT formula over the variables
  - y(v,t): v is in the first t vertices;
  - u(v,t): v is in that prefix and has a neighbour outside it;
  - z(t): counts one unit of width.

  The formula has these parts:
  - hard clauses: monotonicity of y, a non-increasing chain on z, and the
    boundary clauses forcing u;
  - cardinality constraints: exactly t true y at step t, and at most n over
    the u literals plus the negated z literals;
  - one unit soft clause [-z(t)] per step.
- **`solve` and `pathwidth_order`.** The solver's model is read back through
  the variable pool. The width is the number of true z. Each vertex's rank
  is its least step with a true y, and vertices are listed by ascending rank.
- **`separation` and `alt_separation`.** They compute the width of the
  sorted vertex order under two conventions:
  - vertices of the prefix with a neighbour outside it;
  - vertices outside the prefix with a neighbour in it.
- **`degree_order`.** Greedily take a vertex of largest (or smallest) degree
  in the subgraph induced by the vertices not yet taken.
- **The order dispatch of `get_count`.**

## How the model is built

- **A networkx graph** is the class `Graphs.Graph`.
  - `nodes` lists its vertices in insertion order.
  - `adj` maps each vertex to its neighbours in insertion order.
  - `AddEdge` follows `add_edge`: vertices enter only through edges, and
    self-loops are stored once.
  - Every generator is a method that builds such a graph in place, with the
    same loops as the source.
  - Each generator's contract states the graph's edge relation as an
    arithmetic predicate (`GridEdge`, `KnightEdge`, `SquareEdge`,
    `HammingEdge`), and then its shape: vertex range, degree bound, no
    self-loops, and when it is empty.
- **Iteration over a Python set** (the board, the step deltas) has no fixed
  order. The model picks elements with `:|`, so every proof covers every
  iteration order. `degree_order`'s set `nds` is only removed from and
  passed to `subgraph`, and the degree view it produces is scanned in the
  graph's vertex order (see `Util.Discrim` under "Left out").
- **pysat's `IDPool`** is the class `Pool.IdPool`. It numbers keys 1, 2, …
  with no gaps and has a reverse lookup.
- **The clause families of `_model`** are written as symbolic clauses over
  `Key` (y, u, z) in module `Encoding`.
  - `VertexSeparation` numbers each family through its pool and appends it
    to its integer `hard`, `soft` and `cards` lists, in the order of the
    source's loop.
  - Its invariant `Built(k)` says those lists are the numbering of the
    families of steps 1..k.
- **The cardinality constraints** are kept as constraints (`Card`), with
  their meaning "exactly b" or "at most b true literals". The totalizer
  clauses and auxiliary variables `CardEnc` generates are not modelled.
- **The MaxSAT solver (RC2)** is a parameter `oracle: Wcnf -> Option<seq<int>>`.
  - `Sound(oracle)` demands only that any model it returns satisfies the
    hard clauses and constraints. The model uses the pysat format:
    literal ±i at index i-1.
  - From that alone the model proves `SolveCorrect`: the width is the
    model's objective value, it is at most n, and the rank order is a
    permutation whose vertex separation is at most that width.
  - The formula always has a model: the vertices in listed order, with
    every u and z true (module `Witness`). So a solver that is also
    complete (it returns a model whenever one exists) never makes `solve`
    fail (`SolveSucceeds`).
  - When the solver returns no model, `solve` fails; the source would raise
    when iterating `None`. This is the error `Unsatisfiable`.
  - A vertex without a true y makes `min()` raise. This is the error
    `NoRank`, and it is proved impossible for a model of the formula.
- **`separation` and `alt_separation`** are modelled on graphs with integer
  vertices, such as the square graphs; `sorted` is an insertion sort with its
  contract. No module of the package calls them. The grid, knight and
  Hamming graphs have tuple labels, which `sorted` orders lexicographically;
  those graphs are outside this part of the model.
- **`degree_order`'s generator** becomes a method returning the whole
  sequence. Its loop keeps the set `nds` and reads degrees in the subgraph
  that `nds` induces, so the input graph is not touched.
- **Three points where the code is the authority:**
  - The fallback order of `get_count` is `sorted(gph.nodes)`
    (util.py:68-70). This fallback is `GraphOrder.Default` and any other
    value.
  - The reverse pool lookup of an unknown id gives `None`, which `solve`
    filters out; it is not an error.
  - The boundary clause emitted is the "vertex in the prefix with a
    neighbour outside" convention. That is the one `separation` measures,
    and it is the width proved to bound the decoded order. The module
    docstring (vertex_separation.py:8-10) describes the reversed
    convention, which is `alt_separation`'s.

## Model

| member | source | states |
|---|---|---|
| Graphs.Graph.constructor | hamiltonian/grid.py:12 | a new graph has no vertices and no adjacency |
| Graphs.Graph.AddEdge | hamiltonian/grid.py:17 | add_edge: endpoints appended to the vertex list when new, the edge relation gains exactly u–v and v–u, well-formedness and "every vertex has an edge" are preserved |
| Graphs.LinkEdges | hamiltonian/grid.py:17 | linking a to b adds exactly the edge a→b to the edge relation |
| Graphs.AddEdgeWellFormed | hamiltonian/grid.py:17 | adding an edge keeps vertices distinct, keys equal to vertices, neighbour lists duplicate-free and adjacency symmetric |
| Graphs.EdgelessIsEmpty | hamiltonian/grid.py:13-18 | a graph built only by add_edge with no edge has no vertex |
| Boards.StepGraph | hamiltonian/grid.py:12-18 | the board-and-deltas double loop yields a graph whose edges are exactly pairs of board squares one delta apart (both directions) |
| Boards.AddSquare | hamiltonian/grid.py:14-17 | the inner loop over the deltas adds exactly the edges from square to its in-board shifts |
| Grid.UnitStepsMeaning | hamiltonian/grid.py:11 | a difference is a unit step iff the squares are at Manhattan distance 1; the step set is closed under negation |
| Grid.GridEdgeShape | hamiltonian/grid.py:11-17 | grid adjacency is irreflexive and symmetric |
| Grid.GridEdgeless | hamiltonian/grid.py:10-18 | the grid has no edge iff a side is non-positive or the board is 1×1 |
| Grid.GridGraph | hamiltonian/grid.py:8-18 | mnum defaults to num when 0; edges are exactly unit-distance pairs on [0,num)×[0,mnum); every vertex is on the board with 1 to 4 neighbours; no self-loops; empty exactly when the board has no adjacent pair |
| Grid.GridShape | hamiltonian/grid.py:13-18 | from the step relation: grid adjacency, board range, degree 1..4, no self-loops, emptiness condition |
| Knights.KnightStepsSymmetric | hamiltonian/knights.py:10-11 | the knight deltas are closed under negation |
| Knights.KnightEdgeShape | hamiltonian/knights.py:10-18 | knight adjacency is irreflexive and symmetric |
| Knights.KnightEdgeless | hamiltonian/knights.py:12-18 | there is no knight move on the board iff num ≤ 2 |
| Knights.KnightGraph | hamiltonian/knights.py:8-19 | edges are exactly knight moves inside [0,num)²; every vertex has 1 to 8 neighbours; no self-loops; empty iff num ≤ 2 |
| Knights.KnightShape | hamiltonian/knights.py:14-18 | from the step relation: knight adjacency, board range, degree 1..8, no self-loops, emptiness iff num ≤ 2 |
| Squares.SquaresCover | hamiltonian/squares.py:44 | every sum 3..2·num−1 of two distinct vertices is in the square set iff it is a perfect square |
| Squares.SquareGraph | hamiltonian/squares.py:30-49 | edges are exactly i–j with 1 ≤ i < j ≤ num (either direction) and i+j a square; vertices lie in 1..num and all have an edge; the graph is empty exactly when num ≤ 2 |
| Squares.AddPartners | hamiltonian/squares.py:45-48 | one ind of the generator adds exactly the square-sum partners j > ind |
| Squares.SmallSquareGraphEmpty | hamiltonian/squares.py:43-48 | num ≤ 2 gives no edge |
| Squares.SquareGraphEmpty | hamiltonian/squares.py:43-48 | a graph whose edges are the square pairs has no vertex exactly when num ≤ 2 (1–3 is an edge from num = 3 on) |
| Squares.FirstOther | hamiltonian/squares.py:63-64 | the first neighbour other than prev, none exactly when all neighbours equal prev |
| Squares.WalkShape | hamiltonian/squares.py:61-67 | the walk starts at last, each step goes to the first neighbour other than the vertex just left (an edge, never straight back), and stops exactly where there is none |
| Squares.SquareSequence | hamiltonian/squares.py:55-68 | the loop returns the walk from the first neighbour of 0 with its last vertex dropped, or the error when 0 is missing, has no neighbour, or the bound runs out; the path starts at that neighbour and every step is an edge not going back |
| Squares.SequenceShape | hamiltonian/squares.py:58-68 | the result starts at the first neighbour of 0 and every step is an edge that is not the previous vertex |
| Hamming.Flip | hamiltonian/hamming.py:15 | the tuple with position i flipped and every other position kept |
| Hamming.FlipsMeaning | hamiltonian/hamming.py:15-16 | b is among the flips of a tuple a iff a and b are tuples of the same length differing in exactly one place |
| Hamming.FlipsDistinct | hamiltonian/hamming.py:15-16 | the flips of one tuple are pairwise different |
| Hamming.TuplesComplete | hamiltonian/hamming.py:13 | product(range(2), repeat=num) lists exactly the 0/1 tuples of length num |
| Hamming.TuplesDistinct | hamiltonian/hamming.py:13 | it lists each once, 2^num in all |
| Hamming.DecimalRoundTrip | hamiltonian/hamming.py:12 | the decimal rendering of num is all digits, has no leading zero and reads back as num |
| Hamming.HammingGraph | hamiltonian/hamming.py:8-17 | named hamming(num); edges are exactly one-place differences of num-tuples; each vertex a tuple of degree num; no self-loops; 2^num vertices for num ≥ 1, none for num = 0 |
| Hamming.AddFlips | hamiltonian/hamming.py:15-16 | one add_edges_from adds exactly the edges from pnt to its flips |
| Hamming.HammingShape | hamiltonian/hamming.py:13-16 | from the edge relation: tuple vertices of degree num, no self-loops, the vertex count |
| Pool.IdPool.constructor | hamiltonian/vertex_separation.py:115 | a new pool has allocated nothing |
| Pool.IdPool.Id | hamiltonian/vertex_separation.py:134 | id(k): a known key keeps its id and nothing changes; a new key gets the next id top+1 and both maps gain it |
| Pool.IdPool.Obj | hamiltonian/vertex_separation.py:194 | obj(i) is a key exactly for allocated ids, and that key's id is i |
| Pool.IdPool.ObjId | hamiltonian/vertex_separation.py:194 | obj(id(k)) == k |
| Encoding.MonoFor | hamiltonian/vertex_separation.py:133-135 | n−1 clauses [−y(v,t), y(v,t+1)] for t = 1..n−1 |
| Encoding.ZChain | hamiltonian/vertex_separation.py:142-143 | n−1 clauses [z(t), −z(t+1)] |
| Encoding.ZNeg | hamiltonian/vertex_separation.py:144 | the n literals −z(1..n) |
| Encoding.BoundaryFor | hamiltonian/vertex_separation.py:146-151 | one clause [−y(v,t), u(v,t), y(w,t)] per neighbour w of v |
| Encoding.YLits | hamiltonian/vertex_separation.py:163 | y(v,t) for each vertex in order |
| Encoding.ULits | hamiltonian/vertex_separation.py:168 | u(v,t) for each vertex in order |
| Encoding.Soft | hamiltonian/vertex_separation.py:161 | one unit clause [−z(t)] for each step |
| Encoding.EncodeClausesStable | hamiltonian/vertex_separation.py:133-173 | clauses numbered earlier keep their numbers as the pool grows |
| Encoding.ClauseBridge | hamiltonian/vertex_separation.py:133-151 | a numbered clause is true in a solver model iff the symbolic clause holds in the model's set of true variables |
| Encoding.CountBridge | hamiltonian/vertex_separation.py:164-173 | the number of true numbered literals is the number of true symbolic ones |
| Encoding.ModelBridge | hamiltonian/vertex_separation.py:133-173 | a model of the numbered clauses and constraints satisfies the symbolic ones |
| Meaning.MonoMember | hamiltonian/vertex_separation.py:133-135 | the monotonicity family holds exactly the clauses [−y(v,t), y(v,t+1)], v a vertex, 1 ≤ t < n |
| Meaning.MonoOnce | hamiltonian/vertex_separation.py:133-135 | each such clause occurs exactly once |
| Meaning.MonoModel | hamiltonian/vertex_separation.py:133-135 | in any satisfying assignment y(v,t) implies y(v,t') for t ≤ t' ≤ n |
| Meaning.ZChainMember | hamiltonian/vertex_separation.py:142-143 | [z(t), −z(t+1)] is emitted iff 1 ≤ t < n |
| Meaning.ZChainModel | hamiltonian/vertex_separation.py:142-143 | a true z(t') makes every z(t), t ≤ t', true |
| Meaning.ZPrefix | hamiltonian/vertex_separation.py:142-143 | the true z steps are exactly 1..k, k their number |
| Meaning.BoundaryMember | hamiltonian/vertex_separation.py:145-151 | the step-t family holds exactly the clauses [−y(v,t), u(v,t), y(w,t)] for w a neighbour of v |
| Meaning.BoundaryModel | hamiltonian/vertex_separation.py:145-151 | y(v,t) with a neighbour w where y(w,t) is false forces u(v,t) |
| Meaning.SoftCost | hamiltonian/vertex_separation.py:161 | the violated soft weight equals the number of true z |
| Meaning.ZSetWithin | hamiltonian/vertex_separation.py:144 | at most n z are true |
| Meaning.CountZNeg | hamiltonian/vertex_separation.py:144 | the true literals of zneg number n minus the true z |
| Meaning.CountYLits | hamiltonian/vertex_separation.py:163 | the true literals of ylits are the vertices of S[t] |
| Meaning.CountULits | hamiltonian/vertex_separation.py:168 | the true literals of ulits are the vertices with a true u(v,t) |
| Meaning.CardsMember | hamiltonian/vertex_separation.py:163-173 | step t contributes "exactly t of ylits" and "at most n of ulits + zneg" |
| Meaning.CardsModel | hamiltonian/vertex_separation.py:163-173 | in any satisfying assignment S[t] has exactly t vertices and at most as many u(·,t) are true as z |
| Sorting.SortBy | hamiltonian/vertex_separation.py:211 | sorted(..., key): a permutation of its input |
| Sorting.SortSorted | hamiltonian/vertex_separation.py:211 | the result is in ascending key order |
| Sorting.SortInts | hamiltonian/vertex_separation.py:215 | sorted(gph.nodes): ascending and a permutation |
| Decoding.MinOf | hamiltonian/vertex_separation.py:198 | min of a non-empty set is in it and below every element |
| Decoding.RankOf | hamiltonian/vertex_separation.py:198 | the least step with a true y for v, none iff v has no true y |
| Decoding.Ranks | hamiltonian/vertex_separation.py:198-199 | yorder pairs every vertex with its rank in vertex order; fails with NoRank iff some vertex has none |
| Decoding.Names | hamiltonian/vertex_separation.py:211 | the first components, position by position |
| Decoding.PositivesTrue | hamiltonian/vertex_separation.py:194 | under a gap-free pool, the positive literals of a total model name exactly its true variables and never an unknown id |
| Decoding.DecodeMeaning | hamiltonian/vertex_separation.py:194-196 | zvals has as many entries as true z, and yvals holds exactly the true y |
| Widths.WidthIsMax | hamiltonian/vertex_separation.py:219-223 | the width of k prefixes is the maximum of their frontier sizes (0 for none) |
| Widths.WidthBound | hamiltonian/vertex_separation.py:219-223 | a bound on every prefix frontier bounds the width |
| Widths.WidthWithin | hamiltonian/vertex_separation.py:213-237 | the width is at most n, and 0 for a graph without edges |
| Layout.RankMeaning | hamiltonian/vertex_separation.py:198-199 | in a solution each vertex has a rank in 1..n and y(v,t) holds exactly from its rank on |
| Layout.LevelPrefix | hamiltonian/vertex_separation.py:211 | in pairs sorted by rank, "rank ≤ t" picks out the first t vertices |
| Layout.OrderIsPermutation | hamiltonian/vertex_separation.py:198-211 | the ranks decode, and sorted by rank they list every vertex once |
| Layout.PrefixIsLevel | hamiltonian/vertex_separation.py:202-211 | the first t vertices of the rank order are S[t] |
| Layout.FrontierBound | hamiltonian/vertex_separation.py:145-173 | when a prefix is S[t], its vertices with a neighbour outside are at most the true z |
| Layout.LayoutWidth | hamiltonian/vertex_separation.py:202-211 | the rank order is a permutation, each t-prefix is S[t], and its separation is at most the true z count, itself at most n |
| Witness.HardParts | hamiltonian/vertex_separation.py:132-150 | every hard clause of steps 1..k is a monotonicity clause, a z-chain clause or a boundary clause of some step 1..k |
| Witness.CardsParts | hamiltonian/vertex_separation.py:159-171 | every constraint of steps 1..k is the "exactly t" or the "at most n" constraint of some step t in 1..k |
| Witness.IdentityHard | hamiltonian/vertex_separation.py:132-150 | the layout taking the vertices in listed order, with every u and z true, satisfies every hard clause |
| Witness.IdentityLevel | hamiltonian/vertex_separation.py:159-163 | under that layout S[t] is the first t vertices, t of them |
| Witness.IdentityZ | hamiltonian/vertex_separation.py:143 | under that layout all n z are true |
| Witness.IdentityEquals | hamiltonian/vertex_separation.py:159-163 | under that layout exactly t of the ylits of step t are true |
| Witness.IdentityAtMost | hamiltonian/vertex_separation.py:164-171 | under that layout ulits + zneg has at most n true literals |
| Witness.IdentityCards | hamiltonian/vertex_separation.py:159-171 | that layout satisfies every cardinality constraint |
| Witness.LayoutModel | hamiltonian/vertex_separation.py:190 | the layout written as a pysat model: literal ±i at index i−1 for every pool id |
| Witness.LayoutAssignment | hamiltonian/vertex_separation.py:194 | read back through a gap-free pool, the positive literals of that model are exactly the placed keys |
| Pathwidth.CostBridge | hamiltonian/vertex_separation.py:161 | the weight a solver model loses on the numbered soft clauses is the symbolic cost |
| Pathwidth.DecodeModel | hamiltonian/vertex_separation.py:194-200 | any model of the numbered formula decodes; its width is the model's objective value, at most n, and bounds the separation of the rank order, a permutation of the vertices |
| Pathwidth.VertexSeparation.constructor | hamiltonian/vertex_separation.py:112-119 | the object holds the graph, size n and a fresh pool, and its lists are the numbered formula of all n steps |
| Pathwidth.VertexSeparation.Model | hamiltonian/vertex_separation.py:121-181 | _model leaves hard, soft and cards equal to the numbering of every family over steps 1..n |
| Pathwidth.VertexSeparation.BaseLits | hamiltonian/vertex_separation.py:133-144 | the monotonicity and chain clauses are numbered and stored, and zneg is the numbering of −z(1..n) |
| Pathwidth.VertexSeparation.Round | hamiltonian/vertex_separation.py:145-173 | step tme appends its boundary clauses, soft clause and two constraints, extending the formula from steps 1..tme−1 to 1..tme |
| Pathwidth.VertexSeparation.SolveCorrect | hamiltonian/vertex_separation.py:184-200 | with a sound solver, solve fails only when it finds no model; otherwise the width is the objective value, at most n, and bounds the separation of the rank order, a permutation |
| Pathwidth.PathwidthOrder | hamiltonian/vertex_separation.py:202-211 | the result is `solve` of a fresh valid VertexSeparation of the same graph, with its pairs sorted by rank; the order is a permutation of the vertices whose separation is at most the reported width, itself at most n; fails only when the solver finds no model |
| Pathwidth.FormulaSatisfiable | hamiltonian/vertex_separation.py:121-173 | the numbered formula of `_model` has a model: the listed-order layout read through the pool |
| Pathwidth.VertexSeparation.Satisfiable | hamiltonian/vertex_separation.py:112-173 | the formula a valid object holds has the listed-order layout as a model |
| Pathwidth.VertexSeparation.SolveSucceeds | hamiltonian/vertex_separation.py:184-200 | with a sound solver that finds a model whenever one exists, solve never fails |
| Separation.FrontierSets | hamiltonian/vertex_separation.py:220-235 | the set comprehensions over the prefix set are the two frontiers |
| Separation.InnerStep | hamiltonian/vertex_separation.py:219-223 | one round raises val to the width of one more prefix (inner frontier) |
| Separation.OuterStep | hamiltonian/vertex_separation.py:232-236 | one round raises val to the width of one more prefix (outer frontier) |
| Separation.Separation | hamiltonian/vertex_separation.py:213-224 | the maximum over prefixes of the sorted vertices of the prefix vertices with a neighbour outside; at most n; 0 without edges |
| Separation.AltSeparation | hamiltonian/vertex_separation.py:226-237 | the maximum over prefixes of the vertices outside with a neighbour inside; at most n; 0 without edges |
| Util.Discrim | hamiltonian/util.py:38-48 | max/min by degree in the induced subgraph: an extreme vertex, the first such in vertex order |
| Util.DegreeOrder | hamiltonian/util.py:36-51 | every vertex exactly once, each of extreme degree in the subgraph induced by the vertices not yet taken |
| Util.OrderStep | hamiltonian/util.py:45-51 | taking one more extreme vertex keeps the order duplicate-free and shrinks nds by that vertex |
| Util.Dispatch | hamiltonian/util.py:53-70 | Increasing/Decreasing use degree order (min/max) as-is, Dfs/Bfs decreasing degree with "dfs"/"bfs", PathWidth the path-width strategy, anything else the sorted list; only Dfs and Bfs change the traversal |
| Util.EdgeOrder | hamiltonian/util.py:53-70 | the order handed on is a permutation of the vertices with the traversal of the dispatch; degree orders are greedy-extreme; PathWidth hands on exactly the rank order of `solve` on a fresh valid VertexSeparation of the graph, whose separation is at most the solver's objective value, itself at most n; the fallback is sorted; only PathWidth can fail |

## Left out

- The MaxSAT search of RC2 and RC2Stratified, the `solver` and `stratified`
  arguments and the `oracle_time` print are foreign solver code. The solver is
  a parameter that is only assumed sound.
- Pathwidth.VertexSeparation.SolveCorrect: does not state that the width is
  optimal (the least over all layouts), because that is a property of RC2's
  search, which is outside the model.
- Pathwidth.PathwidthOrder: likewise bounds the separation by the reported
  width but does not state that the width is the minimum. Its result is the
  `solve` of the object it returns, so `SolveSucceeds` shows that a complete
  solver never makes it fail.
- The totalizer clauses and auxiliary variables of `CardEnc.equals` and
  `CardEnc.atmost`, and the `encode` argument of the constructor, are foreign
  encodings. They are kept as cardinality constraints with their meaning.
- The commented-out x-variable clauses of `_model` are dead code.
- The ranks are not stated as a permutation of 1..n. The model states the
  equivalent fact that each t-prefix of the rank order is S[t].
- Counting in `get_count` is not modelled: the edge list in vertex order,
  `GraphSet.set_universe` and `GraphSet.paths(...).len()` belong to an
  external enumeration engine. `use_networkx` only sets that engine's
  converters.
- Util.EdgeOrder: states the vertex order and traversal handed to the engine,
  not the count it returns.
- The "Illegal order" print of the fallback branch.
- `relabeled_graph` and `ODICT` are a networkx relabelling wrapper and are not
  part of this model.
- `get_square_count` only delegates to `get_count`.
- `run.py` and `timer.py` are command-line parsing, printing and timing.
- Util.Discrim: breaks degree ties by the first vertex in insertion order. The
  degree view of a networkx subgraph may iterate in another order, so which of
  several extreme vertices is taken is not promised.
- Util.DegreeOrder: returns the whole sequence instead of yielding lazily.
  The set of orders it can give, as stated, is unchanged.
- Squares.SquareSequence: the `while True` loop is bounded by a fuel
  parameter, with the error OutOfFuel when the walk has not stopped in time.
  On a cyclic component the source loops forever, which the model does not
  show.
- Hamming.HammingGraph: num is a natural number. The source raises for a
  negative repeat count, and that error is not modelled.
- Separation.Separation and Separation.AltSeparation: vertices are integers.
  The tuple-labelled grid, knight and Hamming graphs, which `sorted` would
  order lexicographically, are not covered.
- The graph's name is modelled only where the source sets it (`hamming_graph`);
  networkx's other graph attributes are not modelled.

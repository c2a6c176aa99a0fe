/**
  VertexSeparation.solve after the solver call: the pysat model is read back
  through the pool into the true z steps (the width) and, for every vertex,
  the least step whose y is true (its rank); pathwidth_order then sorts the
  vertices by rank.
*/
module Decoding {
  import opened Wrappers
  import opened Seqs
  import opened Pool
  import opened Encoding
  import opened Sorting

  /** Unsatisfiable: the solver found no model (soln is None); NoRank: some vertex
      has no true y, so min() of an empty sequence fails. */
  datatype SolveError = Unsatisfiable | NoRank

  /** pos = [pool.obj(l) for l in soln if l > 0]. */
  function Positives<K>(id2obj: map<nat, K>, soln: seq<int>): seq<Option<K>>
  {
    if soln == [] then []
    else Positives(id2obj, soln[..|soln| - 1])
         + (if soln[|soln| - 1] > 0 then [ObjOf(id2obj, soln[|soln| - 1])] else [])
  }

  /** zvals = [o[1] for o in pos if o is not None and o[0] == 'z']. */
  function ZVals<V>(pos: seq<Option<Key<V>>>): seq<int>
  {
    if pos == [] then []
    else ZVals(pos[..|pos| - 1])
         + (var o := pos[|pos| - 1]; if o.Some? && o.value.Z? then [o.value.t] else [])
  }

  /** yvals = {o[1] for o in pos if o is not None and o[0] == 'y'}. */
  function YVals<V(==)>(pos: seq<Option<Key<V>>>): set<(V, int)>
  {
    set i | 0 <= i < |pos| && pos[i].Some? && pos[i].value.Y? :: (pos[i].value.v, pos[i].value.t)
  }

  lemma MinExists(s: set<int>)
    requires s != {}
    ensures exists m | m in s :: forall x | x in s :: m <= x
    decreases |s|
  {
    var x := Pick(s);
    var r := s - {x};
    if r == {} {
      forall y | y in s ensures x <= y {
        assert y !in r;
      }
    } else {
      MinExists(r);
      var m :| m in r && forall y | y in r :: m <= y;
      var least := if x < m then x else m;
      forall y | y in s ensures least <= y {
        if y != x { assert y in r; }
      }
      assert least in s;
    }
  }

  /** min of a non-empty set of steps. */
  function MinOf(s: set<int>): (m: int)
    requires s != {}
    ensures m in s && forall x | x in s :: m <= x
  {
    MinExists(s);
    var m :| m in s && forall x | x in s :: m <= x; m
  }

  /** The rank of v: the least t with (v, t) in yvals, if there is one. */
  function RankOf<V(==)>(yvals: set<(V, int)>, v: V): (r: Option<int>)
    ensures r.None? <==> forall t :: (v, t) !in yvals
    ensures r.Some? ==> (v, r.value) in yvals && forall t | (v, t) in yvals :: r.value <= t
  {
    var ts := set p | p in yvals && p.0 == v :: p.1;
    if ts == {} then
      assert forall t :: (v, t) in yvals ==> t in ts;
      None
    else
      var m := MinOf(ts);
      assert forall t | (v, t) in yvals :: t in ts;
      Some(m)
  }

  /** yorder = {node: min(...) for node in nodes}, kept in the order of nodes; it fails
      at the first vertex without a rank. */
  function Ranks<V(==)>(yvals: set<(V, int)>, nodes: seq<V>): (r: Result<seq<(V, int)>, SolveError>)
    ensures r.Success? <==> forall i | 0 <= i < |nodes| :: RankOf(yvals, nodes[i]).Some?
    ensures r.Failure? ==> r.error == NoRank
    ensures r.Success? ==> |r.value| == |nodes|
    ensures r.Success? ==> forall i | 0 <= i < |nodes| :: r.value[i] == (nodes[i], RankOf(yvals, nodes[i]).value)
  {
    if nodes == [] then Success([])
    else match Ranks(yvals, nodes[..|nodes| - 1])
      case Failure(e) => Failure(e)
      case Success(init) =>
        match RankOf(yvals, nodes[|nodes| - 1])
        case None => Failure(NoRank)
        case Some(t) => Success(init + [(nodes[|nodes| - 1], t)])
  }

  /** The decoded solution: the number of true z, and the vertices with their ranks. */
  function Decode<V(==)>(id2obj: map<nat, Key<V>>, nodes: seq<V>, soln: seq<int>): Result<(nat, seq<(V, int)>), SolveError>
  {
    var pos := Positives(id2obj, soln);
    match Ranks(YVals(pos), nodes)
    case Failure(e) => Failure(e)
    case Success(yorder) => Success((|ZVals(pos)|, yorder))
  }

  function Names<V>(items: seq<(V, int)>): (r: seq<V>)
    ensures |r| == |items| && forall i | 0 <= i < |items| :: r[i] == items[i].0
  {
    seq(|items|, i requires 0 <= i < |items| => items[i].0)
  }

  /** The sort key of pathwidth_order: lambda _: _[1]. */
  function Step<V>(p: (V, int)): int
  {
    p.1
  }

  /** [_[0] for _ in sorted(renumber.items(), key=lambda _: _[1])] */
  function Order<V>(items: seq<(V, int)>): seq<V>
  {
    Names(SortBy(items, Step))
  }

  // ------------------------------------------------------------- reading back

  lemma {:induction false} PositivesMember<K>(id2obj: map<nat, K>, soln: seq<int>, x: Option<K>)
    ensures x in Positives(id2obj, soln) <==>
      exists i | 0 <= i < |soln| :: soln[i] > 0 && ObjOf(id2obj, soln[i]) == x
  {
    if soln != [] {
      var init := soln[..|soln| - 1];
      PositivesMember(id2obj, init, x);
      if exists i | 0 <= i < |soln| :: soln[i] > 0 && ObjOf(id2obj, soln[i]) == x {
        var i :| 0 <= i < |soln| && soln[i] > 0 && ObjOf(id2obj, soln[i]) == x;
        if i < |init| {
          assert init[i] == soln[i];
        }
      }
      if exists i | 0 <= i < |init| :: init[i] > 0 && ObjOf(id2obj, init[i]) == x {
        var i :| 0 <= i < |init| && init[i] > 0 && ObjOf(id2obj, init[i]) == x;
        assert soln[i] == init[i];
      }
    }
  }

  /** Under a gap-free numbering, a total model's positive literals name exactly the
      variables its assignment makes true, each once. */
  lemma PositivesTrue<V>(m: map<Key<V>, nat>, id2obj: map<nat, Key<V>>, top: nat, soln: seq<int>, k: Key<V>)
    requires Bijection(m, id2obj, top) && Total(soln, top)
    ensures Some(k) in Positives(id2obj, soln) <==> k in Assignment(m, soln)
    ensures None !in Positives(id2obj, soln)
  {
    PositivesMember(id2obj, soln, Some(k));
    PositivesMember(id2obj, soln, None);
    if k in Assignment(m, soln) {
      var i := m[k] - 1;
      assert soln[i] > 0 && ObjOf(id2obj, soln[i]) == Some(k);
    }
  }

  lemma {:induction false} PositivesDistinct<V>(m: map<Key<V>, nat>, id2obj: map<nat, Key<V>>, top: nat, soln: seq<int>)
    requires Bijection(m, id2obj, top) && Total(soln, |soln|) && |soln| <= top
    ensures Distinct(Positives(id2obj, soln))
  {
    if soln != [] {
      var init := soln[..|soln| - 1];
      var last := soln[|soln| - 1];
      assert Total(init, |init|) by {
        forall i | 0 <= i < |init| ensures init[i] == i + 1 || init[i] == -(i + 1) {
          assert init[i] == soln[i];
        }
      }
      PositivesDistinct(m, id2obj, top, init);
      if last > 0 {
        var x := ObjOf(id2obj, last);
        PositivesMember(id2obj, init, x);
        forall i | 0 <= i < |init| && init[i] > 0 ensures ObjOf(id2obj, init[i]) != x {
          assert init[i] == soln[i] == i + 1 && last == |soln|;
          assert m[id2obj[init[i] as nat]] == init[i] && m[id2obj[last as nat]] == last;
        }
        var p := Positives(id2obj, init);
        assert Positives(id2obj, soln) == p + [x];
        forall i, j | 0 <= i < j < |p| + 1 ensures (p + [x])[i] != (p + [x])[j] {
          if j == |p| {
            assert (p + [x])[i] == p[i];
          } else {
            assert (p + [x])[i] == p[i] && (p + [x])[j] == p[j];
          }
        }
      }
    }
  }

  lemma {:induction false} ZValsMember<V>(pos: seq<Option<Key<V>>>, t: int)
    ensures t in ZVals(pos) <==> Some(Z(t)) in pos
  {
    if pos != [] {
      var init := pos[..|pos| - 1];
      ZValsMember(init, t);
      assert pos == init + [pos[|pos| - 1]];
    }
  }

  lemma {:induction false} ZValsDistinct<V>(pos: seq<Option<Key<V>>>)
    requires Distinct(pos)
    ensures Distinct(ZVals(pos))
  {
    if pos != [] {
      var init := pos[..|pos| - 1];
      var o := pos[|pos| - 1];
      assert Distinct(init);
      ZValsDistinct(init);
      if o.Some? && o.value.Z? {
        ZValsMember(init, o.value.t);
        assert Some(Z(o.value.t)) == o;
        assert o !in init by {
          forall j | 0 <= j < |init| ensures init[j] != o {
            assert init[j] == pos[j];
          }
        }
        var z := ZVals(init);
        forall i, j | 0 <= i < j < |z| + 1 ensures (z + [o.value.t])[i] != (z + [o.value.t])[j] {
          if j == |z| {
            assert (z + [o.value.t])[i] == z[i];
          } else {
            assert (z + [o.value.t])[i] == z[i] && (z + [o.value.t])[j] == z[j];
          }
        }
      }
    }
  }

  lemma YValsMember<V>(pos: seq<Option<Key<V>>>, v: V, t: int)
    ensures (v, t) in YVals(pos) <==> Some(Y(v, t)) in pos
  {
    if (v, t) in YVals(pos) {
      var i :| 0 <= i < |pos| && pos[i].Some? && pos[i].value.Y? && (pos[i].value.v, pos[i].value.t) == (v, t);
      assert pos[i] == Some(Y(v, t));
    }
    if Some(Y(v, t)) in pos {
      var i :| 0 <= i < |pos| && pos[i] == Some(Y(v, t));
      assert (pos[i].value.v, pos[i].value.t) in YVals(pos);
    }
  }

  /** Read back through a gap-free numbering, the width is the number of true z steps
      and yvals holds exactly the true y variables. */
  lemma DecodeMeaning<V>(m: map<Key<V>, nat>, id2obj: map<nat, Key<V>>, top: nat, soln: seq<int>, n: int)
    requires Bijection(m, id2obj, top) && Total(soln, top)
    requires forall k | k in m :: k.Z? ==> 1 <= k.t <= n
    ensures |ZVals(Positives(id2obj, soln))| == |ZSet(Assignment(m, soln), n)|
    ensures forall v, t :: (v, t) in YVals(Positives(id2obj, soln)) <==> Y(v, t) in Assignment(m, soln)
  {
    var pos := Positives(id2obj, soln);
    var T := Assignment(m, soln);
    forall v, t ensures (v, t) in YVals(pos) <==> Y(v, t) in T {
      YValsMember(pos, v, t);
      PositivesTrue(m, id2obj, top, soln, Y(v, t));
    }
    forall t ensures t in Elems(ZVals(pos)) <==> t in ZSet(T, n) {
      ZValsMember(pos, t);
      PositivesTrue(m, id2obj, top, soln, Z(t));
      if Z(t) in T {
        assert t in ZSet(T, n);
      }
    }
    assert Elems(ZVals(pos)) == ZSet(T, n);
    PositivesDistinct(m, id2obj, top, soln);
    ZValsDistinct(pos);
    DistinctCard(ZVals(pos));
  }
}

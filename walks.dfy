/**
  Walks in the graph of an adjacency matrix and their total weights, and the
  fact that the relaxation only ever writes the weight of an existing walk into
  the distance table, whatever the signs of the weights.
*/
module Walks {
  import opened Wrappers
  import opened Extended
  import opened Relaxation

  /** Every vertex of `ps` is one of the n vertices and consecutive ones are joined by an edge. */
  predicate Steps(W: Matrix, ps: seq<nat>)
    requires IsMatrix(W)
  {
    && (forall i :: 0 <= i < |ps| ==> ps[i] < |W|)
    && (forall i :: 0 <= i < |ps| - 1 ==> W[ps[i]][ps[i + 1]].Some?)
  }

  /** `ps` is a walk from a to b: a single vertex when a == b, otherwise a chain of edges. */
  predicate IsWalk(W: Matrix, ps: seq<nat>, a: nat, b: nat)
    requires IsMatrix(W)
  {
    |ps| >= 1 && ps[0] == a && ps[|ps| - 1] == b && Steps(W, ps)
  }

  /** The sum of the weights of the edges along `ps`. */
  function Weight(W: Matrix, ps: seq<nat>): (s: int)
    requires IsMatrix(W) && Steps(W, ps)
    decreases |ps|
  {
    if |ps| <= 1 then 0 else W[ps[0]][ps[1]].value + Weight(W, ps[1..])
  }

  /** Prepending an edge a -> x to a walk from x gives a walk from a, heavier by that edge. */
  lemma WalkCons(W: Matrix, ps: seq<nat>, a: nat, x: nat, b: nat)
    requires IsMatrix(W) && a < |W| && IsWalk(W, ps, x, b) && W[a][x].Some?
    ensures IsWalk(W, [a] + ps, a, b)
    ensures Weight(W, [a] + ps) == W[a][x].value + Weight(W, ps)
  {
    assert ([a] + ps)[1..] == ps;
  }

  /** Joining a walk a ~> m to a walk m ~> b gives a walk a ~> b whose weight is the sum. */
  lemma {:induction false} WalkJoin(W: Matrix, p1: seq<nat>, p2: seq<nat>, a: nat, m: nat, b: nat)
    requires IsMatrix(W) && IsWalk(W, p1, a, m) && IsWalk(W, p2, m, b)
    ensures IsWalk(W, p1 + p2[1..], a, b)
    ensures Weight(W, p1 + p2[1..]) == Weight(W, p1) + Weight(W, p2)
    decreases |p1|
  {
    if |p1| == 1 {
      assert p1 + p2[1..] == p2;
    } else {
      var x := p1[1];
      WalkJoin(W, p1[1..], p2, x, m, b);
      assert p1 + p2[1..] == [a] + (p1[1..] + p2[1..]);
      WalkCons(W, p1[1..] + p2[1..], a, x, b);
    }
  }

  /** Every finite entry of the distance table is the weight of some walk. */
  ghost predicate WalkBacked(W: Matrix, T: Tables)
    requires IsMatrix(W) && Shaped(T, |W|)
  {
    forall a: nat, b: nat :: a < |W| && b < |W| && T.dist[a][b].Fin? ==>
      exists ps :: IsWalk(W, ps, a, b) && Weight(W, ps) == T.dist[a][b].n
  }

  /** The seeded tables: 0 is the empty walk, an edge's weight is that one-edge walk. */
  lemma InitialWalkBacked(W: Matrix)
    requires IsMatrix(W)
    ensures WalkBacked(W, Initial(W))
  {
    var T := Initial(W);
    forall a: nat, b: nat | a < |W| && b < |W| && T.dist[a][b].Fin?
      ensures exists ps :: IsWalk(W, ps, a, b) && Weight(W, ps) == T.dist[a][b].n
    {
      InitialTables(W, a, b);
      if a == b {
        assert IsWalk(W, [a], a, b) && Weight(W, [a]) == 0;
      } else {
        assert IsWalk(W, [b], b, b);
        WalkCons(W, [b], a, b, b);
        assert IsWalk(W, [a, b], a, b) && Weight(W, [a, b]) == T.dist[a][b].n;
      }
    }
  }

  lemma RelaxWalkBacked(W: Matrix, T: Tables, p: nat, v: nat, w: nat)
    requires IsMatrix(W) && Shaped(T, |W|) && p < |W| && v < |W| && w < |W|
    requires WalkBacked(W, T)
    ensures WalkBacked(W, Relax(T, |W|, p, v, w))
  {
    var n := |W|;
    var T' := Relax(T, n, p, v, w);
    RelaxEffect(T, n, p, v, w);
    if T' != T {
      forall a: nat, b: nat | a < n && b < n && T'.dist[a][b].Fin?
        ensures exists ps :: IsWalk(W, ps, a, b) && Weight(W, ps) == T'.dist[a][b].n
      {
        if a == v && b == w {
          var p1 :| IsWalk(W, p1, v, p) && Weight(W, p1) == T.dist[v][p].n;
          var p2 :| IsWalk(W, p2, p, w) && Weight(W, p2) == T.dist[p][w].n;
          WalkJoin(W, p1, p2, v, p, w);
        }
      }
    }
  }

  lemma {:induction false} RelaxRowWalkBacked(W: Matrix, T: Tables, p: nat, v: nat, w: nat)
    requires IsMatrix(W) && Shaped(T, |W|) && p < |W| && v < |W| && w <= |W|
    requires WalkBacked(W, T)
    ensures WalkBacked(W, RelaxRow(T, |W|, p, v, w))
  {
    if w > 0 {
      RelaxRowWalkBacked(W, T, p, v, w - 1);
      RelaxWalkBacked(W, RelaxRow(T, |W|, p, v, w - 1), p, v, w - 1);
    }
  }

  lemma {:induction false} RelaxRowsWalkBacked(W: Matrix, T: Tables, p: nat, v: nat)
    requires IsMatrix(W) && Shaped(T, |W|) && p < |W| && v <= |W|
    requires WalkBacked(W, T)
    ensures WalkBacked(W, RelaxRows(T, |W|, p, v))
  {
    if v > 0 {
      RelaxRowsWalkBacked(W, T, p, v - 1);
      RelaxRowWalkBacked(W, RelaxRows(T, |W|, p, v - 1), p, v - 1, |W|);
    }
  }

  lemma {:induction false} RoundsWalkBacked(W: Matrix, k: nat)
    requires IsMatrix(W) && k <= |W|
    ensures WalkBacked(W, Rounds(Initial(W), |W|, k))
  {
    if k == 0 {
      InitialWalkBacked(W);
    } else {
      RoundsWalkBacked(W, k - 1);
      RelaxRowsWalkBacked(W, Rounds(Initial(W), |W|, k - 1), k - 1, |W|);
    }
  }

  /**
    For any weights, negative ones included: every finite distance returned is
    the weight of a walk between the two vertices, and no entry exceeds the
    direct edge (or 0 on the diagonal).
  */
  lemma SolveSound(W: Matrix)
    requires IsMatrix(W)
    ensures WalkBacked(W, Solve(W))
    ensures Below(Solve(W), Initial(W), |W|)
  {
    RoundsWalkBacked(W, |W|);
    RoundsBelow(Initial(W), |W|, |W|);
  }
}

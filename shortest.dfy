/**
  What `floyd_warshall` computes when no edge weight is negative: the length
  of a shortest walk between every two vertices, and first hops that lead
  along such a walk.
*/
module Shortest {
  import opened Wrappers
  import opened Extended
  import opened Relaxation
  import opened Walks

  predicate NonNegative(W: Matrix)
    requires IsMatrix(W)
  {
    forall a, b :: 0 <= a < |W| && 0 <= b < |W| && W[a][b].Some? ==> W[a][b].value >= 0
  }

  // ---------------------------------------------------------------------------
  // The invariant of the outer loop
  // ---------------------------------------------------------------------------

  ghost predicate Diagonal(T: Tables, n: nat)
    requires Shaped(T, n)
  {
    forall a :: 0 <= a < n ==> T.dist[a][a] == Fin(0) && T.next[a][a] == None
  }

  ghost predicate NoNegative(T: Tables, n: nat)
    requires Shaped(T, n)
  {
    forall a, b :: 0 <= a < n && 0 <= b < n ==> Le(Fin(0), T.dist[a][b])
  }

  /** Off the diagonal, there is a first hop exactly when the distance is finite. */
  ghost predicate Linked(T: Tables, n: nat)
    requires Shaped(T, n)
  {
    forall a, b :: 0 <= a < n && 0 <= b < n && a != b ==> (T.dist[a][b].Fin? <==> T.next[a][b].Some?)
  }

  /** The first hop from a towards b is a neighbour x of a, and the edge a -> x plus the entry for x is no longer than the entry for a. */
  ghost predicate HopOK(W: Matrix, T: Tables, a: nat, b: nat)
    requires IsMatrix(W) && Shaped(T, |W|) && a < |W| && b < |W|
  {
    T.next[a][b].Some? ==>
      var x := T.next[a][b].value;
      x < |W| && W[a][x].Some? && Le(Add(Fin(W[a][x].value), T.dist[x][b]), T.dist[a][b])
  }

  ghost predicate Hops(W: Matrix, T: Tables)
    requires IsMatrix(W) && Shaped(T, |W|)
  {
    forall a, b :: 0 <= a < |W| && 0 <= b < |W| ==> HopOK(W, T, a, b)
  }

  ghost predicate EdgeBound(W: Matrix, T: Tables)
    requires IsMatrix(W) && Shaped(T, |W|)
  {
    forall a, b :: 0 <= a < |W| && 0 <= b < |W| && W[a][b].Some? ==> Le(T.dist[a][b], Fin(W[a][b].value))
  }

  /** The detour from a to b through q is no shorter than the entry for (a, b). */
  ghost predicate NoShorterVia(T: Tables, n: nat, a: nat, b: nat, q: nat)
    requires Shaped(T, n) && a < n && b < n && q < n
  {
    Le(T.dist[a][b], Add(T.dist[a][q], T.dist[q][b]))
  }

  /** No detour through one of the first k vertices is shorter than the entry. */
  ghost predicate TriangleBelow(T: Tables, n: nat, k: nat)
    requires Shaped(T, n)
  {
    forall a: nat, b: nat, q: nat :: a < n && b < n && q < k && q < n ==> NoShorterVia(T, n, a, b, q)
  }

  ghost predicate Inv(W: Matrix, T: Tables, k: nat)
    requires IsMatrix(W)
  {
    var n := |W|;
    && Shaped(T, n) && k <= n
    && Diagonal(T, n) && NoNegative(T, n) && Linked(T, n)
    && Hops(W, T) && EdgeBound(W, T) && TriangleBelow(T, n, k)
  }

  lemma InitialInv(W: Matrix)
    requires IsMatrix(W) && NonNegative(W)
    ensures Inv(W, Initial(W), 0)
  {
    var n := |W|;
    var T := Initial(W);
    forall a, b | 0 <= a < n && 0 <= b < n
      ensures Le(Fin(0), T.dist[a][b]) && HopOK(W, T, a, b)
      ensures W[a][b].Some? ==> Le(T.dist[a][b], Fin(W[a][b].value))
      ensures a != b ==> (T.dist[a][b].Fin? <==> T.next[a][b].Some?)
    {
      InitialTables(W, a, b);
      InitialTables(W, b, b);
    }
    forall a | 0 <= a < n
      ensures T.dist[a][a] == Fin(0) && T.next[a][a] == None
    {
      InitialTables(W, a, a);
    }
  }

  // ---------------------------------------------------------------------------
  // One pass preserves the invariant and extends the triangle to k
  // ---------------------------------------------------------------------------

  /** The triangle through an earlier q survives the pass through k, on plain values. */
  lemma TriangleCell(sab: Dist, saq: Dist, sqb: Dist, sak: Dist, skb: Dist, skq: Dist, sqk: Dist)
    requires Le(sab, Add(saq, sqb)) && Le(skb, Add(skq, sqb)) && Le(sak, Add(saq, sqk))
    requires Le(Fin(0), skq) && Le(Fin(0), sqk)
    ensures Le(Min(sab, Add(sak, skb)), Add(Min(saq, Add(sak, skq)), Min(sqb, Add(sqk, skb))))
  {
  }

  /** The triangle through q holds for (a, b) after the pass through k. */
  lemma StageTriangleCell(S: Tables, T: Tables, n: nat, k: nat, a: nat, b: nat, q: nat)
    requires Shaped(S, n) && Shaped(T, n) && k < n && a < n && b < n && q < n && q <= k
    requires S.dist[k][k] == Fin(0) && Le(Fin(0), S.dist[k][q]) && Le(Fin(0), S.dist[q][k])
    requires T.dist[a][b] == StageDist(S, n, k, a, b)
    requires T.dist[a][q] == StageDist(S, n, k, a, q) && T.dist[q][b] == StageDist(S, n, k, q, b)
    requires q < k ==> NoShorterVia(S, n, a, b, q) && NoShorterVia(S, n, k, b, q) && NoShorterVia(S, n, a, k, q)
    ensures NoShorterVia(T, n, a, b, q)
  {
    if q == k {
      StageKeepsPivot(S, n, k, a);
      StageKeepsPivot(S, n, k, b);
    } else {
      TriangleCell(S.dist[a][b], S.dist[a][q], S.dist[q][b], S.dist[a][k], S.dist[k][b], S.dist[k][q], S.dist[q][k]);
    }
  }

  lemma StageTriangle(W: Matrix, S: Tables, T: Tables, k: nat)
    requires IsMatrix(W) && Inv(W, S, k) && k < |W| && Shaped(T, |W|) && IsStage(S, T, |W|, k)
    ensures TriangleBelow(T, |W|, k + 1)
  {
    var n := |W|;
    forall a: nat, b: nat, q: nat | a < n && b < n && q < k + 1 && q < n
      ensures NoShorterVia(T, n, a, b, q)
    {
      if q < k {
        assert NoShorterVia(S, n, a, b, q) && NoShorterVia(S, n, k, b, q) && NoShorterVia(S, n, a, k, q);
      }
      StageTriangleCell(S, T, n, k, a, b, q);
    }
  }

  lemma StageHop(W: Matrix, S: Tables, T: Tables, k: nat, a: nat, b: nat)
    requires IsMatrix(W) && Inv(W, S, k) && k < |W| && Shaped(T, |W|) && IsStage(S, T, |W|, k)
    requires a < |W| && b < |W|
    ensures HopOK(W, T, a, b)
  {
    var n := |W|;
    if T.next[a][b].Some? {
      var x := T.next[a][b].value;
      if Less(Add(S.dist[a][k], S.dist[k][b]), S.dist[a][b]) {
        assert HopOK(W, S, a, k);
        assert x < n && W[a][x].Some?;
        var e := Fin(W[a][x].value);
        assert Le(T.dist[x][b], Add(S.dist[x][k], S.dist[k][b]));
        AddMono(T.dist[x][b], Add(S.dist[x][k], S.dist[k][b]), e);
        AddAssoc(e, S.dist[x][k], S.dist[k][b]);
        AddMono(Add(e, S.dist[x][k]), S.dist[a][k], S.dist[k][b]);
        LeTrans(Add(e, T.dist[x][b]), Add(Add(e, S.dist[x][k]), S.dist[k][b]), Add(S.dist[a][k], S.dist[k][b]));
      } else {
        assert HopOK(W, S, a, b);
        assert x < n && W[a][x].Some?;
        var e := Fin(W[a][x].value);
        AddMono(T.dist[x][b], S.dist[x][b], e);
        LeTrans(Add(e, T.dist[x][b]), Add(e, S.dist[x][b]), S.dist[a][b]);
      }
    }
  }

  lemma StageInv(W: Matrix, S: Tables, T: Tables, k: nat)
    requires IsMatrix(W) && Inv(W, S, k) && k < |W| && Shaped(T, |W|) && IsStage(S, T, |W|, k)
    ensures Inv(W, T, k + 1)
  {
    var n := |W|;
    forall a | 0 <= a < n
      ensures T.dist[a][a] == Fin(0) && T.next[a][a] == None
    {
      StageCell(W, S, T, k, a, a);
    }
    forall a, b | 0 <= a < n && 0 <= b < n
      ensures Le(Fin(0), T.dist[a][b])
      ensures a != b ==> (T.dist[a][b].Fin? <==> T.next[a][b].Some?)
      ensures HopOK(W, T, a, b)
      ensures W[a][b].Some? ==> Le(T.dist[a][b], Fin(W[a][b].value))
    {
      StageCell(W, S, T, k, a, b);
    }
    StageTriangle(W, S, T, k);
  }

  /** A pass keeps each cell's part of the invariant. */
  lemma StageCell(W: Matrix, S: Tables, T: Tables, k: nat, a: nat, b: nat)
    requires IsMatrix(W) && Inv(W, S, k) && k < |W| && Shaped(T, |W|) && IsStage(S, T, |W|, k)
    requires a < |W| && b < |W|
    ensures a == b ==> T.dist[a][b] == Fin(0) && T.next[a][b] == None
    ensures Le(Fin(0), T.dist[a][b])
    ensures a != b ==> (T.dist[a][b].Fin? <==> T.next[a][b].Some?)
    ensures HopOK(W, T, a, b)
    ensures W[a][b].Some? ==> Le(T.dist[a][b], Fin(W[a][b].value))
  {
    var n := |W|;
    assert Le(Fin(0), S.dist[a][k]) && Le(Fin(0), S.dist[k][b]) && Le(Fin(0), S.dist[a][b]);
    StageKeepsPivot(S, n, k, b);
    StageHop(W, S, T, k, a, b);
    if W[a][b].Some? {
      LeTrans(T.dist[a][b], S.dist[a][b], Fin(W[a][b].value));
    }
  }

  // ---------------------------------------------------------------------------
  // Following first hops always ends: a rank that strictly decreases
  // ---------------------------------------------------------------------------

  /** Stepping from a to x towards b strictly lowers the pair (distance, rank) lexicographically. */
  ghost predicate Descends(T: Tables, n: nat, R: seq<seq<nat>>, a: nat, b: nat, x: nat)
    requires Shaped(T, n) && IsSquare(R, n) && a < n && b < n && x < n
  {
    Less(T.dist[x][b], T.dist[a][b]) || (T.dist[x][b] == T.dist[a][b] && R[x][b] < R[a][b])
  }

  /** R ranks the first hops of T: ranks are below B and every hop descends. */
  ghost predicate Ranked(T: Tables, n: nat, R: seq<seq<nat>>, B: nat)
    requires Shaped(T, n)
  {
    && IsSquare(R, n)
    && (forall a, b :: 0 <= a < n && 0 <= b < n ==> R[a][b] < B)
    && (forall a, b :: 0 <= a < n && 0 <= b < n && T.next[a][b].Some? ==>
          T.next[a][b].value < n && Descends(T, n, R, a, b, T.next[a][b].value))
  }

  lemma InitialRanked(W: Matrix) returns (R: seq<seq<nat>>, B: nat)
    requires IsMatrix(W) && NonNegative(W)
    ensures Ranked(Initial(W), |W|, R, B)
  {
    var n := |W|;
    R := seq(n, a => seq(n, b => if a == b then 0 else 1));
    B := 2;
    forall a, b | 0 <= a < n && 0 <= b < n && Initial(W).next[a][b].Some?
      ensures Initial(W).next[a][b].value < n && Descends(Initial(W), n, R, a, b, Initial(W).next[a][b].value)
    {
      InitialTables(W, a, b);
      InitialTables(W, b, b);
    }
  }

  /** The hop a -> x towards b was replaced by the hop towards k: it still descends under the new ranks. */
  lemma RankCellDetour(sab: Dist, sak: Dist, skb: Dist, sxb: Dist, sxk: Dist, rak: nat, rxk: nat, rxb: nat, B: nat)
    requires Less(Add(sak, skb), sab)
    requires Less(sxk, sak) || (sxk == sak && rxk < rak)
    requires rxb < B
    ensures var txb := Min(sxb, Add(sxk, skb));
            var rxb' := if Less(Add(sxk, skb), sxb) then B + rxk else rxb;
            Less(txb, Add(sak, skb)) || (txb == Add(sak, skb) && rxb' < B + rak)
  {
  }

  /** The hop a -> x towards b was kept: it still descends under the new ranks. */
  lemma RankCellKept(sab: Dist, sak: Dist, skb: Dist, sxb: Dist, sxk: Dist, rab: nat, rxk: nat, rxb: nat, B: nat)
    requires !Less(Add(sak, skb), sab)
    requires Less(sxb, sab) || (sxb == sab && rxb < rab)
    ensures var txb := Min(sxb, Add(sxk, skb));
            var rxb' := if Less(Add(sxk, skb), sxb) then B + rxk else rxb;
            Less(txb, sab) || (txb == sab && rxb' < rab)
  {
  }

  lemma StageRanked(W: Matrix, S: Tables, T: Tables, k: nat, R: seq<seq<nat>>, B: nat) returns (R': seq<seq<nat>>, B': nat)
    requires IsMatrix(W) && Inv(W, S, k) && k < |W| && Shaped(T, |W|) && IsStage(S, T, |W|, k)
    requires Ranked(S, |W|, R, B)
    ensures Ranked(T, |W|, R', B')
  {
    var n := |W|;
    R' := seq(n, a requires 0 <= a < n => seq(n, b requires 0 <= b < n =>
      if Less(Add(S.dist[a][k], S.dist[k][b]), S.dist[a][b]) then B + R[a][k] else R[a][b]));
    B' := B + B;
    forall a, b | 0 <= a < n && 0 <= b < n && T.next[a][b].Some?
      ensures T.next[a][b].value < n && Descends(T, n, R', a, b, T.next[a][b].value)
    {
      var x := T.next[a][b].value;
      if Less(Add(S.dist[a][k], S.dist[k][b]), S.dist[a][b]) {
        assert S.next[a][k] == Some(x);
        assert x < n && Descends(S, n, R, a, k, x);
        RankCellDetour(S.dist[a][b], S.dist[a][k], S.dist[k][b], S.dist[x][b], S.dist[x][k], R[a][k], R[x][k], R[x][b], B);
      } else {
        assert S.next[a][b] == Some(x);
        assert x < n && Descends(S, n, R, a, b, x);
        RankCellKept(S.dist[a][b], S.dist[a][k], S.dist[k][b], S.dist[x][b], S.dist[x][k], R[a][b], R[x][k], R[x][b], B);
      }
    }
  }

  // ---------------------------------------------------------------------------
  // The whole run
  // ---------------------------------------------------------------------------

  /** The invariant after the first k passes, with ranks for the first hops. */
  ghost predicate Progress(W: Matrix, T: Tables, k: nat, R: seq<seq<nat>>, B: nat)
    requires IsMatrix(W)
  {
    Inv(W, T, k) && Ranked(T, |W|, R, B)
  }

  lemma RoundStep(W: Matrix, T0: Tables, p: nat, k: nat, R: seq<seq<nat>>, B: nat) returns (R': seq<seq<nat>>, B': nat)
    requires IsMatrix(W) && Shaped(T0, |W|) && k == p + 1 && k <= |W|
    requires Progress(W, Rounds(T0, |W|, p), p, R, B)
    ensures Progress(W, Rounds(T0, |W|, k), k, R', B')
  {
    var S := Rounds(T0, |W|, p);
    PassIsStage(S, |W|, p);
    var T := RelaxRows(S, |W|, p, |W|);
    StageInv(W, S, T, p);
    R', B' := StageRanked(W, S, T, p, R, B);
    RoundsUnfold(T0, |W|, p, k);
    ProgressSame(W, T, Rounds(T0, |W|, k), k, R', B');
  }

  lemma ProgressSame(W: Matrix, T: Tables, T': Tables, k: nat, R: seq<seq<nat>>, B: nat)
    requires IsMatrix(W) && T == T' && Progress(W, T, k, R, B)
    ensures Progress(W, T', k, R, B)
  {
  }

  lemma {:induction false} RoundsInv(W: Matrix, T0: Tables, R0: seq<seq<nat>>, B0: nat, k: nat) returns (R: seq<seq<nat>>, B: nat)
    requires IsMatrix(W) && Shaped(T0, |W|) && k <= |W| && Progress(W, T0, 0, R0, B0)
    ensures Progress(W, Rounds(T0, |W|, k), k, R, B)
  {
    if k == 0 {
      R, B := R0, B0;
      ProgressSame(W, T0, Rounds(T0, |W|, 0), 0, R, B);
    } else {
      var R1, B1 := RoundsInv(W, T0, R0, B0, k - 1);
      R, B := RoundStep(W, T0, k - 1, k, R1, B1);
    }
  }

  /** With no negative weight, following first hops from any vertex always reaches the target. */
  lemma SolveRanked(W: Matrix) returns (R: seq<seq<nat>>, B: nat)
    requires IsMatrix(W) && NonNegative(W)
    ensures Inv(W, Solve(W), |W|)
    ensures Ranked(Solve(W), |W|, R, B)
  {
    InitialInv(W);
    var R0, B0 := InitialRanked(W);
    R, B := RoundsInv(W, Initial(W), R0, B0, |W|);
  }

  /**
    The tables hold shortest distances and usable first hops: 0 and no hop on
    the diagonal; a hop exactly where a finite distance is; each hop is an edge
    whose weight plus the remaining distance is the distance; no walk is
    shorter than the entry; and every finite entry is the weight of a walk.
  */
  ghost predicate AllPairsShortest(W: Matrix, T: Tables)
    requires IsMatrix(W)
  {
    var n := |W|;
    && Shaped(T, n) && Diagonal(T, n) && Linked(T, n)
    && (forall a, b :: 0 <= a < n && 0 <= b < n && T.next[a][b].Some? ==>
          var x := T.next[a][b].value;
          x < n && W[a][x].Some? && T.dist[a][b] == Add(Fin(W[a][x].value), T.dist[x][b]))
    && (forall a: nat, b: nat, ps :: a < n && b < n && IsWalk(W, ps, a, b) ==> Le(T.dist[a][b], Fin(Weight(W, ps))))
    && WalkBacked(W, T)
  }

  lemma {:induction false} WalkLowerBound(W: Matrix, T: Tables, ps: seq<nat>, a: nat, b: nat)
    requires IsMatrix(W) && Inv(W, T, |W|) && a < |W| && b < |W| && IsWalk(W, ps, a, b)
    ensures Le(T.dist[a][b], Fin(Weight(W, ps)))
    decreases |ps|
  {
    if |ps| > 1 {
      var x := ps[1];
      assert IsWalk(W, ps[1..], x, b);
      WalkLowerBound(W, T, ps[1..], x, b);
      var e := Fin(W[a][x].value);
      assert NoShorterVia(T, |W|, a, b, x);
      AddMono(T.dist[a][x], e, T.dist[x][b]);
      AddMono(T.dist[x][b], Fin(Weight(W, ps[1..])), e);
      LeTrans(T.dist[a][b], Add(T.dist[a][x], T.dist[x][b]), Add(e, T.dist[x][b]));
      LeTrans(T.dist[a][b], Add(e, T.dist[x][b]), Add(e, Fin(Weight(W, ps[1..]))));
    }
  }

  /** With no negative weight, `floyd_warshall` returns shortest distances and first hops along shortest walks. */
  lemma SolveIsShortest(W: Matrix)
    requires IsMatrix(W) && NonNegative(W)
    ensures AllPairsShortest(W, Solve(W))
  {
    var n := |W|;
    var T := Solve(W);
    var _, _ := SolveRanked(W);
    forall a, b | 0 <= a < n && 0 <= b < n && T.next[a][b].Some?
      ensures var x := T.next[a][b].value;
              x < n && W[a][x].Some? && T.dist[a][b] == Add(Fin(W[a][x].value), T.dist[x][b])
    {
      assert HopOK(W, T, a, b);
      var x := T.next[a][b].value;
      var e := Fin(W[a][x].value);
      assert NoShorterVia(T, n, a, b, x);
      AddMono(T.dist[a][x], e, T.dist[x][b]);
      LeTrans(T.dist[a][b], Add(T.dist[a][x], T.dist[x][b]), Add(e, T.dist[x][b]));
      LeAntisym(T.dist[a][b], Add(e, T.dist[x][b]));
    }
    forall a: nat, b: nat, ps | a < n && b < n && IsWalk(W, ps, a, b)
      ensures Le(T.dist[a][b], Fin(Weight(W, ps)))
    {
      WalkLowerBound(W, T, ps, a, b);
    }
    SolveSound(W);
  }

  /** Shortest distances obey the triangle inequality through any vertex m. */
  lemma Triangle(W: Matrix, T: Tables, a: nat, m: nat, b: nat)
    requires IsMatrix(W) && AllPairsShortest(W, T) && a < |W| && m < |W| && b < |W|
    ensures Le(T.dist[a][b], Add(T.dist[a][m], T.dist[m][b]))
  {
    if T.dist[a][m].Fin? && T.dist[m][b].Fin? {
      var p1 :| IsWalk(W, p1, a, m) && Weight(W, p1) == T.dist[a][m].n;
      var p2 :| IsWalk(W, p2, m, b) && Weight(W, p2) == T.dist[m][b].n;
      WalkJoin(W, p1, p2, a, m, b);
      assert Le(T.dist[a][b], Fin(Weight(W, p1 + p2[1..])));
    }
  }

  /** A shortest distance is at most any edge a -> x followed by the shortest distance from x. */
  lemma EdgeThenShortest(W: Matrix, T: Tables, a: nat, x: nat, b: nat)
    requires IsMatrix(W) && AllPairsShortest(W, T) && a < |W| && x < |W| && b < |W| && W[a][x].Some?
    ensures Le(T.dist[a][b], Add(Fin(W[a][x].value), T.dist[x][b]))
  {
    assert IsWalk(W, [a, x], a, x) && Weight(W, [a, x]) == W[a][x].value;
    Triangle(W, T, a, x, b);
    AddMono(T.dist[a][x], Fin(W[a][x].value), T.dist[x][b]);
    LeTrans(T.dist[a][b], Add(T.dist[a][x], T.dist[x][b]), Add(Fin(W[a][x].value), T.dist[x][b]));
  }
}

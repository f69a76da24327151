/**
  The distance and next-hop tables of `floyd_warshall` (graphing/floyd_warshall.py)
  as values, and the algorithm's steps as functions on them.  Vertices are the
  positions 0..n-1 of the graph's iteration order; the graph is given by its
  adjacency matrix `W`, where `W[v][w]` is the weight of the edge v -> w, if any.

  The relaxation loop updates the tables in place, so a later cell of a pass
  reads entries that earlier cells of the same pass may have changed.  The
  functions below replay exactly that order: `Relax` is one execution of the
  loop body, `RelaxRow` the innermost loop, `RelaxRows` the middle loop and
  `Rounds` the outer loop.
*/
module Relaxation {
  import opened Wrappers
  import opened Extended

  type Matrix = seq<seq<Option<int>>>

  /** The pair of tables the source returns: `distance` and `next_v`. */
  datatype Tables = Tables(dist: seq<seq<Dist>>, next: seq<seq<Option<nat>>>)

  predicate IsSquare<T>(m: seq<seq<T>>, n: nat)
  {
    |m| == n && forall i :: 0 <= i < n ==> |m[i]| == n
  }

  predicate IsMatrix(W: Matrix)
  {
    IsSquare(W, |W|)
  }

  /** Both tables are indexed by exactly V x V. */
  predicate Shaped(T: Tables, n: nat)
  {
    IsSquare(T.dist, n) && IsSquare(T.next, n)
  }

  /** The entry the edge loop writes for (v, w): the edge's weight, or +inf when there is no edge. */
  function EdgeDist(W: Matrix, v: nat, w: nat): (d: Dist)
    requires IsMatrix(W) && v < |W| && w < |W|
    ensures d.Fin? <==> W[v][w].Some?
    ensures d.Fin? ==> d.n == W[v][w].value
  {
    if W[v][w].Some? then Fin(W[v][w].value) else Inf
  }

  /** The first hop the edge loop writes for (v, w): w itself, or None when there is no edge. */
  function EdgeHop(W: Matrix, v: nat, w: nat): (h: Option<nat>)
    requires IsMatrix(W) && v < |W| && w < |W|
    ensures h.Some? <==> W[v][w].Some?
    ensures h.Some? ==> h.value == w
  {
    if W[v][w].Some? then Some(w) else None
  }

  /**
    The tables once the edges and the diagonal are written in: the weight and
    the destination of the edge v -> w where there is one, +inf and None
    elsewhere, then 0 and None on the whole diagonal, self-loops included.
  */
  function Initial(W: Matrix): (T: Tables)
    requires IsMatrix(W)
    ensures Shaped(T, |W|)
  {
    var n := |W|;
    Tables(
      seq(n, v requires 0 <= v < n =>
        seq(n, w requires 0 <= w < n => if v == w then Fin(0) else EdgeDist(W, v, w))),
      seq(n, v requires 0 <= v < n =>
        seq(n, w requires 0 <= w < n => if v == w then None else EdgeHop(W, v, w))))
  }

  lemma InitialTables(W: Matrix, v: nat, w: nat)
    requires IsMatrix(W) && v < |W| && w < |W|
    ensures Initial(W).dist[v][v] == Fin(0) && Initial(W).next[v][v] == None
    ensures v != w ==> (Initial(W).dist[v][w].Fin? <==> W[v][w].Some?)
    ensures v != w && W[v][w].Some? ==> Initial(W).dist[v][w] == Fin(W[v][w].value)
    ensures v != w ==> (Initial(W).next[v][w] == Some(w) <==> W[v][w].Some?)
    ensures Initial(W).next[v][w].Some? ==> Initial(W).next[v][w] == Some(w)
  {
  }

  /**
    One execution of the loop body: the path v -> p -> w replaces the entry
    for (v, w) when it is strictly shorter, and the first hop towards w becomes
    the first hop towards p.
  */
  function Relax(T: Tables, n: nat, p: nat, v: nat, w: nat): (T': Tables)
    requires Shaped(T, n) && p < n && v < n && w < n
    ensures Shaped(T', n)
  {
    var candidate := Add(T.dist[v][p], T.dist[p][w]);
    if Less(candidate, T.dist[v][w]) then
      Tables(T.dist[v := T.dist[v][w := candidate]], T.next[v := T.next[v][w := T.next[v][p]]])
    else
      T
  }

  /**
    One relaxation never raises the entry; it changes the tables exactly when
    the detour is strictly shorter, and then writes the detour's length and the
    first hop towards p; a detour through an unreachable vertex changes nothing;
    and no other cell is touched.
  */
  lemma RelaxEffect(T: Tables, n: nat, p: nat, v: nat, w: nat)
    requires Shaped(T, n) && p < n && v < n && w < n
    ensures var T' := Relax(T, n, p, v, w);
      && Le(T'.dist[v][w], T.dist[v][w])
      && (T' != T <==> Less(Add(T.dist[v][p], T.dist[p][w]), T.dist[v][w]))
      && (T' != T ==> T'.dist[v][w] == Add(T.dist[v][p], T.dist[p][w]) && T'.next[v][w] == T.next[v][p])
      && (T.dist[v][p] == Inf || T.dist[p][w] == Inf ==> T' == T)
      && (forall a, b :: 0 <= a < n && 0 <= b < n && (a != v || b != w) ==>
            T'.dist[a][b] == T.dist[a][b] && T'.next[a][b] == T.next[a][b])
  {
  }

  /** The innermost loop, stopped before column `w`: cells (v, 0), ..., (v, w-1) relaxed through p. */
  function RelaxRow(T: Tables, n: nat, p: nat, v: nat, w: nat): (T': Tables)
    requires Shaped(T, n) && p < n && v < n && w <= n
    ensures Shaped(T', n)
  {
    if w == 0 then T else Relax(RelaxRow(T, n, p, v, w - 1), n, p, v, w - 1)
  }

  /** The middle loop, stopped before row `v`: rows 0, ..., v-1 relaxed through p. */
  function RelaxRows(T: Tables, n: nat, p: nat, v: nat): (T': Tables)
    requires Shaped(T, n) && p < n && v <= n
    ensures Shaped(T', n)
  {
    if v == 0 then T else RelaxRow(RelaxRows(T, n, p, v - 1), n, p, v - 1, n)
  }

  /** The outer loop, stopped before intermediate `k`: passes through 0, ..., k-1. */
  function Rounds(T: Tables, n: nat, k: nat): (T': Tables)
    requires Shaped(T, n) && k <= n
    ensures Shaped(T', n)
  {
    if k == 0 then T else RelaxRows(Rounds(T, n, k - 1), n, k - 1, n)
  }

  lemma RoundsUnfold(T: Tables, n: nat, p: nat, k: nat)
    requires Shaped(T, n) && k == p + 1 && k <= n
    ensures Rounds(T, n, k) == RelaxRows(Rounds(T, n, p), n, p, n)
  {
  }

  /** The tables `floyd_warshall` returns for the graph with adjacency matrix W. */
  function Solve(W: Matrix): (T: Tables)
    requires IsMatrix(W)
    ensures Shaped(T, |W|)
  {
    Rounds(Initial(W), |W|, |W|)
  }

  // ---------------------------------------------------------------------------
  // Entries never increase (for every weight, negative ones included)
  // ---------------------------------------------------------------------------

  /** The entry for (a, b) in T' is at most the one in T. */
  ghost predicate EntryBelow(T': Tables, T: Tables, n: nat, a: nat, b: nat)
    requires Shaped(T', n) && Shaped(T, n) && a < n && b < n
  {
    Le(T'.dist[a][b], T.dist[a][b])
  }

  ghost predicate Below(T': Tables, T: Tables, n: nat)
    requires Shaped(T', n) && Shaped(T, n)
  {
    forall a: nat, b: nat :: a < n && b < n ==> EntryBelow(T', T, n, a, b)
  }

  lemma BelowRefl(T: Tables, n: nat)
    requires Shaped(T, n)
    ensures Below(T, T, n)
  {
    forall a: nat, b: nat | a < n && b < n
      ensures EntryBelow(T, T, n, a, b)
    {
      LessIsIrreflexiveAndTotal(T.dist[a][b], T.dist[a][b]);
    }
  }

  lemma BelowTrans(T'': Tables, T': Tables, T: Tables, n: nat)
    requires Shaped(T'', n) && Shaped(T', n) && Shaped(T, n)
    requires Below(T'', T', n) && Below(T', T, n)
    ensures Below(T'', T, n)
  {
    forall a: nat, b: nat | a < n && b < n
      ensures EntryBelow(T'', T, n, a, b)
    {
      assert EntryBelow(T'', T', n, a, b) && EntryBelow(T', T, n, a, b);
      LeTrans(T''.dist[a][b], T'.dist[a][b], T.dist[a][b]);
    }
  }

  lemma RelaxBelow(T: Tables, n: nat, p: nat, v: nat, w: nat)
    requires Shaped(T, n) && p < n && v < n && w < n
    ensures Below(Relax(T, n, p, v, w), T, n)
  {
    var T' := Relax(T, n, p, v, w);
    RelaxEffect(T, n, p, v, w);
    forall a: nat, b: nat | a < n && b < n
      ensures EntryBelow(T', T, n, a, b)
    {
      LessIsIrreflexiveAndTotal(T'.dist[a][b], T.dist[a][b]);
    }
  }

  lemma {:induction false} RelaxRowBelow(T: Tables, n: nat, p: nat, v: nat, w: nat)
    requires Shaped(T, n) && p < n && v < n && w <= n
    ensures Below(RelaxRow(T, n, p, v, w), T, n)
  {
    if w == 0 {
      BelowRefl(T, n);
    } else {
      RelaxRowBelow(T, n, p, v, w - 1);
      RelaxBelow(RelaxRow(T, n, p, v, w - 1), n, p, v, w - 1);
      BelowTrans(RelaxRow(T, n, p, v, w), RelaxRow(T, n, p, v, w - 1), T, n);
    }
  }

  lemma {:induction false} RelaxRowsBelow(T: Tables, n: nat, p: nat, v: nat)
    requires Shaped(T, n) && p < n && v <= n
    ensures Below(RelaxRows(T, n, p, v), T, n)
  {
    if v == 0 {
      BelowRefl(T, n);
    } else {
      RelaxRowsBelow(T, n, p, v - 1);
      RelaxRowBelow(RelaxRows(T, n, p, v - 1), n, p, v - 1, n);
      BelowTrans(RelaxRows(T, n, p, v), RelaxRows(T, n, p, v - 1), T, n);
    }
  }

  /** Every entry of the distance table is non-increasing over the whole run. */
  lemma {:induction false} RoundsBelow(T: Tables, n: nat, k: nat)
    requires Shaped(T, n) && k <= n
    ensures Below(Rounds(T, n, k), T, n)
  {
    if k == 0 {
      BelowRefl(T, n);
    } else {
      RoundsBelow(T, n, k - 1);
      RelaxRowsBelow(Rounds(T, n, k - 1), n, k - 1, n);
      BelowTrans(Rounds(T, n, k), Rounds(T, n, k - 1), T, n);
    }
  }

  // ---------------------------------------------------------------------------
  // A whole pass, when the pivot's own distance is 0
  // ---------------------------------------------------------------------------

  /**
    The entry for (a, b) after the pass through k, read off the tables before
    the pass: the shorter of the old entry and the detour through k.
  */
  function StageDist(S: Tables, n: nat, k: nat, a: nat, b: nat): (d: Dist)
    requires Shaped(S, n) && k < n && a < n && b < n
    ensures Le(d, S.dist[a][b]) && Le(d, Add(S.dist[a][k], S.dist[k][b]))
  {
    Min(S.dist[a][b], Add(S.dist[a][k], S.dist[k][b]))
  }

  /** The first hop for (a, b) after the pass through k: the hop towards k when the detour won. */
  function StageNext(S: Tables, n: nat, k: nat, a: nat, b: nat): (h: Option<nat>)
    requires Shaped(S, n) && k < n && a < n && b < n
    ensures h == S.next[a][b] || h == S.next[a][k]
    ensures Less(Add(S.dist[a][k], S.dist[k][b]), S.dist[a][b]) ==> h == S.next[a][k]
    ensures StageDist(S, n, k, a, b) == S.dist[a][b] ==> h == S.next[a][b]
  {
    if Less(Add(S.dist[a][k], S.dist[k][b]), S.dist[a][b]) then S.next[a][k] else S.next[a][b]
  }

  /** T is S after one whole pass through k, cell by cell. */
  ghost predicate IsStage(S: Tables, T: Tables, n: nat, k: nat)
    requires Shaped(S, n) && Shaped(T, n) && k < n
  {
    forall a, b :: 0 <= a < n && 0 <= b < n ==>
      T.dist[a][b] == StageDist(S, n, k, a, b) && T.next[a][b] == StageNext(S, n, k, a, b)
  }

  /** Cell (a, b) is done when it comes before (v, w) in row-major order, and untouched otherwise. */
  ghost predicate CellDoneUpTo(S: Tables, T: Tables, n: nat, k: nat, v: nat, w: nat, a: nat, b: nat)
    requires Shaped(S, n) && Shaped(T, n) && k < n && a < n && b < n
  {
    if a < v || (a == v && b < w) then
      T.dist[a][b] == StageDist(S, n, k, a, b) && T.next[a][b] == StageNext(S, n, k, a, b)
    else
      T.dist[a][b] == S.dist[a][b] && T.next[a][b] == S.next[a][b]
  }

  /** The cells before (v, w) in row-major order are done, the others untouched. */
  ghost predicate DoneUpTo(S: Tables, T: Tables, n: nat, k: nat, v: nat, w: nat)
    requires Shaped(S, n) && Shaped(T, n) && k < n
  {
    forall a: nat, b: nat :: a < n && b < n ==> CellDoneUpTo(S, T, n, k, v, w, a, b)
  }

  /** With a 0 on the pivot's diagonal, the pass leaves row k and column k as they were. */
  lemma StageKeepsPivot(S: Tables, n: nat, k: nat, a: nat)
    requires Shaped(S, n) && k < n && a < n && S.dist[k][k] == Fin(0)
    ensures StageDist(S, n, k, a, k) == S.dist[a][k] && StageNext(S, n, k, a, k) == S.next[a][k]
    ensures StageDist(S, n, k, k, a) == S.dist[k][a] && StageNext(S, n, k, k, a) == S.next[k][a]
  {
    AddZero(S.dist[a][k]);
    AddZero(S.dist[k][a]);
    LessIsIrreflexiveAndTotal(S.dist[a][k], S.dist[a][k]);
    LessIsIrreflexiveAndTotal(S.dist[k][a], S.dist[k][a]);
  }

  lemma RelaxDone(S: Tables, T: Tables, n: nat, k: nat, v: nat, w: nat, w': nat)
    requires Shaped(S, n) && Shaped(T, n) && k < n && v < n && w < n && w' == w + 1
    requires S.dist[k][k] == Fin(0)
    requires DoneUpTo(S, T, n, k, v, w)
    ensures DoneUpTo(S, Relax(T, n, k, v, w), n, k, v, w')
  {
    StageKeepsPivot(S, n, k, v);
    StageKeepsPivot(S, n, k, w);
    RelaxEffect(T, n, k, v, w);
    assert CellDoneUpTo(S, T, n, k, v, w, v, k) && CellDoneUpTo(S, T, n, k, v, w, k, w);
    assert CellDoneUpTo(S, T, n, k, v, w, v, w);
    var T' := Relax(T, n, k, v, w);
    forall a: nat, b: nat | a < n && b < n
      ensures CellDoneUpTo(S, T', n, k, v, w', a, b)
    {
      assert CellDoneUpTo(S, T, n, k, v, w, a, b);
    }
  }

  /** A finished row is the start of the next one. */
  lemma DoneNextRow(S: Tables, T: Tables, n: nat, k: nat, v: nat, v': nat)
    requires Shaped(S, n) && Shaped(T, n) && k < n && v' == v + 1
    requires DoneUpTo(S, T, n, k, v, n)
    ensures DoneUpTo(S, T, n, k, v', 0)
  {
    forall a: nat, b: nat | a < n && b < n
      ensures CellDoneUpTo(S, T, n, k, v', 0, a, b)
    {
      assert CellDoneUpTo(S, T, n, k, v, n, a, b);
    }
  }

  lemma {:induction false} RowDone(S: Tables, T: Tables, n: nat, k: nat, v: nat, w: nat)
    requires Shaped(S, n) && Shaped(T, n) && k < n && v < n && w <= n
    requires S.dist[k][k] == Fin(0)
    requires DoneUpTo(S, T, n, k, v, 0)
    ensures DoneUpTo(S, RelaxRow(T, n, k, v, w), n, k, v, w)
  {
    if w > 0 {
      RowDone(S, T, n, k, v, w - 1);
      RelaxDone(S, RelaxRow(T, n, k, v, w - 1), n, k, v, w - 1, w);
    }
  }

  lemma {:induction false} RowsDone(S: Tables, n: nat, k: nat, v: nat)
    requires Shaped(S, n) && k < n && v <= n
    requires S.dist[k][k] == Fin(0)
    ensures DoneUpTo(S, RelaxRows(S, n, k, v), n, k, v, 0)
  {
    if v == 0 {
      forall a: nat, b: nat | a < n && b < n
        ensures CellDoneUpTo(S, S, n, k, 0, 0, a, b)
      {
      }
    } else {
      RowsDone(S, n, k, v - 1);
      RowDone(S, RelaxRows(S, n, k, v - 1), n, k, v - 1, n);
      DoneNextRow(S, RelaxRows(S, n, k, v), n, k, v - 1, v);
    }
  }

  /**
    When the pivot's own entry is 0 (as it is for non-negative weights), the
    in-place pass through k computes the same tables as a pass that reads only
    the tables from before it.
  */
  lemma PassIsStage(S: Tables, n: nat, k: nat)
    requires Shaped(S, n) && k < n && S.dist[k][k] == Fin(0)
    ensures IsStage(S, RelaxRows(S, n, k, n), n, k)
  {
    RowsDone(S, n, k, n);
    var T := RelaxRows(S, n, k, n);
    forall a, b | 0 <= a < n && 0 <= b < n
      ensures T.dist[a][b] == StageDist(S, n, k, a, b) && T.next[a][b] == StageNext(S, n, k, a, b)
    {
      assert CellDoneUpTo(S, T, n, k, n, 0, a, b);
    }
  }
}

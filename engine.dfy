/**
  The two procedures of graphing/floyd_warshall.py that run on a graph:
  `floyd_warshall`, which fills the distance and next-hop tables in place, and
  `print_path`, which follows the next hops from one vertex to another.
  Vertices are referred to by their position in the graph's iteration order.
*/
module Engine {
  import opened Wrappers
  import opened Extended
  import opened Graphs
  import opened Relaxation
  import opened Walks
  import opened Shortest

  /**
    Computes the distance and next-hop tables of `g`.  They are exactly the
    tables of `Solve` on the graph's adjacency matrix; with no negative weight,
    they hold shortest distances and first hops along shortest walks.
  */
  method FloydWarshall(g: Graph) returns (distance: seq<seq<Dist>>, nextV: seq<seq<Option<nat>>>)
    requires g.Valid()
    ensures Tables(distance, nextV) == Solve(g.Matrix())
    ensures NonNegative(g.Matrix()) ==> AllPairsShortest(g.Matrix(), Tables(distance, nextV))
  {
    ghost var W: Matrix := g.Matrix();
    var vs := g.Vertices();
    distance, nextV := Tabulate(vs, W);
    if NonNegative(W) {
      SolveIsShortest(W);
    }
  }

  /**
    The body of `floyd_warshall` once the vertices are listed: seed the tables
    from the edges and the zero diagonal, then relax them in place.
  */
  method Tabulate(vs: seq<Vertex>, ghost W: Matrix) returns (distance: seq<seq<Dist>>, nextV: seq<seq<Option<nat>>>)
    requires IsMatrix(W) && |vs| == |W|
    requires forall a, b :: 0 <= a < |vs| && 0 <= b < |vs| ==> W[a][b] == Entry(vs[a], vs[b])
    ensures Tables(distance, nextV) == Solve(W)
  {
    distance, nextV := SeedEdges(vs, W);
    distance, nextV := SeedDiagonal(distance, nextV, |vs|);
    SeededIsInitial(W, distance, nextV);
    distance, nextV := RelaxAll(distance, nextV, W);
  }

  /** The tables after both seeding loops are `Initial`. */
  lemma SeededIsInitial(W: Matrix, distance: seq<seq<Dist>>, nextV: seq<seq<Option<nat>>>)
    requires IsMatrix(W) && IsSquare(distance, |W|) && IsSquare(nextV, |W|)
    requires forall a, b :: 0 <= a < |W| && 0 <= b < |W| ==>
      && distance[a][b] == (if a == b then Fin(0) else EdgeDist(W, a, b))
      && nextV[a][b] == (if a == b then None else EdgeHop(W, a, b))
    ensures Tables(distance, nextV) == Initial(W)
  {
    assert forall a :: 0 <= a < |W| ==> distance[a] == Initial(W).dist[a] && nextV[a] == Initial(W).next[a];
  }

  /**
    The tables full of +inf and None, then every edge v -> w written in with
    its weight and w as first hop.  `vs` are the graph's vertices in iteration
    order and `W` their adjacency matrix.
  */
  method SeedEdges(vs: seq<Vertex>, ghost W: Matrix) returns (distance: seq<seq<Dist>>, nextV: seq<seq<Option<nat>>>)
    requires IsMatrix(W) && |vs| == |W|
    requires forall a, b :: 0 <= a < |vs| && 0 <= b < |vs| ==> W[a][b] == Entry(vs[a], vs[b])
    ensures IsSquare(distance, |vs|) && IsSquare(nextV, |vs|)
    ensures forall a, b :: 0 <= a < |vs| && 0 <= b < |vs| ==>
      distance[a][b] == EdgeDist(W, a, b) && nextV[a][b] == EdgeHop(W, a, b)
  {
    var n := |vs|;
    distance := seq(n, _ => seq(n, _ => Inf));
    nextV := seq(n, _ => seq(n, _ => None));
    for v := 0 to n
      invariant IsSquare(distance, n) && IsSquare(nextV, n)
      invariant forall a, b :: 0 <= a < n && 0 <= b < n ==>
        && distance[a][b] == (if a < v then EdgeDist(W, a, b) else Inf)
        && nextV[a][b] == (if a < v then EdgeHop(W, a, b) else None)
    {
      for w := 0 to n
        invariant IsSquare(distance, n) && IsSquare(nextV, n)
        invariant forall a, b :: 0 <= a < n && 0 <= b < n ==>
          && distance[a][b] == (if a < v || (a == v && b < w) then EdgeDist(W, a, b) else Inf)
          && nextV[a][b] == (if a < v || (a == v && b < w) then EdgeHop(W, a, b) else None)
      {
        assert W[v][w] == Entry(vs[v], vs[w]);
        if vs[v].DoesItPointTo(vs[w]) {
          var weight := vs[v].GetWeight(vs[w]).value;
          distance := distance[v := distance[v][w := Fin(weight)]];
          nextV := nextV[v := nextV[v][w := Some(w)]];
        }
      }
    }
  }

  /** Every vertex at distance 0 from itself, with no first hop; nothing else changes. */
  method SeedDiagonal(distance0: seq<seq<Dist>>, nextV0: seq<seq<Option<nat>>>, n: nat)
    returns (distance: seq<seq<Dist>>, nextV: seq<seq<Option<nat>>>)
    requires IsSquare(distance0, n) && IsSquare(nextV0, n)
    ensures IsSquare(distance, n) && IsSquare(nextV, n)
    ensures forall a, b :: 0 <= a < n && 0 <= b < n ==>
      && distance[a][b] == (if a == b then Fin(0) else distance0[a][b])
      && nextV[a][b] == (if a == b then None else nextV0[a][b])
  {
    distance, nextV := distance0, nextV0;
    for v := 0 to n
      invariant IsSquare(distance, n) && IsSquare(nextV, n)
      invariant forall a, b :: 0 <= a < n && 0 <= b < n ==>
        && distance[a][b] == (if a == b && a < v then Fin(0) else distance0[a][b])
        && nextV[a][b] == (if a == b && a < v then None else nextV0[a][b])
    {
      distance := distance[v := distance[v][v := Fin(0)]];
      nextV := nextV[v := nextV[v][v := None]];
    }
  }

  /** The relaxation through every intermediate vertex p, in place, turning the seeded tables into `Solve(W)`. */
  method RelaxAll(distance0: seq<seq<Dist>>, nextV0: seq<seq<Option<nat>>>, ghost W: Matrix)
    returns (distance: seq<seq<Dist>>, nextV: seq<seq<Option<nat>>>)
    requires IsMatrix(W) && Tables(distance0, nextV0) == Initial(W)
    ensures Tables(distance, nextV) == Solve(W)
  {
    var n := |distance0|;
    ghost var T0 := Tables(distance0, nextV0);
    distance, nextV := distance0, nextV0;
    for p := 0 to n
      invariant Tables(distance, nextV) == Rounds(T0, n, p)
    {
      for v := 0 to n
        invariant Tables(distance, nextV) == RelaxRows(Rounds(T0, n, p), n, p, v)
      {
        for w := 0 to n
          invariant Tables(distance, nextV) == RelaxRow(RelaxRows(Rounds(T0, n, p), n, p, v), n, p, v, w)
        {
          if Less(Add(distance[v][p], distance[p][w]), distance[v][w]) {
            distance := distance[v := distance[v][w := Add(distance[v][p], distance[p][w])]];
            nextV := nextV[v := nextV[v][w := nextV[v][p]]];
          }
        }
      }
    }
  }

  /**
    Follows the first hops from u towards v and returns the keys met on the
    way, v's last.  When u has no first hop towards v only v's key comes out.
    Otherwise the vertices visited form a walk from u to v, without repeats,
    whose weight is the distance from u to v.  `keys[i]` is the key of the
    i-th vertex; for a graph `g` that is `g.order`, so the keys emitted are
    what `get_key` returns along the walk.
  */
  method PrintPath(ghost W: Matrix, nextV: seq<seq<Option<nat>>>, keys: seq<int>, u: nat, v: nat)
    returns (out: seq<int>, ghost path: seq<nat>)
    requires IsMatrix(W) && NonNegative(W) && nextV == Solve(W).next
    requires |keys| == |W| && u < |W| && v < |W|
    ensures nextV[u][v].None? ==> out == [keys[v]]
    ensures nextV[u][v].Some? ==> IsWalk(W, path, u, v) && Solve(W).dist[u][v] == Fin(Weight(W, path))
    ensures nextV[u][v].Some? ==> out == KeysOf(keys, path)
    ensures forall i, j :: 0 <= i < j < |path| ==> path[i] != path[j]
    ensures |out| <= |keys|
  {
    ghost var R := Guided(W);
    out, path := FollowHops(W, Solve(W), R, nextV, keys, u, v);
  }

  /** The keys of the vertices along `path`. */
  function KeysOf(keys: seq<int>, path: seq<nat>): (out: seq<int>)
    requires forall i :: 0 <= i < |path| ==> path[i] < |keys|
    ensures |out| == |path| && forall i :: 0 <= i < |path| ==> out[i] == keys[path[i]]
  {
    seq(|path|, i requires 0 <= i < |path| => keys[path[i]])
  }

  /** The loop of `print_path`, over any tables that `Guide` the walk. */
  method FollowHops(ghost W: Matrix, ghost T: Tables, ghost R: seq<seq<nat>>, nextV: seq<seq<Option<nat>>>, keys: seq<int>, u: nat, v: nat)
    returns (out: seq<int>, ghost path: seq<nat>)
    requires IsMatrix(W) && Guide(W, T, R) && nextV == T.next
    requires |keys| == |W| && u < |W| && v < |W|
    ensures nextV[u][v].None? ==> out == [keys[v]]
    ensures nextV[u][v].Some? ==> IsWalk(W, path, u, v) && T.dist[u][v] == Fin(Weight(W, path))
    ensures nextV[u][v].Some? ==> out == KeysOf(keys, path)
    ensures forall i, j :: 0 <= i < j < |path| ==> path[i] != path[j]
    ensures |out| <= |keys|
  {
    var n := |W|;
    var p: nat := u;
    out := [];
    path := [];
    while nextV[p][v].Some?
      invariant p < n
      invariant OnTheWay(W, T, R, path, u, p, v)
      invariant out == KeysOf(keys, path)
      invariant nextV[u][v].Some? ==> T.dist[p][v].Fin?
      invariant nextV[u][v].None? ==> path == [] && p == u
      decreases if T.dist[p][v].Fin? then T.dist[p][v].n else 0, R[p][v]
    {
      var x := nextV[p][v].value;
      StepAlong(W, T, R, path, u, p, v);
      out := out + [keys[p]];
      path := path + [p];
      p := x;
    }
    if nextV[u][v].Some? {
      Arrive(W, T, R, path, u, p, v);
    }
    out := out + [keys[v]];
    path := path + [v];
    DistinctBound(path, n);
  }

  /**
    What following first hops relies on: off the diagonal a hop exists exactly
    at a finite distance; each hop is an edge whose weight plus the remaining
    distance is the distance; and each hop descends in (distance, rank).
  */
  ghost predicate Guide(W: Matrix, T: Tables, R: seq<seq<nat>>)
    requires IsMatrix(W)
  {
    var n := |W|;
    && Shaped(T, n) && IsSquare(R, n)
    && (forall a :: 0 <= a < n ==> T.dist[a][a] == Fin(0))
    && (forall a, b :: 0 <= a < n && 0 <= b < n ==> Le(Fin(0), T.dist[a][b]))
    && (forall a, b :: 0 <= a < n && 0 <= b < n && T.next[a][b].None? && T.dist[a][b].Fin? ==> a == b)
    && (forall a, b :: 0 <= a < n && 0 <= b < n && T.next[a][b].Some? ==>
          var x := T.next[a][b].value;
          && a != b && x < n && W[a][x].Some? && T.dist[a][b].Fin?
          && T.dist[a][b] == Add(Fin(W[a][x].value), T.dist[x][b])
          && Descends(T, n, R, a, b, x))
  }

  lemma Guided(W: Matrix) returns (R: seq<seq<nat>>)
    requires IsMatrix(W) && NonNegative(W)
    ensures Guide(W, Solve(W), R)
  {
    var B;
    R, B := SolveRanked(W);
    SolveIsShortest(W);
  }

  /**
    `path + [p]` is a walk from u to p without repeats, every vertex on it
    strictly above p in the (distance to v, rank) order, and when p is at a
    finite distance from v the walk plus that distance is u's distance to v.
  */
  ghost predicate OnTheWay(W: Matrix, T: Tables, R: seq<seq<nat>>, path: seq<nat>, u: nat, p: nat, v: nat)
    requires IsMatrix(W) && Shaped(T, |W|) && IsSquare(R, |W|) && u < |W| && p < |W| && v < |W|
  {
    && IsWalk(W, path + [p], u, p)
    && (T.dist[p][v].Fin? ==> T.dist[u][v] == Fin(Weight(W, path + [p]) + T.dist[p][v].n))
    && (forall i :: 0 <= i < |path| ==> path[i] < |W| && Descends(T, |W|, R, path[i], v, p))
    && (forall i, j :: 0 <= i < j < |path| ==> path[i] != path[j])
  }

  /** One hop of `print_path`: the hop is an edge, the walk grows by it and the order drops. */
  lemma StepAlong(W: Matrix, T: Tables, R: seq<seq<nat>>, path: seq<nat>, u: nat, p: nat, v: nat)
    requires IsMatrix(W) && Guide(W, T, R)
    requires u < |W| && p < |W| && v < |W| && T.next[p][v].Some?
    requires OnTheWay(W, T, R, path, u, p, v)
    ensures var x := T.next[p][v].value;
      && x < |W| && T.dist[p][v].Fin? && T.dist[x][v].Fin?
      && Descends(T, |W|, R, p, v, x)
      && OnTheWay(W, T, R, path + [p], u, x, v)
  {
    var n := |W|;
    var x := T.next[p][v].value;
    assert x < n && W[p][x].Some? && T.dist[p][v] == Add(Fin(W[p][x].value), T.dist[x][v]);
    assert Descends(T, n, R, p, v, x);
    WalkCons(W, [x], p, x, x);
    WalkJoin(W, path + [p], [p, x], u, p, x);
    assert path + [p] + [p, x][1..] == (path + [p]) + [x];
    forall i | 0 <= i < |path + [p]|
      ensures (path + [p])[i] < n && Descends(T, n, R, (path + [p])[i], v, x)
    {
      if i < |path| {
        assert Descends(T, n, R, path[i], v, p);
      }
    }
    forall i, j | 0 <= i < j < |path + [p]|
      ensures (path + [p])[i] != (path + [p])[j]
    {
      if j == |path| {
        assert Descends(T, n, R, path[i], v, p);
      }
    }
  }

  /** When the hops run out on a finite distance, the walk has reached v. */
  lemma Arrive(W: Matrix, T: Tables, R: seq<seq<nat>>, path: seq<nat>, u: nat, p: nat, v: nat)
    requires IsMatrix(W) && Guide(W, T, R)
    requires u < |W| && p < |W| && v < |W|
    requires T.next[p][v].None? && T.dist[p][v].Fin?
    requires OnTheWay(W, T, R, path, u, p, v)
    ensures p == v
    ensures IsWalk(W, path + [v], u, v) && T.dist[u][v] == Fin(Weight(W, path + [v]))
    ensures forall i, j :: 0 <= i < j < |path + [v]| ==> (path + [v])[i] != (path + [v])[j]
  {
    var n := |W|;
    forall i, j | 0 <= i < j < |path + [v]|
      ensures (path + [v])[i] != (path + [v])[j]
    {
      if j == |path| {
        assert Descends(T, n, R, path[i], v, p);
      }
    }
  }

  /** A walk without repeats visits at most n vertices. */
  lemma DistinctBound(ps: seq<nat>, n: nat)
    requires forall i :: 0 <= i < |ps| ==> ps[i] < n
    requires forall i, j :: 0 <= i < j < |ps| ==> ps[i] != ps[j]
    ensures |ps| <= n
  {
    DistinctCard(ps);
    SetBound(Elements(ps), n);
  }

  function Elements(ps: seq<nat>): (s: set<nat>)
    ensures forall i :: 0 <= i < |ps| ==> ps[i] in s
    ensures forall x :: x in s ==> exists i :: 0 <= i < |ps| && ps[i] == x
  {
    set x | x in ps
  }

  lemma {:induction false} DistinctCard(ps: seq<nat>)
    requires forall i, j :: 0 <= i < j < |ps| ==> ps[i] != ps[j]
    ensures |Elements(ps)| == |ps|
  {
    if |ps| > 0 {
      var q := ps[..|ps| - 1];
      var last := ps[|ps| - 1];
      DistinctCard(q);
      assert last !in Elements(q);
      assert Elements(ps) == Elements(q) + {last};
      assert Elements(q) * {last} == {};
    }
  }

  lemma {:induction false} SetBound(s: set<nat>, n: nat)
    requires forall x :: x in s ==> x < n
    ensures |s| <= n
  {
    if n > 0 {
      SetBound(s - {n - 1}, n - 1);
      if n - 1 in s {
        assert s == (s - {n - 1}) + {n - 1};
      } else {
        assert s == s - {n - 1};
      }
    } else {
      assert s == {};
    }
  }
}

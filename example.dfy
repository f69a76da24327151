/**
  A worked instance: four vertices with keys 1, 2, 3, 4 (positions 0 to 3 in
  iteration order) and the edges 1 -> 2 (3), 2 -> 3 (4), 1 -> 3 (8),
  3 -> 4 (2) and 4 -> 1 (1).  The route 1 -> 2 -> 3 beats the direct edge.
*/
module Example {
  import opened Wrappers
  import opened Extended
  import opened Relaxation
  import opened Shortest

  /** The adjacency matrix of the instance, over positions. */
  function Sample(): (W: Matrix)
    ensures IsMatrix(W) && |W| == 4 && NonNegative(W)
  {
    [ [None, Some(3), Some(8), None]
    , [None, None, Some(4), None]
    , [None, None, None, Some(2)]
    , [Some(1), None, None, None] ]
  }

  /**
    Any tables of shortest distances and first hops for the instance have
    D[1][4] = 9, D[4][2] = 4, D[1][1] = 0, D[1][3] = 7 and first hop 2 from
    1 to 3 (keys).
  */
  lemma SampleShortest(W: Matrix, T: Tables)
    requires W == Sample() && AllPairsShortest(W, T)
    ensures T.dist[0][3] == Fin(9) && T.dist[3][1] == Fin(4) && T.dist[0][0] == Fin(0)
    ensures T.dist[0][2] == Fin(7) && T.next[0][2] == Some(1)
  {
    assert Diagonal(T, 4);
    // 3 -> 4: the only edge out of 3 goes to 4.
    EdgeThenShortest(W, T, 2, 3, 3);
    var x := Hop(W, T, 2, 3);
    assert T.dist[2][3] == Fin(2);
    // 2 -> 4: the only edge out of 2 goes to 3.
    EdgeThenShortest(W, T, 1, 2, 3);
    x := Hop(W, T, 1, 3);
    assert T.dist[1][3] == Fin(6);
    // 1 -> 4: via 2 (3 + 6) or via 3 (8 + 2).
    EdgeThenShortest(W, T, 0, 1, 3);
    x := Hop(W, T, 0, 3);
    assert T.dist[0][3] == Fin(9);
    // 2 -> 3 and 1 -> 3: via 2 (3 + 4) beats the direct edge (8).
    EdgeThenShortest(W, T, 1, 2, 2);
    x := Hop(W, T, 1, 2);
    assert T.dist[1][2] == Fin(4);
    EdgeThenShortest(W, T, 0, 1, 2);
    x := Hop(W, T, 0, 2);
    assert x == 1 && T.dist[0][2] == Fin(7);
    // 1 -> 2 directly (3); going round through 3 and 4 would cost 11 more than itself.
    EdgeThenShortest(W, T, 0, 1, 1);
    var x01 := Hop(W, T, 0, 1);
    EdgeThenShortest(W, T, 3, 0, 1);
    var x31 := Hop(W, T, 3, 1);
    EdgeThenShortest(W, T, 2, 3, 1);
    var x21 := Hop(W, T, 2, 1);
    assert x31 == 0 && x21 == 3;
    assert T.dist[0][1] == Fin(3);
  }

  /**
    Off the diagonal, a finite distance has a first hop x: an out-neighbour
    whose edge weight plus x's distance is the distance.
  */
  lemma Hop(W: Matrix, T: Tables, a: nat, b: nat) returns (x: nat)
    requires W == Sample() && AllPairsShortest(W, T) && a < 4 && b < 4 && a != b && T.dist[a][b].Fin?
    ensures T.next[a][b] == Some(x) && T.dist[x][b].Fin?
    ensures a == 0 ==> x == 1 || x == 2
    ensures a == 1 ==> x == 2
    ensures a == 2 ==> x == 3
    ensures a == 3 ==> x == 0
    ensures T.dist[a][b].n == W[a][x].value + T.dist[x][b].n
  {
    assert Linked(T, 4);
    x := T.next[a][b].value;
  }

  /** `floyd_warshall` on the instance. */
  lemma SampleSolved()
    ensures var T := Solve(Sample());
      && T.dist[0][3] == Fin(9) && T.dist[3][1] == Fin(4) && T.dist[0][0] == Fin(0)
      && T.dist[0][2] == Fin(7) && T.next[0][2] == Some(1)
  {
    var W := Sample();
    SolveIsShortest(W);
    SampleShortest(W, Solve(W));
  }
}

# Floyd–Warshall on a keyed graph

This project models `graphing/floyd_warshall.py` in Dafny:

- the graph container, a dictionary from integer keys to `Vertex` objects, each holding a dictionary from neighbouring
  vertex objects to integer edge weights;
- `floyd_warshall`, which fills a distance table and a next-hop table in place, relaxing every pair `(v, w)` through
  every intermediate vertex `p` in the graph's iteration order;
- `print_path`, which follows the next hops from `u` towards `v` and emits the keys it meets.

Modules:

- `Graphs` (`graph.dfy`) holds the two classes of the source. `Graph` keeps `vertices: map<int, Vertex>` and the
  dictionary's iteration order `order`. `Vertex` keeps `pointsTo: map<Vertex, int>`, keyed by object identity as in
  Python. The methods update these fields in place. Python's `KeyError` is modelled twice. `Vertex.GetWeight`
  returns a `Lookup` whose `KeyError` carries `dest.key`, where Python's carries the vertex object itself; after
  `add_vertex` has replaced a vertex, that key names a different live vertex. `Graph.AddEdge` returns
  `missing: Option<int>`, the key that was not found.
- `Extended` (`extended.dfy`) holds distances: a finite integer or `Inf`, which stands for `float('inf')`. It has the
  addition and comparison the relaxation uses: any integer plus `Inf` is `Inf`, and `Inf > Inf` is false. (Python
  raises `OverflowError` instead when the integer lies beyond the float range; see `Extended.Add` below.)
- `Relaxation` (`relaxation.dfy`) covers the tables, indexed by vertex position in iteration order. `Initial` is the
  seeded tables. `Relax`, `RelaxRow`, `RelaxRows` and `Rounds` replay the in-place triple loop cell by cell, and
  `Solve` is the whole run. It also proves that one in-place pass through `p` equals the textbook stage computed from
  the tables before the pass, whenever `D[p][p] = 0`.
- `Walks` (`walks.dfy`) holds walks and their weights. For any weights, every finite distance the algorithm writes is
  the weight of a walk.
- `Shortest` (`shortest.dfy`) assumes no negative edge weight. It proves the invariant kept by every pass, that the
  final tables hold shortest distances with first hops along shortest walks, and the triangle inequality. It also
  builds a ranking under which following first hops always descends. The ranking is what makes `print_path` finish.
- `Engine` (`engine.dfy`) holds the imperative procedures: `FloydWarshall`, with its seeding loops and triple
  relaxation loop over sequences, proved equal to `Solve`, and `PrintPath`, with its `while` loop.
- `Example` (`example.dfy`) is a worked four-vertex instance.

Three behaviours of the code that a caller might not expect, all modelled as written:

- `add_vertex` silently replaces a vertex already stored under the key, instead of rejecting the duplicate. The only
  rejection is the caller's `key not in g` guard.
- `add_edge` overwrites the weight of an existing edge, instead of rejecting a duplicate edge.
- `print_path` emits only `v` when `next[u][v]` is `None`, not `u` and `v`.

## Model

| member | source | states |
|---|---|---|
| Graphs.Graph.constructor | graphing/floyd_warshall.py:2-3 | a new graph has no vertices |
| Graphs.Graph.AddVertex | graphing/floyd_warshall.py:5-7 | afterwards the key is present, `get_vertex(key)` returns the fresh vertex with that key and no out-edges, and no other vertex points to it. Other keys keep their vertices. The key set grows by exactly `key`. A new key is appended to the iteration order and raises `len` by one; an existing key is replaced in place and `len` is unchanged |
| Graphs.IndexedPut | graphing/floyd_warshall.py:5-7 | storing a vertex under its own key keeps every key mapped to a vertex with that key and listed exactly once in iteration order |
| Graphs.Graph.GetVertex | graphing/floyd_warshall.py:9-10 | finds a vertex exactly when the key is present, and that vertex carries the key and is among the graph's vertices; otherwise KeyError on that key |
| Graphs.Graph.AddEdge | graphing/floyd_warshall.py:15-16 | a missing source key (checked first) or destination key is reported as KeyError and changes nothing. Otherwise the edge exists afterwards with the given weight (default 1), overwriting an existing weight, and every other vertex's neighbour map is unchanged |
| Graphs.Graph.DoesEdgeExist | graphing/floyd_warshall.py:18-19 | KeyError on the source key, then the destination key, when missing; otherwise true exactly when the source vertex has a weight for the destination vertex |
| Graphs.Graph.Contains | graphing/floyd_warshall.py:12-13 | a key is in the graph exactly when it occurs in the iteration order |
| Graphs.Graph.Len | graphing/floyd_warshall.py:21-22 | the number of vertices, which is the length of the iteration order |
| Graphs.Graph.Vertices | graphing/floyd_warshall.py:24-25 | the stored vertices in iteration order, each once, the i-th carrying the i-th key |
| Graphs.Graph.Matrix | graphing/floyd_warshall.py:24-25 | the adjacency matrix over iteration positions: entry `[i][j]` is the edge from the i-th to the j-th vertex, if any |
| Graphs.Vertex.constructor | graphing/floyd_warshall.py:29-31 | a new vertex has the given key and no neighbours |
| Graphs.Vertex.AddNeighbour | graphing/floyd_warshall.py:36-37 | the neighbour map gets `dest -> weight`, overwriting any old weight, and nothing else changes |
| Graphs.Vertex.GetNeighbours | graphing/floyd_warshall.py:39-40 | exactly the vertices this one points to |
| Graphs.Vertex.GetWeight | graphing/floyd_warshall.py:42-43 | a weight exactly when this vertex points to `dest`, otherwise KeyError |
| Graphs.Vertex.DoesItPointTo | graphing/floyd_warshall.py:45-46 | `dest` is pointed to exactly when it is among `get_neighbours()` |
| Graphs.Entry | graphing/floyd_warshall.py:42-46 | an edge weight exactly when `does_it_point_to` holds, and then it is `get_weight`'s value |
| Extended.Add | graphing/floyd_warshall.py:65-66 | the sum is finite exactly when both operands are, and then it is their integer sum |
| Extended.Less | graphing/floyd_warshall.py:65 | the comparison `>` of line 65 read right to left: +inf is below nothing, every finite value is below +inf, and finite values compare as integers. Together with `LessIsIrreflexiveAndTotal` and `LeTrans` it is a strict total order |
| Extended.Min | graphing/floyd_warshall.py:65-66 | the smaller of the two, no larger than either, keeping the first on a tie |
| Relaxation.EdgeDist | graphing/floyd_warshall.py:50-55 | a seeded distance is finite exactly where an edge exists, and then it is the edge's weight; otherwise +inf |
| Relaxation.EdgeHop | graphing/floyd_warshall.py:51-56 | a seeded first hop exists exactly where an edge exists, and then it is the edge's destination |
| Relaxation.Initial | graphing/floyd_warshall.py:50-60 | the seeded tables are indexed by exactly V×V. Their cells are stated by `Relaxation.InitialTables` |
| Relaxation.InitialTables | graphing/floyd_warshall.py:50-60 | after seeding, the diagonal is 0 with no hop, overriding any self-loop. Off the diagonal an entry is finite exactly for an edge and then holds its weight, and the hop is the destination exactly for an edge |
| Relaxation.Relax | graphing/floyd_warshall.py:65-67 | one execution of the loop body keeps the tables V×V. What it does to each cell is stated by `Relaxation.RelaxEffect` |
| Relaxation.RelaxRow | graphing/floyd_warshall.py:64-67 | the loop over `w` for fixed `p, v` keeps the tables V×V. Its effect is stated by `Relaxation.PassIsStage` and `Relaxation.RoundsBelow` |
| Relaxation.RelaxRows | graphing/floyd_warshall.py:63-67 | the loop over `v` for fixed `p` keeps the tables V×V. With `D[p][p] = 0` it is the stage through `p` (`Relaxation.PassIsStage`) |
| Relaxation.Rounds | graphing/floyd_warshall.py:62-67 | the first k passes of the loop over `p` keep the tables V×V. Entries never rise over them (`Relaxation.RoundsBelow`) |
| Relaxation.Solve | graphing/floyd_warshall.py:49-69 | the tables returned are V×V. Their meaning is stated by `Walks.SolveSound` for any weights and by `Shortest.SolveIsShortest` for non-negative weights |
| Relaxation.RelaxEffect | graphing/floyd_warshall.py:65-67 | one relaxation never raises `D[v][w]`. It changes the tables exactly when `D[v][p] + D[p][w]` is strictly smaller, and then writes that sum and `N[v][w] := N[v][p]`. A sum involving +inf never updates, and every other cell is unchanged |
| Relaxation.RoundsBelow | graphing/floyd_warshall.py:62-67 | every entry of the distance table is non-increasing over any number of passes |
| Relaxation.StageDist | graphing/floyd_warshall.py:65-66 | the stage distance is no larger than the old entry or the detour through the pivot |
| Relaxation.StageNext | graphing/floyd_warshall.py:67 | the stage hop is the old hop, or the hop towards the pivot when the detour is strictly shorter |
| Relaxation.StageKeepsPivot | graphing/floyd_warshall.py:62-67 | when `D[p][p] = 0`, the pass through `p` leaves row `p` and column `p` unchanged |
| Relaxation.PassIsStage | graphing/floyd_warshall.py:62-67 | when `D[p][p] = 0`, the in-place pass through `p` over all `v, w` equals the stage `min(D[v][w], D[v][p] + D[p][w])` computed from the tables before the pass, with matching hops |
| Walks.WalkCons | graphing/floyd_warshall.py:65-67 | prepending an edge to a walk gives a walk heavier by that edge |
| Walks.WalkJoin | graphing/floyd_warshall.py:65-67 | joining walks `a ~> m` and `m ~> b` gives a walk `a ~> b` whose weight is the sum |
| Walks.InitialWalkBacked | graphing/floyd_warshall.py:53-60 | every finite seeded distance is the weight of a walk (the one-vertex walk or a single edge) |
| Walks.RelaxWalkBacked | graphing/floyd_warshall.py:65-67 | a relaxation keeps every finite distance the weight of some walk |
| Walks.SolveSound | graphing/floyd_warshall.py:49-69 | for any weights, every finite final distance is the weight of a walk, and no final entry exceeds its seeded one |
| Shortest.InitialInv | graphing/floyd_warshall.py:53-60 | with no negative weight, the seeded tables satisfy the invariant: 0 diagonal without hop, no negative entry, finite iff hop off the diagonal, every hop an edge, each entry at most its edge |
| Shortest.StageInv | graphing/floyd_warshall.py:62-67 | a pass through `k` keeps the invariant and extends the triangle inequality to intermediates up to `k` |
| Shortest.StageHop | graphing/floyd_warshall.py:67 | after a pass each hop is an out-neighbour `x` of `v`, and edge weight plus `D[x][w]` is at most `D[v][w]` |
| Shortest.StageRanked | graphing/floyd_warshall.py:62-67 | after a pass, following a hop still descends in the order (distance to the target, rank) |
| Shortest.RoundsInv | graphing/floyd_warshall.py:62-67 | the invariant and the ranking hold after every number of passes |
| Shortest.SolveRanked | graphing/floyd_warshall.py:49-69 | with no negative weight, the final tables satisfy the full invariant and admit a descending ranking of first hops |
| Shortest.WalkLowerBound | graphing/floyd_warshall.py:49-69 | no walk from `a` to `b` is lighter than the final `D[a][b]` |
| Shortest.SolveIsShortest | graphing/floyd_warshall.py:49-69 | with no negative weight: 0 and no hop on the diagonal; a finite entry iff a hop off the diagonal; each hop `x` is an edge with `D[a][b] = w(a, x) + D[x][b]`; no walk is lighter than the entry; every finite entry is the weight of a walk |
| Shortest.Triangle | graphing/floyd_warshall.py:58-69 | with no negative weight, the final tables satisfy `D[a][b] <= D[a][m] + D[m][b]` for all a, m, b |
| Shortest.EdgeThenShortest | graphing/floyd_warshall.py:58-69 | with no negative weight, `D[a][b]` is at most any edge `a -> x` plus `D[x][b]` |
| Engine.FloydWarshall | graphing/floyd_warshall.py:49-69 | the returned tables are exactly `Solve` of the graph's adjacency matrix, and the graph is not modified. With no negative weight they hold shortest distances and first hops along shortest walks |
| Engine.Tabulate | graphing/floyd_warshall.py:50-67 | seeding then relaxing over the listed vertices yields `Solve` of their adjacency matrix |
| Engine.SeedEdges | graphing/floyd_warshall.py:50-56 | the tables start at +inf and None, and each edge `v -> w` writes its weight and `w` as hop. Every cell ends as the seeded edge distance and hop |
| Engine.SeedDiagonal | graphing/floyd_warshall.py:58-60 | every diagonal cell becomes 0 with no hop; every other cell is unchanged |
| Engine.SeededIsInitial | graphing/floyd_warshall.py:50-60 | the tables after both seeding loops are the seeded tables `Initial` |
| Engine.RelaxAll | graphing/floyd_warshall.py:62-67 | the triple loop, updating the sequences in place, turns the seeded tables into `Solve` |
| Engine.PrintPath | graphing/floyd_warshall.py:72-78 | with no negative weight, the loop ends. With no first hop only `v`'s key comes out. Otherwise the vertices visited form a walk from `u` to `v` without repeats, the keys emitted are theirs in order (first `u`'s, last `v`'s), the walk's weight is `D[u][v]`, and at most `len(g)` keys come out |
| Engine.FollowHops | graphing/floyd_warshall.py:74-78 | the same loop over any tables whose hops are edges that descend in (distance, rank) |
| Engine.StepAlong | graphing/floyd_warshall.py:75-77 | one hop is an edge, extends the walk so far and strictly lowers (distance to `v`, rank) |
| Engine.Arrive | graphing/floyd_warshall.py:75-78 | when the hops run out at a finite distance, the current vertex is `v` and the walk's weight is `D[u][v]` |
| Engine.DistinctBound | graphing/floyd_warshall.py:75-77 | a walk without repeats among n vertices has at most n vertices |
| Engine.KeysOf | graphing/floyd_warshall.py:76-78 | the keys of the vertices along a walk, one per vertex, in order |
| Example.SampleShortest | graphing/floyd_warshall.py:49-69 | on vertices 1..4 with edges (1,2,3), (2,3,4), (1,3,8), (3,4,2), (4,1,1), any shortest tables have `D[1][4] = 9`, `D[4][2] = 4`, `D[1][1] = 0`, `D[1][3] = 7` and first hop 2 from 1 to 3 |
| Example.Hop | graphing/floyd_warshall.py:65-67 | on the instance, a finite off-diagonal distance has a first hop among the source's out-neighbours, and the distance is that edge plus the rest |
| Example.SampleSolved | graphing/floyd_warshall.py:49-69 | `floyd_warshall` on the instance returns those values |

## Left out

- The interactive menu and the global graph (graphing/floyd_warshall.py:81-142) are left out because they are console
  I/O: `input`, token splitting, `int` parsing and `print`. Their guards before `add_vertex` (line 97) and `add_edge`
  (lines 105-113) are the caller's business. The model states what happens without them: replacement and overwrite.
- `float('inf')` is modelled by the `Inf` distance. Integer edge weights, which is what the menu parses, are exact
  integers as long as every sum the relaxation forms stays within the float range (about 1.8e308); floating-point
  weights and their rounding are not modelled.
- Extended.Add: an integer beyond the float range plus `float('inf')`, or a finite distance whose sum with another
  passes that range and then meets `inf`, makes Python raise `OverflowError` at graphing/floyd_warshall.py:65, and
  `floyd_warshall` aborts. The model's `Inf` absorbs any integer and its integers are unbounded, so it returns tables
  where the source raises. Float overflow is left out because it only arises for weights near 10**308.
- Engine.PrintPath: requires non-negative weights. With a negative cycle the source's loop may never end, and the
  model does not capture that non-terminating behaviour. The console formatting (`' -> '`, `end=''`) is left out;
  the method returns the key sequence instead.
- Shortest.SolveIsShortest: the shortest-path facts are proved only for non-negative weights. With negative weights
  the model proves only `Walks.SolveSound` (finite entries are walk weights) and `Relaxation.RoundsBelow`
  (entries never rise).
- Engine.FloydWarshall: the tables are indexed by vertex position in iteration order rather than by the vertex
  objects. The inner seeding loop scans every vertex `w` and asks `does_it_point_to`, rather than iterating over
  `get_neighbours()` in the neighbour dictionary's own order. The cells written are the same.
- Graphs.Graph.Matrix: an edge that still points at a vertex object replaced by `add_vertex` is not in the matrix,
  because that object is no longer among the graph's vertices. The source's `floyd_warshall` would add such an
  object as an extra dictionary key, and the model does not capture that.
- `get_key` (lines 33-34) is the constant field `key` of `Vertex`.


/**
  The graph container of graphing/floyd_warshall.py: a dictionary from keys to
  vertices, each vertex holding a dictionary from neighbouring vertices to edge
  weights.  Both dictionaries are updated in place.  Neighbours are keyed by
  the vertex object itself, as in the source, so replacing a vertex under an
  existing key leaves the edges that pointed at the old object dangling.
*/
module Graphs {
  import opened Wrappers

  /** The outcome of a dictionary lookup that raises KeyError in the source. */
  datatype Lookup<+T> = Found(value: T) | KeyError(key: int)

  /**
    The dictionary `vertices` stores each vertex under its own key, and `order`
    lists its keys once each, in iteration order.
  */
  ghost predicate Indexed(vertices: map<int, Vertex>, order: seq<int>)
  {
    && (forall k :: k in vertices ==> vertices[k].key == k && k in order)
    && (forall i :: 0 <= i < |order| ==> order[i] in vertices)
    && (forall i, j :: 0 <= i < j < |order| ==> order[i] != order[j])
    && |order| == |vertices|
  }

  /** Storing a vertex under its key keeps the dictionary indexed; a new key goes last. */
  lemma IndexedPut(vertices: map<int, Vertex>, order: seq<int>, key: int, v: Vertex)
    requires Indexed(vertices, order) && v.key == key
    ensures Indexed(vertices[key := v], if key in vertices then order else order + [key])
  {
    if key !in vertices {
      assert key !in order;
      assert vertices[key := v].Keys == vertices.Keys + {key};
    }
  }

  class Vertex {
    const key: int
    var pointsTo: map<Vertex, int>

    constructor (key: int)
      ensures this.key == key && pointsTo == map[]
    {
      this.key := key;
      pointsTo := map[];
    }

    /** Records (or overwrites) the edge to `dest`. */
    method AddNeighbour(dest: Vertex, weight: int)
      modifies this
      ensures pointsTo == old(pointsTo)[dest := weight]
      ensures DoesItPointTo(dest) && GetWeight(dest) == Found(weight)
    {
      pointsTo := pointsTo[dest := weight];
    }

    /** Whether `dest` is among the neighbours, i.e. `get_weight(dest)` would not raise. */
    predicate DoesItPointTo(dest: Vertex)
      reads this
      ensures DoesItPointTo(dest) <==> dest in GetNeighbours()
    {
      dest in pointsTo
    }

    /** The vertices this one has an edge to. */
    function GetNeighbours(): (ns: set<Vertex>)
      reads this
      ensures forall d :: d in ns ==> d in pointsTo
      ensures forall d :: d in pointsTo ==> d in ns
    {
      pointsTo.Keys
    }

    /** The weight of the edge to `dest`; KeyError when there is none. */
    function GetWeight(dest: Vertex): (r: Lookup<int>)
      reads this
      ensures r.Found? <==> DoesItPointTo(dest)
      ensures r.KeyError? ==> r.key == dest.key
    {
      if dest in pointsTo then Found(pointsTo[dest]) else KeyError(dest.key)
    }
  }

  class Graph {
    /** The key -> vertex dictionary. */
    var vertices: map<int, Vertex>
    /** The dictionary's iteration order: keys in order of first insertion. */
    var order: seq<int>
    ghost var Repr: set<object>

    ghost predicate Valid()
      reads this, Repr
    {
      && this in Repr
      && Indexed(vertices, order)
      && (forall k :: k in vertices ==> vertices[k] in Repr)
    }

    constructor ()
      ensures Valid() && fresh(Repr)
      ensures vertices == map[] && order == []
    {
      vertices := map[];
      order := [];
      Repr := {this};
    }

    /**
      Inserts a fresh vertex without edges under `key`.  A vertex already stored
      there is replaced; the edges that pointed at it keep pointing at the old
      object, which is no longer in the graph.
    */
    method AddVertex(key: int)
      requires Valid()
      modifies this
      ensures Valid() && fresh(Repr - old(Repr))
      ensures Contains(key) && fresh(vertices[key])
      ensures GetVertex(key) == Found(vertices[key]) && vertices[key].GetNeighbours() == {}
      ensures forall k :: k in vertices && k != key ==> !vertices[k].DoesItPointTo(vertices[key])
      ensures forall k :: k in old(vertices) && k != key ==> k in vertices && vertices[k] == old(vertices[k])
      ensures vertices.Keys == old(vertices.Keys) + {key}
      ensures order == if key in old(vertices) then old(order) else old(order) + [key]
      ensures Len() == if key in old(vertices) then old(Len()) else old(Len()) + 1
    {
      var v := new Vertex(key);
      if key !in vertices {
        order := order + [key];
      }
      ghost var oldVertices := vertices;
      vertices := vertices[key := v];
      Repr := Repr + {v};
      IndexedPut(oldVertices, old(order), key, v);
      forall k | k in vertices && k != key
        ensures !vertices[k].DoesItPointTo(v)
      {
        assert k in old(vertices) && vertices[k] == oldVertices[k] == old(vertices)[k];
        assert old(allocated(vertices[k]));
      }
    }

    /** The vertex stored under `key`; KeyError when there is none. */
    function GetVertex(key: int): (r: Lookup<Vertex>)
      requires Valid()
      reads this, Repr
      ensures r.Found? <==> Contains(key)
      ensures r.Found? ==> r.value.key == key && r.value in Vertices()
      ensures r.KeyError? ==> r.key == key
    {
      if key in vertices then
        var i :| 0 <= i < |order| && order[i] == key;
        assert Vertices()[i] == vertices[key];
        Found(vertices[key])
      else KeyError(key)
    }

    /** `key in g`: whether the key is stored, which is whether the iteration meets it. */
    predicate Contains(key: int)
      requires Valid()
      reads this, Repr
      ensures Contains(key) <==> key in order
    {
      key in vertices
    }

    /**
      Adds the edge `srcKey -> destKey`, overwriting the weight of an existing
      one.  A missing key raises KeyError (the source or, failing that, the
      destination) and leaves the graph untouched.
    */
    method AddEdge(srcKey: int, destKey: int, weight: int := 1) returns (missing: Option<int>)
      requires Valid()
      modifies if srcKey in vertices then {vertices[srcKey]} else {}
      ensures Valid()
      ensures missing == if !Contains(srcKey) then Some(srcKey) else if !Contains(destKey) then Some(destKey) else None
      ensures missing.None? ==> DoesEdgeExist(srcKey, destKey) == Found(true)
      ensures missing.None? ==> vertices[srcKey].GetWeight(vertices[destKey]) == Found(weight)
      ensures missing.None? ==> vertices[srcKey].pointsTo == old(vertices[srcKey].pointsTo)[vertices[destKey] := weight]
      ensures forall k :: k in vertices && (k != srcKey || missing.Some?) ==> vertices[k].pointsTo == old(vertices[k].pointsTo)
    {
      if srcKey !in vertices {
        return Some(srcKey);
      }
      if destKey !in vertices {
        return Some(destKey);
      }
      vertices[srcKey].AddNeighbour(vertices[destKey], weight);
      missing := None;
    }

    /** Whether the edge `srcKey -> destKey` exists; KeyError when either key is missing. */
    function DoesEdgeExist(srcKey: int, destKey: int): (r: Lookup<bool>)
      requires Valid()
      reads this, Repr
      ensures r.Found? <==> Contains(srcKey) && Contains(destKey)
      ensures r.KeyError? ==> r.key == if !Contains(srcKey) then srcKey else destKey
      ensures r.Found? ==> (r.value <==> vertices[srcKey].GetWeight(vertices[destKey]).Found?)
    {
      if srcKey !in vertices then KeyError(srcKey)
      else if destKey !in vertices then KeyError(destKey)
      else Found(vertices[srcKey].DoesItPointTo(vertices[destKey]))
    }

    /** The number of vertices. */
    function Len(): (n: nat)
      requires Valid()
      reads this, Repr
      ensures n == |order|
    {
      |vertices|
    }

    /** The vertices in iteration (insertion) order. */
    function Vertices(): (vs: seq<Vertex>)
      requires Valid()
      reads this, Repr
      ensures |vs| == |order|
      ensures forall i :: 0 <= i < |vs| ==> vs[i] == vertices[order[i]] && vs[i].key == order[i] && vs[i] in Repr
      ensures forall i, j :: 0 <= i < j < |vs| ==> vs[i] != vs[j]
    {
      assert forall i :: 0 <= i < |order| ==> order[i] in vertices && vertices[order[i]].key == order[i];
      seq(|order|, i requires 0 <= i < |order| && order[i] in vertices reads this => vertices[order[i]])
    }

    /**
      The adjacency matrix over positions in the iteration order: entry `[i][j]`
      is the weight of the edge from the i-th vertex to the j-th one, if any.
    */
    function Matrix(): (w: seq<seq<Option<int>>>)
      requires Valid()
      reads this, Repr
      ensures |w| == |order| && forall i :: 0 <= i < |w| ==> |w[i]| == |order|
      ensures forall i, j :: 0 <= i < |w| && 0 <= j < |w| ==> w[i][j] == Entry(Vertices()[i], Vertices()[j])
    {
      var vs := Vertices();
      seq(|vs|, i requires 0 <= i < |vs| reads vs => seq(|vs|, j requires 0 <= j < |vs| reads vs[i] => Entry(vs[i], vs[j])))
    }
  }

  /** The weight of the edge `a -> b`, if there is one. */
  function Entry(a: Vertex, b: Vertex): (r: Option<int>)
    reads a
    ensures r.Some? <==> a.DoesItPointTo(b)
    ensures r.Some? ==> a.GetWeight(b) == Found(r.value)
  {
    if b in a.pointsTo then Some(a.pointsTo[b]) else None
  }
}

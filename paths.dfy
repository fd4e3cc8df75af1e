/**
 * Digraph.Path of src/core/Digraph.java: a list of edges with a cost cached
 * for the last metric asked for.
 */
module Paths {
  import opened Wrappers
  import opened Digraph
  import opened Utils

  /** The vertices a list of edges passes: the first source, then every destination. */
  function VerticesOf(es: seq<Edge>): (vs: seq<Vertex>)
    requires es != []
    ensures |vs| == |es| + 1
  {
    [es[0].src] + Dsts(es)
  }

  /** Along a walk, edge i goes from vertex i to vertex i+1, and the ends are the walk's ends. */
  lemma VerticesOfWalk(es: seq<Edge>, a: Vertex, b: Vertex)
    requires es != [] && IsWalk(es, a, b)
    ensures VerticesOf(es)[0] == a && VerticesOf(es)[|es|] == b
    ensures forall i | 0 <= i < |es| :: es[i].src == VerticesOf(es)[i] && es[i].dst == VerticesOf(es)[i + 1]
  {
    var vs := VerticesOf(es);
    forall i | 0 <= i < |es|
      ensures es[i].src == vs[i] && es[i].dst == vs[i + 1]
    {
      if i > 0 {
        assert es[i - 1].dst == es[i].src;
      }
    }
  }

  class Path {
    const edges: seq<Edge>
    var length: int
    var metric: Option<Metric>

    /** The cached length is the cost under the cached metric, whenever that cost exists. */
    ghost predicate Valid()
      reads this
    {
      metric.Some? && TotalCost(edges, metric.value).Some? ==> length == TotalCost(edges, metric.value).value
    }

    constructor (es: seq<Edge>)
      ensures Valid() && edges == es && metric == None && length == 0
    {
      edges := es;
      length := 0;
      metric := None;
    }

    /**
     * Path.getLength: the cost under `m`, answered from the cache when `m` is the
     * cached metric. None where Utils.pathCost throws; the metric is recorded before
     * the cost is computed, so the length stays stale after such a throw.
     */
    method GetLength(m: Metric) returns (r: Option<int>)
      requires Valid()
      modifies this
      ensures Valid() && metric == Some(m)
      ensures TotalCost(edges, m).Some? ==> r == TotalCost(edges, m)
      ensures old(metric) != Some(m) ==> r == TotalCost(edges, m)
      ensures old(metric) == Some(m) ==> r == Some(old(length)) && length == old(length)
      ensures r.Some? ==> length == r.value
    {
      if metric == Some(m) {
        return Some(length);
      }
      metric := Some(m);
      var c := PathCost(edges, m);
      if c.None? {
        return None;
      }
      length := c.value;
      r := c;
    }

    /** Path.vertices: the edges' vertices, filled into a fresh array. */
    method Vertices() returns (vs: array<Vertex>)
      requires edges != []
      ensures fresh(vs) && vs[..] == VerticesOf(edges)
    {
      vs := new Vertex[|edges| + 1](_ => edges[0].src);
      vs[0] := edges[0].src;
      var i := 1;
      while i < vs.Length
        invariant 1 <= i <= vs.Length
        invariant vs[0] == edges[0].src
        invariant forall k | 1 <= k < i :: vs[k] == edges[k - 1].dst
      {
        vs[i] := edges[i - 1].dst;
        i := i + 1;
      }
    }
  }
}

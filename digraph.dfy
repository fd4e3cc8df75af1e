/**
 * The graph model of src/core/Digraph.java: vertices identified by their id,
 * directed edges, and the adjacency map with one edge list per vertex,
 * kept in insertion order.
 */
module Digraph {
  import opened Wrappers

  /** A vertex. Vertex.equals and Vertex.hashCode look at the id alone, so the id is the vertex. */
  datatype Vertex = Vertex(id: int)

  /** A directed edge with its length in feet and its one-letter surface type code. */
  datatype Edge = Edge(src: Vertex, dst: Vertex, length: int, kind: char)

  type Adjacency = map<Vertex, seq<Edge>>

  /** Every edge is filed under its own source and points at a vertex of the graph. */
  ghost predicate WellFormed(adj: Adjacency) {
    forall v, i | v in adj && 0 <= i < |adj[v]| :: adj[v][i].src == v && adj[v][i].dst in adj
  }

  /** `es` leads from `a` to `b`: each edge ends where the next begins; the empty walk stays put. */
  ghost predicate IsWalk(es: seq<Edge>, a: Vertex, b: Vertex) {
    if es == [] then a == b
    else
      && es[0].src == a
      && es[|es| - 1].dst == b
      && forall i, j | 0 <= i && j == i + 1 < |es| :: es[i].dst == es[j].src
  }

  /** A walk whose every edge is stored in the adjacency list of its source. */
  ghost predicate WalkIn(adj: Adjacency, es: seq<Edge>, a: Vertex, b: Vertex) {
    IsWalk(es, a, b) && forall i | 0 <= i < |es| :: es[i].src in adj && es[i] in adj[es[i].src]
  }

  /** The destinations of a list of edges, in order. */
  function Dsts(es: seq<Edge>): (r: seq<Vertex>)
    ensures |r| == |es| && forall i | 0 <= i < |es| :: r[i] == es[i].dst
  {
    if es == [] then [] else [es[0].dst] + Dsts(es[1..])
  }

  /** Walks compose: a walk to `b` followed by a walk from `b`. */
  lemma {:induction false} WalkConcat(x: seq<Edge>, y: seq<Edge>, a: Vertex, b: Vertex, c: Vertex)
    requires IsWalk(x, a, b) && IsWalk(y, b, c)
    ensures IsWalk(x + y, a, c)
  {
    if x != [] && y != [] {
      var z := x + y;
      forall i | 0 <= i < |z| - 1 ensures z[i].dst == z[i + 1].src {
        if i < |x| - 1 {
        } else if i == |x| - 1 {
        } else {
          assert z[i] == y[i - |x|] && z[i + 1] == y[i - |x| + 1];
        }
      }
    }
  }

  /** Putting a stored edge in front of a walk from its destination gives a walk from its source. */
  lemma WalkInPrepend(adj: Adjacency, e: Edge, es: seq<Edge>, b: Vertex)
    requires WalkIn(adj, es, e.dst, b) && e.src in adj && e in adj[e.src]
    ensures WalkIn(adj, [e] + es, e.src, b)
  {
    WalkConcat([e], es, e.src, e.dst, b);
    var z := [e] + es;
    assert forall i | 1 <= i < |z| :: z[i] == es[i - 1];
  }

  /** Stored walks compose like walks. */
  lemma WalkInConcat(adj: Adjacency, x: seq<Edge>, y: seq<Edge>, a: Vertex, b: Vertex, c: Vertex)
    requires WalkIn(adj, x, a, b) && WalkIn(adj, y, b, c)
    ensures WalkIn(adj, x + y, a, c)
  {
    WalkConcat(x, y, a, b, c);
    assert forall i | |x| <= i < |x + y| :: (x + y)[i] == y[i - |x|];
  }

  /** The vertices some edge of `es` leads to. */
  ghost function DstSet(es: seq<Edge>): set<Vertex> {
    set i | 0 <= i < |es| :: es[i].dst
  }

  lemma DstSetConcat(x: seq<Edge>, y: seq<Edge>)
    ensures DstSet(x + y) == DstSet(x) + DstSet(y)
  {
    var z := x + y;
    forall v | v in DstSet(z) ensures v in DstSet(x) + DstSet(y) {
      var i :| 0 <= i < |z| && z[i].dst == v;
      if i >= |x| {
        assert y[i - |x|] == z[i];
      }
    }
    forall v | v in DstSet(x) ensures v in DstSet(z) {
      var i :| 0 <= i < |x| && x[i].dst == v;
      assert z[i] == x[i];
    }
    forall v | v in DstSet(y) ensures v in DstSet(z) {
      var i :| 0 <= i < |y| && y[i].dst == v;
      assert z[i + |x|] == y[i];
    }
  }

  /** A walk leaving a set closed under the edges never leaves it. */
  lemma {:induction false} ClosedSetTrapsWalks(adj: Adjacency, s: set<Vertex>, es: seq<Edge>, a: Vertex, b: Vertex)
    requires forall u, i | u in s && u in adj && 0 <= i < |adj[u]| :: adj[u][i].dst in s
    requires a in s && WalkIn(adj, es, a, b)
    ensures b in s
    decreases |es|
  {
    if es != [] {
      var e := es[0];
      var k :| 0 <= k < |adj[e.src]| && adj[e.src][k] == e;
      assert e.dst in s;
      if |es| == 1 {
      } else {
        var rest := es[1..];
        assert rest[0] == es[1];
        ClosedSetTrapsWalks(adj, s, rest, e.dst, b);
      }
    }
  }

  /** The mutable graph: `neighbors` maps each vertex to its outgoing edges. */
  class Digraph {
    var neighbors: Adjacency

    ghost predicate Valid()
      reads this
    {
      WellFormed(neighbors)
    }

    constructor ()
      ensures Valid() && neighbors == map[]
    {
      neighbors := map[];
    }

    /** Adding a vertex that is already present (same id) changes nothing. */
    method AddVertex(v: Vertex)
      requires Valid()
      modifies this
      ensures Valid()
      ensures v in old(neighbors) ==> neighbors == old(neighbors)
      ensures v !in old(neighbors) ==> neighbors == old(neighbors)[v := []]
    {
      if v in neighbors {
        return;
      }
      neighbors := neighbors[v := []];
    }

    /**
     * Makes both endpoints vertices, then appends exactly one edge at the end of
     * `from`'s list; every other list is left as it was.
     */
    method AddEdge(from: Vertex, to: Vertex, length: int, kind: char)
      requires Valid()
      modifies this
      ensures Valid()
      ensures neighbors.Keys == old(neighbors).Keys + {from, to}
      ensures neighbors[from] ==
        (if from in old(neighbors) then old(neighbors)[from] else []) + [Edge(from, to, length, kind)]
      ensures forall v | v in old(neighbors) && v != from :: neighbors[v] == old(neighbors)[v]
      ensures to !in old(neighbors) && to != from ==> neighbors[to] == []
    {
      AddVertex(from);
      AddVertex(to);
      neighbors := neighbors[from := neighbors[from] + [Edge(from, to, length, kind)]];
    }

    /** A copy of `v`'s outgoing edges in insertion order, each of which leaves `v`. */
    method NeighboringEdges(v: Vertex) returns (list: seq<Edge>)
      requires Valid() && v in neighbors
      ensures list == neighbors[v]
      ensures forall i | 0 <= i < |list| :: list[i].src == v && list[i].dst in neighbors
    {
      list := [];
      for i := 0 to |neighbors[v]|
        invariant list == neighbors[v][..i]
      {
        list := list + [neighbors[v][i]];
      }
    }

    /** The destinations of `v`'s outgoing edges, in the same order. */
    method NeighboringVertices(v: Vertex) returns (list: seq<Vertex>)
      requires Valid() && v in neighbors
      ensures |list| == |neighbors[v]|
      ensures forall i | 0 <= i < |list| :: list[i] == neighbors[v][i].dst && list[i] in neighbors
    {
      list := [];
      for i := 0 to |neighbors[v]|
        invariant |list| == i
        invariant forall k | 0 <= k < i :: list[k] == neighbors[v][k].dst
      {
        list := list + [neighbors[v][i].dst];
      }
    }

    /** The first edge of `from`'s list that ends at `to`, or None when there is none. */
    function GetEdge(from: Vertex, to: Vertex): (r: Option<Edge>)
      reads this
      requires from in neighbors
      ensures r.Some? ==> r.value in neighbors[from] && r.value.dst == to
      ensures r.None? <==> forall i | 0 <= i < |neighbors[from]| :: neighbors[from][i].dst != to
      ensures r.Some? ==> exists i | 0 <= i < |neighbors[from]| ::
        (neighbors[from][i] == r.value && forall k | 0 <= k < i :: neighbors[from][k].dst != to)
    {
      FirstTo(neighbors[from], to)
    }

    /** A vertex of the graph with the given id, or None; the key set is scanned in no fixed order. */
    method GetVertex(id: int) returns (r: Option<Vertex>)
      ensures r.Some? ==> r.value in neighbors && r.value.id == id
      ensures r.None? ==> forall v | v in neighbors :: v.id != id
    {
      var rest := neighbors.Keys;
      while rest != {}
        invariant rest <= neighbors.Keys
        invariant forall v | v in neighbors && v !in rest :: v.id != id
        decreases rest
      {
        var v :| v in rest;
        if v.id == id {
          return Some(v);
        }
        rest := rest - {v};
      }
      return None;
    }

    /** The vertex set, handed out as a value: removing from it cannot reach the adjacency map. */
    function VertexSet(): (r: set<Vertex>)
      reads this
      ensures forall v :: v in r <==> v in neighbors
    {
      neighbors.Keys
    }
  }

  /** The first edge of `es` ending at `to`, scanning from the front. */
  function FirstTo(es: seq<Edge>, to: Vertex): (r: Option<Edge>)
    ensures r.Some? ==> r.value in es && r.value.dst == to
    ensures r.None? <==> forall i | 0 <= i < |es| :: es[i].dst != to
    ensures r.Some? ==> exists i | 0 <= i < |es| :: es[i] == r.value && forall k | 0 <= k < i :: es[k].dst != to
  {
    if es == [] then None
    else if es[0].dst == to then Some(es[0])
    else
      var r := FirstTo(es[1..], to);
      assert r.Some? ==> exists i | 0 <= i < |es| - 1 :: es[1..][i] == r.value && forall k | 0 <= k < i :: es[1..][k].dst != to;
      if r.Some? then
        var i :| 0 <= i < |es| - 1 && es[1..][i] == r.value && forall k | 0 <= k < i :: es[1..][k].dst != to;
        assert es[i + 1] == r.value && forall k | 0 <= k < i + 1 :: es[k].dst != to;
        r
      else
        assert forall i | 1 <= i < |es| :: es[i] == es[1..][i - 1];
        r
  }

  /** A vertex is a neighbour exactly when GetEdge finds an edge to it. */
  lemma NeighborIffEdge(g: Digraph, from: Vertex, to: Vertex)
    requires from in g.neighbors
    ensures to in Dsts(g.neighbors[from]) <==> g.GetEdge(from, to).Some?
  {
    var ds := Dsts(g.neighbors[from]);
    if to in ds {
      var i :| 0 <= i < |ds| && ds[i] == to;
      assert g.neighbors[from][i].dst == to;
    }
  }
}

/**
 * The early-exit shortest-path engine of src/core/Djikstra.java. The tentative
 * distances live in the heap's score map, which the engine writes directly, as
 * the Java engine writes the map it shares with its VertexHeap.
 */
module Djikstra {
  import opened Wrappers
  import opened Digraph
  import opened Utils
  import opened Heap
  import opened Paths
  import opened SearchState

  /** Map.get: the value at `k`, or None for Java's null. */
  function Get(bp: map<Vertex, Edge>, k: Vertex): (r: Option<Edge>)
    ensures r.Some? <==> k in bp
    ensures r.Some? ==> r.value == bp[k]
  {
    if k in bp then Some(bp[k]) else None
  }

  /**
   * The reconstruction loop of Djikstra.shortestPath: follow back-pointers from
   * `finish` until a vertex without one, prepending each edge. The result is a walk
   * of stored edges from `start` whose cost is the score of `finish`.
   */
  method TracePath(bp: map<Vertex, Edge>, finish: Vertex, ghost adj: Adjacency, ghost m: Metric, ghost start: Vertex,
                   ghost marked: set<Vertex>, ghost rank: map<Vertex, nat>, ghost scores: map<Vertex, int>)
    returns (path: seq<Edge>)
    requires ConsistentS(adj, m, marked, rank, scores, bp) && MarkedS(adj, start, marked, rank, scores, bp)
    requires finish in marked || finish in bp
    ensures WalkIn(adj, path, start, finish)
    ensures finish in scores && TotalCost(path, m) == Some(scores[finish])
  {
    path := [];
    var e := Get(bp, finish);
    ghost var at := finish;
    TrailFromFinish(adj, m, start, marked, rank, scores, bp, finish);
    while e.Some?
      invariant e == Get(bp, at)
      invariant at in marked || at in bp
      invariant Trail(adj, m, scores, finish, at, path)
      decreases if at in marked then rank[at] else |marked|
    {
      var edge := e.value;
      FollowBackPointer(adj, m, start, marked, rank, scores, bp, at, path, finish);
      path := [edge] + path;
      at := edge.src;
      e := Get(bp, edge.src);
    }
    TrailReachesStart(adj, m, start, marked, rank, scores, bp, at, path, finish);
  }

  /** The first `n` edges all end inside `s`. */
  ghost predicate AllReached(edges: seq<Edge>, n: nat, s: set<Vertex>) {
    forall k | 0 <= k < n && k < |edges| :: edges[k].dst in s
  }

  lemma AllReachedGrows(edges: seq<Edge>, i: nat, s: set<Vertex>, t: set<Vertex>)
    requires i < |edges| && AllReached(edges, i, s) && s <= t && edges[i].dst in t
    ensures AllReached(edges, i + 1, t)
  {
  }

  class Djikstra {
    const dg: Digraph
    const heap: VertexHeap
    var marked: set<Vertex>
    var backPointers: map<Vertex, Edge>
    /** The order in which vertices were marked; back-pointers always lead to earlier ones. */
    ghost var rank: map<Vertex, nat>

    constructor (dg: Digraph)
      ensures this.dg == dg && fresh(heap) && heap.Valid()
      ensures heap.heap == [] && heap.loc == map[] && heap.scores == map[] && marked == {} && backPointers == map[]
    {
      this.dg := dg;
      heap := new VertexHeap(map[]);
      marked := {};
      backPointers := map[];
      rank := map[];
    }

    /** The scores, back-pointers and queued vertices, as one value. */
    ghost function Tent(): Tentative
      reads this, heap
    {
      Tentative(heap.scores, backPointers, heap.loc.Keys)
    }

    /** Queued vertices belong to the graph, are unmarked, scored and reached by a back-pointer. */
    ghost predicate Queued()
      reads this, heap, dg
    {
      QueuedS(dg.neighbors, marked, heap.loc.Keys, heap.scores, backPointers)
    }

    /** Marked vertices are scored and ranked; only `start` lacks a back-pointer. */
    ghost predicate MarkedOk(start: Vertex)
      reads this, heap, dg
    {
      MarkedS(dg.neighbors, start, marked, rank, heap.scores, backPointers)
    }

    /** Every back-pointer passes BackPointerOk. */
    ghost predicate Consistent(m: Metric)
      reads this, heap, dg
    {
      ConsistentS(dg.neighbors, m, marked, rank, heap.scores, backPointers)
    }

    /** Every edge out of a marked vertex ends at a marked, queued or pending vertex. */
    ghost predicate Frontier(pending: set<Vertex>)
      reads this, heap, dg
    {
      FrontierS(dg.neighbors, marked, heap.loc.Keys + pending)
    }

    /** Everything but the frontier: the state in which an edge may be relaxed. */
    ghost predicate Ready(start: Vertex, m: Metric)
      reads this, heap, dg
    {
      && dg.Valid() && Costed(dg.neighbors, m) && heap.Valid()
      && Queued() && MarkedOk(start) && Consistent(m)
    }

    ghost predicate Inv(start: Vertex, m: Metric, pending: set<Vertex>)
      reads this, heap, dg
    {
      Ready(start, m) && Frontier(pending)
    }

    /**
     * One pass of Djikstra.mark's loop over the edges of a marked vertex. A
     * neighbour not yet queued is queued with score(src) + cost and this edge as
     * back-pointer; a queued one takes the edge only when that score is strictly
     * smaller; a marked one is left alone.
     */
    method Relax(e: Edge, m: Metric, ghost start: Vertex)
      requires Ready(start, m)
      requires e.src in marked && e in dg.neighbors[e.src] && Costable(e, m)
      modifies this, heap
      ensures Ready(start, m)
      ensures marked == old(marked) && Tent() == RelaxF(old(Tent()), marked, e, m)
      ensures e.dst in marked + heap.loc.Keys
      ensures heap.loc.Keys >= old(heap.loc).Keys
    {
      ghost var t := Tent();
      var neighbor := e.dst;
      if neighbor !in marked {
        var v := e.src;
        ghost var adj := dg.neighbors;
        assert neighbor in adj by {
          var i :| 0 <= i < |adj[v]| && adj[v][i] == e;
        }
        var newScore := heap.scores[v] + Cost(e, m);
        assert newScore == ScoreIn(t.scores, v) + Cost(e, m);
        assert BackPointerOk(adj, m, marked, rank, heap.scores[neighbor := newScore], neighbor, e);
        RelaxFUnmarked(t, marked, e, m, newScore);
        if !heap.Contains(neighbor) {
          Discover(e, m, start, newScore);
        } else {
          Improve(e, m, start, newScore);
        }
      }
    }

    /** A relaxation into a vertex not yet discovered: score it, point back along `e`, queue it. */
    method Discover(e: Edge, m: Metric, ghost start: Vertex, newScore: int)
      requires Ready(start, m) && e.dst !in marked && e.dst !in heap.loc && e.dst in dg.neighbors
      requires BackPointerOk(dg.neighbors, m, marked, rank, heap.scores[e.dst := newScore], e.dst, e)
      modifies this, heap
      ensures Ready(start, m) && marked == old(marked)
      ensures Tent() == Tentative(old(heap.scores)[e.dst := newScore], old(backPointers)[e.dst := e], old(heap.loc.Keys) + {e.dst})
    {
      heap.scores := heap.scores[e.dst := newScore];
      backPointers := backPointers[e.dst := e];
      heap.Insert(e.dst);
      RelaxKeepsInvariant(dg.neighbors, m, start, marked, rank, old(heap.loc.Keys), old(heap.scores), old(backPointers), e.dst, e, newScore);
    }

    /** A relaxation into a queued vertex: it takes the new score and back-pointer only when strictly smaller. */
    method Improve(e: Edge, m: Metric, ghost start: Vertex, newScore: int)
      requires Ready(start, m) && e.dst !in marked && e.dst in heap.loc && e.dst in dg.neighbors
      requires BackPointerOk(dg.neighbors, m, marked, rank, heap.scores[e.dst := newScore], e.dst, e)
      modifies this, heap
      ensures Ready(start, m) && marked == old(marked)
      ensures Tent() == if newScore < ScoreIn(old(heap.scores), e.dst)
        then Tentative(old(heap.scores)[e.dst := newScore], old(backPointers)[e.dst := e], old(heap.loc.Keys))
        else old(Tent())
    {
      var better := heap.UpdateIfSmaller(e.dst, newScore);
      if better == Some(true) {
        backPointers := backPointers[e.dst := e];
        RelaxKeepsInvariant(dg.neighbors, m, start, marked, rank, old(heap.loc.Keys), old(heap.scores), old(backPointers), e.dst, e, newScore);
      }
    }

    /**
     * Djikstra.mark: mark `v`, then relax each of its edges in order.
     */
    method Mark(v: Vertex, m: Metric, ghost start: Vertex)
      requires Inv(start, m, {v})
      requires v in dg.neighbors && v !in marked && v !in heap.loc && v in heap.scores
      requires v == start || v in backPointers
      modifies this, heap
      ensures Inv(start, m, {}) && marked == old(marked) + {v}
      ensures heap.loc.Keys >= old(heap.loc).Keys
      ensures Tent() == RelaxAllF(old(Tent()), marked, dg.neighbors[v], m)
      ensures forall w | w in marked :: SameAt(old(Tent()), Tent(), w)
    {
      MarkKeepsConsistent(dg.neighbors, m, start, marked, rank, heap.loc.Keys, heap.scores, backPointers, v);
      rank := rank[v := |marked|];
      marked := marked + {v};
      var edges := dg.NeighboringEdges(v);
      RelaxAll(edges, m, start);
      RelaxAllKeepsMarked(old(Tent()), marked, edges, m);
      MarkKeepsFrontier(dg.neighbors, old(marked), old(heap.loc.Keys), heap.loc.Keys, v);
    }

    /** The loop of Djikstra.mark: relax each edge of a marked vertex in order. */
    method RelaxAll(edges: seq<Edge>, m: Metric, ghost start: Vertex)
      requires Ready(start, m)
      requires forall k | 0 <= k < |edges| :: edges[k].src in marked && edges[k] in dg.neighbors[edges[k].src]
      requires forall k | 0 <= k < |edges| :: Costable(edges[k], m)
      modifies this, heap
      ensures Ready(start, m)
      ensures marked == old(marked) && Tent() == RelaxAllF(old(Tent()), marked, edges, m)
      ensures heap.loc.Keys >= old(heap.loc).Keys
      ensures AllReached(edges, |edges|, marked + heap.loc.Keys)
    {
      ghost var t0 := Tent();
      var i := 0;
      while i < |edges|
        invariant 0 <= i <= |edges| && Ready(start, m)
        invariant marked == old(marked) && Tent() == RelaxAllF(t0, marked, edges[..i], m)
        invariant heap.loc.Keys >= old(heap.loc.Keys)
        invariant AllReached(edges, i, marked + heap.loc.Keys)
      {
        ghost var reached := marked + heap.loc.Keys;
        ghost var before := Tent();
        RelaxAllFStep(t0, marked, edges, i, m);
        Relax(edges[i], m, start);
        assert Tent() == RelaxF(before, marked, edges[i], m);
        AllReachedGrows(edges, i, reached, marked + heap.loc.Keys);
        i := i + 1;
      }
      assert edges[..|edges|] == edges;
    }

    /** The opening of Djikstra.shortestPath: clear all state, score `start` 0 and mark it. */
    method Begin(start: Vertex, m: Metric)
      requires dg.Valid() && Costed(dg.neighbors, m) && start in dg.neighbors
      modifies this, heap
      ensures Inv(start, m, {}) && marked == {start}
      ensures Tent() == RelaxAllF(Tentative(map[start := 0], map[], {}), {start}, dg.neighbors[start], m)
    {
      heap.scores := map[];
      marked := {};
      backPointers := map[];
      heap.Clear();
      rank := map[];
      heap.scores := heap.scores[start := 0];
      assert marked + {start} == {start};
      assert Tent() == Tentative(map[start := 0], map[], {}) by {
        assert heap.loc.Keys == {};
      }
      Mark(start, m, start);
    }

    /** Pops the queued vertex at the root of the heap; it is the next one to mark. */
    method PopNext(ghost start: Vertex, ghost m: Metric) returns (v: Vertex)
      requires Inv(start, m, {}) && heap.heap != []
      modifies heap
      ensures Inv(start, m, {v}) && heap.loc.Keys == old(heap.loc.Keys) - {v}
      ensures v == old(heap.heap)[0] && heap.scores == old(heap.scores) && heap.heap == PopMinF(old(heap.heap), heap.scores).1
      ensures QueuedAt(dg.neighbors, marked, heap.scores, backPointers, v) && v !in heap.loc
    {
      var popped := heap.PopMin();
      v := popped.value;
      DequeueKeepsInvariant(dg.neighbors, marked, old(heap.loc.Keys), heap.loc.Keys, heap.scores, backPointers, v);
    }

    /** The loop invariant of the search: the state invariant, with `start` marked and `finish` not yet. */
    ghost predicate Searching(start: Vertex, finish: Vertex, m: Metric)
      reads this, heap, dg
    {
      Inv(start, m, {}) && start in marked && (finish in marked ==> finish == start)
    }

    /**
     * The main loop of Djikstra.shortestPath: pop the root of the heap; stop with the
     * back-pointer path when it is `finish`, otherwise mark it. An empty result means
     * the queue ran dry without meeting `finish`, leaving the marked set closed.
     */
    method Search(start: Vertex, finish: Vertex, m: Metric) returns (path: seq<Edge>)
      requires Inv(start, m, {}) && marked == {start}
      modifies this, heap
      ensures Consistent(m) && start in marked
      ensures path != [] ==> finish != start && WalkIn(dg.neighbors, path, start, finish)
      ensures path != [] ==> finish in heap.scores && TotalCost(path, m) == Some(heap.scores[finish])
      ensures path == [] ==> FrontierS(dg.neighbors, marked, {}) && (finish in marked ==> finish == start)
    {
      path := [];
      while !heap.IsEmpty()
        invariant Searching(start, finish, m) && path == []
        decreases |dg.neighbors.Keys - marked|
      {
        var current := PopNext(start, m);
        if current == finish {
          path := TracePath(backPointers, finish, dg.neighbors, m, start, marked, rank, heap.scores);
          return;
        }
        ghost var keys, before := dg.neighbors.Keys, marked;
        MarkShrinksUnmarked(keys, before, current);
        Mark(current, m, start);
        assert dg.neighbors.Keys == keys && marked == before + {current};
      }
      assert heap.loc.Keys + {} == {};
    }

    /**
     * Djikstra.shortestPath: reset all state, mark `start`, then pop and mark until
     * `finish` is popped, and rebuild the path from the back-pointers. The result is
     * empty exactly when `finish` is `start` or cannot be reached.
     */
    method ShortestPath(start: Vertex, finish: Vertex, m: Metric) returns (p: Path)
      requires dg.Valid() && Costed(dg.neighbors, m) && start in dg.neighbors
      modifies this, heap
      ensures fresh(p) && p.Valid() && p.metric == None
      ensures p.edges != [] ==> WalkIn(dg.neighbors, p.edges, start, finish)
      ensures p.edges != [] <==> start != finish && exists es :: WalkIn(dg.neighbors, es, start, finish)
      ensures p.edges != [] ==> finish in heap.scores && TotalCost(p.edges, m) == Some(heap.scores[finish])
      ensures Consistent(m)
    {
      Begin(start, m);
      var path := Search(start, finish, m);
      if path == [] && finish !in marked {
        ExhaustedSearchIsClosed(dg.neighbors, marked, start, finish);
      }
      p := new Path(path);
    }
  }
}

/**
 * The state invariants of the search in src/core/Djikstra.java, stated over plain
 * values: the marked set, the ranks in which vertices were marked, the queued set,
 * the tentative scores and the back-pointers. The search class states its
 * invariants through these predicates, and each step of the search is justified by
 * one of the lemmas here.
 */
module SearchState {
  import opened Wrappers
  import opened Digraph
  import opened Utils
  import opened Heap

  /** Every edge of the graph has a cost under `m` (computeCost never throws). */
  ghost predicate Costed(adj: Adjacency, m: Metric) {
    forall v, i | v in adj && 0 <= i < |adj[v]| :: Costable(adj[v][i], m)
  }

  function Cost(e: Edge, m: Metric): int
    requires Costable(e, m)
  {
    ComputeCost(e, m).value
  }

  /** A queued vertex belongs to the graph, is unmarked, scored and has a back-pointer. */
  ghost predicate QueuedAt(adj: Adjacency, marked: set<Vertex>, scores: map<Vertex, int>, bp: map<Vertex, Edge>, v: Vertex) {
    v in adj && v !in marked && v in scores && v in bp
  }

  ghost predicate QueuedS(adj: Adjacency, marked: set<Vertex>, queued: set<Vertex>,
                          scores: map<Vertex, int>, bp: map<Vertex, Edge>)
  {
    forall v | v in queued :: QueuedAt(adj, marked, scores, bp, v)
  }

  ghost predicate MarkedS(adj: Adjacency, start: Vertex, marked: set<Vertex>, rank: map<Vertex, nat>,
                          scores: map<Vertex, int>, bp: map<Vertex, Edge>)
  {
    && marked <= adj.Keys
    && start !in bp
    && start in scores && scores[start] == 0
    && (marked != {} ==> start in marked)
    && forall v | v in marked :: RankedAt(start, |marked|, rank, scores, bp, v)
  }

  /** A marked vertex is scored, ranked below `n`, and has a back-pointer unless it is `start`. */
  ghost predicate RankedAt(start: Vertex, n: nat, rank: map<Vertex, nat>, scores: map<Vertex, int>, bp: map<Vertex, Edge>, v: Vertex) {
    v in scores && v in rank && rank[v] < n && (v == start || v in bp)
  }

  /**
   * The back-pointer `e` of `v` is a stored edge from an earlier-marked vertex, and
   * score(v) == score(e.src) + cost(e).
   */
  ghost predicate BackPointerOk(adj: Adjacency, m: Metric, marked: set<Vertex>, rank: map<Vertex, nat>,
                                scores: map<Vertex, int>, v: Vertex, e: Edge)
  {
    && e.dst == v && e.src in marked && e.src in rank
    && e.src in adj && e in adj[e.src]
    && Costable(e, m) && v in scores && e.src in scores
    && scores[v] == scores[e.src] + Cost(e, m)
    && (v in marked && v in rank ==> rank[e.src] < rank[v])
  }

  ghost predicate ConsistentS(adj: Adjacency, m: Metric, marked: set<Vertex>, rank: map<Vertex, nat>,
                              scores: map<Vertex, int>, bp: map<Vertex, Edge>)
  {
    forall v | v in bp :: BackPointerOk(adj, m, marked, rank, scores, v, bp[v])
  }

  ghost predicate FrontierS(adj: Adjacency, marked: set<Vertex>, reached: set<Vertex>) {
    forall u, i | u in marked && u in adj && 0 <= i < |adj[u]| :: adj[u][i].dst in marked || adj[u][i].dst in reached
  }

  /** The part of the search state one relaxation changes: tentative scores, back-pointers, queued vertices. */
  datatype Tentative = Tentative(scores: map<Vertex, int>, bp: map<Vertex, Edge>, queued: set<Vertex>)

  /**
   * One pass of Djikstra.mark's loop on the values: an edge into a marked vertex is
   * skipped; a vertex not yet queued is queued with score(src) + cost and this edge;
   * a queued one takes both only when that score is strictly below its own.
   */
  function RelaxF(t: Tentative, marked: set<Vertex>, e: Edge, m: Metric): Tentative
    requires Costable(e, m)
  {
    if e.dst in marked then t
    else
      var s := ScoreIn(t.scores, e.src) + Cost(e, m);
      if e.dst !in t.queued then Tentative(t.scores[e.dst := s], t.bp[e.dst := e], t.queued + {e.dst})
      else if s < ScoreIn(t.scores, e.dst) then Tentative(t.scores[e.dst := s], t.bp[e.dst := e], t.queued)
      else t
  }

  /** Relaxing one more edge of the list relaxes the prefix, then that edge. */
  lemma RelaxAllFStep(t: Tentative, marked: set<Vertex>, edges: seq<Edge>, i: nat, m: Metric)
    requires i < |edges| && forall k | 0 <= k < |edges| :: Costable(edges[k], m)
    ensures RelaxAllF(t, marked, edges[..i + 1], m) == RelaxF(RelaxAllF(t, marked, edges[..i], m), marked, edges[i], m)
  {
    assert edges[..i + 1][..i] == edges[..i];
  }

  /** The two cases of relaxing into an unmarked vertex, with the candidate score `s` given. */
  lemma RelaxFUnmarked(t: Tentative, marked: set<Vertex>, e: Edge, m: Metric, s: int)
    requires Costable(e, m) && e.dst !in marked && s == ScoreIn(t.scores, e.src) + Cost(e, m)
    ensures e.dst !in t.queued ==> RelaxF(t, marked, e, m) == Tentative(t.scores[e.dst := s], t.bp[e.dst := e], t.queued + {e.dst})
    ensures e.dst in t.queued ==>
              RelaxF(t, marked, e, m) == if s < ScoreIn(t.scores, e.dst) then Tentative(t.scores[e.dst := s], t.bp[e.dst := e], t.queued) else t
  {
  }

  /** Every edge of the list relaxed in order, with the marked set fixed. */
  function RelaxAllF(t: Tentative, marked: set<Vertex>, edges: seq<Edge>, m: Metric): Tentative
    requires forall k | 0 <= k < |edges| :: Costable(edges[k], m)
    decreases |edges|
  {
    if edges == [] then t
    else RelaxF(RelaxAllF(t, marked, edges[..|edges| - 1], m), marked, edges[|edges| - 1], m)
  }

  /** `r` agrees with `t` on the score and back-pointer of `w`. */
  ghost predicate SameAt(t: Tentative, r: Tentative, w: Vertex) {
    && (w in r.scores <==> w in t.scores) && (w in t.scores ==> r.scores[w] == t.scores[w])
    && (w in r.bp <==> w in t.bp) && (w in t.bp ==> r.bp[w] == t.bp[w])
  }

  /** Every scored unmarked vertex is queued, and every queued vertex is scored. */
  ghost predicate Tidy(t: Tentative, marked: set<Vertex>) {
    t.queued <= t.scores.Keys && forall w | w in t.scores && w !in marked :: w in t.queued
  }

  /** Marked vertices keep their scores and back-pointers however many edges are relaxed. */
  lemma {:induction false} RelaxAllKeepsMarked(t: Tentative, marked: set<Vertex>, edges: seq<Edge>, m: Metric)
    requires forall k | 0 <= k < |edges| :: Costable(edges[k], m)
    ensures forall w | w in marked :: SameAt(t, RelaxAllF(t, marked, edges, m), w)
    decreases |edges|
  {
    if edges != [] {
      RelaxAllKeepsMarked(t, marked, edges[..|edges| - 1], m);
    }
  }

  /**
   * Relaxing never raises the score of an unmarked vertex, never unqueues one, and
   * keeps every scored unmarked vertex queued.
   */
  lemma {:induction false} RelaxAllLowers(t: Tentative, marked: set<Vertex>, edges: seq<Edge>, m: Metric)
    requires forall k | 0 <= k < |edges| :: Costable(edges[k], m)
    requires Tidy(t, marked)
    ensures var r := RelaxAllF(t, marked, edges, m);
      && Tidy(r, marked) && t.queued <= r.queued
      && forall w | w in t.scores && w !in marked :: w in r.scores && r.scores[w] <= t.scores[w]
    decreases |edges|
  {
    if edges != [] {
      RelaxAllLowers(t, marked, edges[..|edges| - 1], m);
    }
  }

  /**
   * After the loop of Djikstra.mark over edges leaving marked vertices, every unmarked
   * destination is scored no higher than its source's score plus the edge's cost.
   */
  lemma {:induction false} RelaxAllBound(t: Tentative, marked: set<Vertex>, edges: seq<Edge>, m: Metric)
    requires forall k | 0 <= k < |edges| :: Costable(edges[k], m) && edges[k].src in marked
    requires Tidy(t, marked)
    ensures var r := RelaxAllF(t, marked, edges, m);
      forall k | 0 <= k < |edges| && edges[k].dst !in marked ::
        edges[k].dst in r.scores && r.scores[edges[k].dst] <= ScoreIn(t.scores, edges[k].src) + Cost(edges[k], m)
    decreases |edges|
  {
    if edges != [] {
      var n := |edges| - 1;
      var init := edges[..n];
      var u := RelaxAllF(t, marked, init, m);
      var r := RelaxAllF(t, marked, edges, m);
      RelaxAllBound(t, marked, init, m);
      RelaxAllLowers(t, marked, init, m);
      RelaxAllKeepsMarked(t, marked, init, m);
      assert r == RelaxF(u, marked, edges[n], m);
      forall k | 0 <= k < |edges| && edges[k].dst !in marked
        ensures edges[k].dst in r.scores && r.scores[edges[k].dst] <= ScoreIn(t.scores, edges[k].src) + Cost(edges[k], m)
      {
        if k < n {
          assert init[k] == edges[k];
        } else {
          assert SameAt(t, u, edges[n].src);
        }
      }
    }
  }

  /**
   * Relaxing an edge into an unmarked vertex (giving it a new score and this edge as
   * back-pointer, and queueing it) keeps the queue, the marked set and every
   * back-pointer consistent.
   */
  lemma RelaxKeepsInvariant(adj: Adjacency, m: Metric, start: Vertex, marked: set<Vertex>, rank: map<Vertex, nat>,
                            queued: set<Vertex>, scores: map<Vertex, int>, bp: map<Vertex, Edge>,
                            nb: Vertex, e: Edge, newScore: int)
    requires QueuedS(adj, marked, queued, scores, bp) && MarkedS(adj, start, marked, rank, scores, bp)
    requires ConsistentS(adj, m, marked, rank, scores, bp)
    requires nb !in marked && nb in adj && marked != {}
    requires BackPointerOk(adj, m, marked, rank, scores[nb := newScore], nb, e)
    ensures QueuedS(adj, marked, queued + {nb}, scores[nb := newScore], bp[nb := e])
    ensures MarkedS(adj, start, marked, rank, scores[nb := newScore], bp[nb := e])
    ensures ConsistentS(adj, m, marked, rank, scores[nb := newScore], bp[nb := e])
  {
    var sc, bp' := scores[nb := newScore], bp[nb := e];
    forall w | w in bp' ensures BackPointerOk(adj, m, marked, rank, sc, w, bp'[w]) {
      if w != nb {
        assert BackPointerOk(adj, m, marked, rank, scores, w, bp[w]);
      }
    }
  }

  /** Marking a vertex, ranked after every marked one, keeps every back-pointer consistent. */
  lemma MarkKeepsConsistent(adj: Adjacency, m: Metric, start: Vertex, marked: set<Vertex>, rank: map<Vertex, nat>,
                            queued: set<Vertex>, scores: map<Vertex, int>, bp: map<Vertex, Edge>, v: Vertex)
    requires ConsistentS(adj, m, marked, rank, scores, bp) && MarkedS(adj, start, marked, rank, scores, bp)
    requires QueuedS(adj, marked, queued, scores, bp)
    requires v !in marked && v !in queued && v in adj && v in scores && (v == start || v in bp)
    ensures QueuedS(adj, marked + {v}, queued, scores, bp)
    ensures ConsistentS(adj, m, marked + {v}, rank[v := |marked|], scores, bp)
    ensures MarkedS(adj, start, marked + {v}, rank[v := |marked|], scores, bp)
  {
    forall w | w in bp ensures BackPointerOk(adj, m, marked + {v}, rank[v := |marked|], scores, w, bp[w]) {
      assert BackPointerOk(adj, m, marked, rank, scores, w, bp[w]);
    }
  }

  /**
   * Once every edge out of `v` leads to a marked or queued vertex, marking `v` keeps
   * every edge out of the marked set inside marked + queued.
   */
  lemma MarkKeepsFrontier(adj: Adjacency, marked: set<Vertex>, queued: set<Vertex>, queued': set<Vertex>, v: Vertex)
    requires FrontierS(adj, marked, queued + {v}) && queued <= queued' && v in adj
    requires forall k | 0 <= k < |adj[v]| :: adj[v][k].dst in marked + {v} + queued'
    ensures FrontierS(adj, marked + {v}, queued')
  {
  }

  /** Popping `v` off the queue leaves it reached, as the vertex about to be marked. */
  lemma DequeueKeepsInvariant(adj: Adjacency, marked: set<Vertex>, queued: set<Vertex>, queued': set<Vertex>,
                              scores: map<Vertex, int>, bp: map<Vertex, Edge>, v: Vertex)
    requires QueuedS(adj, marked, queued, scores, bp) && FrontierS(adj, marked, queued)
    requires v in queued && queued' == queued - {v}
    ensures QueuedS(adj, marked, queued', scores, bp) && FrontierS(adj, marked, queued' + {v})
    ensures QueuedAt(adj, marked, scores, bp, v)
  {
  }

  /** Marking an unmarked vertex of the graph leaves fewer unmarked ones: the search terminates. */
  lemma MarkShrinksUnmarked(vs: set<Vertex>, marked: set<Vertex>, v: Vertex)
    requires v in vs && v !in marked
    ensures |vs - (marked + {v})| < |vs - marked|
  {
    assert vs - marked == (vs - (marked + {v})) + {v};
  }

  /** Once nothing is queued, every walk from a marked vertex ends at a marked vertex. */
  lemma ExhaustedSearchIsClosed(adj: Adjacency, marked: set<Vertex>, start: Vertex, finish: Vertex)
    requires FrontierS(adj, marked, {}) && start in marked && finish !in marked
    ensures forall es :: !WalkIn(adj, es, start, finish)
  {
    forall es | WalkIn(adj, es, start, finish) ensures false {
      ClosedSetTrapsWalks(adj, marked, es, start, finish);
    }
  }

  /** `path` is a stored walk from `at` to `finish` costing score(finish) - score(at). */
  ghost predicate Trail(adj: Adjacency, m: Metric, scores: map<Vertex, int>, finish: Vertex, at: Vertex, path: seq<Edge>) {
    && at in scores && finish in scores
    && WalkIn(adj, path, at, finish)
    && TotalCost(path, m) == Some(scores[finish] - scores[at])
  }

  /** A stored edge into the start of a trail, whose cost bridges the two scores, extends it. */
  lemma TrailPrepend(adj: Adjacency, m: Metric, scores: map<Vertex, int>, finish: Vertex, e: Edge, path: seq<Edge>)
    requires Trail(adj, m, scores, finish, e.dst, path)
    requires e.src in adj && e in adj[e.src] && e.src in scores && Costable(e, m)
    requires scores[e.dst] == scores[e.src] + Cost(e, m)
    ensures Trail(adj, m, scores, finish, e.src, [e] + path)
  {
    WalkInPrepend(adj, e, path, finish);
    assert ([e] + path)[1..] == path;
  }

  /**
   * Prepending the back-pointer of `at` extends the trail by that edge, and leads to a
   * marked vertex ranked below `at`.
   */
  lemma FollowBackPointer(adj: Adjacency, m: Metric, start: Vertex, marked: set<Vertex>, rank: map<Vertex, nat>,
                          scores: map<Vertex, int>, bp: map<Vertex, Edge>, at: Vertex, path: seq<Edge>, finish: Vertex)
    requires ConsistentS(adj, m, marked, rank, scores, bp) && MarkedS(adj, start, marked, rank, scores, bp)
    requires at in bp && Trail(adj, m, scores, finish, at, path)
    ensures bp[at].src in marked && bp[at].src in rank
    ensures rank[bp[at].src] < if at in marked then rank[at] else |marked|
    ensures Trail(adj, m, scores, finish, bp[at].src, [bp[at]] + path)
  {
    var e := bp[at];
    assert BackPointerOk(adj, m, marked, rank, scores, at, e);
    assert RankedAt(start, |marked|, rank, scores, bp, e.src);
    if at in marked {
      assert RankedAt(start, |marked|, rank, scores, bp, at);
    }
    TrailPrepend(adj, m, scores, finish, e, path);
  }

  /** Every vertex the reconstruction may start from is scored, so the empty trail starts there. */
  lemma TrailFromFinish(adj: Adjacency, m: Metric, start: Vertex, marked: set<Vertex>, rank: map<Vertex, nat>,
                        scores: map<Vertex, int>, bp: map<Vertex, Edge>, finish: Vertex)
    requires ConsistentS(adj, m, marked, rank, scores, bp) && MarkedS(adj, start, marked, rank, scores, bp)
    requires finish in marked || finish in bp
    ensures Trail(adj, m, scores, finish, finish, [])
  {
    if finish in bp {
      assert BackPointerOk(adj, m, marked, rank, scores, finish, bp[finish]);
    } else {
      assert RankedAt(start, |marked|, rank, scores, bp, finish);
    }
  }

  /** A trail ending at a vertex without a back-pointer starts at `start`, whose score is zero. */
  lemma TrailReachesStart(adj: Adjacency, m: Metric, start: Vertex, marked: set<Vertex>, rank: map<Vertex, nat>,
                          scores: map<Vertex, int>, bp: map<Vertex, Edge>, at: Vertex, path: seq<Edge>, finish: Vertex)
    requires MarkedS(adj, start, marked, rank, scores, bp)
    requires (at in marked || at in bp) && at !in bp && Trail(adj, m, scores, finish, at, path)
    ensures WalkIn(adj, path, start, finish)
    ensures finish in scores && TotalCost(path, m) == Some(scores[finish])
  {
    assert RankedAt(start, |marked|, rank, scores, bp, at);
  }
}

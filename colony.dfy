/**
 * The ant colony of src/core/Colony.java: the pairwise path cache and pheromone
 * table built at construction, the ants' tour construction with roulette-wheel
 * choice, and the pheromone update and ranking between iterations. Random draws,
 * the float desirability and the deposit amount are inputs.
 */
module Colony {
  import opened Wrappers
  import opened Digraph
  import opened Utils
  import opened Paths
  import opened SearchState
  import opened Djikstra
  import opened ColonySpec

  /**
   * Colony.Parameters, without Q, alpha and beta: those exponents only enter the
   * float desirability and deposit amount, which are inputs here.
   */
  datatype Parameters = Parameters(metric: Metric, rho: real, temperature: real, best: nat)

  ghost predicate Reachable(adj: Adjacency, a: Vertex, b: Vertex) {
    exists es :: WalkIn(adj, es, a, b)
  }

  /** Every cached path between distinct vertices is a non-empty stored walk between them. */
  ghost predicate Connected(adj: Adjacency, vs: set<Vertex>, paths: map<Pair, seq<Edge>>) {
    forall a, b | a in vs && b in vs && a != b ::
      (a, b) in paths && paths[(a, b)] != [] && WalkIn(adj, paths[(a, b)], a, b)
  }

  /** Every cached path has a cost under `m`. */
  ghost predicate Priced(paths: map<Pair, seq<Edge>>, m: Metric) {
    forall k | k in paths :: TotalCost(paths[k], m).Some?
  }

  /** Consecutive key vertices are distinct vertices of `vs`. */
  ghost predicate Hops(kv: seq<Vertex>, vs: set<Vertex>) {
    forall i, j | 0 <= i && j == i + 1 < |kv| :: kv[i] != kv[j] && kv[i] in vs && kv[j] in vs
  }

  /** HashSet.toArray: the elements of `s`, each once, in no fixed order. */
  method Enumerate(s: set<Vertex>) returns (r: seq<Vertex>)
    ensures |r| == |s|
    ensures forall i | 0 <= i < |r| :: r[i] in s
    ensures forall v | v in s :: v in r
  {
    r := [];
    var rest := s;
    while rest != {}
      invariant rest <= s && |r| + |rest| == |s|
      invariant forall i | 0 <= i < |r| :: r[i] in s && r[i] !in rest
      invariant forall v | v in s && v !in rest :: v in r
      decreases rest
    {
      var v :| v in rest;
      r := r + [v];
      rest := rest - {v};
    }
  }

  /**
   * The roulette loop of Ant.chooseNextVertex: subtract the weights in order while
   * the target is still non-negative; the index before the stop is chosen. With
   * non-negative weights it is the first index whose running total passes the
   * target, and it never has weight zero when the target is below the total.
   */
  method RouletteIndex(ws: seq<real>, target: real) returns (k: nat)
    requires |ws| > 0 && NonNegative(ws) && target >= 0.0
    ensures k < |ws|
    ensures Sum(ws[..k]) <= target
    ensures k < |ws| - 1 ==> Sum(ws[..k + 1]) > target
    ensures target < Sum(ws) ==> ws[k] > 0.0
  {
    var t := target;
    var i := 0;
    while t >= 0.0 && i < |ws|
      invariant 0 <= i <= |ws| && t == target - Sum(ws[..i])
      invariant i > 0 ==> Sum(ws[..i - 1]) <= target
      decreases |ws| - i
    {
      SumStep(ws, i);
      t := t - ws[i];
      i := i + 1;
    }
    k := i - 1;
    SumStep(ws, k);
    assert ws[..|ws|] == ws;
  }

  /** `(int) (r * n)` for a draw 0 <= r < 1: an index below n. */
  function ScaledIndex(r: real, n: nat): (j: nat)
    requires 0.0 <= r < 1.0 && n > 0
    ensures j < n && j as real <= r * n as real < j as real + 1.0
  {
    var x := n as real;
    assert x >= 1.0;
    assert 0.0 <= r * x by {
      assert 0.0 <= r && 0.0 <= x;
    }
    assert r * x < x by {
      assert (1.0 - r) * x > 0.0;
      assert (1.0 - r) * x == x - r * x;
    }
    (r * x).Floor
  }

  /**
   * The loop invariant of Ant.wander over the key vertices `kv`, the edges taken
   * and the unvisited set: a stored walk from `start` to `current` through
   * distinct consecutive key vertices, whose destinations are exactly the
   * vertices crossed off; `done` once it is back at `start` with nothing left.
   */
  ghost predicate Touring(kv: seq<Vertex>, edges: seq<Edge>, unv: set<Vertex>, start: Vertex, current: Vertex,
                          done: bool, vs: set<Vertex>, adj: Adjacency) {
    && kv != [] && kv[0] == start && kv[|kv| - 1] == current && current in vs && Hops(kv, vs)
    && unv == vs - {start} - DstSet(edges) && WalkIn(adj, edges, start, current)
    && (current == start <==> done || |kv| == 1)
    && (|kv| == 1 ==> edges == [])
    && current !in unv
    && (!done ==> |kv| + |unv| <= |vs|)
    && (done ==> unv == {} && 2 <= |kv| <= |vs| + 1)
  }

  /** The cache a tour relies on: connected, priced, with a pheromone entry per ordered pair of distinct vertices. */
  ghost predicate CacheReady(adj: Adjacency, vs: set<Vertex>, paths: map<Pair, seq<Edge>>, ph: map<Pair, real>, m: Metric) {
    Connected(adj, vs, paths) && Priced(paths, m) && KeyedByPairs(ph, vs)
  }

  /**
   * The edges an ant following the cache through the key vertices `kv` takes: the
   * cached paths between consecutive key vertices, concatenated in order.
   */
  ghost function Legs(paths: map<Pair, seq<Edge>>, kv: seq<Vertex>): seq<Edge>
    decreases |kv|
  {
    if |kv| < 2 then []
    else
      var n := |kv|;
      Legs(paths, kv[..n - 1]) + (if (kv[n - 2], kv[n - 1]) in paths then paths[(kv[n - 2], kv[n - 1])] else [])
  }

  /** One more key vertex appends the cached path to it. */
  lemma LegsStep(paths: map<Pair, seq<Edge>>, kv: seq<Vertex>, last: Vertex, next: Vertex, edges: seq<Edge>)
    requires kv != [] && kv[|kv| - 1] == last && (last, next) in paths && edges == Legs(paths, kv)
    ensures edges + paths[(last, next)] == Legs(paths, kv + [next])
  {
    assert (kv + [next])[..|kv|] == kv;
  }

  /** Through distinct consecutive vertices of a connected cache, the legs form a walk between the ends. */
  lemma {:induction false} LegsWalk(adj: Adjacency, vs: set<Vertex>, paths: map<Pair, seq<Edge>>, kv: seq<Vertex>)
    requires Connected(adj, vs, paths) && kv != [] && Hops(kv, vs)
    ensures WalkIn(adj, Legs(paths, kv), kv[0], kv[|kv| - 1])
    decreases |kv|
  {
    var n := |kv|;
    if n >= 2 {
      var init := kv[..n - 1];
      assert Hops(init, vs) by {
        forall i, j | 0 <= i && j == i + 1 < |init| ensures init[i] != init[j] && init[i] in vs && init[j] in vs {
          assert init[i] == kv[i] && init[j] == kv[j];
        }
      }
      LegsWalk(adj, vs, paths, init);
      var p := CachedHop(adj, vs, paths, kv[n - 2], kv[n - 1]);
      WalkInConcat(adj, Legs(paths, init), p, kv[0], kv[n - 2], kv[n - 1]);
    }
  }

  /**
   * A finished tour: at least one hop, from `start` back to `start`, no more hops
   * than vertices, a stored closed walk reaching every other vertex.
   */
  ghost predicate TourShape(kv: seq<Vertex>, edges: seq<Edge>, start: Vertex, vs: set<Vertex>, adj: Adjacency) {
    && |kv| >= 2 && kv[0] == start && kv[|kv| - 1] == start
    && |kv| <= |vs| + 1 && Hops(kv, vs)
    && WalkIn(adj, edges, start, start)
    && (forall v | v in vs && v != start :: v in DstSet(edges))
  }

  /** Ant.wander begins at `start` with every other vertex unvisited. */
  lemma TouringStart(start: Vertex, vs: set<Vertex>, adj: Adjacency)
    requires start in vs
    ensures Touring([start], [], vs - {start}, start, start, false, vs, adj)
  {
    assert DstSet([]) == {};
    assert |vs - {start}| == |vs| - 1;
  }

  /** A finished pass of Ant.wander's loop is a tour. */
  lemma TouringDone(kv: seq<Vertex>, edges: seq<Edge>, unv: set<Vertex>, start: Vertex, current: Vertex,
                    vs: set<Vertex>, adj: Adjacency)
    requires Touring(kv, edges, unv, start, current, true, vs, adj)
    ensures TourShape(kv, edges, start, vs, adj)
  {
    forall v | v in vs && v != start ensures v in DstSet(edges) {
      assert v !in unv;
    }
  }

  /** With nothing left unvisited, the ant has moved away from `start`, so returning is a hop. */
  lemma ReturnIsAHop(kv: seq<Vertex>, edges: seq<Edge>, unv: set<Vertex>, start: Vertex, current: Vertex,
                     vs: set<Vertex>, adj: Adjacency)
    requires Touring(kv, edges, unv, start, current, false, vs, adj) && unv == {}
    requires start in vs && vs != {start}
    ensures current != start
  {
    var v :| v in vs && v != start;
    assert v in DstSet(edges);
    assert edges != [];
  }

  /** A subset is no larger. */
  lemma {:induction false} SubsetNoLarger(a: set<Vertex>, b: set<Vertex>)
    requires a <= b
    ensures |a| <= |b|
    decreases |b|
  {
    if a != {} {
      var x :| x in a;
      SubsetNoLarger(a - {x}, b - {x});
    }
  }

  /** Appending a distinct vertex of `vs` keeps consecutive key vertices distinct. */
  lemma HopsAppend(kv: seq<Vertex>, next: Vertex, vs: set<Vertex>)
    requires kv != [] && Hops(kv, vs) && kv[|kv| - 1] in vs && next in vs && kv[|kv| - 1] != next
    ensures Hops(kv + [next], vs)
  {
    var kv' := kv + [next];
    forall i, j | 0 <= i && j == i + 1 < |kv'| ensures kv'[i] != kv'[j] && kv'[i] in vs && kv'[j] in vs {
      if j < |kv| {
        assert kv'[i] == kv[i] && kv'[j] == kv[j];
      }
    }
  }

  /** Between distinct vertices the cache has a priced path and a pheromone entry. */
  lemma CandidatesArePriced(adj: Adjacency, vs: set<Vertex>, paths: map<Pair, seq<Edge>>, ph: map<Pair, real>, m: Metric,
                            current: Vertex, unv: set<Vertex>)
    requires CacheReady(adj, vs, paths, ph, m)
    requires current in vs && current !in unv && unv <= vs
    ensures forall v | v in unv ::
      (current, v) in paths && (current, v) in ph && paths[(current, v)] != [] && TotalCost(paths[(current, v)], m).Some?
  {
    forall v | v in unv
      ensures (current, v) in paths && (current, v) in ph && paths[(current, v)] != [] && TotalCost(paths[(current, v)], m).Some?
    {
      assert (current, v).0 in vs && (current, v).1 in vs && (current, v).0 != (current, v).1;
    }
  }

  /**
   * One hop of Ant.wander: appending `next` and following the cached path to it
   * keeps the loop invariant and shrinks the termination measure.
   */
  lemma TouringHop(kv: seq<Vertex>, edges: seq<Edge>, unv: set<Vertex>, start: Vertex, current: Vertex, next: Vertex,
                   vs: set<Vertex>, adj: Adjacency, paths: map<Pair, seq<Edge>>)
    requires Connected(adj, vs, paths) && Touring(kv, edges, unv, start, current, false, vs, adj)
    requires next in vs && current != next && (if unv == {} then next == start else next in unv)
    ensures (current, next) in paths
    ensures Touring(kv + [next], edges + paths[(current, next)], unv - DstSet(paths[(current, next)]), start, next,
                    next == start, vs, adj)
    ensures |unv - DstSet(paths[(current, next)])| + (if next == start then 0 else 1) < |unv| + 1
  {
    var p := CachedHop(adj, vs, paths, current, next);
    var unv' := unv - DstSet(p);
    DstSetConcat(edges, p);
    WalkInConcat(adj, edges, p, start, current, next);
    assert unv' == vs - {start} - DstSet(edges + p);
    TouringStep(kv, kv + [next], edges, edges + p, unv, unv', start, current, next, vs, adj);
  }

  /** The cached path between two distinct vertices of a connected cache, which reaches its target. */
  lemma CachedHop(adj: Adjacency, vs: set<Vertex>, paths: map<Pair, seq<Edge>>, a: Vertex, b: Vertex)
    returns (p: seq<Edge>)
    requires Connected(adj, vs, paths) && a in vs && b in vs && a != b
    ensures (a, b) in paths && p == paths[(a, b)] && WalkIn(adj, p, a, b) && b in DstSet(p)
  {
    p := paths[(a, b)];
    assert p[|p| - 1].dst == b;
  }

  /** The invariant of Ant.wander carried over one hop, stated on the state before and after. */
  lemma TouringStep(kv: seq<Vertex>, kv': seq<Vertex>, edges: seq<Edge>, edges': seq<Edge>, unv: set<Vertex>,
                    unv': set<Vertex>, start: Vertex, current: Vertex, next: Vertex, vs: set<Vertex>, adj: Adjacency)
    requires Touring(kv, edges, unv, start, current, false, vs, adj)
    requires next in vs && current != next && (if unv == {} then next == start else next in unv)
    requires kv' == kv + [next] && unv' == vs - {start} - DstSet(edges') && WalkIn(adj, edges', start, next)
    requires unv' <= unv - {next} && (|kv'| == 1 ==> edges' == [])
    ensures Touring(kv', edges', unv', start, next, next == start, vs, adj)
    ensures |unv'| + (if next == start then 0 else 1) < |unv| + 1
  {
    HopsAppend(kv, next, vs);
    if next != start {
      SubsetNoLarger(unv', unv - {next});
    }
  }

  /** The hop from `a` to `b` has a cached, non-empty, costable path and a pheromone level. */
  predicate Weighable(a: Vertex, b: Vertex, paths: map<Pair, seq<Edge>>, ph: map<Pair, real>, m: Metric) {
    (a, b) in paths && (a, b) in ph && paths[(a, b)] != [] && TotalCost(paths[(a, b)], m).Some?
  }

  /**
   * What Ant.desirability computes for the hop from `a` to `b`: `weigh` applied to the
   * pheromone, the number of unvisited vertices along the cached path and its cost
   * (a hop that is not weighable never reaches Ant.desirability; it appeals 0 here).
   */
  function Appeal(a: Vertex, b: Vertex, unv: set<Vertex>, paths: map<Pair, seq<Edge>>, ph: map<Pair, real>, m: Metric,
                  weigh: (real, nat, int) -> real): real
  {
    if Weighable(a, b, paths, ph, m) then
      weigh(ph[(a, b)], CountIn(VerticesOf(paths[(a, b)]), unv), TotalCost(paths[(a, b)], m).value)
    else 0.0
  }

  /** The weight of every candidate in order: its appeal plus the temperature. */
  function Appeals(a: Vertex, cands: seq<Vertex>, unv: set<Vertex>, paths: map<Pair, seq<Edge>>, ph: map<Pair, real>,
                   m: Metric, weigh: (real, nat, int) -> real, temperature: real): (ws: seq<real>)
    ensures |ws| == |cands|
    decreases |cands|
  {
    if cands == [] then []
    else
      var n := |cands| - 1;
      Appeals(a, cands[..n], unv, paths, ph, m, weigh, temperature) + [Appeal(a, cands[n], unv, paths, ph, m, weigh) + temperature]
  }

  /** One more candidate appends its appeal plus the temperature. */
  lemma AppealsStep(a: Vertex, cands: seq<Vertex>, k: nat, unv: set<Vertex>, paths: map<Pair, seq<Edge>>,
                    ph: map<Pair, real>, m: Metric, weigh: (real, nat, int) -> real, temperature: real, ws: seq<real>, w: real)
    requires k < |cands| && ws == Appeals(a, cands[..k], unv, paths, ph, m, weigh, temperature)
    requires w == Appeal(a, cands[k], unv, paths, ph, m, weigh) + temperature
    ensures ws + [w] == Appeals(a, cands[..k + 1], unv, paths, ph, m, weigh, temperature)
  {
    assert cands[..k + 1][..k] == cands[..k];
  }

  /** Every candidate weighs its appeal plus the temperature. */
  lemma AppealsAll(a: Vertex, cands: seq<Vertex>, unv: set<Vertex>, paths: map<Pair, seq<Edge>>,
                   ph: map<Pair, real>, m: Metric, weigh: (real, nat, int) -> real, temperature: real, ws: seq<real>)
    requires ws == Appeals(a, cands, unv, paths, ph, m, weigh, temperature)
    ensures forall k | 0 <= k < |cands| :: ws[k] == Appeal(a, cands[k], unv, paths, ph, m, weigh) + temperature
  {
    forall k | 0 <= k < |cands| ensures ws[k] == Appeal(a, cands[k], unv, paths, ph, m, weigh) + temperature {
      AppealsAt(a, cands, k, unv, paths, ph, m, weigh, temperature);
    }
  }

  /** Candidate k weighs its appeal plus the temperature. */
  lemma {:induction false} AppealsAt(a: Vertex, cands: seq<Vertex>, k: nat, unv: set<Vertex>, paths: map<Pair, seq<Edge>>,
                                     ph: map<Pair, real>, m: Metric, weigh: (real, nat, int) -> real, temperature: real)
    requires k < |cands|
    ensures Appeals(a, cands, unv, paths, ph, m, weigh, temperature)[k] == Appeal(a, cands[k], unv, paths, ph, m, weigh) + temperature
    decreases |cands|
  {
    var n := |cands| - 1;
    if k < n {
      AppealsAt(a, cands[..n], k, unv, paths, ph, m, weigh, temperature);
      assert cands[..n][k] == cands[k];
    }
  }

  /** An ant: its tour-in-progress, the vertices it has not reached, and its chosen waypoints. */
  class Ant {
    var pathEdges: seq<Edge>
    var unvisited: set<Vertex>
    var keyVertices: seq<Vertex>
    var path: Path?

    constructor ()
      ensures pathEdges == [] && unvisited == {} && keyVertices == [] && path == null
    {
      pathEdges := [];
      unvisited := {};
      keyVertices := [];
      path := null;
    }

    /** Ant.numNewVertices: how many vertices along `p`, repeats included, are unvisited. */
    method NumNewVertices(p: seq<Edge>) returns (total: nat)
      requires p != []
      ensures total == CountIn(VerticesOf(p), unvisited)
      ensures total <= |p| + 1
    {
      var vs := VerticesOf(p);
      total := 0;
      for i := 0 to |vs|
        invariant total == CountIn(vs[..i], unvisited)
      {
        assert vs[..i + 1][..i] == vs[..i];
        if vs[i] in unvisited {
          total := total + 1;
        }
      }
      assert vs[..|vs|] == vs;
      CountInBounds(vs, unvisited);
    }

    /**
     * Ant.desirability from `a` to `b`: the pheromone on (a, b), the number of new
     * vertices along the cached path and its length, combined by `weigh` (the
     * float powers of the source).
     */
    method Desirability(a: Vertex, b: Vertex, paths: map<Pair, seq<Edge>>, ph: map<Pair, real>, m: Metric,
                        weigh: (real, nat, int) -> real) returns (d: real)
      requires (a, b) in paths && (a, b) in ph && paths[(a, b)] != [] && TotalCost(paths[(a, b)], m).Some?
      requires forall t, n, l :: weigh(t, n, l) >= 0.0
      ensures d >= 0.0
      ensures d == Appeal(a, b, unvisited, paths, ph, m, weigh)
    {
      var tau := ph[(a, b)];
      var p := paths[(a, b)];
      var newVertices := NumNewVertices(p);
      var len := PathCost(p, m);
      d := weigh(tau, newVertices, len.value);
    }

    /**
     * The first loop of Ant.chooseNextVertex: each candidate's desirability plus the
     * temperature, in candidate order, and their running total.
     */
    method Weigh(current: Vertex, candidates: seq<Vertex>, paths: map<Pair, seq<Edge>>, ph: map<Pair, real>, m: Metric,
                 temperature: real, weigh: (real, nat, int) -> real) returns (weights: seq<real>, total: real)
      requires temperature >= 0.0 && forall t, n, l :: weigh(t, n, l) >= 0.0
      requires forall i | 0 <= i < |candidates| :: var v := candidates[i];
        (current, v) in paths && (current, v) in ph && paths[(current, v)] != [] && TotalCost(paths[(current, v)], m).Some?
      ensures |weights| == |candidates| && NonNegative(weights) && total == Sum(weights) && total >= 0.0
      ensures forall k | 0 <= k < |candidates| ::
        weights[k] == Appeal(current, candidates[k], unvisited, paths, ph, m, weigh) + temperature
    {
      weights := [];
      total := 0.0;
      ghost var unv := unvisited;
      for k := 0 to |candidates|
        invariant |weights| == k && total == Sum(weights) && NonNegative(weights) && total >= 0.0
        invariant weights == Appeals(current, candidates[..k], unv, paths, ph, m, weigh, temperature)
      {
        var des := Desirability(current, candidates[k], paths, ph, m, weigh);
        des := des + temperature;
        AppealsStep(current, candidates, k, unv, paths, ph, m, weigh, temperature, weights, des);
        SumSnoc(weights, des);
        total := total + des;
        weights := weights + [des];
      }
      assert candidates[..|candidates|] == candidates;
      AppealsAll(current, candidates, unv, paths, ph, m, weigh, temperature, weights);
    }

    /**
     * Ant.chooseNextVertex: weigh every unvisited vertex by its desirability plus
     * the temperature, scale the total by the draw, and spin the roulette.
     */
    method ChooseNextVertex(current: Vertex, paths: map<Pair, seq<Edge>>, ph: map<Pair, real>, m: Metric,
                            temperature: real, weigh: (real, nat, int) -> real, draw: real) returns (next: Vertex)
      requires unvisited != {} && temperature >= 0.0 && 0.0 <= draw < 1.0
      requires forall t, n, l :: weigh(t, n, l) >= 0.0
      requires forall v | v in unvisited ::
        (current, v) in paths && (current, v) in ph && paths[(current, v)] != [] && TotalCost(paths[(current, v)], m).Some?
      ensures next in unvisited
    {
      var candidates := Enumerate(unvisited);
      var weights, target := Weigh(current, candidates, paths, ph, m, temperature, weigh);
      target := Target(target, draw);
      var i := RouletteIndex(weights, target);
      next := candidates[i];
    }

    /** Ant.wander's inner loop: take every edge of `p`, crossing its destination off. */
    method Follow(p: seq<Edge>)
      modifies this
      ensures pathEdges == old(pathEdges) + p && unvisited == old(unvisited) - DstSet(p)
      ensures keyVertices == old(keyVertices) && path == old(path)
    {
      for i := 0 to |p|
        invariant pathEdges == old(pathEdges) + p[..i] && unvisited == old(unvisited) - DstSet(p[..i])
        invariant keyVertices == old(keyVertices) && path == old(path)
      {
        DstSetConcat(p[..i], [p[i]]);
        assert p[..i + 1] == p[..i] + [p[i]];
        unvisited := unvisited - {p[i].dst};
        pathEdges := pathEdges + [p[i]];
      }
      assert p[..|p|] == p;
    }

    /** The edges taken are the cached paths between consecutive key vertices, in order. */
    ghost predicate Followed(paths: map<Pair, seq<Edge>>)
      reads this
    {
      pathEdges == Legs(paths, keyVertices)
    }

    /** The state of a finished tour over the vertex set `vs`, from its first key vertex. */
    ghost predicate Toured(adj: Adjacency, vs: set<Vertex>)
      reads this
    {
      keyVertices != [] && TourShape(keyVertices, pathEdges, keyVertices[0], vs, adj)
      && path != null && path.edges == pathEdges
    }

    /**
     * Ant.wander: from `start`, keep choosing an unvisited vertex and following the
     * cached path to it, until nothing is unvisited; then return to `start`. Each
     * choice reaches its vertex, so the tour is a closed walk through every vertex.
     */
    method Wander(start: Vertex, vs: set<Vertex>, adj: Adjacency, paths: map<Pair, seq<Edge>>, ph: map<Pair, real>,
                  m: Metric, temperature: real, weigh: (real, nat, int) -> real, draws: nat -> real)
      requires start in vs && vs != {start}
      requires CacheReady(adj, vs, paths, ph, m)
      requires temperature >= 0.0 && forall t, n, l :: weigh(t, n, l) >= 0.0
      requires forall k :: 0.0 <= draws(k) < 1.0
      modifies this
      ensures Toured(adj, vs) && keyVertices[0] == start && fresh(path)
      ensures Followed(paths)
    {
      pathEdges := [];
      unvisited := vs - {start};
      keyVertices := [start];
      TouringStart(start, vs, adj);
      HopAll(start, vs, adj, paths, ph, m, temperature, weigh, draws);
      TouringDone(keyVertices, pathEdges, unvisited, start, start, vs, adj);
      path := new Path(pathEdges);
    }

    /**
     * The do-while loop of Ant.wander: hop until back at `start`, drawing a fresh
     * number for each choice among unvisited vertices.
     */
    method HopAll(start: Vertex, vs: set<Vertex>, adj: Adjacency, paths: map<Pair, seq<Edge>>, ph: map<Pair, real>,
                  m: Metric, temperature: real, weigh: (real, nat, int) -> real, draws: nat -> real)
      requires start in vs && vs != {start} && CacheReady(adj, vs, paths, ph, m)
      requires Touring(keyVertices, pathEdges, unvisited, start, start, false, vs, adj) && Followed(paths)
      requires temperature >= 0.0 && forall t, n, l :: weigh(t, n, l) >= 0.0
      requires forall k :: 0.0 <= draws(k) < 1.0
      modifies this
      ensures Touring(keyVertices, pathEdges, unvisited, start, start, true, vs, adj) && Followed(paths)
      ensures path == old(path)
    {
      var current := start;
      var done := false;
      var step := 0;
      while !done
        invariant Touring(keyVertices, pathEdges, unvisited, start, current, done, vs, adj) && Followed(paths)
        invariant done ==> current == start
        invariant path == old(path)
        decreases |unvisited| + (if done then 0 else 1)
      {
        var draw := draws(step);
        if unvisited != {} {
          step := step + 1;
        }
        current := Hop(start, current, vs, adj, paths, ph, m, temperature, weigh, draw);
        done := current == start;
      }
    }

    /**
     * One pass of Ant.wander's do-while loop: choose the next key vertex (the start
     * once nothing is unvisited) and follow the cached path to it.
     */
    method Hop(start: Vertex, current: Vertex, vs: set<Vertex>, adj: Adjacency, paths: map<Pair, seq<Edge>>,
               ph: map<Pair, real>, m: Metric, temperature: real, weigh: (real, nat, int) -> real, draw: real)
      returns (next: Vertex)
      requires start in vs && vs != {start} && CacheReady(adj, vs, paths, ph, m)
      requires Touring(keyVertices, pathEdges, unvisited, start, current, false, vs, adj) && Followed(paths)
      requires temperature >= 0.0 && forall t, n, l :: weigh(t, n, l) >= 0.0
      requires 0.0 <= draw < 1.0
      modifies this
      ensures Touring(keyVertices, pathEdges, unvisited, start, next, next == start, vs, adj) && Followed(paths)
      ensures |unvisited| + (if next == start then 0 else 1) < |old(unvisited)| + 1
      ensures (current, next) in paths && keyVertices == old(keyVertices) + [next] && path == old(path)
      ensures pathEdges == old(pathEdges) + paths[(current, next)]
      ensures unvisited == old(unvisited) - DstSet(paths[(current, next)])
    {
      ghost var kv, edges, unv := keyVertices, pathEdges, unvisited;
      if unvisited == {} {
        ReturnIsAHop(kv, edges, unv, start, current, vs, adj);
        next := start;
      } else {
        CandidatesArePriced(adj, vs, paths, ph, m, current, unvisited);
        next := ChooseNextVertex(current, paths, ph, m, temperature, weigh, draw);
      }
      TouringHop(kv, edges, unv, start, current, next, vs, adj, paths);
      LegsStep(paths, kv, current, next, edges);
      Step(current, next, paths);
      assert keyVertices == kv + [next] && pathEdges == edges + paths[(current, next)];
      assert unvisited == unv - DstSet(paths[(current, next)]);
    }

    /** One pass of Ant.wander's do-while loop: record `next` and follow the cached path to it. */
    method Step(current: Vertex, next: Vertex, paths: map<Pair, seq<Edge>>)
      requires (current, next) in paths
      modifies this
      ensures keyVertices == old(keyVertices) + [next] && path == old(path)
      ensures pathEdges == old(pathEdges) + paths[(current, next)]
      ensures unvisited == old(unvisited) - DstSet(paths[(current, next)])
    {
      keyVertices := keyVertices + [next];
      Follow(paths[(current, next)]);
    }
  }

  /** Every vertex reaches every other one. */
  ghost predicate StronglyConnected(adj: Adjacency) {
    forall a, b | a in adj && b in adj && a != b :: Reachable(adj, a, b)
  }

  /**
   * The cached path for the pair `p`: empty exactly when `p.1` cannot be reached
   * from `p.0`, and otherwise a stored walk between them with a cost under `m`.
   */
  ghost predicate CachedPair(adj: Adjacency, m: Metric, sp: map<Pair, seq<Edge>>, p: Pair) {
    && p in sp
    && (sp[p] != [] <==> Reachable(adj, p.0, p.1))
    && (sp[p] != [] ==> WalkIn(adj, sp[p], p.0, p.1) && TotalCost(sp[p], m).Some?)
  }

  /** The path cache: one entry per ordered pair of distinct vertices, each as CachedPair says. */
  ghost predicate Cache(adj: Adjacency, m: Metric, sp: map<Pair, seq<Edge>>) {
    KeyedByPairs(sp, adj.Keys) && forall p | p in sp :: CachedPair(adj, m, sp, p)
  }

  /** In a strongly connected graph the cache is what a tour needs. */
  lemma CacheConnected(adj: Adjacency, m: Metric, sp: map<Pair, seq<Edge>>, ph: map<Pair, real>)
    requires Cache(adj, m, sp) && StronglyConnected(adj) && KeyedByPairs(ph, adj.Keys)
    ensures CacheReady(adj, adj.Keys, sp, ph, m)
  {
    forall a, b | a in adj.Keys && b in adj.Keys && a != b
      ensures (a, b) in sp && sp[(a, b)] != [] && WalkIn(adj, sp[(a, b)], a, b)
    {
      assert (a, b).0 in adj.Keys && (a, b).1 in adj.Keys && (a, b).0 != (a, b).1;
      assert CachedPair(adj, m, sp, (a, b));
    }
    forall k | k in sp ensures TotalCost(sp[k], m).Some? {
      assert CachedPair(adj, m, sp, k);
    }
  }

  /** The constructor's progress: every entry so far is a sound cache entry with pheromone 1. */
  ghost predicate Filling(adj: Adjacency, m: Metric, sp: map<Pair, seq<Edge>>, ph: map<Pair, real>) {
    && sp.Keys == ph.Keys
    && forall p | p in sp :: p.0 in adj && p.1 in adj && p.0 != p.1 && CachedPair(adj, m, sp, p) && ph[p] == 1.0
  }

  /** Every pair from `rows` to `cols` of distinct vertices has an entry. */
  ghost predicate Covers(sp: map<Pair, seq<Edge>>, rows: set<Vertex>, cols: set<Vertex>) {
    forall a, b | a in rows && b in cols && a != b :: (a, b) in sp
  }

  /** Storing the result of a shortest-path search keeps the cache sound. */
  lemma FillingAdd(adj: Adjacency, m: Metric, sp: map<Pair, seq<Edge>>, ph: map<Pair, real>, a: Vertex, b: Vertex,
                   es: seq<Edge>)
    requires Filling(adj, m, sp, ph) && a in adj && b in adj && a != b
    requires es != [] ==> WalkIn(adj, es, a, b) && TotalCost(es, m).Some?
    requires es != [] <==> a != b && exists w :: WalkIn(adj, w, a, b)
    ensures Filling(adj, m, sp[(a, b) := es], ph[(a, b) := 1.0])
  {
    var sp', ph' := sp[(a, b) := es], ph[(a, b) := 1.0];
    forall p | p in sp'
      ensures p.0 in adj && p.1 in adj && p.0 != p.1 && CachedPair(adj, m, sp', p) && ph'[p] == 1.0
    {
      if p != (a, b) {
        assert CachedPair(adj, m, sp, p);
      }
    }
  }

  /** A fully covered sound cache is the cache of a freshly built colony. */
  lemma FillingDone(adj: Adjacency, m: Metric, sp: map<Pair, seq<Edge>>, ph: map<Pair, real>)
    requires Filling(adj, m, sp, ph) && Covers(sp, adj.Keys, adj.Keys)
    ensures Cache(adj, m, sp) && KeyedByPairs(ph, adj.Keys) && Symmetric(ph) && AtLeastFloor(ph)
    ensures forall p | p in ph :: ph[p] == 1.0
  {
    forall p: Pair ensures p in sp <==> p.0 in adj.Keys && p.1 in adj.Keys && p.0 != p.1 {
      if p.0 in adj.Keys && p.1 in adj.Keys && p.0 != p.1 {
        assert (p.0, p.1) in sp;
      }
    }
    forall a, b | (a, b) in ph ensures (b, a) in ph && ph[(b, a)] == ph[(a, b)] {
      assert (a, b) in sp;
      assert (b, a) in sp;
    }
  }

  /**
   * The inner loop of the Colony constructor: for every other vertex `vb`, store
   * the shortest path from `va` and a pheromone of 1.
   */
  method FillRow(dj: Djikstra, va: Vertex, m: Metric, sp: map<Pair, seq<Edge>>, ph: map<Pair, real>)
    returns (sp': map<Pair, seq<Edge>>, ph': map<Pair, real>)
    requires dj.dg.Valid() && Costed(dj.dg.neighbors, m) && va in dj.dg.neighbors
    requires Filling(dj.dg.neighbors, m, sp, ph)
    modifies dj, dj.heap
    ensures Filling(dj.dg.neighbors, m, sp', ph') && sp.Keys <= sp'.Keys
    ensures Covers(sp', {va}, dj.dg.neighbors.Keys)
  {
    sp', ph' := sp, ph;
    var rest := dj.dg.VertexSet();
    while rest != {}
      invariant rest <= dj.dg.neighbors.Keys
      invariant Filling(dj.dg.neighbors, m, sp', ph') && sp.Keys <= sp'.Keys
      invariant Covers(sp', {va}, dj.dg.neighbors.Keys - rest)
      decreases rest
    {
      var vb :| vb in rest;
      if va != vb {
        var p := dj.ShortestPath(va, vb, m);
        FillingAdd(dj.dg.neighbors, m, sp', ph', va, vb, p.edges);
        sp' := sp'[(va, vb) := p.edges];
        ph' := ph'[(va, vb) := 1.0];
      }
      rest := rest - {vb};
    }
  }

  /** Rows covered before a new row stay covered, so the covered rows grow by one. */
  lemma CoversJoin(sp: map<Pair, seq<Edge>>, sp': map<Pair, seq<Edge>>, rows: set<Vertex>, va: Vertex, cols: set<Vertex>)
    requires Covers(sp, rows, cols) && sp.Keys <= sp'.Keys && Covers(sp', {va}, cols)
    ensures Covers(sp', rows + {va}, cols)
  {
    forall a, b | a in rows + {va} && b in cols && a != b ensures (a, b) in sp' {
      if a != va {
        assert (a, b) in sp;
      }
    }
  }

  /** Consecutive key vertices of a tour are keys of the pheromone table both ways round. */
  lemma HopsPairsIn(ph: map<Pair, real>, kv: seq<Vertex>, vs: set<Vertex>)
    requires Hops(kv, vs) && KeyedByPairs(ph, vs)
    ensures PairsIn(ph, kv)
  {
    forall i | 0 <= i < |kv| - 1 ensures kv[i] != kv[i + 1] && (kv[i], kv[i + 1]) in ph && (kv[i + 1], kv[i]) in ph {
      assert kv[i] != kv[i + 1] && kv[i] in vs && kv[i + 1] in vs;
      assert (kv[i], kv[i + 1]).0 in vs && (kv[i + 1], kv[i]).0 in vs;
    }
  }

  /** A stored walk in a graph whose every edge has a cost has a cost. */
  lemma WalkPriced(adj: Adjacency, es: seq<Edge>, a: Vertex, b: Vertex, m: Metric)
    requires Costed(adj, m) && WalkIn(adj, es, a, b)
    ensures TotalCost(es, m).Some?
  {
    forall i | 0 <= i < |es| ensures Costable(es[i], m) {
      var j :| 0 <= j < |adj[es[i].src]| && adj[es[i].src][j] == es[i];
    }
    TotalCostDefined(es, m);
  }

  /** The length of an ant's tour under `m`. */
  ghost function LengthOf(a: Ant, m: Metric): int
    reads a
    requires a.path != null && TotalCost(a.path.edges, m).Some?
  {
    TotalCost(a.path.edges, m).value
  }

  ghost predicate PricedAnts(ants: seq<Ant>, m: Metric)
    reads ants
  {
    forall a | a in ants :: a.path != null && TotalCost(a.path.edges, m).Some?
  }

  /** `tours` lists each ant's key vertices and tour length, in the ants' order. */
  ghost predicate TourList(tours: seq<Tour>, ants: seq<Ant>, m: Metric)
    reads ants
  {
    && |tours| == |ants|
    && forall k | 0 <= k < |ants| ::
      && ants[k].path != null && TotalCost(ants[k].path.edges, m).Some?
      && tours[k] == Tour(ants[k].keyVertices, TotalCost(ants[k].path.edges, m).value)
  }

  ghost predicate Distinct(ants: seq<Ant>) {
    forall i, j | 0 <= i < j < |ants| :: ants[i] != ants[j]
  }

  /** In a list without repeats each element is counted once. */
  lemma {:induction false} DistinctCountsOnce(s: seq<Ant>, x: Ant)
    requires Distinct(s)
    ensures multiset(s)[x] <= 1
    decreases |s|
  {
    if s != [] {
      var init := s[..|s| - 1];
      assert s == init + [s[|s| - 1]];
      assert Distinct(init) by {
        forall i, j | 0 <= i < j < |init| ensures init[i] != init[j] {
          assert init[i] == s[i] && init[j] == s[j];
        }
      }
      DistinctCountsOnce(init, x);
      assert s[|s| - 1] !in init by {
        forall k | 0 <= k < |init| ensures init[k] != s[|s| - 1] {
          assert init[k] == s[k];
        }
      }
    }
  }

  /** A repeat shows up in the count. */
  lemma RepeatCountsTwice(s: seq<Ant>, i: nat, j: nat)
    requires i < j < |s| && s[i] == s[j]
    ensures multiset(s)[s[i]] >= 2
  {
    assert s == s[..j] + [s[j]] + s[j + 1..];
    assert s[..j][i] == s[i];
  }

  /** Reordering keeps a list free of repeats. */
  lemma PermutationKeepsDistinct(s: seq<Ant>, t: seq<Ant>)
    requires Distinct(s) && multiset(s) == multiset(t)
    ensures Distinct(t)
  {
    forall i, j | 0 <= i < j < |t| ensures t[i] != t[j] {
      if t[i] == t[j] {
        RepeatCountsTwice(t, i, j);
        DistinctCountsOnce(s, t[i]);
        assert false;
      }
    }
  }

  /** Evaporation applied to the entries whose first vertex is in `rows`; the others are kept. */
  function EvaporateRows(ph: map<Pair, real>, rho: real, rows: set<Vertex>): (r: map<Pair, real>)
    ensures r.Keys == ph.Keys
  {
    map p | p in ph :: if p.0 in rows then Max(Floor, rho * ph[p]) else ph[p]
  }

  /** Evaporating one more row, after the rows already done, is evaporating both. */
  lemma EvaporateRowsUnion(ph: map<Pair, real>, rho: real, rows: set<Vertex>, a: Vertex)
    requires a !in rows
    ensures EvaporateRows(EvaporateRows(ph, rho, rows), rho, {a}) == EvaporateRows(ph, rho, rows + {a})
  {
    var x, y := EvaporateRows(EvaporateRows(ph, rho, rows), rho, {a}), EvaporateRows(ph, rho, rows + {a});
    var mid := EvaporateRows(ph, rho, rows);
    forall p | p in ph ensures x[p] == y[p] {
      if p.0 == a {
        assert p.0 in {a} && p.0 !in rows && mid[p] == ph[p];
      } else {
        assert p.0 !in {a} && x[p] == mid[p];
      }
    }
  }

  /**
   * The step of the evaporation loop: with the rows of `vs` outside `rest` done,
   * evaporating row `a` of `rest` leaves only `rest - {a}` to do.
   */
  lemma EvaporateRowsStep(ph: map<Pair, real>, rho: real, vs: set<Vertex>, rest: set<Vertex>, a: Vertex,
                          mid: map<Pair, real>, x: map<Pair, real>)
    requires rest <= vs && a in rest
    requires mid == EvaporateRows(ph, rho, vs - rest) && x == EvaporateRows(mid, rho, {a})
    ensures x == EvaporateRows(ph, rho, vs - (rest - {a}))
  {
    EvaporateRowsUnion(ph, rho, vs - rest, a);
    assert vs - (rest - {a}) == vs - rest + {a};
  }

  /** Evaporating every row is the evaporation of the whole table. */
  lemma EvaporateRowsAll(ph: map<Pair, real>, rho: real, vs: set<Vertex>)
    requires forall p | p in ph :: p.0 in vs
    ensures EvaporateRows(ph, rho, vs) == Evaporate(ph, rho)
  {
  }

  /** Finished tours in a graph whose every edge has a cost all have a length. */
  lemma TouredAntsPriced(ants: seq<Ant>, adj: Adjacency, m: Metric)
    requires Costed(adj, m) && forall a | a in ants :: a.Toured(adj, adj.Keys)
    ensures PricedAnts(ants, m)
  {
    forall a | a in ants ensures a.path != null && TotalCost(a.path.edges, m).Some? {
      WalkPriced(adj, a.pathEdges, a.keyVertices[0], a.keyVertices[0], m);
    }
  }

  /** The hops of finished tours are all keys of a pheromone table over the same vertices. */
  lemma TouredAntsPairsIn(ants: seq<Ant>, tours: seq<Tour>, adj: Adjacency, m: Metric, ph: map<Pair, real>)
    requires TourList(tours, ants, m) && KeyedByPairs(ph, adj.Keys) && forall a | a in ants :: a.Toured(adj, adj.Keys)
    ensures AllPairsIn(ph, tours)
  {
    forall k | 0 <= k < |tours| ensures PairsIn(ph, tours[k].keyVertices) {
      assert ants[k] in ants;
      HopsPairsIn(ph, ants[k].keyVertices, adj.Keys);
    }
  }

  /** The minimum of the tour lengths is a lower bound attained by some ant. */
  lemma MinOfTours(ants: seq<Ant>, tours: seq<Tour>, m: Metric)
    requires TourList(tours, ants, m) && ants != []
    ensures forall a | a in ants :: a.path != null && TotalCost(a.path.edges, m).Some? && Min(Lengths(tours)) <= LengthOf(a, m)
    ensures exists a | a in ants :: a.path != null && TotalCost(a.path.edges, m).Some? && Min(Lengths(tours)) == LengthOf(a, m)
  {
    var lens := Lengths(tours);
    MinIsLeast(lens);
    forall a | a in ants ensures Min(lens) <= LengthOf(a, m) {
      var k :| 0 <= k < |ants| && ants[k] == a;
      assert lens[k] == LengthOf(a, m);
    }
    var k :| 0 <= k < |lens| && Min(lens) == lens[k];
    assert ants[k] in ants;
  }

  /** One pass of the deposit loop: the first hop of `kv[i..]` is added both ways, the rest follows. */
  lemma DepositStep(ph: map<Pair, real>, kv: seq<Vertex>, i: nat, amt: real)
    requires i + 1 < |kv| && PairsIn(ph, kv[i..])
    ensures (kv[i], kv[i + 1]) in ph && (kv[i + 1], kv[i]) in ph
    ensures PairsIn(AddTo(AddTo(ph, (kv[i], kv[i + 1]), amt), (kv[i + 1], kv[i]), amt), kv[i + 1..])
    ensures Deposit(ph, kv[i..], amt) ==
      Deposit(AddTo(AddTo(ph, (kv[i], kv[i + 1]), amt), (kv[i + 1], kv[i]), amt), kv[i + 1..], amt)
  {
    var t := kv[i..];
    assert t[0] == kv[i] && t[1] == kv[i + 1] && t[1..] == kv[i + 1..];
    PairsInTail(ph, AddTo(AddTo(ph, (kv[i], kv[i + 1]), amt), (kv[i + 1], kv[i]), amt), t);
  }

  /** One pass of the loop over the ants: the first tour of `tours[k..]` deposits, the rest follow. */
  lemma DepositAllStep(ph: map<Pair, real>, tours: seq<Tour>, k: nat, best: int, amount: (int, int) -> real)
    requires k < |tours| && AllPairsIn(ph, tours[k..])
    ensures PairsIn(ph, tours[k].keyVertices)
    ensures AllPairsIn(Deposit(ph, tours[k].keyVertices, amount(best, tours[k].length)), tours[k + 1..])
    ensures DepositAll(ph, tours[k..], best, amount) ==
      DepositAll(Deposit(ph, tours[k].keyVertices, amount(best, tours[k].length)), tours[k + 1..], best, amount)
  {
    var t := tours[k..];
    assert t[0] == tours[k] && t[1..] == tours[k + 1..];
    AllPairsInKeys(ph, Deposit(ph, tours[k].keyVertices, amount(best, tours[k].length)), t[1..]);
  }

  /** Lengths ascend along `ants`. */
  ghost predicate AscendingBy(ants: seq<Ant>, m: Metric)
    reads ants
  {
    PricedAnts(ants, m) && forall i, j | 0 <= i <= j < |ants| :: LengthOf(ants[i], m) <= LengthOf(ants[j], m)
  }

  /**
   * Putting `a` after every ant no longer than it and before the first longer one
   * keeps the lengths ascending.
   */
  lemma InsertKeepsAscending(s: seq<Ant>, j: nat, a: Ant, m: Metric)
    requires AscendingBy(s, m) && j <= |s| && a.path != null && TotalCost(a.path.edges, m).Some?
    requires forall k | 0 <= k < j :: LengthOf(s[k], m) <= LengthOf(a, m)
    requires j < |s| ==> LengthOf(a, m) < LengthOf(s[j], m)
    ensures AscendingBy(s[..j] + [a] + s[j..], m)
  {
    var r := s[..j] + [a] + s[j..];
    assert PricedAnts(r, m) by {
      assert forall x | x in r :: x in s || x == a;
    }
    forall i, k | 0 <= i <= k < |r| ensures LengthOf(r[i], m) <= LengthOf(r[k], m) {
      if k < j {
        assert r[i] == s[i] && r[k] == s[k];
      } else if k == j {
        assert r[k] == a;
        if i < j {
          assert r[i] == s[i];
        }
      } else if i < j {
        assert r[i] == s[i] && r[k] == s[k - 1];
        assert LengthOf(s[i], m) <= LengthOf(a, m) < LengthOf(s[j], m) <= LengthOf(s[k - 1], m);
      } else if i == j {
        assert r[i] == a && r[k] == s[k - 1];
        assert LengthOf(a, m) < LengthOf(s[j], m) <= LengthOf(s[k - 1], m);
      } else {
        assert r[i] == s[i - 1] && r[k] == s[k - 1];
      }
    }
  }

  /** The index of the first ant the Colony's wander sends out: all of them in iteration 1, else all but the best. */
  function FirstWanderer(iteration: int, p: Parameters): nat {
    if iteration == 1 then 0 else p.best
  }

  /**
   * The loop of Colony.wander: each ant from `b` on sets out from the vertex its
   * start draw picks among `vertices` and completes a tour along the cache.
   */
  method WanderAnts(ants: seq<Ant>, b: nat, vertices: seq<Vertex>, adj: Adjacency, sp: map<Pair, seq<Edge>>,
                    ph: map<Pair, real>, m: Metric, temperature: real, weigh: (real, nat, int) -> real,
                    starts: nat -> real, draws: nat -> nat -> real)
    requires Distinct(ants) && CacheReady(adj, adj.Keys, sp, ph, m) && |adj.Keys| >= 2
    requires |vertices| == |adj.Keys| && forall i | 0 <= i < |vertices| :: vertices[i] in adj
    requires temperature >= 0.0 && forall t, n, l :: weigh(t, n, l) >= 0.0
    requires forall i :: 0.0 <= starts(i) < 1.0
    requires forall i, k :: 0.0 <= draws(i)(k) < 1.0
    modifies set i | b <= i < |ants| :: ants[i]
    ensures forall i | b <= i < |ants| :: ants[i].Toured(adj, adj.Keys) && ants[i].Followed(sp)
    ensures forall i | b <= i < |ants| ::
      ants[i].keyVertices != [] && ants[i].keyVertices[0] == vertices[ScaledIndex(starts(i), |vertices|)]
    ensures forall i | 0 <= i < b && i < |ants| :: unchanged(ants[i])
  {
    var i := b;
    while i < |ants|
      invariant forall k | b <= k < i && k < |ants| :: ants[k].Toured(adj, adj.Keys) && ants[k].Followed(sp)
      invariant forall k | b <= k < i && k < |ants| ::
        ants[k].keyVertices != [] && ants[k].keyVertices[0] == vertices[ScaledIndex(starts(k), |vertices|)]
      invariant forall k | 0 <= k < b && k < |ants| :: unchanged(ants[k])
    {
      var j := ScaledIndex(starts(i), |vertices|);
      var start := vertices[j];
      assert adj.Keys != {start} by {
        assert |{start}| == 1;
      }
      label before:
      ants[i].Wander(start, adj.Keys, adj, sp, ph, m, temperature, weigh, draws(i));
      forall k | b <= k < i + 1 && k < |ants| ensures ants[k].Toured(adj, adj.Keys) && ants[k].Followed(sp) {
        if k < i {
          var a := ants[k];
          assert a != ants[i];
          assert a.keyVertices == old@before(a.keyVertices) && a.pathEdges == old@before(a.pathEdges) && a.path == old@before(a.path);
          assert old@before(a.Toured(adj, adj.Keys) && a.Followed(sp));
        }
      }
      forall k | b <= k < i + 1 && k < |ants|
        ensures ants[k].keyVertices != [] && ants[k].keyVertices[0] == vertices[ScaledIndex(starts(k), |vertices|)]
      {
        if k < i {
          assert ants[k] != ants[i];
        }
      }
      forall k | 0 <= k < b && k < |ants| ensures unchanged(ants[k]) {
        assert ants[k] != ants[i];
      }
      i := i + 1;
    }
  }

  /** The colony: the graph, the parameters, the path cache, the pheromone table and the ants. */
  class Colony {
    const dg: Digraph
    const params: Parameters
    var shortestPaths: map<Pair, seq<Edge>>
    var pheromones: map<Pair, real>
    var ants: seq<Ant>

    /**
     * The cache covers every ordered pair of distinct vertices, the pheromone
     * table has the same keys, is symmetric and never below the floor, and the
     * ants are distinct objects.
     */
    ghost predicate Valid()
      reads this, dg
    {
      && dg.Valid() && Costed(dg.neighbors, params.metric)
      && Cache(dg.neighbors, params.metric, shortestPaths)
      && KeyedByPairs(pheromones, dg.neighbors.Keys) && Symmetric(pheromones) && AtLeastFloor(pheromones)
      && Distinct(ants)
    }

    /** Every ant holds a finished tour. */
    ghost predicate AllToured()
      reads this, dg, ants
    {
      forall a | a in ants :: a.Toured(dg.neighbors, dg.neighbors.Keys)
    }

    /**
     * Colony(dg, parameters): a shortest-path search for every ordered pair of
     * distinct vertices, and a pheromone of 1 on each pair.
     */
    constructor (dg: Digraph, params: Parameters)
      requires dg.Valid() && Costed(dg.neighbors, params.metric)
      ensures Valid() && this.dg == dg && this.params == params && ants == []
      ensures forall p | p in pheromones :: pheromones[p] == 1.0
    {
      var dj := new Djikstra(dg);
      var sp: map<Pair, seq<Edge>> := map[];
      var ph: map<Pair, real> := map[];
      var rest := dg.VertexSet();
      while rest != {}
        invariant rest <= dg.neighbors.Keys
        invariant Filling(dg.neighbors, params.metric, sp, ph)
        invariant Covers(sp, dg.neighbors.Keys - rest, dg.neighbors.Keys)
        decreases rest
      {
        var va :| va in rest;
        var sp', ph' := FillRow(dj, va, params.metric, sp, ph);
        CoversJoin(sp, sp', dg.neighbors.Keys - rest, va, dg.neighbors.Keys);
        assert dg.neighbors.Keys - (rest - {va}) == dg.neighbors.Keys - rest + {va};
        sp, ph := sp', ph';
        rest := rest - {va};
      }
      FillingDone(dg.neighbors, params.metric, sp, ph);
      this.dg := dg;
      this.params := params;
      shortestPaths := sp;
      pheromones := ph;
      ants := [];
    }
  
    /** Colony.addAnts: `n` new ants at the end of the list, the old ones kept in order. */
    method AddAnts(n: nat)
      requires Valid()
      modifies this
      ensures Valid() && |ants| == |old(ants)| + n && ants[..|old(ants)|] == old(ants)
      ensures forall i | |old(ants)| <= i < |ants| :: fresh(ants[i]) && ants[i].path == null
      ensures shortestPaths == old(shortestPaths) && pheromones == old(pheromones)
    {
      for i := 0 to n
        invariant Valid() && |ants| == |old(ants)| + i && ants[..|old(ants)|] == old(ants)
        invariant forall k | |old(ants)| <= k < |ants| :: fresh(ants[k]) && ants[k].path == null
        invariant shortestPaths == old(shortestPaths) && pheromones == old(pheromones)
      {
        var a := new Ant();
        ants := ants + [a];
      }
    }

    /**
     * Colony.wander, the sequential branch: every ant from FirstWanderer on sets out
     * from the vertex picked by its start draw and completes a tour; the best ants
     * kept from the last iteration are left alone.
     */
    method Wander(iteration: int, weigh: (real, nat, int) -> real, starts: nat -> real, draws: nat -> nat -> real)
      requires Valid() && StronglyConnected(dg.neighbors) && |dg.neighbors.Keys| >= 2
      requires params.temperature >= 0.0 && forall t, n, l :: weigh(t, n, l) >= 0.0
      requires forall i :: 0.0 <= starts(i) < 1.0
      requires forall i, k :: 0.0 <= draws(i)(k) < 1.0
      modifies set i | FirstWanderer(iteration, params) <= i < |ants| :: ants[i]
      ensures forall i | FirstWanderer(iteration, params) <= i < |ants| ::
        ants[i].Toured(dg.neighbors, dg.neighbors.Keys) && ants[i].Followed(shortestPaths)
      ensures forall i | 0 <= i < FirstWanderer(iteration, params) && i < |ants| :: unchanged(ants[i])
    {
      var vertices := Enumerate(dg.VertexSet());
      var b := if iteration == 1 then 0 else params.best;
      var adj, sp := dg.neighbors, shortestPaths;
      CacheConnected(adj, params.metric, sp, pheromones);
      label before:
      WanderAnts(ants, b, vertices, adj, sp, pheromones, params.metric, params.temperature, weigh, starts, draws);
      assert unchanged@before(this, dg);
    }

    /** The evaporation loops of Colony.updatePheromones, one row `a` at a time. */
    method Evaporation()
      requires Valid()
      modifies this
      ensures Valid() && pheromones == Evaporate(old(pheromones), params.rho)
      ensures ants == old(ants) && shortestPaths == old(shortestPaths)
    {
      EvaporateAll();
      EvaporateProperties(old(pheromones), params.rho);
    }

    /** The row loop of Evaporation, needing only the shape of the pheromone keys. */
    method EvaporateAll()
      requires dg.Valid() && KeyedByPairs(pheromones, dg.neighbors.Keys)
      modifies this
      ensures pheromones == Evaporate(old(pheromones), params.rho)
      ensures ants == old(ants) && shortestPaths == old(shortestPaths)
    {
      var rest := dg.VertexSet();
      while rest != {}
        invariant rest <= dg.neighbors.Keys && ants == old(ants) && shortestPaths == old(shortestPaths)
        invariant pheromones == EvaporateRows(old(pheromones), params.rho, dg.neighbors.Keys - rest)
        invariant KeyedByPairs(pheromones, dg.neighbors.Keys)
        decreases rest
      {
        var a :| a in rest;
        ghost var before := pheromones;
        EvaporateRow(a);
        EvaporateRowsStep(old(pheromones), params.rho, dg.neighbors.Keys, rest, a, before, pheromones);
        rest := rest - {a};
      }
      EvaporateRowsAll(old(pheromones), params.rho, dg.neighbors.Keys);
    }

    /** The inner evaporation loop: every entry (a, b) with b != a, scaled and raised to the floor. */
    method EvaporateRow(a: Vertex)
      requires dg.Valid() && KeyedByPairs(pheromones, dg.neighbors.Keys) && a in dg.neighbors
      modifies this
      ensures pheromones == EvaporateRows(old(pheromones), params.rho, {a})
      ensures ants == old(ants) && shortestPaths == old(shortestPaths)
    {
      var rest := dg.VertexSet();
      while rest != {}
        invariant rest <= dg.neighbors.Keys && ants == old(ants) && shortestPaths == old(shortestPaths)
        invariant pheromones.Keys == old(pheromones).Keys
        invariant forall p | p in old(pheromones) ::
          pheromones[p] == if p.0 == a && p.1 !in rest then Max(Floor, params.rho * old(pheromones)[p]) else old(pheromones)[p]
        decreases rest
      {
        var b :| b in rest;
        if a != b {
          assert (a, b) in pheromones;
          pheromones := pheromones[(a, b) := Max(Floor, params.rho * pheromones[(a, b)])];
        }
        rest := rest - {b};
      }
      ghost var r := EvaporateRows(old(pheromones), params.rho, {a});
      forall p | p in old(pheromones) ensures pheromones[p] == r[p] {
        assert p.1 !in rest && (p.0 == a <==> p.0 in {a});
      }
    }

    /**
     * The minimum loop of Colony.updatePheromones: starting from the first ant's
     * length, keep the smallest tour length seen.
     */
    method BestLength(ghost tours: seq<Tour>) returns (best: int)
      requires TourList(tours, ants, params.metric) && ants != []
      ensures best == Min(Lengths(tours))
      ensures forall a | a in ants :: a.path != null && TotalCost(a.path.edges, params.metric).Some? && best <= LengthOf(a, params.metric)
      ensures exists a | a in ants :: a.path != null && TotalCost(a.path.edges, params.metric).Some? && best == LengthOf(a, params.metric)
    {
      ghost var lens := Lengths(tours);
      var first := PathCost(ants[0].path.edges, params.metric);
      best := first.value;
      for i := 0 to |ants|
        invariant best == Min(lens[..if i == 0 then 1 else i])
      {
        var l := PathCost(ants[i].path.edges, params.metric);
        if i > 0 {
          assert lens[..i + 1][..i] == lens[..i];
        }
        if l.value < best {
          best := l.value;
        }
      }
      assert lens[..|ants|] == lens;
      MinOfTours(ants, tours, params.metric);
    }

    /**
     * The deposit of one ant in Colony.updatePheromones: `amt` added to (a, b) and
     * then to (b, a) for each consecutive pair of its key vertices.
     */
    method DepositTour(kv: seq<Vertex>, amt: real)
      requires PairsIn(pheromones, kv)
      modifies this
      ensures pheromones == Deposit(old(pheromones), kv, amt)
      ensures ants == old(ants) && shortestPaths == old(shortestPaths)
    {
      var i := 0;
      assert kv[i..] == kv;
      while i < |kv| - 1
        invariant 0 <= i <= |kv| && (kv != [] ==> i <= |kv| - 1)
        invariant ants == old(ants) && shortestPaths == old(shortestPaths)
        invariant PairsIn(pheromones, kv[i..])
        invariant Deposit(pheromones, kv[i..], amt) == Deposit(old(pheromones), kv, amt)
      {
        var a, b := kv[i], kv[i + 1];
        DepositStep(pheromones, kv, i, amt);
        var prev := pheromones[(a, b)];
        pheromones := pheromones[(a, b) := prev + amt];
        prev := pheromones[(b, a)];
        pheromones := pheromones[(b, a) := prev + amt];
        i := i + 1;
      }
    }

    /** The deposit loop of Colony.updatePheromones: each ant in list order, by amount(best, its length). */
    method DepositAnts(best: int, amount: (int, int) -> real, ghost tours: seq<Tour>)
      requires TourList(tours, ants, params.metric) && AllPairsIn(pheromones, tours)
      modifies this
      ensures ants == old(ants) && shortestPaths == old(shortestPaths)
      ensures pheromones == DepositAll(old(pheromones), tours, best, amount)
    {
      assert tours[0..] == tours;
      for k := 0 to |ants|
        invariant ants == old(ants) && shortestPaths == old(shortestPaths)
        invariant AllPairsIn(pheromones, tours[k..])
        invariant DepositAll(pheromones, tours[k..], best, amount) == DepositAll(old(pheromones), tours, best, amount)
      {
        var len := PathCost(ants[k].path.edges, params.metric);
        DepositAllStep(pheromones, tours, k, best, amount);
        DepositTour(ants[k].keyVertices, amount(best, len.value));
      }
    }

    /**
     * The part of Colony.updatePheromones after evaporation: find the best length,
     * then let every ant deposit amount(best, its length) along its hops. No entry
     * decreases and the table stays symmetric.
     */
    method Reinforce(amount: (int, int) -> real, ghost tours: seq<Tour>)
      requires Valid() && AllToured() && TourList(tours, ants, params.metric) && ants != []
      requires forall x, y :: amount(x, y) >= 0.0
      modifies this
      ensures Valid() && ants == old(ants) && shortestPaths == old(shortestPaths)
      ensures AllPairsIn(old(pheromones), tours)
      ensures pheromones == DepositAll(old(pheromones), tours, Min(Lengths(tours)), amount)
    {
      var best := BestLength(tours);
      TouredAntsPairsIn(ants, tours, dg.neighbors, params.metric, pheromones);
      DepositAnts(best, amount, tours);
      DepositAllProperties(old(pheromones), tours, best, amount);
    }

    /**
     * Colony.updatePheromones, given the tours the ants hold: evaporate, then
     * reinforce. With no ants the source fails on the first ant after
     * evaporating: `ok` is false and only the evaporation is done.
     */
    method UpdatePheromones(amount: (int, int) -> real, ghost tours: seq<Tour>) returns (ok: bool)
      requires Valid() && AllToured() && TourList(tours, ants, params.metric)
      requires forall x, y :: amount(x, y) >= 0.0
      modifies this
      ensures Valid() && AllToured() && ants == old(ants) && shortestPaths == old(shortestPaths)
      ensures ok <==> ants != []
      ensures !ok ==> pheromones == Evaporate(old(pheromones), params.rho)
      ensures ok ==> AllPairsIn(Evaporate(old(pheromones), params.rho), tours)
      ensures ok ==> pheromones == DepositAll(Evaporate(old(pheromones), params.rho), tours, Min(Lengths(tours)), amount)
    {
      Evaporation();
      if ants == [] {
        return false;
      }
      Reinforce(amount, tours);
      ok := true;
    }

    /** The insertion point of `a`: after every ant no longer than it. */
    method InsertByLength(sorted: seq<Ant>, a: Ant) returns (r: seq<Ant>)
      requires AscendingBy(sorted, params.metric) && a.path != null && TotalCost(a.path.edges, params.metric).Some?
      ensures AscendingBy(r, params.metric) && multiset(r) == multiset(sorted) + multiset{a}
    {
      var la := PathCost(a.path.edges, params.metric);
      var j := 0;
      var placed := false;
      while j < |sorted| && !placed
        invariant 0 <= j <= |sorted|
        invariant forall k | 0 <= k < j :: LengthOf(sorted[k], params.metric) <= LengthOf(a, params.metric)
        invariant placed ==> j < |sorted| && LengthOf(a, params.metric) < LengthOf(sorted[j], params.metric)
        decreases |sorted| - j, !placed
      {
        var lj := PathCost(sorted[j].path.edges, params.metric);
        if lj.value <= la.value {
          j := j + 1;
        } else {
          placed := true;
        }
      }
      InsertKeepsAscending(sorted, j, a, params.metric);
      r := sorted[..j] + [a] + sorted[j..];
      assert sorted == sorted[..j] + sorted[j..];
    }

    /** The ordering of Colony.sortAnts: a reordering of `ants` by ascending tour length. */
    method SortedByLength(ants: seq<Ant>) returns (sorted: seq<Ant>)
      requires PricedAnts(ants, params.metric)
      ensures multiset(sorted) == multiset(ants) && AscendingBy(sorted, params.metric)
    {
      sorted := [];
      for i := 0 to |ants|
        invariant multiset(sorted) == multiset(ants[..i]) && AscendingBy(sorted, params.metric)
      {
        assert ants[i] in ants;
        sorted := InsertByLength(sorted, ants[i]);
        assert ants[..i + 1] == ants[..i] + [ants[i]];
      }
      assert ants[..|ants|] == ants;
    }

    /**
     * Colony.sortAnts: the ants reordered by ascending tour length. The list is a
     * permutation of the old one, so every ant and the invariant survive.
     */
    method SortAnts()
      requires Valid() && AllToured()
      modifies this
      ensures Valid() && AllToured() && multiset(ants) == multiset(old(ants)) && AscendingBy(ants, params.metric)
      ensures pheromones == old(pheromones) && shortestPaths == old(shortestPaths)
    {
      TouredAntsPriced(ants, dg.neighbors, params.metric);
      var sorted := SortedByLength(ants);
      PermutationKeepsDistinct(ants, sorted);
      forall a | a in sorted ensures a.Toured(dg.neighbors, dg.neighbors.Keys) {
        assert a in multiset(sorted);
      }
      ants := sorted;
    }

    /**
     * Colony.bestPath: sort, then the first ant's path, which no ant's tour beats;
     * None where the source fails for want of ants.
     */
    method BestPath() returns (p: Option<Path>)
      requires Valid() && AllToured()
      modifies this
      ensures Valid() && AllToured() && multiset(ants) == multiset(old(ants)) && AscendingBy(ants, params.metric)
      ensures p.None? <==> ants == []
      ensures p.Some? ==> p.value == ants[0].path
      ensures p.Some? ==> forall a | a in ants :: LengthOf(ants[0], params.metric) <= LengthOf(a, params.metric)
    {
      SortAnts();
      if ants == [] {
        return None;
      }
      p := Some(ants[0].path);
    }
}
}

/**
 * The value-level rules of src/core/Colony.java: the roulette-wheel sums, the
 * count of new vertices along a path, and the pheromone table with its
 * evaporation and symmetric deposit, stated as functions with the lemmas that
 * say what an update step achieves. The classes in module Colony are proved
 * against these definitions.
 */
module ColonySpec {
  import opened Digraph

  /** An ordered pair of vertices: the key of the pheromone table and of the path cache. */
  type Pair = (Vertex, Vertex)

  /** A table keyed by exactly the ordered pairs of distinct vertices of `vs`. */
  ghost predicate KeyedByPairs<T>(t: map<Pair, T>, vs: set<Vertex>) {
    forall p: Pair :: p in t <==> p.0 in vs && p.1 in vs && p.0 != p.1
  }

  /** Running total of weights, accumulated from the front as the Java loops do. */
  function Sum(ws: seq<real>): real {
    if ws == [] then 0.0 else Sum(ws[..|ws| - 1]) + ws[|ws| - 1]
  }

  ghost predicate NonNegative(ws: seq<real>) {
    forall i | 0 <= i < |ws| :: ws[i] >= 0.0
  }

  /** With non-negative weights, a longer prefix never sums to less. */
  lemma {:induction false} SumPrefixGrows(ws: seq<real>, i: nat, j: nat)
    requires NonNegative(ws) && i <= j <= |ws|
    ensures Sum(ws[..i]) <= Sum(ws[..j])
    decreases j - i
  {
    if i < j {
      SumPrefixGrows(ws, i, j - 1);
      assert ws[..j][..j - 1] == ws[..j - 1];
    }
  }

  /** The weights passed over by the roulette loop: the sum of the first `k`. */
  lemma SumStep(ws: seq<real>, k: nat)
    requires k < |ws|
    ensures Sum(ws[..k + 1]) == Sum(ws[..k]) + ws[k]
  {
    assert ws[..k + 1][..k] == ws[..k];
  }

  /** Appending one weight adds it to the total, and keeps the weights non-negative when it is. */
  lemma SumSnoc(ws: seq<real>, x: real)
    ensures Sum(ws + [x]) == Sum(ws) + x
    ensures NonNegative(ws) && x >= 0.0 ==> NonNegative(ws + [x])
  {
    assert (ws + [x])[..|ws|] == ws;
  }

  /** The roulette target: the total scaled by a draw in [0, 1), which stays on the wheel. */
  function Target(total: real, draw: real): (t: real)
    requires total >= 0.0 && 0.0 <= draw < 1.0
    ensures 0.0 <= t <= total
    ensures total > 0.0 ==> t < total
  {
    assert total * draw <= total by {
      assert total - total * draw == total * (1.0 - draw);
    }
    total * draw
  }

  /** How many of `vs` lie in `s`, counting repeats. */
  function CountIn(vs: seq<Vertex>, s: set<Vertex>): nat {
    if vs == [] then 0 else CountIn(vs[..|vs| - 1], s) + (if vs[|vs| - 1] in s then 1 else 0)
  }

  /** The count is at most the length, and reaches it exactly when every vertex lies in `s`. */
  lemma {:induction false} CountInBounds(vs: seq<Vertex>, s: set<Vertex>)
    ensures CountIn(vs, s) <= |vs|
    ensures CountIn(vs, s) == |vs| <==> forall i | 0 <= i < |vs| :: vs[i] in s
  {
    if vs != [] {
      var init := vs[..|vs| - 1];
      CountInBounds(init, s);
      assert forall i | 0 <= i < |init| :: init[i] == vs[i];
    }
  }

  /** Nothing lies in the empty set. */
  lemma {:induction false} CountInEmpty(vs: seq<Vertex>)
    ensures CountIn(vs, {}) == 0
  {
    if vs != [] {
      CountInEmpty(vs[..|vs| - 1]);
    }
  }

  function Max(a: real, b: real): real {
    if a >= b then a else b
  }

  /** The lowest value a pheromone entry takes through evaporation. */
  const Floor: real := 0.5

  /** The evaporation step: every entry scaled by `rho`, then raised to the floor. */
  function Evaporate(ph: map<Pair, real>, rho: real): map<Pair, real> {
    map p | p in ph :: Max(Floor, rho * ph[p])
  }

  ghost predicate Symmetric(ph: map<Pair, real>) {
    forall a, b | (a, b) in ph :: (b, a) in ph && ph[(b, a)] == ph[(a, b)]
  }

  ghost predicate AtLeastFloor(ph: map<Pair, real>) {
    forall p | p in ph :: ph[p] >= Floor
  }

  /**
   * Evaporation keeps the keys and the symmetry, lifts every entry to the floor,
   * and, with 0 <= rho <= 1, never raises an entry that was already at the floor.
   */
  lemma EvaporateProperties(ph: map<Pair, real>, rho: real)
    ensures Evaporate(ph, rho).Keys == ph.Keys
    ensures AtLeastFloor(Evaporate(ph, rho))
    ensures Symmetric(ph) ==> Symmetric(Evaporate(ph, rho))
    ensures 0.0 <= rho <= 1.0 ==> forall p | p in ph && ph[p] >= Floor :: Evaporate(ph, rho)[p] <= ph[p]
  {
    var r := Evaporate(ph, rho);
    if 0.0 <= rho <= 1.0 {
      forall p | p in ph && ph[p] >= Floor ensures r[p] <= ph[p] {
        assert rho * ph[p] <= 1.0 * ph[p];
      }
    }
  }

  /** Every consecutive pair of `kv` is a key in both directions, and is not a self-pair. */
  ghost predicate PairsIn(ph: map<Pair, real>, kv: seq<Vertex>) {
    forall i | 0 <= i < |kv| - 1 :: kv[i] != kv[i + 1] && (kv[i], kv[i + 1]) in ph && (kv[i + 1], kv[i]) in ph
  }

  /** `p` is a consecutive pair of `kv`, in one direction or the other. */
  ghost predicate Touches(kv: seq<Vertex>, p: Pair) {
    exists i | 0 <= i < |kv| - 1 :: p == (kv[i], kv[i + 1]) || p == (kv[i + 1], kv[i])
  }

  lemma PairsInTail(ph: map<Pair, real>, ph': map<Pair, real>, kv: seq<Vertex>)
    requires |kv| >= 2 && PairsIn(ph, kv) && ph'.Keys == ph.Keys
    ensures PairsIn(ph', kv[1..])
  {
    forall i | 0 <= i < |kv[1..]| - 1
      ensures kv[1..][i] != kv[1..][i + 1] && (kv[1..][i], kv[1..][i + 1]) in ph' && (kv[1..][i + 1], kv[1..][i]) in ph'
    {
      assert kv[1..][i] == kv[i + 1] && kv[1..][i + 1] == kv[i + 2];
    }
  }

  /** Adds `amt` to the entry at `p`. */
  function AddTo(ph: map<Pair, real>, p: Pair, amt: real): map<Pair, real>
    requires p in ph
  {
    ph[p := ph[p] + amt]
  }

  /**
   * The deposit of one ant: for each consecutive pair (a, b) of its key vertices,
   * front to back, add `amt` to the entry (a, b) and then to (b, a).
   */
  function Deposit(ph: map<Pair, real>, kv: seq<Vertex>, amt: real): (r: map<Pair, real>)
    requires PairsIn(ph, kv)
    ensures r.Keys == ph.Keys
    decreases |kv|
  {
    if |kv| < 2 then ph
    else
      var a, b := kv[0], kv[1];
      var ph' := AddTo(AddTo(ph, (a, b), amt), (b, a), amt);
      PairsInTail(ph, ph', kv);
      Deposit(ph', kv[1..], amt)
  }

  /** A pair touched at position `i` of `kv[1..]` is touched at position `i + 1` of `kv`. */
  lemma TouchesTail(kv: seq<Vertex>, p: Pair)
    requires |kv| >= 2 && Touches(kv[1..], p)
    ensures Touches(kv, p)
  {
    var i :| 0 <= i < |kv[1..]| - 1 && (p == (kv[1..][i], kv[1..][i + 1]) || p == (kv[1..][i + 1], kv[1..][i]));
    assert kv[1..][i] == kv[i + 1] && kv[1..][i + 1] == kv[i + 2];
  }

  /** An entry that is no consecutive pair of `kv` is left as it was. */
  lemma {:induction false} DepositFrame(ph: map<Pair, real>, kv: seq<Vertex>, amt: real, p: Pair)
    requires PairsIn(ph, kv) && p in ph && !Touches(kv, p)
    ensures Deposit(ph, kv, amt)[p] == ph[p]
    decreases |kv|
  {
    if |kv| >= 2 {
      var ph' := AddTo(AddTo(ph, (kv[0], kv[1]), amt), (kv[1], kv[0]), amt);
      PairsInTail(ph, ph', kv);
      if Touches(kv[1..], p) {
        TouchesTail(kv, p);
      }
      DepositFrame(ph', kv[1..], amt, p);
    }
  }

  /** Every entry gains the same in both directions: the deposit is symmetric. */
  lemma {:induction false} DepositSameBothWays(ph: map<Pair, real>, kv: seq<Vertex>, amt: real, a: Vertex, b: Vertex)
    requires PairsIn(ph, kv) && (a, b) in ph && (b, a) in ph && a != b
    ensures Deposit(ph, kv, amt)[(a, b)] - ph[(a, b)] == Deposit(ph, kv, amt)[(b, a)] - ph[(b, a)]
    decreases |kv|
  {
    if |kv| >= 2 {
      var ph' := AddTo(AddTo(ph, (kv[0], kv[1]), amt), (kv[1], kv[0]), amt);
      PairsInTail(ph, ph', kv);
      DepositSameBothWays(ph', kv[1..], amt, a, b);
    }
  }

  /** With a non-negative amount, no entry decreases, and every consecutive pair gains at least `amt`. */
  lemma {:induction false} DepositGrows(ph: map<Pair, real>, kv: seq<Vertex>, amt: real)
    requires PairsIn(ph, kv) && amt >= 0.0
    ensures forall p | p in ph :: Deposit(ph, kv, amt)[p] >= ph[p]
    ensures forall i | 0 <= i < |kv| - 1 :: Deposit(ph, kv, amt)[(kv[i], kv[i + 1])] >= ph[(kv[i], kv[i + 1])] + amt
    decreases |kv|
  {
    if |kv| >= 2 {
      var ph' := AddTo(AddTo(ph, (kv[0], kv[1]), amt), (kv[1], kv[0]), amt);
      PairsInTail(ph, ph', kv);
      DepositGrows(ph', kv[1..], amt);
      forall i | 0 <= i < |kv| - 1
        ensures Deposit(ph, kv, amt)[(kv[i], kv[i + 1])] >= ph[(kv[i], kv[i + 1])] + amt
      {
        if i > 0 {
          assert kv[1..][i - 1] == kv[i] && kv[1..][i] == kv[i + 1];
        }
      }
    }
  }

  /** One ant's contribution: its key vertices and its tour length. */
  datatype Tour = Tour(keyVertices: seq<Vertex>, length: int)

  ghost predicate AllPairsIn(ph: map<Pair, real>, tours: seq<Tour>) {
    forall k | 0 <= k < |tours| :: PairsIn(ph, tours[k].keyVertices)
  }

  lemma AllPairsInKeys(ph: map<Pair, real>, ph': map<Pair, real>, tours: seq<Tour>)
    requires AllPairsIn(ph, tours) && ph'.Keys == ph.Keys
    ensures AllPairsIn(ph', tours)
  {
  }

  /** The deposit of every ant in turn, each by amount(best, its length). */
  function DepositAll(ph: map<Pair, real>, tours: seq<Tour>, best: int, amount: (int, int) -> real): (r: map<Pair, real>)
    requires AllPairsIn(ph, tours)
    ensures r.Keys == ph.Keys
    decreases |tours|
  {
    if tours == [] then ph
    else
      var ph' := Deposit(ph, tours[0].keyVertices, amount(best, tours[0].length));
      AllPairsInKeys(ph, ph', tours[1..]);
      DepositAll(ph', tours[1..], best, amount)
  }

  /**
   * Over all ants: untouched entries keep their value, no entry decreases, and
   * symmetry is kept.
   */
  lemma {:induction false} DepositAllProperties(ph: map<Pair, real>, tours: seq<Tour>, best: int, amount: (int, int) -> real)
    requires AllPairsIn(ph, tours)
    requires forall k | 0 <= k < |tours| :: amount(best, tours[k].length) >= 0.0
    ensures forall p | p in ph :: DepositAll(ph, tours, best, amount)[p] >= ph[p]
    ensures forall p | p in ph && (forall k | 0 <= k < |tours| :: !Touches(tours[k].keyVertices, p)) ::
      DepositAll(ph, tours, best, amount)[p] == ph[p]
    ensures Symmetric(ph) ==> Symmetric(DepositAll(ph, tours, best, amount))
    decreases |tours|
  {
    if tours != [] {
      var kv, amt := tours[0].keyVertices, amount(best, tours[0].length);
      var ph' := Deposit(ph, kv, amt);
      AllPairsInKeys(ph, ph', tours[1..]);
      DepositGrows(ph, kv, amt);
      DepositAllProperties(ph', tours[1..], best, amount);
      forall p | p in ph && (forall k | 0 <= k < |tours| :: !Touches(tours[k].keyVertices, p))
        ensures DepositAll(ph, tours, best, amount)[p] == ph[p]
      {
        DepositFrame(ph, kv, amt, p);
        assert forall k | 0 <= k < |tours[1..]| :: tours[1..][k] == tours[k + 1];
      }
      if Symmetric(ph) {
        forall a, b | (a, b) in ph' ensures (b, a) in ph' && ph'[(b, a)] == ph'[(a, b)] {
          if a != b {
            DepositSameBothWays(ph, kv, amt, a, b);
          }
        }
      }
    }
  }

  /** Tour lengths in order. */
  function Lengths(tours: seq<Tour>): (r: seq<int>)
    ensures |r| == |tours| && forall k | 0 <= k < |tours| :: r[k] == tours[k].length
  {
    if tours == [] then [] else [tours[0].length] + Lengths(tours[1..])
  }

  /** The smallest of a non-empty list. */
  function Min(xs: seq<int>): int
    requires xs != []
  {
    if |xs| == 1 then xs[0]
    else
      var m := Min(xs[..|xs| - 1]);
      if xs[|xs| - 1] < m then xs[|xs| - 1] else m
  }

  /** Min is a lower bound that is attained. */
  lemma {:induction false} MinIsLeast(xs: seq<int>)
    requires xs != []
    ensures forall i | 0 <= i < |xs| :: Min(xs) <= xs[i]
    ensures exists i | 0 <= i < |xs| :: Min(xs) == xs[i]
  {
    if |xs| > 1 {
      var init := xs[..|xs| - 1];
      MinIsLeast(init);
      assert forall i | 0 <= i < |init| :: init[i] == xs[i];
      var j :| 0 <= j < |init| && Min(init) == init[j];
      if xs[|xs| - 1] < Min(init) {
        assert Min(xs) == xs[|xs| - 1];
      } else {
        assert Min(xs) == xs[j];
      }
    } else {
      assert Min(xs) == xs[0];
    }
  }
}

/**
 * The travel-cost metric of src/core/Utils.java: the cost of one edge under
 * one of four metrics, and the cost of a list of edges.
 * The Java multipliers are the doubles 2.0, 1.1, 5.0, 1.0, 0.9, 0.5; they are
 * kept here as tenths, and the (int) cast as truncation toward zero.
 */
module Utils {
  import opened Wrappers
  import opened Digraph

  datatype Metric = WalkDistance | WalkTime | SkateDistance | SkateTime

  /** Walking speed on flat ground, feet per minute. */
  const WalkSpeed: int := 272

  /** Character.toLowerCase on the ASCII letters. */
  function ToLower(c: char): char {
    if 'A' <= c <= 'Z' then (c as int + 32) as char else c
  }

  /** Character.toUpperCase on the ASCII letters. */
  function ToUpper(c: char): char {
    if 'a' <= c <= 'z' then (c as int - 32) as char else c
  }

  /** An edge can be skated when its type code is its own upper-case form. */
  function CanSkate(e: Edge): (b: bool)
    ensures b <==> !('a' <= e.kind <= 'z')
  {
    e.kind == ToUpper(e.kind)
  }

  /** The speed multiplier of a type code, in tenths; None for an unknown code. */
  function Tenths(code: char): Option<int> {
    match code
    case 'F' => Some(20)
    case 'U' => Some(11)
    case 'D' => Some(50)
    case 'f' => Some(10)
    case 'u' => Some(9)
    case 'd' => Some(11)
    case 's' => Some(5)
    case 't' => Some(9)
    case 'b' => Some(10)
    case _ => None
  }

  /** Java's `(int)` cast of a count of tenths: truncation toward zero. */
  function TruncTenths(a: int): (r: int)
    ensures a >= 0 ==> 0 <= r && 10 * r <= a < 10 * r + 10
    ensures a < 0 ==> r <= 0 && 10 * r - 10 < a <= 10 * r
  {
    if a >= 0 then a / 10 else -((-a) / 10)
  }

  /** The code whose multiplier a time metric uses: WALK_TIME lower-cases it first. */
  function TimeCode(e: Edge, m: Metric): char {
    if m == WalkTime then ToLower(e.kind) else e.kind
  }

  /**
   * The cost of traversing `e` under `m`; None where Java throws
   * IllegalStateException (an unknown code under a time metric).
   */
  function ComputeCost(e: Edge, m: Metric): (r: Option<int>)
    ensures (m == WalkDistance || m == SkateDistance) ==> r == Some(e.length)
    ensures (m == WalkTime || m == SkateTime) ==>
      (r.None? <==> Tenths(TimeCode(e, m)).None?)
    ensures e.length >= 0 && r.Some? ==> r.value >= 0
  {
    match m
    case WalkDistance => Some(e.length)
    case SkateDistance => Some(e.length)
    case _ => TimeCost(e.length, TimeCode(e, m))
  }

  /**
   * The time-metric table of Utils.computeCost, one literal multiplier per code
   * (272 feet per minute times the code's tenths); None for an unknown code.
   */
  function TimeCost(len: int, code: char): (r: Option<int>)
    ensures r.None? <==> Tenths(code).None?
    ensures len >= 0 && r.Some? ==> r.value >= 0
  {
    match code
    case 'F' => Some(TruncTenths(len * 272 * 20))
    case 'U' => Some(TruncTenths(len * 272 * 11))
    case 'D' => Some(TruncTenths(len * 272 * 50))
    case 'f' => Some(TruncTenths(len * 272 * 10))
    case 'u' => Some(TruncTenths(len * 272 * 9))
    case 'd' => Some(TruncTenths(len * 272 * 11))
    case 's' => Some(TruncTenths(len * 272 * 5))
    case 't' => Some(TruncTenths(len * 272 * 9))
    case 'b' => Some(TruncTenths(len * 272 * 10))
    case _ => None
  }

  /** The table is the walking speed times the code's multiplier in tenths, truncated. */
  lemma TimeCostIsSpeedTimesTenths(len: int, code: char)
    ensures Tenths(code).Some? ==> TimeCost(len, code) == Some(TruncTenths(len * WalkSpeed * Tenths(code).value))
  {
  }

  /** Under WALK_TIME the case of the code does not matter. */
  lemma WalkTimeIgnoresCase(e: Edge)
    ensures ComputeCost(e, WalkTime) == ComputeCost(e.(kind := ToLower(e.kind)), WalkTime)
    ensures ComputeCost(e, WalkTime) == ComputeCost(e.(kind := ToLower(e.kind)), SkateTime)
  {
  }

  /** The SKATE_TIME table, code by code, for a non-negative length. */
  lemma SkateTimeTable(s: Vertex, d: Vertex, len: int)
    requires len >= 0
    ensures ComputeCost(Edge(s, d, len, 'F'), SkateTime) == Some(len * 272 * 2)
    ensures ComputeCost(Edge(s, d, len, 'U'), SkateTime) == Some((len * 272 * 11) / 10)
    ensures ComputeCost(Edge(s, d, len, 'D'), SkateTime) == Some(len * 272 * 5)
    ensures ComputeCost(Edge(s, d, len, 'f'), SkateTime) == Some(len * 272)
    ensures ComputeCost(Edge(s, d, len, 'u'), SkateTime) == Some((len * 272 * 9) / 10)
    ensures ComputeCost(Edge(s, d, len, 'd'), SkateTime) == Some((len * 272 * 11) / 10)
    ensures ComputeCost(Edge(s, d, len, 's'), SkateTime) == Some(len * 136)
    ensures ComputeCost(Edge(s, d, len, 't'), SkateTime) == Some((len * 272 * 9) / 10)
    ensures ComputeCost(Edge(s, d, len, 'b'), SkateTime) == Some(len * 272)
  {
  }

  /** Skate-only upper-case codes fall back to their walking multiplier under WALK_TIME. */
  lemma WalkTimeUsesWalkingSpeed(s: Vertex, d: Vertex, len: int)
    requires len >= 0
    ensures ComputeCost(Edge(s, d, len, 'F'), WalkTime) == Some(len * 272)
    ensures ComputeCost(Edge(s, d, len, 'U'), WalkTime) == Some((len * 272 * 9) / 10)
    ensures ComputeCost(Edge(s, d, len, 'D'), WalkTime) == Some((len * 272 * 11) / 10)
  {
  }

  /** An edge whose cost is defined under `m`. */
  predicate Costable(e: Edge, m: Metric) {
    ComputeCost(e, m).Some?
  }

  /** The cost of a list: the sum of its edges' costs, None if any edge throws. */
  function TotalCost(es: seq<Edge>, m: Metric): Option<int> {
    if es == [] then Some(0) else Plus(ComputeCost(es[0], m), TotalCost(es[1..], m))
  }

  /** Adds two optional costs; an exception on either side propagates. */
  function Plus(a: Option<int>, b: Option<int>): Option<int> {
    if a.Some? && b.Some? then Some(a.value + b.value) else None
  }

  lemma PlusAssociative(a: Option<int>, b: Option<int>, c: Option<int>)
    ensures Plus(a, Plus(b, c)) == Plus(Plus(a, b), c)
  {
  }

  /** The cost of a concatenation is the sum of the costs of its parts. */
  lemma {:induction false} TotalCostAppend(x: seq<Edge>, y: seq<Edge>, m: Metric)
    ensures TotalCost(x + y, m) == Plus(TotalCost(x, m), TotalCost(y, m))
  {
    if x == [] {
      assert x + y == y;
    } else {
      var z := x + y;
      assert z[0] == x[0] && z[1..] == x[1..] + y;
      TotalCostAppend(x[1..], y, m);
      PlusAssociative(ComputeCost(x[0], m), TotalCost(x[1..], m), TotalCost(y, m));
    }
  }

  /** The total is defined exactly when every edge's cost is. */
  lemma {:induction false} TotalCostDefined(es: seq<Edge>, m: Metric)
    ensures TotalCost(es, m).Some? <==> forall i | 0 <= i < |es| :: Costable(es[i], m)
  {
    if es != [] {
      TotalCostDefined(es[1..], m);
      assert forall i | 1 <= i < |es| :: es[i] == es[1..][i - 1];
    }
  }

  /** With non-negative lengths, every path cost is non-negative. */
  lemma {:induction false} TotalCostNonNegative(es: seq<Edge>, m: Metric)
    requires forall i | 0 <= i < |es| :: es[i].length >= 0
    ensures TotalCost(es, m).Some? ==> TotalCost(es, m).value >= 0
  {
    if es != [] {
      TotalCostNonNegative(es[1..], m);
    }
  }

  /** One step of the accumulation: the prefix total grows by the next edge's cost, or the whole total fails. */
  lemma PrefixCostStep(path: seq<Edge>, m: Metric, i: nat, cost: int)
    requires i < |path| && TotalCost(path[..i], m) == Some(cost)
    ensures ComputeCost(path[i], m).Some? ==> TotalCost(path[..i + 1], m) == Some(cost + ComputeCost(path[i], m).value)
    ensures ComputeCost(path[i], m).None? ==> TotalCost(path, m).None?
  {
    var c := ComputeCost(path[i], m);
    assert path[..i + 1] == path[..i] + [path[i]];
    TotalCostAppend(path[..i], [path[i]], m);
    assert TotalCost([path[i]], m) == Plus(c, TotalCost([], m)) by { assert [path[i]][1..] == []; }
    assert TotalCost(path[..i + 1], m) == Plus(Some(cost), Plus(c, Some(0)));
    if c.Some? {
      assert Plus(Some(cost), Plus(c, Some(0))) == Some(cost + c.value);
    } else {
      TotalCostAppend(path[..i + 1], path[i + 1..], m);
      assert path == path[..i + 1] + path[i + 1..];
    }
  }

  /** Utils.pathCost: accumulates edge costs from the front. */
  method PathCost(path: seq<Edge>, m: Metric) returns (r: Option<int>)
    ensures r == TotalCost(path, m)
  {
    var cost := 0;
    for i := 0 to |path|
      invariant TotalCost(path[..i], m) == Some(cost)
    {
      var c := ComputeCost(path[i], m);
      PrefixCostStep(path, m, i, cost);
      if c.None? {
        return None;
      }
      cost := cost + c.value;
    }
    assert path[..|path|] == path;
    r := Some(cost);
  }
}

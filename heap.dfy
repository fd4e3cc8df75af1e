/**
 * The indexed binary min-heap of src/core/MinHeap.java and src/core/VertexHeap.java,
 * merged into one class: the array of vertices, the position index kept in step
 * with every swap, and the score map shared with the shortest-path engine.
 *
 * The functions SwapF, PercUpF, PercDownF and PopMinF state what the methods do to
 * the array; the lemmas about them say what that achieves. MinHeap.isLeaf calls a
 * node with only a left child a leaf, so PercDownF never compares such a child, and
 * popping does not always restore heap order (PopMinLeavesDisorder).
 */
module Heap {
  import opened Wrappers
  import opened Digraph

  /** Integer.MAX_VALUE, the score of a vertex with no entry in the score map. */
  const IntMax: int := 0x7fff_ffff

  function ScoreIn(scores: map<Vertex, int>, v: Vertex): int {
    if v in scores then scores[v] else IntMax
  }

  /** MinHeap.left: an odd slot after `i`. */
  function Left(i: int): (l: int)
    ensures i >= 0 ==> i < l
    ensures l % 2 == 1
  {
    i * 2 + 1
  }

  /** MinHeap.right: the even slot just after the left child. */
  function Right(i: int): (r: int)
    ensures r == Left(i) + 1 && r % 2 == 0
  {
    i * 2 + 2
  }

  /**
   * Java's (i - 1) / 2, which truncates, so parent(0) is 0; every other slot is
   * a child of its parent, which comes before it.
   */
  function Parent(i: nat): (p: nat)
    ensures i > 0 ==> p < i && (Left(p) == i || Right(p) == i)
    ensures i == 0 ==> p == 0
  {
    if i == 0 then 0 else (i - 1) / 2
  }

  /** Both children of i name i as their parent. */
  lemma ParentOfChildren(i: nat)
    ensures Parent(Left(i)) == i && Parent(Right(i)) == i
  {
  }

  /** MinHeap.isLeaf: the right child is out of range; a lone left child is ignored. */
  function IsLeaf(i: int, size: int): (b: bool)
    ensures !b ==> Left(i) < size && Right(i) < size
    ensures b && Left(i) < size ==> Left(i) == size - 1
  {
    Right(i) >= size
  }

  /** Every node scores at least as much as its parent. */
  ghost predicate HeapOrdered(s: seq<Vertex>, sc: map<Vertex, int>) {
    forall j | 0 < j < |s| :: ScoreIn(sc, s[Parent(j)]) <= ScoreIn(sc, s[j])
  }

  /** MinHeap.swap on the array: the two slots trade places, the rest stay. */
  function SwapF(s: seq<Vertex>, a: nat, b: nat): (r: seq<Vertex>)
    requires a < |s| && b < |s|
    ensures |r| == |s| && r[a] == s[b] && r[b] == s[a]
    ensures forall k | 0 <= k < |s| && k != a && k != b :: r[k] == s[k]
    ensures multiset(r) == multiset(s)
  {
    s[a := s[b]][b := s[a]]
  }

  /** MinHeap.percUp: swap with the parent while strictly smaller. */
  function PercUpF(s: seq<Vertex>, sc: map<Vertex, int>, i: nat): (r: seq<Vertex>)
    requires i < |s|
    ensures |r| == |s| && multiset(r) == multiset(s)
    ensures exists j | 0 <= j <= i :: r[j] == s[i]
    decreases i
  {
    if i > 0 && ScoreIn(sc, s[i]) < ScoreIn(sc, s[Parent(i)]) then
      var t := SwapF(s, i, Parent(i));
      var r := PercUpF(t, sc, Parent(i));
      assert t[Parent(i)] == s[i];
      r
    else
      s
  }

  /** MinHeap.percDown, with its isLeaf test. */
  function PercDownF(s: seq<Vertex>, sc: map<Vertex, int>, i: nat): (r: seq<Vertex>)
    requires i < |s|
    ensures |r| == |s| && multiset(r) == multiset(s)
    decreases |s| - i
  {
    if IsLeaf(i, |s|) then s
    else
      var l, rt := Left(i), Right(i);
      if ScoreIn(sc, s[i]) > ScoreIn(sc, s[l]) then
        if ScoreIn(sc, s[rt]) < ScoreIn(sc, s[l]) then PercDownF(SwapF(s, i, rt), sc, rt)
        else PercDownF(SwapF(s, i, l), sc, l)
      else if ScoreIn(sc, s[i]) > ScoreIn(sc, s[rt]) then PercDownF(SwapF(s, i, rt), sc, rt)
      else s
  }

  /**
   * MinHeap.popMin on the array: the root is returned, the last slot is moved to the
   * root and the array shrinks by one, then the root is percolated down.
   */
  function PopMinF(s: seq<Vertex>, sc: map<Vertex, int>): (r: (Vertex, seq<Vertex>))
    requires |s| > 0
    ensures r.0 == s[0] && |r.1| == |s| - 1
    ensures multiset(r.1) + multiset{s[0]} == multiset(s)
  {
    var u := DropRoot(s);
    (s[0], if |u| > 0 then PercDownF(u, sc, 0) else u)
  }

  /** The array once the root is swapped to the end and the end removed. */
  function DropRoot(s: seq<Vertex>): (u: seq<Vertex>)
    requires |s| > 0
    ensures |u| == |s| - 1 && multiset(u) + multiset{s[0]} == multiset(s)
  {
    var t := SwapF(s, 0, |s| - 1);
    assert t == t[..|s| - 1] + [s[0]];
    t[..|s| - 1]
  }

  /** Heap order holds everywhere except between node i and its parent, and i's parent is below i's children. */
  ghost predicate OrderedExcept(s: seq<Vertex>, sc: map<Vertex, int>, i: nat) {
    && (forall j | 0 < j < |s| && j != i :: ScoreIn(sc, s[Parent(j)]) <= ScoreIn(sc, s[j]))
    && (0 < i ==> forall c | 0 < c < |s| && Parent(c) == i :: ScoreIn(sc, s[Parent(i)]) <= ScoreIn(sc, s[c]))
  }

  /** Percolating up from the one out-of-order node restores heap order. */
  lemma {:induction false} PercUpRestoresOrder(s: seq<Vertex>, sc: map<Vertex, int>, i: nat)
    requires i < |s| && OrderedExcept(s, sc, i)
    ensures HeapOrdered(PercUpF(s, sc, i), sc)
    decreases i
  {
    if i > 0 && ScoreIn(sc, s[i]) < ScoreIn(sc, s[Parent(i)]) {
      var p := Parent(i);
      var t := SwapF(s, i, p);
      forall j | 0 < j < |t| && j != p
        ensures ScoreIn(sc, t[Parent(j)]) <= ScoreIn(sc, t[j])
      {
        if j == i {
        } else if Parent(j) == i {
          assert t[j] == s[j] && t[i] == s[p];
        } else if Parent(j) == p {
          assert t[j] == s[j] && t[p] == s[i];
        } else {
          assert t[j] == s[j] && t[Parent(j)] == s[Parent(j)];
        }
      }
      if p > 0 {
        forall c | 0 < c < |t| && Parent(c) == p
          ensures ScoreIn(sc, t[Parent(p)]) <= ScoreIn(sc, t[c])
        {
          assert t[Parent(p)] == s[Parent(p)];
          assert ScoreIn(sc, s[Parent(p)]) <= ScoreIn(sc, s[p]);
          if c != i {
            assert t[c] == s[c];
          }
        }
      }
      PercUpRestoresOrder(t, sc, p);
    }
  }

  /** MinHeap.insert keeps a heap-ordered array heap-ordered. */
  lemma InsertKeepsOrder(s: seq<Vertex>, sc: map<Vertex, int>, x: Vertex)
    requires HeapOrdered(s, sc)
    ensures HeapOrdered(PercUpF(s + [x], sc, |s|), sc)
  {
    var t := s + [x];
    forall c | 0 < c < |t| && Parent(c) == |s| && 0 < |s|
      ensures false
    {
    }
    PercUpRestoresOrder(t, sc, |s|);
  }

  /** In a heap-ordered array the root scores least. */
  lemma {:induction false} RootIsMinimal(s: seq<Vertex>, sc: map<Vertex, int>, k: nat)
    requires HeapOrdered(s, sc) && k < |s|
    ensures ScoreIn(sc, s[0]) <= ScoreIn(sc, s[k])
    decreases k
  {
    if k > 0 {
      RootIsMinimal(s, sc, Parent(k));
    }
  }

  /**
   * The isLeaf defect: [1, 2, 3] (scores equal to ids) is heap-ordered, popping 1
   * leaves [3, 2], which is not, and the next pop returns 3 although 2 scores less.
   */
  lemma PopMinLeavesDisorder()
    ensures var sc := map[Vertex(1) := 1, Vertex(2) := 2, Vertex(3) := 3];
      && HeapOrdered([Vertex(1), Vertex(2), Vertex(3)], sc)
      && PopMinF([Vertex(1), Vertex(2), Vertex(3)], sc) == (Vertex(1), [Vertex(3), Vertex(2)])
      && !HeapOrdered([Vertex(3), Vertex(2)], sc)
      && PopMinF([Vertex(3), Vertex(2)], sc).0 == Vertex(3)
      && ScoreIn(sc, Vertex(2)) < ScoreIn(sc, Vertex(3))
  {
    var sc := map[Vertex(1) := 1, Vertex(2) := 2, Vertex(3) := 3];
    var s := [Vertex(1), Vertex(2), Vertex(3)];
    assert Parent(1) == 0 && Parent(2) == 0;
    var t := SwapF(s, 0, 2);
    assert t == [Vertex(3), Vertex(2), Vertex(1)];
    assert t[..2] == [Vertex(3), Vertex(2)];
    assert IsLeaf(0, 2);
  }

  class VertexHeap {
    var heap: seq<Vertex>
    var loc: map<Vertex, int>
    var scores: map<Vertex, int>

    /** Every slot's vertex is indexed at that slot. */
    ghost predicate Indexed()
      reads this
    {
      forall i | 0 <= i < |heap| :: heap[i] in loc && loc[heap[i]] == i
    }

    /** The position index: locationInHeap[heap[i]] == i, and it indexes nothing else. */
    ghost predicate Valid()
      reads this
    {
      Indexed() && forall v | v in loc :: 0 <= loc[v] < |heap| && heap[loc[v]] == v
    }

    constructor (scores: map<Vertex, int>)
      ensures Valid() && heap == [] && loc == map[] && this.scores == scores
    {
      heap := [];
      loc := map[];
      this.scores := scores;
    }

    /** VertexHeap.score: a vertex without an entry scores Integer.MAX_VALUE. */
    function Score(v: Vertex): (r: int)
      reads this
      ensures v !in scores ==> r == IntMax
      ensures v in scores ==> r == scores[v]
    {
      ScoreIn(scores, v)
    }

    function Size(): (n: nat)
      reads this
      ensures Valid() ==> n == |loc.Keys|
    {
      assert Valid() ==> loc.Keys == set i | 0 <= i < |heap| :: heap[i] by {
        if Valid() {
          assert forall v | v in loc :: v == heap[loc[v]];
        }
      }
      SizeIsKeyCount();
      |heap|
    }

    function IsEmpty(): (b: bool)
      reads this
      ensures Valid() ==> (b <==> loc.Keys == {})
    {
      assert Valid() && |heap| > 0 ==> heap[0] in loc;
      |heap| == 0
    }

    /** VertexHeap.contains: true exactly for the vertices currently in the array. */
    function Contains(v: Vertex): (b: bool)
      reads this
      ensures Valid() ==> (b <==> v in heap)
    {
      v in loc
    }

    /** Distinct slots hold distinct vertices, so the index has one key per slot. */
    lemma SizeIsKeyCount()
      ensures Valid() ==> |heap| == |loc.Keys|
    {
      if Valid() {
        KeysAreSlots(heap, loc, |heap|);
      }
    }

    /** MinHeap.swap, with VertexHeap's index updates for both slots. */
    method Swap(a: nat, b: nat)
      requires Indexed() && a < |heap| && b < |heap|
      modifies this
      ensures Indexed() && heap == SwapF(old(heap), a, b) && scores == old(scores)
      ensures loc == old(loc)[old(heap)[b] := a][old(heap)[a] := b]
      ensures loc.Keys == old(loc).Keys
    {
      heap := SwapF(heap, a, b);
      loc := loc[heap[a] := a];
      loc := loc[heap[b] := b];
    }

    /** MinHeap.percUp; `ok` is false where Java throws IllegalArgumentException. */
    method PercUp(idx: int) returns (ok: bool)
      requires Indexed()
      modifies this
      ensures ok == (0 <= idx < |old(heap)|)
      ensures Indexed() && scores == old(scores) && loc.Keys == old(loc).Keys
      ensures heap == if ok then PercUpF(old(heap), scores, idx) else old(heap)
      decreases if idx < 0 then 0 else idx
    {
      if idx < 0 || idx >= |heap| {
        return false;
      }
      if idx > 0 && Score(heap[idx]) < Score(heap[Parent(idx)]) {
        var p := Parent(idx);
        Swap(idx, p);
        var _ := PercUp(p);
      }
      return true;
    }

    /** MinHeap.percDown; `ok` is false where Java throws IllegalArgumentException. */
    method PercDown(idx: int) returns (ok: bool)
      requires Indexed()
      modifies this
      ensures ok == (0 <= idx < |old(heap)|)
      ensures Indexed() && scores == old(scores) && loc.Keys == old(loc).Keys
      ensures heap == if ok then PercDownF(old(heap), scores, idx) else old(heap)
      decreases |heap| - idx
    {
      if idx < 0 || idx >= |heap| {
        return false;
      }
      ok := true;
      if IsLeaf(idx, |heap|) {
        return;
      }
      var r := Right(idx);
      var l := Left(idx);
      if Score(heap[idx]) > Score(heap[l]) {
        if Score(heap[r]) < Score(heap[l]) {
          Swap(idx, r);
          var _ := PercDown(r);
        } else {
          Swap(idx, l);
          var _ := PercDown(l);
        }
      } else if Score(heap[idx]) > Score(heap[r]) {
        Swap(idx, r);
        var _ := PercDown(r);
      }
    }

    /**
     * VertexHeap.insert: index the vertex at the new last slot, append it, percolate up.
     * Java never checks for a vertex already present; its only caller inserts only
     * vertices the heap does not contain.
     */
    method Insert(v: Vertex)
      requires Valid() && v !in loc
      modifies this
      ensures Valid() && scores == old(scores)
      ensures heap == PercUpF(old(heap) + [v], scores, |old(heap)|)
      ensures loc.Keys == old(loc).Keys + {v}
    {
      loc := loc[v := |heap|];
      heap := heap + [v];
      var _ := PercUp(|heap| - 1);
      forall w | w in loc
        ensures 0 <= loc[w] < |heap| && heap[loc[w]] == w
      {
        assert w in multiset(old(heap) + [v]);
        assert w in multiset(heap);
      }
    }

    /**
     * VertexHeap.popMin: the root leaves the array and the index. None where
     * Java throws on an empty heap.
     */
    method PopMin() returns (r: Option<Vertex>)
      requires Valid()
      modifies this
      ensures Valid() && scores == old(scores)
      ensures old(heap) == [] ==> r == None && heap == old(heap) && loc == old(loc)
      ensures old(heap) != [] ==> r == Some(old(heap)[0])
      ensures old(heap) != [] ==> heap == PopMinF(old(heap), scores).1
      ensures old(heap) != [] ==> loc.Keys == old(loc).Keys - {old(heap)[0]} && r.value !in heap
    {
      if |heap| == 0 {
        return None;
      }
      ghost var h0, loc0 := heap, loc;
      var min := RemoveRoot();
      IndexAfterPop(h0, loc0, heap, heap, min);
      Settle(min);
      return Some(min);
    }

    /** The second half of popMin: percolate the new root down and forget the popped vertex. */
    method Settle(min: Vertex)
      requires Indexed() && min !in multiset(heap)
      requires forall w | w in loc && w != min :: w in multiset(heap)
      modifies this
      ensures Valid() && scores == old(scores) && loc.Keys == old(loc).Keys - {min} && min !in heap
      ensures heap == if |old(heap)| > 0 then PercDownF(old(heap), scores, 0) else old(heap)
    {
      ghost var h1 := heap;
      if |heap| > 0 {
        var _ := PercDown(0);
      }
      assert multiset(heap) == multiset(h1);
      UnindexAbsent(heap, loc, min);
      loc := loc - {min};
    }

    /** The first half of popMin: swap the root to the last slot and shrink the array by one. */
    method RemoveRoot() returns (min: Vertex)
      requires Valid() && |heap| > 0
      modifies this
      ensures min == old(heap)[0] && heap == DropRoot(old(heap))
      ensures Indexed() && scores == old(scores) && loc.Keys == old(loc).Keys
      ensures min !in multiset(heap) && multiset(old(heap)) == multiset(heap) + multiset{min}
    {
      min := heap[0];
      ghost var h0 := heap;
      Swap(0, |heap| - 1);
      ghost var t := heap;
      heap := heap[..|heap| - 1];
      SwapAndDropLast(h0, t, heap, loc);
    }

    /**
     * VertexHeap.updateIfSmaller: None where Java throws (the vertex is not in the
     * heap); otherwise true and the new score, percolated toward the root, exactly
     * when the new score is smaller.
     */
    method UpdateIfSmaller(v: Vertex, newScore: int) returns (r: Option<bool>)
      requires Valid()
      modifies this
      ensures Valid() && loc.Keys == old(loc).Keys && multiset(heap) == multiset(old(heap))
      ensures v !in old(loc) ==> r == None && heap == old(heap) && loc == old(loc) && scores == old(scores)
      ensures v in old(loc) ==> r == Some(newScore < old(Score(v)))
      ensures r == Some(true) ==> v in old(loc) && scores == old(scores)[v := newScore]
      ensures r == Some(true) ==> heap == PercUpF(old(heap), scores, old(loc)[v]) && loc[v] <= old(loc)[v]
      ensures r == Some(false) ==> heap == old(heap) && loc == old(loc) && scores == old(scores)
    {
      if !Contains(v) {
        return None;
      }
      if newScore < Score(v) {
        scores := scores[v := newScore];
        ghost var at := loc[v];
        var _ := PercUp(loc[v]);
        ghost var j :| 0 <= j <= at && heap[j] == v;
        forall w | w in loc
          ensures 0 <= loc[w] < |heap| && heap[loc[w]] == w
        {
          assert w in multiset(old(heap));
          assert w in multiset(heap);
        }
        return Some(true);
      }
      return Some(false);
    }

    /** VertexHeap.clear: empties the array and the index; the scores are the caller's. */
    method Clear()
      modifies this
      ensures Valid() && heap == [] && loc == map[] && scores == old(scores)
    {
      heap := [];
      loc := map[];
    }
  }

  /** Swapping the root to the end and dropping it removes exactly the root. */
  lemma SwapAndDropLast(h0: seq<Vertex>, t: seq<Vertex>, h1: seq<Vertex>, loc: map<Vertex, int>)
    requires |h0| > 0 && t == SwapF(h0, 0, |h0| - 1) && h1 == t[..|h0| - 1]
    requires forall i | 0 <= i < |t| :: t[i] in loc && loc[t[i]] == i
    ensures h0[0] !in multiset(h1) && multiset(h0) == multiset(h1) + multiset{h0[0]}
    ensures forall i | 0 <= i < |h1| :: h1[i] in loc && loc[h1[i]] == i
  {
    assert t == h1 + [h0[0]];
    forall i | 0 <= i < |h1| ensures h1[i] != h0[0] {
      assert loc[t[i]] == i && loc[t[|h1|]] == |h1|;
    }
  }

  /** An index covering the array whose every key is in the array is exact. */
  lemma CompleteIndex(h: seq<Vertex>, loc: map<Vertex, int>)
    requires forall i | 0 <= i < |h| :: h[i] in loc && loc[h[i]] == i
    requires forall w | w in loc :: w in multiset(h)
    ensures forall w | w in loc :: 0 <= loc[w] < |h| && h[loc[w]] == w
  {
    forall w | w in loc ensures 0 <= loc[w] < |h| && h[loc[w]] == w {
      assert w in h;
      var i :| 0 <= i < |h| && h[i] == w;
    }
  }

  /** Dropping a vertex that is no longer in the heap from the index leaves a complete index. */
  lemma UnindexAbsent(h: seq<Vertex>, loc: map<Vertex, int>, min: Vertex)
    requires forall i | 0 <= i < |h| :: h[i] in loc && loc[h[i]] == i
    requires min !in multiset(h)
    requires forall w | w in loc && w != min :: w in multiset(h)
    ensures forall i | 0 <= i < |h| :: h[i] in loc - {min} && (loc - {min})[h[i]] == i
    ensures forall w | w in loc - {min} :: 0 <= (loc - {min})[w] < |h| && h[(loc - {min})[w]] == w
  {
    var l := loc - {min};
    forall i | 0 <= i < |h| ensures h[i] in l && l[h[i]] == i {
      assert h[i] in multiset(h);
    }
    CompleteIndex(h, l);
  }

  /** After a pop, every remaining key of the index is still in the array. */
  lemma IndexAfterPop(h0: seq<Vertex>, loc0: map<Vertex, int>, h1: seq<Vertex>, h: seq<Vertex>, min: Vertex)
    requires forall v | v in loc0 :: 0 <= loc0[v] < |h0| && h0[loc0[v]] == v
    requires multiset(h0) == multiset(h1) + multiset{min} && multiset(h) == multiset(h1)
    ensures forall w | w in loc0 && w != min :: w in multiset(h)
  {
    forall w | w in loc0 && w != min ensures w in multiset(h) {
      assert h0[loc0[w]] == w;
      assert w in multiset(h0);
    }
  }

  /** In an index without repeated slots, the first n slots are n distinct keys. */
  lemma {:induction false} KeysAreSlots(heap: seq<Vertex>, loc: map<Vertex, int>, n: nat)
    requires n <= |heap|
    requires forall i | 0 <= i < |heap| :: heap[i] in loc && loc[heap[i]] == i
    requires forall v | v in loc :: 0 <= loc[v] < |heap| && heap[loc[v]] == v
    ensures n == |set i | 0 <= i < n :: heap[i]|
    ensures n == |heap| ==> loc.Keys == set i | 0 <= i < n :: heap[i]
  {
    if n > 0 {
      KeysAreSlots(heap, loc, n - 1);
      var prev := set i | 0 <= i < n - 1 :: heap[i];
      assert (set i | 0 <= i < n :: heap[i]) == prev + {heap[n - 1]};
      assert heap[n - 1] !in prev;
    }
    if n == |heap| {
      forall v | v in loc ensures v in set i | 0 <= i < n :: heap[i] {
        assert heap[loc[v]] == v;
      }
    }
  }
}

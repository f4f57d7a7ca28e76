// Find K Pairs with Smallest Sums: from two lists nums1 and nums2 (a and b
// here), the k pairs [nums1[i], nums2[j]] with the smallest sums. The brute
// force sorts every pair by its sum; Python's sort is stable, so pairs of
// equal sum stay in the order (i, j) they were generated in. That is the
// order of the heap tuples (sum, i, j), so the two min-heap solutions pop
// exactly the first k pairs of the brute force's list when the lists are
// ascending. The max-heap solution keeps some k pairs of smallest sums.

module KPairs {
  import opened Sorting
  import BinarySearch
  import ConstructTarget

  /** A pair of positions (i, j): the pair [nums1[i], nums2[j]]. */
  type Index = (nat, nat)

  /** Python's min on two integers. */
  function Min(x: int, y: int): (r: int)
    ensures r <= x && r <= y && (r == x || r == y)
  {
    if x <= y then x else y
  }

  predicate InRange(a: seq<int>, b: seq<int>, p: Index) {
    p.0 < |a| && p.1 < |b|
  }

  predicate AllIn(a: seq<int>, b: seq<int>, ps: seq<Index>) {
    forall t :: 0 <= t < |ps| ==> InRange(a, b, ps[t])
  }

  function PairSum(a: seq<int>, b: seq<int>, p: Index): int
    requires InRange(a, b, p)
  {
    a[p.0] + b[p.1]
  }

  /** The pairs' values [nums1[i], nums2[j]], as the solutions return them. */
  function Values(a: seq<int>, b: seq<int>, ps: seq<Index>): (r: seq<(int, int)>)
    requires AllIn(a, b, ps)
    ensures |r| == |ps|
    ensures forall t :: 0 <= t < |ps| ==> r[t] == (a[ps[t].0], b[ps[t].1])
  {
    if ps == [] then []
    else Values(a, b, ps[..|ps| - 1]) + [(a[ps[|ps| - 1].0], b[ps[|ps| - 1].1])]
  }

  // ---------------------------------------------------------------------
  // The order of the heap tuples (sum, i, j)
  // ---------------------------------------------------------------------

  /** Python's comparison of two tuples (sum, i, j). */
  predicate TupleLess(x: (int, nat, nat), y: (int, nat, nat)) {
    x.0 < y.0 || (x.0 == y.0 && (x.1 < y.1 || (x.1 == y.1 && x.2 < y.2)))
  }

  /** The heap entry of a pair. */
  function Entry(a: seq<int>, b: seq<int>, p: Index): (int, nat, nat)
    requires InRange(a, b, p)
  {
    (PairSum(a, b, p), p.0, p.1)
  }

  /** p comes before q: a smaller sum, or the same sum and generated earlier. */
  predicate Before(a: seq<int>, b: seq<int>, p: Index, q: Index)
    requires InRange(a, b, p) && InRange(a, b, q)
  {
    TupleLess(Entry(a, b, p), Entry(a, b, q))
  }

  /** Generation order of the brute force: row by row. */
  predicate IndexLess(p: Index, q: Index) {
    p.0 < q.0 || (p.0 == q.0 && p.1 < q.1)
  }

  ghost predicate Increasing(a: seq<int>, b: seq<int>, ps: seq<Index>) {
    AllIn(a, b, ps) && forall s, t :: 0 <= s < t < |ps| ==> Before(a, b, ps[s], ps[t])
  }

  /** Every pair that comes before a listed pair is listed too. */
  ghost predicate Closed(a: seq<int>, b: seq<int>, ps: seq<Index>)
    requires AllIn(a, b, ps)
  {
    forall p: Index, t :: InRange(a, b, p) && 0 <= t < |ps| && Before(a, b, p, ps[t]) ==> p in ps
  }

  /** ps lists the first min(k, m * n) pairs in (sum, i, j) order. */
  ghost predicate FirstByKey(a: seq<int>, b: seq<int>, k: nat, ps: seq<Index>) {
    |ps| == Min(k, |a| * |b|) && Increasing(a, b, ps) && Closed(a, b, ps)
  }

  /** ps holds min(k, m * n) distinct pairs and no pair left out has a smaller sum than one kept. */
  ghost predicate KSmallest(a: seq<int>, b: seq<int>, k: nat, ps: seq<Index>) {
    && |ps| == Min(k, |a| * |b|)
    && AllIn(a, b, ps)
    && (forall s, t :: 0 <= s < t < |ps| ==> ps[s] != ps[t])
    && (forall p: Index, t :: InRange(a, b, p) && p !in ps && 0 <= t < |ps| ==> PairSum(a, b, ps[t]) <= PairSum(a, b, p))
  }

  /** Two lists of the first pairs of the same length are equal. */
  lemma FirstUnique(a: seq<int>, b: seq<int>, k: nat, x: seq<Index>, y: seq<Index>)
    requires FirstByKey(a, b, k, x) && FirstByKey(a, b, k, y)
    ensures x == y
  {
    if x != y {
      var s := FirstDiff(x, y);
      Misplaced(a, b, x, y, s);
      Misplaced(a, b, y, x, s);
      assert false;
    }
  }

  /** The first position where two lists of equal length differ. */
  function FirstDiff(x: seq<Index>, y: seq<Index>): (s: nat)
    requires |x| == |y| && x != y
    ensures s < |x| && x[s] != y[s] && x[..s] == y[..s]
  {
    if x[0] != y[0] then 0
    else
      var s := FirstDiff(x[1..], y[1..]);
      assert x[..s + 1] == [x[0]] + x[1..][..s];
      assert y[..s + 1] == [y[0]] + y[1..][..s];
      s + 1
  }

  /** At the first difference, x's pair does not come before y's. */
  lemma Misplaced(a: seq<int>, b: seq<int>, x: seq<Index>, y: seq<Index>, s: nat)
    requires |x| == |y| && Increasing(a, b, x) && Increasing(a, b, y) && Closed(a, b, y)
    requires s < |x| && x[s] != y[s] && x[..s] == y[..s]
    ensures !Before(a, b, x[s], y[s])
  {
    if x[s] in y {
      forall u | 0 <= u < s ensures y[u] != x[s] {
        assert y[u] == x[..s][u] == x[u];
      }
      var u :| 0 <= u < |y| && y[u] == x[s];
      assert s < u;
    }
  }

  // ---------------------------------------------------------------------
  // The brute force: every pair, stably sorted by sum, first k
  // ---------------------------------------------------------------------

  /** Row i of the pairs, (i, 0), ..., (i, n - 1). */
  function Row(i: nat, n: nat): (r: seq<Index>)
    ensures |r| == n && forall t :: 0 <= t < n ==> r[t] == (i, t)
  {
    if n == 0 then [] else Row(i, n - 1) + [(i, n - 1)]
  }

  /** The pairs in the order the nested loops generate them. */
  function Grid(m: nat, n: nat): (r: seq<Index>)
    ensures |r| == m * n
    ensures forall t :: 0 <= t < |r| ==> r[t].0 < m && r[t].1 < n
  {
    if m == 0 then []
    else
      assert (m - 1) * n + n == m * n;
      Grid(m - 1, n) + Row(m - 1, n)
  }

  lemma {:induction false} GridAscending(m: nat, n: nat)
    ensures Generated(Grid(m, n))
  {
    if m > 0 {
      GridAscending(m - 1, n);
    }
  }

  lemma {:induction false} GridCovers(m: nat, n: nat, p: Index)
    requires p.0 < m && p.1 < n
    ensures p in Grid(m, n)
  {
    if p.0 == m - 1 {
      assert Grid(m, n)[(m - 1) * n + p.1] == Row(m - 1, n)[p.1];
    } else {
      GridCovers(m - 1, n, p);
    }
  }

  /** Insert p after every pair whose sum is not above p's, as a stable sort places the later of equal keys. */
  function InsertBySum(a: seq<int>, b: seq<int>, ps: seq<Index>, p: Index): (r: seq<Index>)
    requires AllIn(a, b, ps) && InRange(a, b, p)
    ensures multiset(r) == multiset(ps) + multiset{p} && AllIn(a, b, r) && |r| == |ps| + 1
  {
    if ps == [] then [p]
    else if PairSum(a, b, p) < PairSum(a, b, ps[0]) then [p] + ps
    else
      assert ps == [ps[0]] + ps[1..];
      [ps[0]] + InsertBySum(a, b, ps[1..], p)
  }

  /** pairs.sort(key=sum), stable. */
  function SortBySum(a: seq<int>, b: seq<int>, ps: seq<Index>): (r: seq<Index>)
    requires AllIn(a, b, ps)
    ensures multiset(r) == multiset(ps) && AllIn(a, b, r) && |r| == |ps|
  {
    if ps == [] then []
    else
      var n := |ps| - 1;
      assert ps == ps[..n] + [ps[n]];
      InsertBySum(a, b, SortBySum(a, b, ps[..n]), ps[n])
  }

  /** pairs[:k]. */
  function Take(ps: seq<Index>, k: nat): (r: seq<Index>)
    ensures |r| == Min(k, |ps|) && r == ps[..|r|]
  {
    if k < |ps| then ps[..k] else ps
  }

  /** The brute force's answer, as positions. */
  function ByKey(a: seq<int>, b: seq<int>, k: nat): seq<Index> {
    Take(SortBySum(a, b, Grid(|a|, |b|)), k)
  }

  lemma {:induction false} InsertIncreasing(a: seq<int>, b: seq<int>, ps: seq<Index>, p: Index)
    requires Increasing(a, b, ps) && InRange(a, b, p)
    requires forall t :: 0 <= t < |ps| ==> IndexLess(ps[t], p)
    ensures Increasing(a, b, InsertBySum(a, b, ps, p))
  {
    if ps != [] && PairSum(a, b, p) >= PairSum(a, b, ps[0]) {
      var tail := InsertBySum(a, b, ps[1..], p);
      InsertIncreasing(a, b, ps[1..], p);
      forall t | 0 <= t < |tail| ensures Before(a, b, ps[0], tail[t]) {
        assert tail[t] in multiset(ps[1..]) + multiset{p};
      }
    }
  }

  /** Strictly ascending in generation order. */
  ghost predicate Generated(ps: seq<Index>) {
    forall s, t :: 0 <= s < t < |ps| ==> IndexLess(ps[s], ps[t])
  }

  lemma {:induction false} SortIncreasing(a: seq<int>, b: seq<int>, ps: seq<Index>)
    requires AllIn(a, b, ps) && Generated(ps)
    ensures Increasing(a, b, SortBySum(a, b, ps))
  {
    if ps != [] {
      var n := |ps| - 1;
      var init := ps[..n];
      assert Generated(init) && AllIn(a, b, init);
      var sorted := SortBySum(a, b, init);
      SortIncreasing(a, b, init);
      forall t | 0 <= t < |sorted| ensures IndexLess(sorted[t], ps[n]) {
        LastAfter(ps, sorted[t]);
      }
      InsertIncreasing(a, b, sorted, ps[n]);
    }
  }

  lemma LastAfter(ps: seq<Index>, x: Index)
    requires Generated(ps) && |ps| > 0 && x in multiset(ps[..|ps| - 1])
    ensures IndexLess(x, ps[|ps| - 1])
  {
    var u :| 0 <= u < |ps| - 1 && ps[..|ps| - 1][u] == x;
    assert ps[u] == x;
  }

  /** The brute force lists the first min(k, m * n) pairs in (sum, i, j) order, for any lists. */
  lemma ByKeyFirst(a: seq<int>, b: seq<int>, k: nat)
    ensures FirstByKey(a, b, k, ByKey(a, b, k))
  {
    var grid := Grid(|a|, |b|);
    var sorted := SortBySum(a, b, grid);
    GridAscending(|a|, |b|);
    SortIncreasing(a, b, grid);
    var r := ByKey(a, b, k);
    assert Increasing(a, b, r) by {
      assert r == sorted[..|r|];
      PrefixIncreasing(a, b, sorted, |r|);
    }
    forall p: Index, t | InRange(a, b, p) && 0 <= t < |r| && Before(a, b, p, r[t]) ensures p in r {
      GridCovers(|a|, |b|, p);
      SortedHas(a, b, grid, p);
      InPrefix(a, b, sorted, |r|, p, t);
    }
  }

  lemma SortedHas(a: seq<int>, b: seq<int>, ps: seq<Index>, p: Index)
    requires AllIn(a, b, ps) && p in ps
    ensures p in SortBySum(a, b, ps)
  {
    assert p in multiset(ps);
  }

  /** In an increasing list, a listed pair that comes before position t < n is among the first n. */
  lemma InPrefix(a: seq<int>, b: seq<int>, ps: seq<Index>, n: nat, p: Index, t: nat)
    requires Increasing(a, b, ps) && p in ps && t < n <= |ps| && Before(a, b, p, ps[t])
    ensures p in ps[..n]
  {
    var u :| 0 <= u < |ps| && ps[u] == p;
    assert ps[..n][u] == p;
  }

  lemma PrefixIncreasing(a: seq<int>, b: seq<int>, ps: seq<Index>, n: nat)
    requires Increasing(a, b, ps) && n <= |ps|
    ensures Increasing(a, b, ps[..n])
  {
  }


  /** The first pairs by key are k pairs of smallest sums, each listed once. */
  lemma FirstIsSmallest(a: seq<int>, b: seq<int>, k: nat, ps: seq<Index>)
    requires FirstByKey(a, b, k, ps)
    ensures KSmallest(a, b, k, ps)
  {
    forall p: Index, t | InRange(a, b, p) && p !in ps && 0 <= t < |ps|
      ensures PairSum(a, b, ps[t]) <= PairSum(a, b, p)
    {
      assert !Before(a, b, p, ps[t]);
    }
  }

  /** The brute force's sums do not decrease and no pair is listed twice. */
  lemma ByKeyAscending(a: seq<int>, b: seq<int>, k: nat)
    ensures AllIn(a, b, ByKey(a, b, k))
    ensures forall s, t :: 0 <= s < t < |ByKey(a, b, k)| ==>
      PairSum(a, b, ByKey(a, b, k)[s]) <= PairSum(a, b, ByKey(a, b, k)[t]) && ByKey(a, b, k)[s] != ByKey(a, b, k)[t]
  {
    ByKeyFirst(a, b, k);
  }

  /** kSmallestPairs_bruteforce: every pair in the nested loops' order, sorted by sum, the first k.
      A generated entry carries its positions (i, j), from which its sum and its values are read. */
  method KSmallestPairsBruteForce(a: seq<int>, b: seq<int>, k: nat) returns (result: seq<(int, int)>)
    ensures result == Values(a, b, ByKey(a, b, k))
  {
    var pairs: seq<Index> := [];
    for i := 0 to |a|
      invariant pairs == Grid(i, |b|)
    {
      for j := 0 to |b|
        invariant pairs == Grid(i, |b|) + Row(i, j)
      {
        pairs := pairs + [(i, j)];
      }
    }
    var sorted := SortBySum(a, b, pairs);
    result := Values(a, b, Take(sorted, k));
  }

  // ---------------------------------------------------------------------
  // The min-heap solutions
  // ---------------------------------------------------------------------

  /** The heap's contents: entries (sum, i, j) with distinct (i, j), so a set. */
  type Heap = set<(int, nat, nat)>

  /** e is the tuple heappop returns. */
  predicate Least(heap: Heap, e: (int, nat, nat)) {
    e in heap && forall f :: f in heap ==> !TupleLess(f, e)
  }

  lemma {:induction false} LeastExists(heap: Heap) returns (e: (int, nat, nat))
    requires heap != {}
    ensures Least(heap, e)
    decreases |heap|
  {
    var x :| x in heap;
    if heap == {x} {
      e := x;
    } else {
      var y := LeastExists(heap - {x});
      e := if TupleLess(x, y) then x else y;
      forall f | f in heap ensures !TupleLess(f, e) {
        if f != x {
          assert f in heap - {x};
        }
      }
    }
  }

  /** The heap holds, for each of the first r rows not used up, the entry of its first
      pair not yet popped; idx lists the popped pairs and next[i] counts those of row i. */
  ghost predicate Frontier(a: seq<int>, b: seq<int>, r: nat, heap: Heap, idx: seq<Index>, next: seq<nat>) {
    && r <= |a| && |next| == r
    && (forall i :: 0 <= i < r ==> next[i] <= |b|)
    && (forall e :: e in heap ==> e.1 < r && e.2 == next[e.1] && e.2 < |b| && e.0 == a[e.1] + b[e.2])
    && (forall i: nat :: i < r && next[i] < |b| ==> (a[i] + b[next[i]], i, next[i]) in heap)
    && (forall t :: 0 <= t < |idx| ==> idx[t].0 < r && idx[t].1 < next[idx[t].0])
    && (forall i: nat, j: nat :: i < r && j < next[i] ==> (i, j) in idx)
    && |idx| == Sum(next)
  }

  /** The popped pairs come first by key, ahead of every heap entry. */
  ghost predicate Ranked(a: seq<int>, b: seq<int>, heap: Heap, idx: seq<Index>) {
    && Increasing(a, b, idx) && Closed(a, b, idx)
    && (forall t, e :: 0 <= t < |idx| && e in heap ==> TupleLess(Entry(a, b, idx[t]), e))
  }

  /** What the pops rely on: nums2 ascending, and nums1 ascending when rows past the first k stay out. */
  ghost predicate Ordered(a: seq<int>, b: seq<int>, k: nat, r: nat) {
    BinarySearch.Sorted(b) && (r == |a| || (r == k && BinarySearch.Sorted(a)))
  }

  /** The heap after popping e and pushing the next pair of e's row, if any. */
  function Refill(a: seq<int>, b: seq<int>, heap: Heap, e: (int, nat, nat)): Heap
    requires e.1 < |a| && e.2 < |b|
  {
    if e.2 + 1 < |b| then heap - {e} + {(a[e.1] + b[e.2 + 1], e.1, e.2 + 1)} else heap - {e}
  }

  lemma StartRow(a: seq<int>, b: seq<int>, i: nat, heap: Heap, next: seq<nat>)
    requires Frontier(a, b, i, heap, [], next) && i < |a| && |b| > 0
    ensures Frontier(a, b, i + 1, heap + {(a[i] + b[0], i, 0)}, [], next + [0])
  {
    SumAppend(next, [0]);
    assert Sum([0]) == 0 + Sum([]);
  }

  lemma {:induction false} EmptyRow(next: seq<nat>) returns (i: nat)
    requires Sum(next) < |next|
    ensures i < |next| && next[i] == 0
  {
    if next[0] == 0 {
      i := 0;
    } else {
      var j := EmptyRow(next[1..]);
      i := j + 1;
    }
  }

  lemma PopFrontier(a: seq<int>, b: seq<int>, r: nat, heap: Heap, idx: seq<Index>, next: seq<nat>, e: (int, nat, nat))
    requires Frontier(a, b, r, heap, idx, next) && e in heap
    ensures e.1 < |a| && e.2 < |b|
    ensures Frontier(a, b, r, Refill(a, b, heap, e), idx + [(e.1, e.2)], next[e.1 := e.2 + 1])
  {
    ConstructTarget.SumUpdate(next, e.1, e.2 + 1);
  }

  /** A pair of a heap row that is not popped yet does not come before the least entry. */
  lemma RowNotBefore(a: seq<int>, b: seq<int>, r: nat, heap: Heap, idx: seq<Index>, next: seq<nat>, e: (int, nat, nat), p: Index)
    requires Frontier(a, b, r, heap, idx, next) && Least(heap, e) && BinarySearch.Sorted(b)
    requires InRange(a, b, p) && p.0 < r && p !in idx
    ensures !TupleLess(Entry(a, b, p), e)
  {
    var g := (a[p.0] + b[next[p.0]], p.0, next[p.0]);
    assert g in heap;
  }

  /** A pair of a row past the first k does not come before the least entry while fewer than k are popped. */
  lemma FarRowNotBefore(a: seq<int>, b: seq<int>, k: nat, r: nat, heap: Heap, idx: seq<Index>, next: seq<nat>, e: (int, nat, nat), p: Index)
    requires Frontier(a, b, r, heap, idx, next) && Least(heap, e) && BinarySearch.Sorted(a) && BinarySearch.Sorted(b)
    requires r == k && |idx| < k && InRange(a, b, p) && p.0 >= r
    ensures !TupleLess(Entry(a, b, p), e)
  {
    var i := EmptyRow(next);
    var q: Index := (i, 0);
    assert q !in idx;
    RowNotBefore(a, b, r, heap, idx, next, e, q);
    assert TupleLess(Entry(a, b, q), Entry(a, b, p));
  }

  /** No pair left to pop comes before the least entry. */
  lemma LeastIsNext(a: seq<int>, b: seq<int>, k: nat, r: nat, heap: Heap, idx: seq<Index>, next: seq<nat>, e: (int, nat, nat))
    requires Frontier(a, b, r, heap, idx, next) && Least(heap, e) && Ordered(a, b, k, r) && |idx| < k
    ensures forall p: Index :: InRange(a, b, p) && p !in idx ==> !TupleLess(Entry(a, b, p), e)
  {
    forall p: Index | InRange(a, b, p) && p !in idx ensures !TupleLess(Entry(a, b, p), e) {
      if p.0 < r {
        RowNotBefore(a, b, r, heap, idx, next, e, p);
      } else {
        FarRowNotBefore(a, b, k, r, heap, idx, next, e, p);
      }
    }
  }

  lemma PopRanked(a: seq<int>, b: seq<int>, k: nat, r: nat, heap: Heap, idx: seq<Index>, next: seq<nat>, e: (int, nat, nat))
    requires Frontier(a, b, r, heap, idx, next) && Ranked(a, b, heap, idx) && Least(heap, e)
    requires Ordered(a, b, k, r) && |idx| < k
    ensures e.1 < |a| && e.2 < |b|
    ensures Ranked(a, b, Refill(a, b, heap, e), idx + [(e.1, e.2)])
  {
    var pe: Index := (e.1, e.2);
    assert Entry(a, b, pe) == e;
    LeastIsNext(a, b, k, r, heap, idx, next, e);
    AppendClosed(a, b, idx, pe);
    AppendIncreasing(a, b, idx, pe);
    RefillBound(a, b, heap, idx, e);
  }

  lemma AppendClosed(a: seq<int>, b: seq<int>, idx: seq<Index>, p: Index)
    requires AllIn(a, b, idx) && Closed(a, b, idx) && InRange(a, b, p)
    requires forall q: Index :: InRange(a, b, q) && q !in idx ==> !Before(a, b, q, p)
    ensures AllIn(a, b, idx + [p]) && Closed(a, b, idx + [p])
  {
    var idx' := idx + [p];
    forall q: Index, t | InRange(a, b, q) && 0 <= t < |idx'| && Before(a, b, q, idx'[t]) ensures q in idx' {
      if t < |idx| {
        assert idx'[t] == idx[t];
      }
    }
  }

  lemma AppendIncreasing(a: seq<int>, b: seq<int>, idx: seq<Index>, p: Index)
    requires Increasing(a, b, idx) && InRange(a, b, p)
    requires forall t :: 0 <= t < |idx| ==> Before(a, b, idx[t], p)
    ensures Increasing(a, b, idx + [p])
  {
  }

  lemma RefillBound(a: seq<int>, b: seq<int>, heap: Heap, idx: seq<Index>, e: (int, nat, nat))
    requires AllIn(a, b, idx) && Least(heap, e) && e.1 < |a| && e.2 < |b| && e.0 == a[e.1] + b[e.2]
    requires BinarySearch.Sorted(b)
    requires forall t, f :: 0 <= t < |idx| && f in heap ==> TupleLess(Entry(a, b, idx[t]), f)
    ensures forall t, f :: 0 <= t < |idx| + 1 && f in Refill(a, b, heap, e) ==> TupleLess(Entry(a, b, (idx + [(e.1, e.2)])[t]), f)
  {
  }

  lemma {:induction false} SumAtMost(next: seq<nat>, n: nat)
    requires forall i :: 0 <= i < |next| ==> next[i] <= n
    ensures Sum(next) <= |next| * n
  {
    if next != [] {
      SumAtMost(next[1..], n);
      assert (|next| - 1) * n + n == |next| * n;
    }
  }

  lemma {:induction false} SumFull(next: seq<nat>, n: nat)
    requires forall i :: 0 <= i < |next| ==> next[i] == n
    ensures Sum(next) == |next| * n
  {
    if next != [] {
      SumFull(next[1..], n);
      assert (|next| - 1) * n + n == |next| * n;
    }
  }

  /** When the loop stops, min(k, m * n) pairs are popped. */
  lemma PoppedCount(a: seq<int>, b: seq<int>, k: nat, r: nat, heap: Heap, idx: seq<Index>, next: seq<nat>)
    requires Frontier(a, b, r, heap, idx, next) && |idx| <= k && (heap == {} || |idx| == k)
    requires r == |a| || r == k
    ensures |idx| == Min(k, |a| * |b|)
  {
    if heap == {} {
      assert forall i :: 0 <= i < r ==> next[i] == |b|;
      SumFull(next, |b|);
      AllPopped(|a|, |b|, k, r, |idx|);
    } else {
      SumAtMost(next, |b|);
      MulMono(r, |a|, |b|);
    }
  }

  lemma AllPopped(m: nat, n: nat, k: nat, r: nat, popped: nat)
    requires popped == r * n && popped <= k && r <= m && (r == m || r == k)
    ensures popped == Min(k, m * n)
  {
    if r != m && n > 0 {
      MulMono(1, n, r);
      MulMono(1, n, m);
    }
  }

  lemma MulMono(x: nat, y: nat, z: nat)
    requires x <= y
    ensures x * z <= y * z
  {
  }

  /** Popped pairs that come first by key, as many as the brute force lists, are its list. */
  lemma Settle(a: seq<int>, b: seq<int>, k: nat, heap: Heap, idx: seq<Index>)
    requires Ranked(a, b, heap, idx) && |idx| == Min(k, |a| * |b|)
    ensures idx == ByKey(a, b, k)
  {
    ByKeyFirst(a, b, k);
    FirstUnique(a, b, k, idx, ByKey(a, b, k));
  }

  lemma ValuesAppend(a: seq<int>, b: seq<int>, ps: seq<Index>, p: Index)
    requires AllIn(a, b, ps) && InRange(a, b, p)
    ensures AllIn(a, b, ps + [p]) && Values(a, b, ps + [p]) == Values(a, b, ps) + [(a[p.0], b[p.1])]
  {
    assert (ps + [p])[..|ps|] == ps;
  }

  /** One turn of the loop: heappop the least entry (sum, i, j), then heappush (i, j + 1) when
      row i has a next pair. The popped pair extends the listed ones. */
  method PopPush(a: seq<int>, b: seq<int>, k: nat, r: nat, heap: Heap, ghost idx: seq<Index>, ghost next: seq<nat>)
    returns (heap': Heap, e: (int, nat, nat))
    requires Frontier(a, b, r, heap, idx, next) && heap != {} && |idx| < k
    requires Ordered(a, b, k, r) ==> Ranked(a, b, heap, idx)
    ensures e.1 < r && e.1 < |a| && e.2 < |b|
    ensures Frontier(a, b, r, heap', idx + [(e.1, e.2)], next[e.1 := e.2 + 1])
    ensures Ordered(a, b, k, r) ==> Ranked(a, b, heap', idx + [(e.1, e.2)])
  {
    ghost var e0 := LeastExists(heap);
    e :| e in heap && Least(heap, e);
    heap' := heap - {e};
    var (_, i, j) := e;
    if j + 1 < |b| {
      heap' := heap' + {(a[i] + b[j + 1], i, j + 1)};
    }
    assert heap' == Refill(a, b, heap, e);
    PopFrontier(a, b, r, heap, idx, next, e);
    if Ordered(a, b, k, r) {
      PopRanked(a, b, k, r, heap, idx, next, e);
    }
  }

  /** The shared loop of the two min-heap solutions: pop the least entry, record its pair,
      push the next pair of its row; stop after k pairs or when the heap is empty. */
  method PopPairs(a: seq<int>, b: seq<int>, k: nat, r: nat, heap0: Heap, ghost next0: seq<nat>)
    returns (result: seq<(int, int)>)
    requires Frontier(a, b, r, heap0, [], next0) && (r == |a| || r == k)
    ensures |result| == Min(k, |a| * |b|)
    ensures Ordered(a, b, k, r) ==> result == Values(a, b, ByKey(a, b, k))
  {
    result := [];
    var heap := heap0;
    ghost var idx: seq<Index> := [];
    ghost var next: seq<nat> := next0;
    while heap != {} && |result| < k
      invariant Frontier(a, b, r, heap, idx, next) && result == Values(a, b, idx) && |idx| <= k
      invariant Ordered(a, b, k, r) ==> Ranked(a, b, heap, idx)
      decreases k - |result|
    {
      var e;
      heap, e := PopPush(a, b, k, r, heap, idx, next);
      var (_, i, j) := e;
      ValuesAppend(a, b, idx, (i, j));
      result := result + [(a[i], b[j])];
      idx := idx + [(e.1, e.2)];
      next := next[e.1 := e.2 + 1];
    }
    PoppedCount(a, b, k, r, heap, idx, next);
    if Ordered(a, b, k, r) {
      Settle(a, b, k, heap, idx);
    }
  }

  /** The heap's start, shared by the two min-heap solutions: (nums1[i] + nums2[0], i, 0) for each i < r. */
  method StartRows(a: seq<int>, b: seq<int>, r: nat) returns (heap: Heap, ghost next: seq<nat>)
    requires r <= |a| && (r == 0 || |b| > 0)
    ensures Frontier(a, b, r, heap, [], next)
  {
    heap := {};
    next := [];
    for i := 0 to r
      invariant Frontier(a, b, i, heap, [], next)
    {
      StartRow(a, b, i, heap, next);
      heap := heap + {(a[i] + b[0], i, 0)};
      next := next + [0];
    }
  }

  /** kSmallestPairs: the first min(k, m) rows enter the heap with nums2[0]. nums2[0] is read
      only when that range is not empty, so nums2 may be empty only then. */
  method KSmallestPairs(a: seq<int>, b: seq<int>, k: nat) returns (result: seq<(int, int)>)
    requires |b| > 0 || k == 0 || |a| == 0
    ensures |result| == Min(k, |a| * |b|)
    ensures BinarySearch.Sorted(a) && BinarySearch.Sorted(b) ==> result == Values(a, b, ByKey(a, b, k))
  {
    var r := Min(k, |a|);
    var heap, next := StartRows(a, b, r);
    result := PopPairs(a, b, k, r, heap, next);
  }

  /** kSmallestPairs_optimized_minheap: [] when either list is empty, else every row enters the heap. */
  method KSmallestPairsOptimizedMinHeap(a: seq<int>, b: seq<int>, k: nat) returns (result: seq<(int, int)>)
    ensures |result| == Min(k, |a| * |b|)
    ensures BinarySearch.Sorted(b) ==> result == Values(a, b, ByKey(a, b, k))
  {
    if |a| == 0 || |b| == 0 {
      assert |a| * |b| == 0;
      return [];
    }
    var heap, next := StartRows(a, b, |a|);
    result := PopPairs(a, b, k, |a|, heap, next);
  }

  // ---------------------------------------------------------------------
  // The max-heap solution
  // ---------------------------------------------------------------------

  /** Python's comparison of the max-heap entries (-sum, [num1, num2]): p's entry is below q's. */
  predicate TopFirst(a: seq<int>, b: seq<int>, p: Index, q: Index)
    requires InRange(a, b, p) && InRange(a, b, q)
  {
    var x, y := -PairSum(a, b, p), -PairSum(a, b, q);
    x < y || (x == y && (a[p.0] < a[q.0] || (a[p.0] == a[q.0] && b[p.1] < b[q.1])))
  }

  /** max_heap[0]: a position of an entry no other entry is below, so of a largest sum. */
  function TopAt(a: seq<int>, b: seq<int>, heap: seq<Index>): (t: nat)
    requires AllIn(a, b, heap) && |heap| > 0
    ensures t < |heap| && forall u :: 0 <= u < |heap| ==> !TopFirst(a, b, heap[u], heap[t])
    ensures forall u :: 0 <= u < |heap| ==> PairSum(a, b, heap[u]) <= PairSum(a, b, heap[t])
  {
    if |heap| == 1 then 0
    else
      var t := TopAt(a, b, heap[..|heap| - 1]);
      if TopFirst(a, b, heap[|heap| - 1], heap[t]) then |heap| - 1 else t
  }

  /** After the pairs before (i, j) in generation order: the heap holds min(k, i * n + j)
      distinct pairs among them, and all of them while it holds fewer than k. */
  ghost predicate Kept(a: seq<int>, b: seq<int>, k: nat, heap: seq<Index>, i: nat, j: nat) {
    && i <= |a| && j <= |b|
    && |heap| == Min(k, i * |b| + j)
    && AllIn(a, b, heap)
    && (forall t :: 0 <= t < |heap| ==> IndexLess(heap[t], (i, j)))
    && (forall s, t :: 0 <= s < t < |heap| ==> heap[s] != heap[t])
    && (|heap| < k ==> forall p: Index :: InRange(a, b, p) && IndexLess(p, (i, j)) ==> p in heap)
  }

  /** No pair before (i, j) that the heap left out has a smaller sum than one it holds. */
  ghost predicate Smallest(a: seq<int>, b: seq<int>, heap: seq<Index>, i: nat, j: nat)
    requires AllIn(a, b, heap)
  {
    forall p: Index, t :: InRange(a, b, p) && IndexLess(p, (i, j)) && p !in heap && 0 <= t < |heap| ==>
      PairSum(a, b, heap[t]) <= PairSum(a, b, p)
  }

  lemma PushStep(a: seq<int>, b: seq<int>, k: nat, heap: seq<Index>, i: nat, j: nat)
    requires Kept(a, b, k, heap, i, j) && i < |a| && j < |b| && |heap| < k
    ensures Kept(a, b, k, heap + [(i, j)], i, j + 1) && Smallest(a, b, heap + [(i, j)], i, j + 1)
  {
  }

  lemma ReplaceStep(a: seq<int>, b: seq<int>, k: nat, heap: seq<Index>, i: nat, j: nat, top: nat)
    requires Kept(a, b, k, heap, i, j) && i < |a| && j < |b| && |heap| == k > 0 && top == TopAt(a, b, heap)
    requires a[i] + b[j] < PairSum(a, b, heap[top])
    ensures Kept(a, b, k, heap[top := (i, j)], i, j + 1)
    ensures Smallest(a, b, heap, i, j) ==> Smallest(a, b, heap[top := (i, j)], i, j + 1)
  {
    assert (i, j) !in heap by {
      forall t | 0 <= t < |heap| ensures heap[t] != (i, j) {
        assert IndexLess(heap[t], (i, j));
      }
    }
    if Smallest(a, b, heap, i, j) {
      ReplaceSmallest(a, b, heap, i, j, top);
    }
  }

  lemma ReplaceSmallest(a: seq<int>, b: seq<int>, heap: seq<Index>, i: nat, j: nat, top: nat)
    requires AllIn(a, b, heap) && i < |a| && j < |b| && |heap| > 0 && top == TopAt(a, b, heap)
    requires (i, j) !in heap && a[i] + b[j] < PairSum(a, b, heap[top]) && Smallest(a, b, heap, i, j)
    ensures AllIn(a, b, heap[top := (i, j)]) && Smallest(a, b, heap[top := (i, j)], i, j + 1)
  {
    var heap' := heap[top := (i, j)];
    forall p: Index, t | InRange(a, b, p) && IndexLess(p, (i, j + 1)) && p !in heap' && 0 <= t < |heap'|
      ensures PairSum(a, b, heap'[t]) <= PairSum(a, b, p)
    {
      ReplacedBelow(a, b, heap, i, j, top, p, t);
    }
  }

  lemma ReplacedBelow(a: seq<int>, b: seq<int>, heap: seq<Index>, i: nat, j: nat, top: nat, p: Index, t: nat)
    requires AllIn(a, b, heap) && i < |a| && j < |b| && |heap| > 0 && top == TopAt(a, b, heap)
    requires a[i] + b[j] < PairSum(a, b, heap[top]) && Smallest(a, b, heap, i, j)
    requires InRange(a, b, p) && IndexLess(p, (i, j + 1)) && p !in heap[top := (i, j)] && t < |heap|
    ensures AllIn(a, b, heap[top := (i, j)]) && PairSum(a, b, heap[top := (i, j)][t]) <= PairSum(a, b, p)
  {
    var heap' := heap[top := (i, j)];
    assert heap'[top] == (i, j);
    if p != heap[top] {
      forall u | 0 <= u < |heap| ensures heap[u] != p {
        if u != top {
          assert heap'[u] == heap[u];
        }
      }
      assert PairSum(a, b, heap[top]) <= PairSum(a, b, p);
    }
  }

  lemma BreakStep(a: seq<int>, b: seq<int>, k: nat, heap: seq<Index>, i: nat, j: nat, top: nat)
    requires Kept(a, b, k, heap, i, j) && i < |a| && j < |b| && |heap| == k > 0 && top == TopAt(a, b, heap)
    requires a[i] + b[j] >= PairSum(a, b, heap[top])
    ensures Kept(a, b, k, heap, i, |b|)
    ensures BinarySearch.Sorted(b) && Smallest(a, b, heap, i, j) ==> Smallest(a, b, heap, i, |b|)
  {
    var done := i * |b|;
    assert k <= done + j <= done + |b|;
    forall t | 0 <= t < |heap| ensures IndexLess(heap[t], (i, |b|)) {
      assert IndexLess(heap[t], (i, j));
    }
    if BinarySearch.Sorted(b) && Smallest(a, b, heap, i, j) {
      RestOfRow(a, b, heap, i, j, top);
    }
  }

  /** With nums2 ascending, the pairs left in row i have sums no smaller than the top's. */
  lemma RestOfRow(a: seq<int>, b: seq<int>, heap: seq<Index>, i: nat, j: nat, top: nat)
    requires AllIn(a, b, heap) && i < |a| && j < |b| && |heap| > 0 && top == TopAt(a, b, heap)
    requires a[i] + b[j] >= PairSum(a, b, heap[top])
    requires BinarySearch.Sorted(b) && Smallest(a, b, heap, i, j)
    ensures Smallest(a, b, heap, i, |b|)
  {
    forall p: Index, t | InRange(a, b, p) && IndexLess(p, (i, |b|)) && p !in heap && 0 <= t < |heap|
      ensures PairSum(a, b, heap[t]) <= PairSum(a, b, p)
    {
      if !IndexLess(p, (i, j)) {
        assert p.0 == i && j <= p.1;
        assert b[j] <= b[p.1];
      }
    }
  }

  lemma NextRow(a: seq<int>, b: seq<int>, k: nat, heap: seq<Index>, i: nat)
    requires Kept(a, b, k, heap, i, |b|) && i < |a|
    ensures Kept(a, b, k, heap, i + 1, 0)
    ensures Smallest(a, b, heap, i, |b|) ==> Smallest(a, b, heap, i + 1, 0)
  {
    assert i * |b| + |b| == (i + 1) * |b|;
  }

  lemma KeptAll(a: seq<int>, b: seq<int>, k: nat, heap: seq<Index>)
    requires Kept(a, b, k, heap, |a|, 0)
    ensures |heap| == Min(k, |a| * |b|)
    ensures Smallest(a, b, heap, |a|, 0) ==> KSmallest(a, b, k, heap)
  {
  }

  /** The inner loop of kSmallestPairs_maxheap over row i: push while fewer than k are kept,
      else replace the top when the sum is smaller, else break out of the row. */
  method ScanRow(a: seq<int>, b: seq<int>, k: nat, heap0: seq<Index>, i: nat) returns (heap: seq<Index>)
    requires Kept(a, b, k, heap0, i, 0) && i < |a| && (k > 0 || |b| == 0)
    ensures Kept(a, b, k, heap, i + 1, 0)
    ensures BinarySearch.Sorted(b) && Smallest(a, b, heap0, i, 0) ==> Smallest(a, b, heap, i + 1, 0)
  {
    heap := heap0;
    ghost var smallest := BinarySearch.Sorted(b) && Smallest(a, b, heap0, i, 0);
    for j := 0 to |b|
      invariant Kept(a, b, k, heap, i, j) && (smallest ==> Smallest(a, b, heap, i, j))
    {
      var currentSum := a[i] + b[j];
      if |heap| < k {
        PushStep(a, b, k, heap, i, j);
        heap := heap + [(i, j)];
      } else {
        var top := TopAt(a, b, heap);
        if currentSum < PairSum(a, b, heap[top]) {
          ReplaceStep(a, b, k, heap, i, j, top);
          heap := heap[top := (i, j)];
        } else {
          BreakStep(a, b, k, heap, i, j, top);
          break;
        }
      }
    }
    NextRow(a, b, k, heap, i);
  }

  /** kSmallestPairs_maxheap: every pair in generation order; while fewer than k are kept
      push it, else replace the top when its sum is smaller, else leave the rest of the row.
      max_heap[0] with an empty heap raises, so k may be 0 only when no pair exists. */
  method KSmallestPairsMaxHeap(a: seq<int>, b: seq<int>, k: nat) returns (result: seq<(int, int)>, ghost kept: seq<Index>)
    requires k > 0 || |a| == 0 || |b| == 0
    ensures AllIn(a, b, kept) && result == Values(a, b, kept)
    ensures |result| == Min(k, |a| * |b|)
    ensures BinarySearch.Sorted(b) ==> KSmallest(a, b, k, kept)
  {
    var heap: seq<Index> := [];
    for i := 0 to |a|
      invariant Kept(a, b, k, heap, i, 0) && (BinarySearch.Sorted(b) ==> Smallest(a, b, heap, i, 0))
    {
      heap := ScanRow(a, b, k, heap, i);
    }
    KeptAll(a, b, k, heap);
    result := Values(a, b, heap);
    kept := heap;
  }

  // ---------------------------------------------------------------------
  // The source's test cases
  // ---------------------------------------------------------------------

  lemma SampleSpread()
    ensures ByKey([1, 7, 11], [2, 4, 6], 3) == [(0, 0), (0, 1), (0, 2)]
  {
    var a, b, c := [1, 7, 11], [2, 4, 6], [(0, 0), (0, 1), (0, 2)];
    forall p: Index | InRange(a, b, p) && p.0 > 0 ensures PairSum(a, b, p) >= 9 {
    }
    forall p: Index | InRange(a, b, p) && p.0 == 0 ensures p in c {
      assert c[p.1] == p;
    }
    assert |c| == Min(3, |a| * |b|);
    assert Increasing(a, b, c);
    assert Closed(a, b, c);
    ByKeyFirst(a, b, 3);
    FirstUnique(a, b, 3, c, ByKey(a, b, 3));
  }

  lemma SampleTies()
    ensures ByKey([1, 1, 2], [1, 2, 3], 2) == [(0, 0), (1, 0)]
  {
    var a, b, c := [1, 1, 2], [1, 2, 3], [(0, 0), (1, 0)];
    forall p: Index | InRange(a, b, p) ensures PairSum(a, b, p) >= 2 && (PairSum(a, b, p) == 2 ==> p.1 == 0 && p.0 <= 1) {
    }
    assert FirstByKey(a, b, 2, c);
    ByKeyFirst(a, b, 2);
    FirstUnique(a, b, 2, c, ByKey(a, b, 2));
  }

  lemma SampleShort()
    ensures ByKey([1, 2], [3], 3) == [(0, 0), (1, 0)]
  {
    var a, b, c := [1, 2], [3], [(0, 0), (1, 0)];
    forall p: Index | InRange(a, b, p) ensures p in c {
      assert c[p.0] == p;
    }
    assert FirstByKey(a, b, 3, c);
    ByKeyFirst(a, b, 3);
    FirstUnique(a, b, 3, c, ByKey(a, b, 3));
  }

  lemma ValuesTwo(a: seq<int>, b: seq<int>, c: seq<Index>)
    requires |c| == 2 && AllIn(a, b, c)
    ensures Values(a, b, c) == [(a[c[0].0], b[c[0].1]), (a[c[1].0], b[c[1].1])]
  {
  }

  lemma ValuesThree(a: seq<int>, b: seq<int>, c: seq<Index>)
    requires |c| == 3 && AllIn(a, b, c)
    ensures Values(a, b, c) == [(a[c[0].0], b[c[0].1]), (a[c[1].0], b[c[1].1]), (a[c[2].0], b[c[2].1])]
  {
  }

  lemma SortedThree(x: int, y: int, z: int)
    requires x <= y <= z
    ensures BinarySearch.Sorted([x, y, z])
  {
  }

  /** The test cases, through the min-heap solutions and the brute force. */
  method SpreadRun() returns (r: seq<(int, int)>)
    ensures r == [(1, 2), (1, 4), (1, 6)]
  {
    var a, b := [1, 7, 11], [2, 4, 6];
    SortedThree(1, 7, 11);
    SortedThree(2, 4, 6);
    SampleSpread();
    ValuesThree(a, b, ByKey(a, b, 3));
    r := KSmallestPairs(a, b, 3);
  }

  method TiesRun() returns (r: seq<(int, int)>)
    ensures r == [(1, 1), (1, 1)]
  {
    var a, b := [1, 1, 2], [1, 2, 3];
    SortedThree(1, 2, 3);
    SampleTies();
    ValuesTwo(a, b, ByKey(a, b, 2));
    r := KSmallestPairsOptimizedMinHeap(a, b, 2);
  }

  method ShortRun() returns (r: seq<(int, int)>)
    ensures r == [(1, 3), (2, 3)]
  {
    var a, b := [1, 2], [3];
    SampleShort();
    ValuesTwo(a, b, ByKey(a, b, 3));
    r := KSmallestPairsBruteForce(a, b, 3);
  }
}

// Minimum Absolute Difference: given distinct integers, list every pair
// [a, b] with a < b whose difference is the least over all pairs, in
// ascending order. Variants: sort then two passes, sort then one pass that
// restarts the list on a smaller difference, a brute force over all index
// pairs followed by a sort of the pairs, and a counting sort feeding the
// one-pass loop.

module MinAbsDifference {
  import opened Common
  import opened BinarySearch
  import opened Sorting

  /** An output pair [a, b]. */
  type Pair = (int, int)

  /** No value occurs twice, as the problem guarantees. */
  ghost predicate Distinct(s: seq<int>) {
    forall v :: multiset(s)[v] <= 1
  }

  function Min(a: int, b: int): int {
    if a <= b then a else b
  }

  function Max(a: int, b: int): int {
    if a >= b then a else b
  }

  /** The gap between the neighbours at i and i + 1. */
  function Diff(s: seq<int>, i: int): int
    requires 0 <= i < |s| - 1
  {
    s[i + 1] - s[i]
  }

  /** The least gap between neighbours among the first n gaps of s. */
  function LeastGap(s: seq<int>, n: int): (d: int)
    requires 1 <= n < |s|
    ensures forall i :: 0 <= i < n ==> d <= Diff(s, i)
    ensures exists i :: 0 <= i < n && d == Diff(s, i)
  {
    if n == 1 then Diff(s, 0)
    else
      var m := LeastGap(s, n - 1);
      assert m <= Diff(s, n - 2);
      Min(m, Diff(s, n - 1))
  }

  /** The neighbours among the first n gaps of s that lie exactly d apart, in order. */
  function Collect(s: seq<int>, d: int, n: int): seq<Pair>
    requires 0 <= n < |s|
  {
    if n == 0 then [] else Collect(s, d, n - 1) + (if Diff(s, n - 1) == d then [(s[n - 1], s[n])] else [])
  }

  /** The answer on an ascending list: its neighbours at the least gap. */
  function MinPairs(s: seq<int>): seq<Pair> {
    if |s| < 2 then [] else Collect(s, LeastGap(s, |s| - 1), |s| - 1)
  }

  /** The answer for arr. */
  function Answer(arr: seq<int>): seq<Pair> {
    MinPairs(Sort(arr))
  }

  // ---------------------------------------------------------------------
  // What the answer means

  /** Collect holds exactly the neighbours d apart. */
  lemma {:induction false} CollectMembers(s: seq<int>, d: int, n: int)
    requires 0 <= n < |s|
    ensures forall p :: p in Collect(s, d, n) <==> exists i :: 0 <= i < n && Diff(s, i) == d && p == (s[i], s[i + 1])
  {
    if n > 0 {
      CollectMembers(s, d, n - 1);
    }
  }

  /** Collect lists its pairs by ascending first element, each pair ascending, on a strictly ascending list. */
  lemma {:induction false} CollectAscending(s: seq<int>, d: int, n: int)
    requires StrictlySorted(s) && 0 <= n < |s|
    ensures forall k :: 0 <= k < |Collect(s, d, n)| ==> Collect(s, d, n)[k].0 < Collect(s, d, n)[k].1
    ensures forall k, l :: 0 <= k < l < |Collect(s, d, n)| ==> Collect(s, d, n)[k].0 < Collect(s, d, n)[l].0
    ensures forall k :: 0 <= k < |Collect(s, d, n)| ==> Collect(s, d, n)[k].1 <= s[n]
  {
    if n > 0 {
      CollectAscending(s, d, n - 1);
      assert s[n - 1] < s[n];
    }
  }

  /** Nothing is collected at a gap no neighbours have. */
  lemma {:induction false} CollectNone(s: seq<int>, d: int, n: int)
    requires 0 <= n < |s| && forall i :: 0 <= i < n ==> Diff(s, i) != d
    ensures Collect(s, d, n) == []
  {
    if n > 0 {
      CollectNone(s, d, n - 1);
    }
  }

  /** On a strictly ascending list no two values are closer than the least neighbour gap. */
  lemma GapBound(s: seq<int>)
    requires StrictlySorted(s) && |s| >= 2
    ensures forall x, y :: x in s && y in s && x < y ==> LeastGap(s, |s| - 1) <= y - x
  {
    forall x, y | x in s && y in s && x < y ensures LeastGap(s, |s| - 1) <= y - x {
      var i :| 0 <= i < |s| && s[i] == x;
      var j :| 0 <= j < |s| && s[j] == y;
      SpanGap(s, i, j);
    }
  }

  /** Between indices i < j, the span s[j] - s[i] is at least the first gap, and more when j is not the next index. */
  lemma SpanGap(s: seq<int>, i: int, j: int)
    requires StrictlySorted(s) && 0 <= i < |s| && 0 <= j < |s| && s[i] < s[j]
    ensures i + 1 < |s| && Diff(s, i) <= s[j] - s[i] && LeastGap(s, |s| - 1) <= s[j] - s[i]
    ensures i + 1 < j ==> Diff(s, i) < s[j] - s[i]
  {
    assert LeastGap(s, |s| - 1) <= Diff(s, i);
  }

  /** Two values at the least gap are neighbours in a strictly ascending list. */
  lemma AtLeastGapNeighbours(s: seq<int>, x: int, y: int)
    requires StrictlySorted(s) && |s| >= 2 && x in s && y in s && x < y && y - x == LeastGap(s, |s| - 1)
    ensures exists i :: 0 <= i < |s| - 1 && Diff(s, i) == y - x && (x, y) == (s[i], s[i + 1])
  {
    var i :| 0 <= i < |s| && s[i] == x;
    var j :| 0 <= j < |s| && s[j] == y;
    SpanGap(s, i, j);
    assert j == i + 1;
  }

  /** No two values of vals are closer than d. */
  ghost predicate NoCloser(vals: seq<int>, d: int) {
    forall x, y :: x in vals && y in vals && x < y ==> d <= y - x
  }

  /** ps holds exactly the pairs of values of vals, smaller first, that are d apart. */
  ghost predicate ExactlyAt(ps: seq<Pair>, vals: seq<int>, d: int) {
    forall p :: p in ps <==> p.0 in vals && p.1 in vals && p.0 < p.1 && p.1 - p.0 == d
  }

  /** Every pair MinPairs lists is a pair of values at the least gap, smaller first. */
  lemma MinPairsSound(s: seq<int>)
    requires StrictlySorted(s) && |s| >= 2
    ensures forall p :: p in MinPairs(s) ==> p.0 in s && p.1 in s && p.0 < p.1 && p.1 - p.0 == LeastGap(s, |s| - 1)
  {
    var d := LeastGap(s, |s| - 1);
    CollectMembers(s, d, |s| - 1);
    forall p | p in MinPairs(s) ensures p.0 in s && p.1 in s && p.0 < p.1 && p.1 - p.0 == d {
      var i :| 0 <= i < |s| - 1 && Diff(s, i) == d && p == (s[i], s[i + 1]);
      assert s[i] < s[i + 1];
    }
  }

  /** Every pair of values at the least gap is listed by MinPairs. */
  lemma MinPairsComplete(s: seq<int>)
    requires StrictlySorted(s) && |s| >= 2
    ensures forall x, y :: x in s && y in s && x < y && y - x == LeastGap(s, |s| - 1) ==> (x, y) in MinPairs(s)
  {
    var d := LeastGap(s, |s| - 1);
    CollectMembers(s, d, |s| - 1);
    forall x, y | x in s && y in s && x < y && y - x == d ensures (x, y) in MinPairs(s) {
      AtLeastGapNeighbours(s, x, y);
    }
  }

  /** MinPairs lists at least one pair when there are two values. */
  lemma MinPairsNonEmpty(s: seq<int>)
    requires |s| >= 2
    ensures MinPairs(s) != []
  {
    var d := LeastGap(s, |s| - 1);
    CollectMembers(s, d, |s| - 1);
    var i :| 0 <= i < |s| - 1 && d == Diff(s, i);
    assert (s[i], s[i + 1]) in MinPairs(s);
  }

  /**
   * On a strictly ascending list with two or more values, MinPairs holds
   * exactly the pairs of values a < b that are the least difference apart,
   * and no two values are closer.
   */
  lemma MinPairsMeaning(s: seq<int>)
    requires StrictlySorted(s) && |s| >= 2
    ensures NoCloser(s, LeastGap(s, |s| - 1))
    ensures ExactlyAt(MinPairs(s), s, LeastGap(s, |s| - 1))
    ensures MinPairs(s) != []
  {
    GapBound(s);
    MinPairsSound(s);
    MinPairsComplete(s);
    MinPairsNonEmpty(s);
  }

  /** Both predicates depend only on which values occur. */
  lemma SameMembers(a: seq<int>, b: seq<int>, ps: seq<Pair>, d: int)
    requires forall v :: v in a <==> v in b
    ensures NoCloser(a, d) <==> NoCloser(b, d)
    ensures ExactlyAt(ps, a, d) <==> ExactlyAt(ps, b, d)
  {
  }

  /** Two copies of one value in a list make its count at least two. */
  lemma DistinctSortedStrict(t: seq<int>)
    requires Sorted(t) && Distinct(t)
    ensures StrictlySorted(t)
  {
    forall i, j | 0 <= i < j < |t| ensures t[i] < t[j] {
      assert t == t[..j] + t[j..];
      assert t[i] == t[..j][i] && t[j] == t[j..][0];
      assert multiset(t)[t[j]] == multiset(t[..j])[t[j]] + multiset(t[j..])[t[j]];
    }
  }

  /** Distinct values sit at distinct indices. */
  lemma DistinctIndices(t: seq<int>)
    requires Distinct(t)
    ensures forall i, j :: 0 <= i < |t| && 0 <= j < |t| && i != j ==> t[i] != t[j]
  {
    forall i, j | 0 <= i < |t| && 0 <= j < |t| && i != j ensures t[i] != t[j] {
      var a, b := Min(i, j), Max(i, j);
      assert t == t[..b] + t[b..];
      assert t[a] == t[..b][a] && t[b] == t[b..][0];
      assert multiset(t)[t[b]] == multiset(t[..b])[t[b]] + multiset(t[b..])[t[b]];
    }
  }

  /** The sorted input is strictly ascending and holds the same values. */
  lemma SortDistinct(arr: seq<int>)
    requires Distinct(arr)
    ensures StrictlySorted(Sort(arr))
    ensures forall v :: v in Sort(arr) <==> v in arr
  {
    SortSorted(arr);
    DistinctSortedStrict(Sort(arr));
    forall v ensures v in Sort(arr) <==> v in arr {
      assert v in Sort(arr) <==> v in multiset(Sort(arr));
    }
  }

  /**
   * For distinct integers, the answer holds exactly the pairs a < b of input
   * values whose difference is the least over all pairs, and is empty only
   * when there are fewer than two values.
   */
  lemma AnswerMeaning(arr: seq<int>)
    requires Distinct(arr) && |arr| >= 2
    ensures NoCloser(arr, LeastGap(Sort(arr), |arr| - 1))
    ensures ExactlyAt(Answer(arr), arr, LeastGap(Sort(arr), |arr| - 1))
    ensures Answer(arr) != []
  {
    SortDistinct(arr);
    MinPairsMeaning(Sort(arr));
    SameMembers(Sort(arr), arr, Answer(arr), LeastGap(Sort(arr), |arr| - 1));
  }

  /** The answer is in ascending order, each pair ascending. */
  lemma AnswerAscending(arr: seq<int>)
    requires Distinct(arr)
    ensures forall k :: 0 <= k < |Answer(arr)| ==> Answer(arr)[k].0 < Answer(arr)[k].1
    ensures forall k, l :: 0 <= k < l < |Answer(arr)| ==> Answer(arr)[k].0 < Answer(arr)[l].0
  {
    var s := Sort(arr);
    SortDistinct(arr);
    if |s| >= 2 {
      CollectAscending(s, LeastGap(s, |s| - 1), |s| - 1);
    }
  }

  // ---------------------------------------------------------------------
  // Solution: sort, find the least gap, then collect

  /** Solution's first loop: the least neighbour gap, or None (infinity) when there is none. */
  method LeastNeighbourGap(s: seq<int>) returns (minDiff: Option<int>)
    ensures |s| < 2 ==> minDiff == None
    ensures |s| >= 2 ==> minDiff == Some(LeastGap(s, |s| - 1))
  {
    minDiff := None;
    var i := 0;
    while i < |s| - 1
      invariant 0 <= i && (i == 0 || i <= |s| - 1)
      invariant i == 0 ==> minDiff == None
      invariant i > 0 ==> minDiff == Some(LeastGap(s, i))
    {
      var diff := Diff(s, i);
      if minDiff == None {
        minDiff := Some(diff);
      } else {
        minDiff := Some(Min(minDiff.value, diff));
      }
      i := i + 1;
    }
  }

  /** Solution: sort, find the least neighbour gap in one pass, collect the neighbours at it in a second. */
  method TwoPass(arr: seq<int>) returns (result: seq<Pair>)
    ensures result == Answer(arr)
  {
    var s := Sort(arr);
    var minDiff := LeastNeighbourGap(s);
    ghost var d := if minDiff == None then 0 else minDiff.value;
    result := [];
    var i := 0;
    while i < |s| - 1
      invariant 0 <= i && (i == 0 || i <= |s| - 1)
      invariant |s| > 0 ==> result == Collect(s, d, i)
      invariant |s| == 0 ==> result == []
    {
      if minDiff == Some(Diff(s, i)) {
        result := result + [(s[i], s[i + 1])];
      }
      i := i + 1;
    }
  }

  // ---------------------------------------------------------------------
  // Solution2: one pass that restarts the list on a smaller gap

  /** What the one-pass loop holds after the first i gaps. */
  ghost predicate PassState(s: seq<int>, i: int, minDiff: Option<int>, result: seq<Pair>)
    requires 0 <= i < |s|
  {
    if i == 0 then minDiff == None && result == []
    else minDiff == Some(LeastGap(s, i)) && result == Collect(s, LeastGap(s, i), i)
  }

  /** One step of the one-pass loop, over gap i. */
  lemma PassStep(s: seq<int>, i: int, minDiff: Option<int>, result: seq<Pair>, i': int, minDiff': Option<int>, result': seq<Pair>)
    requires 0 <= i && i' == i + 1 && i' < |s| && PassState(s, i, minDiff, result)
    requires var diff := Diff(s, i);
      if minDiff == None || diff < minDiff.value then minDiff' == Some(diff) && result' == [(s[i], s[i + 1])]
      else if diff == minDiff.value then minDiff' == minDiff && result' == result + [(s[i], s[i + 1])]
      else minDiff' == minDiff && result' == result
    ensures PassState(s, i', minDiff', result')
  {
    var diff := Diff(s, i);
    if i > 0 && diff < minDiff.value {
      CollectNone(s, diff, i);
    }
  }

  /**
   * The loop Solution2 and Solution4 share: walk the neighbours once, keeping
   * the least gap so far and the neighbours at it, and restart the list when
   * a strictly smaller gap appears.
   */
  method OnePassLoop(s: seq<int>) returns (result: seq<Pair>)
    ensures result == MinPairs(s)
  {
    var minDiff: Option<int> := None;
    result := [];
    var i := 0;
    while i < |s| - 1
      invariant 0 <= i && (i == 0 || i <= |s| - 1)
      invariant |s| > 0 ==> PassState(s, i, minDiff, result)
      invariant |s| == 0 ==> result == []
    {
      ghost var minDiff0, result0 := minDiff, result;
      var diff := Diff(s, i);
      if minDiff == None || diff < minDiff.value {
        minDiff := Some(diff);
        result := [(s[i], s[i + 1])];
      } else if diff == minDiff.value {
        result := result + [(s[i], s[i + 1])];
      }
      PassStep(s, i, minDiff0, result0, i + 1, minDiff, result);
      i := i + 1;
    }
  }

  /** Solution2: sort, then the one-pass loop. */
  method OnePass(arr: seq<int>) returns (result: seq<Pair>)
    ensures result == Answer(arr)
  {
    var s := Sort(arr);
    result := OnePassLoop(s);
  }

  // ---------------------------------------------------------------------
  // Solution4: a counting sort when the range is small

  /** [False] * n. */
  function Falses(n: nat): (r: seq<bool>)
    ensures |r| == n && forall j :: 0 <= j < n ==> !r[j]
  {
    if n == 0 then [] else Falses(n - 1) + [false]
  }

  /** [i + lo for i in range(len(present)) if present[i]]. */
  function Present(present: seq<bool>, lo: int): (r: seq<int>)
    ensures forall v :: v in r <==> lo <= v < lo + |present| && present[v - lo]
    ensures forall k :: 0 <= k < |r| ==> lo <= r[k] < lo + |present|
  {
    if present == [] then []
    else
      var n := |present| - 1;
      Present(present[..n], lo) + (if present[n] then [lo + n] else [])
  }

  lemma {:induction false} PresentStrict(present: seq<bool>, lo: int)
    ensures StrictlySorted(Present(present, lo))
  {
    if present != [] {
      PresentStrict(present[..|present| - 1], lo);
    }
  }

  /** A strictly ascending list holds each value at most once. */
  lemma {:induction false} StrictDistinct(s: seq<int>)
    requires StrictlySorted(s)
    ensures Distinct(s)
  {
    if s != [] {
      StrictDistinct(s[1..]);
      assert s == [s[0]] + s[1..];
      assert s[0] !in s[1..];
    }
  }

  /** Two lists without repeats holding the same values are permutations of each other. */
  lemma SameValues(a: seq<int>, b: seq<int>)
    requires Distinct(a) && Distinct(b) && forall v :: v in a <==> v in b
    ensures multiset(a) == multiset(b)
  {
    forall v ensures multiset(a)[v] == multiset(b)[v] {
      assert v in a <==> v in multiset(a);
      assert v in b <==> v in multiset(b);
    }
  }

  /** Solution4's marking loop: count[v - lo] is set exactly for the values v of arr. */
  method Mark(arr: seq<int>, lo: int, hi: int) returns (count: seq<bool>)
    requires lo <= hi && forall k :: 0 <= k < |arr| ==> lo <= arr[k] <= hi
    ensures |count| == hi - lo + 1
    ensures forall j :: 0 <= j < |count| ==> (count[j] <==> lo + j in arr)
  {
    count := Falses(hi - lo + 1);
    for k := 0 to |arr|
      invariant |count| == hi - lo + 1
      invariant forall j :: 0 <= j < |count| ==> (count[j] <==> lo + j in arr[..k])
    {
      assert arr[..k + 1] == arr[..k] + [arr[k]];
      count := count[arr[k] - lo := true];
    }
    assert arr[..|arr|] == arr;
  }

  /** Solution4's counting sort: mark each value present, then read the marks in order. */
  method CountingSort(arr: seq<int>, lo: int, hi: int) returns (sorted: seq<int>)
    requires |arr| > 0 && lo == Least(arr) && hi == Greatest(arr)
    ensures StrictlySorted(sorted) && forall v :: v in sorted <==> v in arr
  {
    var count := Mark(arr, lo, hi);
    sorted := Present(count, lo);
    PresentStrict(count, lo);
  }

  /** Solution4: counting-sort the values when their range is at most 10^6, otherwise sort, then the one-pass loop. */
  method Counting(arr: seq<int>) returns (result: seq<Pair>)
    requires Distinct(arr)
    ensures result == Answer(arr)
  {
    if |arr| == 0 {
      return [];
    }
    var lo, hi := Least(arr), Greatest(arr);
    var sorted;
    if hi - lo > 1000000 {
      sorted := Sort(arr);
    } else {
      sorted := CountingSort(arr, lo, hi);
      StrictDistinct(sorted);
      SameValues(sorted, arr);
      SortSorted(arr);
      SortedUnique(sorted, Sort(arr));
    }
    result := OnePassLoop(sorted);
  }

  // ---------------------------------------------------------------------
  // Solution3: every index pair, then a sort of the pairs

  /** The pair [min, max] of the values at i and j. */
  function PairOf(arr: seq<int>, i: int, j: int): Pair
    requires 0 <= i < |arr| && 0 <= j < |arr|
  {
    (Min(arr[i], arr[j]), Max(arr[i], arr[j]))
  }

  /** Index pair (a, b) comes before the pair (i, j) the nested loops are at. */
  predicate Done(i: int, j: int, a: int, b: int) {
    a < i || (a == i && b < j)
  }

  /** The difference of the values at indices a and b. */
  function Gap(arr: seq<int>, a: int, b: int): int
    requires 0 <= a < |arr| && 0 <= b < |arr|
  {
    PairOf(arr, a, b).1 - PairOf(arr, a, b).0
  }

  /** No index pair before (i, j). */
  ghost predicate NoneDone(arr: seq<int>, i: int, j: int) {
    forall a, b :: 0 <= a < b < |arr| ==> !Done(i, j, a, b)
  }

  /** Every kept pair is a pair of input values m apart, the smaller first. */
  ghost predicate Valid(arr: seq<int>, m: int, pairs: seq<Pair>) {
    forall p :: p in pairs ==> p.0 in arr && p.1 in arr && p.0 < p.1 && p.1 - p.0 == m
  }

  /** No index pair before (i, j) has a difference below m. */
  ghost predicate Bounded(arr: seq<int>, i: int, j: int, m: int) {
    forall a, b :: 0 <= a < b < |arr| && Done(i, j, a, b) ==> m <= Gap(arr, a, b)
  }

  /** Every index pair before (i, j) with difference m is kept. */
  ghost predicate Covered(arr: seq<int>, i: int, j: int, m: int, pairs: seq<Pair>) {
    forall a, b :: 0 <= a < b < |arr| && Done(i, j, a, b) && Gap(arr, a, b) == m ==> PairOf(arr, a, b) in pairs
  }

  /**
   * What the brute force holds once every index pair before (i, j) is seen:
   * the least difference among them, every such pair at it, and only valid
   * pairs at it.
   */
  ghost predicate Seen(arr: seq<int>, i: int, j: int, minDiff: Option<int>, pairs: seq<Pair>) {
    if minDiff == None then pairs == [] && NoneDone(arr, i, j)
    else pairs != [] && Valid(arr, minDiff.value, pairs) && Bounded(arr, i, j, minDiff.value) && Covered(arr, i, j, minDiff.value, pairs)
  }

  /** The pair at two indices of distinct values is a valid pair. */
  lemma PairValid(arr: seq<int>, i: int, j: int)
    requires Distinct(arr) && 0 <= i < j < |arr|
    ensures Valid(arr, Gap(arr, i, j), [PairOf(arr, i, j)])
  {
    DistinctIndices(arr);
    assert arr[i] in arr && arr[j] in arr;
  }

  /** The first pair, or a strictly smaller difference: the list restarts. */
  lemma StepRestart(arr: seq<int>, i: int, j: int, minDiff: Option<int>, pairs: seq<Pair>)
    requires Distinct(arr) && 0 <= i < j < |arr| && Seen(arr, i, j, minDiff, pairs)
    requires minDiff == None || Gap(arr, i, j) < minDiff.value
    ensures Seen(arr, i, j + 1, Some(Gap(arr, i, j)), [PairOf(arr, i, j)])
  {
    var g := Gap(arr, i, j);
    PairValid(arr, i, j);
    forall a, b | 0 <= a < b < |arr| && Done(i, j + 1, a, b) ensures g <= Gap(arr, a, b) && (Gap(arr, a, b) == g ==> PairOf(arr, a, b) == PairOf(arr, i, j)) {
      if Done(i, j, a, b) {
      }
    }
  }

  /** A difference equal to the least so far: the pair is appended. */
  lemma StepAppend(arr: seq<int>, i: int, j: int, m: int, pairs: seq<Pair>)
    requires Distinct(arr) && 0 <= i < j < |arr| && Seen(arr, i, j, Some(m), pairs) && Gap(arr, i, j) == m
    ensures Seen(arr, i, j + 1, Some(m), pairs + [PairOf(arr, i, j)])
  {
    PairValid(arr, i, j);
    forall a, b | 0 <= a < b < |arr| && Done(i, j + 1, a, b) ensures m <= Gap(arr, a, b) && (Gap(arr, a, b) == m ==> PairOf(arr, a, b) in pairs + [PairOf(arr, i, j)]) {
      if Done(i, j, a, b) {
      }
    }
  }

  /** A larger difference: nothing changes. */
  lemma StepSkip(arr: seq<int>, i: int, j: int, m: int, pairs: seq<Pair>)
    requires 0 <= i < j < |arr| && Seen(arr, i, j, Some(m), pairs) && Gap(arr, i, j) > m
    ensures Seen(arr, i, j + 1, Some(m), pairs)
  {
    forall a, b | 0 <= a < b < |arr| && Done(i, j + 1, a, b) ensures m <= Gap(arr, a, b) && (Gap(arr, a, b) == m ==> PairOf(arr, a, b) in pairs) {
      if Done(i, j, a, b) {
      }
    }
  }

  /** Finishing row i is starting row i + 1. */
  lemma SeenRow(arr: seq<int>, i: int, minDiff: Option<int>, pairs: seq<Pair>)
    requires 0 <= i && Seen(arr, i, |arr|, minDiff, pairs)
    ensures Seen(arr, i + 1, i + 2, minDiff, pairs)
  {
    if minDiff == None {
      var i1, i2 := i + 1, i + 2;
      forall a, b | 0 <= a < b < |arr| ensures !Done(i1, i2, a, b) {
        assert !Done(i, |arr|, a, b);
      }
    } else {
      var m := minDiff.value;
      forall a, b | 0 <= a < b < |arr| && Done(i + 1, i + 2, a, b)
        ensures m <= Gap(arr, a, b) && (Gap(arr, a, b) == m ==> PairOf(arr, a, b) in pairs)
      {
        assert Done(i, |arr|, a, b);
      }
    }
  }

  /** Two input values a < b sit at some index pair. */
  lemma IndexPair(arr: seq<int>, x: int, y: int)
    requires x in arr && y in arr && x < y
    ensures exists a, b :: 0 <= a < b < |arr| && PairOf(arr, a, b) == (x, y)
  {
    var a :| 0 <= a < |arr| && arr[a] == x;
    var b :| 0 <= b < |arr| && arr[b] == y;
    if a < b {
      assert PairOf(arr, a, b) == (x, y);
    } else {
      assert PairOf(arr, b, a) == (x, y);
    }
  }

  /** With fewer than two values, the first kept pair could not exist. */
  lemma FirstValid(arr: seq<int>, m: int, pairs: seq<Pair>)
    requires Valid(arr, m, pairs)
    ensures pairs != [] ==> pairs[0].0 in arr && pairs[0].1 in arr && pairs[0].0 < pairs[0].1 && pairs[0].1 - pairs[0].0 == m
  {
  }

  /** With fewer than two values nothing is kept. */
  lemma SeenFew(arr: seq<int>, minDiff: Option<int>, pairs: seq<Pair>)
    requires |arr| < 2 && Seen(arr, |arr|, |arr| + 1, minDiff, pairs)
    ensures pairs == []
  {
    if minDiff != None {
      FirstValid(arr, minDiff.value, pairs);
    }
  }

  /** Once every index pair is seen, the least difference kept is the least difference d over all pairs of values. */
  lemma SeenLeast(arr: seq<int>, m: int, pairs: seq<Pair>, d: int)
    requires pairs != [] && Valid(arr, m, pairs) && Bounded(arr, |arr|, |arr| + 1, m)
    requires forall x, y :: x in arr && y in arr && x < y ==> d <= y - x
    requires exists x, y :: x in arr && y in arr && x < y && y - x == d
    ensures m == d
  {
    var n := |arr|;
    FirstValid(arr, m, pairs);
    var x, y :| x in arr && y in arr && x < y && y - x == d;
    IndexPair(arr, x, y);
    var a, b :| 0 <= a < b < n && PairOf(arr, a, b) == (x, y);
    assert Done(n, n + 1, a, b);
  }

  /** Once every index pair is seen, every pair of values d apart is kept. */
  lemma SeenCovers(arr: seq<int>, d: int, pairs: seq<Pair>)
    requires Covered(arr, |arr|, |arr| + 1, d, pairs)
    ensures forall x, y :: x in arr && y in arr && x < y && y - x == d ==> (x, y) in pairs
  {
    var n := |arr|;
    forall x, y | x in arr && y in arr && x < y && y - x == d ensures (x, y) in pairs {
      IndexPair(arr, x, y);
      var a, b :| 0 <= a < b < n && PairOf(arr, a, b) == (x, y);
      assert Done(n, n + 1, a, b);
    }
  }

  /** Once every index pair is seen, the pairs kept are exactly those of the answer. */
  lemma SeenAll(arr: seq<int>, minDiff: Option<int>, pairs: seq<Pair>)
    requires Distinct(arr) && Seen(arr, |arr|, |arr| + 1, minDiff, pairs)
    ensures forall p :: p in pairs <==> p in Answer(arr)
  {
    var n := |arr|;
    if n < 2 {
      SeenFew(arr, minDiff, pairs);
      assert |Sort(arr)| < 2;
    } else {
      assert Done(n, n + 1, 0, 1);
      var m := minDiff.value;
      var d := LeastGap(Sort(arr), n - 1);
      AnswerMeaning(arr);
      var q := Answer(arr)[0];
      assert q in Answer(arr);
      SeenLeast(arr, m, pairs, d);
      SeenCovers(arr, d, pairs);
    }
  }

  /** No pair occurs twice. */
  ghost predicate Once(ps: seq<Pair>) {
    forall p :: multiset(ps)[p] <= 1
  }

  /** p is the pair at some index pair before (i, j). */
  ghost predicate FromDone(arr: seq<int>, i: int, j: int, p: Pair) {
    exists a, b :: 0 <= a < b < |arr| && Done(i, j, a, b) && PairOf(arr, a, b) == p
  }

  /** Every kept pair comes from an index pair before (i, j), and none is kept twice. */
  ghost predicate Unrepeated(arr: seq<int>, i: int, j: int, pairs: seq<Pair>) {
    Once(pairs) && forall p :: p in pairs ==> FromDone(arr, i, j, p)
  }

  /** What came before (i, j) still comes before a later position of the loops. */
  lemma UnrepeatedLater(arr: seq<int>, i: int, j: int, i': int, j': int, pairs: seq<Pair>)
    requires Unrepeated(arr, i, j, pairs)
    requires i < i' || (i == i' && j <= j')
    ensures Unrepeated(arr, i', j', pairs)
  {
    forall p | p in pairs ensures FromDone(arr, i', j', p) {
      var a, b :| 0 <= a < b < |arr| && Done(i, j, a, b) && PairOf(arr, a, b) == p;
      assert Done(i', j', a, b);
    }
  }

  /** With distinct values, different index pairs a < b give different pairs. */
  lemma PairOfInjective(arr: seq<int>, a: int, b: int, i: int, j: int)
    requires Distinct(arr) && 0 <= a < b < |arr| && 0 <= i < j < |arr| && (a, b) != (i, j)
    ensures PairOf(arr, a, b) != PairOf(arr, i, j)
  {
    DistinctIndices(arr);
  }

  /** So the pair at (i, j) is not kept yet. */
  lemma NotYetKept(arr: seq<int>, i: int, j: int, pairs: seq<Pair>)
    requires Distinct(arr) && 0 <= i < j < |arr| && Unrepeated(arr, i, j, pairs)
    ensures PairOf(arr, i, j) !in pairs
  {
    forall p | p in pairs ensures p != PairOf(arr, i, j) {
      var a, b :| 0 <= a < b < |arr| && Done(i, j, a, b) && PairOf(arr, a, b) == p;
      PairOfInjective(arr, a, b, i, j);
    }
  }

  /** A restart keeps only the pair at (i, j). */
  lemma UnrepeatedRestart(arr: seq<int>, i: int, j: int)
    requires 0 <= i < j < |arr|
    ensures Unrepeated(arr, i, j + 1, [PairOf(arr, i, j)])
  {
    assert Done(i, j + 1, i, j);
    assert FromDone(arr, i, j + 1, PairOf(arr, i, j));
  }

  /** Appending the pair at (i, j) repeats nothing. */
  lemma UnrepeatedAppend(arr: seq<int>, i: int, j: int, pairs: seq<Pair>)
    requires Distinct(arr) && 0 <= i < j < |arr| && Unrepeated(arr, i, j, pairs)
    ensures Unrepeated(arr, i, j + 1, pairs + [PairOf(arr, i, j)])
  {
    var x := PairOf(arr, i, j);
    NotYetKept(arr, i, j, pairs);
    UnrepeatedLater(arr, i, j, i, j + 1, pairs);
    assert Done(i, j + 1, i, j);
    assert FromDone(arr, i, j + 1, x);
    forall q ensures multiset(pairs + [x])[q] <= 1 {
      assert multiset(pairs + [x]) == multiset(pairs) + multiset{x};
    }
  }

  /** Pairs in strictly ascending lexicographic order. */
  ghost predicate StrictPairs(ps: seq<Pair>) {
    forall i, j :: 0 <= i < j < |ps| ==> LexLe(ps[i], ps[j]) && ps[i] != ps[j]
  }

  /** A sorted list of pairs with no repeats is strictly ascending. */
  lemma OnceSortedStrict(ps: seq<Pair>)
    requires PairsSorted(ps) && Once(ps)
    ensures StrictPairs(ps)
  {
    forall i, j | 0 <= i < j < |ps| ensures ps[i] != ps[j] {
      assert ps == ps[..j] + ps[j..];
      assert ps[i] == ps[..j][i] && ps[j] == ps[j..][0];
      assert multiset(ps)[ps[j]] == multiset(ps[..j])[ps[j]] + multiset(ps[j..])[ps[j]];
    }
  }

  /** Past its head, a strictly ascending list holds exactly its other members. */
  lemma StrictTail(ps: seq<Pair>)
    requires StrictPairs(ps) && ps != []
    ensures forall p :: p in ps[1..] <==> p in ps && p != ps[0]
  {
    forall p | p in ps && p != ps[0] ensures p in ps[1..] {
      var k :| 0 <= k < |ps| && ps[k] == p;
      assert ps[1..][k - 1] == p;
    }
  }

  /** Two strictly ascending lists of pairs with the same members are the same list. */
  lemma {:induction false} StrictPairsUnique(a: seq<Pair>, b: seq<Pair>)
    requires StrictPairs(a) && StrictPairs(b) && forall p :: p in a <==> p in b
    ensures a == b
    decreases |a|
  {
    if a == [] {
      forall p ensures multiset(b)[p] == 0 {
        assert p !in a;
      }
      assert multiset(b) == multiset{};
      assert |b| == |multiset(b)| == 0;
    } else {
      assert a[0] in b;
      var k :| 0 <= k < |b| && b[k] == a[0];
      assert b[0] in a;
      var m :| 0 <= m < |a| && a[m] == b[0];
      assert a[0] == b[0];
      StrictTail(a);
      StrictTail(b);
      StrictPairsUnique(a[1..], b[1..]);
      assert a == [a[0]] + a[1..] && b == [b[0]] + b[1..];
    }
  }

  /** The answer is strictly ascending. */
  lemma AnswerStrict(arr: seq<int>)
    requires Distinct(arr)
    ensures StrictPairs(Answer(arr))
  {
    AnswerAscending(arr);
  }

  /**
   * Solution3: over every index pair i < j, keep the pairs [min, max] at the
   * least difference seen so far, restarting on a smaller one; then sort
   * them.
   */
  method BruteForce(arr: seq<int>) returns (pairs: seq<Pair>)
    requires Distinct(arr)
    ensures pairs == Answer(arr)
  {
    var n := |arr|;
    var minDiff: Option<int> := None;
    pairs := [];
    for i := 0 to n
      invariant Seen(arr, i, i + 1, minDiff, pairs)
      invariant Unrepeated(arr, i, i + 1, pairs)
    {
      for j := i + 1 to n
        invariant Seen(arr, i, j, minDiff, pairs)
        invariant Unrepeated(arr, i, j, pairs)
      {
        var a, b := Min(arr[i], arr[j]), Max(arr[i], arr[j]);
        var diff := b - a;
        if minDiff == None || diff < minDiff.value {
          StepRestart(arr, i, j, minDiff, pairs);
          UnrepeatedRestart(arr, i, j);
          minDiff := Some(diff);
          pairs := [(a, b)];
        } else if diff == minDiff.value {
          StepAppend(arr, i, j, minDiff.value, pairs);
          UnrepeatedAppend(arr, i, j, pairs);
          pairs := pairs + [(a, b)];
        } else {
          StepSkip(arr, i, j, minDiff.value, pairs);
          UnrepeatedLater(arr, i, j, i, j + 1, pairs);
        }
      }
      SeenRow(arr, i, minDiff, pairs);
      UnrepeatedLater(arr, i, n, i + 1, i + 2, pairs);
    }
    SeenAll(arr, minDiff, pairs);
    var unsorted := pairs;
    pairs := SortPairs(unsorted);
    SortPairsSorted(unsorted);
    forall p ensures p in pairs <==> p in unsorted {
      assert p in pairs <==> p in multiset(pairs);
    }
    OnceSortedStrict(pairs);
    AnswerStrict(arr);
    StrictPairsUnique(pairs, Answer(arr));
  }

  // ---------------------------------------------------------------------
  // The driver's first case

  /** A sorted permutation of s is what sorted(s) returns. */
  lemma SortIs(s: seq<int>, t: seq<int>)
    requires Sorted(t) && multiset(t) == multiset(s)
    ensures Sort(s) == t
  {
    SortSorted(s);
    SortedUnique(t, Sort(s));
  }

  lemma SampleAscending()
    ensures Sorted([1, 2, 3, 4])
  {
  }

  lemma SampleBag()
    ensures multiset([1, 2, 3, 4]) == multiset([4, 2, 1, 3])
  {
  }

  lemma SampleSorted()
    ensures Sort([4, 2, 1, 3]) == [1, 2, 3, 4]
  {
    SampleAscending();
    SampleBag();
    SortIs([4, 2, 1, 3], [1, 2, 3, 4]);
  }

  lemma SamplePairs()
    ensures MinPairs([1, 2, 3, 4]) == [(1, 2), (2, 3), (3, 4)]
  {
    var s := [1, 2, 3, 4];
    assert LeastGap(s, 1) == 1 && LeastGap(s, 2) == 1 && LeastGap(s, 3) == 1;
    assert Collect(s, 1, 1) == [(1, 2)];
    assert Collect(s, 1, 2) == [(1, 2), (2, 3)];
  }

  lemma Sample()
    ensures Answer([4, 2, 1, 3]) == [(1, 2), (2, 3), (3, 4)]
  {
    SampleSorted();
    SamplePairs();
  }
}

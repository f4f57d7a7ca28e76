// Two Sum: find two positions whose values add up to a target.
// Three strategies: nested loops, a one-pass value-to-index map, and two
// pointers over the values sorted together with their original positions.

module TwoSum {

  /** i and j are an answer: two different positions, in order, summing to target. */
  predicate IsPair(nums: seq<int>, target: int, i: int, j: int) {
    0 <= i < j < |nums| && nums[i] + nums[j] == target
  }

  /** Nested loops: the first answer in lexicographic order of (i, j). */
  method BruteForce(nums: seq<int>, target: int) returns (r: seq<int>)
    ensures r == [] ==> forall i, j :: !IsPair(nums, target, i, j)
    ensures r != [] ==> |r| == 2 && IsPair(nums, target, r[0], r[1])
    ensures r != [] ==> forall i, j :: IsPair(nums, target, i, j) ==> r[0] < i || (r[0] == i && r[1] <= j)
  {
    var n := |nums|;
    for i := 0 to n
      invariant forall p, q :: IsPair(nums, target, p, q) ==> p >= i
    {
      for j := i + 1 to n
        invariant forall p, q :: IsPair(nums, target, p, q) ==> p > i || (p == i && q >= j)
      {
        if nums[i] + nums[j] == target {
          return [i, j];
        }
      }
    }
    return [];
  }

  /**
   * One pass with a map from each value already seen to the most recent
   * position holding it. The answer is completed at the earliest possible
   * second position, and its first position is the latest earlier occurrence
   * of the complement.
   */
  method OnePass(nums: seq<int>, target: int) returns (r: seq<int>)
    ensures r == [] ==> forall i, j :: !IsPair(nums, target, i, j)
    ensures r != [] ==> |r| == 2 && IsPair(nums, target, r[0], r[1])
    ensures r != [] ==> forall i, j :: IsPair(nums, target, i, j) ==> r[1] <= j
    ensures r != [] ==> forall k :: r[0] < k < r[1] ==> nums[k] != nums[r[0]]
  {
    var seen: map<int, int> := map[];
    for i := 0 to |nums|
      invariant forall v :: v in seen ==> 0 <= seen[v] < i && nums[seen[v]] == v
      invariant forall v, k :: v in seen && seen[v] < k < i ==> nums[k] != v
      invariant forall k :: 0 <= k < i ==> nums[k] in seen
      invariant forall p, q :: IsPair(nums, target, p, q) ==> q >= i
    {
      var complement := target - nums[i];
      if complement in seen {
        return [seen[complement], i];
      }
      seen := seen[nums[i] := i];
    }
    return [];
  }

  /** Position i appears in the enumeration s. */
  ghost predicate Listed(s: seq<(int, int)>, i: int) {
    exists k :: 0 <= k < |s| && s[k].0 == i
  }

  /**
   * What sorting the (position, value) pairs by value yields: a permutation of
   * the enumeration of nums, ordered by value.
   */
  ghost predicate SortedEnumeration(nums: seq<int>, s: seq<(int, int)>) {
    && |s| == |nums|
    && (forall k :: 0 <= k < |s| ==> 0 <= s[k].0 < |nums| && nums[s[k].0] == s[k].1)
    && (forall k, l :: 0 <= k < l < |s| ==> s[k].0 != s[l].0)
    && (forall i :: 0 <= i < |nums| ==> Listed(s, i))
    && (forall k, l :: 0 <= k <= l < |s| ==> s[k].1 <= s[l].1)
  }

  /**
   * Two pointers over the sorted enumeration; the original positions are
   * returned smaller first.
   */
  method TwoPointers(nums: seq<int>, target: int, sorted: seq<(int, int)>) returns (r: seq<int>)
    requires SortedEnumeration(nums, sorted)
    ensures r == [] ==> forall i, j :: !IsPair(nums, target, i, j)
    ensures r != [] ==> |r| == 2 && IsPair(nums, target, r[0], r[1])
  {
    var left, right := 0, |nums| - 1;
    while left < right
      invariant 0 <= left && right < |nums|
      invariant forall p, q :: 0 <= p < q < |sorted| && sorted[p].1 + sorted[q].1 == target ==> left <= p && q <= right
    {
      var sum := sorted[left].1 + sorted[right].1;
      if sum == target {
        var a, b := sorted[left].0, sorted[right].0;
        return if a < b then [a, b] else [b, a];
      } else if sum < target {
        left := left + 1;
      } else {
        right := right - 1;
      }
    }
    forall i, j ensures !IsPair(nums, target, i, j) {
      PairSorted(nums, target, sorted, i, j);
    }
    return [];
  }

  /** A pair of positions summing to target is a pair of entries of the sorted enumeration. */
  lemma PairSorted(nums: seq<int>, target: int, sorted: seq<(int, int)>, i: int, j: int)
    requires SortedEnumeration(nums, sorted)
    ensures IsPair(nums, target, i, j) ==>
      exists p, q :: 0 <= p < q < |sorted| && sorted[p].1 + sorted[q].1 == target
  {
    if IsPair(nums, target, i, j) {
      assert Listed(sorted, i) && Listed(sorted, j);
      var ki :| 0 <= ki < |sorted| && sorted[ki].0 == i;
      var kj :| 0 <= kj < |sorted| && sorted[kj].0 == j;
      if ki < kj {
        assert 0 <= ki < kj < |sorted| && sorted[ki].1 + sorted[kj].1 == target;
      } else {
        assert 0 <= kj < ki < |sorted| && sorted[kj].1 + sorted[ki].1 == target;
      }
    }
  }

  /** The samples of the one-pass solution. */
  method OnePassSamples() {
    var r := OnePass([2, 7, 11, 15], 9);
    assert IsPair([2, 7, 11, 15], 9, 0, 1);
    assert r == [0, 1];
    r := OnePass([3, 2, 4], 6);
    assert IsPair([3, 2, 4], 6, 1, 2);
    assert r[1] == 2;
    assert r == [1, 2];
    r := OnePass([3, 3], 6);
    assert IsPair([3, 3], 6, 0, 1);
    assert r == [0, 1];
  }
}

// Binary Search: find the index of target in an ascending list of integers,
// or -1 when it is absent. Five variants: the closed-interval loop, its
// recursive form, bisect_left, a linear scan and the half-open loop.

module BinarySearch {

  /** Ascending order (duplicates allowed). */
  ghost predicate Sorted(s: seq<int>) {
    forall i, j :: 0 <= i < j < |s| ==> s[i] <= s[j]
  }

  /** Strictly ascending order, as the problem's distinct values give. */
  ghost predicate StrictlySorted(s: seq<int>) {
    forall i, j :: 0 <= i < j < |s| ==> s[i] < s[j]
  }

  /** r is an index holding target, or -1 and target does not occur. */
  ghost predicate Answers(nums: seq<int>, target: int, r: int) {
    || (0 <= r < |nums| && nums[r] == target)
    || (r == -1 && target !in nums)
  }

  /** r answers, and when it is an index no earlier position holds target. */
  ghost predicate FirstHit(nums: seq<int>, target: int, r: int) {
    && Answers(nums, target, r)
    && forall i :: 0 <= i < r ==> nums[i] != target
  }

  /** With distinct values there is exactly one answer. */
  lemma AnswerUnique(nums: seq<int>, target: int, r1: int, r2: int)
    requires StrictlySorted(nums)
    requires Answers(nums, target, r1) && Answers(nums, target, r2)
    ensures r1 == r2
  {
  }

  /** The first occurrence is unique whatever the order. */
  lemma FirstHitUnique(nums: seq<int>, target: int, r1: int, r2: int)
    requires FirstHit(nums, target, r1) && FirstHit(nums, target, r2)
    ensures r1 == r2
  {
    assert 0 <= r1 ==> nums[r1] in nums;
    assert 0 <= r2 ==> nums[r2] in nums;
  }

  /** Solution2: the recursive search of the closed range [left, right]. */
  function Recurse(nums: seq<int>, target: int, left: int, right: int): (r: int)
    requires 0 <= left <= right + 1 <= |nums|
    ensures r == -1 || (left <= r <= right && nums[r] == target)
    decreases right - left
  {
    if left > right then -1
    else
      var mid := left + (right - left) / 2;
      if nums[mid] == target then mid
      else if nums[mid] < target then Recurse(nums, target, mid + 1, right)
      else Recurse(nums, target, left, mid - 1)
  }

  /** Solution2's entry point: the whole list. */
  function RecursiveSearch(nums: seq<int>, target: int): (r: int)
    ensures r == -1 || (0 <= r < |nums| && nums[r] == target)
  {
    Recurse(nums, target, 0, |nums| - 1)
  }

  /** On sorted input the recursion misses target only when the range lacks it. */
  lemma {:induction false} RecurseFinds(nums: seq<int>, target: int, left: int, right: int)
    requires Sorted(nums)
    requires 0 <= left <= right + 1 <= |nums|
    requires forall i :: 0 <= i < |nums| && nums[i] == target ==> left <= i <= right
    ensures Answers(nums, target, Recurse(nums, target, left, right))
    decreases right - left
  {
    if left <= right {
      var mid := left + (right - left) / 2;
      if nums[mid] < target {
        forall i | 0 <= i < |nums| && nums[i] == target
          ensures mid + 1 <= i
        { }
        RecurseFinds(nums, target, mid + 1, right);
      } else if nums[mid] > target {
        forall i | 0 <= i < |nums| && nums[i] == target
          ensures i <= mid - 1
        { }
        RecurseFinds(nums, target, left, mid - 1);
      }
    } else {
      forall i | 0 <= i < |nums| ensures nums[i] != target { }
    }
  }

  /** Solution2 answers on sorted input. */
  lemma RecursiveSearchCorrect(nums: seq<int>, target: int)
    requires Sorted(nums)
    ensures Answers(nums, target, RecursiveSearch(nums, target))
  {
    RecurseFinds(nums, target, 0, |nums| - 1);
  }

  /**
   * Solution: the closed-interval loop. It probes the same midpoints as the
   * recursion, so it returns the same index; on sorted input it answers.
   */
  method Iterative(nums: seq<int>, target: int) returns (r: int)
    ensures r == RecursiveSearch(nums, target)
    ensures Sorted(nums) ==> Answers(nums, target, r)
  {
    if Sorted(nums) {
      RecursiveSearchCorrect(nums, target);
    }
    var left, right := 0, |nums| - 1;
    while left <= right
      invariant 0 <= left <= right + 1 <= |nums|
      invariant Recurse(nums, target, left, right) == RecursiveSearch(nums, target)
      decreases right - left
    {
      var mid := left + (right - left) / 2;
      if nums[mid] == target {
        return mid;
      } else if nums[mid] < target {
        left := mid + 1;
      } else {
        right := mid - 1;
      }
    }
    return -1;
  }

  /** bisect_left on [lo, hi): the first position whose value is not below target. */
  function BisectLeft(nums: seq<int>, target: int, lo: int, hi: int): (r: int)
    requires 0 <= lo <= hi <= |nums|
    ensures lo <= r <= hi
    decreases hi - lo
  {
    if lo >= hi then lo
    else
      var mid := (lo + hi) / 2;
      if nums[mid] < target then BisectLeft(nums, target, mid + 1, hi)
      else BisectLeft(nums, target, lo, mid)
  }

  /** On sorted input bisect_left splits the list into values below target and the rest. */
  lemma {:induction false} BisectSplits(nums: seq<int>, target: int, lo: int, hi: int)
    requires Sorted(nums)
    requires 0 <= lo <= hi <= |nums|
    requires forall i :: 0 <= i < lo ==> nums[i] < target
    requires forall i :: hi <= i < |nums| ==> nums[i] >= target
    ensures var r := BisectLeft(nums, target, lo, hi);
      && (forall i :: 0 <= i < r ==> nums[i] < target)
      && (forall i :: r <= i < |nums| ==> nums[i] >= target)
    decreases hi - lo
  {
    if lo < hi {
      var mid := (lo + hi) / 2;
      if nums[mid] < target {
        forall i | 0 <= i < mid + 1 ensures nums[i] < target { }
        BisectSplits(nums, target, mid + 1, hi);
      } else {
        forall i | mid <= i < |nums| ensures nums[i] >= target { }
        BisectSplits(nums, target, lo, mid);
      }
    }
  }

  /** Solution3: bisect_left, then a check of the position found. */
  function BisectSearch(nums: seq<int>, target: int): (r: int)
    ensures r == -1 || (0 <= r < |nums| && nums[r] == target)
  {
    var idx := BisectLeft(nums, target, 0, |nums|);
    if idx < |nums| && nums[idx] == target then idx else -1
  }

  /** On sorted input Solution3 returns the first occurrence. */
  lemma BisectSearchCorrect(nums: seq<int>, target: int)
    requires Sorted(nums)
    ensures FirstHit(nums, target, BisectSearch(nums, target))
  {
    BisectSplits(nums, target, 0, |nums|);
    var idx := BisectLeft(nums, target, 0, |nums|);
    if BisectSearch(nums, target) == -1 {
      forall i | 0 <= i < |nums| ensures nums[i] != target {
        if i >= idx { assert idx < |nums| && nums[idx] <= nums[i]; }
      }
    }
  }

  /** Solution4: the linear scan returns the first occurrence, on any input. */
  method Linear(nums: seq<int>, target: int) returns (r: int)
    ensures FirstHit(nums, target, r)
  {
    for i := 0 to |nums|
      invariant forall k :: 0 <= k < i ==> nums[k] != target
    {
      if nums[i] == target {
        return i;
      }
    }
    return -1;
  }

  /** On sorted input the bisect and linear variants agree exactly. */
  lemma BisectIsLinear(nums: seq<int>, target: int, r: int)
    requires Sorted(nums) && FirstHit(nums, target, r)
    ensures BisectSearch(nums, target) == r
  {
    BisectSearchCorrect(nums, target);
    FirstHitUnique(nums, target, r, BisectSearch(nums, target));
  }

  /** Solution5: the half-open loop over [left, right). */
  method HalfOpen(nums: seq<int>, target: int) returns (r: int)
    ensures r == -1 || (0 <= r < |nums| && nums[r] == target)
    ensures Sorted(nums) ==> Answers(nums, target, r)
  {
    var left, right := 0, |nums|;
    while left < right
      invariant 0 <= left <= right <= |nums|
      invariant Sorted(nums) ==> forall i :: 0 <= i < |nums| && nums[i] == target ==> left <= i < right
      decreases right - left
    {
      var mid := left + (right - left) / 2;
      if nums[mid] == target {
        return mid;
      } else if nums[mid] < target {
        HalfOpenRaise(nums, target, left, right, mid);
        left := mid + 1;
      } else {
        HalfOpenLower(nums, target, left, right, mid);
        right := mid;
      }
    }
    assert Sorted(nums) ==> forall i :: 0 <= i < |nums| ==> nums[i] != target;
    return -1;
  }

  /** Below-target midpoint: every occurrence lies after it. */
  lemma HalfOpenRaise(nums: seq<int>, target: int, left: int, right: int, mid: int)
    requires 0 <= left <= mid < right <= |nums| && nums[mid] < target
    requires Sorted(nums) ==> forall i :: 0 <= i < |nums| && nums[i] == target ==> left <= i < right
    ensures Sorted(nums) ==> forall i :: 0 <= i < |nums| && nums[i] == target ==> mid + 1 <= i < right
  {
    if Sorted(nums) {
      forall i | 0 <= i < |nums| && nums[i] == target ensures mid + 1 <= i { }
    }
  }

  /** Above-target midpoint: every occurrence lies before it. */
  lemma HalfOpenLower(nums: seq<int>, target: int, left: int, right: int, mid: int)
    requires 0 <= left <= mid < right <= |nums| && nums[mid] > target
    requires Sorted(nums) ==> forall i :: 0 <= i < |nums| && nums[i] == target ==> left <= i < right
    ensures Sorted(nums) ==> forall i :: 0 <= i < |nums| && nums[i] == target ==> left <= i < mid
  {
    if Sorted(nums) {
      forall i | 0 <= i < |nums| && nums[i] == target ensures i < mid { }
    }
  }

  /** With the problem's distinct sorted values every variant returns the same index. */
  lemma VariantsAgree(nums: seq<int>, target: int, r: int)
    requires StrictlySorted(nums) && Answers(nums, target, r)
    ensures RecursiveSearch(nums, target) == r
    ensures BisectSearch(nums, target) == r
  {
    RecursiveSearchCorrect(nums, target);
    AnswerUnique(nums, target, r, RecursiveSearch(nums, target));
    BisectSearchCorrect(nums, target);
    AnswerUnique(nums, target, r, BisectSearch(nums, target));
  }

  /** The driver's first two cases, both lookups in [-1, 0, 3, 5, 9, 12]. */
  lemma SampleHitMiss()
    ensures RecursiveSearch([-1, 0, 3, 5, 9, 12], 9) == 4
    ensures RecursiveSearch([-1, 0, 3, 5, 9, 12], 2) == -1
  {
    var a := [-1, 0, 3, 5, 9, 12];
    assert Recurse(a, 9, 4, 5) == 4;
    assert Recurse(a, 9, 3, 5) == 4;
    assert Recurse(a, 2, 2, 1) == -1;
    assert Recurse(a, 2, 1, 1) == -1;
    assert Recurse(a, 2, 0, 1) == -1;
  }

  /** The driver's remaining cases. */
  lemma SampleOthers()
    ensures RecursiveSearch([5], 5) == 0
    ensures RecursiveSearch([5], -5) == -1
    ensures RecursiveSearch([1, 2, 3, 4, 5, 6, 7], 4) == 3
  {
    assert Recurse([5], -5, 0, -1) == -1;
  }

  /** bisect_left on the first sample list. */
  lemma SampleBisect()
    ensures BisectSearch([-1, 0, 3, 5, 9, 12], 9) == 4
    ensures BisectSearch([-1, 0, 3, 5, 9, 12], 2) == -1
  {
    var a := [-1, 0, 3, 5, 9, 12];
    assert BisectLeft(a, 9, 4, 4) == 4;
    assert BisectLeft(a, 9, 4, 5) == 4;
    assert BisectLeft(a, 9, 4, 6) == 4;
    assert BisectLeft(a, 2, 2, 2) == 2;
    assert BisectLeft(a, 2, 2, 3) == 2;
    assert BisectLeft(a, 2, 0, 3) == 2;
  }
}

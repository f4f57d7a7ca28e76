// Search in Rotated Sorted Array: a strictly ascending list has been rotated
// at an unknown point; find target's index or -1. Variants: one binary search
// that keeps to the sorted half, finding the rotation point first and then
// searching one sorted run, and a linear scan.

module RotatedSearch {
  import opened BinarySearch

  /**
   * nums is a strictly ascending list rotated so that its minimum sits at p:
   * both runs nums[..p] and nums[p..] ascend, and when p > 0 the list's last
   * value is below its first.
   */
  ghost predicate RotatedAt(nums: seq<int>, p: int) {
    && 0 <= p < |nums|
    && (forall i, j :: p <= i < j < |nums| ==> nums[i] < nums[j])
    && (forall i, j :: 0 <= i < j < p ==> nums[i] < nums[j])
    && (p > 0 ==> nums[|nums| - 1] < nums[0])
  }

  ghost predicate Rotated(nums: seq<int>) {
    exists p :: RotatedAt(nums, p)
  }

  /** Every occurrence of target lies in [left, right]. */
  ghost predicate Bracketed(nums: seq<int>, target: int, left: int, right: int) {
    forall t :: 0 <= t < |nums| && nums[t] == target ==> left <= t <= right
  }

  /** Two positions are in ascending order exactly when the rotation point does not separate them. */
  lemma Order(nums: seq<int>, p: int, i: int, j: int)
    requires RotatedAt(nums, p) && 0 <= i < j < |nums|
    ensures nums[i] < nums[j] <==> !(i < p <= j)
  {
    if i < p <= j {
      assert j == |nums| - 1 || nums[j] < nums[|nums| - 1];
      assert i == 0 || nums[0] < nums[i];
    }
  }

  /** A rotated list holds distinct values, so an answer is unique. */
  lemma RotatedAnswerUnique(nums: seq<int>, p: int, target: int, r1: int, r2: int)
    requires RotatedAt(nums, p)
    requires Answers(nums, target, r1) && Answers(nums, target, r2)
    ensures r1 == r2
  {
    if 0 <= r1 < r2 {
      Order(nums, p, r1, r2);
      Order(nums, p, 0, |nums| - 1);
    } else if 0 <= r2 < r1 {
      Order(nums, p, r2, r1);
      Order(nums, p, 0, |nums| - 1);
    }
  }

  /** Left half sorted (nums[left] <= nums[mid]): the source's choice of half keeps target bracketed. */
  lemma LeftSortedStep(nums: seq<int>, p: int, target: int, left: int, mid: int, right: int)
    requires RotatedAt(nums, p) && 0 <= left <= mid <= right < |nums|
    requires nums[mid] != target && nums[left] <= nums[mid]
    requires Bracketed(nums, target, left, right)
    ensures nums[left] <= target < nums[mid] ==> Bracketed(nums, target, left, mid - 1)
    ensures !(nums[left] <= target < nums[mid]) ==> Bracketed(nums, target, mid + 1, right)
  {
    if left < p <= mid {
      Order(nums, p, left, mid);
    }
    forall t | 0 <= t < |nums| && nums[t] == target
      ensures nums[left] <= target < nums[mid] ==> t <= mid - 1
      ensures !(nums[left] <= target < nums[mid]) ==> mid + 1 <= t
    {
      if mid < t {
        Order(nums, p, mid, t);
        if mid < p <= t {
          Order(nums, p, left, t);
        }
      } else if left < t < mid {
        Order(nums, p, left, t);
        Order(nums, p, t, mid);
      } else if t == left && left < mid {
        Order(nums, p, left, mid);
      }
    }
  }

  /** Right half sorted (nums[left] > nums[mid]): the source's choice of half keeps target bracketed. */
  lemma RightSortedStep(nums: seq<int>, p: int, target: int, left: int, mid: int, right: int)
    requires RotatedAt(nums, p) && 0 <= left <= mid <= right < |nums|
    requires nums[mid] != target && nums[left] > nums[mid]
    requires Bracketed(nums, target, left, right)
    ensures nums[mid] < target <= nums[right] ==> Bracketed(nums, target, mid + 1, right)
    ensures !(nums[mid] < target <= nums[right]) ==> Bracketed(nums, target, left, mid - 1)
  {
    if left < mid {
      Order(nums, p, left, mid);
    }
    forall t | 0 <= t < |nums| && nums[t] == target
      ensures nums[mid] < target <= nums[right] ==> mid + 1 <= t
      ensures !(nums[mid] < target <= nums[right]) ==> t <= mid - 1
    {
      if t < mid {
        Order(nums, p, t, mid);
        if t < p <= mid && t < right {
          Order(nums, p, t, right);
        }
      } else if mid < t < right {
        Order(nums, p, mid, t);
        Order(nums, p, t, right);
      } else if t == right && mid < right {
        Order(nums, p, mid, right);
      }
    }
  }

  /** Solution: one binary search that steps into the sorted half when target's range says so. */
  method SortedHalf(nums: seq<int>, target: int) returns (r: int)
    ensures r == -1 || (0 <= r < |nums| && nums[r] == target)
    ensures Rotated(nums) ==> Answers(nums, target, r)
  {
    ghost var rotated := Rotated(nums);
    ghost var p := 0;
    if rotated {
      p :| RotatedAt(nums, p);
    }
    var left, right := 0, |nums| - 1;
    while left <= right
      invariant 0 <= left && right < |nums|
      invariant rotated ==> RotatedAt(nums, p) && Bracketed(nums, target, left, right)
      decreases right - left
    {
      var mid := (left + right) / 2;
      if nums[mid] == target {
        return mid;
      }
      if nums[left] <= nums[mid] {
        if rotated { LeftSortedStep(nums, p, target, left, mid, right); }
        if nums[left] <= target < nums[mid] {
          right := mid - 1;
        } else {
          left := mid + 1;
        }
      } else {
        if rotated { RightSortedStep(nums, p, target, left, mid, right); }
        if nums[mid] < target <= nums[right] {
          left := mid + 1;
        } else {
          right := mid - 1;
        }
      }
    }
    assert rotated ==> forall t :: 0 <= t < |nums| ==> nums[t] != target;
    return -1;
  }

  /** Solution2, step 1: binary search for the rotation point, which is the minimum's index. */
  method FindPivot(nums: seq<int>) returns (pivot: int)
    requires |nums| > 0
    ensures 0 <= pivot < |nums|
    ensures forall p :: RotatedAt(nums, p) ==> pivot == p
  {
    var left, right := 0, |nums| - 1;
    while left < right
      invariant 0 <= left <= right < |nums|
      invariant forall p :: RotatedAt(nums, p) ==> left <= p <= right
      decreases right - left
    {
      var mid := (left + right) / 2;
      PivotStep(nums, left, mid, right);
      if nums[mid] > nums[right] {
        left := mid + 1;
      } else {
        right := mid;
      }
    }
    return left;
  }

  /** Comparing nums[mid] with nums[right] tells which side of mid the rotation point is on. */
  lemma PivotStep(nums: seq<int>, left: int, mid: int, right: int)
    requires 0 <= left <= mid < right < |nums|
    ensures forall p :: RotatedAt(nums, p) && left <= p <= right && nums[mid] > nums[right] ==> mid + 1 <= p
    ensures forall p :: RotatedAt(nums, p) && left <= p <= right && nums[mid] <= nums[right] ==> p <= mid
  {
    forall p | RotatedAt(nums, p) && left <= p <= right
      ensures nums[mid] > nums[right] ==> mid + 1 <= p
      ensures nums[mid] <= nums[right] ==> p <= mid
    {
      Order(nums, p, mid, right);
    }
  }

  /** The pivot is the index of the minimum. */
  lemma PivotIsMinimum(nums: seq<int>, p: int)
    requires RotatedAt(nums, p)
    ensures forall i :: 0 <= i < |nums| && i != p ==> nums[p] < nums[i]
  {
    forall i | 0 <= i < |nums| && i != p
      ensures nums[p] < nums[i]
    {
      if i < p {
        Order(nums, p, i, p);
        Order(nums, p, 0, |nums| - 1);
        assert i == 0 || nums[0] < nums[i];
      } else {
        Order(nums, p, p, i);
      }
    }
  }

  /** Solution2, step 2: target lies in the run [pivot, n-1] exactly when it is between that run's ends. */
  lemma ChooseRun(nums: seq<int>, p: int, target: int)
    requires RotatedAt(nums, p)
    ensures nums[p] <= target <= nums[|nums| - 1] ==> Bracketed(nums, target, p, |nums| - 1)
    ensures !(nums[p] <= target <= nums[|nums| - 1]) ==> Bracketed(nums, target, 0, p - 1)
  {
    PivotIsMinimum(nums, p);
    forall t | 0 <= t < |nums| && nums[t] == target
      ensures nums[p] <= target <= nums[|nums| - 1] ==> p <= t
      ensures !(nums[p] <= target <= nums[|nums| - 1]) ==> t <= p - 1
    {
      if t < p {
        Order(nums, p, 0, |nums| - 1);
        assert t == 0 || nums[0] < nums[t];
      } else if t < |nums| - 1 {
        Order(nums, p, t, |nums| - 1);
      }
    }
  }

  /** Solution2: find the rotation point, pick the run that can hold target, binary search it. */
  method PivotThenSearch(nums: seq<int>, target: int) returns (r: int)
    requires |nums| > 0
    ensures r == -1 || (0 <= r < |nums| && nums[r] == target)
    ensures Rotated(nums) ==> Answers(nums, target, r)
  {
    var pivot := FindPivot(nums);
    ghost var rotated := Rotated(nums);
    if rotated {
      ghost var p :| RotatedAt(nums, p);
      ChooseRun(nums, pivot, target);
    }
    var left, right := 0, |nums| - 1;
    if target >= nums[pivot] && target <= nums[right] {
      left := pivot;
    } else {
      right := pivot - 1;
    }
    while left <= right
      invariant 0 <= left && right < |nums|
      invariant rotated ==> RotatedAt(nums, pivot) && !(left <= pivot - 1 < right) && Bracketed(nums, target, left, right)
      decreases right - left
    {
      var mid := (left + right) / 2;
      if nums[mid] == target {
        return mid;
      } else if nums[mid] < target {
        if rotated { RunStep(nums, pivot, target, left, mid, right); }
        left := mid + 1;
      } else {
        if rotated { RunStep(nums, pivot, target, left, mid, right); }
        right := mid - 1;
      }
    }
    assert rotated ==> forall t :: 0 <= t < |nums| ==> nums[t] != target;
    return -1;
  }

  /** Inside one ascending run an ordinary binary-search step keeps target bracketed. */
  lemma RunStep(nums: seq<int>, p: int, target: int, left: int, mid: int, right: int)
    requires RotatedAt(nums, p) && 0 <= left <= mid <= right < |nums|
    requires !(left <= p - 1 < right) && nums[mid] != target
    requires Bracketed(nums, target, left, right)
    ensures nums[mid] < target ==> Bracketed(nums, target, mid + 1, right)
    ensures nums[mid] > target ==> Bracketed(nums, target, left, mid - 1)
  {
    forall t | 0 <= t < |nums| && nums[t] == target
      ensures nums[mid] < target ==> mid + 1 <= t
      ensures nums[mid] > target ==> t <= mid - 1
    {
      if t < mid {
        Order(nums, p, t, mid);
      } else if mid < t {
        Order(nums, p, mid, t);
      }
    }
  }

  /**
   * Solution3 is the linear scan BinarySearch.Linear; on a rotated list its
   * answer is the one both binary searches return.
   */
  lemma LinearAgrees(nums: seq<int>, p: int, target: int, r: int, s: int)
    requires RotatedAt(nums, p) && FirstHit(nums, target, r) && Answers(nums, target, s)
    ensures r == s
  {
    RotatedAnswerUnique(nums, p, target, r, s);
  }

  /** The driver's lists are rotated sorted lists, and their expected answers are the answers. */
  lemma Samples()
    ensures RotatedAt([4, 5, 6, 7, 0, 1, 2], 4)
    ensures Answers([4, 5, 6, 7, 0, 1, 2], 0, 4) && Answers([4, 5, 6, 7, 0, 1, 2], 3, -1)
    ensures RotatedAt([1], 0) && Answers([1], 0, -1) && Answers([1], 1, 0)
    ensures RotatedAt([3, 1], 1) && Answers([3, 1], 1, 1)
    ensures RotatedAt([5, 1, 3], 1) && Answers([5, 1, 3], 5, 0)
  {
  }
}

// Peak Index in a Mountain Array: the values strictly rise up to one index
// and strictly fall after it; find that index. Variants: binary search on the
// slope, a linear scan for the first descent, the index of the maximum and a
// ternary search.

module PeakIndex {

  /** p is the peak: an inner index, values strictly rise up to it and strictly fall after it. */
  ghost predicate IsPeak(arr: seq<int>, p: int) {
    && 0 < p < |arr| - 1
    && (forall i :: 0 <= i < p ==> arr[i] < arr[i + 1])
    && (forall i :: p <= i < |arr| - 1 ==> arr[i] > arr[i + 1])
  }

  /** A mountain array is one with a peak. */
  ghost predicate Mountain(arr: seq<int>) {
    exists p :: IsPeak(arr, p)
  }

  /** r is above its left neighbour and not below its right neighbour. */
  ghost predicate LocalPeak(arr: seq<int>, r: int) {
    && 0 <= r < |arr|
    && (r == 0 || arr[r - 1] < arr[r])
    && (r == |arr| - 1 || arr[r] >= arr[r + 1])
  }

  /** On a mountain the only local peak is the peak. */
  lemma LocalPeakIsPeak(arr: seq<int>, p: int, r: int)
    requires IsPeak(arr, p) && LocalPeak(arr, r)
    ensures r == p
  {
  }

  /** Before the peak the values strictly rise. */
  lemma {:induction false} Rising(arr: seq<int>, p: int, i: int, j: int)
    requires IsPeak(arr, p) && 0 <= i < j <= p
    ensures arr[i] < arr[j]
    decreases j - i
  {
    if i + 1 < j {
      Rising(arr, p, i + 1, j);
    }
  }

  /** After the peak the values strictly fall. */
  lemma {:induction false} Falling(arr: seq<int>, p: int, i: int, j: int)
    requires IsPeak(arr, p) && p <= i < j < |arr|
    ensures arr[i] > arr[j]
    decreases j - i
  {
    if i + 1 < j {
      Falling(arr, p, i + 1, j);
    }
  }

  /** The peak holds the strict maximum. */
  lemma PeakIsMax(arr: seq<int>, p: int)
    requires IsPeak(arr, p)
    ensures forall i :: 0 <= i < |arr| && i != p ==> arr[i] < arr[p]
  {
    forall i | 0 <= i < |arr| && i != p
      ensures arr[i] < arr[p]
    {
      if i < p {
        Rising(arr, p, i, p);
      } else {
        Falling(arr, p, p, i);
      }
    }
  }

  /** A mountain has one peak. */
  lemma PeakUnique(arr: seq<int>, p: int, q: int)
    requires IsPeak(arr, p) && IsPeak(arr, q)
    ensures p == q
  {
    LocalPeakIsPeak(arr, p, q);
  }

  /** Solution: binary search on the slope; on any non-empty list it stops at a local peak. */
  method Binary(arr: seq<int>) returns (r: int)
    ensures |arr| > 0 ==> LocalPeak(arr, r)
    ensures forall p :: IsPeak(arr, p) ==> r == p
  {
    var left, right := 0, |arr| - 1;
    while left < right
      invariant 0 <= left && right < |arr|
      invariant |arr| > 0 ==> left <= right
      invariant left == 0 || (left < |arr| && arr[left - 1] < arr[left])
      invariant right == |arr| - 1 || (0 <= right && arr[right] >= arr[right + 1])
      decreases right - left
    {
      var mid := left + (right - left) / 2;
      if arr[mid] < arr[mid + 1] {
        left := mid + 1;
      } else {
        right := mid;
      }
    }
    forall p | IsPeak(arr, p) ensures left == p {
      LocalPeakIsPeak(arr, p, left);
    }
    return left;
  }

  /** Solution2: the first index whose right neighbour is lower, else the last index. */
  method FirstDescent(arr: seq<int>) returns (r: int)
    ensures r == |arr| - 1 || (0 <= r < |arr| - 1 && arr[r] > arr[r + 1])
    ensures forall i :: 0 <= i < r ==> arr[i] <= arr[i + 1]
    ensures forall p :: IsPeak(arr, p) ==> r == p
  {
    // range(len(arr) - 1) is empty when arr is
    if |arr| > 0 {
      for i := 0 to |arr| - 1
        invariant forall k :: 0 <= k < i ==> arr[k] <= arr[k + 1]
      {
        if arr[i] > arr[i + 1] {
          DescentIsPeak(arr, i);
          return i;
        }
      }
    }
    DescentIsPeak(arr, |arr| - 1);
    return |arr| - 1;
  }

  /** A first descent, or no descent at all, sits at the peak of a mountain. */
  lemma DescentIsPeak(arr: seq<int>, r: int)
    requires r == |arr| - 1 || (0 <= r < |arr| - 1 && arr[r] > arr[r + 1])
    requires forall i :: 0 <= i < r ==> arr[i] <= arr[i + 1]
    ensures forall p :: IsPeak(arr, p) ==> r == p
  {
    forall p | IsPeak(arr, p) ensures r == p {
      assert arr[p] > arr[p + 1];
      assert r < |arr| - 1 ==> arr[r] > arr[r + 1];
    }
  }

  /** Python's max over a non-empty list. */
  function Max(arr: seq<int>): (m: int)
    requires |arr| > 0
    ensures m in arr && forall i :: 0 <= i < |arr| ==> arr[i] <= m
  {
    if |arr| == 1 then arr[0]
    else
      var rest := Max(arr[1..]);
      assert forall i :: 1 <= i < |arr| ==> arr[i] == arr[1..][i - 1];
      if arr[0] >= rest then arr[0] else rest
  }

  /** list.index: the first position of a value present in the list. */
  function IndexOf(arr: seq<int>, v: int): (r: nat)
    requires v in arr
    ensures r < |arr| && arr[r] == v
    ensures forall i :: 0 <= i < r ==> arr[i] != v
  {
    if arr[0] == v then 0 else 1 + IndexOf(arr[1..], v)
  }

  /** Solution3: arr.index(max(arr)), which raises on an empty list. */
  function MaxIndex(arr: seq<int>): (r: nat)
    requires |arr| > 0
    ensures r < |arr|
  {
    IndexOf(arr, Max(arr))
  }

  /** On a mountain the first maximum is the peak. */
  lemma MaxIndexIsPeak(arr: seq<int>, p: int)
    requires IsPeak(arr, p)
    ensures MaxIndex(arr) == p
  {
    PeakIsMax(arr, p);
  }

  /** Solution5: ternary search keeping the peak inside [left, right]. */
  method Ternary(arr: seq<int>) returns (r: int)
    ensures |arr| > 0 ==> 0 <= r < |arr|
    ensures forall p :: IsPeak(arr, p) ==> r == p
  {
    var left, right := 0, |arr| - 1;
    while left < right
      invariant 0 <= left && right < |arr|
      invariant |arr| > 0 ==> left <= right
      invariant forall p :: IsPeak(arr, p) ==> left <= p <= right
      decreases right - left
    {
      var mid1 := left + (right - left) / 3;
      var mid2 := right - (right - left) / 3;
      if arr[mid1] < arr[mid2] {
        TernaryRaise(arr, mid1, mid2);
        left := mid1 + 1;
      } else {
        TernaryLower(arr, mid1, mid2);
        right := mid2 - 1;
      }
    }
    return left;
  }

  /** A rise from mid1 to mid2 puts the peak after mid1. */
  lemma TernaryRaise(arr: seq<int>, mid1: int, mid2: int)
    requires 0 <= mid1 < mid2 < |arr| && arr[mid1] < arr[mid2]
    ensures forall p :: IsPeak(arr, p) ==> mid1 < p
  {
    forall p | IsPeak(arr, p) ensures mid1 < p {
      if p <= mid1 {
        Falling(arr, p, mid1, mid2);
      }
    }
  }

  /** No rise from mid1 to mid2 puts the peak before mid2. */
  lemma TernaryLower(arr: seq<int>, mid1: int, mid2: int)
    requires 0 <= mid1 < mid2 < |arr| && arr[mid1] >= arr[mid2]
    ensures forall p :: IsPeak(arr, p) ==> p < mid2
  {
    forall p | IsPeak(arr, p) ensures p < mid2 {
      if mid2 <= p {
        Rising(arr, p, mid1, mid2);
      }
    }
  }

  /** The driver's first mountains and their peaks, which every variant returns. */
  lemma SampleSmall()
    ensures IsPeak([0, 1, 0], 1)
    ensures IsPeak([0, 2, 1, 0], 1)
    ensures IsPeak([0, 10, 5, 2], 1)
  {
  }

  /** The driver's longer mountains. */
  lemma SampleLong()
    ensures IsPeak([3, 5, 3, 2, 0], 1)
    ensures IsPeak([24, 69, 100, 99, 79, 78, 67, 36, 26, 19], 2)
  {
  }

  /** Solution3 on the driver's third mountain. */
  lemma SampleMaxIndex()
    ensures MaxIndex([0, 10, 5, 2]) == 1
  {
    assert IsPeak([0, 10, 5, 2], 1);
    MaxIndexIsPeak([0, 10, 5, 2], 1);
  }
}

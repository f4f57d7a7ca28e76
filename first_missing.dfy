// First Missing Positive: the smallest positive integer absent from the
// list. Variants: cyclic placement of each value v in 1..n at index v-1 by
// swaps, a set scan, negation marking, a scan of the sorted list, and the
// placement written as a single while loop.

module FirstMissing {
  import opened BinarySearch
  import Sorting

  /** The search upwards from k; n + 1 needs no test, Pigeonhole shows it absent. */
  function MissingFrom(s: seq<int>, k: int): int
    requires 1 <= k <= |s| + 1
    decreases |s| + 1 - k
  {
    if k == |s| + 1 || k !in s then k else MissingFrom(s, k + 1)
  }

  /** The smallest positive integer not in s. */
  function Smallest(s: seq<int>): int {
    MissingFrom(s, 1)
  }

  /** m is the smallest positive integer absent from s. */
  ghost predicate IsSmallest(s: seq<int>, m: int) {
    m >= 1 && m !in s && forall k :: 1 <= k < m ==> k in s
  }

  /** A list of n elements cannot hold every one of 1..m unless m <= n. */
  lemma {:induction false} Pigeonhole(s: seq<int>, m: int)
    requires forall k :: 1 <= k <= m ==> k in s
    ensures m <= |s|
  {
    if m > 0 {
      assert m in s;
      var i :| 0 <= i < |s| && s[i] == m;
      var t := s[..i] + s[i + 1..];
      forall k | 1 <= k <= m - 1 ensures k in t {
        assert k in s;
        var j :| 0 <= j < |s| && s[j] == k;
        if j < i {
          assert t[j] == k;
        } else {
          assert t[j - 1] == k;
        }
      }
      Pigeonhole(t, m - 1);
    }
  }

  lemma {:induction false} MissingFromMeaning(s: seq<int>, k: int)
    requires 1 <= k <= |s| + 1 && forall j :: 1 <= j < k ==> j in s
    ensures IsSmallest(s, MissingFrom(s, k)) && MissingFrom(s, k) <= |s| + 1
    decreases |s| + 1 - k
  {
    if k == |s| + 1 {
      if k in s {
        Pigeonhole(s, k);
      }
    } else if k in s {
      MissingFromMeaning(s, k + 1);
    }
  }

  /** The answer lies in 1..n+1, is absent, and every smaller positive integer is present. */
  lemma SmallestMeaning(s: seq<int>)
    ensures IsSmallest(s, Smallest(s))
    ensures 1 <= Smallest(s) <= |s| + 1
  {
    MissingFromMeaning(s, 1);
  }

  /** The characterisation has one solution. */
  lemma SmallestUnique(s: seq<int>, m: int)
    requires IsSmallest(s, m)
    ensures m == Smallest(s)
  {
    SmallestMeaning(s);
  }

  /** Only membership matters: lists with the same elements share the answer. */
  lemma SmallestPerm(s: seq<int>, t: seq<int>)
    requires multiset(s) == multiset(t)
    ensures Smallest(s) == Smallest(t)
  {
    SmallestMeaning(s);
    forall k ensures k in s <==> k in t {
      assert k in s <==> k in multiset(s);
      assert k in t <==> k in multiset(t);
    }
    SmallestUnique(t, Smallest(s));
  }

  // ---------------------------------------------------------------------
  // Solution: cyclic placement

  /** The value at j, when in 1..n, already sits at its home index. */
  predicate Home(s: seq<int>, j: int)
    requires 0 <= j < |s|
  {
    1 <= s[j] <= |s| ==> s[s[j] - 1] == s[j]
  }

  /** How many of the first k positions hold their own value. */
  function Fixed(s: seq<int>, k: int): (c: nat)
    requires 0 <= k <= |s|
    ensures c <= k
  {
    if k == 0 then 0 else Fixed(s, k - 1) + (if s[k - 1] == k then 1 else 0)
  }

  /** The swap's precondition: s[i] is in 1..n and its home does not hold it yet. */
  predicate Misplaced(s: seq<int>, i: int)
    requires 0 <= i < |s|
  {
    1 <= s[i] <= |s| && s[s[i] - 1] != s[i]
  }

  /** The swap of positions i and j. */
  function Swap(s: seq<int>, i: int, j: int): (t: seq<int>)
    requires 0 <= i < |s| && 0 <= j < |s|
    ensures |t| == |s| && t[i] == s[j] && t[j] == s[i]
    ensures forall k :: 0 <= k < |s| && k != i && k != j ==> t[k] == s[k]
    ensures multiset(t) == multiset(s)
  {
    s[i := s[j]][j := s[i]]
  }

  /** A swap that brings a value home adds a fixed position and moves none away. */
  lemma {:induction false} SwapFixed(s: seq<int>, i: int, k: int)
    requires 0 <= i < |s| && Misplaced(s, i) && 0 <= k <= |s|
    ensures Fixed(Swap(s, i, s[i] - 1), k) >= Fixed(s, k) + (if s[i] - 1 < k then 1 else 0)
  {
    if k > 0 {
      SwapFixed(s, i, k - 1);
    }
  }

  /** The swap keeps every value before i that was home at home. */
  lemma SwapHome(s: seq<int>, i: int, t: seq<int>)
    requires 0 <= i < |s| && Misplaced(s, i) && t == Swap(s, i, s[i] - 1)
    requires forall j :: 0 <= j < i ==> Home(s, j)
    ensures forall j :: 0 <= j < i ==> Home(t, j)
  {
    forall j | 0 <= j < i ensures Home(t, j) {
      assert Home(s, j);
    }
  }

  /** Once every position is home, any v in 1..n that occurs sits at v-1. */
  lemma HomeMeaning(s: seq<int>)
    requires forall j :: 0 <= j < |s| ==> Home(s, j)
    ensures forall v :: 1 <= v <= |s| && v in s ==> s[v - 1] == v
  {
    forall v | 1 <= v <= |s| && v in s ensures s[v - 1] == v {
      var j :| 0 <= j < |s| && s[j] == v;
      assert Home(s, j);
    }
  }

  /** The swap both placements perform: nums[i] goes to its home index, one more position is fixed, and what was home stays home. */
  method SwapHomeStep(nums: array<int>, i: int)
    modifies nums
    requires 0 <= i < nums.Length && Misplaced(nums[..], i)
    requires forall j :: 0 <= j < i ==> Home(nums[..], j)
    ensures nums[..] == Swap(old(nums[..]), i, old(nums[i]) - 1)
    ensures multiset(nums[..]) == multiset(old(nums[..]))
    ensures forall j :: 0 <= j < i ==> Home(nums[..], j)
    ensures Fixed(nums[..], nums.Length) > Fixed(old(nums[..]), nums.Length)
  {
    ghost var s := nums[..];
    var correctPos := nums[i] - 1;
    nums[i], nums[correctPos] := nums[correctPos], nums[i];
    assert nums[..] == Swap(s, i, correctPos);
    SwapFixed(s, i, nums.Length);
    SwapHome(s, i, nums[..]);
  }

  /** Solution's first step: swap each value in 1..n to its home, permuting the list. */
  method Place(nums: array<int>)
    modifies nums
    ensures multiset(nums[..]) == multiset(old(nums[..]))
    ensures forall j :: 0 <= j < nums.Length ==> Home(nums[..], j)
  {
    var n := nums.Length;
    for i := 0 to n
      invariant multiset(nums[..]) == multiset(old(nums[..]))
      invariant forall j :: 0 <= j < i ==> Home(nums[..], j)
    {
      while 1 <= nums[i] <= n && nums[nums[i] - 1] != nums[i]
        invariant multiset(nums[..]) == multiset(old(nums[..]))
        invariant forall j :: 0 <= j < i ==> Home(nums[..], j)
        decreases n - Fixed(nums[..], n)
      {
        SwapHomeStep(nums, i);
      }
      assert Home(nums[..], i);
    }
  }

  /** The second step: the first index i with nums[i] != i + 1 gives i + 1, else n + 1. */
  method Scan(nums: array<int>) returns (r: int)
    ensures 1 <= r <= nums.Length + 1
    ensures forall j :: 0 <= j < r - 1 ==> nums[j] == j + 1
    ensures r <= nums.Length ==> nums[r - 1] != r
  {
    var n := nums.Length;
    for i := 0 to n
      invariant forall j :: 0 <= j < i ==> nums[j] == j + 1
    {
      if nums[i] != i + 1 {
        return i + 1;
      }
    }
    return n + 1;
  }

  /** After placement, the scan's index is the answer. */
  lemma ScanAnswer(s: seq<int>, r: int)
    requires forall j :: 0 <= j < |s| ==> Home(s, j)
    requires 1 <= r <= |s| + 1
    requires forall j :: 0 <= j < r - 1 ==> s[j] == j + 1
    requires r <= |s| ==> s[r - 1] != r
    ensures r == Smallest(s)
  {
    HomeMeaning(s);
    forall k | 1 <= k < r ensures k in s {
      assert s[k - 1] == k;
    }
    if r <= |s| {
      assert s[r - 1] != r;
    } else {
      assert forall j :: 0 <= j < |s| ==> s[j] <= |s|;
    }
    SmallestUnique(s, r);
  }

  /** Solution: placement then scan, on the caller's list. */
  method CyclicSort(nums: array<int>) returns (result: int)
    modifies nums
    ensures result == Smallest(old(nums[..]))
    ensures multiset(nums[..]) == multiset(old(nums[..]))
  {
    Place(nums);
    result := Scan(nums);
    ScanAnswer(nums[..], result);
    SmallestPerm(nums[..], old(nums[..]));
  }

  // ---------------------------------------------------------------------
  // Solution5: the placement as one while loop

  /** Solution5: i advances only when position i needs no swap. */
  method PlaceOneLoop(nums: array<int>) returns (result: int)
    modifies nums
    ensures result == Smallest(old(nums[..]))
    ensures multiset(nums[..]) == multiset(old(nums[..]))
  {
    PlaceWhile(nums);
    result := Scan(nums);
    ScanAnswer(nums[..], result);
    SmallestPerm(nums[..], old(nums[..]));
  }

  /** Solution5's adjusting loop: same outcome as Place. */
  method PlaceWhile(nums: array<int>)
    modifies nums
    ensures multiset(nums[..]) == multiset(old(nums[..]))
    ensures forall j :: 0 <= j < nums.Length ==> Home(nums[..], j)
  {
    var n := nums.Length;
    var i := 0;
    while i < n
      invariant 0 <= i <= n
      invariant multiset(nums[..]) == multiset(old(nums[..]))
      invariant forall j :: 0 <= j < i ==> Home(nums[..], j)
      decreases n - i, n - Fixed(nums[..], n)
    {
      if 1 <= nums[i] <= n && nums[nums[i] - 1] != nums[i] {
        SwapHomeStep(nums, i);
      } else {
        assert Home(nums[..], i);
        i := i + 1;
      }
    }
  }

  // ---------------------------------------------------------------------
  // Solution2: a set

  /** Solution2: count up from 1 while the number is in the set of elements. */
  method SetScan(nums: seq<int>) returns (i: int)
    ensures i == Smallest(nums)
  {
    var numSet := set x | x in nums;
    i := 1;
    while i in numSet
      invariant i >= 1 && forall k :: 1 <= k < i ==> k in nums
      decreases |nums| + 1 - i
    {
      Pigeonhole(nums, i);
      i := i + 1;
    }
    SmallestUnique(nums, i);
  }

  // ---------------------------------------------------------------------
  // Solution3: negation marking

  function Abs(x: int): int {
    if x < 0 then -x else x
  }

  /** Step one's replacement for a value. */
  function Clip(v: int, n: int): int {
    if v <= 0 then n + 1 else v
  }

  /** Step one: every non-positive entry becomes n + 1, so all entries are positive. */
  method ClipNonPositive(nums: array<int>)
    modifies nums
    ensures forall j :: 0 <= j < nums.Length ==> nums[j] == Clip(old(nums[j]), nums.Length)
    ensures forall j :: 0 <= j < nums.Length ==> nums[j] > 0
  {
    var n := nums.Length;
    for i := 0 to n
      invariant forall j :: 0 <= j < i ==> nums[j] == Clip(old(nums[j]), n)
      invariant forall j :: i <= j < n ==> nums[j] == old(nums[j])
    {
      if nums[i] <= 0 {
        nums[i] := n + 1;
      }
    }
  }

  /** Step two: position k ends negative exactly when k + 1 occurs; magnitudes are kept. */
  method MarkPresent(nums: array<int>)
    modifies nums
    requires forall j :: 0 <= j < nums.Length ==> nums[j] > 0
    ensures forall k :: 0 <= k < nums.Length ==> Abs(nums[k]) == old(nums[k])
    ensures forall k :: 0 <= k < nums.Length ==> (nums[k] < 0 <==> k + 1 in old(nums[..]))
  {
    var n := nums.Length;
    ghost var b := nums[..];
    for i := 0 to n
      invariant forall k :: 0 <= k < n ==> Abs(nums[k]) == b[k]
      invariant forall k :: 0 <= k < n ==> (nums[k] < 0 <==> k + 1 in b[..i])
    {
      var num := Abs(nums[i]);
      if 1 <= num <= n {
        if nums[num - 1] > 0 {
          nums[num - 1] := -nums[num - 1];
        }
      }
      assert b[..i + 1] == b[..i] + [b[i]];
    }
    assert b[..n] == b;
  }

  /** Step three: the first positive position i gives i + 1, else n + 1. */
  method FirstPositive(nums: array<int>) returns (r: int)
    ensures 1 <= r <= nums.Length + 1
    ensures forall j :: 0 <= j < r - 1 ==> nums[j] <= 0
    ensures r <= nums.Length ==> nums[r - 1] > 0
  {
    var n := nums.Length;
    for i := 0 to n
      invariant forall j :: 0 <= j < i ==> nums[j] <= 0
    {
      if nums[i] > 0 {
        return i + 1;
      }
    }
    return n + 1;
  }

  /** Step one changes no value in 1..n into another: membership of 1..n is kept. */
  lemma ClipKeepsRange(s: seq<int>, b: seq<int>, v: int)
    requires |b| == |s| && forall j :: 0 <= j < |s| ==> b[j] == Clip(s[j], |s|)
    requires 1 <= v <= |s|
    ensures v in b <==> v in s
  {
    if v in s {
      var j :| 0 <= j < |s| && s[j] == v;
      assert b[j] == v;
    }
    if v in b {
      var j :| 0 <= j < |b| && b[j] == v;
      assert s[j] == v;
    }
  }

  /** After marking, the first positive position is the answer. */
  lemma MarkAnswer(s: seq<int>, b: seq<int>, c: seq<int>, r: int)
    requires |b| == |s| && forall j :: 0 <= j < |s| ==> b[j] == Clip(s[j], |s|)
    requires |c| == |s| && forall k :: 0 <= k < |c| ==> (c[k] < 0 <==> k + 1 in b)
    requires forall k :: 0 <= k < |c| ==> c[k] != 0
    requires 1 <= r <= |c| + 1
    requires forall j :: 0 <= j < r - 1 ==> c[j] <= 0
    requires r <= |c| ==> c[r - 1] > 0
    ensures r == Smallest(s)
  {
    forall k | 1 <= k < r ensures k in s {
      assert c[k - 1] < 0;
      ClipKeepsRange(s, b, k);
    }
    if r <= |s| {
      ClipKeepsRange(s, b, r);
    } else if r in s {
      Pigeonhole(s, r);
    }
    SmallestUnique(s, r);
  }

  /** Solution3: the three steps on the caller's list. */
  method Marking(nums: array<int>) returns (result: int)
    modifies nums
    ensures result == Smallest(old(nums[..]))
  {
    ghost var s := nums[..];
    ClipNonPositive(nums);
    ghost var b := nums[..];
    MarkPresent(nums);
    result := FirstPositive(nums);
    MarkAnswer(s, b, nums[..], result);
  }

  // ---------------------------------------------------------------------
  // Solution4: scan of the sorted list

  /** Solution4's loop over the ascending list t, stopping at the first value past the target. */
  method SortedScan(t: seq<int>) returns (missing: int)
    requires Sorted(t)
    ensures IsSmallest(t, missing)
  {
    missing := 1;
    var idx := 0;
    while idx < |t|
      invariant 0 <= idx <= |t| && missing >= 1
      invariant forall j :: 0 <= j < idx ==> t[j] < missing
      invariant forall k :: 1 <= k < missing ==> k in t
    {
      if t[idx] == missing {
        missing := missing + 1;
      } else if t[idx] > missing {
        break;
      }
      idx := idx + 1;
    }
    assert idx == |t| || t[idx] > missing;
    forall j | idx <= j < |t| ensures t[j] > missing {
      assert t[idx] <= t[j];
    }
  }

  /** Solution4: sort, then scan. */
  method SortThenScan(nums: seq<int>) returns (missing: int)
    ensures missing == Smallest(nums)
  {
    var t := Sorting.Sort(nums);
    Sorting.SortSorted(nums);
    missing := SortedScan(t);
    SmallestUnique(t, missing);
    SmallestPerm(t, nums);
  }

  // ---------------------------------------------------------------------
  // The driver's cases

  lemma Samples()
    ensures Smallest([1, 2, 0]) == 3
    ensures Smallest([3, 4, -1, 1]) == 2
    ensures Smallest([7, 8, 9, 11, 12]) == 1
    ensures Smallest([1, 2, 3]) == 4
    ensures Smallest([-1, -2, -3]) == 1
    ensures Smallest([1]) == 2 && Smallest([2, 3, 4]) == 1 && Smallest([1, 1000]) == 2
  {
    assert 1 in [1] && 1 in [1, 1000] && 2 !in [1, 1000];
    assert 1 in [1, 2, 0] && 2 in [1, 2, 0];
    assert 1 in [3, 4, -1, 1] && 2 !in [3, 4, -1, 1];
    assert 1 in [1, 2, 3] && 2 in [1, 2, 3] && 3 in [1, 2, 3];
  }
}

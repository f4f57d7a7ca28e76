// Ways to Make a Fair Array: count the indices whose removal leaves a list
// whose even-indexed elements sum to the same as its odd-indexed ones.
// Variants: running left sums against the totals, a brute force that
// rebuilds each shortened list, and prefix arrays of the parity sums.

module FairArray {

  /** The parity an index has after n earlier elements are put in front of it. */
  function Shift(p: int, n: int): int {
    if n % 2 == 0 then p else 1 - p
  }

  /** The sum of the elements of s at indices of parity p (0: even, 1: odd). */
  function ParitySum(s: seq<int>, p: int): int {
    if s == [] then 0
    else ParitySum(s[..|s| - 1], p) + (if (|s| - 1) % 2 == p then s[|s| - 1] else 0)
  }

  /** nums with the element at i removed. */
  function Removed(s: seq<int>, i: int): (r: seq<int>)
    requires 0 <= i < |s|
    ensures |r| == |s| - 1
  {
    s[..i] + s[i + 1..]
  }

  /** Removing index i leaves a fair list. */
  predicate Fair(s: seq<int>, i: int)
    requires 0 <= i < |s|
  {
    ParitySum(Removed(s, i), 0) == ParitySum(Removed(s, i), 1)
  }

  /** The number of indices below n whose removal leaves a fair list. */
  function FairCount(s: seq<int>, n: int): (c: int)
    requires 0 <= n <= |s|
    ensures 0 <= c <= n
  {
    if n == 0 then 0 else FairCount(s, n - 1) + (if Fair(s, n - 1) then 1 else 0)
  }

  /** The answer: how many indices can be removed to leave a fair list. */
  function Answer(s: seq<int>): int {
    FairCount(s, |s|)
  }

  // ---------------------------------------------------------------------
  // Parity sums

  /** Appending b after a shifts the parity of b's indices by |a|. */
  lemma {:induction false} ParityAppend(a: seq<int>, b: seq<int>, p: int)
    requires p == 0 || p == 1
    ensures ParitySum(a + b, p) == ParitySum(a, p) + ParitySum(b, Shift(p, |a|))
    decreases |b|
  {
    if b == [] {
      assert a + b == a;
    } else {
      var n := |b| - 1;
      assert (a + b)[..|a + b| - 1] == a + b[..n];
      ParityAppend(a, b[..n], p);
    }
  }

  /** Extending the prefix by index i adds nums[i] to the sum of its parity. */
  lemma PrefixStep(s: seq<int>, i: int, p: int)
    requires 0 <= i < |s|
    ensures ParitySum(s[..i + 1], p) == ParitySum(s[..i], p) + (if i % 2 == p then s[i] else 0)
  {
    assert s[..i + 1][..i] == s[..i];
  }

  /** Removing index i: the elements before it keep their parity, those after it move back one place. */
  lemma RemovedSplit(s: seq<int>, i: int, p: int)
    requires 0 <= i < |s| && (p == 0 || p == 1)
    ensures ParitySum(Removed(s, i), p) == ParitySum(s[..i], p) + ParitySum(s[i + 1..], Shift(p, i))
  {
    ParityAppend(s[..i], s[i + 1..], p);
  }

  /** The whole list is the prefix through i followed by the rest. */
  lemma WholeSplit(s: seq<int>, i: int, q: int)
    requires 0 <= i < |s| && (q == 0 || q == 1)
    ensures ParitySum(s, q) == ParitySum(s[..i + 1], q) + ParitySum(s[i + 1..], Shift(q, i + 1))
  {
    assert s == s[..i + 1] + s[i + 1..];
    ParityAppend(s[..i + 1], s[i + 1..], q);
  }

  /**
   * After removing index i, the elements before i keep their parity and
   * those after it swap: the new sum of parity p is the old left sum of
   * parity p plus the old right sum of the other parity.
   */
  lemma RemovedSum(s: seq<int>, i: int, p: int)
    requires 0 <= i < |s| && (p == 0 || p == 1)
    ensures ParitySum(Removed(s, i), p) == ParitySum(s[..i], p) + ParitySum(s, 1 - p) - ParitySum(s[..i + 1], 1 - p)
  {
    RemovedSplit(s, i, p);
    WholeSplit(s, i, 1 - p);
    ShiftBack(p, i);
  }

  /** One place further on, the other parity lands where p did. */
  lemma ShiftBack(p: int, i: int)
    requires 0 <= i
    ensures Shift(1 - p, i + 1) == Shift(p, i)
  {
    if i % 2 == 0 {
      assert (i + 1) % 2 == 1;
    } else {
      assert (i + 1) % 2 == 0;
    }
  }

  /**
   * The fairness test the running sums perform: with left sums over the
   * indices before i and right sums over those after it, removing i is
   * fair exactly when left even + right odd equals left odd + right even.
   */
  lemma FairBySums(s: seq<int>, i: int, leftEven: int, leftOdd: int, rightEven: int, rightOdd: int)
    requires 0 <= i < |s|
    requires leftEven == ParitySum(s[..i], 0) && leftOdd == ParitySum(s[..i], 1)
    requires rightEven == ParitySum(s, 0) - leftEven - (if i % 2 == 0 then s[i] else 0)
    requires rightOdd == ParitySum(s, 1) - leftOdd - (if i % 2 == 1 then s[i] else 0)
    ensures Fair(s, i) <==> leftEven + rightOdd == leftOdd + rightEven
  {
    RemovedSum(s, i, 0);
    RemovedSum(s, i, 1);
    PrefixStep(s, i, 0);
    PrefixStep(s, i, 1);
  }

  // ---------------------------------------------------------------------
  // Solution: running left sums

  /** Solution: one pass with running even and odd sums left of i, set against the totals. */
  method Running(nums: seq<int>) returns (count: int)
    ensures count == Answer(nums)
  {
    var n := |nums|;
    var totalOdd := ParitySum(nums, 1);
    var totalEven := ParitySum(nums, 0);
    count := 0;
    var leftOdd := 0;
    var leftEven := 0;
    for i := 0 to n
      invariant count == FairCount(nums, i)
      invariant leftEven == ParitySum(nums[..i], 0) && leftOdd == ParitySum(nums[..i], 1)
    {
      var rightEven, rightOdd;
      if i % 2 == 0 {
        rightEven := totalEven - leftEven - nums[i];
        rightOdd := totalOdd - leftOdd;
      } else {
        rightEven := totalEven - leftEven;
        rightOdd := totalOdd - leftOdd - nums[i];
      }
      var newEvenSum := leftEven + rightOdd;
      var newOddSum := leftOdd + rightEven;
      FairBySums(nums, i, leftEven, leftOdd, rightEven, rightOdd);
      if newEvenSum == newOddSum {
        count := count + 1;
      }
      PrefixStep(nums, i, 0);
      PrefixStep(nums, i, 1);
      if i % 2 == 0 {
        leftEven := leftEven + nums[i];
      } else {
        leftOdd := leftOdd + nums[i];
      }
    }
    assert nums[..n] == nums;
  }

  // ---------------------------------------------------------------------
  // Solution2: rebuild each shortened list

  /** Solution2: for every index, build the list without it and compare its even and odd sums. */
  method BruteForce(nums: seq<int>) returns (count: int)
    ensures count == Answer(nums)
    ensures 0 <= count <= |nums|
  {
    count := 0;
    var n := |nums|;
    for removeIdx := 0 to n
      invariant count == FairCount(nums, removeIdx)
    {
      var newNums := nums[..removeIdx] + nums[removeIdx + 1..];
      var evenSum := ParitySum(newNums, 0);
      var oddSum := ParitySum(newNums, 1);
      if evenSum == oddSum {
        count := count + 1;
      }
    }
  }

  // ---------------------------------------------------------------------
  // Solution3: prefix arrays

  /** Solution3's first loop: prefix[i] holds the parity sums of nums[..i + 1]. */
  method Prefixes(nums: seq<int>) returns (prefixEven: array<int>, prefixOdd: array<int>)
    ensures fresh(prefixEven) && fresh(prefixOdd)
    ensures prefixEven.Length == |nums| && prefixOdd.Length == |nums|
    ensures forall k :: 0 <= k < |nums| ==> prefixEven[k] == ParitySum(nums[..k + 1], 0)
    ensures forall k :: 0 <= k < |nums| ==> prefixOdd[k] == ParitySum(nums[..k + 1], 1)
  {
    var n := |nums|;
    prefixEven := new int[n](_ => 0);
    prefixOdd := new int[n](_ => 0);
    for i := 0 to n
      invariant forall k :: 0 <= k < i ==> prefixEven[k] == ParitySum(nums[..k + 1], 0)
      invariant forall k :: 0 <= k < i ==> prefixOdd[k] == ParitySum(nums[..k + 1], 1)
      invariant forall k :: i <= k < n ==> prefixEven[k] == 0 && prefixOdd[k] == 0
    {
      if i > 0 {
        prefixEven[i] := prefixEven[i - 1];
        prefixOdd[i] := prefixOdd[i - 1];
      }
      if i % 2 == 0 {
        prefixEven[i] := prefixEven[i] + nums[i];
      } else {
        prefixOdd[i] := prefixOdd[i] + nums[i];
      }
      PrefixStep(nums, i, 0);
      PrefixStep(nums, i, 1);
    }
  }

  /** Solution3's fairness test at i, read off the prefix sums. */
  lemma PrefixFair(s: seq<int>, i: int, leftEven: int, leftOdd: int, prefixEven: int, prefixOdd: int)
    requires 0 <= i < |s|
    requires leftEven == ParitySum(s[..i], 0) && leftOdd == ParitySum(s[..i], 1)
    requires prefixEven == ParitySum(s[..i + 1], 0) && prefixOdd == ParitySum(s[..i + 1], 1)
    ensures Fair(s, i) <==> leftEven + (ParitySum(s, 1) - prefixOdd) == leftOdd + (ParitySum(s, 0) - prefixEven)
  {
    PrefixStep(s, i, 0);
    PrefixStep(s, i, 1);
    FairBySums(s, i, leftEven, leftOdd, ParitySum(s, 0) - prefixEven, ParitySum(s, 1) - prefixOdd);
  }

  /** Solution3: prefix arrays of the parity sums, then the fairness test at every index. */
  method PrefixArrays(nums: seq<int>) returns (count: int)
    requires |nums| > 0
    ensures count == Answer(nums)
  {
    var n := |nums|;
    var prefixEven, prefixOdd := Prefixes(nums);
    count := 0;
    var totalEven := prefixEven[n - 1];
    var totalOdd := prefixOdd[n - 1];
    assert nums[..n] == nums;
    for i := 0 to n
      invariant count == FairCount(nums, i)
      invariant forall k :: 0 <= k < n ==> prefixEven[k] == ParitySum(nums[..k + 1], 0)
      invariant forall k :: 0 <= k < n ==> prefixOdd[k] == ParitySum(nums[..k + 1], 1)
    {
      var leftEven := if i > 0 then prefixEven[i - 1] else 0;
      var leftOdd := if i > 0 then prefixOdd[i - 1] else 0;
      var rightEven := totalEven - prefixEven[i];
      var rightOdd := totalOdd - prefixOdd[i];
      var newEvenSum := leftEven + rightOdd;
      var newOddSum := leftOdd + rightEven;
      if i > 0 {
        assert nums[..(i - 1) + 1] == nums[..i];
      } else {
        assert nums[..i] == [];
      }
      PrefixFair(nums, i, leftEven, leftOdd, prefixEven[i], prefixOdd[i]);
      if newEvenSum == newOddSum {
        count := count + 1;
      }
    }
  }

  // ---------------------------------------------------------------------
  // The driver's cases

  lemma SampleOne()
    ensures Answer([2, 1, 6, 4]) == 1
  {
    var s := [2, 1, 6, 4];
    assert Removed(s, 0) == [1, 6, 4] && Removed(s, 1) == [2, 6, 4];
    assert Removed(s, 2) == [2, 1, 4] && Removed(s, 3) == [2, 1, 6];
    assert [1, 6, 4][..2] == [1, 6] && [1, 6][..1] == [1] && [1][..0] == [];
    assert [2, 6, 4][..2] == [2, 6] && [2, 6][..1] == [2] && [2][..0] == [];
    assert [2, 1, 4][..2] == [2, 1] && [2, 1][..1] == [2];
    assert [2, 1, 6][..2] == [2, 1];
    assert !Fair(s, 0) && Fair(s, 1) && !Fair(s, 2) && !Fair(s, 3);
  }

  lemma SampleTwo()
    ensures Answer([1, 1, 1]) == 3
  {
    var s := [1, 1, 1];
    assert Removed(s, 0) == [1, 1] && Removed(s, 1) == [1, 1] && Removed(s, 2) == [1, 1];
    assert [1, 1][..1] == [1] && [1][..0] == [];
    assert Fair(s, 0) && Fair(s, 1) && Fair(s, 2);
  }

  lemma SampleThree()
    ensures Answer([1, 2, 3]) == 0
  {
    var s := [1, 2, 3];
    assert Removed(s, 0) == [2, 3] && Removed(s, 1) == [1, 3] && Removed(s, 2) == [1, 2];
    assert [2, 3][..1] == [2] && [1, 3][..1] == [1] && [1, 2][..1] == [1] && [2][..0] == [] && [1][..0] == [];
    assert !Fair(s, 0) && !Fair(s, 1) && !Fair(s, 2);
  }
}

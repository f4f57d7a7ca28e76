// Kth Largest Element in a Stream: a class built from k and a list of
// integers whose add(val) records val and returns the k-th largest value
// recorded so far. Four variants: a min-heap holding the k largest values
// (KthLargest), the whole list re-sorted in descending order on every add
// (KthLargest_Sorting), a descending list kept sorted by binary-search
// insertion (KthLargest_BinarySearch), and a descending list cut back to its
// k largest values (KthLargest_TopK). heapq's array layout is not modelled:
// the heap is the ascending list of its values, whose first element is the
// heap's top min_heap[0]. The problem guarantees k >= 1.

module KthLargestStream {
  import opened Common
  import opened BinarySearch
  import opened Sorting
  import LinkedList

  function Min(a: int, b: int): int {
    if a <= b then a else b
  }

  /** Descending order (duplicates allowed), as sort(reverse=True) leaves a list. */
  ghost predicate Descending(s: seq<int>) {
    forall i, j :: 0 <= i < j < |s| ==> s[i] >= s[j]
  }

  /** A list is ascending exactly when its reverse is descending. */
  lemma {:induction false} RevOrder(t: seq<int>)
    ensures Sorted(t) <==> Descending(LinkedList.Rev(t))
  {
    var r := LinkedList.Rev(t);
    var n := |t|;
    if Sorted(t) {
      forall i, j | 0 <= i < j < n ensures r[i] >= r[j] {
        assert r[i] == t[n - 1 - i] && r[j] == t[n - 1 - j];
      }
    }
    if Descending(r) {
      forall i, j | 0 <= i < j < n ensures t[i] <= t[j] {
        assert r[n - 1 - i] == t[i] && r[n - 1 - j] == t[j];
      }
    }
  }

  /** sorted(s, reverse=True): the descending permutation of s. */
  function SortDesc(s: seq<int>): (r: seq<int>)
    ensures Descending(r) && multiset(r) == multiset(s) && |r| == |s|
  {
    SortSorted(s);
    RevOrder(Sort(s));
    LinkedList.RevMultiset(Sort(s));
    LinkedList.Rev(Sort(s))
  }

  /** Two descending lists with the same elements are the same list. */
  lemma {:induction false} DescUnique(a: seq<int>, b: seq<int>)
    requires Descending(a) && Descending(b) && multiset(a) == multiset(b)
    ensures a == b
  {
    LinkedList.RevRev(a);
    LinkedList.RevRev(b);
    RevOrder(LinkedList.Rev(a));
    RevOrder(LinkedList.Rev(b));
    LinkedList.RevMultiset(a);
    LinkedList.RevMultiset(b);
    SortedUnique(LinkedList.Rev(a), LinkedList.Rev(b));
  }

  /**
   * The answer to add: the k-th value of s in descending order, or the
   * smallest value when s holds fewer than k.
   */
  function Kth(s: seq<int>, k: int): (r: int)
    requires k >= 1 && |s| >= 1
    ensures r in multiset(s)
  {
    assert SortDesc(s)[Min(k, |s|) - 1] in multiset(SortDesc(s));
    SortDesc(s)[Min(k, |s|) - 1]
  }

  /** A descending list's first value is the maximum of its elements. */
  lemma {:induction false} DescFirst(d: seq<int>, s: seq<int>)
    requires Descending(d) && multiset(d) == multiset(s) && |s| > 0
    ensures d[0] == Greatest(s)
  {
    var g := Greatest(s);
    assert g in multiset(d);
    var i :| 0 <= i < |d| && d[i] == g;
    assert d[0] >= d[i];
    assert d[0] in multiset(s);
    assert d[0] in s;
  }

  /** A descending list's last value is the minimum of its elements. */
  lemma {:induction false} DescLast(d: seq<int>, s: seq<int>)
    requires Descending(d) && multiset(d) == multiset(s) && |s| > 0
    ensures |d| > 0 && d[|d| - 1] == Least(s)
  {
    var m := Least(s);
    assert m in multiset(d);
    var i :| 0 <= i < |d| && d[i] == m;
    assert d[i] >= d[|d| - 1];
    assert d[|d| - 1] in multiset(s);
    assert d[|d| - 1] in s;
  }

  /** The first largest value is the maximum. */
  lemma {:induction false} KthFirstIsMax(s: seq<int>)
    requires |s| >= 1
    ensures Kth(s, 1) == Greatest(s)
  {
    DescFirst(SortDesc(s), s);
  }

  /** With k or fewer values recorded, the answer is the minimum. */
  lemma {:induction false} KthBeyondIsMin(s: seq<int>, k: int)
    requires 1 <= |s| <= k
    ensures Kth(s, k) == Least(s)
  {
    DescLast(SortDesc(s), s);
  }

  /** The answer depends only on the values recorded, not their order. */
  lemma {:induction false} KthPerm(a: seq<int>, b: seq<int>, k: int)
    requires k >= 1 && |a| >= 1 && multiset(a) == multiset(b)
    ensures |b| >= 1 && Kth(a, k) == Kth(b, k)
  {
    assert |a| == |multiset(a)| == |b|;
    DescUnique(SortDesc(a), SortDesc(b));
  }

  // ---------------------------------------------------------------------
  // KthLargest: a min-heap of the k largest values

  /** The k largest values of an ascending list, ascending: the heap's contents. */
  function Top(t: seq<int>, k: int): seq<int>
    requires k >= 0
  {
    t[|t| - Min(k, |t|)..]
  }

  /** Inserting into an ascending list and then dropping the first j+1 values equals inserting into its last values and dropping one. */
  lemma {:induction false} InsortSuffix(t: seq<int>, j: int, v: int)
    requires Sorted(t) && 0 <= j <= |t|
    ensures Insort(t, v)[j + 1..] == Insort(t[j..], v)[1..]
    decreases j
  {
    if j == 0 {
    } else if v < t[0] {
      if j < |t| {
        assert t[j..][0] == t[j];
      }
    } else {
      assert t[1..][j - 1..] == t[j..];
      InsortSuffix(t[1..], j - 1, v);
    }
  }

  /** Sorting a list with one more value inserts that value into the sorted list. */
  lemma {:induction false} SortSnoc(s: seq<int>, v: int)
    ensures Sort(s + [v]) == Insort(Sort(s), v)
  {
    assert (s + [v])[..|s|] == s;
  }

  /** Top unfolded, for proofs that should not unfold it themselves. */
  lemma {:induction false} TopIs(t: seq<int>, k: int)
    requires k >= 0
    ensures Top(t, k) == t[|t| - Min(k, |t|)..]
  {
  }

  /** A list of at most k values is its own k largest. */
  lemma {:induction false} TopShort(w: seq<int>, k: int)
    requires |w| <= k
    ensures Top(w, k) == w
  {
  }

  /** Of more values, the k largest are the last k. */
  lemma {:induction false} TopLong(w: seq<int>, k: int)
    requires 0 <= k <= |w|
    ensures Top(w, k) == w[|w| - k..]
  {
  }

  /** Inserting v into fewer than k values keeps them all. */
  lemma {:induction false} TopInsertShort(t: seq<int>, k: int, v: int)
    requires |t| < k
    ensures Top(Insort(t, v), k) == Insort(Top(t, k), v) && |Insort(Top(t, k), v)| <= k
  {
    TopShort(t, k);
    TopShort(Insort(t, v), k);
  }

  /** Inserting v into at least k ascending values and keeping k drops the least of v and the old k largest. */
  lemma {:induction false} TopInsertLong(t: seq<int>, k: int, v: int)
    requires 0 <= k <= |t| && Sorted(t)
    ensures Top(Insort(t, v), k) == Insort(Top(t, k), v)[1..] && |Insort(Top(t, k), v)| == k + 1
  {
    var w := Insort(t, v);
    var j := |t| - k;
    TopLong(t, k);
    TopLong(w, k);
    InsortSuffix(t, j, v);
    assert Insort(Top(t, k), v) == Insort(t[j..], v);
    assert Top(w, k) == w[j + 1..];
  }

  /** Inserting v into an ascending list and keeping its k largest values only needs the k largest values it had. */
  lemma {:induction false} TopInsert(t: seq<int>, k: int, v: int)
    requires k >= 1 && Sorted(t)
    ensures var u := Insort(Top(t, k), v);
            Top(Insort(t, v), k) == if |u| > k then u[1..] else u
  {
    if |t| < k {
      TopInsertShort(t, k, v);
    } else {
      TopInsertLong(t, k, v);
    }
  }

  /**
   * One heap step: pushing v onto the k largest values of s and popping
   * the least when more than k remain gives the k largest values of s + [v].
   */
  lemma {:induction false} TopAdd(s: seq<int>, k: int, v: int)
    requires k >= 1
    ensures var u := Insort(Top(Sort(s), k), v);
            Top(Sort(s + [v]), k) == if |u| > k then u[1..] else u
  {
    SortSorted(s);
    SortSnoc(s, v);
    TopInsert(Sort(s), k, v);
  }

  /** The heap's top is the answer. */
  lemma {:induction false} TopFirst(s: seq<int>, k: int)
    requires k >= 1 && |s| >= 1
    ensures |Top(Sort(s), k)| >= 1 && Top(Sort(s), k)[0] == Kth(s, k)
  {
  }

  /** heappush(min_heap, val), then heappop when the heap holds more than k values. */
  method Offer(heap: seq<int>, k: int, val: int, ghost seen: seq<int>) returns (heap': seq<int>)
    requires k >= 1 && heap == Top(Sort(seen), k)
    ensures heap' == Top(Sort(seen + [val]), k)
  {
    heap' := Insort(heap, val);
    if |heap'| > k {
      heap' := heap'[1..];
    }
    TopAdd(seen, k, val);
  }

  /** h is the heap of the k largest values of seen. */
  ghost predicate HoldsTop(h: seq<int>, seen: seq<int>, k: int)
    requires k >= 1
  {
    h == Top(Sort(seen), k)
  }

  /** One more element of a list extends its prefix by that element. */
  lemma {:induction false} PrefixSnoc(s: seq<int>, i: int)
    requires 0 <= i < |s|
    ensures s[..i] + [s[i]] == s[..i + 1]
  {
  }

  /** The constructor's loop: offer each of nums in turn to an empty heap. */
  method Build(k: int, nums: seq<int>) returns (h: seq<int>)
    requires k >= 1
    ensures HoldsTop(h, nums, k)
  {
    h := [];
    ghost var seen: seq<int> := [];
    var i := 0;
    while i < |nums|
      invariant 0 <= i <= |nums| && seen == nums[..i]
      invariant HoldsTop(h, seen, k)
    {
      PrefixSnoc(nums, i);
      h := Offer(h, k, nums[i], seen);
      seen := seen + [nums[i]];
      i := i + 1;
    }
    assert nums[..|nums|] == nums;
  }

  class KthLargest {
    const k: int
    var minHeap: seq<int>
    ghost var seen: seq<int>

    /** The heap holds the k largest values seen (all of them while fewer than k). */
    ghost predicate Valid()
      reads this
    {
      k >= 1 && minHeap == Top(Sort(seen), k)
    }

    constructor (k: int, nums: seq<int>)
      requires k >= 1
      ensures Valid() && this.k == k && seen == nums
    {
      var h := Build(k, nums);
      this.k, minHeap, seen := k, h, nums;
    }

    /** add: record val and answer the k-th largest value seen. */
    method Add(val: int) returns (r: int)
      requires Valid()
      modifies this
      ensures Valid() && seen == old(seen) + [val]
      ensures r == Kth(seen, k)
    {
      minHeap := Offer(minHeap, k, val, seen);
      seen := seen + [val];
      TopFirst(seen, k);
      r := minHeap[0];
    }
  }

  // ---------------------------------------------------------------------
  // KthLargest_Sorting: append and re-sort the whole list

  class SortingKth {
    const k: int
    var nums: seq<int>

    constructor (k: int, nums: seq<int>)
      requires k >= 1
      ensures this.k == k && this.nums == nums
    {
      this.k, this.nums := k, nums;
    }

    /** add: the list becomes every value so far in descending order; IndexError (None) while it holds fewer than k. */
    method Add(val: int) returns (r: Option<int>)
      requires k >= 1
      modifies this
      ensures Descending(nums) && multiset(nums) == multiset(old(nums)) + multiset{val}
      ensures r == if k <= |old(nums)| + 1 then Some(Kth(old(nums) + [val], k)) else None
    {
      var d := SortDesc(nums + [val]);
      r := if k - 1 < |d| then Some(d[k - 1]) else None;
      nums := d;
    }
  }

  // ---------------------------------------------------------------------
  // KthLargest_BinarySearch: insert at the binary-search position

  /**
   * bisect_left on the negated list: in a descending list, the first index
   * whose value is not above v.
   */
  function FirstAtMost(d: seq<int>, v: int): (p: int)
    requires Descending(d)
    ensures 0 <= p <= |d|
    ensures forall i :: 0 <= i < p ==> d[i] > v
    ensures forall i :: p <= i < |d| ==> d[i] <= v
  {
    if d == [] || d[0] <= v then 0 else 1 + FirstAtMost(d[1..], v)
  }

  /** Inserting at that index keeps the list descending. */
  lemma {:induction false} InsertDescending(d: seq<int>, v: int)
    requires Descending(d)
    ensures var p := FirstAtMost(d, v);
            Descending(d[..p] + [v] + d[p..]) && multiset(d[..p] + [v] + d[p..]) == multiset(d) + multiset{v}
  {
    var p := FirstAtMost(d, v);
    var r := d[..p] + [v] + d[p..];
    forall i, j | 0 <= i < j < |r| ensures r[i] >= r[j] {
      if j < p {
        assert r[i] == d[i] && r[j] == d[j];
      } else if j == p {
        assert r[i] == d[i];
      } else if i > p {
        assert r[i] == d[i - 1] && r[j] == d[j - 1];
      } else if i == p {
        assert r[j] == d[j - 1];
      } else {
        assert r[i] == d[i] && r[j] == d[j - 1];
      }
    }
    assert d == d[..p] + d[p..];
  }

  /** The binary-search insertion gives the descending sort of the list with v. */
  lemma {:induction false} BisectStep(d: seq<int>, v: int)
    requires Descending(d)
    ensures var p := FirstAtMost(d, v); d[..p] + [v] + d[p..] == SortDesc(d + [v])
  {
    var p := FirstAtMost(d, v);
    InsertDescending(d, v);
    DescUnique(d[..p] + [v] + d[p..], SortDesc(d + [v]));
  }

  class BisectKth {
    const k: int
    var nums: seq<int>

    ghost predicate Valid()
      reads this
    {
      k >= 1 && Descending(nums)
    }

    /** The list starts as nums sorted in descending order. */
    constructor (k: int, nums: seq<int>)
      requires k >= 1
      ensures Valid() && this.k == k && multiset(this.nums) == multiset(nums)
    {
      this.k, this.nums := k, SortDesc(nums);
    }

    /** add: val goes in at its binary-search position; IndexError (None) while the list holds fewer than k. */
    method Add(val: int) returns (r: Option<int>)
      requires Valid()
      modifies this
      ensures Valid() && multiset(nums) == multiset(old(nums)) + multiset{val}
      ensures r == if k <= |old(nums)| + 1 then Some(Kth(old(nums) + [val], k)) else None
    {
      ghost var after := SortDesc(nums + [val]);
      var pos := FirstAtMost(nums, val);
      BisectStep(nums, val);
      nums := nums[..pos] + [val] + nums[pos..];
      assert nums == after;
      r := if k - 1 < |nums| then Some(nums[k - 1]) else None;
    }
  }

  // ---------------------------------------------------------------------
  // KthLargest_TopK: a descending list cut back to its k largest values

  /** A prefix of a reversed list, with the matching suffix given by name. */
  lemma {:induction false} RevSlice(t: seq<int>, m: int, u: seq<int>)
    requires 0 <= m <= |t| && u == t[|t| - m..]
    ensures LinkedList.Rev(t)[..m] == LinkedList.Rev(u)
  {
    LinkedList.RevPrefix(t, m);
  }

  /** The first k values of a reversed list are its last k values reversed. */
  lemma {:induction false} RevTop(t: seq<int>, k: int)
    requires k >= 1
    ensures LinkedList.Rev(t)[..Min(k, |t|)] == LinkedList.Rev(Top(t, k))
  {
    TopIs(t, k);
    RevSlice(t, Min(k, |t|), Top(t, k));
  }

  /** The k largest values of s, in descending order, are the heap's contents reversed. */
  lemma {:induction false} DescTop(s: seq<int>, k: int)
    requires k >= 1
    ensures SortDesc(s)[..Min(k, |s|)] == LinkedList.Rev(Top(Sort(s), k))
  {
    assert SortDesc(s) == LinkedList.Rev(Sort(s));
    RevTop(Sort(s), k);
  }

  /** The k largest values of an ascending list are ascending. */
  lemma {:induction false} TopSorted(t: seq<int>, k: int)
    requires Sorted(t) && k >= 0
    ensures Sorted(Top(t, k))
  {
    var d := |t| - Min(k, |t|);
    forall i, j | 0 <= i < j < |t| - d ensures Top(t, k)[i] <= Top(t, k)[j] {
      assert Top(t, k)[i] == t[d + i] && Top(t, k)[j] == t[d + j];
    }
  }

  /** Re-sorting a descending list with one more value, in descending order, is the insertion into the ascending list reversed. */
  lemma {:induction false} DescOfInsert(top: seq<int>, v: int, x: seq<int>)
    requires Sorted(top) && x == LinkedList.Rev(top) + [v]
    ensures SortDesc(x) == LinkedList.Rev(Insort(top, v))
  {
    var u := Insort(top, v);
    InsortSorted(top, v);
    LinkedList.RevMultiset(top);
    assert multiset(x) == multiset(u);
    SortSorted(x);
    SortedUnique(Sort(x), u);
    assert SortDesc(x) == LinkedList.Rev(Sort(x));
  }

  /** After one insertion into at most k values, the k largest drop at most the first. */
  lemma {:induction false} TopOfInsert(u: seq<int>, n: int, k: int)
    requires |u| == n + 1 && 0 <= n <= k
    ensures Top(u, k) == if |u| > k then u[1..] else u
  {
    if |u| > k {
      TopLong(u, k);
    } else {
      TopShort(u, k);
    }
  }

  /** One TopK step: re-sorting the k largest values of s with v and cutting to k gives the k largest values of s + [v]. */
  lemma {:induction false} TopKStep(s: seq<int>, k: int, v: int, nums: seq<int>)
    requires k >= 1 && nums == SortDesc(s)[..Min(k, |s|)]
    ensures var d := SortDesc(nums + [v]);
            d[..Min(k, |d|)] == SortDesc(s + [v])[..Min(k, |s| + 1)]
  {
    var t := Sort(s);
    var top := Top(t, k);
    var u := Insort(top, v);
    var x := nums + [v];
    SortSorted(s);
    TopSorted(t, k);
    DescTop(s, k);
    DescOfInsert(top, v, x);
    RevTop(u, k);
    TopOfInsert(u, |top|, k);
    TopAdd(s, k, v);
    DescTop(s + [v], k);
  }

  /** The answer is the last of the k largest values. */
  lemma {:induction false} KthLast(s: seq<int>, k: int, e: seq<int>)
    requires k >= 1 && |s| >= 1 && e == SortDesc(s)[..Min(k, |s|)]
    ensures |e| == Min(k, |s|) && Kth(s, k) == e[|e| - 1]
  {
  }

  class TopKKth {
    const k: int
    var nums: seq<int>
    ghost var seen: seq<int>

    /** The list holds the k largest values seen, in descending order. */
    ghost predicate Valid()
      reads this
    {
      k >= 1 && nums == SortDesc(seen)[..Min(k, |seen|)]
    }

    constructor (k: int, nums: seq<int>)
      requires k >= 1
      ensures Valid() && this.k == k && seen == nums
    {
      this.k := k;
      var d := SortDesc(nums);
      this.nums := d[..Min(k, |d|)];
      seen := nums;
    }

    /** add: append, re-sort, cut to k; the last value while fewer than k are held, else the k-th. */
    method Add(val: int) returns (r: int)
      requires Valid()
      modifies this
      ensures Valid() && seen == old(seen) + [val]
      ensures r == Kth(seen, k)
    {
      TopKStep(seen, k, val, nums);
      var d := SortDesc(nums + [val]);
      nums := d[..Min(k, |d|)];
      seen := seen + [val];
      KthLast(seen, k, nums);
      if |nums| < k {
        r := nums[|nums| - 1];
      } else {
        r := nums[k - 1];
      }
    }
  }
}

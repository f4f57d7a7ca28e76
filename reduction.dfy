// Reduction Operations to Make the Array Elements Equal: one operation lowers
// one occurrence of the largest value to the next smaller distinct value,
// until every element is equal. Each element is therefore lowered once per
// distinct value below it, and the answer is the sum of those counts.
// Variants: sort and carry a level, a counting array, a Counter over its
// sorted keys, and the positions where a new value starts in the sorted list.

module Reduction {
  import opened BinarySearch
  import opened Sorting

  /** The distinct values of s below x. */
  function Smaller(s: seq<int>, x: int): set<int> {
    set v | v in s && v < x
  }

  /** The operations spent on the elements of t when the values present are those of s. */
  function Ops(t: seq<int>, s: seq<int>): nat {
    if t == [] then 0 else |Smaller(s, t[0])| + Ops(t[1..], s)
  }

  /** The number of operations for nums: each element is lowered once per distinct smaller value. */
  function Answer(nums: seq<int>): nat {
    Ops(nums, nums)
  }

  // ---------------------------------------------------------------------
  // Ops over concatenations and permutations

  lemma {:induction false} OpsAppend(a: seq<int>, b: seq<int>, s: seq<int>)
    ensures Ops(a + b, s) == Ops(a, s) + Ops(b, s)
  {
    if a == [] {
      assert a + b == b;
    } else {
      assert (a + b)[1..] == a[1..] + b;
      OpsAppend(a[1..], b, s);
    }
  }

  lemma OpsLast(t: seq<int>, s: seq<int>)
    requires |t| > 0
    ensures Ops(t, s) == Ops(t[..|t| - 1], s) + |Smaller(s, t[|t| - 1])|
  {
    var n := |t| - 1;
    assert t == t[..n] + [t[n]];
    OpsAppend(t[..n], [t[n]], s);
    assert [t[n]][1..] == [];
  }

  lemma {:induction false} OpsInsort(t: seq<int>, v: int, s: seq<int>)
    ensures Ops(Insort(t, v), s) == Ops(t, s) + |Smaller(s, v)|
  {
    if t != [] && v >= t[0] {
      OpsInsort(t[1..], v, s);
    }
  }

  /** Sorting the elements does not change the operations they take. */
  lemma {:induction false} OpsSort(t: seq<int>, s: seq<int>)
    ensures Ops(Sort(t), s) == Ops(t, s)
  {
    if t != [] {
      var n := |t| - 1;
      OpsSort(t[..n], s);
      OpsInsort(Sort(t[..n]), t[n], s);
      OpsLast(t, s);
    }
  }

  /** Only which values are present matters, not how often or in what order. */
  lemma {:induction false} OpsSameValues(t: seq<int>, s: seq<int>, s': seq<int>)
    requires forall v :: v in s <==> v in s'
    ensures Ops(t, s) == Ops(t, s')
  {
    if t != [] {
      assert Smaller(s, t[0]) == Smaller(s', t[0]);
      OpsSameValues(t[1..], s, s');
    }
  }

  /** The answer does not depend on the order of the input, so the variants may sort it first. */
  lemma AnswerSort(nums: seq<int>)
    ensures Answer(Sort(nums)) == Answer(nums)
  {
    var s := Sort(nums);
    assert forall v :: v in s <==> v in nums by {
      forall v ensures v in s <==> v in nums {
        assert v in s <==> v in multiset(s);
      }
    }
    OpsSameValues(s, s, nums);
    OpsSort(nums, nums);
  }

  /** An array whose elements are all equal takes no operations. */
  lemma {:induction false} AllEqualZero(t: seq<int>, s: seq<int>)
    requires forall i, j :: 0 <= i < |t| && 0 <= j < |s| ==> t[i] <= s[j]
    ensures Ops(t, s) == 0
  {
    if t != [] {
      assert Smaller(s, t[0]) == {};
      AllEqualZero(t[1..], s);
    }
  }

  lemma AllEqualAnswer(nums: seq<int>)
    requires forall i :: 0 <= i < |nums| ==> nums[i] == nums[0]
    ensures Answer(nums) == 0
  {
    AllEqualZero(nums, nums);
  }

  // ---------------------------------------------------------------------
  // Solution: sort, then carry the level of the current value

  /** In an ascending list the first value has nothing below it. */
  lemma SmallerFirst(s: seq<int>)
    requires Sorted(s) && |s| > 0
    ensures Smaller(s, s[0]) == {}
  {
  }

  /**
   * Walking an ascending list, the count of distinct smaller values stays
   * the same on a repeat and rises by exactly one on a new value.
   */
  lemma SmallerStep(s: seq<int>, i: int)
    requires Sorted(s) && 0 < i < |s|
    ensures s[i] == s[i - 1] ==> |Smaller(s, s[i])| == |Smaller(s, s[i - 1])|
    ensures s[i] != s[i - 1] ==> |Smaller(s, s[i])| == |Smaller(s, s[i - 1])| + 1
  {
    if s[i] != s[i - 1] {
      var a, b := Smaller(s, s[i - 1]), Smaller(s, s[i]);
      forall v | v in b ensures v in a + {s[i - 1]} {
        var j :| 0 <= j < |s| && s[j] == v;
      }
      assert b == a + {s[i - 1]};
      assert s[i - 1] !in a;
    }
  }

  /** One step of Solution's loop: element i gets the level it was raised to. */
  lemma LevelStep(s: seq<int>, i: int, level: int, operations: int, i': int, level': int, operations': int)
    requires Sorted(s) && 0 < i < |s| && i' == i + 1
    requires level == |Smaller(s, s[i - 1])| && operations == Ops(s[..i], s)
    requires level' == (if s[i] != s[i - 1] then level + 1 else level) && operations' == operations + level'
    ensures level' == |Smaller(s, s[i' - 1])| && operations' == Ops(s[..i'], s)
  {
    SmallerStep(s, i);
    OpsLast(s[..i + 1], s);
    assert s[..i + 1][..i] == s[..i];
  }

  /** Solution: sort, then add the level of every element after the first, raising it on each new value. */
  method Greedy(nums: seq<int>) returns (operations: int)
    ensures operations == Answer(nums)
  {
    var s := Sort(nums);
    SortSorted(nums);
    AnswerSort(nums);
    operations := 0;
    var level := 0;
    if |s| > 0 {
      SmallerFirst(s);
      assert s[..1] == [s[0]];
    }
    var i := 1;
    while i < |s|
      invariant 1 <= i && (|s| == 0 || i <= |s|)
      invariant |s| > 0 ==> level == |Smaller(s, s[i - 1])| && operations == Ops(s[..i], s)
      invariant |s| == 0 ==> operations == 0
    {
      ghost var level0, operations0 := level, operations;
      if s[i] != s[i - 1] {
        level := level + 1;
      }
      operations := operations + level;
      LevelStep(s, i, level0, operations0, i + 1, level, operations);
      i := i + 1;
    }
    if |s| > 0 {
      assert s[..i] == s;
    }
  }

  // ---------------------------------------------------------------------
  // The same sum counted per value: each distinct value above the least is
  // passed by every element at least as large

  /** How many elements of t are at least v. */
  function AtLeast(t: seq<int>, v: int): nat {
    if t == [] then 0 else (if t[0] >= v then 1 else 0) + AtLeast(t[1..], v)
  }

  /** The sum of AtLeast(t, v) over the values v of s in [lo, hi). */
  function KeySum(s: seq<int>, t: seq<int>, lo: int, hi: int): nat
    decreases hi - lo
  {
    if lo >= hi then 0 else (if lo in s then AtLeast(t, lo) else 0) + KeySum(s, t, lo + 1, hi)
  }

  /** How many values of s in [lo, hi) are at most x. */
  function Upto(s: seq<int>, x: int, lo: int, hi: int): nat
    decreases hi - lo
  {
    if lo >= hi then 0 else (if lo in s && lo <= x then 1 else 0) + Upto(s, x, lo + 1, hi)
  }

  /** The sum of Upto over the elements of t. */
  function UptoSum(t: seq<int>, s: seq<int>, lo: int, hi: int): nat {
    if t == [] then 0 else Upto(s, t[0], lo, hi) + UptoSum(t[1..], s, lo, hi)
  }

  /** AtLeast drops by the occurrences of v when the bound rises past v. */
  lemma {:induction false} AtLeastStep(t: seq<int>, v: int)
    ensures AtLeast(t, v) == AtLeast(t, v + 1) + multiset(t)[v]
  {
    if t != [] {
      AtLeastStep(t[1..], v);
      assert t == [t[0]] + t[1..];
    }
  }

  /** Raising the bound over values t does not hold leaves AtLeast unchanged. */
  lemma {:induction false} AtLeastGap(t: seq<int>, a: int, b: int)
    requires a <= b && forall k :: 0 <= k < |t| ==> t[k] < a || b <= t[k]
    ensures AtLeast(t, a) == AtLeast(t, b)
  {
    if t != [] {
      AtLeastGap(t[1..], a, b);
    }
  }

  /** No element reaches a bound above them all. */
  lemma {:induction false} AtLeastNone(t: seq<int>, v: int)
    requires forall k :: 0 <= k < |t| ==> t[k] < v
    ensures AtLeast(t, v) == 0
  {
    if t != [] {
      AtLeastNone(t[1..], v);
    }
  }

  /** Every element reaches a bound below them all. */
  lemma {:induction false} AtLeastAll(t: seq<int>, v: int)
    requires forall k :: 0 <= k < |t| ==> v <= t[k]
    ensures AtLeast(t, v) == |t|
  {
    if t != [] {
      AtLeastAll(t[1..], v);
    }
  }

  lemma {:induction false} AtLeastAppend(a: seq<int>, b: seq<int>, v: int)
    ensures AtLeast(a + b, v) == AtLeast(a, v) + AtLeast(b, v)
  {
    if a == [] {
      assert a + b == b;
    } else {
      assert (a + b)[1..] == a[1..] + b;
      AtLeastAppend(a[1..], b, v);
    }
  }

  /** In an ascending list, the elements at least the value that starts at p are those from p on. */
  lemma SortedAtLeast(s: seq<int>, p: int)
    requires Sorted(s) && 0 <= p < |s| && (p == 0 || s[p - 1] < s[p])
    ensures AtLeast(s, s[p]) == |s| - p
  {
    var a, b := s[..p], s[p..];
    assert s == a + b;
    AtLeastAppend(a, b, s[p]);
    forall k | 0 <= k < |a| ensures a[k] < s[p] {
      assert a[k] == s[k] <= s[p - 1];
    }
    AtLeastNone(a, s[p]);
    forall k | 0 <= k < |b| ensures s[p] <= b[k] {
      assert b[k] == s[p + k];
    }
    AtLeastAll(b, s[p]);
  }

  /** Skipping a range of values s does not hold leaves KeySum unchanged. */
  lemma {:induction false} KeySumGap(s: seq<int>, t: seq<int>, a: int, b: int, hi: int)
    requires a <= b <= hi && forall v :: v in s ==> v < a || b <= v
    ensures KeySum(s, t, a, hi) == KeySum(s, t, b, hi)
    decreases b - a
  {
    if a < b {
      KeySumGap(s, t, a + 1, b, hi);
    }
  }

  lemma {:induction false} KeySumEmpty(s: seq<int>, lo: int, hi: int)
    ensures KeySum(s, [], lo, hi) == 0
    decreases hi - lo
  {
    if lo < hi {
      KeySumEmpty(s, lo + 1, hi);
    }
  }

  /** One more element y adds the number of values of s up to y. */
  lemma {:induction false} KeySumCons(s: seq<int>, y: int, t: seq<int>, lo: int, hi: int)
    ensures KeySum(s, [y] + t, lo, hi) == Upto(s, y, lo, hi) + KeySum(s, t, lo, hi)
    decreases hi - lo
  {
    if lo < hi {
      assert ([y] + t)[1..] == t;
      KeySumCons(s, y, t, lo + 1, hi);
    }
  }

  /** Counting per element or per value gives the same total. */
  lemma {:induction false} Exchange(t: seq<int>, s: seq<int>, lo: int, hi: int)
    ensures UptoSum(t, s, lo, hi) == KeySum(s, t, lo, hi)
  {
    if t == [] {
      KeySumEmpty(s, lo, hi);
    } else {
      Exchange(t[1..], s, lo, hi);
      assert t == [t[0]] + t[1..];
      KeySumCons(s, t[0], t[1..], lo, hi);
    }
  }

  /** Upto counts the values of s in [lo, hi) up to x. */
  lemma {:induction false} UptoCard(s: seq<int>, x: int, lo: int, hi: int)
    ensures Upto(s, x, lo, hi) == |set v | v in s && lo <= v < hi && v <= x|
    decreases hi - lo
  {
    var here := set v | v in s && lo <= v < hi && v <= x;
    if lo >= hi {
      assert here == {};
    } else {
      var rest := set v | v in s && lo + 1 <= v < hi && v <= x;
      UptoCard(s, x, lo + 1, hi);
      if lo in s && lo <= x {
        assert here == rest + {lo};
        assert lo !in rest;
      } else {
        assert here == rest;
      }
    }
  }

  /**
   * When lo is the least value of s and every value is below hi, the
   * distinct values below x number as many as those above lo up to x.
   */
  lemma SmallerUpto(s: seq<int>, x: int, lo: int, hi: int)
    requires x in s && lo in s && forall v :: v in s ==> lo <= v < hi
    ensures |Smaller(s, x)| == Upto(s, x, lo + 1, hi)
  {
    var a := Smaller(s, x);
    var b := set v | v in s && lo + 1 <= v < hi && v <= x;
    UptoCard(s, x, lo + 1, hi);
    assert a + {x} == b + {lo};
    assert x !in a && lo !in b;
    assert |a + {x}| == |a| + 1;
    assert |b + {lo}| == |b| + 1;
  }

  lemma {:induction false} OpsUpto(t: seq<int>, s: seq<int>, lo: int, hi: int)
    requires forall x :: x in t ==> x in s
    requires lo in s && forall v :: v in s ==> lo <= v < hi
    ensures Ops(t, s) == UptoSum(t, s, lo + 1, hi)
  {
    if t != [] {
      SmallerUpto(s, t[0], lo, hi);
      OpsUpto(t[1..], s, lo, hi);
    }
  }

  /**
   * The answer, counted per value: for every distinct value above the least
   * one, the number of elements at least that value.
   */
  lemma AnswerKeySum(s: seq<int>, lo: int, hi: int)
    requires lo in s && forall v :: v in s ==> lo <= v < hi
    ensures Answer(s) == KeySum(s, s, lo + 1, hi)
  {
    OpsUpto(s, s, lo, hi);
    Exchange(s, s, lo + 1, hi);
  }

  // ---------------------------------------------------------------------
  // Solution2: a counting array over [min, max]

  /** [0] * n. */
  function Zeros(n: nat): (r: seq<int>)
    ensures |r| == n && forall j :: 0 <= j < n ==> r[j] == 0
  {
    if n == 0 then [] else Zeros(n - 1) + [0]
  }

  /** A single element takes no operations. */
  lemma SingleZero(nums: seq<int>)
    requires |nums| == 1
    ensures Answer(nums) == 0
  {
    AllEqualAnswer(nums);
  }

  /**
   * Solution2: count each value's occurrences in an array indexed from the
   * minimum, then walk it from the top down, accumulating how many elements
   * lie at or above each present value.
   */
  method Counting(nums: seq<int>) returns (operations: int)
    requires |nums| > 0
    ensures operations == Answer(nums)
  {
    if |nums| == 1 {
      SingleZero(nums);
      return 0;
    }
    var hi := Greatest(nums);
    var lo := Least(nums);
    var count := Zeros(hi - lo + 1);
    for k := 0 to |nums|
      invariant |count| == hi - lo + 1
      invariant forall j :: 0 <= j < |count| ==> count[j] == multiset(nums[..k])[lo + j]
    {
      assert nums[..k + 1] == nums[..k] + [nums[k]];
      assert nums[k] in nums;
      count := count[nums[k] - lo := count[nums[k] - lo] + 1];
    }
    assert nums[..|nums|] == nums;
    operations := 0;
    var cumulative := 0;
    AtLeastNone(nums, hi + 1);
    for i := |count| downto 1
      invariant cumulative == AtLeast(nums, lo + i)
      invariant operations == KeySum(nums, nums, lo + i, hi + 1)
    {
      AtLeastStep(nums, lo + i);
      if count[i] > 0 {
        cumulative := cumulative + count[i];
        operations := operations + cumulative;
      }
    }
    AnswerKeySum(nums, lo, hi + 1);
  }

  // ---------------------------------------------------------------------
  // Solution3: a Counter and its keys in descending order

  /** Strictly descending, so without repeats. */
  ghost predicate Descending(k: seq<int>) {
    forall i, j :: 0 <= i < j < |k| ==> k[i] > k[j]
  }

  /** Insert v into a descending list of distinct keys, unless it is there already. */
  function KeyInsert(k: seq<int>, v: int): (r: seq<int>)
    ensures forall x :: x in r <==> x in k || x == v
    ensures |r| > 0
  {
    if k == [] then [v]
    else if v > k[0] then [v] + k
    else if v == k[0] then k
    else
      assert k == [k[0]] + k[1..];
      [k[0]] + KeyInsert(k[1..], v)
  }

  lemma {:induction false} KeyInsertDescending(k: seq<int>, v: int)
    requires Descending(k)
    ensures Descending(KeyInsert(k, v))
  {
    if k != [] && v < k[0] {
      KeyInsertDescending(k[1..], v);
      var r := KeyInsert(k, v);
      assert r == [k[0]] + KeyInsert(k[1..], v);
      forall i, j | 0 <= i < j < |r| ensures r[i] > r[j] {
        if i == 0 {
          assert r[j] in KeyInsert(k[1..], v);
        }
      }
    }
  }

  /** sorted(Counter(s).keys(), reverse=True). */
  function Keys(s: seq<int>): (k: seq<int>)
    ensures forall x :: x in k <==> x in s
    ensures k == [] <==> s == []
  {
    if s == [] then []
    else
      var n := |s| - 1;
      assert s == s[..n] + [s[n]];
      KeyInsert(Keys(s[..n]), s[n])
  }

  lemma {:induction false} KeysDescending(s: seq<int>)
    ensures Descending(Keys(s))
  {
    if s != [] {
      var n := |s| - 1;
      KeysDescending(s[..n]);
      KeyInsertDescending(Keys(s[..n]), s[n]);
    }
  }

  /** No value lies strictly between two neighbouring keys. */
  lemma KeysGap(keys: seq<int>, i: int)
    requires Descending(keys) && 0 <= i < |keys| - 1
    ensures forall v :: v in keys ==> v <= keys[i + 1] || keys[i] <= v
  {
    forall v | v in keys ensures v <= keys[i + 1] || keys[i] <= v {
      var j :| 0 <= j < |keys| && keys[j] == v;
      if j < i {
        assert keys[j] > keys[i];
      } else if j > i + 1 {
        assert keys[i + 1] > keys[j];
      }
    }
  }

  /** The first key is the largest value, the last the smallest. */
  lemma KeysEnds(keys: seq<int>, s: seq<int>)
    requires Descending(keys) && |keys| > 0 && forall x :: x in keys <==> x in s
    ensures forall v :: v in s ==> keys[|keys| - 1] <= v <= keys[0]
  {
    forall v | v in s ensures keys[|keys| - 1] <= v <= keys[0] {
      var j :| 0 <= j < |keys| && keys[j] == v;
      if 0 < j {
        assert keys[0] > keys[j];
      }
      if j < |keys| - 1 {
        assert keys[j] > keys[|keys| - 1];
      }
    }
  }

  /** One step of Solution3's loop: key i joins the elements at or above it. */
  lemma KeyStep(nums: seq<int>, keys: seq<int>, i: int)
    requires Descending(keys) && (forall x :: x in keys <==> x in nums) && 0 <= i < |keys| - 1
    ensures AtLeast(nums, keys[i]) == AtLeast(nums, keys[i + 1] + 1)
    ensures AtLeast(nums, keys[i]) == AtLeast(nums, keys[i] + 1) + multiset(nums)[keys[i]]
    ensures KeySum(nums, nums, keys[i + 1] + 1, keys[0] + 1)
      == AtLeast(nums, keys[i]) + KeySum(nums, nums, keys[i] + 1, keys[0] + 1)
  {
    KeysGap(keys, i);
    forall k | 0 <= k < |nums| ensures nums[k] < keys[i + 1] + 1 || keys[i] <= nums[k] {
      assert nums[k] in nums;
    }
    AtLeastGap(nums, keys[i + 1] + 1, keys[i]);
    AtLeastStep(nums, keys[i]);
    if i > 0 {
      assert keys[0] > keys[i];
    }
    KeySumGap(nums, nums, keys[i + 1] + 1, keys[i], keys[0] + 1);
    assert keys[i] in nums;
  }

  /**
   * Solution3: walk the distinct values from the largest down to the second
   * smallest, accumulating how many elements lie at or above each.
   */
  method CounterKeys(nums: seq<int>) returns (operations: int)
    ensures operations == Answer(nums)
  {
    var counter := multiset(nums);
    var keys := Keys(nums);
    KeysDescending(nums);
    if |keys| > 0 {
      KeysEnds(keys, nums);
      forall k | 0 <= k < |nums| ensures nums[k] < keys[0] + 1 {
        assert nums[k] in nums;
      }
      AtLeastNone(nums, keys[0] + 1);
      AnswerKeySum(nums, keys[|keys| - 1], keys[0] + 1);
    }
    if |keys| == 1 {
      return 0;
    }
    operations := 0;
    var cumulative := 0;
    var i := 0;
    while i < |keys| - 1
      invariant 0 <= i && (|keys| == 0 || i < |keys|)
      invariant |keys| > 0 ==> cumulative == AtLeast(nums, keys[i] + 1)
      invariant |keys| > 0 ==> operations == KeySum(nums, nums, keys[i] + 1, keys[0] + 1)
      invariant |keys| == 0 ==> operations == 0
    {
      KeyStep(nums, keys, i);
      cumulative := cumulative + counter[keys[i]];
      operations := operations + cumulative;
      i := i + 1;
    }
  }

  // ---------------------------------------------------------------------
  // Solution4: the positions where a new value starts in the sorted list

  /** starts begins with 0 and rises, below i. */
  ghost predicate Rising(starts: seq<int>, i: int) {
    && |starts| >= 1 && starts[0] == 0
    && (forall j :: 0 <= j < |starts| ==> 0 <= starts[j] < i)
    && (forall j :: 0 < j < |starts| ==> starts[j - 1] < starts[j])
  }

  /** Every start after the first opens a new value. */
  ghost predicate Opens(s: seq<int>, starts: seq<int>) {
    forall j :: 0 < j < |starts| ==> 0 < starts[j] < |s| && s[starts[j] - 1] != s[starts[j]]
  }

  /** Every element up to the last start holds the value of the start before it. */
  ghost predicate Runs(s: seq<int>, starts: seq<int>) {
    forall j, q :: 0 <= j < |starts| - 1 && 0 <= starts[j] <= q < starts[j + 1] <= |s| ==> s[q] == s[starts[j]]
  }

  /** The elements from the last start up to i hold its value. */
  ghost predicate LastRun(s: seq<int>, starts: seq<int>, i: int) {
    |starts| > 0 && forall q :: 0 <= starts[|starts| - 1] <= q < i <= |s| ==> s[q] == s[starts[|starts| - 1]]
  }

  /**
   * The facts Solution4's first loop establishes about starts over the first
   * i elements: it begins with 0, rises, each later start opens a new value,
   * and every element belongs to the run of the start before it.
   */
  ghost predicate Starts(s: seq<int>, starts: seq<int>, i: int) {
    1 <= i <= |s| && Rising(starts, i) && Opens(s, starts) && Runs(s, starts) && LastRun(s, starts, i)
  }

  /** A repeated value extends the last run. */
  lemma StartsExtend(s: seq<int>, starts: seq<int>, i: int)
    requires Starts(s, starts, i) && i < |s| && s[i] == s[i - 1]
    ensures Starts(s, starts, i + 1)
  {
    var last := |starts| - 1;
    assert s[i - 1] == s[starts[last]];
  }

  lemma RisingOpen(starts: seq<int>, i: int)
    requires Rising(starts, i)
    ensures Rising(starts + [i], i + 1)
  {
    var r := starts + [i];
    assert forall j :: 0 <= j < |starts| ==> r[j] == starts[j];
  }

  lemma OpensOpen(s: seq<int>, starts: seq<int>, i: int)
    requires Opens(s, starts) && 0 < i < |s| && s[i] != s[i - 1]
    ensures Opens(s, starts + [i])
  {
    var r := starts + [i];
    assert forall j :: 0 <= j < |starts| ==> r[j] == starts[j];
  }

  lemma RunsOpen(s: seq<int>, starts: seq<int>, i: int)
    requires Rising(starts, i) && Runs(s, starts) && LastRun(s, starts, i) && i < |s|
    ensures Runs(s, starts + [i])
  {
    var r := starts + [i];
    forall j, q | 0 <= j < |r| - 1 && 0 <= r[j] <= q < r[j + 1] <= |s| ensures s[q] == s[r[j]] {
      if j == |starts| - 1 {
        assert r[j] == starts[j] && r[j + 1] == i;
      } else {
        assert r[j] == starts[j] && r[j + 1] == starts[j + 1];
      }
    }
  }

  /** A new value opens a run at i. */
  lemma StartsOpen(s: seq<int>, starts: seq<int>, i: int)
    requires Starts(s, starts, i) && i < |s| && s[i] != s[i - 1]
    ensures Starts(s, starts + [i], i + 1)
  {
    RisingOpen(starts, i);
    OpensOpen(s, starts, i);
    RunsOpen(s, starts, i);
  }

  /** Extending the scan by element i keeps the facts, adding a start exactly when the value changes. */
  lemma StartsStep(s: seq<int>, starts: seq<int>, i: int, starts': seq<int>)
    requires Starts(s, starts, i) && i < |s|
    requires starts' == if s[i] != s[i - 1] then starts + [i] else starts
    ensures Starts(s, starts', i + 1)
  {
    if s[i] != s[i - 1] {
      StartsOpen(s, starts, i);
    } else {
      StartsExtend(s, starts, i);
    }
  }

  /** Between two neighbouring starts' values there is no other value. */
  lemma StartsGap(s: seq<int>, starts: seq<int>, j: int)
    requires Sorted(s) && Starts(s, starts, |s|) && 0 < j < |starts|
    ensures s[starts[j - 1]] < s[starts[j]]
    ensures forall v :: v in s ==> v <= s[starts[j - 1]] || s[starts[j]] <= v
  {
    var p := starts[j];
    assert s[p - 1] == s[starts[j - 1]];
    forall v | v in s ensures v <= s[starts[j - 1]] || s[p] <= v {
      var q :| 0 <= q < |s| && s[q] == v;
      if q < p {
        assert s[q] <= s[p - 1];
      } else {
        assert s[p] <= s[q];
      }
    }
  }

  /** One step of Solution4's second loop. */
  lemma StartsStepSum(s: seq<int>, starts: seq<int>, j: int, top: int)
    requires Sorted(s) && Starts(s, starts, |s|) && 0 < j < |starts| && top == s[|s| - 1] + 1
    ensures |s| - starts[j] + KeySum(s, s, s[starts[j]] + 1, top) == KeySum(s, s, s[starts[j - 1]] + 1, top)
  {
    StartsGap(s, starts, j);
    SortedAtLeast(s, starts[j]);
    assert s[starts[j]] <= s[|s| - 1];
    KeySumGap(s, s, s[starts[j - 1]] + 1, s[starts[j]], top);
    assert s[starts[j]] in s;
  }

  /** Solution4's first loop: the positions in the sorted list where a new value starts. */
  method FindStarts(s: seq<int>) returns (starts: seq<int>)
    ensures |s| == 0 ==> starts == [0]
    ensures |s| > 0 ==> Starts(s, starts, |s|)
  {
    starts := [0];
    var i := 1;
    while i < |s|
      invariant |s| == 0 ==> starts == [0] && i == 1
      invariant |s| > 0 ==> Starts(s, starts, i)
    {
      var starts' := if s[i] != s[i - 1] then starts + [i] else starts;
      StartsStep(s, starts, i, starts');
      starts := starts';
      i := i + 1;
    }
  }

  /** The last run reaches the end of the list, and the values lie between the first and the last. */
  lemma StartsEnds(s: seq<int>, starts: seq<int>)
    requires Sorted(s) && |s| > 0 && Starts(s, starts, |s|)
    ensures s[|s| - 1] == s[starts[|starts| - 1]]
    ensures forall v :: v in s ==> s[0] <= v < s[|s| - 1] + 1
  {
    forall v | v in s ensures s[0] <= v < s[|s| - 1] + 1 {
      var q :| 0 <= q < |s| && s[q] == v;
    }
  }

  /** Solution4's second loop: every start after the first adds the elements from there to the end. */
  method SumStarts(s: seq<int>, starts: seq<int>) returns (operations: int)
    requires Sorted(s) && |s| > 0 && Starts(s, starts, |s|)
    ensures operations == Answer(s)
  {
    ghost var top := s[|s| - 1] + 1;
    ghost var total := KeySum(s, s, s[0] + 1, top);
    operations := 0;
    var j := 1;
    while j < |starts|
      invariant 1 <= j <= |starts|
      invariant operations + KeySum(s, s, s[starts[j - 1]] + 1, top) == total
    {
      StartsStepSum(s, starts, j, top);
      operations := operations + (|s| - starts[j]);
      j := j + 1;
    }
    StartsEnds(s, starts);
    AnswerKeySum(s, s[0], top);
  }

  /**
   * Solution4: sort, record where each new value starts, then add, for every
   * start after the first, the number of elements from there to the end. An
   * empty list leaves both loops idle.
   */
  method UniquePositions(nums: seq<int>) returns (operations: int)
    ensures operations == Answer(nums)
  {
    var s := Sort(nums);
    SortSorted(nums);
    AnswerSort(nums);
    var starts := FindStarts(s);
    if |s| == 0 {
      return 0;
    }
    operations := SumStarts(s, starts);
  }

  // ---------------------------------------------------------------------
  // Samples from the driver

  lemma Samples()
    ensures Answer([5, 1, 3]) == 3
    ensures Answer([1, 1, 1]) == 0
    ensures Answer([1, 1, 2, 2, 3]) == 4
  {
    var a := [5, 1, 3];
    assert Smaller(a, 5) == {1, 3};
    assert Smaller(a, 1) == {};
    assert Smaller(a, 3) == {1};
    assert a[1..] == [1, 3] && a[1..][1..] == [3] && a[1..][1..][1..] == [];
    AllEqualAnswer([1, 1, 1]);
    var b := [1, 1, 2, 2, 3];
    assert Smaller(b, 1) == {};
    assert Smaller(b, 2) == {1};
    assert Smaller(b, 3) == {1, 2};
    assert b[1..] == [1, 2, 2, 3] && b[2..] == [2, 2, 3] && b[3..] == [2, 3] && b[4..] == [3];
    assert Ops(b[4..], b) == 2 && Ops(b[3..], b) == 3 && Ops(b[2..], b) == 4;
  }
}

// Python's list.sort / sorted, bisect.insort, sum, min and max on integer lists, shared
// by the solutions that use them. Only the result of a sort is modelled: the
// ascending permutation of the input (Timsort's steps are not).

module Sorting {
  import opened BinarySearch

  /** bisect.insort: insert v after every element not above it (ascending lists stay ascending, InsortSorted). */
  function Insort(s: seq<int>, v: int): (r: seq<int>)
    ensures multiset(r) == multiset(s) + multiset{v}
    ensures |r| == |s| + 1
  {
    if s == [] then [v]
    else if v < s[0] then [v] + s
    else
      assert s == [s[0]] + s[1..];
      [s[0]] + Insort(s[1..], v)
  }

  /** insort goes past a first element not above v. */
  lemma InsortPast(a: int, t: seq<int>, v: int)
    requires a <= v
    ensures Insort([a] + t, v) == [a] + Insort(t, v)
  {
    assert ([a] + t)[1..] == t;
  }

  /** Inserting into an ascending list keeps it ascending. */
  lemma {:induction false} InsortSorted(s: seq<int>, v: int)
    requires Sorted(s)
    ensures Sorted(Insort(s, v))
  {
    if s == [] {
    } else if v < s[0] {
      ConsSorted(v, s);
    } else {
      var t := Insort(s[1..], v);
      InsortSorted(s[1..], v);
      forall k | 0 <= k < |t| ensures s[0] <= t[k] {
        assert t[k] in multiset(s[1..]) + multiset{v};
        assert s == [s[0]] + s[1..];
      }
      ConsSorted(s[0], t);
    }
  }

  /** Putting an element no larger than any other in front of an ascending list keeps it ascending. */
  lemma ConsSorted(a: int, t: seq<int>)
    requires Sorted(t) && forall k :: 0 <= k < |t| ==> a <= t[k]
    ensures Sorted([a] + t)
  {
    var r := [a] + t;
    forall i, j | 0 <= i < j < |r| ensures r[i] <= r[j] {
      assert r[j] == t[j - 1];
      if i > 0 {
        assert r[i] == t[i - 1];
      }
    }
  }

  /** sorted(s): the permutation of s that SortSorted shows ascending. */
  function Sort(s: seq<int>): (r: seq<int>)
    ensures multiset(r) == multiset(s)
    ensures |r| == |s|
  {
    if s == [] then []
    else
      assert s == s[..|s| - 1] + [s[|s| - 1]];
      Insort(Sort(s[..|s| - 1]), s[|s| - 1])
  }

  /** sorted returns an ascending list. */
  lemma {:induction false} SortSorted(s: seq<int>)
    ensures Sorted(Sort(s))
  {
    if s != [] {
      SortSorted(s[..|s| - 1]);
      InsortSorted(Sort(s[..|s| - 1]), s[|s| - 1]);
    }
  }

  /** Two ascending lists with the same elements are the same list. */
  lemma {:induction false} SortedUnique(a: seq<int>, b: seq<int>)
    requires Sorted(a) && Sorted(b) && multiset(a) == multiset(b)
    ensures a == b
    decreases |a|
  {
    assert |a| == |multiset(a)| == |b|;
    if |a| > 0 {
      var n := |a| - 1;
      SortedLastIsMax(b);
      SortedTop(a, b, b[n]);
      PopLast(a);
      PopLast(b);
      PrefixSorted(a, n);
      PrefixSorted(b, n);
      SortedUnique(a[..n], b[..n]);
      SameInitLast(a, b);
    }
  }

  /** Two non-empty lists that agree before their last elements and on them are equal. */
  lemma SameInitLast(a: seq<int>, b: seq<int>)
    requires |a| == |b| > 0 && a[..|a| - 1] == b[..|b| - 1] && a[|a| - 1] == b[|b| - 1]
    ensures a == b
  {
    assert a == a[..|a| - 1] + [a[|a| - 1]];
    assert b == b[..|b| - 1] + [b[|b| - 1]];
  }

  /** A prefix of an ascending list is ascending. */
  lemma PrefixSorted(t: seq<int>, n: int)
    requires Sorted(t) && 0 <= n <= |t|
    ensures Sorted(t[..n])
  {
  }

  /** No element of an ascending list exceeds its last one. */
  lemma SortedLastIsMax(s: seq<int>)
    requires Sorted(s) && |s| > 0
    ensures forall z :: z in s ==> z <= s[|s| - 1]
  {
  }

  /** The last element of a non-empty ascending list is the largest of its bag. */
  lemma SortedBagMax(s: seq<int>)
    requires Sorted(s) && |s| > 0
    ensures s[|s| - 1] in multiset(s) && forall z :: z in multiset(s) ==> z <= s[|s| - 1]
  {
    SortedLastIsMax(s);
  }

  /** An ascending permutation of s ends in s's largest element. */
  lemma SortedTop(t: seq<int>, s: seq<int>, y: int)
    requires Sorted(t) && multiset(t) == multiset(s)
    requires y in s && forall z :: z in s ==> z <= y
    ensures |t| > 0 && t[|t| - 1] == y
  {
    assert |t| == |multiset(s)| == |s|;
    assert y in multiset(t);
    var k :| 0 <= k < |t| && t[k] == y;
    assert t[|t| - 1] in multiset(s);
    assert t[|t| - 1] in s;
  }

  /** list.pop(): dropping the last element removes one copy of it. */
  lemma PopLast(s: seq<int>)
    requires |s| > 0
    ensures multiset(s[..|s| - 1]) == multiset(s) - multiset{s[|s| - 1]}
  {
    assert s == s[..|s| - 1] + [s[|s| - 1]];
  }

  /** list.pop(i): dropping position i removes one copy of s[i]. */
  lemma PopAt(s: seq<int>, i: int)
    requires 0 <= i < |s|
    ensures multiset(s[..i] + s[i + 1..]) == multiset(s) - multiset{s[i]}
  {
    assert s == s[..i] + [s[i]] + s[i + 1..];
  }

  /** Some element of a non-empty multiset. */
  ghost function Pick<T>(m: multiset<T>): (x: T)
    requires m != multiset{}
    ensures x in m
  {
    assert |m| != 0;
    var x :| x in m; x
  }

  /** The elements of a multiset, in some order. */
  ghost function SeqOf(m: multiset<int>): (s: seq<int>)
    ensures multiset(s) == m
    decreases |m|
  {
    if m == multiset{} then []
    else
      var x := Pick(m);
      assert m == (m - multiset{x}) + multiset{x};
      [x] + SeqOf(m - multiset{x})
  }

  /** sum(s). */
  function Sum(s: seq<int>): int {
    if s == [] then 0 else s[0] + Sum(s[1..])
  }

  /** The sum of a concatenation is the sum of the sums. */
  lemma {:induction false} SumAppend(a: seq<int>, b: seq<int>)
    ensures Sum(a + b) == Sum(a) + Sum(b)
  {
    if a == [] {
      assert a + b == b;
    } else {
      assert (a + b)[1..] == a[1..] + b;
      SumAppend(a[1..], b);
    }
  }

  /** Inserting v adds v to the sum. */
  lemma {:induction false} SumInsort(s: seq<int>, v: int)
    ensures Sum(Insort(s, v)) == Sum(s) + v
  {
    if s != [] && v >= s[0] {
      SumInsort(s[1..], v);
    }
  }

  /** Sorting keeps the sum. */
  lemma {:induction false} SumSort(s: seq<int>)
    ensures Sum(Sort(s)) == Sum(s)
  {
    if s != [] {
      var n := |s| - 1;
      SumSort(s[..n]);
      SumInsort(Sort(s[..n]), s[n]);
      SumLast(s);
    }
  }

  /** The sum is the sum of all but the last element, plus the last. */
  lemma SumLast(s: seq<int>)
    requires |s| > 0
    ensures Sum(s) == Sum(s[..|s| - 1]) + s[|s| - 1]
  {
    var n := |s| - 1;
    assert s == s[..n] + [s[n]];
    SumAppend(s[..n], [s[n]]);
    assert [s[n]][1..] == [];
  }

  /** min(s). */
  function Least(s: seq<int>): (m: int)
    requires |s| > 0
    ensures m in s && forall v :: v in s ==> m <= v
    ensures forall k :: 0 <= k < |s| ==> m <= s[k]
  {
    if |s| == 1 then s[0]
    else
      var m := Least(s[1..]);
      assert s == [s[0]] + s[1..];
      if s[0] <= m then s[0] else m
  }

  /** max(s). */
  function Greatest(s: seq<int>): (m: int)
    requires |s| > 0
    ensures m in s && forall v :: v in s ==> v <= m
    ensures forall k :: 0 <= k < |s| ==> s[k] <= m
  {
    if |s| == 1 then s[0]
    else
      var m := Greatest(s[1..]);
      assert s == [s[0]] + s[1..];
      if s[0] >= m then s[0] else m
  }

  /** Lexicographic order on pairs, as Python compares tuples and two-element lists. */
  predicate LexLe(p: (int, int), q: (int, int)) {
    p.0 < q.0 || (p.0 == q.0 && p.1 <= q.1)
  }

  ghost predicate PairsSorted(ps: seq<(int, int)>) {
    forall i, j :: 0 <= i < j < |ps| ==> LexLe(ps[i], ps[j])
  }

  function InsertPair(ps: seq<(int, int)>, p: (int, int)): (r: seq<(int, int)>)
    ensures multiset(r) == multiset(ps) + multiset{p}
  {
    if ps == [] then [p]
    else if !LexLe(ps[0], p) then [p] + ps
    else
      assert ps == [ps[0]] + ps[1..];
      [ps[0]] + InsertPair(ps[1..], p)
  }

  /** pairs.sort(). */
  function SortPairs(ps: seq<(int, int)>): (r: seq<(int, int)>)
    ensures multiset(r) == multiset(ps)
  {
    if ps == [] then []
    else
      var n := |ps| - 1;
      assert ps == ps[..n] + [ps[n]];
      InsertPair(SortPairs(ps[..n]), ps[n])
  }

  lemma {:induction false} InsertPairSorted(ps: seq<(int, int)>, p: (int, int))
    requires PairsSorted(ps)
    ensures PairsSorted(InsertPair(ps, p))
  {
    if ps != [] && LexLe(ps[0], p) {
      InsertPairSorted(ps[1..], p);
      var r := InsertPair(ps, p);
      var t := InsertPair(ps[1..], p);
      assert r == [ps[0]] + t;
      forall k | 0 <= k < |t| ensures LexLe(ps[0], t[k]) {
        assert t[k] in multiset(t);
      }
    }
  }

  lemma {:induction false} SortPairsSorted(ps: seq<(int, int)>)
    ensures PairsSorted(SortPairs(ps))
  {
    if ps != [] {
      SortPairsSorted(ps[..|ps| - 1]);
      InsertPairSorted(SortPairs(ps[..|ps| - 1]), ps[|ps| - 1]);
    }
  }
}

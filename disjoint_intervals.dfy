// Data Stream as Disjoint Intervals: integers arrive one at a time, and
// getIntervals lists the values seen so far as sorted, disjoint intervals
// [start, end]. Variants: an ordered dict start -> end (SummaryRanges), a
// set sorted on demand (SummaryRanges2), a list kept merged with a binary
// search (SummaryRanges3) and the same list searched with bisect_left
// (SummaryRanges4). Every list-based state is a sequence of intervals, and
// each class keeps the values seen so far as a ghost set.

module DisjointIntervals {

  /** One interval [lo, hi] of the summary. */
  datatype Interval = Interval(lo: int, hi: int)

  function Max(a: int, b: int): int {
    if a >= b then a else b
  }

  /** x lies in the interval. */
  predicate In(x: int, i: Interval) {
    i.lo <= x <= i.hi
  }

  /** x lies in one of the intervals. */
  ghost predicate Covers(iv: seq<Interval>, x: int) {
    exists k :: 0 <= k < |iv| && In(x, iv[k])
  }

  /**
   * The summary's shape: every interval is non-empty, and each one ends
   * more than one below the start of every later one, so the intervals are
   * sorted, disjoint and not adjacent.
   */
  ghost predicate Canonical(iv: seq<Interval>) {
    && (forall k :: 0 <= k < |iv| ==> iv[k].lo <= iv[k].hi)
    && (forall i, j :: 0 <= i < j < |iv| ==> iv[i].hi + 1 < iv[j].lo)
  }

  /** The intervals hold exactly the values of seen. */
  ghost predicate Summarizes(iv: seq<Interval>, seen: set<int>) {
    Canonical(iv) && forall x :: Covers(iv, x) <==> x in seen
  }

  // ---------------------------------------------------------------------
  // Facts about canonical summaries

  /** The values covered by a concatenation are those covered by either part. */
  lemma CoversAppend(a: seq<Interval>, b: seq<Interval>, x: int)
    ensures Covers(a + b, x) <==> Covers(a, x) || Covers(b, x)
  {
    if Covers(a + b, x) {
      var k :| 0 <= k < |a + b| && In(x, (a + b)[k]);
      if k < |a| {
        assert In(x, a[k]);
      } else {
        assert In(x, b[k - |a|]);
      }
    }
    if Covers(a, x) {
      var k :| 0 <= k < |a| && In(x, a[k]);
      assert (a + b)[k] == a[k];
    }
    if Covers(b, x) {
      var k :| 0 <= k < |b| && In(x, b[k]);
      assert (a + b)[|a| + k] == b[k];
    }
  }

  /** Two canonical runs, the first ending more than one below the second's start, join into one. */
  lemma CanonicalJoin(a: seq<Interval>, b: seq<Interval>)
    requires Canonical(a) && Canonical(b)
    requires a == [] || b == [] || a[|a| - 1].hi + 1 < b[0].lo
    ensures Canonical(a + b)
  {
    var r := a + b;
    forall i, j | 0 <= i < j < |r| ensures r[i].hi + 1 < r[j].lo {
      if j < |a| {
        assert r[i] == a[i] && r[j] == a[j];
      } else if |a| <= i {
        assert r[i] == b[i - |a|] && r[j] == b[j - |a|];
      } else {
        assert r[i] == a[i] && r[j] == b[j - |a|];
        assert a[i].hi <= a[|a| - 1].hi;
        assert b[0].lo <= b[j - |a|].lo;
      }
    }
  }

  /** A canonical summary cut anywhere gives two canonical summaries. */
  lemma CanonicalSlices(iv: seq<Interval>, p: int)
    requires Canonical(iv) && 0 <= p <= |iv|
    ensures Canonical(iv[..p]) && Canonical(iv[p..])
  {
    var a, b := iv[..p], iv[p..];
    forall i, j | 0 <= i < j < |b| ensures b[i].hi + 1 < b[j].lo {
      assert b[i] == iv[p + i] && b[j] == iv[p + j];
    }
  }

  /** The summary as its part before p, one interval m, and its part after. */
  lemma Splice(iv: seq<Interval>, p: int, q: int, m: Interval)
    requires Canonical(iv) && 0 <= p <= q <= |iv| && m.lo <= m.hi
    requires p == 0 || iv[p - 1].hi + 1 < m.lo
    requires q == |iv| || m.hi + 1 < iv[q].lo
    ensures Canonical(iv[..p] + [m] + iv[q..])
    ensures forall x :: Covers(iv[..p] + [m] + iv[q..], x) <==> Covers(iv[..p], x) || In(x, m) || Covers(iv[q..], x)
  {
    CanonicalSlices(iv, p);
    CanonicalSlices(iv, q);
    CanonicalJoin(iv[..p], [m]);
    CanonicalJoin(iv[..p] + [m], iv[q..]);
    forall x ensures Covers(iv[..p] + [m] + iv[q..], x) <==> Covers(iv[..p], x) || In(x, m) || Covers(iv[q..], x) {
      CoversAppend(iv[..p] + [m], iv[q..], x);
      CoversAppend(iv[..p], [m], x);
      assert Covers([m], x) <==> In(x, m) by {
        if In(x, m) {
          assert In(x, [m][0]);
        }
      }
    }
  }

  /** The summary as its part before p, the intervals p .. q - 1, and its part after. */
  lemma Parts(iv: seq<Interval>, p: int, q: int, x: int)
    requires 0 <= p <= q <= |iv|
    ensures Covers(iv, x) <==> Covers(iv[..p], x) || Covers(iv[p..q], x) || Covers(iv[q..], x)
  {
    assert iv == iv[..p] + iv[p..q] + iv[q..];
    CoversAppend(iv[..p] + iv[p..q], iv[q..], x);
    CoversAppend(iv[..p], iv[p..q], x);
  }

  /** The values covered by one interval, or by two in a row. */
  lemma CoversOne(iv: seq<Interval>, p: int, x: int)
    requires 0 <= p < |iv|
    ensures Covers(iv[p..p + 1], x) <==> In(x, iv[p])
    ensures p + 2 <= |iv| ==> (Covers(iv[p..p + 2], x) <==> In(x, iv[p]) || In(x, iv[p + 1]))
  {
    if Covers(iv[p..p + 1], x) {
      var k :| 0 <= k < 1 && In(x, iv[p..p + 1][k]);
    }
    if In(x, iv[p]) {
      assert In(x, iv[p..p + 1][0]);
    }
    if p + 2 <= |iv| {
      if Covers(iv[p..p + 2], x) {
        var k :| 0 <= k < 2 && In(x, iv[p..p + 2][k]);
        assert iv[p..p + 2][k] == iv[p + k];
      }
      if In(x, iv[p]) {
        assert In(x, iv[p..p + 2][0]);
      }
      if In(x, iv[p + 1]) {
        assert In(x, iv[p..p + 2][1]);
      }
    }
  }

  /**
   * Where v falls in a canonical summary that does not hold it, when p
   * separates the starts at most v from those at least v: v - 1 is held
   * exactly when interval p - 1 ends at v - 1, and v + 1 exactly when
   * interval p starts at v + 1.
   */
  lemma Neighbours(iv: seq<Interval>, p: int, v: int)
    requires Canonical(iv) && 0 <= p <= |iv| && !Covers(iv, v)
    requires forall k :: 0 <= k < p ==> iv[k].lo <= v
    requires forall k :: p <= k < |iv| ==> v <= iv[k].lo
    ensures Covers(iv, v - 1) <==> p > 0 && iv[p - 1].hi == v - 1
    ensures Covers(iv, v + 1) <==> p < |iv| && iv[p].lo == v + 1
    ensures p > 0 ==> iv[p - 1].hi < v
    ensures p < |iv| ==> v < iv[p].lo
  {
    if p > 0 {
      assert !In(v, iv[p - 1]);
    }
    if p < |iv| {
      assert !In(v, iv[p]);
    }
    if Covers(iv, v - 1) {
      var k :| 0 <= k < |iv| && In(v - 1, iv[k]);
      assert !In(v, iv[k]);
      if k < p - 1 {
        assert iv[k].hi + 1 < iv[p - 1].lo;
      }
    }
    if p > 0 && iv[p - 1].hi == v - 1 {
      assert In(v - 1, iv[p - 1]);
    }
    if Covers(iv, v + 1) {
      var k :| 0 <= k < |iv| && In(v + 1, iv[k]);
      assert !In(v, iv[k]);
      if p < k {
        assert iv[p].hi + 1 < iv[k].lo;
      }
    }
    if p < |iv| && iv[p].lo == v + 1 {
      assert In(v + 1, iv[p]);
    }
  }

  /** Joining intervals p - 1 and p, which end at v - 1 and start at v + 1, adds exactly v. */
  lemma JoinBoth(iv: seq<Interval>, p: int, v: int)
    requires Canonical(iv) && 0 < p < |iv| && iv[p - 1].hi == v - 1 && iv[p].lo == v + 1
    ensures var r := iv[..p - 1] + [Interval(iv[p - 1].lo, iv[p].hi)] + iv[p + 1..];
            Canonical(r) && forall x :: Covers(r, x) <==> Covers(iv, x) || x == v
  {
    var m := Interval(iv[p - 1].lo, iv[p].hi);
    Splice(iv, p - 1, p + 1, m);
    forall x ensures Covers(iv, x) <==> Covers(iv[..p - 1], x) || In(x, iv[p - 1]) || In(x, iv[p]) || Covers(iv[p + 1..], x) {
      Parts(iv, p - 1, p + 1, x);
      CoversOne(iv, p - 1, x);
    }
  }

  /** Extending interval p - 1, which ends at v - 1, to v adds exactly v. */
  lemma ExtendLeft(iv: seq<Interval>, p: int, v: int)
    requires Canonical(iv) && 0 < p <= |iv| && iv[p - 1].hi == v - 1
    requires p == |iv| || v + 1 < iv[p].lo
    ensures var r := iv[..p - 1] + [Interval(iv[p - 1].lo, v)] + iv[p..];
            Canonical(r) && forall x :: Covers(r, x) <==> Covers(iv, x) || x == v
  {
    var m := Interval(iv[p - 1].lo, v);
    Splice(iv, p - 1, p, m);
    forall x ensures Covers(iv, x) <==> Covers(iv[..p - 1], x) || In(x, iv[p - 1]) || Covers(iv[p..], x) {
      Parts(iv, p - 1, p, x);
      CoversOne(iv, p - 1, x);
    }
  }

  /** Extending interval p, which starts at v + 1, down to v adds exactly v. */
  lemma ExtendRight(iv: seq<Interval>, p: int, v: int)
    requires Canonical(iv) && 0 <= p < |iv| && iv[p].lo == v + 1
    requires p == 0 || iv[p - 1].hi < v - 1
    ensures var r := iv[..p] + [Interval(v, iv[p].hi)] + iv[p + 1..];
            Canonical(r) && forall x :: Covers(r, x) <==> Covers(iv, x) || x == v
  {
    var m := Interval(v, iv[p].hi);
    Splice(iv, p, p + 1, m);
    forall x ensures Covers(iv, x) <==> Covers(iv[..p], x) || In(x, iv[p]) || Covers(iv[p + 1..], x) {
      Parts(iv, p, p + 1, x);
      CoversOne(iv, p, x);
    }
  }

  /** Inserting [v, v] at p, with no neighbour touching v, adds exactly v. */
  lemma InsertAlone(iv: seq<Interval>, p: int, v: int)
    requires Canonical(iv) && 0 <= p <= |iv|
    requires p == 0 || iv[p - 1].hi < v - 1
    requires p == |iv| || v + 1 < iv[p].lo
    ensures var r := iv[..p] + [Interval(v, v)] + iv[p..];
            Canonical(r) && forall x :: Covers(r, x) <==> Covers(iv, x) || x == v
  {
    Splice(iv, p, p, Interval(v, v));
    forall x ensures Covers(iv, x) <==> Covers(iv[..p], x) || Covers(iv[p..], x) {
      Parts(iv, p, p, x);
      assert !Covers(iv[p..p], x);
    }
  }

  /**
   * Adding a value v the summary does not hold, at the position p that
   * separates the starts below v from those above: join intervals p - 1
   * and p, extend p - 1 up to v, extend p down to v, or insert [v, v].
   * The summary stays canonical and gains exactly v; it loses an interval
   * when v bridges two, and gains one when v touches none.
   */
  function AddAt(iv: seq<Interval>, p: int, v: int): (r: seq<Interval>)
    requires Canonical(iv) && 0 <= p <= |iv| && !Covers(iv, v)
    requires forall k :: 0 <= k < p ==> iv[k].lo <= v
    requires forall k :: p <= k < |iv| ==> v <= iv[k].lo
    ensures Canonical(r)
    ensures forall x :: Covers(r, x) <==> Covers(iv, x) || x == v
    ensures |r| == if Covers(iv, v - 1) && Covers(iv, v + 1) then |iv| - 1
                   else if Covers(iv, v - 1) || Covers(iv, v + 1) then |iv|
                   else |iv| + 1
  {
    Neighbours(iv, p, v);
    if p > 0 && iv[p - 1].hi == v - 1 && p < |iv| && iv[p].lo == v + 1 then
      JoinBoth(iv, p, v);
      iv[..p - 1] + [Interval(iv[p - 1].lo, iv[p].hi)] + iv[p + 1..]
    else if p > 0 && iv[p - 1].hi == v - 1 then
      ExtendLeft(iv, p, v);
      iv[..p - 1] + [Interval(iv[p - 1].lo, v)] + iv[p..]
    else if p < |iv| && iv[p].lo == v + 1 then
      ExtendRight(iv, p, v);
      iv[..p] + [Interval(v, iv[p].hi)] + iv[p + 1..]
    else
      InsertAlone(iv, p, v);
      iv[..p] + [Interval(v, v)] + iv[p..]
  }

  // ---------------------------------------------------------------------
  // A set of values has one canonical summary

  /** The first interval's start is the least value held. */
  lemma HeadLo(a: seq<Interval>)
    requires Canonical(a) && a != []
    ensures Covers(a, a[0].lo)
    ensures forall x :: Covers(a, x) ==> a[0].lo <= x
  {
    assert In(a[0].lo, a[0]);
    forall x | Covers(a, x) ensures a[0].lo <= x {
      var k :| 0 <= k < |a| && In(x, a[k]);
    }
  }

  /** The first interval is held throughout, and the value just past it is not held. */
  lemma HeadHi(a: seq<Interval>)
    requires Canonical(a) && a != []
    ensures forall x :: a[0].lo <= x <= a[0].hi ==> Covers(a, x)
    ensures !Covers(a, a[0].hi + 1)
  {
    forall x | a[0].lo <= x <= a[0].hi ensures Covers(a, x) {
      assert In(x, a[0]);
    }
    forall k | 0 <= k < |a| ensures !In(a[0].hi + 1, a[k]) {
    }
  }

  /** The intervals after the first hold the values held beyond the first. */
  lemma TailCovers(a: seq<Interval>, x: int)
    requires Canonical(a) && a != []
    ensures Covers(a[1..], x) <==> Covers(a, x) && a[0].hi < x
  {
    CoversAppend([a[0]], a[1..], x);
    assert a == [a[0]] + a[1..];
    if Covers(a[1..], x) {
      var k :| 0 <= k < |a| - 1 && In(x, a[1..][k]);
      assert a[1..][k] == a[k + 1];
    }
    if Covers(a, x) && a[0].hi < x {
      var k :| 0 <= k < |a| && In(x, a[k]);
      assert k != 0;
      assert In(x, a[1..][k - 1]);
    }
  }

  /** Two canonical summaries of the same values are equal. */
  lemma {:induction false} Unique(a: seq<Interval>, b: seq<Interval>)
    requires Canonical(a) && Canonical(b)
    requires forall x :: Covers(a, x) <==> Covers(b, x)
    ensures a == b
    decreases |a|
  {
    if a != [] {
      HeadLo(a);
      assert Covers(b, a[0].lo);
    }
    if b != [] {
      HeadLo(b);
      assert Covers(a, b[0].lo);
    }
    if a != [] && b != [] {
      HeadHi(a);
      HeadHi(b);
      assert a[0] == b[0];
      forall x ensures Covers(a[1..], x) <==> Covers(b[1..], x) {
        TailCovers(a, x);
        TailCovers(b, x);
      }
      CanonicalSlices(a, 1);
      CanonicalSlices(b, 1);
      Unique(a[1..], b[1..]);
      assert a == [a[0]] + a[1..];
      assert b == [b[0]] + b[1..];
    }
  }

  /**
   * With p separating the starts at most v from those at least v, v is
   * held exactly when interval p - 1 reaches it or interval p starts at it.
   */
  lemma Locate(iv: seq<Interval>, p: int, v: int)
    requires Canonical(iv) && 0 <= p <= |iv|
    requires forall k :: 0 <= k < p ==> iv[k].lo <= v
    requires forall k :: p <= k < |iv| ==> v <= iv[k].lo
    ensures Covers(iv, v) <==> (p > 0 && v <= iv[p - 1].hi) || (p < |iv| && iv[p].lo == v)
  {
    if !((p > 0 && v <= iv[p - 1].hi) || (p < |iv| && iv[p].lo == v)) {
      forall k | 0 <= k < |iv| ensures !In(v, iv[k]) {
        if k < p - 1 {
          assert iv[k].hi + 1 < iv[p - 1].lo;
        } else if p < k {
          assert iv[p].hi + 1 < iv[k].lo;
        }
      }
    }
    if p > 0 && v <= iv[p - 1].hi {
      assert In(v, iv[p - 1]);
    }
    if p < |iv| && iv[p].lo == v {
      assert In(v, iv[p]);
    }
  }

  // ---------------------------------------------------------------------
  // SummaryRanges: an ordered dict from start to end

  /** SortedDict.bisect_right(v): the number of starts at most v. */
  function BisectRight(iv: seq<Interval>, v: int): (r: int)
    requires Canonical(iv)
    ensures 0 <= r <= |iv|
    ensures forall k :: 0 <= k < r ==> iv[k].lo <= v
    ensures forall k :: r <= k < |iv| ==> v < iv[k].lo
  {
    if iv == [] || v < iv[0].lo then
      0
    else
      CanonicalSlices(iv, 1);
      1 + BisectRight(iv[1..], v)
  }

  /** A summary of seen that does not hold v, extended by AddAt, summarizes seen and v; the interval count follows v's neighbours. */
  lemma AddAtSummarizes(iv: seq<Interval>, p: int, v: int, seen: set<int>)
    requires Summarizes(iv, seen) && 0 <= p <= |iv| && v !in seen
    requires forall k :: 0 <= k < p ==> iv[k].lo <= v
    requires forall k :: p <= k < |iv| ==> v <= iv[k].lo
    ensures Summarizes(AddAt(iv, p, v), seen + {v})
    ensures v - 1 in seen && v + 1 in seen ==> |AddAt(iv, p, v)| == |iv| - 1
    ensures v - 1 !in seen && v + 1 !in seen ==> |AddAt(iv, p, v)| == |iv| + 1
  {
  }

  /**
   * addNum's merge on the dict, for a value no interval holds, at the
   * position bisect_right gives: with both neighbours, delete the right one
   * and give the left its end; with the left alone, raise its end; with the
   * right alone, delete it and store its end under value; else store
   * [value, value].
   */
  method DictMerge(iv: seq<Interval>, idx: int, value: int) returns (r: seq<Interval>)
    requires Canonical(iv) && 0 <= idx <= |iv| && !Covers(iv, value)
    requires forall k :: 0 <= k < idx ==> iv[k].lo <= value
    requires forall k :: idx <= k < |iv| ==> value < iv[k].lo
    ensures r == AddAt(iv, idx, value)
  {
    Neighbours(iv, idx, value);
    r := iv;
    var hasLeft := |r| > 0 && idx > 0 && r[idx - 1].hi >= value - 1;
    var hasRight := |r| > 0 && idx < |r| && r[idx].lo <= value + 1;
    if hasLeft && hasRight {
      var newEnd := r[idx].hi;
      r := r[..idx] + r[idx + 1..];
      r := r[idx - 1 := Interval(r[idx - 1].lo, newEnd)];
      assert r == iv[..idx - 1] + [Interval(iv[idx - 1].lo, iv[idx].hi)] + iv[idx + 1..];
    } else if hasLeft {
      r := r[idx - 1 := Interval(r[idx - 1].lo, Max(r[idx - 1].hi, value))];
      assert r == iv[..idx - 1] + [Interval(iv[idx - 1].lo, value)] + iv[idx..];
    } else if hasRight {
      var end := r[idx].hi;
      r := r[..idx] + r[idx + 1..];
      r := r[..idx] + [Interval(value, end)] + r[idx..];
      assert r == iv[..idx] + [Interval(value, iv[idx].hi)] + iv[idx + 1..];
    } else {
      r := r[..idx] + [Interval(value, value)] + r[idx..];
    }
  }

  class SummaryRanges {
    /** The dict's items in key order. */
    var intervals: seq<Interval>
    ghost var seen: set<int>

    ghost predicate Valid()
      reads this
    {
      Summarizes(intervals, seen)
    }

    constructor ()
      ensures Valid() && seen == {}
    {
      intervals, seen := [], {};
    }

    /**
     * addNum: return if the interval starting at or before value reaches
     * it; otherwise merge with the left interval when it ends at value - 1,
     * with the right one when it starts at value + 1, or both, or add
     * [value, value].
     */
    method AddNum(value: int)
      requires Valid()
      modifies this
      ensures Valid() && seen == old(seen) + {value}
      ensures value in old(seen) ==> intervals == old(intervals)
      ensures value !in old(seen) && value - 1 in old(seen) && value + 1 in old(seen) ==> |intervals| == |old(intervals)| - 1
      ensures value !in old(seen) && value - 1 !in old(seen) && value + 1 !in old(seen) ==> |intervals| == |old(intervals)| + 1
    {
      var idx := BisectRight(intervals, value);
      Locate(intervals, idx, value);
      if |intervals| > 0 && idx > 0 && intervals[idx - 1].hi >= value {
        return;
      }
      var r := DictMerge(intervals, idx, value);
      AddAtSummarizes(intervals, idx, value, seen);
      intervals, seen := r, seen + {value};
    }

    /** getIntervals: the items as [start, end] pairs, a canonical summary of the values added. */
    method GetIntervals() returns (r: seq<Interval>)
      requires Valid()
      ensures Summarizes(r, seen)
    {
      r := intervals;
    }
  }

  // ---------------------------------------------------------------------
  // SummaryRanges2: a set, sorted and scanned on demand

  /** The values held by a strictly increasing run are those of the sequence. */
  ghost predicate Increasing(s: seq<int>) {
    forall i, j :: 0 <= i < j < |s| ==> s[i] < s[j]
  }

  /** m is the least element of s. */
  predicate IsMin(m: int, s: set<int>) {
    m in s && forall y :: y in s ==> m <= y
  }

  /** A set that is not empty has an element. */
  lemma Inhabited(s: set<int>)
    ensures s == {} || exists x :: x in s
  {
    if forall x :: x !in s {
      assert s == {};
    }
  }

  /** A non-empty set of integers has a least element. */
  lemma {:induction false} HasMin(s: set<int>)
    requires s != {}
    ensures exists m :: IsMin(m, s)
    decreases |s|
  {
    Inhabited(s);
    var x :| x in s;
    var t := s - {x};
    assert forall y :: y in s ==> y in t || y == x;
    if t != {} {
      HasMin(t);
      var m :| IsMin(m, t);
      if x < m {
        assert IsMin(x, s);
      } else {
        assert IsMin(m, s);
      }
    } else {
      assert IsMin(x, s);
    }
  }

  /**
   * sorted(nums) on a set: its elements in increasing order. The library
   * sort is modelled by taking the least remaining element each time.
   */
  method SortedElements(s: set<int>) returns (r: seq<int>)
    ensures Increasing(r)
    ensures forall x :: x in r <==> x in s
  {
    r := [];
    var rest := s;
    while rest != {}
      invariant Increasing(r)
      invariant forall x :: x in r || x in rest <==> x in s
      invariant forall x, y :: x in r && y in rest ==> x < y
      invariant forall x :: x in r ==> x !in rest
      decreases |rest|
    {
      HasMin(rest);
      var m :| IsMin(m, rest);
      forall i | 0 <= i < |r| ensures r[i] < m {
        assert r[i] in r && m in rest;
      }
      r, rest := r + [m], rest - {m};
    }
  }

  /**
   * getIntervals of SummaryRanges2: walk the sorted values, extending the
   * current run while the next value is one more than its end, and closing
   * it otherwise.
   */
  method Runs(sortedNums: seq<int>) returns (intervals: seq<Interval>)
    requires Increasing(sortedNums)
    ensures Canonical(intervals)
    ensures forall x :: Covers(intervals, x) <==> x in sortedNums
  {
    if |sortedNums| == 0 {
      return [];
    }
    intervals := [];
    var start, end := sortedNums[0], sortedNums[0];
    for i := 1 to |sortedNums|
      invariant start <= end == sortedNums[i - 1]
      invariant Canonical(intervals)
      invariant intervals == [] || intervals[|intervals| - 1].hi + 1 < start
      invariant forall x :: Covers(intervals, x) || start <= x <= end <==> x in sortedNums[..i]
    {
      PrefixSnoc(sortedNums, i);
      if sortedNums[i] == end + 1 {
        end := sortedNums[i];
      } else {
        CanonicalJoin(intervals, [Interval(start, end)]);
        forall x ensures Covers(intervals + [Interval(start, end)], x) <==> Covers(intervals, x) || start <= x <= end {
          CoversAppend(intervals, [Interval(start, end)], x);
          SingleCovers(Interval(start, end), x);
        }
        intervals := intervals + [Interval(start, end)];
        start := sortedNums[i];
        end := sortedNums[i];
      }
    }
    CanonicalJoin(intervals, [Interval(start, end)]);
    forall x ensures Covers(intervals + [Interval(start, end)], x) <==> Covers(intervals, x) || start <= x <= end {
      CoversAppend(intervals, [Interval(start, end)], x);
      SingleCovers(Interval(start, end), x);
    }
    assert sortedNums[..|sortedNums|] == sortedNums;
    intervals := intervals + [Interval(start, end)];
  }

  /** Taking one more element of a sequence appends that element. */
  lemma PrefixSnoc(s: seq<int>, i: int)
    requires 0 <= i < |s|
    ensures s[..i + 1] == s[..i] + [s[i]]
  {
  }

  /** One interval holds the values between its ends. */
  lemma SingleCovers(m: Interval, x: int)
    ensures Covers([m], x) <==> In(x, m)
  {
    if In(x, m) {
      assert In(x, [m][0]);
    }
  }

  class SummaryRanges2 {
    var nums: set<int>

    constructor ()
      ensures nums == {}
    {
      nums := {};
    }

    /** addNum: add value to the set. */
    method AddNum(value: int)
      modifies this
      ensures nums == old(nums) + {value}
    {
      nums := nums + {value};
    }

    /** getIntervals: [] for no values; otherwise the canonical summary of the set. */
    method GetIntervals() returns (intervals: seq<Interval>)
      ensures Summarizes(intervals, nums)
      ensures nums == {} ==> intervals == []
    {
      if nums == {} {
        return [];
      }
      var sortedNums := SortedElements(nums);
      intervals := Runs(sortedNums);
    }
  }

  // ---------------------------------------------------------------------
  // SummaryRanges3 and SummaryRanges4: a list kept merged

  /**
   * The merge of SummaryRanges3 and SummaryRanges4, at the first position
   * whose start is at least value, once a left neighbour holding value has
   * been ruled out: join both neighbours, set the left one's end to value,
   * set the right one's start to value, or insert [value, value]. A value
   * already held (the right neighbour starts at it) leaves the list as it was.
   */
  method ListMerge(iv: seq<Interval>, pos: int, value: int, mergeLeft: bool, mergeRight: bool) returns (r: seq<Interval>)
    requires Canonical(iv) && 0 <= pos <= |iv|
    requires forall k :: 0 <= k < pos ==> iv[k].lo < value
    requires forall k :: pos <= k < |iv| ==> value <= iv[k].lo
    requires !(pos > 0 && value <= iv[pos - 1].hi)
    requires mergeLeft <==> pos > 0 && iv[pos - 1].hi == value - 1
    requires mergeRight <==> pos < |iv| && iv[pos].lo <= value + 1
    ensures Covers(iv, value) ==> r == iv
    ensures !Covers(iv, value) ==> r == AddAt(iv, pos, value)
  {
    Locate(iv, pos, value);
    r := iv;
    if mergeLeft && mergeRight {
      r := r[pos - 1 := Interval(r[pos - 1].lo, r[pos].hi)];
      r := r[..pos] + r[pos + 1..];
      assert r == iv[..pos - 1] + [Interval(iv[pos - 1].lo, iv[pos].hi)] + iv[pos + 1..];
    } else if mergeLeft {
      r := r[pos - 1 := Interval(r[pos - 1].lo, value)];
      assert r == iv[..pos - 1] + [Interval(iv[pos - 1].lo, value)] + iv[pos..];
    } else if mergeRight {
      r := r[pos := Interval(value, r[pos].hi)];
      assert r == iv[..pos] + [Interval(value, iv[pos].hi)] + iv[pos + 1..];
    } else {
      r := r[..pos] + [Interval(value, value)] + r[pos..];
    }
  }

  /** The binary search of SummaryRanges3: the first position whose start is at least value. */
  method FirstAtLeast(iv: seq<Interval>, value: int) returns (left: int)
    requires Canonical(iv)
    ensures 0 <= left <= |iv|
    ensures forall k :: 0 <= k < left ==> iv[k].lo < value
    ensures forall k :: left <= k < |iv| ==> value <= iv[k].lo
  {
    left := 0;
    var right := |iv|;
    while left < right
      invariant 0 <= left <= right <= |iv|
      invariant forall k :: 0 <= k < left ==> iv[k].lo < value
      invariant forall k :: right <= k < |iv| ==> value <= iv[k].lo
    {
      var mid := (left + right) / 2;
      if iv[mid].lo < value {
        left := mid + 1;
      } else {
        right := mid;
      }
    }
  }

  class SummaryRanges3 {
    var intervals: seq<Interval>
    ghost var seen: set<int>

    ghost predicate Valid()
      reads this
    {
      Summarizes(intervals, seen)
    }

    constructor ()
      ensures Valid() && seen == {}
    {
      intervals, seen := [], {};
    }

    /**
     * addNum: start the list with [value, value] when it is empty; otherwise
     * find the first interval starting at or after value, return if the one
     * before it reaches value, and merge with the neighbours that end at
     * value - 1 or start at most at value + 1.
     */
    method AddNum(value: int)
      requires Valid()
      modifies this
      ensures Valid() && seen == old(seen) + {value}
      ensures value in old(seen) ==> intervals == old(intervals)
      ensures value !in old(seen) && value - 1 in old(seen) && value + 1 in old(seen) ==> |intervals| == |old(intervals)| - 1
      ensures value !in old(seen) && value - 1 !in old(seen) && value + 1 !in old(seen) ==> |intervals| == |old(intervals)| + 1
    {
      var iv := intervals;
      ghost var s := seen;
      if |iv| == 0 {
        AddAtSummarizes(iv, 0, value, s);
        assert AddAt(iv, 0, value) == [Interval(value, value)];
        intervals, seen := [Interval(value, value)], s + {value};
        return;
      }
      var left := FirstAtLeast(iv, value);
      Locate(iv, left, value);
      var mergeLeft, mergeRight := false, false;
      if left > 0 && iv[left - 1].hi >= value - 1 {
        if iv[left - 1].hi >= value {
          return;
        }
        mergeLeft := true;
      }
      if left < |iv| && iv[left].lo <= value + 1 {
        mergeRight := true;
      }
      var r := ListMerge(iv, left, value, mergeLeft, mergeRight);
      if Covers(iv, value) {
        assert value in s && r == iv;
      } else {
        AddAtSummarizes(iv, left, value, s);
      }
      intervals, seen := r, s + {value};
    }

    /** getIntervals: the list itself, a canonical summary of the values added. */
    method GetIntervals() returns (r: seq<Interval>)
      requires Valid()
      ensures Summarizes(r, seen)
    {
      r := intervals;
    }
  }

  /** Python's order on two [start, end] lists: by start, then by end. */
  predicate LexLess(a: Interval, b: Interval) {
    a.lo < b.lo || (a.lo == b.lo && a.hi < b.hi)
  }

  /**
   * bisect.bisect_left(intervals, [v, v]): the number of intervals ordered
   * before [v, v], which on a canonical list is the number starting below v.
   */
  function BisectLeft(iv: seq<Interval>, v: int): (r: int)
    requires Canonical(iv)
    ensures 0 <= r <= |iv|
    ensures forall k :: 0 <= k < r ==> LexLess(iv[k], Interval(v, v)) && iv[k].lo < v
    ensures forall k :: r <= k < |iv| ==> !LexLess(iv[k], Interval(v, v)) && v <= iv[k].lo
  {
    if iv == [] || !LexLess(iv[0], Interval(v, v)) then
      0
    else
      CanonicalSlices(iv, 1);
      1 + BisectLeft(iv[1..], v)
  }

  class SummaryRanges4 {
    var intervals: seq<Interval>
    ghost var seen: set<int>

    ghost predicate Valid()
      reads this
    {
      Summarizes(intervals, seen)
    }

    constructor ()
      ensures Valid() && seen == {}
    {
      intervals, seen := [], {};
    }

    /**
     * addNum: at bisect_left's position, return if the interval before ends
     * at or after value or the one there starts at or before it; otherwise
     * merge with the one before when it ends at value - 1 and the one there
     * when it starts at value + 1.
     */
    method AddNum(value: int)
      requires Valid()
      modifies this
      ensures Valid() && seen == old(seen) + {value}
      ensures value in old(seen) ==> intervals == old(intervals)
      ensures value !in old(seen) && value - 1 in old(seen) && value + 1 in old(seen) ==> |intervals| == |old(intervals)| - 1
      ensures value !in old(seen) && value - 1 !in old(seen) && value + 1 !in old(seen) ==> |intervals| == |old(intervals)| + 1
    {
      var pos := BisectLeft(intervals, value);
      Locate(intervals, pos, value);
      if pos > 0 && intervals[pos - 1].hi >= value {
        return;
      }
      if pos < |intervals| && intervals[pos].lo <= value {
        return;
      }
      var mergePrev := pos > 0 && intervals[pos - 1].hi == value - 1;
      var mergeNext := pos < |intervals| && intervals[pos].lo == value + 1;
      var r := ListMerge(intervals, pos, value, mergePrev, mergeNext);
      AddAtSummarizes(intervals, pos, value, seen);
      intervals, seen := r, seen + {value};
    }

    /** getIntervals: the list itself, a canonical summary of the values added. */
    method GetIntervals() returns (r: seq<Interval>)
      requires Valid()
      ensures Summarizes(r, seen)
    {
      r := intervals;
    }
  }

  /** Two summaries of the same values are equal. */
  lemma SameSummary(a: seq<Interval>, b: seq<Interval>, seen: set<int>)
    requires Summarizes(a, seen) && Summarizes(b, seen)
    ensures a == b
  {
    Unique(a, b);
  }

  /** [[1, 3], [6, 7]] summarizes {1, 2, 3, 6, 7}. */
  lemma SampleSummary()
    ensures Summarizes([Interval(1, 3), Interval(6, 7)], {1, 3, 7, 2, 6})
  {
    var b := [Interval(1, 3), Interval(6, 7)];
    forall x ensures Covers(b, x) <==> x in {1, 3, 7, 2, 6} {
      if 1 <= x <= 3 {
        assert In(x, b[0]);
      } else if 6 <= x <= 7 {
        assert In(x, b[1]);
      }
    }
  }

  /** The sample run: adding 1, 3, 7, 2 and 6 to SummaryRanges4 gives [[1, 3], [6, 7]]. */
  method SampleRun() returns (r: seq<Interval>)
    ensures r == [Interval(1, 3), Interval(6, 7)]
  {
    var obj := new SummaryRanges4();
    obj.AddNum(1);
    assert obj.seen == {1};
    obj.AddNum(3);
    assert obj.seen == {1, 3};
    obj.AddNum(7);
    assert obj.seen == {1, 3, 7};
    obj.AddNum(2);
    assert obj.seen == {1, 3, 7, 2};
    obj.AddNum(6);
    assert obj.seen == {1, 3, 7, 2, 6};
    r := obj.GetIntervals();
    SampleSummary();
    SameSummary(r, [Interval(1, 3), Interval(6, 7)], obj.seen);
  }
}

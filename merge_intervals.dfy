// Merge Intervals: merge every group of overlapping closed intervals
// [start, end] (touching ones included) into one, giving intervals sorted
// by start with gaps between them that cover exactly the points the input
// covers. Points are real numbers, so [1, 2] and [3, 4] do not meet.
// Variants: sort by start and extend the last merged interval (Solution,
// and Solution5, which rebuilds it), the same over a lexicographic sort
// starting from an empty list (Solution2), union-find over overlapping
// pairs (Solution3), and an event sweep (Solution4).

module MergeIntervals {
  import opened Sorting

  /** [start, end]. */
  type Interval = (int, int)

  function Max(a: int, b: int): int {
    if a >= b then a else b
  }

  /** x lies in the closed interval iv. */
  predicate In(iv: Interval, x: real) {
    iv.0 as real <= x <= iv.1 as real
  }

  /** x lies in one of the intervals. */
  ghost predicate Covered(ivs: seq<Interval>, x: real) {
    exists k :: 0 <= k < |ivs| && In(ivs[k], x)
  }

  /** Every interval has start <= end, as the problem guarantees of its input. */
  ghost predicate WellFormed(ivs: seq<Interval>) {
    forall k :: 0 <= k < |ivs| ==> ivs[k].0 <= ivs[k].1
  }

  /** Each interval ends before any later one starts: sorted and pairwise apart. */
  ghost predicate Separated(ivs: seq<Interval>) {
    forall i, j :: 0 <= i < j < |ivs| ==> ivs[i].1 < ivs[j].0
  }

  /** Ascending by start. */
  ghost predicate StartSorted(ivs: seq<Interval>) {
    forall i, j :: 0 <= i < j < |ivs| ==> ivs[i].0 <= ivs[j].0
  }

  /** What a merge must return: well-formed, separated, and covering exactly the input's points. */
  ghost predicate IsMerge(input: seq<Interval>, output: seq<Interval>) {
    && WellFormed(output)
    && Separated(output)
    && forall x :: Covered(input, x) <==> Covered(output, x)
  }

  /** A merge is sorted by start. */
  lemma MergeSorted(input: seq<Interval>, output: seq<Interval>)
    requires IsMerge(input, output)
    ensures StartSorted(output) && PairsSorted(output)
  {
    forall i, j | 0 <= i < j < |output| ensures output[i].0 < output[j].0 {
      assert output[i].0 <= output[i].1 < output[j].0;
    }
  }

  // ---------------------------------------------------------------------
  // Sorting

  /** Insert iv after every interval whose start is not above its own (stable). */
  function InsertByStart(ivs: seq<Interval>, iv: Interval): (r: seq<Interval>)
    ensures multiset(r) == multiset(ivs) + multiset{iv}
  {
    if ivs == [] then [iv]
    else if iv.0 < ivs[0].0 then [iv] + ivs
    else
      assert ivs == [ivs[0]] + ivs[1..];
      [ivs[0]] + InsertByStart(ivs[1..], iv)
  }

  /** intervals.sort(key=lambda x: x[0]): a stable sort by start. */
  function SortByStart(ivs: seq<Interval>): (r: seq<Interval>)
    ensures multiset(r) == multiset(ivs)
  {
    if ivs == [] then []
    else
      var n := |ivs| - 1;
      assert ivs == ivs[..n] + [ivs[n]];
      InsertByStart(SortByStart(ivs[..n]), ivs[n])
  }

  lemma {:induction false} InsertByStartSorted(ivs: seq<Interval>, iv: Interval)
    requires StartSorted(ivs)
    ensures StartSorted(InsertByStart(ivs, iv))
  {
    if ivs != [] && iv.0 >= ivs[0].0 {
      InsertByStartSorted(ivs[1..], iv);
      var t := InsertByStart(ivs[1..], iv);
      forall k | 0 <= k < |t| ensures ivs[0].0 <= t[k].0 {
        assert t[k] in multiset(t);
      }
    }
  }

  lemma {:induction false} SortByStartSorted(ivs: seq<Interval>)
    ensures StartSorted(SortByStart(ivs))
  {
    if ivs != [] {
      SortByStartSorted(ivs[..|ivs| - 1]);
      InsertByStartSorted(SortByStart(ivs[..|ivs| - 1]), ivs[|ivs| - 1]);
    }
  }

  /** A lexicographic sort is in particular a sort by start. */
  lemma LexIsStartSorted(ivs: seq<Interval>)
    requires PairsSorted(ivs)
    ensures StartSorted(ivs)
  {
    forall i, j | 0 <= i < j < |ivs| ensures ivs[i].0 <= ivs[j].0 {
      assert LexLe(ivs[i], ivs[j]);
    }
  }

  /** Reordering the intervals changes neither coverage nor well-formedness. */
  lemma PermCovered(s: seq<Interval>, t: seq<Interval>)
    requires multiset(s) == multiset(t)
    ensures forall x :: Covered(s, x) <==> Covered(t, x)
    ensures WellFormed(s) ==> WellFormed(t)
  {
    forall iv ensures iv in s <==> iv in t {
      assert iv in s <==> iv in multiset(s);
      assert iv in t <==> iv in multiset(t);
    }
    forall x ensures Covered(s, x) ==> Covered(t, x) {
      if Covered(s, x) {
        var k :| 0 <= k < |s| && In(s[k], x);
        assert s[k] in t;
      }
    }
    forall x ensures Covered(t, x) ==> Covered(s, x) {
      if Covered(t, x) {
        var k :| 0 <= k < |t| && In(t[k], x);
        assert t[k] in s;
      }
    }
    if WellFormed(s) {
      forall k | 0 <= k < |t| ensures t[k].0 <= t[k].1 {
        assert t[k] in s;
      }
    }
  }

  // ---------------------------------------------------------------------
  // Coverage under the two loop steps

  lemma CoveredAppend(a: seq<Interval>, iv: Interval, x: real)
    ensures Covered(a + [iv], x) <==> Covered(a, x) || In(iv, x)
  {
    if Covered(a, x) {
      var k :| 0 <= k < |a| && In(a[k], x);
      assert (a + [iv])[k] == a[k];
    }
    if In(iv, x) {
      assert (a + [iv])[|a|] == iv;
    }
    if Covered(a + [iv], x) {
      var k :| 0 <= k < |a| + 1 && In((a + [iv])[k], x);
      if k < |a| {
        assert (a + [iv])[k] == a[k];
      }
    }
  }

  /** Appending the same interval to two lists that cover the same points. */
  lemma AppendCover(p: seq<Interval>, r: seq<Interval>, c: Interval)
    requires forall x :: Covered(p, x) <==> Covered(r, x)
    ensures forall x :: Covered(p + [c], x) <==> Covered(r + [c], x)
  {
    forall x ensures Covered(p + [c], x) <==> Covered(r + [c], x) {
      CoveredAppend(p, c, x);
      CoveredAppend(r, c, x);
    }
  }

  /** Widening the last merged interval to take in c, which starts inside it. */
  lemma ExtendCover(p: seq<Interval>, r: seq<Interval>, c: Interval)
    requires forall x :: Covered(p, x) <==> Covered(r, x)
    requires |r| > 0 && r[|r| - 1].0 <= c.0 <= r[|r| - 1].1 && c.0 <= c.1
    ensures forall x :: Covered(p + [c], x) <==> Covered(r[|r| - 1 := (r[|r| - 1].0, Max(r[|r| - 1].1, c.1))], x)
  {
    var n := |r| - 1;
    var last := r[n];
    var wide := (last.0, Max(last.1, c.1));
    var init := r[..n];
    assert r == init + [last];
    assert r[n := wide] == init + [wide];
    forall x ensures Covered(p + [c], x) <==> Covered(r[n := wide], x) {
      CoveredAppend(p, c, x);
      CoveredAppend(init, last, x);
      CoveredAppend(init, wide, x);
    }
  }

  // ---------------------------------------------------------------------
  // Solution and Solution5: sort by start, extend the last merged interval

  /** The greedy loop over a list sorted by start, seeded with its first interval. */
  method Greedy(t: seq<Interval>) returns (result: seq<Interval>)
    requires |t| > 0 && WellFormed(t) && StartSorted(t)
    ensures IsMerge(t, result)
  {
    result := [t[0]];
    assert t[..1] == [t[0]];
    for i := 1 to |t|
      invariant |result| > 0 && WellFormed(result) && Separated(result)
      invariant result[|result| - 1].0 <= t[i - 1].0
      invariant forall x :: Covered(t[..i], x) <==> Covered(result, x)
    {
      var current := t[i];
      var lastMerged := result[|result| - 1];
      assert t[..i + 1] == t[..i] + [current];
      if current.0 <= lastMerged.1 {
        ExtendCover(t[..i], result, current);
        result := result[|result| - 1 := (lastMerged.0, Max(lastMerged.1, current.1))];
      } else {
        AppendCover(t[..i], result, current);
        result := result + [current];
      }
    }
    assert t[..|t|] == t;
  }

  /** Solution: empty input gives []; otherwise sort by start and run the greedy loop. */
  method Merge(intervals: seq<Interval>) returns (result: seq<Interval>)
    requires WellFormed(intervals)
    ensures IsMerge(intervals, result)
    ensures intervals == [] ==> result == []
  {
    if |intervals| == 0 {
      return [];
    }
    var sorted := SortByStart(intervals);
    SortByStartSorted(intervals);
    PermCovered(intervals, sorted);
    result := Greedy(sorted);
  }

  /** Solution5: the same loop after a lexicographic sort. */
  method MergeLex(intervals: seq<Interval>) returns (result: seq<Interval>)
    requires WellFormed(intervals)
    ensures IsMerge(intervals, result)
    ensures intervals == [] ==> result == []
  {
    if |intervals| == 0 {
      return [];
    }
    var sorted := SortPairs(intervals);
    SortPairsSorted(intervals);
    LexIsStartSorted(sorted);
    PermCovered(intervals, sorted);
    result := Greedy(sorted);
  }

  // ---------------------------------------------------------------------
  // Solution2: start from an empty list

  /** Solution2: lexicographic sort, then append or extend, starting from nothing. */
  method MergeFromEmpty(intervals: seq<Interval>) returns (merged: seq<Interval>)
    requires WellFormed(intervals)
    ensures IsMerge(intervals, merged)
    ensures intervals == [] ==> merged == []
  {
    var t := SortPairs(intervals);
    SortPairsSorted(intervals);
    LexIsStartSorted(t);
    PermCovered(intervals, t);
    merged := [];
    assert t[..0] == [];
    for i := 0 to |t|
      invariant WellFormed(merged) && Separated(merged)
      invariant i > 0 ==> |merged| > 0 && merged[|merged| - 1].0 <= t[i - 1].0
      invariant i == 0 ==> merged == []
      invariant forall x :: Covered(t[..i], x) <==> Covered(merged, x)
    {
      var interval := t[i];
      assert t[..i + 1] == t[..i] + [interval];
      if merged == [] || merged[|merged| - 1].1 < interval.0 {
        AppendCover(t[..i], merged, interval);
        merged := merged + [interval];
      } else {
        ExtendCover(t[..i], merged, interval);
        merged := merged[|merged| - 1 := (merged[|merged| - 1].0, Max(merged[|merged| - 1].1, interval.1))];
      }
    }
    assert t[..|t|] == t;
  }

  // ---------------------------------------------------------------------
  // Solution3: union-find over overlapping pairs

  /** The parent pointers form a forest: a non-root's parent has a larger ghost height, and all heights are at most B. */
  ghost predicate Forest(p: seq<int>, h: seq<int>, B: int) {
    && |h| == |p|
    && (forall x :: 0 <= x < |p| ==> 0 <= p[x] < |p| && h[x] <= B)
    && (forall x :: 0 <= x < |p| && p[x] != x ==> h[x] < h[p[x]])
  }

  /** The root reached by following parents from x. */
  ghost function RootOf(p: seq<int>, h: seq<int>, B: int, x: int): (r: int)
    requires Forest(p, h, B) && 0 <= x < |p|
    ensures 0 <= r < |p| && p[r] == r
    ensures h[x] <= h[r] && (p[x] != x ==> h[x] < h[r])
    decreases B - h[x]
  {
    if p[x] == x then x else RootOf(p, h, B, p[x])
  }

  /** The root of every element, in element order. */
  ghost function RootsOf(p: seq<int>, h: seq<int>, B: int): (roots: seq<int>)
    requires Forest(p, h, B)
    ensures |roots| == |p|
    ensures forall z :: 0 <= z < |p| ==> roots[z] == RootOf(p, h, B, z)
  {
    seq(|p|, z => if 0 <= z < |p| then RootOf(p, h, B, z) else 0)
  }

  /** Every a in s becomes b: the roots after a's tree is linked under b. */
  function Relabel(s: seq<int>, a: int, b: int): (t: seq<int>)
    ensures |t| == |s|
    ensures forall z :: 0 <= z < |s| ==> t[z] == if s[z] == a then b else s[z]
  {
    seq(|s|, z => if 0 <= z < |s| && s[z] == a then b else if 0 <= z < |s| then s[z] else 0)
  }

  /** Path compression: pointing x straight at its root keeps a forest with the same roots. */
  lemma Compress(p: seq<int>, h: seq<int>, B: int, x: int)
    requires Forest(p, h, B) && 0 <= x < |p|
    ensures Forest(p[x := RootOf(p, h, B, x)], h, B)
    ensures RootsOf(p[x := RootOf(p, h, B, x)], h, B) == RootsOf(p, h, B)
  {
    var q := p[x := RootOf(p, h, B, x)];
    assert Forest(q, h, B);
    forall y | 0 <= y < |p| ensures RootOf(q, h, B, y) == RootOf(p, h, B, y) {
      CompressRoot(p, h, B, x, y);
    }
  }

  lemma {:induction false} CompressRoot(p: seq<int>, h: seq<int>, B: int, x: int, y: int)
    requires Forest(p, h, B) && 0 <= x < |p| && 0 <= y < |p|
    requires Forest(p[x := RootOf(p, h, B, x)], h, B)
    ensures RootOf(p[x := RootOf(p, h, B, x)], h, B, y) == RootOf(p, h, B, y)
    decreases B - h[y]
  {
    if y != x && p[y] != y {
      CompressRoot(p, h, B, x, p[y]);
    }
  }

  /** Linking root px under root py: a forest again, in which px's tree now has root py. */
  lemma Link(p: seq<int>, h: seq<int>, B: int, px: int, py: int)
    requires Forest(p, h, B) && 0 <= px < |p| && 0 <= py < |p|
    requires p[px] == px && p[py] == py && px != py
    ensures Forest(p[px := py], h[py := Max(h[py], h[px] + 1)], Max(B, h[px] + 1))
    ensures RootsOf(p[px := py], h[py := Max(h[py], h[px] + 1)], Max(B, h[px] + 1)) == Relabel(RootsOf(p, h, B), px, py)
  {
    var q, g, C := p[px := py], h[py := Max(h[py], h[px] + 1)], Max(B, h[px] + 1);
    assert Forest(q, g, C);
    forall z | 0 <= z < |p| ensures RootOf(q, g, C, z) == if RootOf(p, h, B, z) == px then py else RootOf(p, h, B, z) {
      LinkRoot(p, h, B, px, py, z);
    }
  }

  lemma {:induction false} LinkRoot(p: seq<int>, h: seq<int>, B: int, px: int, py: int, z: int)
    requires Forest(p, h, B) && 0 <= px < |p| && 0 <= py < |p| && 0 <= z < |p|
    requires p[px] == px && p[py] == py && px != py
    requires Forest(p[px := py], h[py := Max(h[py], h[px] + 1)], Max(B, h[px] + 1))
    ensures RootOf(p[px := py], h[py := Max(h[py], h[px] + 1)], Max(B, h[px] + 1), z)
      == if RootOf(p, h, B, z) == px then py else RootOf(p, h, B, z)
    decreases B - h[z]
  {
    if p[z] != z {
      LinkRoot(p, h, B, px, py, p[z]);
    }
  }

  /** Solution3's parent list with its find and union. */
  class UnionFind {
    var parent: seq<int>
    ghost var height: seq<int>
    ghost var bound: int

    ghost predicate Valid()
      reads this
    {
      Forest(parent, height, bound)
    }

    /** The representative of every element's group. */
    ghost function Roots(): (roots: seq<int>)
      reads this
      requires Valid()
      ensures |roots| == |parent|
    {
      RootsOf(parent, height, bound)
    }

    /** parent = list(range(n)): every element is its own group. */
    constructor (n: nat)
      ensures Valid() && |parent| == n
      ensures forall x :: 0 <= x < n ==> Roots()[x] == x
    {
      parent := seq(n, i => i);
      height := seq(n, _ => 0);
      bound := 0;
    }

    /** find with path compression: returns x's root and changes no element's root. */
    method Find(x: int) returns (r: int)
      requires Valid() && 0 <= x < |parent|
      modifies this
      ensures Valid() && height == old(height) && bound == old(bound)
      ensures Roots() == old(Roots())
      ensures r == old(Roots())[x]
      decreases bound - height[x]
    {
      if parent[x] != x {
        var root := Find(parent[x]);
        Compress(parent, height, bound, x);
        parent := parent[x := root];
      }
      r := parent[x];
    }

    /** union: x's old group joins y's, so that x and y now share a root; no other group changes. */
    method Union(x: int, y: int)
      requires Valid() && 0 <= x < |parent| && 0 <= y < |parent|
      modifies this
      ensures Valid()
      ensures Roots() == Relabel(old(Roots()), old(Roots())[x], old(Roots())[y])
      ensures Roots()[x] == Roots()[y]
    {
      ghost var r0 := Roots();
      var px := Find(x);
      var py := Find(y);
      ghost var p, h, B := parent, height, bound;
      assert RootsOf(p, h, B) == r0 && px == r0[x] && py == r0[y];
      assert p[px] == px && p[py] == py by {
        assert px == RootOf(p, h, B, x) && py == RootOf(p, h, B, y);
      }
      if px != py {
        Link(p, h, B, px, py);
        parent := parent[px := py];
        bound := Max(B, h[px] + 1);
        height := h[py := Max(h[py], h[px] + 1)];
        assert parent == p[px := py];
        assert Roots() == RootsOf(p[px := py], h[py := Max(h[py], h[px] + 1)], Max(B, h[px] + 1));
      } else {
        assert Relabel(r0, px, py) == r0;
      }
    }
  }

  /** The two intervals share a point: not one ending before the other starts. */
  predicate Overlap(a: Interval, b: Interval) {
    !(a.1 < b.0 || b.1 < a.0)
  }

  /** iv lies inside o. */
  predicate Within(iv: Interval, o: Interval) {
    o.0 <= iv.0 && iv.1 <= o.1
  }

  /** A non-empty list of indices into ivs. */
  predicate Members(ivs: seq<Interval>, ms: seq<int>) {
    |ms| > 0 && forall q :: 0 <= q < |ms| ==> 0 <= ms[q] < |ivs|
  }

  /** min(intervals[i][0] for i in ms). */
  function LeastStart(ivs: seq<Interval>, ms: seq<int>): (m: int)
    requires Members(ivs, ms)
    ensures forall q :: 0 <= q < |ms| ==> m <= ivs[ms[q]].0
    ensures exists q :: 0 <= q < |ms| && m == ivs[ms[q]].0
  {
    if |ms| == 1 then ivs[ms[0]].0
    else
      var m := LeastStart(ivs, ms[1..]);
      if ivs[ms[0]].0 <= m then ivs[ms[0]].0 else m
  }

  /** max(intervals[i][1] for i in ms). */
  function GreatestEnd(ivs: seq<Interval>, ms: seq<int>): (m: int)
    requires Members(ivs, ms)
    ensures forall q :: 0 <= q < |ms| ==> ivs[ms[q]].1 <= m
    ensures exists q :: 0 <= q < |ms| && m == ivs[ms[q]].1
  {
    if |ms| == 1 then ivs[ms[0]].1
    else
      var m := GreatestEnd(ivs, ms[1..]);
      if ivs[ms[0]].1 >= m then ivs[ms[0]].1 else m
  }

  /** iv lies inside some interval of out. */
  ghost predicate CoveredBy(iv: Interval, out: seq<Interval>) {
    exists o :: o in out && Within(iv, o)
  }

  /** a and b lie inside one and the same interval of out. */
  ghost predicate CoveredTogether(a: Interval, b: Interval, out: seq<Interval>) {
    exists o :: o in out && Within(a, o) && Within(b, o)
  }

  /** x is the start of some input interval. */
  ghost predicate StartOf(x: int, ivs: seq<Interval>) {
    exists k :: 0 <= k < |ivs| && ivs[k].0 == x
  }

  /** x is the end of some input interval. */
  ghost predicate EndOf(x: int, ivs: seq<Interval>) {
    exists k :: 0 <= k < |ivs| && ivs[k].1 == x
  }

  /** Every input interval lies inside some output interval. */
  ghost predicate Spans(ivs: seq<Interval>, out: seq<Interval>) {
    forall k {:trigger CoveredBy(ivs[k], out)} :: 0 <= k < |ivs| ==> CoveredBy(ivs[k], out)
  }

  /** Overlapping input intervals lie inside the same output interval. */
  ghost predicate Joins(ivs: seq<Interval>, out: seq<Interval>) {
    forall a, b {:trigger CoveredTogether(ivs[a], ivs[b], out)} :: 0 <= a < |ivs| && 0 <= b < |ivs| && Overlap(ivs[a], ivs[b]) ==> CoveredTogether(ivs[a], ivs[b], out)
  }

  /** Every output interval starts at some input start and ends at some input end. */
  ghost predicate FromEnds(ivs: seq<Interval>, out: seq<Interval>) {
    forall o :: o in out ==> StartOf(o.0, ivs) && EndOf(o.1, ivs)
  }

  ghost predicate Linked(roots: seq<int>, ivs: seq<Interval>, i: int, j: int)
    requires |roots| == |ivs|
  {
    forall a, b :: 0 <= a < b < |ivs| && (a < i || (a == i && b < j)) && Overlap(ivs[a], ivs[b]) ==> roots[a] == roots[b]
  }

  /** One step of the pairs loop keeps Linked, whether or not the pair (i, j) is united. */
  lemma LinkedStep(roots: seq<int>, ivs: seq<Interval>, i: int, j: int)
    requires |roots| == |ivs| && 0 <= i < j < |ivs| && Linked(roots, ivs, i, j)
    ensures Overlap(ivs[i], ivs[j]) ==> Linked(Relabel(roots, roots[i], roots[j]), ivs, i, j + 1)
    ensures !Overlap(ivs[i], ivs[j]) ==> Linked(roots, ivs, i, j + 1)
  {
  }

  /** The pairs loop: union every overlapping pair. */
  method LinkOverlapping(uf: UnionFind, ivs: seq<Interval>)
    requires uf.Valid() && |uf.parent| == |ivs|
    modifies uf
    ensures uf.Valid() && |uf.parent| == |ivs|
    ensures forall a, b :: 0 <= a < |ivs| && 0 <= b < |ivs| && Overlap(ivs[a], ivs[b]) ==> uf.Roots()[a] == uf.Roots()[b]
  {
    var n := |ivs|;
    for i := 0 to n
      invariant uf.Valid() && |uf.parent| == n
      invariant Linked(uf.Roots(), ivs, i, 0)
    {
      for j := i + 1 to n
        invariant uf.Valid() && |uf.parent| == n
        invariant Linked(uf.Roots(), ivs, i, j)
      {
        LinkedStep(uf.Roots(), ivs, i, j);
        if !(ivs[i].1 < ivs[j].0 || ivs[j].1 < ivs[i].0) {
          uf.Union(i, j);
        }
      }
    }
    ghost var roots := uf.Roots();
    assert Linked(roots, ivs, n, 0);
    forall a, b | 0 <= a < n && 0 <= b < n && Overlap(ivs[a], ivs[b]) ensures roots[a] == roots[b] {
      if b < a {
        assert Overlap(ivs[b], ivs[a]);
      }
    }
  }

  /** groups maps each root met so far to its members in index order, and order lists its keys in insertion order. */
  ghost predicate Grouped(roots: seq<int>, groups: map<int, seq<int>>, order: seq<int>, i: int)
    requires 0 <= i <= |roots|
  {
    && (forall r :: r in groups ==> r in order)
    && (forall r :: r in order ==> r in groups)
    && (forall k :: 0 <= k < i ==> roots[k] in groups && k in groups[roots[k]])
    && (forall r :: r in groups ==> |groups[r]| > 0)
    && (forall r, q :: r in groups && 0 <= q < |groups[r]| ==> 0 <= groups[r][q] < i && roots[groups[r][q]] == r)
  }

  /** groups[find(i)].append(i) for every i, with a defaultdict and its key order. */
  method Group(uf: UnionFind, n: int) returns (groups: map<int, seq<int>>, order: seq<int>)
    requires uf.Valid() && |uf.parent| == n
    modifies uf
    ensures uf.Valid() && uf.Roots() == old(uf.Roots())
    ensures Grouped(uf.Roots(), groups, order, n)
  {
    groups, order := map[], [];
    ghost var roots := uf.Roots();
    for i := 0 to n
      invariant uf.Valid() && uf.Roots() == roots
      invariant Grouped(roots, groups, order, i)
    {
      var root := uf.Find(i);
      GroupStep(roots, groups, order, i);
      if root !in groups {
        groups, order := groups[root := []], order + [root];
      }
      groups := groups[root := groups[root] + [i]];
    }
  }

  lemma GroupStep(roots: seq<int>, groups: map<int, seq<int>>, order: seq<int>, i: int)
    requires 0 <= i < |roots| && Grouped(roots, groups, order, i)
    ensures var r := roots[i];
      var g := if r in groups then groups else groups[r := []];
      var o := if r in groups then order else order + [r];
      Grouped(roots, g[r := g[r] + [i]], o, i + 1)
  {
    var r := roots[i];
    var g := if r in groups then groups else groups[r := []];
    var o := if r in groups then order else order + [r];
    var g' := g[r := g[r] + [i]];
    forall k | 0 <= k < i + 1 ensures roots[k] in g' && k in g'[roots[k]] {
      if k < i {
        assert k in groups[roots[k]];
      }
    }
    forall x, q | x in g' && 0 <= q < |g'[x]| ensures 0 <= g'[x][q] < i + 1 && roots[g'[x][q]] == x {
      if x == r && q == |g'[x]| - 1 {
      } else if x == r {
        assert g'[x][q] == g[r][q];
      }
    }
  }

  /** Every key of order is a group of members that index ivs. */
  ghost predicate Keyed(ivs: seq<Interval>, groups: map<int, seq<int>>, order: seq<int>) {
    forall q :: 0 <= q < |order| ==> order[q] in groups && Members(ivs, groups[order[q]])
  }

  /** The hull of each group, in key order: [min start, max end]. */
  ghost predicate Hulls(ivs: seq<Interval>, groups: map<int, seq<int>>, order: seq<int>, out: seq<Interval>)
  {
    && Keyed(ivs, groups, order)
    && |out| == |order|
    && (forall q :: 0 <= q < |order| ==> out[q] == (LeastStart(ivs, groups[order[q]]), GreatestEnd(ivs, groups[order[q]])))
  }

  lemma GroupedKeyed(ivs: seq<Interval>, roots: seq<int>, groups: map<int, seq<int>>, order: seq<int>)
    requires |roots| == |ivs| && Grouped(roots, groups, order, |ivs|)
    ensures Keyed(ivs, groups, order)
  {
    forall q | 0 <= q < |order| ensures order[q] in groups && Members(ivs, groups[order[q]]) {
      var key := order[q];
      assert key in order;
      assert key in groups;
    }
  }

  /** for group_indices in groups.values(): result.append([min_start, max_end]). */
  method HullsOf(ivs: seq<Interval>, groups: map<int, seq<int>>, order: seq<int>) returns (hulls: seq<Interval>)
    requires Keyed(ivs, groups, order)
    ensures Hulls(ivs, groups, order, hulls)
  {
    hulls := [];
    for g := 0 to |order|
      invariant Hulls(ivs, groups, order[..g], hulls)
    {
      var members := groups[order[g]];
      var hull := (LeastStart(ivs, members), GreatestEnd(ivs, members));
      assert order[..g + 1] == order[..g] + [order[g]];
      hulls := hulls + [hull];
    }
    assert order[..|order|] == order;
  }


  /** Every interval lies inside the hull of its own group. */
  lemma HullsSpan(ivs: seq<Interval>, roots: seq<int>, groups: map<int, seq<int>>, order: seq<int>, out: seq<Interval>)
    requires |roots| == |ivs| && Grouped(roots, groups, order, |ivs|) && Hulls(ivs, groups, order, out)
    ensures Spans(ivs, out)
  {
    forall k | 0 <= k < |ivs| ensures CoveredBy(ivs[k], out) {
      var q := HullHolds(ivs, roots, groups, order, out, k);
      var o := out[q];
      assert o in out && Within(ivs[k], o);
    }
  }

  /** When overlapping intervals share a root, they lie inside the hull of their common group. */
  lemma HullsJoin(ivs: seq<Interval>, roots: seq<int>, groups: map<int, seq<int>>, order: seq<int>, out: seq<Interval>)
    requires |roots| == |ivs| && Grouped(roots, groups, order, |ivs|) && Hulls(ivs, groups, order, out)
    requires forall a, b :: 0 <= a < |ivs| && 0 <= b < |ivs| && Overlap(ivs[a], ivs[b]) ==> roots[a] == roots[b]
    ensures Joins(ivs, out)
  {
    forall a, b | 0 <= a < |ivs| && 0 <= b < |ivs| && Overlap(ivs[a], ivs[b])
      ensures CoveredTogether(ivs[a], ivs[b], out)
    {
      var q := HullHolds(ivs, roots, groups, order, out, a);
      var o := out[q];
      assert o in out && Within(ivs[a], o) && Within(ivs[b], o);
    }
  }

  /** A hull starts at the least start and ends at the greatest end of its group's members. */
  lemma HullsFromEnds(ivs: seq<Interval>, groups: map<int, seq<int>>, order: seq<int>, out: seq<Interval>)
    requires Hulls(ivs, groups, order, out)
    ensures FromEnds(ivs, out)
  {
    forall o | o in out ensures StartOf(o.0, ivs) && EndOf(o.1, ivs) {
      var q :| 0 <= q < |out| && out[q] == o;
      var ms := groups[order[q]];
      var m :| 0 <= m < |ms| && o.0 == ivs[ms[m]].0;
      var m' :| 0 <= m' < |ms| && o.1 == ivs[ms[m']].1;
      var k, k' := ms[m], ms[m'];
      assert 0 <= k < |ivs| && ivs[k].0 == o.0;
      assert 0 <= k' < |ivs| && ivs[k'].1 == o.1;
    }
  }

  /** Element k lies inside the hull of its own group, at position q of the key order. */
  lemma HullHolds(ivs: seq<Interval>, roots: seq<int>, groups: map<int, seq<int>>, order: seq<int>, out: seq<Interval>, k: int)
    returns (q: int)
    requires |roots| == |ivs| && Grouped(roots, groups, order, |ivs|) && Hulls(ivs, groups, order, out)
    requires 0 <= k < |ivs|
    ensures 0 <= q < |order| && order[q] == roots[k] && Within(ivs[k], out[q]) && out[q] in out
    ensures forall k' :: 0 <= k' < |ivs| && roots[k'] == roots[k] ==> Within(ivs[k'], out[q])
  {
    var r := roots[k];
    assert r in groups;
    assert r in order;
    q :| 0 <= q < |order| && order[q] == r;
    forall k' | 0 <= k' < |ivs| && roots[k'] == roots[k] ensures Within(ivs[k'], out[q]) {
      var ms := groups[roots[k]];
      assert k' in ms;
      var m :| 0 <= m < |ms| && ms[m] == k';
      assert LeastStart(ivs, ms) <= ivs[ms[m]].0 && ivs[ms[m]].1 <= GreatestEnd(ivs, ms);
    }
  }

  /** Reordering the output keeps every input covered. */
  lemma SpansPerm(ivs: seq<Interval>, s: seq<Interval>, t: seq<Interval>)
    requires multiset(s) == multiset(t) && Spans(ivs, s)
    ensures Spans(ivs, t)
  {
    forall k | 0 <= k < |ivs| ensures CoveredBy(ivs[k], t) {
      var iv := ivs[k];
      assert CoveredBy(iv, s);
      var o :| o in s && Within(iv, o);
      assert o in multiset(s);
      assert o in t;
    }
  }

  /** Reordering the output keeps overlapping inputs together. */
  lemma JoinsPerm(ivs: seq<Interval>, s: seq<Interval>, t: seq<Interval>)
    requires multiset(s) == multiset(t) && Joins(ivs, s)
    ensures Joins(ivs, t)
  {
    forall a, b | 0 <= a < |ivs| && 0 <= b < |ivs| && Overlap(ivs[a], ivs[b])
      ensures CoveredTogether(ivs[a], ivs[b], t)
    {
      var x, y := ivs[a], ivs[b];
      assert CoveredTogether(x, y, s);
      var o :| o in s && Within(x, o) && Within(y, o);
      assert o in multiset(s);
      assert o in t;
    }
  }

  /** Reordering the output keeps every end point an input end point. */
  lemma FromEndsPerm(ivs: seq<Interval>, s: seq<Interval>, t: seq<Interval>)
    requires multiset(s) == multiset(t) && FromEnds(ivs, s)
    ensures FromEnds(ivs, t)
  {
    forall o | o in t ensures StartOf(o.0, ivs) && EndOf(o.1, ivs) {
      assert o in multiset(t);
      assert o in s;
    }
  }

  /** Solution3: union overlapping pairs, take the hull of each group, and sort the hulls. */
  method UnionFindMerge(intervals: seq<Interval>) returns (result: seq<Interval>)
    ensures intervals == [] ==> result == []
    ensures PairsSorted(result)
    ensures Spans(intervals, result) && Joins(intervals, result) && FromEnds(intervals, result)
  {
    if intervals == [] {
      return [];
    }
    var n := |intervals|;
    var uf := new UnionFind(n);
    LinkOverlapping(uf, intervals);
    var groups, order := Group(uf, n);
    ghost var roots := uf.Roots();
    GroupedKeyed(intervals, roots, groups, order);
    var hulls := HullsOf(intervals, groups, order);
    HullsSpan(intervals, roots, groups, order, hulls);
    HullsJoin(intervals, roots, groups, order, hulls);
    HullsFromEnds(intervals, groups, order, hulls);
    result := SortPairs(hulls);
    SortPairsSorted(hulls);
    SpansPerm(intervals, hulls, result);
    JoinsPerm(intervals, hulls, result);
    FromEndsPerm(intervals, hulls, result);
  }

  // ---------------------------------------------------------------------
  // Solution4: event sweep, as written

  /** A start event (start, 0) and an end event (end + 1, 1) per interval, in input order. */
  function EventsOf(ivs: seq<Interval>): (ev: seq<(int, int)>)
    ensures |ev| == 2 * |ivs|
    ensures forall k :: 0 <= k < |ivs| ==> ev[2 * k] == (ivs[k].0, 0) && ev[2 * k + 1] == (ivs[k].1 + 1, 1)
  {
    if ivs == [] then []
    else
      var n := |ivs| - 1;
      EventsOf(ivs[..n]) + [(ivs[n].0, 0), (ivs[n].1 + 1, 1)]
  }

  /** The scan over sorted events from a given open count and pending start: a start opens
      (recording its position when nothing is open), an end closes, and the close that brings
      the count back to zero emits [start, position - 1]. */
  function Scan(ev: seq<(int, int)>, count: int, start: int): (r: seq<Interval>)
    ensures |r| <= |ev|
    decreases |ev|
  {
    if ev == [] then []
    else if ev[0].1 == 0 then Scan(ev[1..], count + 1, if count == 0 then ev[0].0 else start)
    else if count - 1 == 0 then [(start, ev[0].0 - 1)] + Scan(ev[1..], 0, start)
    else Scan(ev[1..], count - 1, start)
  }

  /** Solution4's event list, before sorting. */
  method MakeEvents(intervals: seq<Interval>) returns (events: seq<(int, int)>)
    ensures events == EventsOf(intervals)
  {
    events := [];
    for k := 0 to |intervals|
      invariant events == EventsOf(intervals[..k])
    {
      assert intervals[..k + 1][..k] == intervals[..k];
      events := events + [(intervals[k].0, 0), (intervals[k].1 + 1, 1)];
    }
    assert intervals[..|intervals|] == intervals;
  }

  /** Solution4's counting scan over the sorted events. */
  method ScanEvents(events: seq<(int, int)>) returns (result: seq<Interval>)
    ensures result == Scan(events, 0, 0)
  {
    result := [];
    var count, start := 0, 0;
    for i := 0 to |events|
      invariant result + Scan(events[i..], count, start) == Scan(events, 0, 0)
      invariant count == Balance(events[..i])
    {
      ghost var rest := events[i..];
      assert rest[1..] == events[i + 1..];
      assert events[..i + 1] == events[..i] + [events[i]];
      BalanceAppend(events[..i], events[i]);
      var pos, eventType := events[i].0, events[i].1;
      if eventType == 0 {
        if count == 0 {
          start := pos;
        }
        count := count + 1;
      } else {
        count := count - 1;
        if count == 0 {
          result := result + [(start, pos - 1)];
        }
      }
    }
  }

  /** +1 for a start event, -1 for any other. */
  function Step(e: (int, int)): int {
    if e.1 == 0 then 1 else -1
  }

  /** Starts minus ends: the open count after the events, from zero. */
  function Balance(ev: seq<(int, int)>): int {
    if ev == [] then 0 else Step(ev[0]) + Balance(ev[1..])
  }

  lemma {:induction false} BalanceAppend(ev: seq<(int, int)>, e: (int, int))
    ensures Balance(ev + [e]) == Balance(ev) + Step(e)
  {
    if ev != [] {
      assert (ev + [e])[1..] == ev[1..] + [e];
      BalanceAppend(ev[1..], e);
    }
  }

  lemma {:induction false} BalanceInsert(ps: seq<(int, int)>, p: (int, int))
    ensures Balance(InsertPair(ps, p)) == Balance(ps) + Step(p)
  {
    if ps != [] && LexLe(ps[0], p) {
      BalanceInsert(ps[1..], p);
    }
  }

  /** Sorting the events keeps their balance. */
  lemma {:induction false} BalanceSort(ps: seq<(int, int)>)
    ensures Balance(SortPairs(ps)) == Balance(ps)
  {
    if ps != [] {
      var n := |ps| - 1;
      var init, last := ps[..n], ps[n];
      var sortedInit := SortPairs(init);
      assert SortPairs(ps) == InsertPair(sortedInit, last);
      BalanceSort(init);
      BalanceInsert(sortedInit, last);
      assert ps == init + [last];
      BalanceAppend(init, last);
    }
  }

  lemma {:induction false} BalanceEvents(ivs: seq<Interval>)
    ensures Balance(EventsOf(ivs)) == 0
  {
    if ivs != [] {
      var n := |ivs| - 1;
      BalanceEvents(ivs[..n]);
      var ev := EventsOf(ivs[..n]);
      BalanceAppend(ev, (ivs[n].0, 0));
      BalanceAppend(ev + [(ivs[n].0, 0)], (ivs[n].1 + 1, 1));
      assert ev + [(ivs[n].0, 0), (ivs[n].1 + 1, 1)] == ev + [(ivs[n].0, 0)] + [(ivs[n].1 + 1, 1)];
    }
  }

  /** Every interval opened by the sweep is closed again: after the last sorted event the open count is zero. */
  lemma SweepCloses(ivs: seq<Interval>)
    ensures Balance(SortPairs(EventsOf(ivs))) == 0
  {
    BalanceSort(EventsOf(ivs));
    BalanceEvents(ivs);
  }

  /** A start event sits at an input start; an end event one past an input end. */
  ghost predicate EventFrom(e: (int, int), ivs: seq<Interval>) {
    if e.1 == 0 then StartOf(e.0, ivs) else EndOf(e.0 - 1, ivs)
  }

  lemma EventsOfFrom(ivs: seq<Interval>)
    ensures forall e :: e in EventsOf(ivs) ==> EventFrom(e, ivs)
  {
    var ev := EventsOf(ivs);
    forall e | e in ev ensures EventFrom(e, ivs) {
      var j :| 0 <= j < |ev| && ev[j] == e;
      var k := j / 2;
      assert 0 <= k < |ivs| && (j == 2 * k || j == 2 * k + 1);
      if j == 2 * k {
        assert e == (ivs[k].0, 0);
      } else {
        assert e == (ivs[k].1 + 1, 1);
      }
    }
  }

  lemma EventsFrom(ivs: seq<Interval>)
    ensures forall e :: e in SortPairs(EventsOf(ivs)) ==> EventFrom(e, ivs)
  {
    var ev := EventsOf(ivs);
    EventsOfFrom(ivs);
    forall e | e in SortPairs(ev) ensures EventFrom(e, ivs) {
      assert e in multiset(SortPairs(ev));
      assert e in ev;
    }
  }

  /** The scan emits only intervals from an input start to an input end, provided every
      event comes from the input and, while something is open, the pending start does too. */
  lemma {:induction false} ScanFromEnds(ivs: seq<Interval>, ev: seq<(int, int)>, count: int, start: int)
    requires forall e :: e in ev ==> EventFrom(e, ivs)
    requires count >= 1 ==> StartOf(start, ivs)
    ensures FromEnds(ivs, Scan(ev, count, start))
    decreases |ev|
  {
    if ev != [] {
      assert ev[0] in ev;
      assert forall e :: e in ev[1..] ==> e in ev;
      if ev[0].1 == 0 {
        ScanFromEnds(ivs, ev[1..], count + 1, if count == 0 then ev[0].0 else start);
      } else if count - 1 == 0 {
        ScanFromEnds(ivs, ev[1..], 0, start);
        var o := (start, ev[0].0 - 1);
        assert StartOf(o.0, ivs) && EndOf(o.1, ivs);
      } else {
        ScanFromEnds(ivs, ev[1..], count - 1, start);
      }
    }
  }

  /** Like Solution3, the sweep emits only intervals from an input start to an input end. */
  lemma SweepFromEnds(ivs: seq<Interval>)
    ensures FromEnds(ivs, Scan(SortPairs(EventsOf(ivs)), 0, 0))
  {
    EventsFrom(ivs);
    ScanFromEnds(ivs, SortPairs(EventsOf(ivs)), 0, 0);
  }

  /** Solution4.merge. */
  method SweepMerge(intervals: seq<Interval>) returns (result: seq<Interval>)
    ensures result == Scan(SortPairs(EventsOf(intervals)), 0, 0)
  {
    var events := MakeEvents(intervals);
    events := SortPairs(events);
    result := ScanEvents(events);
  }

  lemma SortTwoEvents()
    ensures SortPairs([(1, 0), (3, 1)]) == [(1, 0), (3, 1)]
  {
    assert [(1, 0), (3, 1)][..1] == [(1, 0)] && [(1, 0)][..0] == [] && [(1, 0)][1..] == [];
    assert SortPairs([(1, 0)]) == [(1, 0)];
  }

  lemma SortThreeEvents()
    ensures SortPairs([(1, 0), (3, 1), (3, 0)]) == [(1, 0), (3, 0), (3, 1)]
  {
    SortTwoEvents();
    assert [(1, 0), (3, 1), (3, 0)][..2] == [(1, 0), (3, 1)];
    assert [(1, 0), (3, 1)][1..] == [(3, 1)];
    assert InsertPair([(3, 1)], (3, 0)) == [(3, 0), (3, 1)];
  }

  lemma InsertLastEventTail()
    ensures InsertPair([(3, 0), (3, 1)], (5, 1)) == [(3, 0), (3, 1), (5, 1)]
  {
    var t: seq<(int, int)> := [(3, 0), (3, 1)];
    assert t[1..] == [(3, 1)] && t[1..][1..] == [];
    assert InsertPair(t[1..], (5, 1)) == [(3, 1), (5, 1)];
  }

  lemma InsertLastEvent()
    ensures InsertPair([(1, 0), (3, 0), (3, 1)], (5, 1)) == [(1, 0), (3, 0), (3, 1), (5, 1)]
  {
    InsertLastEventTail();
    var t: seq<(int, int)> := [(1, 0), (3, 0), (3, 1)];
    assert t[1..] == [(3, 0), (3, 1)];
  }

  lemma SortAdjacentEvents()
    ensures SortPairs([(1, 0), (3, 1), (3, 0), (5, 1)]) == [(1, 0), (3, 0), (3, 1), (5, 1)]
  {
    var ev: seq<(int, int)> := [(1, 0), (3, 1), (3, 0), (5, 1)];
    SortThreeEvents();
    InsertLastEvent();
    assert ev[..3] == [(1, 0), (3, 1), (3, 0)] && ev[3] == (5, 1);
    assert SortPairs(ev) == InsertPair(SortPairs(ev[..3]), ev[3]);
  }

  lemma ScanAdjacentEvents()
    ensures Scan([(1, 0), (3, 0), (3, 1), (5, 1)], 0, 0) == [(1, 4)]
  {
    var sorted: seq<(int, int)> := [(1, 0), (3, 0), (3, 1), (5, 1)];
    assert sorted[1..] == [(3, 0), (3, 1), (5, 1)] && sorted[1..][1..] == [(3, 1), (5, 1)];
    assert sorted[1..][1..][1..] == [(5, 1)] && sorted[1..][1..][1..][1..] == [];
  }

  /** [1, 4] covers 2.5, which neither [1, 2] nor [3, 4] does. */
  lemma ApartNotJoined()
    ensures !IsMerge([(1, 2), (3, 4)], [(1, 4)])
  {
    var input := [(1, 2), (3, 4)];
    assert [(1, 4)][0] == (1, 4) && In((1, 4), 2.5);
    assert Covered([(1, 4)], 2.5);
    assert input[1..] == [(3, 4)] && [(3, 4)][1..] == [];
    AnyInCovered(input, 2.5);
    assert !Covered(input, 2.5);
  }

  lemma ApartEvents()
    ensures EventsOf([(1, 2), (3, 4)]) == [(1, 0), (3, 1), (3, 0), (5, 1)]
  {
    var ivs: seq<Interval> := [(1, 2), (3, 4)];
    assert ivs[..1] == [(1, 2)] && ivs[..1][..0] == [];
    assert EventsOf(ivs[..1]) == [(1, 0), (3, 1)];
  }

  /** The sweep is not a merge: [1, 2] and [3, 4] share no point, yet the end event of [1, 2]
      sits at 3, after the start of [3, 4], so the sweep returns [1, 4]. */
  lemma SweepJoinsApart()
    ensures Scan(SortPairs(EventsOf([(1, 2), (3, 4)])), 0, 0) == [(1, 4)]
    ensures !IsMerge([(1, 2), (3, 4)], [(1, 4)])
  {
    ApartEvents();
    SortAdjacentEvents();
    ScanAdjacentEvents();
    ApartNotJoined();
  }

  // ---------------------------------------------------------------------
  // One answer

  /** The points of ivs beyond e are those of its tail, once the first interval ends at e. */
  lemma TailCovered(o: seq<Interval>, x: real)
    requires |o| > 0 && WellFormed(o) && Separated(o)
    ensures Covered(o[1..], x) <==> Covered(o, x) && x > o[0].1 as real
  {
    if Covered(o[1..], x) {
      var k :| 0 <= k < |o| - 1 && In(o[1..][k], x);
      assert o[1..][k] == o[k + 1];
      assert o[0].1 < o[k + 1].0;
    }
    if Covered(o, x) && x > o[0].1 as real {
      var k :| 0 <= k < |o| && In(o[k], x);
      assert k > 0;
      assert o[1..][k - 1] == o[k];
    }
  }

  /** Two separated lists covering the same points start with the same interval. */
  lemma SameFirst(o1: seq<Interval>, o2: seq<Interval>)
    requires |o1| > 0 && |o2| > 0
    requires WellFormed(o1) && Separated(o1) && WellFormed(o2) && Separated(o2)
    requires forall x :: Covered(o1, x) <==> Covered(o2, x)
    ensures o1[0] == o2[0]
  {
    FirstStart(o1, o2);
    FirstStart(o2, o1);
    FirstEnd(o1, o2);
    FirstEnd(o2, o1);
  }

  lemma FirstStart(o1: seq<Interval>, o2: seq<Interval>)
    requires |o1| > 0 && |o2| > 0
    requires WellFormed(o1) && Separated(o1) && WellFormed(o2) && Separated(o2)
    requires forall x :: Covered(o1, x) <==> Covered(o2, x)
    ensures o2[0].0 <= o1[0].0
  {
    var x := o1[0].0 as real;
    assert In(o1[0], x) && Covered(o1, x) && Covered(o2, x);
    var k :| 0 <= k < |o2| && In(o2[k], x);
    if k > 0 {
      assert o2[0].0 <= o2[0].1 < o2[k].0;
    }
  }

  lemma FirstEnd(o1: seq<Interval>, o2: seq<Interval>)
    requires |o1| > 0 && |o2| > 0 && o1[0].0 == o2[0].0
    requires WellFormed(o1) && Separated(o1) && WellFormed(o2) && Separated(o2)
    requires forall x :: Covered(o1, x) <==> Covered(o2, x)
    ensures o1[0].1 <= o2[0].1
  {
    GapAfterFirst(o2);
    var x := o2[0].1 as real + 0.5;
    assert In(o1[0], x) ==> Covered(o1, x);
  }

  /** Just past the end of the first interval lies a point nothing covers. */
  lemma GapAfterFirst(o: seq<Interval>)
    requires |o| > 0 && WellFormed(o) && Separated(o)
    ensures !Covered(o, o[0].1 as real + 0.5)
  {
    var x := o[0].1 as real + 0.5;
    forall k | 0 <= k < |o| ensures !In(o[k], x) {
      if k > 0 {
        assert o[0].1 < o[k].0;
      }
    }
  }

  lemma NonEmpty(o1: seq<Interval>, o2: seq<Interval>)
    requires WellFormed(o1) && forall x :: Covered(o1, x) <==> Covered(o2, x)
    ensures |o1| > 0 ==> |o2| > 0
  {
    if |o1| > 0 {
      var x := o1[0].0 as real;
      assert In(o1[0], x) && Covered(o1, x);
    }
  }

  /** A merge is determined by the points it covers: all solutions return the same list. */
  lemma {:induction false} Unique(o1: seq<Interval>, o2: seq<Interval>)
    requires WellFormed(o1) && Separated(o1) && WellFormed(o2) && Separated(o2)
    requires forall x :: Covered(o1, x) <==> Covered(o2, x)
    ensures o1 == o2
    decreases |o1|
  {
    NonEmpty(o1, o2);
    NonEmpty(o2, o1);
    if |o1| > 0 {
      SameFirst(o1, o2);
      forall x ensures Covered(o1[1..], x) <==> Covered(o2[1..], x) {
        TailCovered(o1, x);
        TailCovered(o2, x);
      }
      Unique(o1[1..], o2[1..]);
      assert o1 == [o1[0]] + o1[1..];
      assert o2 == [o2[0]] + o2[1..];
    }
  }

  /** Merges of the same input are equal. */
  lemma MergeUnique(input: seq<Interval>, o1: seq<Interval>, o2: seq<Interval>)
    requires IsMerge(input, o1) && IsMerge(input, o2)
    ensures o1 == o2
  {
    Unique(o1, o2);
  }

  // ---------------------------------------------------------------------
  // The driver's cases

  /** Covered, unrolled over a list. */
  predicate AnyIn(ivs: seq<Interval>, x: real) {
    ivs != [] && (In(ivs[0], x) || AnyIn(ivs[1..], x))
  }

  lemma {:induction false} AnyInCovered(ivs: seq<Interval>, x: real)
    ensures AnyIn(ivs, x) <==> Covered(ivs, x)
  {
    if ivs != [] {
      AnyInCovered(ivs[1..], x);
      TailAny(ivs, x);
    }
  }

  lemma TailAny(ivs: seq<Interval>, x: real)
    requires ivs != []
    ensures Covered(ivs, x) <==> In(ivs[0], x) || Covered(ivs[1..], x)
  {
    assert ivs == [ivs[0]] + ivs[1..];
    if Covered(ivs, x) && !In(ivs[0], x) {
      var k :| 0 <= k < |ivs| && In(ivs[k], x);
      assert ivs[1..][k - 1] == ivs[k];
    }
    if Covered(ivs[1..], x) {
      var k :| 0 <= k < |ivs| - 1 && In(ivs[1..][k], x);
      assert ivs[k + 1] == ivs[1..][k];
    }
  }

  /** expected is the merge of input when the two cover the same points. */
  lemma IsMergeOf(input: seq<Interval>, expected: seq<Interval>, out: seq<Interval>)
    requires WellFormed(expected) && Separated(expected)
    requires forall x :: AnyIn(input, x) <==> AnyIn(expected, x)
    requires IsMerge(input, out)
    ensures out == expected
  {
    forall x ensures Covered(input, x) <==> Covered(expected, x) {
      AnyInCovered(input, x);
      AnyInCovered(expected, x);
    }
    Unique(out, expected);
  }

  lemma SampleOne(out: seq<Interval>)
    requires IsMerge([(1, 3), (2, 6), (8, 10), (15, 18)], out)
    ensures out == [(1, 6), (8, 10), (15, 18)]
  {
    IsMergeOf([(1, 3), (2, 6), (8, 10), (15, 18)], [(1, 6), (8, 10), (15, 18)], out);
  }

  /** Touching intervals merge. */
  lemma SampleTouching(out: seq<Interval>)
    requires IsMerge([(1, 4), (4, 5)], out)
    ensures out == [(1, 5)]
  {
    assert [(1, 4), (4, 5)][1..] == [(4, 5)] && [(4, 5)][1..] == [] && [(1, 5)][1..] == [];
    IsMergeOf([(1, 4), (4, 5)], [(1, 5)], out);
  }

  lemma SampleUnsorted(out: seq<Interval>)
    requires IsMerge([(4, 7), (1, 4)], out)
    ensures out == [(1, 7)]
  {
    assert [(4, 7), (1, 4)][1..] == [(1, 4)] && [(1, 4)][1..] == [] && [(1, 7)][1..] == [];
    IsMergeOf([(4, 7), (1, 4)], [(1, 7)], out);
  }

  lemma SampleNested(out1: seq<Interval>, out2: seq<Interval>)
    requires IsMerge([(1, 4), (0, 4)], out1) && IsMerge([(1, 4), (2, 3)], out2)
    ensures out1 == [(0, 4)] && out2 == [(1, 4)]
  {
    assert [(1, 4), (0, 4)][1..] == [(0, 4)];
    assert [(1, 4), (2, 3)][1..] == [(2, 3)] && [(2, 3)][1..] == [] && [(1, 4)][1..] == [];
    IsMergeOf([(1, 4), (0, 4)], [(0, 4)], out1);
    IsMergeOf([(1, 4), (2, 3)], [(1, 4)], out2);
  }

  /** [1, 2] and [3, 4] share no point and stay apart. */
  lemma SampleApart(out: seq<Interval>)
    requires IsMerge([(1, 2), (3, 4)], out)
    ensures out == [(1, 2), (3, 4)]
  {
    IsMergeOf([(1, 2), (3, 4)], [(1, 2), (3, 4)], out);
  }
}

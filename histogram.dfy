// Largest Rectangle in Histogram: the largest area of a rectangle drawn
// inside a bar chart, which is the largest (lowest bar of a run) * (length
// of the run) over all runs of adjacent bars. Variants: a two-pass
// monotone stack (largestRectangleArea), the standard one-pass stack
// (method2), brute force (method3), expanding from every bar (method4),
// boundary arrays with pointer jumping (method5) and divide and conquer on
// the lowest bar (method6).

module Histogram {

  function Min(a: int, b: int): int {
    if a <= b then a else b
  }

  function Max(a: int, b: int): int {
    if a >= b then a else b
  }

  // ---------------------------------------------------------------------
  // What the answer is

  /** The lowest bar among heights[lo..hi). */
  function MinIn(h: seq<int>, lo: int, hi: int): int
    requires 0 <= lo < hi <= |h|
    decreases hi - lo
  {
    if hi == lo + 1 then h[lo] else Min(MinIn(h, lo, hi - 1), h[hi - 1])
  }

  /** MinIn is a lower bound of the run and is one of its bars. */
  lemma {:induction false} MinInBounds(h: seq<int>, lo: int, hi: int)
    requires 0 <= lo < hi <= |h|
    ensures forall k :: lo <= k < hi ==> MinIn(h, lo, hi) <= h[k]
    ensures exists k :: lo <= k < hi && MinIn(h, lo, hi) == h[k]
    decreases hi - lo
  {
    if hi > lo + 1 {
      MinInBounds(h, lo, hi - 1);
      if MinIn(h, lo, hi - 1) <= h[hi - 1] {
        var k :| lo <= k < hi - 1 && MinIn(h, lo, hi - 1) == h[k];
        assert MinIn(h, lo, hi) == h[k];
      } else {
        assert MinIn(h, lo, hi) == h[hi - 1];
      }
    } else {
      assert MinIn(h, lo, hi) == h[lo];
    }
  }

  /** The rectangle over bars lo..hi-1: as high as the lowest of them, as wide as the run. */
  function Area(h: seq<int>, lo: int, hi: int): int
    requires 0 <= lo < hi <= |h|
  {
    MinIn(h, lo, hi) * (hi - lo)
  }

  /** v is the largest rectangle within bars [lo, hi), or 0 when no rectangle there is positive. */
  ghost predicate LargestIn(h: seq<int>, lo: int, hi: int, v: int)
    requires 0 <= lo <= hi <= |h|
  {
    && 0 <= v
    && (forall a, b :: lo <= a < b <= hi ==> Area(h, a, b) <= v)
    && (v == 0 || exists a, b :: lo <= a < b <= hi && Area(h, a, b) == v)
  }

  ghost predicate Largest(h: seq<int>, v: int) {
    LargestIn(h, 0, |h|, v)
  }

  /** There is one largest area, so all variants that meet Largest agree. */
  lemma {:induction false} LargestUnique(h: seq<int>, lo: int, hi: int, v: int, w: int)
    requires 0 <= lo <= hi <= |h| && LargestIn(h, lo, hi, v) && LargestIn(h, lo, hi, w)
    ensures v == w
  {
    if v != 0 {
      var a, b :| lo <= a < b <= hi && Area(h, a, b) == v;
      assert v <= w;
    }
    if w != 0 {
      var a, b :| lo <= a < b <= hi && Area(h, a, b) == w;
      assert w <= v;
    }
  }

  /** When every bar of [lo, hi) is at least h[k], bar k is the lowest. */
  lemma {:induction false} MinInIs(h: seq<int>, lo: int, hi: int, k: int)
    requires 0 <= lo <= k < hi <= |h|
    requires forall j :: lo <= j < hi ==> h[k] <= h[j]
    ensures MinIn(h, lo, hi) == h[k]
  {
    MinInBounds(h, lo, hi);
  }

  // ---------------------------------------------------------------------
  // Spans: how far bars at least x reach from a bar

  /** Step left from l while the bar to the left is at least x. */
  function Reach(h: seq<int>, x: int, l: int): (e: int)
    requires 0 <= l <= |h|
    ensures 0 <= e <= l
    ensures e == 0 || h[e - 1] < x
    decreases l
  {
    if l == 0 || h[l - 1] < x then l else Reach(h, x, l - 1)
  }

  /** Every bar Reach steps over is at least x. */
  lemma {:induction false} ReachAbove(h: seq<int>, x: int, l: int)
    requires 0 <= l <= |h|
    ensures forall j :: Reach(h, x, l) <= j < l ==> x <= h[j]
    decreases l
  {
    if l > 0 && h[l - 1] >= x {
      ReachAbove(h, x, l - 1);
    }
  }

  /** Step right from r while the bar at r is at least x. */
  function ReachRight(h: seq<int>, x: int, r: int): (e: int)
    requires 0 <= r <= |h|
    ensures r <= e <= |h|
    ensures e == |h| || h[e] < x
    decreases |h| - r
  {
    if r == |h| || h[r] < x then r else ReachRight(h, x, r + 1)
  }

  lemma {:induction false} ReachRightAbove(h: seq<int>, x: int, r: int)
    requires 0 <= r <= |h|
    ensures forall j :: r <= j < ReachRight(h, x, r) ==> x <= h[j]
    decreases |h| - r
  {
    if r < |h| && h[r] >= x {
      ReachRightAbove(h, x, r + 1);
    }
  }

  /** Reach stops at the first bar lower than x: any such stopping point is the answer. */
  lemma {:induction false} ReachIs(h: seq<int>, x: int, l: int, e: int)
    requires 0 <= e <= l <= |h|
    requires forall j :: e <= j < l ==> x <= h[j]
    requires e == 0 || h[e - 1] < x
    ensures Reach(h, x, l) == e
    decreases l
  {
    if l > e {
      ReachIs(h, x, l - 1, e);
    }
  }

  lemma {:induction false} ReachRightIs(h: seq<int>, x: int, r: int, e: int)
    requires 0 <= r <= e <= |h|
    requires forall j :: r <= j < e ==> x <= h[j]
    requires e == |h| || h[e] < x
    ensures ReachRight(h, x, r) == e
    decreases |h| - r
  {
    if r < e {
      ReachRightIs(h, x, r + 1, e);
    }
  }

  /** Starting further left over bars at least x reaches the same point. */
  lemma {:induction false} ReachSkip(h: seq<int>, x: int, l: int, l': int)
    requires 0 <= l' <= l <= |h|
    requires forall j :: l' <= j < l ==> x <= h[j]
    ensures Reach(h, x, l) == Reach(h, x, l')
  {
    ReachAbove(h, x, l');
    ReachIs(h, x, l, Reach(h, x, l'));
  }

  lemma {:induction false} ReachRightSkip(h: seq<int>, x: int, r: int, r': int)
    requires 0 <= r <= r' <= |h|
    requires forall j :: r <= j < r' ==> x <= h[j]
    ensures ReachRight(h, x, r) == ReachRight(h, x, r')
  {
    ReachRightAbove(h, x, r');
    ReachRightIs(h, x, r, ReachRight(h, x, r'));
  }

  /** The widest run containing bar k with no bar lower than bar k. */
  function Width(h: seq<int>, k: int): int
    requires 0 <= k < |h|
  {
    ReachRight(h, h[k], k + 1) - Reach(h, h[k], k)
  }

  /** The best of h[k] * Width(h, k) over k < n, or 0. */
  function BestSpan(h: seq<int>, n: int): (v: int)
    requires 0 <= n <= |h|
    ensures 0 <= v
  {
    if n == 0 then 0 else Max(BestSpan(h, n - 1), h[n - 1] * Width(h, n - 1))
  }

  /** BestSpan bounds every stretched bar before n and is one of them (or 0). */
  lemma {:induction false} BestSpanBounds(h: seq<int>, n: int)
    requires 0 <= n <= |h|
    ensures forall k {:trigger Width(h, k)} :: 0 <= k < n ==> h[k] * Width(h, k) <= BestSpan(h, n)
    ensures BestSpan(h, n) == 0 || exists k {:trigger Width(h, k)} :: 0 <= k < n && BestSpan(h, n) == h[k] * Width(h, k)
  {
    if n > 0 {
      BestSpanBounds(h, n - 1);
    }
  }

  lemma {:induction false} MulMono(x: int, a: int, b: int)
    requires 0 <= x && a <= b
    ensures x * a <= x * b
  {
  }

  lemma {:induction false} MulNeg(x: int, w: int)
    requires x < 0 < w
    ensures x * w < 0
  {
  }

  /** A rectangle is no larger than its lowest bar stretched over that bar's span. */
  lemma {:induction false} AreaBelowBestSpan(h: seq<int>, a: int, b: int)
    requires 0 <= a < b <= |h|
    ensures Area(h, a, b) <= BestSpan(h, |h|)
  {
    BestSpanBounds(h, |h|);
    MinInBounds(h, a, b);
    var k :| a <= k < b && MinIn(h, a, b) == h[k];
    var x := h[k];
    assert Area(h, a, b) == x * (b - a);
    if x >= 0 {
      ReachSkip(h, x, k, a);
      ReachRightSkip(h, x, k + 1, b);
      assert b - a <= Width(h, k);
      MulMono(x, b - a, Width(h, k));
      assert x * Width(h, k) <= BestSpan(h, |h|);
    } else {
      MulNeg(x, b - a);
    }
  }

  /** Every bar stretched over its span is a rectangle. */
  lemma {:induction false} SpanIsArea(h: seq<int>, k: int)
    requires 0 <= k < |h|
    ensures exists a, b :: 0 <= a < b <= |h| && Area(h, a, b) == h[k] * Width(h, k)
  {
    var l, r := Reach(h, h[k], k), ReachRight(h, h[k], k + 1);
    ReachAbove(h, h[k], k);
    ReachRightAbove(h, h[k], k + 1);
    MinInIs(h, l, r, k);
    assert Area(h, l, r) == h[k] * Width(h, k);
  }

  /** The largest rectangle is the best span. */
  lemma {:induction false} LargestIsBestSpan(h: seq<int>)
    ensures Largest(h, BestSpan(h, |h|))
  {
    var v := BestSpan(h, |h|);
    forall a, b | 0 <= a < b <= |h| ensures Area(h, a, b) <= v {
      AreaBelowBestSpan(h, a, b);
    }
    BestSpanBounds(h, |h|);
    if v != 0 {
      var k :| 0 <= k < |h| && v == h[k] * Width(h, k);
      SpanIsArea(h, k);
    }
  }

  // ---------------------------------------------------------------------
  // method3: brute force

  /** largestRectangleArea_method3: every start i, every end j, tracking the running minimum. */
  method BruteForce(heights: seq<int>) returns (maxArea: int)
    ensures Largest(heights, maxArea)
  {
    if |heights| == 0 {
      return 0;
    }
    maxArea := 0;
    var n := |heights|;
    for i := 0 to n
      invariant 0 <= maxArea
      invariant forall a, b :: 0 <= a < i && a < b <= n ==> Area(heights, a, b) <= maxArea
      invariant maxArea == 0 || exists a, b :: 0 <= a < b <= n && Area(heights, a, b) == maxArea
    {
      var minHeight := heights[i];
      for j := i to n
        invariant 0 <= maxArea
        invariant minHeight == if j == i then heights[i] else MinIn(heights, i, j)
        invariant forall a, b :: 0 <= a < i && a < b <= n ==> Area(heights, a, b) <= maxArea
        invariant forall b :: i < b <= j ==> Area(heights, i, b) <= maxArea
        invariant maxArea == 0 || exists a, b :: 0 <= a < b <= n && Area(heights, a, b) == maxArea
      {
        minHeight := Min(minHeight, heights[j]);
        assert minHeight == MinIn(heights, i, j + 1);
        var width := j - i + 1;
        assert Area(heights, i, j + 1) == minHeight * width;
        maxArea := Max(maxArea, minHeight * width);
      }
    }
  }

  // ---------------------------------------------------------------------
  // method4: expand from every bar

  /** largestRectangleArea_method4: from each bar walk left and right over bars at least as high. */
  method Expand(heights: seq<int>) returns (maxArea: int)
    ensures Largest(heights, maxArea)
  {
    if |heights| == 0 {
      return 0;
    }
    maxArea := 0;
    var n := |heights|;
    for i := 0 to n
      invariant maxArea == BestSpan(heights, i)
    {
      var h := heights[i];
      var left, right := i, i;
      while left > 0 && heights[left - 1] >= h
        invariant 0 <= left <= i
        invariant Reach(heights, h, left) == Reach(heights, h, i)
      {
        left := left - 1;
      }
      while right < n - 1 && heights[right + 1] >= h
        invariant i <= right < n
        invariant ReachRight(heights, h, right + 1) == ReachRight(heights, h, i + 1)
      {
        right := right + 1;
      }
      var width := right - left + 1;
      maxArea := Max(maxArea, h * width);
    }
    LargestIsBestSpan(heights);
  }

  // ---------------------------------------------------------------------
  // method5: boundary arrays with pointer jumping

  /** The jumps of method5's first loop: from i - 1 follow left[] over bars at least heights[i]. */
  method NearestLowerLeft(heights: seq<int>, left: seq<int>, i: int) returns (p: int)
    requires 0 <= i < |heights| && i <= |left|
    requires forall k {:trigger left[k]} :: 0 <= k < i ==> left[k] == Reach(heights, heights[k], k) - 1
    ensures p == Reach(heights, heights[i], i) - 1
  {
    p := i - 1;
    while p >= 0 && heights[p] >= heights[i]
      invariant -1 <= p < i
      invariant forall j :: p < j < i ==> heights[i] <= heights[j]
      decreases p
    {
      var q := left[p];
      ReachAbove(heights, heights[p], p);
      assert forall j :: q < j < p ==> heights[p] <= heights[j];
      p := q;
    }
    ReachIs(heights, heights[i], i, p + 1);
  }

  /** The jumps of method5's second loop: from i + 1 follow right[] over bars at least heights[i]. */
  method NearestLowerRight(heights: seq<int>, right: seq<int>, i: int) returns (p: int)
    requires 0 <= i < |heights| == |right|
    requires forall k {:trigger right[k]} :: i < k < |heights| ==> right[k] == ReachRight(heights, heights[k], k + 1)
    ensures p == ReachRight(heights, heights[i], i + 1)
  {
    var n := |heights|;
    p := i + 1;
    while p < n && heights[p] >= heights[i]
      invariant i < p <= n
      invariant forall j :: i < j < p ==> heights[i] <= heights[j]
      decreases n - p
    {
      var q := right[p];
      ReachRightAbove(heights, heights[p], p + 1);
      assert forall j :: p < j < q ==> heights[p] <= heights[j];
      p := q;
    }
    ReachRightIs(heights, heights[i], i + 1, p);
  }

  /** left[i] is the nearest lower bar to the left of i, or -1. */
  method LeftBounds(heights: seq<int>) returns (left: seq<int>)
    requires |heights| > 0
    ensures |left| == |heights|
    ensures forall k {:trigger left[k]} :: 0 <= k < |heights| ==> left[k] == Reach(heights, heights[k], k) - 1
  {
    var n := |heights|;
    left := seq(n, _ => 0);
    left := left[0 := -1];
    for i := 1 to n
      invariant |left| == n
      invariant forall k {:trigger left[k]} :: 0 <= k < i ==> left[k] == Reach(heights, heights[k], k) - 1
    {
      var p := NearestLowerLeft(heights, left, i);
      left := left[i := p];
    }
  }

  /** right[i] is the nearest lower bar to the right of i, or n. */
  method RightBounds(heights: seq<int>) returns (right: seq<int>)
    requires |heights| > 0
    ensures |right| == |heights|
    ensures forall k {:trigger right[k]} :: 0 <= k < |heights| ==> right[k] == ReachRight(heights, heights[k], k + 1)
  {
    var n := |heights|;
    right := seq(n, _ => 0);
    right := right[n - 1 := n];
    for i := n - 1 downto 0
      invariant |right| == n
      invariant forall k {:trigger right[k]} :: i <= k < n ==> right[k] == ReachRight(heights, heights[k], k + 1)
    {
      var p := NearestLowerRight(heights, right, i);
      right := right[i := p];
    }
  }

  /** largestRectangleArea_method5. */
  method Boundaries(heights: seq<int>) returns (maxArea: int)
    ensures Largest(heights, maxArea)
  {
    if |heights| == 0 {
      return 0;
    }
    var n := |heights|;
    var left := LeftBounds(heights);
    var right := RightBounds(heights);
    maxArea := 0;
    for i := 0 to n
      invariant maxArea == BestSpan(heights, i)
    {
      var width := right[i] - left[i] - 1;
      maxArea := Max(maxArea, heights[i] * width);
    }
    LargestIsBestSpan(heights);
  }

  // ---------------------------------------------------------------------
  // method6: divide and conquer on the lowest bar

  /** A rectangle over [s, e) either contains the lowest bar m, and is then at most as high
      as it, or lies wholly to one side of it. */
  lemma {:induction false} DivideArea(h: seq<int>, s: int, e: int, m: int, a: int, b: int, x: int, y: int)
    requires 0 <= s <= m < e <= |h|
    requires forall j :: s <= j < e ==> h[m] <= h[j]
    requires LargestIn(h, s, m, a) && LargestIn(h, m + 1, e, b)
    requires s <= x < y <= e
    ensures Area(h, x, y) <= Max(Max(h[m] * (e - s), a), b)
  {
    if x <= m < y {
      MinInIs(h, x, y, m);
      var z := h[m];
      assert Area(h, x, y) == z * (y - x);
      if z >= 0 {
        MulMono(z, y - x, e - s);
      } else {
        MulNeg(z, y - x);
      }
    } else if y <= m {
      assert Area(h, x, y) <= a;
    } else {
      assert Area(h, x, y) <= b;
    }
  }

  lemma {:induction false} DivideLargest(h: seq<int>, s: int, e: int, m: int, a: int, b: int)
    requires 0 <= s <= m < e <= |h|
    requires forall j :: s <= j < e ==> h[m] <= h[j]
    requires LargestIn(h, s, m, a) && LargestIn(h, m + 1, e, b)
    ensures LargestIn(h, s, e, Max(Max(h[m] * (e - s), a), b))
  {
    var v := Max(Max(h[m] * (e - s), a), b);
    forall x, y | s <= x < y <= e ensures Area(h, x, y) <= v {
      DivideArea(h, s, e, m, a, b, x, y);
    }
    if v == h[m] * (e - s) {
      MinInIs(h, s, e, m);
      assert Area(h, s, e) == v;
    } else if v == a && a != 0 {
      var x, y :| s <= x < y <= m && Area(h, x, y) == a;
      assert s <= x < y <= e;
    } else if v == b && b != 0 {
      var x, y :| m + 1 <= x < y <= e && Area(h, x, y) == b;
      assert s <= x < y <= e;
    }
  }

  /** calculate_area(heights, start, end) over the inclusive range [start, end]. */
  method CalculateArea(heights: seq<int>, start: int, end: int) returns (area: int)
    requires 0 <= start <= end + 1 <= |heights|
    ensures LargestIn(heights, start, end + 1, area)
    decreases end + 1 - start
  {
    if start > end {
      return 0;
    }
    var minIndex := start;
    for i := start to end + 1
      invariant start <= minIndex <= end
      invariant forall j :: start <= j < i ==> heights[minIndex] <= heights[j]
    {
      if heights[i] < heights[minIndex] {
        minIndex := i;
      }
    }
    var leftArea := CalculateArea(heights, start, minIndex - 1);
    var rightArea := CalculateArea(heights, minIndex + 1, end);
    DivideLargest(heights, start, end + 1, minIndex, leftArea, rightArea);
    area := Max(Max(heights[minIndex] * (end - start + 1), leftArea), rightArea);
  }

  /** largestRectangleArea_method6. */
  method DivideAndConquer(heights: seq<int>) returns (maxArea: int)
    ensures Largest(heights, maxArea)
  {
    if |heights| == 0 {
      return 0;
    }
    maxArea := CalculateArea(heights, 0, |heights| - 1);
  }

  // ---------------------------------------------------------------------
  // method2: one pass with a monotone stack over heights + [0]

  /** The index on top of the stack, or -1 when it is empty. */
  function Top(s: seq<int>): int {
    if s == [] then -1 else s[|s| - 1]
  }

  /** The index below s[k] on the stack, or -1. */
  function Below(s: seq<int>, k: int): int
    requires 0 <= k < |s|
  {
    if k == 0 then -1 else s[k - 1]
  }

  /** The stack after bars 0..i-1: increasing indices, non-decreasing heights, and every bar
      skipped between two stacked bars higher than the upper one. */
  ghost predicate StackShape(hs: seq<int>, s: seq<int>, i: int) {
    && 0 <= i <= |hs|
    && (forall k :: 0 <= k < |s| ==> 0 <= s[k] < i)
    && (forall k, l :: 0 <= k < l < |s| ==> s[k] < s[l] && hs[s[k]] <= hs[s[l]])
    && (forall k {:trigger Below(s, k)} :: 0 <= k < |s| ==> Higher(hs, Below(s, k), s[k]))
  }

  /** Every bar strictly between b and m is higher than bar m. */
  ghost predicate Higher(hs: seq<int>, b: int, m: int)
    requires -1 <= b && 0 <= m < |hs|
  {
    forall j :: b < j < m ==> hs[m] < hs[j]
  }

  /** v is 0 or the area of a rectangle. */
  ghost predicate Sound(hs: seq<int>, v: int) {
    0 <= v && (v == 0 || exists a, b :: 0 <= a < b <= |hs| && Area(hs, a, b) == v)
  }

  /** Every bar before i that has left the stack has been stretched over its span. */
  ghost predicate Complete(hs: seq<int>, s: seq<int>, i: int, v: int)
    requires 0 <= i <= |hs|
  {
    forall j {:trigger Width(hs, j)} :: 0 <= j < i && j !in s ==> hs[j] * Width(hs, j) <= v
  }

  /** Popping keeps the shape. */
  lemma {:induction false} StackPop(hs: seq<int>, s: seq<int>, i: int)
    requires StackShape(hs, s, i) && s != []
    ensures StackShape(hs, s[..|s| - 1], i)
  {
    var s' := s[..|s| - 1];
    forall k | 0 <= k < |s'| ensures Higher(hs, Below(s', k), s'[k]) {
      assert Below(s', k) == Below(s, k);
    }
  }

  /** Pushing a bar i no lower than the top, above a run of higher bars, keeps the shape. */
  lemma {:induction false} StackPush(hs: seq<int>, s: seq<int>, i: int)
    requires StackShape(hs, s, i) && i < |hs|
    requires s == [] || hs[Top(s)] <= hs[i]
    requires Higher(hs, Top(s), i)
    ensures StackShape(hs, s + [i], i + 1)
  {
    var s' := s + [i];
    forall k | 0 <= k < |s'| ensures 0 <= s'[k] < i + 1 {
      if k < |s| {
        assert s'[k] == s[k];
      }
    }
    forall k, l | 0 <= k < l < |s'| ensures s'[k] < s'[l] && hs[s'[k]] <= hs[s'[l]] {
      assert s'[k] == s[k];
      if l < |s| {
        assert s'[l] == s[l];
      } else if k < |s| - 1 {
        assert hs[s[k]] <= hs[s[|s| - 1]];
      }
    }
    forall k | 0 <= k < |s'| ensures Higher(hs, Below(s', k), s'[k]) {
      if k < |s| {
        assert Below(s', k) == Below(s, k);
      } else {
        assert Below(s', k) == Top(s);
      }
    }
  }

  /** What popping the top m gives: the rectangle between the new top b and i has height
      hs[m], and it is m's span when b is lower than m. */
  lemma {:induction false} PopFacts(hs: seq<int>, s: seq<int>, i: int)
    requires StackShape(hs, s, i) && i < |hs| && s != []
    requires forall j :: Top(s) < j < i ==> hs[i] < hs[j]
    requires forall j :: Top(s) < j < i ==> hs[Top(s)] <= hs[j]
    requires hs[i] < hs[Top(s)]
    ensures var m, b := Top(s), Top(s[..|s| - 1]);
      && -1 <= b < m < i
      && Area(hs, b + 1, i) == hs[m] * (i - b - 1)
      && ReachRight(hs, hs[m], m + 1) == i
      && (forall j :: b < j < i ==> hs[i] < hs[j])
      && (b >= 0 ==> forall j :: b < j < i ==> hs[b] <= hs[j])
      && (b < 0 || hs[b] < hs[m] ==> Width(hs, m) == i - b - 1)
  {
    TopPair(hs, s, i);
    PopRun(hs, Top(s[..|s| - 1]), Top(s), i);
  }

  /** The top two entries of a stack in shape. */
  lemma {:induction false} TopPair(hs: seq<int>, s: seq<int>, i: int)
    requires StackShape(hs, s, i) && s != []
    ensures var m, b := Top(s), Top(s[..|s| - 1]);
      && -1 <= b < m < i && Higher(hs, b, m) && (b >= 0 ==> hs[b] <= hs[m])
  {
    var n := |s| - 1;
    assert Top(s[..n]) == Below(s, n);
  }

  /** Bar m, with every bar between b and m higher and every bar between m and i at least as
      high, and bar i lower: the run between b and i has height hs[m]. */
  lemma {:induction false} PopRun(hs: seq<int>, b: int, m: int, i: int)
    requires -1 <= b < m < i < |hs|
    requires Higher(hs, b, m) && (b >= 0 ==> hs[b] <= hs[m])
    requires forall j :: m < j < i ==> hs[i] < hs[j]
    requires forall j :: m < j < i ==> hs[m] <= hs[j]
    requires hs[i] < hs[m]
    ensures Area(hs, b + 1, i) == hs[m] * (i - b - 1)
    ensures ReachRight(hs, hs[m], m + 1) == i
    ensures forall j :: b < j < i ==> hs[i] < hs[j]
    ensures b >= 0 ==> forall j :: b < j < i ==> hs[b] <= hs[j]
    ensures b < 0 || hs[b] < hs[m] ==> Width(hs, m) == i - b - 1
  {
    var x := hs[m];
    assert forall j :: b < j < i ==> x <= hs[j];
    MinInIs(hs, b + 1, i, m);
    ReachRightIs(hs, x, m + 1, i);
    if b < 0 || hs[b] < x {
      ReachIs(hs, x, m, b + 1);
    }
  }

  /** A bar j of the same height above m, with nothing lower between them and a lower bar at i,
      has the same span as m. */
  lemma {:induction false} SameWidth(hs: seq<int>, m: int, j: int, i: int)
    requires 0 <= m < j < i < |hs| && hs[j] == hs[m] && hs[i] < hs[m]
    requires forall t :: m < t < i ==> hs[m] <= hs[t]
    ensures Width(hs, j) == Width(hs, m)
  {
    var x := hs[m];
    ReachSkip(hs, x, j, m);
    ReachRightIs(hs, x, j + 1, i);
    ReachRightIs(hs, x, m + 1, i);
  }

  /** The while loop of method2 at bar i: pop every stacked bar higher than hs[i], scoring
      each popped bar over the run between the bar below it and i. */
  method PopHigher(hs: seq<int>, s0: seq<int>, i: int, area0: int) returns (s: seq<int>, area: int)
    requires 0 <= i < |hs| && StackShape(hs, s0, i) && Top(s0) == i - 1
    requires Sound(hs, area0) && Complete(hs, s0, i, area0)
    ensures StackShape(hs, s + [i], i + 1) && Top(s + [i]) == i
    ensures Sound(hs, area) && Complete(hs, s + [i], i + 1, area)
  {
    s, area := s0, area0;
    while s != [] && hs[i] < hs[s[|s| - 1]]
      invariant StackShape(hs, s, i)
      invariant forall j :: Top(s) < j < i ==> hs[i] < hs[j]
      invariant s != [] ==> forall j :: Top(s) < j < i ==> hs[Top(s)] <= hs[j]
      invariant Sound(hs, area)
      invariant forall j {:trigger Width(hs, j)} :: 0 <= j < i && j !in s ==>
        hs[j] * Width(hs, j) <= area || (s != [] && Top(s) < j && hs[j] == hs[Top(s)])
      decreases |s|
    {
      PopFacts(hs, s, i);
      StackPop(hs, s, i);
      ghost var s1 := s;
      var hIndex := s[|s| - 1];
      s := s[..|s| - 1];
      var h := hs[hIndex];
      var w := if s == [] then i else i - s[|s| - 1] - 1;
      assert w == i - Top(s) - 1;
      var candidate := h * w;
      assert Area(hs, Top(s) + 1, i) == candidate;
      area := Max(area, candidate);
      assert candidate <= area;
      ghost var lower := s == [] || hs[Top(s)] < h;
      if lower {
        assert Width(hs, hIndex) == w;
        assert h * Width(hs, hIndex) == candidate;
      } else {
        assert hs[Top(s)] == h;
      }
      forall j | 0 <= j < i && j !in s
        ensures hs[j] * Width(hs, j) <= area || (s != [] && Top(s) < j && hs[j] == hs[Top(s)])
      {
        if j != hIndex {
          assert j !in s1;
          if hIndex < j && hs[j] == h {
            if lower {
              SameWidth(hs, hIndex, j, i);
              assert hs[j] * Width(hs, j) == h * Width(hs, hIndex);
            }
          }
        }
      }
    }
    assert Higher(hs, Top(s), i);
    StackPush(hs, s, i);
    forall j | 0 <= j < i + 1 && j !in s + [i] ensures hs[j] * Width(hs, j) <= area {
      assert j !in s;
      if s != [] && Top(s) < j {
        assert hs[Top(s)] <= hs[i] < hs[j];
      }
    }
  }

  /** A trailing 0 bar adds no positive rectangle when no bar is negative. */
  lemma {:induction false} MinInPrefix(h: seq<int>, t: seq<int>, lo: int, hi: int)
    requires 0 <= lo < hi <= |h|
    ensures MinIn(h + t, lo, hi) == MinIn(h, lo, hi)
    decreases hi - lo
  {
    if hi > lo + 1 {
      MinInPrefix(h, t, lo, hi - 1);
    }
  }

  lemma {:induction false} LargestSentinel(h: seq<int>, v: int)
    requires forall k :: 0 <= k < |h| ==> 0 <= h[k]
    requires Largest(h + [0], v)
    ensures Largest(h, v)
  {
    var hs := h + [0];
    forall a, b | 0 <= a < b <= |h| ensures Area(h, a, b) <= v {
      MinInPrefix(h, [0], a, b);
      assert Area(hs, a, b) <= v;
    }
    if v != 0 {
      var a, b :| 0 <= a < b <= |hs| && Area(hs, a, b) == v;
      MinInBounds(hs, a, b);
      assert hs[|h|] == 0;
      assert forall k :: 0 <= k < |hs| ==> 0 <= hs[k];
      assert b <= |h|;
      MinInPrefix(h, [0], a, b);
      assert Area(h, a, b) == v;
    }
  }

  /** After the sentinel every bar left on the stack is 0, so every bar has been stretched. */
  lemma {:induction false} OnePassDone(heights: seq<int>, hs: seq<int>, s: seq<int>, v: int)
    requires forall k :: 0 <= k < |heights| ==> 0 <= heights[k]
    requires hs == heights + [0]
    requires StackShape(hs, s, |hs|) && Top(s) == |hs| - 1
    requires Sound(hs, v) && Complete(hs, s, |hs|, v)
    ensures Largest(heights, v)
  {
    StretchedBelow(hs, s, v);
    LargestIsBestSpan(hs);
    LargestSentinel(heights, v);
  }

  /** Every bar of hs stretched is at most v, and v is a rectangle or 0: v is BestSpan. */
  lemma {:induction false} StretchedBelow(hs: seq<int>, s: seq<int>, v: int)
    requires forall k :: 0 <= k < |hs| ==> 0 <= hs[k]
    requires |hs| > 0 && hs[|hs| - 1] == 0
    requires StackShape(hs, s, |hs|) && Top(s) == |hs| - 1
    requires Sound(hs, v) && Complete(hs, s, |hs|, v)
    ensures BestSpan(hs, |hs|) == v
  {
    BestSpanBounds(hs, |hs|);
    forall j | 0 <= j < |hs| ensures hs[j] * Width(hs, j) <= v {
      if j in s {
        var k :| 0 <= k < |s| && s[k] == j;
        assert hs[s[k]] <= hs[s[|s| - 1]];
        assert hs[j] == 0;
      }
    }
    if v != 0 {
      var a, b :| 0 <= a < b <= |hs| && Area(hs, a, b) == v;
      AreaBelowBestSpan(hs, a, b);
    }
  }

  /** largestRectangleArea_method2. */
  method OnePass(heights: seq<int>) returns (maxArea: int)
    requires forall k :: 0 <= k < |heights| ==> 0 <= heights[k]
    ensures Largest(heights, maxArea)
  {
    var stack: seq<int> := [];
    maxArea := 0;
    var hs := heights + [0];
    for i := 0 to |hs|
      invariant StackShape(hs, stack, i) && Top(stack) == i - 1
      invariant Sound(hs, maxArea) && Complete(hs, stack, i, maxArea)
    {
      stack, maxArea := PopHigher(hs, stack, i, maxArea);
      stack := stack + [i];
    }
    OnePassDone(heights, hs, stack, maxArea);
  }

  // ---------------------------------------------------------------------
  // largestRectangleArea: two passes sharing one stack

  /** Bar k of h1 stretched to the right up to the first lower bar: what the first pass records. */
  function RightRun(h1: seq<int>, k: int): int
    requires 0 <= k < |h1|
  {
    h1[k] * (ReachRight(h1, h1[k], k + 1) - k)
  }

  /** Bar p of h2 stretched to the left down to the first lower bar: what the second pass records. */
  function LeftRun(h2: seq<int>, p: int): int
    requires 0 <= p < |h2|
  {
    h2[p] * (p + 1 - Reach(h2, h2[p], p))
  }

  /** The first pass's while loop at bar i: pop and record every stacked bar higher than h1[i]. */
  method PopFirst(h1: seq<int>, n: int, s0: seq<int>, i: int, r0: seq<int>) returns (s: seq<int>, r1: seq<int>)
    requires |h1| == n + 1 && 0 <= i <= n && |r0| == n
    requires StackShape(h1, s0, i) && Top(s0) == i - 1
    requires forall k {:trigger r0[k]} :: 0 <= k < n ==>
      r0[k] == if k < i && k !in s0 then RightRun(h1, k) else 0
    ensures |r1| == n
    ensures StackShape(h1, s + [i], i + 1) && Top(s + [i]) == i
    ensures forall k {:trigger r1[k]} :: 0 <= k < n ==>
      r1[k] == if k < i + 1 && k !in s + [i] then RightRun(h1, k) else 0
  {
    s, r1 := s0, r0;
    while s != [] && h1[i] < h1[s[|s| - 1]]
      invariant |r1| == n
      invariant StackShape(h1, s, i)
      invariant forall j :: Top(s) < j < i ==> h1[i] < h1[j]
      invariant s != [] ==> forall j :: Top(s) < j < i ==> h1[Top(s)] <= h1[j]
      invariant forall k {:trigger r1[k]} :: 0 <= k < n ==>
        r1[k] == if k < i && k !in s then RightRun(h1, k) else 0
      decreases |s|
    {
      PopFacts(h1, s, i);
      StackPop(h1, s, i);
      ghost var s1, r := s, r1;
      var prevIdx := s[|s| - 1];
      s := s[..|s| - 1];
      var area := h1[prevIdx] * (i - prevIdx);
      r1 := r1[prevIdx := area];
      RecordPopped(h1, n, s1, i, r);
    }
    assert Higher(h1, Top(s), i);
    StackPush(h1, s, i);
    RecordPushed(h1, n, s, i, r1);
  }

  /** Recording the popped top keeps result1 in step with the stack. */
  lemma {:induction false} RecordPopped(h1: seq<int>, n: int, s: seq<int>, i: int, r: seq<int>)
    requires |h1| == n + 1 && 0 <= i <= n && |r| == n && s != []
    requires 0 <= Top(s) < i && ReachRight(h1, h1[Top(s)], Top(s) + 1) == i
    requires forall k :: 0 <= k < |s| - 1 ==> s[k] < Top(s)
    requires forall k {:trigger r[k]} :: 0 <= k < n ==>
      r[k] == if k < i && k !in s then RightRun(h1, k) else 0
    ensures var m := Top(s); var r' := r[m := h1[m] * (i - m)];
      forall k {:trigger r'[k]} :: 0 <= k < n ==>
        r'[k] == if k < i && k !in s[..|s| - 1] then RightRun(h1, k) else 0
  {
    var m := Top(s);
    var s' := s[..|s| - 1];
    assert s == s' + [m];
    var r' := r[m := h1[m] * (i - m)];
    forall k | 0 <= k < n ensures r'[k] == if k < i && k !in s' then RightRun(h1, k) else 0 {
      if k != m {
        assert (k in s') == (k in s);
      } else {
        assert m !in s';
      }
    }
  }

  lemma {:induction false} RecordPushed(h1: seq<int>, n: int, s: seq<int>, i: int, r: seq<int>)
    requires |h1| == n + 1 && |r| == n
    requires forall k {:trigger r[k]} :: 0 <= k < n ==>
      r[k] == if k < i && k !in s then RightRun(h1, k) else 0
    ensures forall k {:trigger r[k]} :: 0 <= k < n ==>
      r[k] == if k < i + 1 && k !in s + [i] then RightRun(h1, k) else 0
  {
    forall k | 0 <= k < n
      ensures r[k] == if k < i + 1 && k !in s + [i] then RightRun(h1, k) else 0
    {
      assert (k in s + [i]) == (k in s || k == i);
    }
  }

  /** What the first pass leaves on the stack: bars of height 0, then the sentinel n on top. */
  ghost predicate Leftover(heights: seq<int>, s: seq<int>) {
    && s != [] && Top(s) == |heights|
    && forall k :: 0 <= k < |s| - 1 ==> 0 <= s[k] < |heights| && heights[s[k]] == 0
  }

  /** The first loop of largestRectangleArea over heights + [0]. */
  method FirstPass(heights: seq<int>) returns (stack: seq<int>, result1: seq<int>)
    requires forall k :: 0 <= k < |heights| ==> 0 <= heights[k]
    ensures |result1| == |heights|
    ensures forall k :: 0 <= k < |heights| ==> result1[k] == RightRun(heights + [0], k)
    ensures Leftover(heights, stack)
  {
    var n := |heights|;
    stack := [];
    result1 := seq(n, _ => 0);
    var heights1 := heights + [0];
    for i := 0 to n + 1
      invariant |result1| == n
      invariant StackShape(heights1, stack, i) && Top(stack) == i - 1
      invariant forall k {:trigger result1[k]} :: 0 <= k < n ==>
        result1[k] == if k < i && k !in stack then RightRun(heights1, k) else 0
    {
      stack, result1 := PopFirst(heights1, n, stack, i, result1);
      stack := stack + [i];
    }
    forall k | 0 <= k < |stack| - 1 ensures 0 <= stack[k] < n && heights[stack[k]] == 0 {
      assert heights1[stack[k]] <= heights1[stack[|stack| - 1]];
    }
    forall k | 0 <= k < n ensures result1[k] == RightRun(heights1, k) {
      if k in stack {
        var q :| 0 <= q < |stack| && stack[q] == k;
        assert heights1[stack[q]] <= heights1[stack[|stack| - 1]];
      }
    }
  }

  /** The index on top of a stack growing downwards from top, or top itself when it is empty. */
  function TopDown(g: seq<int>, top: int): int {
    if g == [] then top else g[|g| - 1]
  }

  /** The index below g[k] on a stack growing downwards from top. */
  function Above(g: seq<int>, k: int, top: int): int
    requires 0 <= k < |g|
  {
    if k == 0 then top else g[k - 1]
  }

  /** Every bar strictly between m and b is higher than bar m. */
  ghost predicate HigherRight(hs: seq<int>, m: int, b: int)
    requires 0 <= m < |hs| && b <= |hs|
  {
    forall j :: m < j < b ==> hs[m] < hs[j]
  }

  /** The bars the second pass itself has stacked, scanning down to t + 1: decreasing indices,
      non-decreasing heights, every skipped bar higher than the stacked bar left of it. */
  ghost predicate DownShape(hs: seq<int>, g: seq<int>, t: int) {
    && -1 <= t
    && (forall k :: 0 <= k < |g| ==> t < g[k] < |hs|)
    && (forall k, l :: 0 <= k < l < |g| ==> g[l] < g[k] && hs[g[k]] <= hs[g[l]])
    && (forall k {:trigger Above(g, k, |hs|)} :: 0 <= k < |g| ==> HigherRight(hs, g[k], Above(g, k, |hs|)))
  }

  lemma {:induction false} DownPop(hs: seq<int>, g: seq<int>, t: int)
    requires DownShape(hs, g, t) && g != []
    ensures DownShape(hs, g[..|g| - 1], t)
  {
    var g' := g[..|g| - 1];
    forall k | 0 <= k < |g'| ensures HigherRight(hs, g'[k], Above(g', k, |hs|)) {
      assert Above(g', k, |hs|) == Above(g, k, |hs|);
    }
  }

  lemma {:induction false} DownPush(hs: seq<int>, g: seq<int>, t: int)
    requires DownShape(hs, g, t) && 0 <= t < |hs|
    requires g == [] || hs[TopDown(g, |hs|)] <= hs[t]
    requires HigherRight(hs, t, TopDown(g, |hs|))
    ensures DownShape(hs, g + [t], t - 1)
  {
    var g' := g + [t];
    forall k | 0 <= k < |g'| ensures t - 1 < g'[k] < |hs| {
      if k < |g| {
        assert g'[k] == g[k];
      }
    }
    forall k, l | 0 <= k < l < |g'| ensures g'[l] < g'[k] && hs[g'[k]] <= hs[g'[l]] {
      assert g'[k] == g[k];
      if l < |g| {
        assert g'[l] == g[l];
      } else if k < |g| - 1 {
        assert hs[g[k]] <= hs[g[|g| - 1]];
      }
    }
    forall k | 0 <= k < |g'| ensures HigherRight(hs, g'[k], Above(g', k, |hs|)) {
      if k < |g| {
        assert Above(g', k, |hs|) == Above(g, k, |hs|);
      } else {
        assert Above(g', k, |hs|) == TopDown(g, |hs|);
      }
    }
  }

  /** Popping the second pass's own top m at bar t: t is the first lower bar left of m. */
  lemma {:induction false} DownPopFacts(hs: seq<int>, g: seq<int>, t: int)
    requires DownShape(hs, g, t) && 0 <= t < |hs| && g != []
    requires forall j :: t < j < TopDown(g, |hs|) ==> hs[t] < hs[j]
    requires forall j :: t < j < TopDown(g, |hs|) ==> hs[TopDown(g, |hs|)] <= hs[j]
    requires hs[t] < hs[TopDown(g, |hs|)]
    ensures var m, b := TopDown(g, |hs|), TopDown(g[..|g| - 1], |hs|);
      && t < m < b <= |hs|
      && Reach(hs, hs[m], m) == t + 1
      && (forall j :: t < j < b ==> hs[t] < hs[j])
      && (g[..|g| - 1] != [] ==> forall j :: t < j < b ==> hs[b] <= hs[j])
  {
    DownTopPair(hs, g, t);
    DownPopRun(hs, TopDown(g[..|g| - 1], |hs|), TopDown(g, |hs|), t);
  }

  lemma {:induction false} DownTopPair(hs: seq<int>, g: seq<int>, t: int)
    requires DownShape(hs, g, t) && g != []
    ensures var m, b := TopDown(g, |hs|), TopDown(g[..|g| - 1], |hs|);
      && t < m < b <= |hs| && HigherRight(hs, m, b) && (b < |hs| ==> hs[b] <= hs[m])
  {
    var n := |g| - 1;
    assert TopDown(g[..n], |hs|) == Above(g, n, |hs|);
  }

  lemma {:induction false} DownPopRun(hs: seq<int>, b: int, m: int, t: int)
    requires 0 <= t < m < b <= |hs|
    requires HigherRight(hs, m, b) && (b < |hs| ==> hs[b] <= hs[m])
    requires forall j :: t < j < m ==> hs[t] < hs[j]
    requires forall j :: t < j < m ==> hs[m] <= hs[j]
    requires hs[t] < hs[m]
    ensures Reach(hs, hs[m], m) == t + 1
    ensures forall j :: t < j < b ==> hs[t] < hs[j]
    ensures b < |hs| ==> forall j :: t < j < b ==> hs[b] <= hs[j]
  {
    ReachIs(hs, hs[m], m, t + 1);
  }

  /** [0] + heights for non-negative heights: the list the second pass scans. */
  ghost predicate PaddedLeft(h2: seq<int>) {
    && 1 <= |h2| && h2[0] == 0
    && forall k :: 0 <= k < |h2| ==> 0 <= h2[k]
  }

  /** What the first pass left below (lo): bars of height 0 and at most one sentinel n, on top;
      a leftover bar of height 0 is stacked by this pass once the scan passes the bar right of it. */
  ghost predicate Leftovers(h2: seq<int>, t: int, lo: seq<int>, g: seq<int>) {
    var n := |h2| - 1;
    && (forall k :: 0 <= k < |lo| ==> 0 <= lo[k] <= n && (lo[k] < n ==> h2[lo[k] + 1] == 0))
    && (forall k :: 0 <= k < |lo| - 1 ==> lo[k] < n)
    && (forall k :: 0 <= k < |lo| && lo[k] < n && lo[k] + 1 > t ==> lo[k] + 1 in g)
  }

  /** result2 scanning down to t + 1: bars of height 0 record 0, and every bar right of t whose
      entry is popped again records itself stretched to the left. */
  ghost predicate Recorded(h2: seq<int>, t: int, g: seq<int>, r2: seq<int>) {
    var n := |h2| - 1;
    && |r2| == n
    && (forall k {:trigger r2[k]} :: 0 <= k < n && h2[k + 1] == 0 ==> r2[k] == 0)
    && (forall k {:trigger r2[k]} :: 0 <= k < n && k + 1 > t && k + 1 !in g ==> r2[k] == LeftRun(h2, k + 1))
  }

  /** The state of the second pass before bar t: bars t+1..n are stacked (g) above what the
      first pass left (lo), and result2 holds every bar whose own entry has been popped. */
  ghost predicate SecondState(h2: seq<int>, t: int, s: seq<int>, lo: seq<int>, g: seq<int>, r2: seq<int>) {
    var n := |h2| - 1;
    && -1 <= t <= n && s == lo + g
    && DownShape(h2, g, t)
    && ((t == n && g == []) || (g != [] && g[|g| - 1] == t + 1))
    && Leftovers(h2, t, lo, g)
    && SentinelState(h2, t, lo, g)
    && Recorded(h2, t, g, r2)
  }

  /** While the sentinel n left by the first pass is on top of the leftovers, this pass holds
      its own entry for n, unless the scan has not started. */
  ghost predicate SentinelState(h2: seq<int>, t: int, lo: seq<int>, g: seq<int>) {
    var n := |h2| - 1;
    lo != [] && Top(lo) == n ==> (g != [] && g[0] == n) || (g == [] && t == n)
  }

  /** Every bar from i + 1 up to the top of g is higher than bar i, and at least as high as that top. */
  ghost predicate LowerLeft(h2: seq<int>, i: int, g: seq<int>)
    requires 0 <= i < |h2| && (g != [] ==> 0 <= Top(g) < |h2|)
  {
    && (forall j :: i < j < TopDown(g, |h2|) ==> h2[i] < h2[j])
    && (g != [] ==> forall j :: i < j < TopDown(g, |h2|) ==> h2[TopDown(g, |h2|)] <= h2[j])
  }

  /** While the sentinel n left by the first pass is on top of the leftovers, this pass either
      still holds its own entry for n, or has just popped it at bar i. */
  ghost predicate SentinelLoop(h2: seq<int>, i: int, lo: seq<int>, g: seq<int>)
    requires 0 <= i < |h2|
  {
    var n := |h2| - 1;
    lo != [] && Top(lo) == n ==>
      (g != [] && g[0] == n) ||
      (g == [] && (i == n || (h2[i] < h2[n] && forall j :: i < j < n ==> h2[n] <= h2[j])))
  }

  /** The second pass inside its while loop at bar i. */
  ghost predicate SecondLoop(h2: seq<int>, i: int, s: seq<int>, lo: seq<int>, g: seq<int>, r2: seq<int>) {
    && 0 <= i < |h2| && s == lo + g
    && DownShape(h2, g, i)
    && LowerLeft(h2, i, g)
    && Leftovers(h2, i, lo, g)
    && SentinelLoop(h2, i, lo, g)
    && Recorded(h2, i, g, r2)
  }

  lemma {:induction false} LoopFrom(h2: seq<int>, i: int, s: seq<int>, lo: seq<int>, g: seq<int>, r2: seq<int>)
    requires 0 <= i < |h2| && s == lo + g
    requires DownShape(h2, g, i) && LowerLeft(h2, i, g)
    requires Leftovers(h2, i, lo, g) && SentinelLoop(h2, i, lo, g) && Recorded(h2, i, g, r2)
    ensures SecondLoop(h2, i, s, lo, g, r2)
  {
  }

  /** SecondLoop, one conjunct at a time. */
  lemma {:induction false} LoopParts(h2: seq<int>, i: int, s: seq<int>, lo: seq<int>, g: seq<int>, r2: seq<int>)
    requires SecondLoop(h2, i, s, lo, g, r2)
    ensures 0 <= i < |h2| && s == lo + g
    ensures DownShape(h2, g, i)
    ensures LowerLeft(h2, i, g)
    ensures Leftovers(h2, i, lo, g)
    ensures SentinelLoop(h2, i, lo, g)
    ensures Recorded(h2, i, g, r2)
  {
  }

  lemma {:induction false} SecondEnter(h2: seq<int>, i: int, s: seq<int>, lo: seq<int>, g: seq<int>, r2: seq<int>)
    requires 0 <= i && SecondState(h2, i, s, lo, g, r2)
    ensures SecondLoop(h2, i, s, lo, g, r2)
  {
  }

  /** A bar higher than 0 is no leftover, so popping it keeps the leftovers stacked. */
  lemma {:induction false} LeftoversPopOwn(h2: seq<int>, i: int, lo: seq<int>, g: seq<int>)
    requires Leftovers(h2, i, lo, g) && g != [] && 0 <= Top(g) < |h2| && h2[Top(g)] != 0
    ensures Leftovers(h2, i, lo, g[..|g| - 1])
  {
    assert g == g[..|g| - 1] + [Top(g)];
  }

  /** Recording bar m stretched left down to the first lower bar i + 1. */
  lemma {:induction false} RecordedPop(h2: seq<int>, i: int, g: seq<int>, m: int, r2: seq<int>)
    requires Recorded(h2, i, g + [m], r2) && 0 <= i && 1 <= m < |h2| && h2[m] != 0
    requires m <= i || Reach(h2, h2[m], m) == i + 1
    ensures Recorded(h2, i, g, r2[m - 1 := h2[m] * (m - i)])
  {
    var r' := r2[m - 1 := h2[m] * (m - i)];
    forall k | 0 <= k < |h2| - 1 && k + 1 > i && k + 1 !in g ensures r'[k] == LeftRun(h2, k + 1) {
      if k + 1 != m {
        assert k + 1 !in g + [m];
      }
    }
  }

  /** A popped entry is higher than bar i, so it is not the padding bar 0. */
  lemma {:induction false} SecondTopPositive(h2: seq<int>, i: int, s: seq<int>, lo: seq<int>, g: seq<int>, r2: seq<int>)
    requires PaddedLeft(h2)
    requires SecondLoop(h2, i, s, lo, g, r2) && s != [] && 0 <= Top(s) < |h2| && h2[i] < h2[Top(s)]
    ensures 1 <= Top(s) < |h2|
  {
    assert 0 <= h2[i];
  }

  /** Popping the top of g off s == lo + g. */
  lemma {:induction false} SplitPop(s: seq<int>, lo: seq<int>, g: seq<int>)
    requires s == lo + g && g != []
    ensures Top(s) == Top(g) && s[..|s| - 1] == lo + g[..|g| - 1]
    ensures g == g[..|g| - 1] + [Top(g)]
  {
    assert g == g[..|g| - 1] + [Top(g)];
  }

  /** Popping this pass's own top m at bar i keeps its stack shaped; m reaches left to i + 1. */
  lemma {:induction false} StackPopOwn(h2: seq<int>, i: int, lo: seq<int>, g: seq<int>)
    requires 0 <= i && DownShape(h2, g, i) && g != [] && Top(g) < |h2|
    requires LowerLeft(h2, i, g) && SentinelLoop(h2, i, lo, g)
    requires h2[i] < h2[Top(g)]
    ensures var m := Top(g); i < m && Reach(h2, h2[m], m) == i + 1
    ensures DownShape(h2, g[..|g| - 1], i)
    ensures LowerLeft(h2, i, g[..|g| - 1]) && SentinelLoop(h2, i, lo, g[..|g| - 1])
  {
    DownPopFacts(h2, g, i);
    DownPop(h2, g, i);
  }

  /** Popping an entry left by the first pass, once this pass's own entries are gone: the
      sentinel n, just after this pass popped its own entry for n (the same value is written
      again), or a bar of height 0 at z whose bar z - 1 is left of i (the value written is
      overwritten later). */
  lemma {:induction false} SecondPopLeftover(h2: seq<int>, i: int, s: seq<int>, lo: seq<int>, g: seq<int>, r2: seq<int>,
                          s': seq<int>, lo': seq<int>, r': seq<int>)
    requires PaddedLeft(h2)
    requires 0 <= i < |h2| && s == lo + g && g == [] && s != []
    requires Leftovers(h2, i, lo, g) && SentinelLoop(h2, i, lo, g) && Recorded(h2, i, g, r2)
    requires h2[i] < h2[Top(s)]
    requires s' == s[..|s| - 1] && lo' == lo[..|lo| - 1]
    requires 1 <= Top(s) < |h2| && r' == r2[Top(s) - 1 := h2[Top(s)] * (Top(s) - i)]
    ensures s' == lo' + g
    ensures Leftovers(h2, i, lo', g) && SentinelLoop(h2, i, lo', g) && Recorded(h2, i, g, r')
  {
    assert lo == s;
    var n := |h2| - 1;
    var z := Top(lo);
    LeftoversPopLeftover(h2, i, lo);
    assert 0 <= h2[i] && h2[z] != 0;
    if z == n && i < n {
      ReachIs(h2, h2[n], n, i + 1);
    }
    RecordedPop(h2, i, [], z, r2);
  }

  /** Without entries of this pass, the leftover on top is left of i unless it is the sentinel. */
  lemma {:induction false} LeftoversPopLeftover(h2: seq<int>, i: int, lo: seq<int>)
    requires 0 <= i < |h2| && Leftovers(h2, i, lo, []) && lo != []
    ensures Top(lo) < |h2| - 1 ==> Top(lo) + 1 <= i
    ensures Leftovers(h2, i, lo[..|lo| - 1], []) && SentinelLoop(h2, i, lo[..|lo| - 1], [])
  {
    var lo' := lo[..|lo| - 1];
    assert forall k :: 0 <= k < |lo'| ==> lo'[k] == lo[k];
    assert Top(lo) + 1 !in [];
  }

  /** Pushing bar i once nothing higher is left on top of the stack. */
  lemma {:induction false} ExitStack(h2: seq<int>, i: int, s: seq<int>, lo: seq<int>, g: seq<int>)
    requires 0 <= i < |h2| && s == lo + g && DownShape(h2, g, i) && LowerLeft(h2, i, g)
    requires s != [] ==> 0 <= Top(s) < |h2|
    requires !(s != [] && h2[i] < h2[Top(s)])
    ensures s + [i] == lo + (g + [i]) && DownShape(h2, g + [i], i - 1)
  {
    if g != [] {
      SplitPop(s, lo, g);
    }
    DownPush(h2, g, i);
  }

  lemma {:induction false} ExitLeftovers(h2: seq<int>, i: int, lo: seq<int>, g: seq<int>)
    requires Leftovers(h2, i, lo, g)
    ensures Leftovers(h2, i - 1, lo, g + [i])
  {
    forall k | 0 <= k < |lo| && lo[k] < |h2| - 1 && lo[k] + 1 > i - 1 ensures lo[k] + 1 in g + [i] {
      if lo[k] + 1 > i {
        assert lo[k] + 1 in g;
      }
    }
  }

  /** If the sentinel of the first pass is still stacked when bar i is pushed, this pass holds
      its own entry for n. */
  lemma {:induction false} ExitSentinel(h2: seq<int>, i: int, s: seq<int>, lo: seq<int>, g: seq<int>)
    requires 0 <= i < |h2| && s == lo + g && SentinelLoop(h2, i, lo, g)
    requires s != [] ==> 0 <= Top(s) < |h2|
    requires !(s != [] && h2[i] < h2[Top(s)])
    ensures SentinelState(h2, i - 1, lo, g + [i])
  {
    if g == [] {
      assert s == lo;
    }
  }

  lemma {:induction false} ExitRecorded(h2: seq<int>, i: int, g: seq<int>, r2: seq<int>)
    requires Recorded(h2, i, g, r2)
    ensures Recorded(h2, i - 1, g + [i], r2)
  {
    forall k | 0 <= k < |h2| - 1 && k + 1 > i - 1 && k + 1 !in g + [i] ensures r2[k] == LeftRun(h2, k + 1) {
      assert k + 1 !in g;
    }
  }

  lemma {:induction false} StateFrom(h2: seq<int>, t: int, s: seq<int>, lo: seq<int>, g: seq<int>, r2: seq<int>)
    requires -1 <= t < |h2| && s == lo + g && DownShape(h2, g, t)
    requires (t == |h2| - 1 && g == []) || (g != [] && g[|g| - 1] == t + 1)
    requires Leftovers(h2, t, lo, g) && SentinelState(h2, t, lo, g) && Recorded(h2, t, g, r2)
    ensures SecondState(h2, t, s, lo, g, r2)
  {
  }

  /** One pop of this pass's own entry inside the while loop at bar i. */
  lemma {:induction false} PopOwnStep(h2: seq<int>, i: int, s: seq<int>, lo: seq<int>, g: seq<int>, r2: seq<int>)
    requires PaddedLeft(h2)
    requires SecondLoop(h2, i, s, lo, g, r2) && g != [] && s != []
    requires 1 <= Top(s) < |h2| && h2[i] < h2[Top(s)]
    ensures SecondLoop(h2, i, s[..|s| - 1], lo, g[..|g| - 1], r2[Top(s) - 1 := h2[Top(s)] * (Top(s) - i)])
  {
    var g' := g[..|g| - 1];
    assert s[..|s| - 1] == lo + g' && DownShape(h2, g', i) && LowerLeft(h2, i, g')
        && SentinelLoop(h2, i, lo, g') by {
      LoopParts(h2, i, s, lo, g, r2);
      SplitPop(s, lo, g);
      StackPopOwn(h2, i, lo, g);
    }
    PopOwnRecords(h2, i, s, lo, g, r2);
    LoopFrom(h2, i, s[..|s| - 1], lo, g', r2[Top(s) - 1 := h2[Top(s)] * (Top(s) - i)]);
  }

  /** Popping this pass's own top m keeps the leftovers and records m. */
  lemma {:induction false} PopOwnRecords(h2: seq<int>, i: int, s: seq<int>, lo: seq<int>, g: seq<int>, r2: seq<int>)
    requires PaddedLeft(h2)
    requires SecondLoop(h2, i, s, lo, g, r2) && g != [] && s != []
    requires 1 <= Top(s) < |h2| && h2[i] < h2[Top(s)]
    ensures Leftovers(h2, i, lo, g[..|g| - 1])
    ensures Recorded(h2, i, g[..|g| - 1], r2[Top(s) - 1 := h2[Top(s)] * (Top(s) - i)])
  {
    var m := Top(s);
    assert m == Top(g) && g == g[..|g| - 1] + [m] && h2[m] != 0 by {
      LoopParts(h2, i, s, lo, g, r2);
      SplitPop(s, lo, g);
      assert 0 <= h2[i];
    }
    assert m <= i || Reach(h2, h2[m], m) == i + 1 by {
      LoopParts(h2, i, s, lo, g, r2);
      StackPopOwn(h2, i, lo, g);
    }
    assert Leftovers(h2, i, lo, g[..|g| - 1]) by {
      LoopParts(h2, i, s, lo, g, r2);
      LeftoversPopOwn(h2, i, lo, g);
    }
    assert Recorded(h2, i, g, r2) by {
      LoopParts(h2, i, s, lo, g, r2);
    }
    RecordedPop(h2, i, g[..|g| - 1], m, r2);
  }

  /** One pop of an entry the first pass left, once this pass's own entries are gone. */
  lemma {:induction false} PopLeftoverStep(h2: seq<int>, i: int, s: seq<int>, lo: seq<int>, r2: seq<int>)
    requires PaddedLeft(h2)
    requires SecondLoop(h2, i, s, lo, [], r2) && s != []
    requires 1 <= Top(s) < |h2| && h2[i] < h2[Top(s)]
    ensures SecondLoop(h2, i, s[..|s| - 1], lo[..|lo| - 1], [], r2[Top(s) - 1 := h2[Top(s)] * (Top(s) - i)])
  {
    var r' := r2[Top(s) - 1 := h2[Top(s)] * (Top(s) - i)];
    LoopParts(h2, i, s, lo, [], r2);
    SecondPopLeftover(h2, i, s, lo, [], r2, s[..|s| - 1], lo[..|lo| - 1], r');
    LoopFrom(h2, i, s[..|s| - 1], lo[..|lo| - 1], [], r');
  }

  /** One pass of the second pass's while loop body at bar i: pop the top entry and record it
      stretched left down to bar i + 1. */
  method PopOne(h2: seq<int>, i: int, s0: seq<int>, r0: seq<int>, ghost lo0: seq<int>, ghost g0: seq<int>)
    returns (s: seq<int>, r2: seq<int>, ghost lo: seq<int>, ghost g: seq<int>)
    requires PaddedLeft(h2)
    requires SecondLoop(h2, i, s0, lo0, g0, r0) && s0 != [] && 0 <= Top(s0) < |h2| && h2[i] < h2[Top(s0)]
    ensures SecondLoop(h2, i, s, lo, g, r2) && |s| < |s0|
  {
    var prevIdx := s0[|s0| - 1];
    s := s0[..|s0| - 1];
    SecondTopPositive(h2, i, s0, lo0, g0, r0);
    var area := h2[prevIdx] * (prevIdx - i);
    r2 := r0[prevIdx - 1 := area];
    if g0 != [] {
      PopOwnStep(h2, i, s0, lo0, g0, r0);
      lo, g := lo0, g0[..|g0| - 1];
    } else {
      PopLeftoverStep(h2, i, s0, lo0, r0);
      lo, g := lo0[..|lo0| - 1], g0;
    }
  }

  /** The second pass's while loop at bar i. The stack still holds what the first pass left
      below the entries of this pass; those leftovers are popped only once this pass's own
      entries are gone. */
  method PopSecond(h2: seq<int>, i: int, s0: seq<int>, r0: seq<int>, ghost lo0: seq<int>, ghost g0: seq<int>)
    returns (s: seq<int>, r2: seq<int>, ghost lo: seq<int>, ghost g: seq<int>)
    requires PaddedLeft(h2)
    requires 0 <= i && SecondState(h2, i, s0, lo0, g0, r0)
    ensures SecondState(h2, i - 1, s + [i], lo, g + [i], r2)
  {
    s, r2, lo, g := s0, r0, lo0, g0;
    SecondEnter(h2, i, s, lo, g, r2);
    while s != [] && h2[i] < h2[s[|s| - 1]]
      invariant SecondLoop(h2, i, s, lo, g, r2)
      decreases |s|
    {
      s, r2, lo, g := PopOne(h2, i, s, r2, lo, g);
    }
    LoopParts(h2, i, s, lo, g, r2);
    ExitStack(h2, i, s, lo, g);
    ExitLeftovers(h2, i, lo, g);
    ExitSentinel(h2, i, s, lo, g);
    ExitRecorded(h2, i, g, r2);
    StateFrom(h2, i - 1, s + [i], lo, g + [i], r2);
  }

  /** The second loop of largestRectangleArea over [0] + heights, from right to left, starting
      from the stack the first loop left. */
  method SecondPass(heights: seq<int>, stack0: seq<int>) returns (result2: seq<int>)
    requires forall k :: 0 <= k < |heights| ==> 0 <= heights[k]
    requires Leftover(heights, stack0)
    ensures |result2| == |heights|
    ensures forall k :: 0 <= k < |heights| ==> result2[k] == LeftRun([0] + heights, k + 1)
  {
    var n := |heights|;
    result2 := seq(n, _ => 0);
    var heights2 := [0] + heights;
    assert PaddedLeft(heights2);
    var stack := stack0;
    ghost var lo, g := stack0, [];
    assert stack == lo + g;
    for i := n + 1 downto 0
      invariant SecondState(heights2, i - 1, stack, lo, g, result2)
    {
      stack, result2, lo, g := PopSecond(heights2, i, stack, result2, lo, g);
      stack := stack + [i];
      g := g + [i];
    }
    SecondDone(heights2, stack, lo, g, result2);
  }

  /** Once bar 0 is pushed, every bar of g above the padding bar 0 would have popped it, so
      none is left and every bar has been recorded. */
  lemma {:induction false} SecondDone(h2: seq<int>, s: seq<int>, lo: seq<int>, g: seq<int>, r2: seq<int>)
    requires PaddedLeft(h2) && SecondState(h2, -1, s, lo, g, r2)
    ensures |r2| == |h2| - 1
    ensures forall k :: 0 <= k < |h2| - 1 ==> r2[k] == LeftRun(h2, k + 1)
  {
    forall k | 0 <= k < |h2| - 1 ensures r2[k] == LeftRun(h2, k + 1) {
      if k + 1 in g {
        var q :| 0 <= q < |g| && g[q] == k + 1;
        assert h2[g[q]] <= h2[g[|g| - 1]];
      }
    }
  }

  /** Python's max over a non-empty list. */
  function MaxOf(s: seq<int>): (m: int)
    requires |s| > 0
    ensures forall k :: 0 <= k < |s| ==> s[k] <= m
    ensures exists k :: 0 <= k < |s| && m == s[k]
  {
    if |s| == 1 then s[0]
    else
      var m := MaxOf(s[..|s| - 1]);
      assert forall k :: 0 <= k < |s| - 1 ==> s[..|s| - 1][k] == s[k];
      Max(m, s[|s| - 1])
  }

  lemma {:induction false} Distribute(x: int, a: int, b: int)
    ensures x * a + x * b == x * (a + b)
  {
  }

  /** result1[k] + result2[k] - heights[k] is bar k stretched over its whole span. */
  lemma {:induction false} TwoPassTerm(heights: seq<int>, k: int)
    requires forall j :: 0 <= j < |heights| ==> 0 <= heights[j]
    requires 0 <= k < |heights|
    ensures RightRun(heights + [0], k) + LeftRun([0] + heights, k + 1) - heights[k] == heights[k] * Width(heights, k)
  {
    var h1, h2, x := heights + [0], [0] + heights, heights[k];
    var n := |heights|;
    if x > 0 {
      var r, l := ReachRight(heights, x, k + 1), Reach(heights, x, k);
      ReachRightAbove(heights, x, k + 1);
      ReachAbove(heights, x, k);
      ReachRightIs(h1, x, k + 1, r);
      ReachIs(h2, x, k + 1, l + 1);
      Distribute(x, r - k, k + 1 - l);
      assert RightRun(h1, k) == x * (r - k);
      assert LeftRun(h2, k + 1) == x * (k + 1 - l);
      assert x * (r - k) + x * (k + 1 - l) == x * (r - l + 1);
      Distribute(x, r - l, 1);
    }
  }

  /** Every stretched bar is at least 0 when no bar is negative. */
  lemma {:induction false} StretchedNonNegative(heights: seq<int>, k: int)
    requires forall j :: 0 <= j < |heights| ==> 0 <= heights[j]
    requires 0 <= k < |heights|
    ensures 0 <= heights[k] * Width(heights, k)
  {
    MulMono(heights[k], 0, Width(heights, k));
  }

  /** The largest stretched bar is the best span. */
  lemma {:induction false} MaxOfStretched(heights: seq<int>, result: seq<int>)
    requires forall j :: 0 <= j < |heights| ==> 0 <= heights[j]
    requires |result| == |heights| > 0
    requires forall k :: 0 <= k < |heights| ==> result[k] == heights[k] * Width(heights, k)
    ensures MaxOf(result) == BestSpan(heights, |heights|)
  {
    BestSpanBounds(heights, |heights|);
    StretchedNonNegative(heights, 0);
  }

  /** largestRectangleArea. */
  method TwoPass(heights: seq<int>) returns (maxArea: int)
    requires |heights| > 0
    requires forall k :: 0 <= k < |heights| ==> 0 <= heights[k]
    ensures Largest(heights, maxArea)
  {
    var stack, result1 := FirstPass(heights);
    var result2 := SecondPass(heights, stack);
    var result := seq(|heights|, k requires 0 <= k < |heights| => result1[k] + result2[k] - heights[k]);
    forall k | 0 <= k < |heights| ensures result[k] == heights[k] * Width(heights, k) {
      TwoPassTerm(heights, k);
    }
    maxArea := MaxOf(result);
    MaxOfStretched(heights, result);
    LargestIsBestSpan(heights);
  }
}

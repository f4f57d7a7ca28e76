// Construct Target Array With Multiple Sums: start from n ones; a step sets
// one element to the sum of all of them. Can target be reached? The three
// solutions run the steps backwards from target with a max-heap: the largest
// element is the one set last, and before that step it was its value less
// the sum of the rest. Repeated undoing of the same element is taken in one
// go with a remainder.

module ConstructTarget {
  import opened Common
  import opened Sorting
  import RepeatedSubstring

  // ---------------------------------------------------------------------
  // Specification: the arrays the steps can build
  // ---------------------------------------------------------------------

  /** n ones, the starting array. */
  function Ones(n: nat): (r: seq<int>)
    ensures |r| == n && forall k :: 0 <= k < n ==> r[k] == 1
  {
    seq(n, _ => 1)
  }

  predicate Positive(a: seq<int>) {
    forall k :: 0 <= k < |a| ==> a[k] >= 1
  }

  /** Every step names a position of an array of length n. */
  predicate ValidOps(ops: seq<nat>, n: nat) {
    forall k :: 0 <= k < |ops| ==> ops[k] < n
  }

  /** The array after setting, in turn, each position in ops to the sum of the array. */
  function Build(n: nat, ops: seq<nat>): (r: seq<int>)
    requires ValidOps(ops, n)
    ensures |r| == n
  {
    if ops == [] then Ones(n)
    else
      var a := Build(n, ops[..|ops| - 1]);
      a[ops[|ops| - 1] := Sum(a)]
  }

  /** The steps ops build t from ones. */
  predicate BuiltBy(t: seq<int>, ops: seq<nat>) {
    ValidOps(ops, |t|) && Build(|t|, ops) == t
  }

  /** Some sequence of steps builds t from ones. */
  ghost predicate Constructible(t: seq<int>) {
    exists ops: seq<nat> :: BuiltBy(t, ops)
  }

  /** t[i] is more than the sum of all the other elements. */
  predicate Peak(t: seq<int>, i: int)
    requires 0 <= i < |t|
  {
    2 * t[i] > Sum(t)
  }

  // ---------------------------------------------------------------------
  // Sums
  // ---------------------------------------------------------------------

  lemma SumUpdate(a: seq<int>, i: int, v: int)
    requires 0 <= i < |a|
    ensures Sum(a[i := v]) == Sum(a) - a[i] + v
  {
    var b := a[i := v];
    assert a == a[..i] + ([a[i]] + a[i + 1..]);
    assert b == a[..i] + ([v] + a[i + 1..]);
    SumAppend(a[..i], [a[i]] + a[i + 1..]);
    SumAppend(a[..i], [v] + a[i + 1..]);
    SumAppend([a[i]], a[i + 1..]);
    SumAppend([v], a[i + 1..]);
    assert Sum([a[i]]) == a[i] && Sum([v]) == v;
  }

  lemma {:induction false} SumNonNegative(a: seq<int>)
    requires forall k :: 0 <= k < |a| ==> a[k] >= 0
    ensures Sum(a) >= 0
  {
    if a != [] {
      SumNonNegative(a[1..]);
    }
  }

  lemma {:induction false} SumAtLeastLength(a: seq<int>)
    requires Positive(a)
    ensures Sum(a) >= |a|
  {
    if a != [] {
      SumAtLeastLength(a[1..]);
    }
  }

  /** The elements other than t[i] of a positive array add up to at least their number. */
  lemma RestAtLeast(t: seq<int>, i: int)
    requires Positive(t) && 0 <= i < |t|
    ensures Sum(t) - t[i] >= |t| - 1
  {
    SumUpdate(t, i, 1);
    SumAtLeastLength(t[i := 1]);
  }

  /** Two elements of a positive array add up to at most its sum. */
  lemma PairBelowSum(a: seq<int>, i: int, j: int)
    requires Positive(a) && 0 <= i < |a| && 0 <= j < |a| && i != j
    ensures a[i] + a[j] <= Sum(a)
  {
    var b := a[i := 0][j := 0];
    SumUpdate(a, i, 0);
    SumUpdate(a[i := 0], j, 0);
    SumNonNegative(b);
  }

  /** A positive array has at most one peak. */
  lemma OnlyPeak(t: seq<int>, i: int, j: int)
    requires Positive(t) && 0 <= i < |t| && 0 <= j < |t| && Peak(t, i) && Peak(t, j)
    ensures i == j
  {
    if i != j {
      PairBelowSum(t, i, j);
    }
  }

  // ---------------------------------------------------------------------
  // Forward and backward steps
  // ---------------------------------------------------------------------

  lemma {:induction false} BuildPositive(n: nat, ops: seq<nat>)
    requires ValidOps(ops, n)
    ensures Positive(Build(n, ops))
  {
    if ops != [] {
      var a := Build(n, ops[..|ops| - 1]);
      BuildPositive(n, ops[..|ops| - 1]);
      SumAtLeastLength(a);
    }
  }

  /** A step from a built array gives a built array. */
  lemma Grow(t: seq<int>, i: int, ops: seq<nat>) returns (ops': seq<nat>)
    requires BuiltBy(t, ops) && 0 <= i < |t|
    ensures BuiltBy(t[i := Sum(t)], ops')
  {
    ops' := ops + [i as nat];
    assert ops'[..|ops'| - 1] == ops;
  }

  /**
   * The last of a nonempty sequence of steps made its element a peak, and
   * that element was its value less the sum of the others before the step.
   */
  lemma LastStep(n: nat, ops: seq<nat>) returns (j: nat)
    requires ValidOps(ops, n) && ops != []
    ensures j < n && Peak(Build(n, ops), j)
    ensures Build(n, ops[..|ops| - 1])
      == Build(n, ops)[j := 2 * Build(n, ops)[j] - Sum(Build(n, ops))]
  {
    var t, a := Build(n, ops), Build(n, ops[..|ops| - 1]);
    j := ops[|ops| - 1];
    BuildPositive(n, ops[..|ops| - 1]);
    SumUpdate(a, j, Sum(a));
    assert t[j := a[j]] == a;
  }

  /** A built array other than all ones has a peak, set by the last step. */
  lemma PeakOf(t: seq<int>, all: seq<nat>) returns (j: nat, ops: seq<nat>)
    requires BuiltBy(t, all) && t != Ones(|t|)
    ensures j < |t| && Peak(t, j)
    ensures BuiltBy(t[j := 2 * t[j] - Sum(t)], ops)
  {
    j := LastStep(|t|, all);
    ops := all[..|all| - 1];
  }

  /** An array with an element of 2 or more and no peak cannot be built. */
  lemma NoPeak(t: seq<int>, i: int)
    requires 0 <= i < |t| && t[i] >= 2
    requires forall k :: 0 <= k < |t| ==> 2 * t[k] <= Sum(t)
    ensures !Constructible(t)
  {
    if Constructible(t) {
      var all :| BuiltBy(t, all);
      assert t[i] != Ones(|t|)[i];
      var j, ops := PeakOf(t, all);
    }
  }

  /** Undoing the last step: a peak of 2 or more was set from its value less the sum of the others. */
  lemma Shrink(u: seq<int>, i: int, all: seq<nat>) returns (ops: seq<nat>)
    requires BuiltBy(u, all) && Positive(u) && 0 <= i < |u| && Peak(u, i) && u[i] >= 2
    ensures BuiltBy(u[i := 2 * u[i] - Sum(u)], ops)
  {
    assert u[i] != Ones(|u|)[i];
    var j;
    j, ops := PeakOf(u, all);
    OnlyPeak(u, i, j);
  }

  lemma Witness(t: seq<int>, ops: seq<nat>)
    requires BuiltBy(t, ops)
    ensures Constructible(t)
  {
  }

  /** With r the sum of the others and w >= 1, t with w + r at i is constructible exactly when t with w at i is. */
  lemma OneStep(t: seq<int>, i: int, w: int)
    requires Positive(t) && 0 <= i < |t| && w >= 1
    ensures Constructible(t[i := w + (Sum(t) - t[i])]) == Constructible(t[i := w])
  {
    var s, u := t[i := w], t[i := w + (Sum(t) - t[i])];
    if Constructible(s) {
      var ops :| BuiltBy(s, ops);
      var up := StepUp(t, i, w, ops);
      Witness(u, up);
    }
    if Constructible(u) {
      var ops :| BuiltBy(u, ops);
      var down := StepDown(t, i, w, ops);
      Witness(s, down);
    }
  }

  lemma StepUp(t: seq<int>, i: int, w: int, ops: seq<nat>) returns (up: seq<nat>)
    requires 0 <= i < |t| && BuiltBy(t[i := w], ops)
    ensures BuiltBy(t[i := w + (Sum(t) - t[i])], up)
  {
    var s := t[i := w];
    SumUpdate(t, i, w);
    assert s[i := Sum(s)] == t[i := w + (Sum(t) - t[i])];
    up := Grow(s, i, ops);
  }

  lemma StepDown(t: seq<int>, i: int, w: int, ops: seq<nat>) returns (down: seq<nat>)
    requires Positive(t) && 0 <= i < |t| && w >= 1
    requires BuiltBy(t[i := w + (Sum(t) - t[i])], ops)
    ensures BuiltBy(t[i := w], down)
  {
    var r := Sum(t) - t[i];
    var u := t[i := w + r];
    RestAtLeast(t, i);
    if r == 0 {
      assert u == t[i := w];
      down := ops;
    } else {
      Raised(t, i, w);
      down := Shrink(u, i, ops);
    }
  }

  /** t with w + r at i, r >= 1 the sum of the others, has its peak there, and undoing it gives w back. */
  lemma Raised(t: seq<int>, i: int, w: int)
    requires Positive(t) && 0 <= i < |t| && w >= 1 && Sum(t) - t[i] >= 1
    ensures var u := t[i := w + (Sum(t) - t[i])];
      Positive(u) && Peak(u, i) && u[i] >= 2 && u[i := 2 * u[i] - Sum(u)] == t[i := w]
  {
    var r := Sum(t) - t[i];
    var u := t[i := w + r];
    SumUpdate(t, i, w + r);
    assert 2 * u[i] - Sum(u) == w;
  }

  /** With r the sum of the others, t with v + q * r at i is constructible exactly when t with v at i is. */
  lemma {:induction false} Repeat(t: seq<int>, i: int, v: int, q: nat)
    requires Positive(t) && 0 <= i < |t| && v >= 1
    ensures Constructible(t[i := v + q * (Sum(t) - t[i])]) == Constructible(t[i := v])
  {
    if q > 0 {
      var r := Sum(t) - t[i];
      var w := v + (q - 1) * r;
      assert v + q * r == w + r;
      Repeat(t, i, v, q - 1);
      RestAtLeast(t, i);
      OneStep(t, i, w);
    }
  }

  // ---------------------------------------------------------------------
  // What each test of the loop concludes, with m the heap's maximum at i
  // and r the sum of the rest
  // ---------------------------------------------------------------------

  /** t[i] is a largest element of t. */
  predicate IsMax(t: seq<int>, i: int) {
    0 <= i < |t| && forall k :: 0 <= k < |t| ==> t[k] <= t[i]
  }

  /** The maximum is 1: the array is all ones, the starting array. */
  lemma MaxOne(t: seq<int>, i: int)
    requires Positive(t) && IsMax(t, i) && t[i] == 1
    ensures Constructible(t)
  {
    assert t == Ones(|t|);
    assert BuiltBy(t, []);
  }

  /** The rest sums to 1: the rest is a single 1 and the maximum is reached from it by steps on itself. */
  lemma RestOne(t: seq<int>, i: int)
    requires Positive(t) && IsMax(t, i) && Sum(t) - t[i] == 1
    ensures Constructible(t)
  {
    var q := t[i] - 1;
    forall k | 0 <= k < |t| && k != i
      ensures t[k] == 1
    {
      PairBelowSum(t, i, k);
    }
    assert t[i := 1] == Ones(|t|);
    MaxOne(t[i := 1], i);
    Repeat(t, i, 1, q);
    assert t[i := 1 + q * 1] == t;
  }

  /** The maximum is 2 or more and not above the rest: no step could have set it. */
  lemma MaxNotAbove(t: seq<int>, i: int)
    requires IsMax(t, i) && t[i] >= 2 && t[i] <= Sum(t) - t[i]
    ensures !Constructible(t)
  {
    NoPeak(t, i);
  }

  /** The maximum is a multiple of a rest of 2 or more: undoing reaches the rest itself, which no step could have set. */
  lemma MaxMultiple(t: seq<int>, i: int)
    requires Positive(t) && IsMax(t, i)
    requires var r := Sum(t) - t[i]; r >= 2 && t[i] > r && t[i] % r == 0
    ensures Constructible(t[i := Sum(t) - t[i]]) == Constructible(t)
    ensures !Constructible(t)
  {
    var r := Sum(t) - t[i];
    var q := t[i] / r - 1;
    assert t[i] == r + q * r;
    Repeat(t, i, r, q);
    assert t[i := r + q * r] == t;
    var u := t[i := r];
    SumUpdate(t, i, r);
    forall k | 0 <= k < |u|
      ensures 2 * u[k] <= Sum(u)
    {
      if k != i {
        PairBelowSum(t, i, k);
      }
    }
    NoPeak(u, i);
  }

  /** Otherwise undoing the steps on the maximum leaves m % r there, and constructibility is unchanged. */
  lemma MaxRemainder(t: seq<int>, i: int)
    requires Positive(t) && 0 <= i < |t|
    requires var r := Sum(t) - t[i]; r >= 1 && t[i] > r && t[i] % r != 0
    ensures var r := Sum(t) - t[i];
      Positive(t[i := t[i] % r]) && Sum(t[i := t[i] % r]) == r + t[i] % r
      && Constructible(t[i := t[i] % r]) == Constructible(t)
  {
    var r := Sum(t) - t[i];
    var v, q := t[i] % r, t[i] / r;
    assert t[i] == v + q * r;
    Repeat(t, i, v, q);
    assert t[i := v + q * r] == t;
    SumUpdate(t, i, v);
  }

  /** A single element can only ever be 1. */
  lemma SingleElement(x: int)
    ensures Constructible([x]) <==> x == 1
  {
    if x == 1 {
      assert BuiltBy([x], []);
    }
    if Constructible([x]) {
      var ops :| BuiltBy([x], ops);
      SingleBuild(ops);
      assert [x][0] == [1][0];
    }
  }

  lemma {:induction false} SingleBuild(ops: seq<nat>)
    requires ValidOps(ops, 1)
    ensures Build(1, ops) == [1]
  {
    if ops != [] {
      SingleBuild(ops[..|ops| - 1]);
      assert Sum([1]) == 1 + Sum([1][1..]);
    }
  }

  // ---------------------------------------------------------------------
  // Common divisors
  // ---------------------------------------------------------------------

  predicate DividesAll(g: int, t: seq<int>)
    requires g > 0
  {
    forall k :: 0 <= k < |t| ==> t[k] % g == 0
  }

  /** functools.reduce(math.gcd, s) on positive numbers. */
  function GcdAll(s: seq<int>): (g: int)
    requires |s| >= 1 && Positive(s)
    ensures g >= 1 && DividesAll(g, s)
  {
    if |s| == 1 then s[0]
    else
      var h := GcdAll(s[..|s| - 1]);
      var g := RepeatedSubstring.Gcd(h, s[|s| - 1]);
      assert forall k :: 0 <= k < |s| - 1 ==> s[k] % g == 0 by {
        forall k | 0 <= k < |s| - 1
          ensures s[k] % g == 0
        {
          assert s[..|s| - 1][k] == s[k];
          DividesMultiple(g, h, s[k]);
        }
      }
      g
  }

  /** g divides every multiple of a multiple of g. */
  lemma DividesMultiple(g: int, h: int, x: int)
    requires g > 0 && h > 0 && h % g == 0 && x % h == 0
    ensures x % g == 0
  {
    var a, b := h / g, x / h;
    assert h == g * a;
    assert x == h * b;
    assert x == g * (a * b);
    RepeatedSubstring.DivMod(x, g, a * b, 0);
  }

  lemma {:induction false} SumDivisible(g: int, t: seq<int>)
    requires g > 0 && DividesAll(g, t)
    ensures Sum(t) % g == 0
  {
    if t != [] {
      SumDivisible(g, t[1..]);
      RepeatedSubstring.DividesSum(g, t[0], Sum(t[1..]));
    }
  }

  lemma DividesDifference(g: int, x: int, y: int)
    requires g > 0 && x % g == 0 && y % g == 0
    ensures (2 * x - y) % g == 0
  {
    var p, q := x / g, y / g;
    assert x == g * p && y == g * q;
    assert 2 * x - y == g * (2 * p - q);
    RepeatedSubstring.DivMod(2 * x - y, g, 2 * p - q, 0);
  }

  /** A common divisor above 1 of the whole array survives every undone step, so ones are never reached. */
  lemma {:induction false} CommonDivisor(g: int, n: nat, ops: seq<nat>)
    requires g > 1 && ValidOps(ops, n) && n >= 1
    ensures !DividesAll(g, Build(n, ops))
    decreases |ops|
  {
    if ops == [] {
      assert Build(n, ops)[0] == 1;
    } else if DividesAll(g, Build(n, ops)) {
      var t := Build(n, ops);
      var j := LastStep(n, ops);
      SumDivisible(g, t);
      DividesDifference(g, t[j], Sum(t));
      CommonDivisor(g, n, ops[..|ops| - 1]);
    }
  }

  lemma GcdAboveOne(t: seq<int>)
    requires |t| >= 1 && Positive(t) && GcdAll(t) > 1
    ensures !Constructible(t)
  {
    if Constructible(t) {
      var ops :| BuiltBy(t, ops);
      CommonDivisor(GcdAll(t), |t|, ops);
    }
  }

  // ---------------------------------------------------------------------
  // The solutions
  // ---------------------------------------------------------------------

  /** heappop on the negated values: a position of the largest value. */
  function ArgMax(a: seq<int>): (i: nat)
    requires |a| >= 1
    ensures IsMax(a, i)
  {
    if |a| == 1 then 0
    else
      var j := ArgMax(a[..|a| - 1]);
      if a[|a| - 1] > a[j] then |a| - 1 else j
  }

  /** isPossible: undo the step on the maximum, by remainder, until ones are reached or a test fails. */
  method IsPossible(target: seq<int>) returns (b: bool)
    requires |target| >= 1 && Positive(target)
    ensures b == Constructible(target)
  {
    if |target| == 1 {
      SingleElement(target[0]);
      assert target == [target[0]];
      return target[0] == 1;
    }
    var totalSum := Sum(target);
    var maxHeap := target;
    while true
      invariant |maxHeap| == |target| && Positive(maxHeap) && totalSum == Sum(maxHeap)
      invariant Constructible(maxHeap) == Constructible(target)
      decreases totalSum
    {
      var i := ArgMax(maxHeap);
      var maxVal := maxHeap[i];
      if maxVal == 1 {
        MaxOne(maxHeap, i);
        return true;
      }
      var restSum := totalSum - maxVal;
      if restSum == 1 {
        RestOne(maxHeap, i);
        return true;
      }
      RestAtLeast(maxHeap, i);
      if restSum == 0 || maxVal <= restSum || maxVal % restSum == 0 {
        if maxVal <= restSum {
          MaxNotAbove(maxHeap, i);
        } else {
          MaxMultiple(maxHeap, i);
        }
        return false;
      }
      var oldVal := maxVal % restSum;
      MaxRemainder(maxHeap, i);
      totalSum := restSum + oldVal;
      maxHeap := maxHeap[i := oldVal];
    }
  }

  /** The value isPossible_optimized puts back: the rest itself on a multiple, the remainder otherwise. */
  method StepsBack(maxVal: int, restSum: int) returns (oldVal: int)
    requires restSum >= 1 && maxVal > restSum
    ensures oldVal == if maxVal % restSum == 0 then restSum else maxVal % restSum
  {
    var steps := maxVal / restSum;
    assert maxVal == restSum * steps + maxVal % restSum;
    assert restSum * (steps - 1) == restSum * steps - restSum;
    oldVal := maxVal - restSum * (if maxVal % restSum == 0 then steps - 1 else steps);
  }

  /** isPossible_optimized's undoing keeps the heap positive, its sum in step, and constructibility. */
  lemma PutBack(t: seq<int>, i: int)
    requires Positive(t) && IsMax(t, i)
    requires var r := Sum(t) - t[i]; r >= 2 && t[i] > r
    ensures var r := Sum(t) - t[i];
      var v := if t[i] % r == 0 then r else t[i] % r;
      Positive(t[i := v]) && Sum(t[i := v]) == r + v
      && Constructible(t[i := v]) == Constructible(t)
  {
    var r := Sum(t) - t[i];
    if t[i] % r == 0 {
      MaxMultiple(t, i);
      SumUpdate(t, i, r);
    } else {
      MaxRemainder(t, i);
    }
  }

  /** isPossible_optimized: the same loop, undoing by a count of subtractions that stops at the rest itself on a multiple. */
  method IsPossibleOptimized(target: seq<int>) returns (b: bool)
    requires |target| >= 1 && Positive(target)
    ensures b == Constructible(target)
  {
    if |target| == 1 {
      SingleElement(target[0]);
      assert target == [target[0]];
      return target[0] == 1;
    }
    var totalSum := Sum(target);
    var maxHeap := target;
    while true
      invariant |maxHeap| == |target| && Positive(maxHeap) && totalSum == Sum(maxHeap)
      invariant Constructible(maxHeap) == Constructible(target)
      decreases totalSum
    {
      var i := ArgMax(maxHeap);
      var maxVal := maxHeap[i];
      if maxVal == 1 {
        MaxOne(maxHeap, i);
        return true;
      }
      var restSum := totalSum - maxVal;
      if restSum <= 0 || maxVal <= restSum {
        RestAtLeast(maxHeap, i);
        MaxNotAbove(maxHeap, i);
        return false;
      }
      if restSum == 1 {
        RestOne(maxHeap, i);
        return true;
      }
      var oldVal := StepsBack(maxVal, restSum);
      if oldVal <= 0 {
        return false;
      }
      PutBack(maxHeap, i);
      totalSum := restSum + oldVal;
      maxHeap := maxHeap[i := oldVal];
    }
  }

  /** isPossible_v3: false at once when the elements share a divisor above 1, then isPossible's loop. */
  method IsPossibleV3(target: seq<int>) returns (b: bool)
    requires |target| >= 1 && Positive(target)
    ensures b == Constructible(target)
  {
    if |target| == 1 {
      SingleElement(target[0]);
      assert target == [target[0]];
      return target[0] == 1;
    }
    var arrayGcd := GcdAll(target);
    if arrayGcd > 1 {
      GcdAboveOne(target);
      return false;
    }
    var totalSum := Sum(target);
    var maxHeap := target;
    while true
      invariant |maxHeap| == |target| && Positive(maxHeap) && totalSum == Sum(maxHeap)
      invariant Constructible(maxHeap) == Constructible(target)
      decreases totalSum
    {
      var i := ArgMax(maxHeap);
      var maxVal := maxHeap[i];
      if maxVal == 1 {
        MaxOne(maxHeap, i);
        return true;
      }
      var restSum := totalSum - maxVal;
      if restSum == 1 {
        RestOne(maxHeap, i);
        return true;
      }
      RestAtLeast(maxHeap, i);
      if restSum <= 0 || maxVal <= restSum || maxVal % restSum == 0 {
        if maxVal <= restSum {
          MaxNotAbove(maxHeap, i);
        } else {
          MaxMultiple(maxHeap, i);
        }
        return false;
      }
      var oldVal := maxVal % restSum;
      MaxRemainder(maxHeap, i);
      totalSum := restSum + oldVal;
      maxHeap := maxHeap[i := oldVal];
    }
  }

  // ---------------------------------------------------------------------
  // The test driver's cases
  // ---------------------------------------------------------------------

  lemma SumOf2(a: int, b: int)
    ensures Sum([a, b]) == a + b
  {
    assert [a, b][1..] == [b] && [b][1..] == [];
    assert Sum([b]) == b + Sum([]);
    assert Sum([a, b]) == a + Sum([b]);
  }

  lemma SumOf3(a: int, b: int, c: int)
    ensures Sum([a, b, c]) == a + b + c
  {
    assert [a, b, c][1..] == [b, c];
    SumOf2(b, c);
  }

  /** [9, 3, 5] is built by steps on positions 1, 2 and 0. */
  lemma SampleNineThreeFive()
    ensures Constructible([9, 3, 5])
  {
    var ops: seq<nat> := [1, 2, 0];
    assert Ones(3) == [1, 1, 1];
    SumOf3(1, 1, 1);
    SumOf3(1, 3, 1);
    SumOf3(1, 3, 5);
    assert ops[..2] == [1, 2] && ops[..2][..1] == [1] && [1][..0] == [];
    assert Build(3, [1]) == [1, 3, 1];
    assert Build(3, [1, 2]) == [1, 3, 5];
    assert BuiltBy([9, 3, 5], ops);
  }

  /** [1, 1, 1, 2]: its maximum 2 is below the rest 3. */
  lemma SampleOnesAndTwo()
    ensures !Constructible([1, 1, 1, 2])
  {
    MaxNotAbove([1, 1, 1, 2], 3);
  }

  /** [8, 5] is built by steps on positions 1, 0, 1 and 0. */
  lemma SampleEightFive()
    ensures Constructible([8, 5])
  {
    var ops: seq<nat> := [1, 0, 1, 0];
    assert Ones(2) == [1, 1];
    SumOf2(1, 1);
    SumOf2(1, 2);
    SumOf2(3, 2);
    SumOf2(3, 5);
    assert ops[..3] == [1, 0, 1] && ops[..3][..2] == [1, 0] && ops[..3][..2][..1] == [1] && [1][..0] == [];
    assert Build(2, [1]) == [1, 2];
    assert Build(2, [1, 0]) == [3, 2];
    assert Build(2, [1, 0, 1]) == [3, 5];
    assert BuiltBy([8, 5], ops);
  }

  /** [1, 1000000000]: the rest is 1, so the large element is reached one step at a time. */
  lemma SampleLarge()
    ensures Constructible([1, 1000000000])
  {
    RestOne([1, 1000000000], 1);
  }
}

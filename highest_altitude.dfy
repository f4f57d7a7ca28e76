// Find the Highest Altitude: a biker starts at altitude 0 and gain[i] is the
// change between point i and point i + 1; the answer is the highest altitude
// reached at any point, the start included.

module HighestAltitude {

  /** The altitude at point k: the sum of the first k gains. */
  function Altitude(gain: seq<int>, k: nat): int
    requires k <= |gain|
  {
    if k == 0 then 0 else Altitude(gain, k - 1) + gain[k - 1]
  }

  /** h is the highest altitude: reached at some point and never exceeded. */
  ghost predicate IsHighest(gain: seq<int>, h: int) {
    && (exists k :: 0 <= k <= |gain| && h == Altitude(gain, k))
    && (forall k :: 0 <= k <= |gain| ==> Altitude(gain, k) <= h)
  }

  /** There is one highest altitude. */
  lemma HighestUnique(gain: seq<int>, a: int, b: int)
    requires IsHighest(gain, a) && IsHighest(gain, b)
    ensures a == b
  {
  }

  /** The start counts, so the highest altitude is never negative. */
  lemma HighestNonNegative(gain: seq<int>, h: int)
    requires IsHighest(gain, h)
    ensures h >= 0
  {
    assert Altitude(gain, 0) == 0;
  }

  /** Python's max over a non-empty list. */
  function Max(s: seq<int>): (m: int)
    requires |s| > 0
    ensures m in s && forall k :: 0 <= k < |s| ==> s[k] <= m
  {
    if |s| == 1 then s[0]
    else var m := Max(s[1..]); if s[0] >= m then s[0] else m
  }

  /** The list of altitudes of all points, then its maximum. */
  method AltitudeList(gain: seq<int>) returns (h: int)
    ensures IsHighest(gain, h)
  {
    var altitudes := [0];
    for i := 0 to |gain|
      invariant |altitudes| == i + 1
      invariant forall k :: 0 <= k <= i ==> altitudes[k] == Altitude(gain, k)
    {
      altitudes := altitudes + [altitudes[|altitudes| - 1] + gain[i]];
    }
    h := Max(altitudes);
    var k :| 0 <= k < |altitudes| && altitudes[k] == h;
    assert h == Altitude(gain, k);
  }

  /** One pass keeping the current altitude and the highest seen so far. */
  method Running(gain: seq<int>) returns (h: int)
    ensures IsHighest(gain, h)
  {
    var current := 0;
    h := 0;
    ghost var at := 0;
    for i := 0 to |gain|
      invariant current == Altitude(gain, i)
      invariant 0 <= at <= i && h == Altitude(gain, at)
      invariant forall k :: 0 <= k <= i ==> Altitude(gain, k) <= h
    {
      current := current + gain[i];
      if current > h {
        h, at := current, i + 1;
      }
    }
  }

  /** Running sums of s started from acc, as itertools.accumulate lists them after acc. */
  function Accumulate(s: seq<int>, acc: int): (r: seq<int>)
    ensures |r| == |s|
    ensures forall k :: 0 <= k < |s| ==> r[k] == acc + Altitude(s, k + 1)
  {
    if s == [] then []
    else
      var rest := Accumulate(s[1..], acc + s[0]);
      forall k | 0 <= k < |s| - 1 ensures rest[k] == acc + Altitude(s, k + 2) {
        AltitudeTail(s, k + 1);
      }
      [acc + s[0]] + rest
  }

  /** Peeling the first gain off: Altitude(s, k) == s[0] + Altitude(s[1..], k - 1). */
  lemma {:induction false} AltitudeTail(s: seq<int>, k: nat)
    requires 0 < k <= |s|
    ensures Altitude(s, k) == s[0] + Altitude(s[1..], k - 1)
  {
    if k > 1 {
      AltitudeTail(s, k - 1);
    }
  }

  /** The built-in variant: the maximum of the running sums of [0] + gain. */
  function Builtin(gain: seq<int>): int {
    Max(Accumulate([0] + gain, 0))
  }

  lemma BuiltinHighest(gain: seq<int>)
    ensures IsHighest(gain, Builtin(gain))
  {
    var s := [0] + gain;
    var r := Accumulate(s, 0);
    forall k | 0 <= k <= |gain| ensures r[k] == Altitude(gain, k) {
      AltitudeTail(s, k + 1);
      assert s[1..] == gain;
    }
    var h := Builtin(gain);
    var k :| 0 <= k < |r| && r[k] == h;
    assert h == Altitude(gain, k);
  }

  /** The recursive helper: from point index on, with the current and highest altitude so far. */
  function Helper(gain: seq<int>, index: nat, current: int, highest: int): int
    decreases |gain| - index
  {
    if index >= |gain| then highest
    else
      var next := current + gain[index];
      Helper(gain, index + 1, next, if highest >= next then highest else next)
  }

  /** The recursive variant started at the first point. */
  function Recursive(gain: seq<int>): int {
    Helper(gain, 0, 0, 0)
  }

  /**
   * If current is the altitude at point index and highest the highest one up
   * to it, the helper returns the highest altitude over the whole route.
   */
  lemma {:induction false} HelperHighest(gain: seq<int>, index: nat, current: int, highest: int, at: nat)
    requires index <= |gain| && current == Altitude(gain, index)
    requires at <= index && highest == Altitude(gain, at)
    requires forall k :: 0 <= k <= index ==> Altitude(gain, k) <= highest
    ensures IsHighest(gain, Helper(gain, index, current, highest))
    decreases |gain| - index
  {
    if index < |gain| {
      var next := current + gain[index];
      if highest >= next {
        HelperHighest(gain, index + 1, next, highest, at);
      } else {
        HelperHighest(gain, index + 1, next, next, index + 1);
      }
    }
  }

  lemma RecursiveHighest(gain: seq<int>)
    ensures IsHighest(gain, Recursive(gain))
  {
    HelperHighest(gain, 0, 0, 0, 0);
  }

  /** The two samples: [-5, 1, 5, 0, -7] peaks at 1, and [-4, -3, -2, -1, 4, 3, 2] never rises above 0. */
  lemma Samples()
    ensures Recursive([-5, 1, 5, 0, -7]) == 1
    ensures Recursive([-4, -3, -2, -1, 4, 3, 2]) == 0
  {
  }
}

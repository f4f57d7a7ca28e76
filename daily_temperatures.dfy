// Daily Temperatures: for each day, how many days until a strictly warmer
// one, or 0 if none follows.

module DailyTemperatures {
  import opened Common

  /** w is the answer for day i: the distance to the first warmer day, or 0. */
  predicate Waits(t: seq<int>, i: int, w: int)
    requires 0 <= i < |t|
  {
    if w == 0 then forall j :: i < j < |t| ==> t[j] <= t[i]
    else 0 < w && i + w < |t| && t[i + w] > t[i] && forall j :: i < j < i + w ==> t[j] <= t[i]
  }

  predicate Answers(t: seq<int>, r: seq<int>) {
    |r| == |t| && forall i :: 0 <= i < |t| ==> Waits(t, i, r[i])
  }

  /** Each day has one answer, so all variants that meet Answers agree. */
  lemma WaitsUnique(t: seq<int>, i: int, a: int, b: int)
    requires 0 <= i < |t| && Waits(t, i, a) && Waits(t, i, b)
    ensures a == b
  {
  }

  /** Nested loops: scan right until a warmer day. */
  method BruteForce(t: seq<int>) returns (r: seq<int>)
    ensures Answers(t, r)
  {
    var n := |t|;
    r := seq(n, _ => 0);
    for i := 0 to n
      invariant |r| == n
      invariant forall k :: 0 <= k < i ==> Waits(t, k, r[k])
      invariant forall k :: i <= k < n ==> r[k] == 0
    {
      for j := i + 1 to n
        invariant forall m :: i < m < j ==> t[m] <= t[i]
        invariant forall k :: 0 <= k < i ==> Waits(t, k, r[k])
        invariant forall k :: i <= k < n ==> r[k] == 0
      {
        if t[i] < t[j] {
          r := r[i := j - i];
          break;
        }
      }
    }
  }

  /** The stack invariant after the days before i: ordered, unanswered, and still waiting. */
  ghost predicate StackInv(t: seq<int>, r: seq<int>, stack: seq<int>, i: int) {
    && |r| == |t| && 0 <= i <= |t|
    && (forall k :: 0 <= k < |stack| ==> 0 <= stack[k] < i)
    && (forall k, l :: 0 <= k < l < |stack| ==> stack[k] < stack[l] && t[stack[k]] >= t[stack[l]])
    && (forall j :: 0 <= j < i && r[j] != 0 ==> Waits(t, j, r[j]))
    && (forall j :: 0 <= j < i && r[j] == 0 ==> j in stack)
    && (forall k :: 0 <= k < |stack| ==> r[stack[k]] == 0 && forall m :: stack[k] < m < i ==> t[m] <= t[stack[k]])
    && (forall j :: i <= j < |t| ==> r[j] == 0)
  }

  /**
   * Monotonic stack of days still waiting: when a warmer day arrives, every
   * colder day on top of the stack gets its answer.
   */
  method MonotonicStack(t: seq<int>) returns (r: seq<int>)
    ensures Answers(t, r)
  {
    var n := |t|;
    r := seq(n, _ => 0);
    var stack: seq<int> := [];
    for i := 0 to n
      invariant StackInv(t, r, stack, i)
    {
      stack, r := PopColder(t, r, stack, i);
      WaitStep(t, r, stack, i);
      stack := stack + [i];
    }
    Leftovers(t, r, stack);
  }

  /** Day i joins the stack to wait for a warmer day. */
  lemma WaitStep(t: seq<int>, r: seq<int>, stack: seq<int>, i: int)
    requires 0 <= i < |t| && StackInv(t, r, stack, i)
    requires stack != [] ==> t[stack[|stack| - 1]] >= t[i]
    requires forall k :: 0 <= k < |stack| ==> forall m :: stack[k] < m < i + 1 ==> t[m] <= t[stack[k]]
    ensures StackInv(t, r, stack + [i], i + 1)
  {
    var s' := stack + [i];
    assert s'[|stack|] == i;
    forall k | 0 <= k < |stack| ensures s'[k] == stack[k] {
    }
    forall j | 0 <= j < i + 1 && r[j] == 0 ensures j in s' {
      if j < i {
        var k :| 0 <= k < |stack| && stack[k] == j;
        assert s'[k] == j;
      }
    }
  }

  /** The days still stacked at the end have no warmer day after them. */
  lemma Leftovers(t: seq<int>, r: seq<int>, stack: seq<int>)
    requires StackInv(t, r, stack, |t|)
    ensures Answers(t, r)
  {
    forall j | 0 <= j < |t| ensures Waits(t, j, r[j]) {
      if r[j] == 0 {
        var k :| 0 <= k < |stack| && stack[k] == j;
      }
    }
  }

  /** The inner loop of MonotonicStack: answer every stacked day colder than day i. */
  method PopColder(t: seq<int>, r0: seq<int>, stack0: seq<int>, i: int) returns (stack: seq<int>, r: seq<int>)
    requires 0 <= i < |t| && StackInv(t, r0, stack0, i)
    ensures StackInv(t, r, stack, i)
    ensures stack != [] ==> t[stack[|stack| - 1]] >= t[i]
    ensures forall k :: 0 <= k < |stack| ==> forall m :: stack[k] < m < i + 1 ==> t[m] <= t[stack[k]]
  {
    stack, r := stack0, r0;
    while stack != [] && t[i] > t[stack[|stack| - 1]]
      invariant StackInv(t, r, stack, i)
    {
      var prev := stack[|stack| - 1];
      PopStep(t, r, stack, i);
      stack := stack[..|stack| - 1];
      r := r[prev := i - prev];
    }
  }

  /** Popping a colder day answers it with i and keeps the stack invariant. */
  lemma PopStep(t: seq<int>, r: seq<int>, stack: seq<int>, i: int)
    requires 0 <= i < |t| && StackInv(t, r, stack, i)
    requires stack != [] && t[i] > t[stack[|stack| - 1]]
    ensures StackInv(t, r[stack[|stack| - 1] := i - stack[|stack| - 1]], stack[..|stack| - 1], i)
  {
    var prev := stack[|stack| - 1];
    var s', r' := stack[..|stack| - 1], r[prev := i - prev];
    assert Waits(t, prev, i - prev);
    forall j | 0 <= j < i && r'[j] == 0 ensures j in s' {
      var k :| 0 <= k < |stack| && stack[k] == j;
      assert s'[k] == j;
    }
  }

  /**
   * Right to left, jumping along answers already known: a colder day's answer
   * skips the days that cannot be warmer, and a 0 answer ends the search.
   */
  method Jump(t: seq<int>) returns (r: seq<int>)
    ensures Answers(t, r)
  {
    var n := |t|;
    r := seq(n, _ => 0);
    var i := n - 2;
    while i >= 0
      invariant -2 <= i < n && |r| == n
      invariant forall k :: i < k < n && 0 <= k ==> Waits(t, k, r[k])
      invariant forall k :: 0 <= k <= i ==> r[k] == 0
    {
      var j := i + 1;
      while j < n
        invariant i < j
        invariant forall m :: i < m < j && m < n ==> t[m] <= t[i]
        invariant forall k :: i < k < n && 0 <= k ==> Waits(t, k, r[k])
        invariant forall k :: 0 <= k <= i ==> r[k] == 0
        decreases n - j
      {
        if t[j] > t[i] {
          r := r[i := j - i];
          break;
        } else if r[j] == 0 {
          break;
        } else {
          j := j + r[j];
        }
      }
      i := i - 1;
    }
  }

  /** First position at or after j holding v, or |t| if there is none. */
  function FirstAt(t: seq<int>, v: int, j: nat): (k: int)
    ensures j <= k || k == |t|
    ensures k <= |t| && (k < |t| ==> t[k] == v)
    ensures forall m :: j <= m < k ==> t[m] != v
    decreases |t| - j
  {
    if j >= |t| then |t| else if t[j] == v then j else FirstAt(t, v, j + 1)
  }

  /**
   * Table of the nearest later position of every temperature 30..100; the
   * answer is the nearest among the warmer temperatures. The length of the list
   * stands for the infinite sentinel, and an empty range of warmer
   * temperatures gives the sentinel.
   */
  method TableScan(t: seq<int>) returns (r: seq<int>)
    requires forall i :: 0 <= i < |t| ==> 30 <= t[i] <= 100
    ensures Answers(t, r)
  {
    var n := |t|;
    r := seq(n, _ => 0);
    var next: seq<int> := seq(101, _ => n);
    var i := n - 1;
    while i >= 0
      invariant -1 <= i < n && |r| == n && |next| == 101
      invariant forall v :: 0 <= v < 101 ==> next[v] == FirstAt(t, v, i + 1)
      invariant forall k :: i < k < n ==> Waits(t, k, r[k])
      invariant forall k :: 0 <= k <= i ==> r[k] == 0
    {
      var cur := t[i];
      var warmer := n;
      for v := cur + 1 to 101
        invariant warmer == n || (i < warmer < n && t[warmer] > cur)
        invariant forall k :: i < k < warmer && k < n ==> !(cur < t[k] < v)
      {
        if next[v] < warmer {
          warmer := next[v];
        }
      }
      if warmer < n {
        r := r[i := warmer - i];
      }
      next := next[cur := i];
      i := i - 1;
    }
  }

  /**
   * Python's min over a list slice: it raises on an empty slice, shown as
   * None.
   */
  function SliceMin(s: seq<int>): (m: Option<int>)
    ensures m.None? <==> s == []
    ensures m.Some? ==> m.value in s && forall k :: 0 <= k < |s| ==> m.value <= s[k]
  {
    if s == [] then None
    else match SliceMin(s[1..])
      case None => Some(s[0])
      case Some(x) => Some(if s[0] <= x then s[0] else x)
  }

  /** The table lookup as written: min over the entries after the current temperature. */
  function WarmerIndexAsWritten(next: seq<int>, temp: int): (r: Option<int>)
    requires |next| == 101 && 0 <= temp <= 100
    ensures r.None? <==> temp == 100
    ensures r.Some? ==> exists v :: temp < v <= 100 && r.value == next[v]
    ensures r.Some? ==> forall v :: temp < v <= 100 ==> r.value <= next[v]
  {
    SliceMin(next[temp + 1..])
  }

  /** For temperature 100 the slice is empty, so min raises instead of giving "no warmer day". */
  lemma TopTemperatureRaises(next: seq<int>)
    requires |next| == 101
    ensures WarmerIndexAsWritten(next, 100) == None
  {
    assert next[101..] == [];
  }

  /** [100] is within the stated temperature range, and its answer is [0]. */
  lemma TopTemperatureAnswer(t: seq<int>)
    requires t == [100]
    ensures forall i :: 0 <= i < |t| ==> 30 <= t[i] <= 100
    ensures Answers(t, [0])
  {
  }
}

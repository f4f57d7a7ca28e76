// Final Prices With a Special Discount in a Shop: each item is discounted by
// the price of the first later item that costs no more than it.

module FinalPrices {

  /** The first position k >= j whose price is at most prices[i], or |p| if there is none. */
  function NextCheaper(p: seq<int>, i: int, j: int): (k: int)
    requires 0 <= i < |p| && 0 <= j <= |p|
    ensures j <= k <= |p|
    ensures k < |p| ==> p[k] <= p[i]
    ensures forall m :: j <= m < k ==> p[m] > p[i]
    decreases |p| - j
  {
    if j == |p| then |p| else if p[j] <= p[i] then j else NextCheaper(p, i, j + 1)
  }

  /** Any position with the first-cheaper property is the one NextCheaper finds. */
  lemma NextCheaperIs(p: seq<int>, i: int, j: int, k: int)
    requires 0 <= i < |p| && 0 <= j <= k <= |p|
    requires k < |p| ==> p[k] <= p[i]
    requires forall m :: j <= m < k ==> p[m] > p[i]
    ensures NextCheaper(p, i, j) == k
  {
  }

  /** The price paid for item i. */
  function FinalPrice(p: seq<int>, i: int): int
    requires 0 <= i < |p|
  {
    var k := NextCheaper(p, i, i + 1);
    if k < |p| then p[i] - p[k] else p[i]
  }

  predicate Discounted(p: seq<int>, r: seq<int>) {
    |r| == |p| && forall i :: 0 <= i < |p| ==> r[i] == FinalPrice(p, i)
  }

  /** With non-negative prices a final price lies between 0 and the list price. */
  lemma FinalPriceBounds(p: seq<int>, i: int)
    requires 0 <= i < |p| && forall k :: 0 <= k < |p| ==> p[k] >= 0
    ensures 0 <= FinalPrice(p, i) <= p[i]
  {
  }

  /** The last item is never discounted. */
  lemma LastNotDiscounted(p: seq<int>)
    requires |p| > 0
    ensures FinalPrice(p, |p| - 1) == p[|p| - 1]
  {
  }

  /**
   * Nested loops appending one price per item; the inner loop appends the full
   * price when it reaches the last item, and the last item's price is appended
   * after the loops.
   */
  method BruteForce(p: seq<int>) returns (r: seq<int>)
    requires |p| > 0
    ensures Discounted(p, r)
  {
    var n := |p|;
    r := [];
    for i := 0 to n
      invariant |r| == if i < n then i else n - 1
      invariant forall k :: 0 <= k < |r| ==> r[k] == FinalPrice(p, k)
    {
      for j := i + 1 to n
        invariant
          || (|r| == i && (j < n || i + 1 == n) && forall m :: i < m < j ==> p[m] > p[i])
          || (j == n && i + 1 < n && |r| == i + 1 && r[i] == FinalPrice(p, i))
        invariant forall k :: 0 <= k < i ==> r[k] == FinalPrice(p, k)
      {
        if p[i] >= p[j] {
          NextCheaperIs(p, i, i + 1, j);
          r := r + [p[i] - p[j]];
          break;
        }
        if j == n - 1 {
          NextCheaperIs(p, i, i + 1, n);
          r := r + [p[i]];
        }
      }
    }
    r := r + [p[n - 1]];
  }

  /** Stack invariant before item i: stacked items still wait for a discount, in increasing price. */
  ghost predicate StackInv(p: seq<int>, r: seq<int>, stack: seq<int>, i: int) {
    && |r| == |p| && 0 <= i <= |p|
    && (forall k :: 0 <= k < |stack| ==> 0 <= stack[k] < i)
    && (forall k, l :: 0 <= k < l < |stack| ==> stack[k] < stack[l] && p[stack[k]] < p[stack[l]])
    && (forall j :: 0 <= j < i ==> j in stack || r[j] == FinalPrice(p, j))
    && (forall k :: 0 <= k < |stack| ==> r[stack[k]] == p[stack[k]] && forall m :: stack[k] < m < i ==> p[m] > p[stack[k]])
    && (forall j :: i <= j < |p| ==> r[j] == p[j])
  }

  /**
   * Left to right with a stack of items still waiting: the current price is
   * the discount of every stacked item that costs at least as much.
   */
  method StackForward(p: seq<int>) returns (r: seq<int>)
    ensures Discounted(p, r)
  {
    var n := |p|;
    r := p;
    var stack: seq<int> := [];
    for i := 0 to n
      invariant StackInv(p, r, stack, i)
    {
      stack, r := PopDearer(p, r, stack, i);
      WaitStep(p, r, stack, i);
      stack := stack + [i];
    }
    Leftovers(p, r, stack);
  }

  /** Item i joins the stack to wait for its discount. */
  lemma WaitStep(p: seq<int>, r: seq<int>, stack: seq<int>, i: int)
    requires 0 <= i < |p| && StackInv(p, r, stack, i)
    requires stack != [] ==> p[stack[|stack| - 1]] < p[i]
    requires forall k :: 0 <= k < |stack| ==> forall m :: stack[k] < m < i + 1 ==> p[m] > p[stack[k]]
    ensures StackInv(p, r, stack + [i], i + 1)
  {
    var s' := stack + [i];
    assert s'[|stack|] == i;
    forall k | 0 <= k < |stack| ensures s'[k] == stack[k] {
    }
    forall j | 0 <= j < i + 1 ensures j in s' || r[j] == FinalPrice(p, j) {
      if j in stack {
        var k :| 0 <= k < |stack| && stack[k] == j;
        assert s'[k] == j;
      }
    }
  }

  /** The items still stacked at the end found no cheaper item and keep their price. */
  lemma Leftovers(p: seq<int>, r: seq<int>, stack: seq<int>)
    requires StackInv(p, r, stack, |p|)
    ensures Discounted(p, r)
  {
    forall j | 0 <= j < |p| ensures r[j] == FinalPrice(p, j) {
      if j in stack {
        var k :| 0 <= k < |stack| && stack[k] == j;
        NextCheaperIs(p, j, j + 1, |p|);
      }
    }
  }

  /** The inner loop of StackForward: discount every stacked item priced at least p[i]. */
  method PopDearer(p: seq<int>, r0: seq<int>, stack0: seq<int>, i: int) returns (stack: seq<int>, r: seq<int>)
    requires 0 <= i < |p| && StackInv(p, r0, stack0, i)
    ensures StackInv(p, r, stack, i)
    ensures stack != [] ==> p[stack[|stack| - 1]] < p[i]
    ensures forall k :: 0 <= k < |stack| ==> forall m :: stack[k] < m < i + 1 ==> p[m] > p[stack[k]]
  {
    stack, r := stack0, r0;
    while stack != [] && p[stack[|stack| - 1]] >= p[i]
      invariant StackInv(p, r, stack, i)
    {
      var idx := stack[|stack| - 1];
      PopStep(p, r, stack, i);
      stack := stack[..|stack| - 1];
      r := r[idx := p[idx] - p[i]];
    }
    StillWaiting(p, r, stack, i);
  }

  /** The items left on the stack are all cheaper than p[i], so item i does not discount them. */
  lemma StillWaiting(p: seq<int>, r: seq<int>, stack: seq<int>, i: int)
    requires 0 <= i < |p| && StackInv(p, r, stack, i)
    requires stack != [] ==> p[stack[|stack| - 1]] < p[i]
    ensures forall k :: 0 <= k < |stack| ==> forall m :: stack[k] < m < i + 1 ==> p[m] > p[stack[k]]
  {
    forall k, m | 0 <= k < |stack| && stack[k] < m < i + 1 ensures p[m] > p[stack[k]] {
      if m == i && k < |stack| - 1 {
        assert p[stack[k]] < p[stack[|stack| - 1]];
      }
    }
  }

  /** Popping an item priced at least p[i] gives it its final price. */
  lemma PopStep(p: seq<int>, r: seq<int>, stack: seq<int>, i: int)
    requires 0 <= i < |p| && StackInv(p, r, stack, i)
    requires stack != [] && p[stack[|stack| - 1]] >= p[i]
    ensures StackInv(p, r[stack[|stack| - 1] := p[stack[|stack| - 1]] - p[i]], stack[..|stack| - 1], i)
  {
    var top := |stack| - 1;
    var idx := stack[top];
    var s', r' := stack[..top], r[idx := p[idx] - p[i]];
    NextCheaperIs(p, idx, idx + 1, i);
    assert r'[idx] == FinalPrice(p, idx);
    forall k | 0 <= k < |s'| ensures s'[k] == stack[k] && s'[k] < idx {
    }
    forall j | 0 <= j < i ensures j in s' || r'[j] == FinalPrice(p, j) {
      if j != idx && j in stack {
        var k :| 0 <= k < |stack| && stack[k] == j;
        assert k < top && s'[k] == j;
      }
    }
  }

  /** k is the first position after i whose price is at most p[i], or |p| if none is. */
  ghost predicate FirstCheaper(p: seq<int>, i: int, k: int) {
    && 0 <= i < k <= |p|
    && (k < |p| ==> p[k] <= p[i])
    && (forall m :: i < m < k ==> p[m] > p[i])
  }

  /** The entry below entry k of the stack, or |p| under the bottom one. */
  function Below(pos: seq<int>, k: int, n: int): int
    requires 0 <= k <= |pos|
  {
    if k == 0 then n else pos[k - 1]
  }

  function Top(pos: seq<int>, n: int): int {
    Below(pos, |pos|, n)
  }

  /**
   * Right-to-left stack of prices. Ghost positions pos say where each stacked
   * price comes from: the top is the item just after i, and below every entry
   * sits the first cheaper-or-equal item after it.
   */
  ghost predicate Chain(p: seq<int>, stack: seq<int>, pos: seq<int>, lo: int) {
    && |pos| == |stack| && -1 <= lo
    && (forall k :: 0 <= k < |pos| ==> lo < pos[k] < |p| && stack[k] == p[pos[k]])
    && (forall k {:trigger Below(pos, k, |p|)} :: 0 <= k < |pos| ==> FirstCheaper(p, pos[k], Below(pos, k, |p|)))
  }

  method StackBackward(p: seq<int>) returns (r: seq<int>)
    ensures Discounted(p, r)
  {
    var n := |p|;
    r := p;
    var stack: seq<int> := [];
    ghost var pos: seq<int> := [];
    var i := n - 1;
    while i >= 0
      invariant -1 <= i < n
      invariant Chain(p, stack, pos, i)
      invariant Top(pos, n) == i + 1
      invariant FilledAfter(p, r, i)
    {
      stack, pos := PopPricier(p, stack, pos, i);
      ghost var r0 := r;
      Discount(p, stack, pos, i);
      if stack != [] {
        r := r[i := p[i] - stack[|stack| - 1]];
      }
      FillStep(p, r0, r, i);
      PushStep(p, stack, pos, i);
      stack, pos := stack + [p[i]], pos + [i];
      i := i - 1;
    }
  }

  /** Items after i hold their final price; items up to i still hold their list price. */
  ghost predicate FilledAfter(p: seq<int>, r: seq<int>, i: int) {
    |r| == |p| && forall k :: 0 <= k < |p| ==> r[k] == if k > i then FinalPrice(p, k) else p[k]
  }

  /** Filling in item i moves the boundary one to the left. */
  lemma FillStep(p: seq<int>, r0: seq<int>, r: seq<int>, i: int)
    requires 0 <= i < |p| && FilledAfter(p, r0, i) && r == r0[i := FinalPrice(p, i)]
    ensures FilledAfter(p, r, i - 1)
  {
  }

  /** Once the pricier entries are gone, the top of the stack, if any, is item i's discount. */
  lemma Discount(p: seq<int>, stack: seq<int>, pos: seq<int>, i: int)
    requires 0 <= i < |p| && Chain(p, stack, pos, i)
    requires stack != [] ==> stack[|stack| - 1] <= p[i]
    requires forall m :: i < m < Top(pos, |p|) ==> p[m] > p[i]
    ensures FirstCheaper(p, i, Top(pos, |p|))
    ensures FinalPrice(p, i) == if stack == [] then p[i] else p[i] - stack[|stack| - 1]
  {
    NextCheaperIs(p, i, i + 1, Top(pos, |p|));
  }

  /** The inner loop of StackBackward: drop the stacked prices above p[i]. */
  method PopPricier(p: seq<int>, stack0: seq<int>, ghost pos0: seq<int>, i: int) returns (stack: seq<int>, ghost pos: seq<int>)
    requires 0 <= i < |p| && Chain(p, stack0, pos0, i) && Top(pos0, |p|) == i + 1
    ensures Chain(p, stack, pos, i)
    ensures stack != [] ==> stack[|stack| - 1] <= p[i]
    ensures forall m :: i < m < Top(pos, |p|) ==> p[m] > p[i]
  {
    stack, pos := stack0, pos0;
    while stack != [] && stack[|stack| - 1] > p[i]
      invariant Chain(p, stack, pos, i)
      invariant forall m :: i < m < Top(pos, |p|) ==> p[m] > p[i]
    {
      PopPricierStep(p, stack, pos, i);
      stack, pos := stack[..|stack| - 1], pos[..|pos| - 1];
    }
  }

  /** Every item between i and the next stacked one costs more than p[i], so popping keeps that. */
  lemma PopPricierStep(p: seq<int>, stack: seq<int>, pos: seq<int>, i: int)
    requires 0 <= i < |p| && Chain(p, stack, pos, i)
    requires stack != [] && stack[|stack| - 1] > p[i]
    requires forall m :: i < m < Top(pos, |p|) ==> p[m] > p[i]
    ensures Chain(p, stack[..|stack| - 1], pos[..|pos| - 1], i)
    ensures forall m :: i < m < Top(pos[..|pos| - 1], |p|) ==> p[m] > p[i]
  {
    ChainPop(p, stack, pos, i);
    var last := |pos| - 1;
    var t, below := pos[last], Below(pos, last, |p|);
    assert FirstCheaper(p, t, below);
    assert Top(pos[..last], |p|) == below;
    forall m | i < m < below ensures p[m] > p[i] {
      if m > t {
        assert p[m] > p[t];
      }
    }
  }

  /** Dropping the top entry leaves a chain. */
  lemma ChainPop(p: seq<int>, stack: seq<int>, pos: seq<int>, i: int)
    requires Chain(p, stack, pos, i) && stack != []
    ensures Chain(p, stack[..|stack| - 1], pos[..|pos| - 1], i)
  {
    var last := |pos| - 1;
    var st, ps := stack[..last], pos[..last];
    forall k | 0 <= k < last
      ensures i < ps[k] < |p| && st[k] == p[ps[k]]
      ensures FirstCheaper(p, ps[k], Below(ps, k, |p|))
    {
      assert ps[k] == pos[k] && st[k] == stack[k] && Below(ps, k, |p|) == Below(pos, k, |p|);
    }
  }

  /** Pushing item i keeps the chain: below it sits its first cheaper-or-equal item. */
  lemma PushStep(p: seq<int>, stack: seq<int>, pos: seq<int>, i: int)
    requires 0 <= i < |p| && Chain(p, stack, pos, i)
    requires FirstCheaper(p, i, Top(pos, |p|))
    ensures Chain(p, stack + [p[i]], pos + [i], i - 1)
    ensures Top(pos + [i], |p|) == i
  {
    var st, ps := stack + [p[i]], pos + [i];
    assert ps[|pos|] == i && st[|pos|] == p[i];
    assert Below(ps, |pos|, |p|) == Top(pos, |p|);
    forall k | 0 <= k < |ps|
      ensures i - 1 < ps[k] < |p| && st[k] == p[ps[k]]
      ensures FirstCheaper(p, ps[k], Below(ps, k, |p|))
    {
      if k < |pos| {
        assert ps[k] == pos[k] && st[k] == stack[k] && Below(ps, k, |p|) == Below(pos, k, |p|);
      }
    }
  }

  /** Nested loops over a copy: the first cheaper-or-equal later item gives the discount. */
  method CopyScan(p: seq<int>) returns (r: seq<int>)
    ensures Discounted(p, r)
  {
    var n := |p|;
    r := p;
    for i := 0 to n
      invariant |r| == n
      invariant forall k :: 0 <= k < i ==> r[k] == FinalPrice(p, k)
      invariant forall k :: i <= k < n ==> r[k] == p[k]
    {
      var found := false;
      for j := i + 1 to n
        invariant !found
        invariant forall m :: i < m < j ==> p[m] > p[i]
        invariant |r| == n && r[i] == p[i]
        invariant forall k :: 0 <= k < n && k != i ==> r[k] == if k < i then FinalPrice(p, k) else p[k]
      {
        if p[j] <= p[i] {
          NextCheaperIs(p, i, i + 1, j);
          r := r[i := p[i] - p[j]];
          found := true;
          break;
        }
      }
      if !found {
        NextCheaperIs(p, i, i + 1, n);
      }
    }
  }

  /** The first sample: [8, 4, 6, 2, 3] pays [4, 2, 4, 2, 3]. */
  lemma SampleOne()
    ensures Discounted([8, 4, 6, 2, 3], [4, 2, 4, 2, 3])
  {
    var p := [8, 4, 6, 2, 3];
    NextCheaperIs(p, 0, 1, 1);
    NextCheaperIs(p, 1, 2, 3);
    NextCheaperIs(p, 2, 3, 3);
    NextCheaperIs(p, 3, 4, 5);
    NextCheaperIs(p, 4, 5, 5);
  }
}

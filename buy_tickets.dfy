// Time Needed to Buy Tickets: people queue for tickets, each buys one ticket
// per turn (one second) and goes to the back of the line while they still
// need more; someone with no tickets left leaves. How long until person k
// has bought all of theirs? Variants: a deque simulation, the closed-form
// sum over the queue, a round-by-round count and a one-pass form of the sum.

module BuyTickets {

  function Min(a: int, b: int): int {
    if a <= b then a else b
  }

  /** The sum of min(s[i], c) over the list. */
  function SumMin(s: seq<int>, c: int): int {
    if s == [] then 0 else SumMin(s[..|s| - 1], c) + Min(s[|s| - 1], c)
  }

  /** How many entries of the list are at least c. */
  function CountAtLeast(s: seq<int>, c: int): nat {
    if s == [] then 0 else CountAtLeast(s[..|s| - 1], c) + (if s[|s| - 1] >= c then 1 else 0)
  }

  /** Every person still in the line needs at least one ticket. */
  ghost predicate AllPositive(s: seq<int>) {
    forall i :: 0 <= i < |s| ==> s[i] >= 1
  }

  /**
   * The seconds until person k is done: everyone up to and including k buys
   * min(tickets[i], tickets[k]) tickets, everyone behind k one round fewer.
   */
  function Waiting(tickets: seq<int>, k: int): int
    requires 0 <= k < |tickets|
  {
    SumMin(tickets[..k + 1], tickets[k]) + SumMin(tickets[k + 1..], tickets[k] - 1)
  }

  /** SumMin adds up over a concatenation. */
  lemma {:induction false} SumMinAppend(a: seq<int>, b: seq<int>, c: int)
    ensures SumMin(a + b, c) == SumMin(a, c) + SumMin(b, c)
    decreases |b|
  {
    if b == [] {
      assert a + b == a;
    } else {
      var n := |b| - 1;
      assert (a + b)[..|a + b| - 1] == a + b[..n];
      SumMinAppend(a, b[..n], c);
    }
  }

  /** Raising the cap from c - 1 to c adds one for each entry that reaches c. */
  lemma {:induction false} SumMinRaise(s: seq<int>, c: int)
    ensures SumMin(s, c) == SumMin(s, c - 1) + CountAtLeast(s, c)
  {
    if s != [] {
      SumMinRaise(s[..|s| - 1], c);
    }
  }

  /** Capped at c >= 0, a list of non-negative entries sums to something between 0 and what a cap of 0 gives. */
  lemma {:induction false} SumMinNonNegative(s: seq<int>, c: int)
    requires forall i :: 0 <= i < |s| ==> s[i] >= 0
    requires c >= 0
    ensures SumMin(s, c) >= 0
    ensures SumMin(s, 0) == 0
  {
    if s != [] {
      SumMinNonNegative(s[..|s| - 1], c);
    }
  }

  /** Person k waits at least as many seconds as the tickets they buy. */
  lemma WaitingAtLeast(tickets: seq<int>, k: int)
    requires 0 <= k < |tickets| && AllPositive(tickets)
    ensures Waiting(tickets, k) >= tickets[k]
  {
    var b := tickets[k];
    assert tickets[..k + 1][..k] == tickets[..k];
    SumMinNonNegative(tickets[..k], b);
    SumMinNonNegative(tickets[k + 1..], b - 1);
  }

  /** The front person buys one ticket and, still needing more, goes to the back. */
  lemma FrontRequeues(q: seq<int>, k: int)
    requires 0 <= k < |q| && AllPositive(q) && q[0] > 1
    ensures Waiting(q, k) == 1 + Waiting(q[1..] + [q[0] - 1], if k == 0 then |q| - 1 else k - 1)
  {
    var a, b := q[0], q[k];
    var r := q[1..] + [a - 1];
    if k == 0 {
      assert q[..1] == [a] && [a][..0] == [];
      assert SumMin(q[..1], a) == a;
      assert r[..|q|] == r && r[|q|..] == [] && r[|q| - 1] == a - 1;
      SumMinAppend(q[1..], [a - 1], a - 1);
      assert [a - 1][..0] == [];
      assert Waiting(r, |q| - 1) == SumMin(r, a - 1) + SumMin([], a - 2);
    } else {
      assert q[..k + 1] == [a] + q[1..k + 1];
      SumMinAppend([a], q[1..k + 1], b);
      assert [a][..0] == [];
      assert r[..k] == q[1..k + 1] && r[k..] == q[k + 1..] + [a - 1] && r[k - 1] == b;
      SumMinAppend(q[k + 1..], [a - 1], b - 1);
      assert [a - 1][..0] == [];
    }
  }

  /** The front person buys their last ticket and leaves; they were not person k. */
  lemma FrontLeaves(q: seq<int>, k: int)
    requires 0 < k < |q| && AllPositive(q) && q[0] == 1
    ensures Waiting(q, k) == 1 + Waiting(q[1..], k - 1)
  {
    var b := q[k];
    assert q[..k + 1] == [1] + q[1..k + 1];
    SumMinAppend([1], q[1..k + 1], b);
    assert [1][..0] == [];
    assert q[1..][..k] == q[1..k + 1] && q[1..][k..] == q[k + 1..];
  }

  /** Person k, at the front with one ticket to go, is done after one more second. */
  lemma LastTicket(q: seq<int>)
    requires |q| > 0 && AllPositive(q) && q[0] == 1
    ensures Waiting(q, 0) == 1
  {
    assert q[..1] == [1];
    assert [1][..0] == [];
    SumMinNonNegative(q[1..], 0);
  }

  /** Waiting rewritten round by round: every full round below tickets[k], then the people up to k in the last one. */
  lemma WaitingByRounds(tickets: seq<int>, k: int)
    requires 0 <= k < |tickets|
    ensures Waiting(tickets, k)
      == SumMin(tickets, tickets[k] - 1) + CountAtLeast(tickets[..k + 1], tickets[k])
  {
    var b, front, back := tickets[k], tickets[..k + 1], tickets[k + 1..];
    SumMinRaise(front, b);
    SumMinAppend(front, back, b - 1);
    assert front + back == tickets;
  }

  /** Solution: simulate the line with a deque, tracking where person k stands. */
  method Simulate(tickets: seq<int>, k: int) returns (time: int)
    requires 0 <= k < |tickets| && AllPositive(tickets)
    ensures time == Waiting(tickets, k)
  {
    time := 0;
    var q := tickets;
    var j := k;
    while q[j] > 0
      invariant 0 <= j < |q| && AllPositive(q)
      invariant time + Waiting(q, j) == Waiting(tickets, k)
      decreases Waiting(q, j)
    {
      ghost var before, at := q, j;
      time := time + 1;
      q := q[0 := q[0] - 1];
      if q[0] > 0 {
        FrontRequeues(before, at);
        q := q[1..] + [q[0]];
        if j == 0 {
          j := |q| - 1;
        } else {
          j := j - 1;
        }
      }
      if q[0] == 0 {
        q := q[1..];
        if j == 0 {
          LastTicket(before);
          return time;
        } else {
          FrontLeaves(before, at);
          j := j - 1;
        }
      }
      WaitingAtLeast(q, j);
    }
    return time;
  }

  /** Solution2: add up each person's share of the seconds in one pass. */
  method Formula(tickets: seq<int>, k: int) returns (time: int)
    requires 0 <= k < |tickets|
    ensures time == Waiting(tickets, k)
  {
    time := 0;
    var target := tickets[k];
    for i := 0 to |tickets|
      invariant i <= k + 1 ==> time == SumMin(tickets[..i], target)
      invariant i > k + 1 ==> time == SumMin(tickets[..k + 1], target) + SumMin(tickets[k + 1..i], target - 1)
    {
      if i <= k {
        assert tickets[..i + 1][..i] == tickets[..i];
        time := time + Min(tickets[i], target);
      } else {
        assert tickets[k + 1..i + 1][..i - k - 1] == tickets[k + 1..i];
        time := time + Min(tickets[i], target - 1);
      }
    }
    assert tickets[k + 1..|tickets|] == tickets[k + 1..];
  }

  /** Solution3: count, round by round, everyone who still needs a ticket, stopping when person k buys their last. */
  method Rounds(tickets: seq<int>, k: int) returns (time: int)
    requires 0 <= k < |tickets| && AllPositive(tickets)
    ensures time == Waiting(tickets, k)
  {
    time := 0;
    var target := tickets[k];
    SumMinNonNegative(tickets, 0);
    for round := 1 to target + 1
      invariant round <= target
      invariant time == SumMin(tickets, round - 1)
    {
      for i := 0 to |tickets|
        invariant time == SumMin(tickets, round - 1) + CountAtLeast(tickets[..i], round)
        invariant round == target ==> i <= k
      {
        assert tickets[..i + 1][..i] == tickets[..i];
        if tickets[i] >= round {
          time := time + 1;
          if i == k && round == target {
            WaitingByRounds(tickets, k);
            return time;
          }
        }
      }
      assert tickets[..|tickets|] == tickets;
      SumMinRaise(tickets, round);
    }
    return time;
  }

  /** Solution4: start from person k's own tickets and add everyone else's share. */
  method OnePass(tickets: seq<int>, k: int) returns (time: int)
    requires 0 <= k < |tickets|
    ensures time == Waiting(tickets, k)
  {
    time := tickets[k];
    for i := 0 to |tickets|
      invariant i <= k ==> time == tickets[k] + SumMin(tickets[..i], tickets[k])
      invariant i > k ==> time == SumMin(tickets[..k + 1], tickets[k]) + SumMin(tickets[k + 1..i], tickets[k] - 1)
    {
      if i != k {
        if i < k {
          assert tickets[..i + 1][..i] == tickets[..i];
          time := time + Min(tickets[i], tickets[k]);
        } else {
          assert tickets[k + 1..i + 1][..i - k - 1] == tickets[k + 1..i];
          time := time + Min(tickets[i], tickets[k] - 1);
        }
      } else {
        assert tickets[..k + 1][..k] == tickets[..k];
        assert tickets[k + 1..k + 1] == [];
      }
    }
    assert tickets[k + 1..|tickets|] == tickets[k + 1..];
  }

  /** The driver's first two cases. */
  lemma Samples()
    ensures Waiting([2, 3, 2], 2) == 6
    ensures Waiting([5, 1, 1, 1], 0) == 8
  {
    assert [2, 3, 2][..3] == [2, 3, 2] && [2, 3, 2][3..] == [];
    assert [2, 3, 2][..2] == [2, 3] && [2, 3][..1] == [2] && [2][..0] == [];
    assert [5, 1, 1, 1][..1] == [5] && [5][..0] == [] && [5, 1, 1, 1][1..] == [1, 1, 1];
    assert [1, 1, 1][..2] == [1, 1] && [1, 1][..1] == [1] && [1][..0] == [];
    assert SumMin([5], 5) == 5 && SumMin([1, 1, 1], 4) == 3;
  }
}

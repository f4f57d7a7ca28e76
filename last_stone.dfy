// Last Stone Weight: repeatedly smash the two heaviest stones; equal stones
// both vanish, otherwise the lighter one vanishes and the heavier one keeps
// the difference. Return the weight of the stone left, or 0 if none is.
// Variants: a max-heap, re-sorting every round, a sorted list with
// bisect.insort, and repeated max/index/pop.

module LastStone {
  import opened BinarySearch
  import opened Sorting
  import PeakIndex

  /** One round on the stones in ascending order: the last two collide and the difference goes back in order. */
  function Smash(s: seq<int>): (r: seq<int>)
    requires |s| >= 2
    ensures |r| == |s| - 2 || |r| == |s| - 1
  {
    Round(s[..|s| - 2], s[|s| - 1], s[|s| - 2])
  }

  /** The stones left when the heaviest y meets the next heaviest x: the rest, and y - x inserted in order unless it is 0. */
  function Round(rest: seq<int>, y: int, x: int): seq<int> {
    if x != y then Insort(rest, y - x) else rest
  }

  /** The bag after the heaviest y and the next heaviest x collide: the rest, and y - x unless it is 0. */
  function Collide(rest: multiset<int>, y: int, x: int): multiset<int> {
    if x != y then rest + multiset{y - x} else rest
  }

  /** A round keeps an ascending list ascending. */
  lemma SmashSorted(s: seq<int>)
    requires Sorted(s) && |s| >= 2
    ensures Sorted(Smash(s))
  {
    InsortSorted(s[..|s| - 2], s[|s| - 1] - s[|s| - 2]);
  }

  /** What Smash returns, in the two cases the loops write out. */
  lemma SmashIs(t: seq<int>, s: seq<int>)
    requires |t| >= 2
    requires t[|t| - 2] != t[|t| - 1] ==> s == Insort(t[..|t| - 2], t[|t| - 1] - t[|t| - 2])
    requires t[|t| - 2] == t[|t| - 1] ==> s == t[..|t| - 2]
    ensures s == Smash(t)
  {
  }

  /** The stones after a round: all but the last two, and their difference unless it is 0. */
  lemma SmashBag(t: seq<int>)
    requires |t| >= 2
    ensures multiset(Smash(t)) == Collide(multiset(t[..|t| - 2]), t[|t| - 1], t[|t| - 2])
  {
  }

  /** Smash until at most one stone is left: 0 with none, else that stone's weight. */
  function Play(s: seq<int>): int
    decreases |s|
  {
    if |s| == 0 then 0
    else if |s| == 1 then s[0]
    else Play(Smash(s))
  }

  /** The game's outcome on a bag of stones, whatever order they come in. */
  ghost function Outcome(m: multiset<int>): int {
    Play(Sort(SeqOf(m)))
  }

  /** Playing an ascending list gives the outcome of its bag. */
  lemma OutcomeOf(s: seq<int>)
    requires Sorted(s)
    ensures Outcome(multiset(s)) == Play(s)
  {
    SortSorted(SeqOf(multiset(s)));
    SortedUnique(Sort(SeqOf(multiset(s))), s);
  }

  /** A round takes out the heaviest y and the heaviest x of the rest and puts back y - x unless it is 0. */
  lemma RoundOf(m: multiset<int>, y: int, x: int)
    requires y in m && forall z :: z in m ==> z <= y
    requires x in m - multiset{y} && forall z :: z in m - multiset{y} ==> z <= x
    ensures Outcome(m) == Outcome(Collide(m - multiset{y} - multiset{x}, y, x))
  {
    var t := Sort(SeqOf(m));
    SortSorted(SeqOf(m));
    TopTwo(t, m, y, x);
    PlayRound(t, m - multiset{y} - multiset{x}, y, x);
  }

  /** An ascending list of the bag ends in its heaviest y and the heaviest x of the rest. */
  lemma TopTwo(t: seq<int>, m: multiset<int>, y: int, x: int)
    requires Sorted(t) && multiset(t) == m
    requires y in m && forall z :: z in m ==> z <= y
    requires x in m - multiset{y} && forall z :: z in m - multiset{y} ==> z <= x
    ensures |t| >= 2 && t[|t| - 1] == y && t[|t| - 2] == x
    ensures multiset(t[..|t| - 2]) == m - multiset{y} - multiset{x}
  {
    TopOfBag(t, m, y);
    var u := t[..|t| - 1];
    PopLast(t);
    PrefixSorted(t, |t| - 1);
    TopOfBag(u, m - multiset{y}, x);
    PopLast(u);
    assert u[..|u| - 1] == t[..|t| - 2];
  }

  /** Playing an ascending list whose top two are y and x gives the outcome of the bag after their round. */
  lemma PlayRound(t: seq<int>, rest: multiset<int>, y: int, x: int)
    requires Sorted(t) && |t| >= 2 && multiset(t[..|t| - 2]) == rest
    requires t[|t| - 1] == y && t[|t| - 2] == x
    ensures Play(t) == Outcome(Collide(rest, y, x))
  {
    SmashBag(t);
    SmashSorted(t);
    OutcomeOf(Smash(t));
  }

  /** The last of an ascending list is the largest element of its bag. */
  lemma TopOfBag(t: seq<int>, m: multiset<int>, y: int)
    requires Sorted(t) && multiset(t) == m
    requires y in m && forall z :: z in m ==> z <= y
    ensures |t| > 0 && t[|t| - 1] == y
  {
    assert forall z :: z in t ==> z in m;
    SortedTop(t, t, y);
  }

  /** A non-empty bag has a largest element: the last of its ascending order. */
  lemma BagTop(m: multiset<int>) returns (y: int)
    requires m != multiset{}
    ensures y in m && forall z :: z in m ==> z <= y
  {
    var t := Sort(SeqOf(m));
    SortSorted(SeqOf(m));
    SortedBagMax(t);
    y := t[|t| - 1];
  }

  /** A bag of one stone ends in that stone, an empty bag in 0. */
  lemma OutcomeSmall(m: multiset<int>, r: int)
    requires |m| <= 1 && (|m| == 1 ==> r in m)
    ensures Outcome(m) == if |m| == 0 then 0 else r
  {
    var t := Sort(SeqOf(m));
    assert multiset(t) == m;
    if |m| == 1 {
      assert r in multiset(t);
    }
  }

  /** The largest element of a list, read as a bag. */
  lemma SeqTop(s: seq<int>, v: int)
    requires v in s && forall i :: 0 <= i < |s| ==> s[i] <= v
    ensures v in multiset(s) && forall z :: z in multiset(s) ==> z <= v
  {
  }

  /** Each round lowers the total weight by twice the lighter stone's weight. */
  lemma RoundTotal(s: seq<int>)
    requires |s| >= 2
    ensures Sum(Smash(s)) == Sum(s) - 2 * s[|s| - 2]
  {
    SumLastTwo(s);
    SumRound(s[..|s| - 2], s[|s| - 1], s[|s| - 2]);
  }

  /** A round's stones weigh the rest plus the difference. */
  lemma SumRound(rest: seq<int>, y: int, x: int)
    ensures Sum(Round(rest, y, x)) == Sum(rest) + y - x
  {
    if x != y {
      SumInsort(rest, y - x);
    }
  }

  /** The total is the total of all but the last two, plus those two. */
  lemma SumLastTwo(s: seq<int>)
    requires |s| >= 2
    ensures Sum(s) == Sum(s[..|s| - 2]) + s[|s| - 2] + s[|s| - 1]
  {
    var n := |s|;
    var rest, x, y := s[..n - 2], s[n - 2], s[n - 1];
    assert s == rest + [x, y];
    SumAppend(rest, [x, y]);
    assert [x, y][1..] == [y];
    assert [y][1..] == [];
  }

  /** The last stone's weight has the parity of the total weight. */
  lemma {:induction false} PlayParity(s: seq<int>)
    ensures Play(s) % 2 == Sum(s) % 2
    decreases |s|
  {
    if |s| >= 2 {
      RoundTotal(s);
      PlayParity(Smash(s));
      EvenDrop(Sum(s), s[|s| - 2]);
    }
  }

  /** Taking away an even amount keeps the parity. */
  lemma EvenDrop(total: int, x: int)
    ensures (total - 2 * x) % 2 == total % 2
  {
  }

  /** In any order, the outcome has the parity of the stones' total weight. */
  lemma OutcomeParity(stones: seq<int>)
    ensures Outcome(multiset(stones)) % 2 == Sum(stones) % 2
  {
    SortSorted(stones);
    OutcomeOf(Sort(stones));
    PlayParity(Sort(stones));
    SumSort(stones);
  }

  /** Stones of non-negative weight end in nothing or in a stone no heavier than the heaviest one. */
  lemma {:induction false} PlayBounded(s: seq<int>)
    requires Sorted(s) && forall i :: 0 <= i < |s| ==> s[i] >= 0
    ensures Play(s) >= 0
    ensures |s| > 0 ==> Play(s) <= s[|s| - 1]
    decreases |s|
  {
    if |s| >= 2 {
      var r := Smash(s);
      SmashSorted(s);
      var y := s[|s| - 1];
      forall k | 0 <= k < |r| ensures 0 <= r[k] <= y {
        assert r[k] in multiset(r);
      }
      PlayBounded(r);
    }
  }

  /** Solution: pop the two heaviest off a max-heap and push back their difference. */
  method Heap(stones: seq<int>) returns (r: int)
    ensures r == Outcome(multiset(stones))
  {
    var maxHeap := multiset(stones);
    while |maxHeap| > 1
      invariant Outcome(maxHeap) == Outcome(multiset(stones))
      decreases |maxHeap|
    {
      ghost var m := maxHeap;
      var first, second;
      first, maxHeap := HeapPop(maxHeap);
      second, maxHeap := HeapPop(maxHeap);
      RoundOf(m, first, second);
      if first != second {
        maxHeap := maxHeap + multiset{first - second};
      }
    }
    if |maxHeap| == 0 {
      OutcomeSmall(maxHeap, 0);
      return 0;
    }
    r :| r in maxHeap;
    OutcomeSmall(maxHeap, r);
  }

  /** heapq.heappop on the negated weights: the heaviest stone, and the heap without it. */
  method HeapPop(h: multiset<int>) returns (v: int, rest: multiset<int>)
    requires |h| > 0
    ensures v in h && forall z :: z in h ==> z <= v
    ensures rest == h - multiset{v} && |rest| == |h| - 1
  {
    ghost var top := BagTop(h);
    v :| v in h && forall z :: z in h ==> z <= v;
    rest := h - multiset{v};
  }

  /** Solution2: sort the whole list every round and pop its two last stones. */
  method SortEveryRound(stones: seq<int>) returns (r: int)
    ensures r == Outcome(multiset(stones))
  {
    var s := stones;
    while |s| > 1
      invariant Outcome(multiset(s)) == Outcome(multiset(stones))
      decreases |s|
    {
      SortSorted(s);
      s := Sort(s);
      ghost var t := s;
      SmashSorted(t);
      OutcomeOf(t);
      OutcomeOf(Smash(t));
      var y := s[|s| - 1];
      var x := s[|s| - 2];
      s := s[..|s| - 2];
      SmashBag(t);
      if x != y {
        s := s + [y - x];
      }
    }
    if s == [] {
      return 0;
    }
    OutcomeOf(s);
    return s[0];
  }

  /** Solution3: sort once, then keep the list sorted by inserting each difference with insort. */
  method SortedInsert(stones: seq<int>) returns (r: int)
    ensures r == Outcome(multiset(stones))
  {
    var s := Sort(stones);
    SortSorted(stones);
    ghost var start := s;
    OutcomeOf(start);
    while |s| > 1
      invariant Sorted(s)
      invariant Play(s) == Play(start)
      decreases |s|
    {
      ghost var t := s;
      var y := s[|s| - 1];
      var x := s[|s| - 2];
      s := s[..|s| - 2];
      if x != y {
        s := Insort(s, y - x);
      }
      SmashIs(t, s);
      SmashSorted(t);
    }
    if s == [] {
      return 0;
    }
    return s[0];
  }

  /** Solution4: find the heaviest with max and index, pop it, and again for the next heaviest. */
  method MaxAndPop(stones: seq<int>) returns (r: int)
    ensures r == Outcome(multiset(stones))
  {
    var s := stones;
    while |s| > 1
      invariant Outcome(multiset(s)) == Outcome(multiset(stones))
      decreases |s|
    {
      ghost var m := multiset(s);
      var max1, max2;
      max1, s := PopHeaviest(s);
      max2, s := PopHeaviest(s);
      ghost var rest := multiset(s);
      if max1 != max2 {
        s := s + [max1 - max2];
      }
      assert multiset(s) == Collide(rest, max1, max2);
      RoundOf(m, max1, max2);
    }
    if s == [] {
      return 0;
    }
    OutcomeOf(s);
    return s[0];
  }

  /** s.pop(s.index(max(s))): the heaviest stone and the list without it. */
  method PopHeaviest(s: seq<int>) returns (v: int, t: seq<int>)
    requires |s| > 0
    ensures v in multiset(s) && forall z :: z in multiset(s) ==> z <= v
    ensures multiset(t) == multiset(s) - multiset{v} && |t| == |s| - 1
  {
    var i := PeakIndex.IndexOf(s, PeakIndex.Max(s));
    v := s[i];
    SeqTop(s, v);
    PopAt(s, i);
    t := s[..i] + s[i + 1..];
  }

  /** The driver's first case: 8 and 7 leave 1, 4 and 2 leave 2, 2 and 1 leave 1, 1 and 1 vanish. */
  lemma SampleMixed()
    ensures Outcome(multiset{2, 7, 4, 1, 8, 1}) == 1
  {
    PlayMixed();
    MixedSorted();
    MixedBag();
    OutcomeIs(multiset{2, 7, 4, 1, 8, 1}, [1, 1, 2, 4, 7, 8], 1);
  }

  /** The first case's stones in ascending order. */
  lemma MixedSorted()
    ensures Sorted([1, 1, 2, 4, 7, 8])
  {
  }

  /** The first case's stones, as a bag. */
  lemma MixedBag()
    ensures multiset([1, 1, 2, 4, 7, 8]) == multiset{2, 7, 4, 1, 8, 1}
  {
  }

  /** A bag whose ascending order plays to r has outcome r. */
  lemma OutcomeIs(m: multiset<int>, s: seq<int>, r: int)
    requires Sorted(s) && multiset(s) == m && Play(s) == r
    ensures Outcome(m) == r
  {
    OutcomeOf(s);
  }

  /** The rounds of the first case on its stones in ascending order. */
  lemma PlayMixed()
    ensures Play([1, 1, 2, 4, 7, 8]) == 1
  {
    MixedRound1();
    MixedRound2();
    MixedRound3();
    assert Smash([1, 1, 1]) == [1];
  }

  /** 8 and 7 leave 1, which goes in after the two 1s. */
  lemma MixedRound1()
    ensures Smash([1, 1, 2, 4, 7, 8]) == [1, 1, 1, 2, 4]
  {
    assert [1, 1, 2, 4, 7, 8][..4] == [1] + [1, 2, 4];
    InsortPast(1, [1, 2, 4], 1);
    InsortPast(1, [2, 4], 1);
  }

  /** 4 and 2 leave 2, which goes in last. */
  lemma MixedRound2()
    ensures Smash([1, 1, 1, 2, 4]) == [1, 1, 1, 2]
  {
    assert [1, 1, 1, 2, 4][..3] == [1] + [1, 1];
    InsortPast(1, [1, 1], 2);
    InsortPast(1, [1], 2);
    InsortPast(1, [], 2);
  }

  /** 2 and 1 leave 1, which goes in last. */
  lemma MixedRound3()
    ensures Smash([1, 1, 1, 2]) == [1, 1, 1]
  {
    assert [1, 1, 1, 2][..2] == [1] + [1];
    InsortPast(1, [1], 1);
    InsortPast(1, [], 1);
  }

  /** The driver's other cases: a single stone is the answer, two equal stones leave none. */
  lemma SampleSmall()
    ensures Outcome(multiset{1}) == 1
    ensures Outcome(multiset{2, 2}) == 0
  {
    assert Smash([2, 2]) == [];
    OutcomeIs(multiset{1}, [1], 1);
    OutcomeIs(multiset{2, 2}, [2, 2], 0);
  }
}

// Number of Students Unable to Eat Lunch: students queue, sandwiches are
// stacked; the front student takes the top sandwich if it is the kind they
// like, otherwise goes to the back. Serving stops when nobody in the line
// wants the top sandwich. Return how many students are left.
// Variants: two counters, a deque simulation, a Counter (a bag), a scan that
// marks served students, and a one-liner over suffixes.

module Lunch {
  import opened Sorting

  /**
   * The students left when the sandwiches sw are served to the bag of
   * preferences: the top sandwich goes to someone who wants it, and serving
   * stops at the first sandwich nobody left wants, or when none are left.
   */
  function Unfed(bag: multiset<int>, sw: seq<int>): (r: nat)
    ensures r <= |bag|
  {
    if sw == [] then |bag|
    else if bag[sw[0]] > 0 then Unfed(bag - multiset{sw[0]}, sw[1..])
    else |bag|
  }

  /**
   * Serving takes the longest prefix of the sandwiches the students can
   * cover: one copy per sandwich served, and the next one nobody wants.
   */
  lemma {:induction false} UnfedServesPrefix(bag: multiset<int>, sw: seq<int>) returns (j: nat)
    ensures j <= |sw| && multiset(sw[..j]) <= bag
    ensures j < |sw| ==> !(multiset(sw[..j + 1]) <= bag)
    ensures Unfed(bag, sw) == |bag| - j
  {
    if sw == [] {
      j := 0;
    } else if bag[sw[0]] == 0 {
      j := 0;
      PrefixBag(sw, 0);
      SubBagCons(multiset(sw[1..][..0]), bag, sw[0]);
    } else {
      var i := UnfedServesPrefix(bag - multiset{sw[0]}, sw[1..]);
      j := i + 1;
      PrefixFits(bag, sw, i, j);
    }
  }

  /** The top sandwich is wanted: the prefix served from the rest, plus the top one, is the prefix served from the whole. */
  lemma PrefixFits(bag: multiset<int>, sw: seq<int>, i: nat, j: nat)
    requires sw != [] && bag[sw[0]] > 0 && j == i + 1
    requires i <= |sw[1..]| && multiset(sw[1..][..i]) <= bag - multiset{sw[0]}
    requires i < |sw[1..]| ==> !(multiset(sw[1..][..i + 1]) <= bag - multiset{sw[0]})
    requires Unfed(bag - multiset{sw[0]}, sw[1..]) == |bag - multiset{sw[0]}| - i
    ensures j <= |sw| && multiset(sw[..j]) <= bag
    ensures j < |sw| ==> !(multiset(sw[..j + 1]) <= bag)
    ensures Unfed(bag, sw) == |bag| - j
  {
    PrefixBag(sw, i);
    SubBagCons(multiset(sw[1..][..i]), bag, sw[0]);
    if j < |sw| {
      PrefixBag(sw, j);
      SubBagCons(multiset(sw[1..][..j]), bag, sw[0]);
    }
  }

  /** Adding one v to m fits in bag exactly when m fits in bag less one v, and bag holds a v. */
  lemma SubBagCons(m: multiset<int>, bag: multiset<int>, v: int)
    ensures multiset{v} + m <= bag <==> v in bag && m <= bag - multiset{v}
  {
    if multiset{v} + m <= bag {
      assert (multiset{v} + m)[v] >= 1;
      forall x ensures m[x] <= (bag - multiset{v})[x] {
        assert (multiset{v} + m)[x] <= bag[x];
      }
    }
  }

  /** The first i + 1 sandwiches are the top one and the next i. */
  lemma PrefixBag(sw: seq<int>, i: nat)
    requires i < |sw|
    ensures multiset(sw[..i + 1]) == multiset{sw[0]} + multiset(sw[1..][..i])
  {
    assert sw[..i + 1] == [sw[0]] + sw[1..][..i];
  }

  /** Someone left wants the next sandwich: they take it and serving goes on. */
  lemma UnfedServe(bag: multiset<int>, sw: seq<int>, next: int)
    requires 0 <= next < |sw| && bag[sw[next]] > 0
    ensures Unfed(bag, sw[next..]) == Unfed(bag - multiset{sw[next]}, sw[next + 1..])
  {
    assert sw[next..][1..] == sw[next + 1..];
  }

  /** Nobody left wants the next sandwich: everyone left stays unfed. */
  lemma UnfedNobody(bag: multiset<int>, sw: seq<int>, next: int)
    requires 0 <= next < |sw| && bag[sw[next]] == 0
    ensures Unfed(bag, sw[next..]) == |bag|
  {
  }

  /** Every preference is 0 (circular) or 1 (square). */
  ghost predicate Binary(s: seq<int>) {
    forall i :: 0 <= i < |s| ==> s[i] == 0 || s[i] == 1
  }

  /** A bag of 0s and 1s is as large as its 0s and 1s together. */
  lemma {:induction false} BinaryBag(m: multiset<int>)
    requires forall x :: x in m ==> x == 0 || x == 1
    ensures |m| == m[0] + m[1]
    decreases |m|
  {
    if m != multiset{} {
      var x := Pick(m);
      BinaryBag(m - multiset{x});
    }
  }

  /** Solution: count both preferences, then serve from the counts. */
  method Counting(students: seq<int>, sandwiches: seq<int>) returns (r: nat)
    requires Binary(students) && Binary(sandwiches)
    ensures r == Unfed(multiset(students), sandwiches)
  {
    var circular, square := 0, 0;
    for i := 0 to |students|
      invariant circular == multiset(students[..i])[0]
      invariant square == multiset(students[..i])[1]
    {
      assert students[..i + 1] == students[..i] + [students[i]];
      if students[i] == 0 {
        circular := circular + 1;
      } else {
        square := square + 1;
      }
    }
    assert students[..|students|] == students;
    ghost var bag := multiset(students);
    for i := 0 to |sandwiches|
      invariant forall x :: x in bag ==> x == 0 || x == 1
      invariant circular == bag[0] && square == bag[1]
      invariant Unfed(bag, sandwiches[i..]) == Unfed(multiset(students), sandwiches)
    {
      if sandwiches[i] == 0 {
        if circular > 0 {
          circular := circular - 1;
        } else {
          UnfedNobody(bag, sandwiches, i);
          break;
        }
      } else {
        if square > 0 {
          square := square - 1;
        } else {
          UnfedNobody(bag, sandwiches, i);
          break;
        }
      }
      UnfedServe(bag, sandwiches, i);
      bag := bag - multiset{sandwiches[i]};
    }
    BinaryBag(bag);
    r := circular + square;
  }

  /** countStudents_simulation: rotate the line until the front student takes the top sandwich or everyone has refused it. */
  method Simulation(students: seq<int>, sandwiches: seq<int>) returns (r: nat)
    ensures r == Unfed(multiset(students), sandwiches)
  {
    var queue := students;
    var next := 0;
    var noMatch := 0;
    while queue != [] && next < |sandwiches|
      invariant next <= |sandwiches|
      invariant Unfed(multiset(queue), sandwiches[next..]) == Unfed(multiset(students), sandwiches)
      invariant queue == [] ==> noMatch == 0
      invariant queue != [] ==> noMatch < |queue|
      invariant next < |sandwiches| ==> Refused(queue, noMatch, sandwiches[next])
      decreases |sandwiches| - next, |queue| - noMatch
    {
      if queue[0] == sandwiches[next] {
        ServeFront(queue, sandwiches, next);
        queue := queue[1..];
        next := next + 1;
        noMatch := 0;
      } else {
        RotateFront(queue, noMatch, sandwiches[next]);
        queue := queue[1..] + [queue[0]];
        noMatch := noMatch + 1;
        if noMatch == |queue| {
          NobodyWants(queue, sandwiches[next]);
          break;
        }
      }
    }
    r := |queue|;
  }

  /** The last k students in the line have each refused sandwich v. */
  ghost predicate Refused(queue: seq<int>, k: int, v: int) {
    forall t :: 0 <= t < |queue| && |queue| - k <= t ==> queue[t] != v
  }

  /** The front student takes the top sandwich: the rest of the line faces the rest of the stack. */
  lemma ServeFront(queue: seq<int>, sw: seq<int>, next: int)
    requires queue != [] && 0 <= next < |sw| && queue[0] == sw[next]
    ensures Unfed(multiset(queue), sw[next..]) == Unfed(multiset(queue[1..]), sw[next + 1..])
  {
    assert queue == [queue[0]] + queue[1..];
    assert multiset(queue) - multiset{sw[next]} == multiset(queue[1..]);
    assert sw[next..][1..] == sw[next + 1..];
  }

  /** The front student refuses v and goes to the back: the line keeps its bag and one more refusal. */
  lemma RotateFront(queue: seq<int>, k: int, v: int)
    requires queue != [] && 0 <= k < |queue| && queue[0] != v && Refused(queue, k, v)
    ensures multiset(queue[1..] + [queue[0]]) == multiset(queue)
    ensures Refused(queue[1..] + [queue[0]], k + 1, v)
  {
    assert queue == [queue[0]] + queue[1..];
  }

  /** When no one in the line wants the top sandwich, everyone in it stays unfed. */
  lemma NobodyWants(queue: seq<int>, v: int)
    requires forall t :: 0 <= t < |queue| ==> queue[t] != v
    ensures multiset(queue)[v] == 0
  {
  }

  /** countStudents_counter: a Counter is a bag; serve from it and return how many are left in it. */
  method CounterBag(students: seq<int>, sandwiches: seq<int>) returns (r: nat)
    ensures r == Unfed(multiset(students), sandwiches)
  {
    var count := multiset(students);
    for i := 0 to |sandwiches|
      invariant Unfed(count, sandwiches[i..]) == Unfed(multiset(students), sandwiches)
    {
      if count[sandwiches[i]] > 0 {
        UnfedServe(count, sandwiches, i);
        assert count[sandwiches[i] := count[sandwiches[i]] - 1] == count - multiset{sandwiches[i]};
        count := count[sandwiches[i] := count[sandwiches[i]] - 1];
      } else {
        UnfedNobody(count, sandwiches, i);
        break;
      }
    }
    r := |count|;
  }

  /** The preferences of the students not yet served. */
  function Untaken(students: seq<int>, taken: seq<bool>): multiset<int>
    requires |taken| == |students|
  {
    if students == [] then multiset{}
    else
      var n := |students| - 1;
      Untaken(students[..n], taken[..n]) + Waiter(students[n], taken[n])
  }

  /** One student's preference while they wait, nothing once served. */
  function Waiter(x: int, served: bool): multiset<int> {
    if served then multiset{} else multiset{x}
  }

  /** [False] * n: nobody served yet. */
  function NoneServed(n: nat): (r: seq<bool>)
    ensures |r| == n
  {
    if n == 0 then [] else NoneServed(n - 1) + [false]
  }

  /** Before anyone is served, every student is waiting. */
  lemma {:induction false} UntakenNone(students: seq<int>)
    ensures Untaken(students, NoneServed(|students|)) == multiset(students)
  {
    if students != [] {
      var n := |students| - 1;
      assert NoneServed(|students|)[..n] == NoneServed(n);
      UntakenNone(students[..n]);
      assert students == students[..n] + [students[n]];
    }
  }

  /** Serving student i removes one copy of their preference. */
  lemma {:induction false} UntakenTake(students: seq<int>, taken: seq<bool>, i: int)
    requires |taken| == |students| && 0 <= i < |students| && !taken[i]
    ensures students[i] in Untaken(students, taken)
    ensures Untaken(students, taken[i := true]) == Untaken(students, taken) - multiset{students[i]}
    ensures |Untaken(students, taken[i := true])| == |Untaken(students, taken)| - 1
  {
    UntakenServe(students, taken, taken[i := true], i);
  }

  /** t is taken with place i, a waiting one, served as well. */
  lemma {:induction false} UntakenServe(students: seq<int>, taken: seq<bool>, t: seq<bool>, i: int)
    requires |taken| == |students| == |t| && 0 <= i < |students| && !taken[i] && t[i]
    requires forall j :: 0 <= j < |t| && j != i ==> t[j] == taken[j]
    ensures students[i] in Untaken(students, taken)
    ensures Untaken(students, t) == Untaken(students, taken) - multiset{students[i]}
  {
    var n := |students| - 1;
    var x, a, w := students[i], Untaken(students[..n], taken[..n]), Waiter(students[n], taken[n]);
    if i < n {
      UntakenServe(students[..n], taken[..n], t[..n], i);
      assert students[..n][i] == x;
      BagShuffle(a, w, x);
    } else {
      assert t[..n] == taken[..n];
    }
  }

  /** Removing x before or after adding a bag that x was already in. */
  lemma BagShuffle(a: multiset<int>, b: multiset<int>, x: int)
    requires x in a
    ensures x in a + b
    ensures (a - multiset{x}) + b == (a + b) - multiset{x}
  {
  }

  /** Nobody waiting in the first i places wants v. */
  lemma {:induction false} UntakenMiss(students: seq<int>, taken: seq<bool>, v: int)
    requires |taken| == |students|
    requires forall k :: 0 <= k < |students| ==> taken[k] || students[k] != v
    ensures Untaken(students, taken)[v] == 0
  {
    if students != [] {
      var n := |students| - 1;
      UntakenMiss(students[..n], taken[..n], v);
    }
  }

  /** One more place: the waiting students of a longer prefix. */
  lemma UntakenStep(students: seq<int>, taken: seq<bool>, i: int)
    requires |taken| == |students| && 0 <= i < |students|
    ensures Untaken(students[..i + 1], taken[..i + 1])
      == Untaken(students[..i], taken[..i]) + Waiter(students[i], taken[i])
  {
    assert students[..i + 1][..i] == students[..i] && taken[..i + 1][..i] == taken[..i];
  }

  /** The first waiting student from place j on who wants v, or |students| when there is none. */
  function FirstWanting(students: seq<int>, taken: seq<bool>, v: int, j: nat): (r: nat)
    requires |taken| == |students| && j <= |students|
    ensures j <= r <= |students|
    ensures r < |students| ==> !taken[r] && students[r] == v
    decreases |students| - j
  {
    if j == |students| then j
    else if !taken[j] && students[j] == v then j
    else FirstWanting(students, taken, v, j + 1)
  }

  /** Every waiting student FirstWanting passes over refuses v. */
  lemma {:induction false} FirstWantingSkips(students: seq<int>, taken: seq<bool>, v: int, j: nat)
    requires |taken| == |students| && j <= |students|
    ensures forall k :: j <= k < FirstWanting(students, taken, v, j) ==> taken[k] || students[k] != v
    decreases |students| - j
  {
    if j < |students| && (taken[j] || students[j] != v) {
      FirstWantingSkips(students, taken, v, j + 1);
    }
  }

  /**
   * countStudents_optimized_simulation as written: each round scans the
   * waiting students in index order for one who wants the top sandwich, and
   * stops when the students it skipped equal those still waiting, a test it
   * also makes after a student was served.
   */
  function Scan(students: seq<int>, sw: seq<int>, taken: seq<bool>, next: nat, remaining: nat): (r: nat)
    requires |taken| == |students| && next <= |sw|
    ensures r <= remaining && remaining <= r + (|sw| - next)
    decreases remaining
  {
    if next == |sw| || remaining == 0 then remaining
    else
      var i := FirstWanting(students, taken, sw[next], 0);
      if i == |students| then remaining
      else if |Untaken(students[..i], taken[..i])| == remaining - 1 then remaining - 1
      else Scan(students, sw, taken[i := true], next + 1, remaining - 1)
  }

  /**
   * The inner for loop of countStudents_optimized_simulation: walk past the
   * served students and those who do not want v, counting the latter, up to
   * the first one who does.
   */
  method SkipRefusing(students: seq<int>, taken: seq<bool>, v: int) returns (at: nat, skipped: nat)
    requires |taken| == |students|
    ensures at == FirstWanting(students, taken, v, 0)
    ensures skipped == |Untaken(students[..at], taken[..at])|
  {
    at, skipped := 0, 0;
    while at < |students| && (taken[at] || students[at] != v)
      invariant at <= |students|
      invariant FirstWanting(students, taken, v, at) == FirstWanting(students, taken, v, 0)
      invariant skipped == |Untaken(students[..at], taken[..at])|
    {
      UntakenStep(students, taken, at);
      if !taken[at] {
        skipped := skipped + 1;
      }
      at := at + 1;
    }
  }

  /** A round in which nobody wants the top sandwich ends the scan. */
  lemma ScanNobody(students: seq<int>, sw: seq<int>, taken: seq<bool>, next: nat, remaining: nat)
    requires |taken| == |students| && next < |sw| && remaining > 0
    requires FirstWanting(students, taken, sw[next], 0) == |students|
    ensures Scan(students, sw, taken, next, remaining) == remaining
  {
  }

  /**
   * A round in which student at is served after skipping the given number of
   * waiting students: the scan stops, or goes on from the new state.
   */
  lemma ScanServe(students: seq<int>, sw: seq<int>, taken: seq<bool>, next: nat, remaining: nat, at: nat, skipped: nat,
                  taken': seq<bool>, next': nat, remaining': nat)
    requires |taken| == |students| && next < |sw| && remaining > 0
    requires at == FirstWanting(students, taken, sw[next], 0) < |students|
    requires skipped == |Untaken(students[..at], taken[..at])|
    requires taken' == taken[at := true] && next' == next + 1 && remaining' == remaining - 1
    ensures skipped == remaining' ==> Scan(students, sw, taken, next, remaining) == remaining'
    ensures skipped != remaining' ==> Scan(students, sw, taken, next, remaining) == Scan(students, sw, taken', next', remaining')
  {
  }

  /**
   * One pass of the outer loop of countStudents_optimized_simulation: scan
   * for a student who wants the top sandwich, serve them, and report whether
   * the skipped count now equals the students still waiting.
   */
  method ScanPass(students: seq<int>, sandwiches: seq<int>, taken: seq<bool>, next: nat, remaining: nat)
    returns (taken': seq<bool>, next': nat, remaining': nat, stop: bool)
    requires |taken| == |students| && next < |sandwiches| && remaining > 0
    requires remaining == |Untaken(students, taken)|
    ensures |taken'| == |students| && next' <= |sandwiches| && remaining' == |Untaken(students, taken')|
    ensures stop ==> Scan(students, sandwiches, taken, next, remaining) == remaining'
    ensures !stop ==> remaining' < remaining && Scan(students, sandwiches, taken, next, remaining) == Scan(students, sandwiches, taken', next', remaining')
  {
    var at, skipped := SkipRefusing(students, taken, sandwiches[next]);
    taken', next', remaining' := taken, next, remaining;
    if at < |students| {
      UntakenTake(students, taken, at);
      taken' := taken[at := true];
      next' := next + 1;
      remaining' := remaining - 1;
      ScanServe(students, sandwiches, taken, next, remaining, at, skipped, taken', next', remaining');
      stop := skipped == remaining';
    } else {
      ScanNobody(students, sandwiches, taken, next, remaining);
      assert students[..at] == students && taken[..at] == taken;
      stop := skipped == remaining';
    }
  }

  /** countStudents_optimized_simulation as written computes Scan. */
  method OptimizedAsWritten(students: seq<int>, sandwiches: seq<int>) returns (r: nat)
    ensures r == Scan(students, sandwiches, NoneServed(|students|), 0, |students|)
  {
    var n := |students|;
    var taken := NoneServed(n);
    UntakenNone(students);
    ghost var outcome := Scan(students, sandwiches, taken, 0, n);
    var next: nat := 0;
    var remaining: nat := n;
    while next < |sandwiches| && remaining > 0
      invariant |taken| == n && next <= |sandwiches| && remaining == |Untaken(students, taken)|
      invariant Scan(students, sandwiches, taken, next, remaining) == outcome
      decreases remaining
    {
      var stop;
      taken, next, remaining, stop := ScanPass(students, sandwiches, taken, next, remaining);
      if stop {
        break;
      }
    }
    return remaining;
  }

  /** The students [1, 0] with sandwiches [0, 1] all eat, but the method as written leaves one. */
  lemma OptimizedCounterexample()
    ensures Unfed(multiset([1, 0]), [0, 1]) == 0
    ensures Scan([1, 0], [0, 1], NoneServed(2), 0, 2) == 1
  {
    var f := NoneServed(2);
    assert f == [false, false];
    assert multiset([1, 0]) - multiset{0} == multiset{1};
    assert FirstWanting([1, 0], f, 0, 0) == 1;
    assert [1, 0][..1] == [1] && f[..1] == [false] && [1][..0] == [];
    assert |Untaken([1], [false])| == 1;
  }

  /** Serving the waiting student at, who wants the next sandwich, moves on to the sandwich after it. */
  lemma UnfedTake(students: seq<int>, sw: seq<int>, taken: seq<bool>, next: int, at: int, taken': seq<bool>, next': int)
    requires |taken| == |students| && 0 <= next < |sw| && 0 <= at < |students|
    requires !taken[at] && students[at] == sw[next]
    requires taken' == taken[at := true] && next' == next + 1
    ensures |Untaken(students, taken')| == |Untaken(students, taken)| - 1
    ensures Unfed(Untaken(students, taken), sw[next..]) == Unfed(Untaken(students, taken'), sw[next'..])
  {
    UntakenTake(students, taken, at);
    UnfedServe(Untaken(students, taken), sw, next);
  }

  /** One pass of the corrected scan: serve the first waiting student who wants the top sandwich, or stop if there is none. */
  method ServePass(students: seq<int>, sandwiches: seq<int>, taken: seq<bool>, next: nat, remaining: nat)
    returns (taken': seq<bool>, next': nat, remaining': nat, stop: bool)
    requires |taken| == |students| && next < |sandwiches| && remaining == |Untaken(students, taken)|
    ensures |taken'| == |students| && next' <= |sandwiches| && remaining' == |Untaken(students, taken')|
    ensures stop ==> Unfed(Untaken(students, taken), sandwiches[next..]) == remaining'
    ensures !stop ==> remaining' < remaining
    ensures !stop ==> Unfed(Untaken(students, taken), sandwiches[next..]) == Unfed(Untaken(students, taken'), sandwiches[next'..])
  {
    var at, skipped := SkipRefusing(students, taken, sandwiches[next]);
    if at == |students| {
      FirstWantingSkips(students, taken, sandwiches[next], 0);
      UntakenMiss(students, taken, sandwiches[next]);
      UnfedNobody(Untaken(students, taken), sandwiches, next);
      return taken, next, remaining, true;
    }
    taken' := taken[at := true];
    next' := next + 1;
    UnfedTake(students, sandwiches, taken, next, at, taken', next');
    remaining' := remaining - 1;
    stop := false;
  }

  /** The scan with the stop test made only when nobody took the sandwich, that is when every waiting student was skipped. */
  method Optimized(students: seq<int>, sandwiches: seq<int>) returns (r: nat)
    ensures r == Unfed(multiset(students), sandwiches)
  {
    var n := |students|;
    var taken := NoneServed(n);
    UntakenNone(students);
    var next: nat := 0;
    var remaining: nat := n;
    while next < |sandwiches| && remaining > 0
      invariant |taken| == n && next <= |sandwiches| && remaining == |Untaken(students, taken)|
      invariant Unfed(Untaken(students, taken), sandwiches[next..]) == Unfed(multiset(students), sandwiches)
      decreases remaining
    {
      var stop;
      taken, next, remaining, stop := ServePass(students, sandwiches, taken, next, remaining);
      if stop {
        break;
      }
    }
    return remaining;
  }

  /** countStudents_one_liner as written: the first sandwich no student from the same place on wants decides. */
  function OneLiner(students: seq<int>, sandwiches: seq<int>, i: nat): (r: nat)
    requires i <= |sandwiches|
    ensures r <= |sandwiches| - i
    ensures r == 0 <==> forall j :: i <= j < |sandwiches| ==> j < |students| && sandwiches[j] in students[j..]
    ensures r > 0 ==> var k := |sandwiches| - r; i <= k && (k >= |students| || sandwiches[k] !in students[k..])
    decreases |sandwiches| - i
  {
    if i == |sandwiches| then 0
    else if multiset(if i <= |students| then students[i..] else [])[sandwiches[i]] == 0 then |sandwiches| - i
    else OneLiner(students, sandwiches, i + 1)
  }

  /** The students [0, 1] with sandwiches [1, 0] all eat, but the one-liner leaves one. */
  lemma OneLinerCounterexample()
    ensures Unfed(multiset([0, 1]), [1, 0]) == 0
    ensures OneLiner([0, 1], [1, 0], 0) == 1
  {
    assert multiset([0, 1]) - multiset{1} == multiset{0};
    assert [0, 1][1..] == [1];
    assert [1, 0][1..] == [0];
  }
}

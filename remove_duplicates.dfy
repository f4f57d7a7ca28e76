// Remove Duplicates from Sorted List: unlink nodes so that each value of a
// sorted list appears once. Three loops keep the first node of every run of
// equal values (comparing with the next node, with a trailing pointer, or with
// a set of values seen so far); the recursion keeps the last node of every run.
// A result is described as the input's nodes selected by a mask.

module RemoveDuplicates {
  import opened LinkedList

  /** The elements among the first n of s whose mask entry is true, in order. */
  function Kept<T>(s: seq<T>, keep: seq<bool>, n: int): (r: seq<T>)
    requires |keep| == |s| && 0 <= n <= |s|
    ensures |r| <= n
    decreases n
  {
    if n == 0 then [] else Kept(s, keep, n - 1) + (if keep[n - 1] then [s[n - 1]] else [])
  }

  /** The elements from position lo on of s whose mask entry is true, in order. */
  function KeptFrom<T>(s: seq<T>, keep: seq<bool>, lo: int): (r: seq<T>)
    requires |keep| == |s| && 0 <= lo <= |s|
    ensures |r| <= |s| - lo
    decreases |s| - lo
  {
    if lo == |s| then [] else (if keep[lo] then [s[lo]] else []) + KeptFrom(s, keep, lo + 1)
  }

  /** The elements of s whose mask entry is true, in order. */
  function Select<T>(s: seq<T>, keep: seq<bool>): seq<T>
    requires |keep| == |s|
  {
    Kept(s, keep, |s|)
  }

  /** A selection among the first n takes only elements found there. */
  lemma {:induction false} KeptIn<T>(s: seq<T>, keep: seq<bool>, n: int)
    requires |keep| == |s| && 0 <= n <= |s|
    ensures forall i :: 0 <= i < |Kept(s, keep, n)| ==> Kept(s, keep, n)[i] in s[..n]
    decreases n
  {
    if n > 0 {
      KeptIn(s, keep, n - 1);
      assert s[..n] == s[..n - 1] + [s[n - 1]];
    }
  }

  /** A selection from position lo on takes only elements found there. */
  lemma {:induction false} KeptFromIn<T>(s: seq<T>, keep: seq<bool>, lo: int)
    requires |keep| == |s| && 0 <= lo <= |s|
    ensures forall i :: 0 <= i < |KeptFrom(s, keep, lo)| ==> KeptFrom(s, keep, lo)[i] in s[lo..]
    decreases |s| - lo
  {
    if lo < |s| {
      KeptFromIn(s, keep, lo + 1);
      assert s[lo..] == [s[lo]] + s[lo + 1..];
    }
  }

  /** The front and back selections meet: whatever the split point, the first
      n positions followed by the rest select the whole. */
  lemma {:induction false} KeptSplit<T>(s: seq<T>, keep: seq<bool>, n: int)
    requires |keep| == |s| && 0 <= n <= |s|
    ensures Kept(s, keep, n) + KeptFrom(s, keep, n) == KeptFrom(s, keep, 0)
    decreases n
  {
    if n > 0 {
      KeptSplit(s, keep, n - 1);
      var x := if keep[n - 1] then [s[n - 1]] else [];
      assert Kept(s, keep, n - 1) + x + KeptFrom(s, keep, n)
          == Kept(s, keep, n - 1) + (x + KeptFrom(s, keep, n));
    }
  }

  /** The values of a concatenation are the concatenated values. */
  lemma ValuesConcat(a: seq<ListNode>, b: seq<ListNode>)
    ensures Values(a + b) == Values(a) + Values(b)
  {
    assert forall i :: 0 <= i < |a + b| ==> Values(a + b)[i] == (Values(a) + Values(b))[i];
  }

  /** The values of the selected nodes are the selected values. */
  lemma {:induction false} ValuesKept(nodes: seq<ListNode>, keep: seq<bool>, n: int)
    requires |keep| == |nodes| && 0 <= n <= |nodes|
    ensures Values(Kept(nodes, keep, n)) == Kept(Values(nodes), keep, n)
    decreases n
  {
    if n > 0 {
      ValuesKept(nodes, keep, n - 1);
      var a, b := Kept(nodes, keep, n - 1), if keep[n - 1] then [nodes[n - 1]] else [];
      ValuesConcat(a, b);
      assert Values(b) == if keep[n - 1] then [Values(nodes)[n - 1]] else [];
    }
  }

  /** The first element of every run of equal values. */
  function RunStarts(vs: seq<int>): (m: seq<bool>)
    ensures |m| == |vs|
  {
    seq(|vs|, i requires 0 <= i < |vs| => i == 0 || vs[i] != vs[i - 1])
  }

  /** The last element of every run of equal values. */
  function RunEnds(vs: seq<int>): (m: seq<bool>)
    ensures |m| == |vs|
  {
    seq(|vs|, i requires 0 <= i < |vs| => i == |vs| - 1 || vs[i] != vs[i + 1])
  }

  /** The elements whose value did not occur earlier. */
  function FirstSeen(vs: seq<int>): (m: seq<bool>)
    ensures |m| == |vs|
  {
    seq(|vs|, i requires 0 <= i < |vs| => vs[i] !in vs[..i])
  }

  /** keep marks the positions that start a run of equal values: the first
      one and every one whose value differs from its predecessor's. */
  predicate MarksRunStarts(vs: seq<int>, keep: seq<bool>) {
    |keep| == |vs| &&
    forall k {:trigger keep[k]} :: 0 <= k < |vs| ==> (keep[k] <==> k == 0 || vs[k] != vs[k - 1])
  }

  /** keep marks the positions whose value occurs at no earlier position. */
  predicate MarksFirstSeen(vs: seq<int>, keep: seq<bool>) {
    |keep| == |vs| &&
    forall k {:trigger keep[k]} :: 0 <= k < |vs| ==> (keep[k] <==> vs[k] !in Earlier(vs, k))
  }

  /** The values at positions before j. */
  function Earlier(vs: seq<int>, j: int): set<int>
    requires 0 <= j <= |vs|
  {
    set i | 0 <= i < j :: vs[i]
  }

  /** The run-start mask is exactly RunStarts. */
  lemma RunStartsMarks(vs: seq<int>, keep: seq<bool>)
    ensures MarksRunStarts(vs, keep) <==> keep == RunStarts(vs)
  {
    if MarksRunStarts(vs, keep) {
      var m := RunStarts(vs);
      forall k | 0 <= k < |vs| ensures keep[k] == m[k] {
      }
    }
  }

  /** The first-occurrence mask is exactly FirstSeen. */
  lemma FirstSeenMarks(vs: seq<int>, keep: seq<bool>)
    ensures MarksFirstSeen(vs, keep) <==> keep == FirstSeen(vs)
  {
    var m := FirstSeen(vs);
    forall k | 0 <= k < |vs| ensures m[k] <==> vs[k] !in Earlier(vs, k) {
      if vs[k] in vs[..k] {
        var i :| 0 <= i < k && vs[..k][i] == vs[k];
        assert vs[i] in Earlier(vs, k);
      }
      if vs[k] in Earlier(vs, k) {
        var i :| 0 <= i < k && vs[i] == vs[k];
        assert vs[..k][i] == vs[k];
      }
    }
    if MarksFirstSeen(vs, keep) {
      forall k | 0 <= k < |vs| ensures keep[k] == m[k] {
      }
    }
  }

  /** The reference result: the values with every run of equal values
      collapsed to one. */
  function Dedup(vs: seq<int>): (r: seq<int>)
    ensures |r| <= |vs|
    ensures vs != [] ==> r != [] && r[|r| - 1] == vs[|vs| - 1]
    ensures forall i :: 0 <= i < |r| - 1 ==> r[i] != r[i + 1]
  {
    if vs == [] then []
    else
      var n := |vs| - 1;
      var d := Dedup(vs[..n]);
      if n > 0 && vs[n - 1] == vs[n] then d else d + [vs[n]]
  }

  /** The reference result holds exactly the input's values: every value it
      holds occurs in the input and every input value is held. */
  lemma {:induction false} DedupValues(vs: seq<int>)
    ensures forall i :: 0 <= i < |Dedup(vs)| ==> Dedup(vs)[i] in vs
    ensures forall i :: 0 <= i < |vs| ==> vs[i] in Dedup(vs)
    decreases |vs|
  {
    if vs != [] {
      var n := |vs| - 1;
      DedupValues(vs[..n]);
      var d := Dedup(vs[..n]);
      assert vs == vs[..n] + [vs[n]];
      forall i | 0 <= i < |Dedup(vs)| ensures Dedup(vs)[i] in vs {
        if i < |d| {
          assert d[i] in vs[..n];
        }
      }
      forall i | 0 <= i < |vs| ensures vs[i] in Dedup(vs) {
        if i < n {
          assert vs[..n][i] in d;
        } else if n > 0 && vs[n - 1] == vs[n] {
          assert vs[..n][n - 1] in d;
        }
      }
    }
  }

  predicate Sorted(vs: seq<int>) {
    forall i, j :: 0 <= i < j < |vs| ==> vs[i] <= vs[j]
  }

  /** On sorted values the result is strictly increasing. */
  lemma {:induction false} DedupIncreasing(vs: seq<int>)
    requires Sorted(vs)
    ensures forall i, j :: 0 <= i < j < |Dedup(vs)| ==> Dedup(vs)[i] < Dedup(vs)[j]
    decreases |vs|
  {
    if vs != [] {
      var n := |vs| - 1;
      assert Sorted(vs[..n]);
      DedupIncreasing(vs[..n]);
      var d := Dedup(vs[..n]);
      if n > 0 {
        DedupValues(vs[..n]);
        assert forall i :: 0 <= i < |d| ==> d[i] <= vs[n - 1] by {
          forall i | 0 <= i < |d| ensures d[i] <= vs[n - 1] {
            var x := d[i];
            assert x in vs[..n];
          }
        }
      }
    }
  }

  /** Keeping the first node of every run of the first n values gives their
      reference result. */
  lemma {:induction false} RunStartsPrefix(vs: seq<int>, n: int)
    requires 0 <= n <= |vs|
    ensures Kept(vs, RunStarts(vs), n) == Dedup(vs[..n])
    decreases n
  {
    if n > 0 {
      RunStartsPrefix(vs, n - 1);
      assert vs[..n][..n - 1] == vs[..n - 1];
    }
  }

  /** Keeping the first node of every run gives the reference result. */
  lemma RunStartsDedup(vs: seq<int>)
    ensures Select(vs, RunStarts(vs)) == Dedup(vs)
  {
    RunStartsPrefix(vs, |vs|);
    assert vs[..|vs|] == vs;
  }

  /** Keeping the last node of every run among the first n - 1 values, and
      then value n - 1, gives the reference result of the first n. */
  lemma {:induction false} RunEndsPrefix(vs: seq<int>, n: int)
    requires 1 <= n <= |vs|
    ensures Kept(vs, RunEnds(vs), n - 1) + [vs[n - 1]] == Dedup(vs[..n])
    decreases n
  {
    if n > 1 {
      RunEndsPrefix(vs, n - 1);
      assert vs[..n][..n - 1] == vs[..n - 1];
    } else {
      assert vs[..1][..0] == [];
    }
  }

  /** Keeping the last node of every run gives the same values. */
  lemma RunEndsDedup(vs: seq<int>)
    ensures Select(vs, RunEnds(vs)) == Dedup(vs)
  {
    if vs != [] {
      RunEndsPrefix(vs, |vs|);
      assert vs[..|vs|] == vs;
    }
  }

  /** On sorted values an element's value occurred earlier exactly when it
      equals its predecessor. */
  lemma FirstSeenAt(vs: seq<int>, i: int)
    requires Sorted(vs) && 0 <= i < |vs|
    ensures FirstSeen(vs)[i] == RunStarts(vs)[i]
  {
    if vs[i] in vs[..i] {
      var k :| 0 <= k < i && vs[..i][k] == vs[i];
      assert vs[k] <= vs[i - 1] <= vs[i];
    } else if i > 0 {
      assert vs[..i][i - 1] == vs[i - 1];
    }
  }

  /** On sorted values the set mask is the first-of-run mask. */
  lemma FirstSeenRunStarts(vs: seq<int>)
    requires Sorted(vs)
    ensures FirstSeen(vs) == RunStarts(vs)
  {
    forall i | 0 <= i < |vs| ensures FirstSeen(vs)[i] == RunStarts(vs)[i] {
      FirstSeenAt(vs, i);
    }
  }

  /** On sorted values, keeping each value's first occurrence gives the
      reference result too. */
  lemma FirstSeenDedup(vs: seq<int>)
    requires Sorted(vs)
    ensures Select(vs, FirstSeen(vs)) == Dedup(vs)
  {
    FirstSeenRunStarts(vs);
    RunStartsDedup(vs);
  }

  /** The reference result grows at the back one value at a time. */
  lemma DedupSnoc(vs: seq<int>, x: int)
    ensures Dedup(vs + [x]) == if vs != [] && vs[|vs| - 1] == x then Dedup(vs) else Dedup(vs) + [x]
  {
    assert (vs + [x])[..|vs|] == vs;
  }

  /** [1,1,2] gives [1,2]. */
  lemma SampleOne()
    ensures Dedup([1, 1, 2]) == [1, 2]
  {
    DedupSnoc([], 1);
    assert [] + [1] == [1];
    DedupSnoc([1], 1);
    assert [1] + [1] == [1, 1];
    DedupSnoc([1, 1], 2);
    assert [1, 1] + [2] == [1, 1, 2];
  }

  /** [1,1,2,3,3] gives [1,2,3]. */
  lemma SampleTwo()
    ensures Dedup([1, 1, 2, 3, 3]) == [1, 2, 3]
  {
    SampleOne();
    DedupSnoc([1, 1, 2], 3);
    assert [1, 1, 2] + [3] == [1, 1, 2, 3];
    DedupSnoc([1, 1, 2, 3], 3);
    assert [1, 1, 2, 3] + [3] == [1, 1, 2, 3, 3];
  }

  /** [1,1,1] gives [1]. */
  lemma SampleThree()
    ensures Dedup([1, 1, 1]) == [1]
  {
    DedupSnoc([], 1);
    assert [] + [1] == [1];
    DedupSnoc([1], 1);
    assert [1] + [1] == [1, 1];
    DedupSnoc([1, 1], 1);
    assert [1, 1] + [1] == [1, 1, 1];
  }

  /** [1,2,3] stays. */
  lemma SampleFour()
    ensures Dedup([1, 2, 3]) == [1, 2, 3]
  {
    DedupSnoc([], 1);
    assert [] + [1] == [1];
    DedupSnoc([1], 2);
    assert [1] + [2] == [1, 2];
    DedupSnoc([1, 2], 3);
    assert [1, 2] + [3] == [1, 2, 3];
  }

  /** head starts a list of the nodes s whose last node points at end. */
  ghost predicate ChainTo(head: ListNode?, s: seq<ListNode>, end: ListNode?)
    reads s`next
  {
    Distinct(s) &&
    head == (if s == [] then end else s[0]) &&
    forall i {:trigger s[i].next} :: 0 <= i < |s| ==> s[i].next == (if i + 1 < |s| then s[i + 1] else end)
  }

  /** Appending a node that points at the new end. */
  lemma ChainToSnoc(head: ListNode?, s: seq<ListNode>, x: ListNode, end: ListNode?)
    requires s != [] && ChainTo(head, s, x) && x !in s && x.next == end
    ensures ChainTo(head, s + [x], end)
  {
    var t := s + [x];
    forall i | 0 <= i < |t| ensures t[i].next == (if i + 1 < |t| then t[i + 1] else end) {
      if i < |s| {
        assert t[i] == s[i];
      }
    }
  }

  /** The node at position j, or null past the end. */
  function NodeAt(nodes: seq<ListNode>, j: int): ListNode?
    requires 0 <= j <= |nodes|
  {
    if j < |nodes| then nodes[j] else null
  }

  /** A step that keeps node j, which points at the node after it. */
  lemma KeepStep(head: ListNode?, nodes: seq<ListNode>, keep: seq<bool>, j: int, kept: seq<ListNode>)
    requires Distinct(nodes) && |keep| == |nodes| && 0 <= j < |nodes| && keep[j]
    requires kept == Kept(nodes, keep, j) && kept != []
    requires ChainTo(head, kept, nodes[j]) && nodes[j].next == NodeAt(nodes, j + 1)
    ensures kept + [nodes[j]] == Kept(nodes, keep, j + 1)
    ensures ChainTo(head, kept + [nodes[j]], NodeAt(nodes, j + 1))
  {
    KeptIn(nodes, keep, j);
    assert nodes[j] !in nodes[..j];
    ChainToSnoc(head, kept, nodes[j], NodeAt(nodes, j + 1));
  }

  /** Before dropping: the kept nodes but the last lead to the last one,
      which occurs only at the end. */
  lemma DropPrepare(head: ListNode?, kept: seq<ListNode>, end: ListNode?)
    requires ChainTo(head, kept, end) && kept != []
    ensures ChainTo(head, kept[..|kept| - 1], kept[|kept| - 1])
    ensures kept[|kept| - 1] !in kept[..|kept| - 1]
  {
    var m := |kept| - 1;
    forall i | 0 <= i < m ensures kept[..m][i].next == (if i + 1 < m then kept[..m][i + 1] else kept[m]) {
      assert kept[..m][i] == kept[i];
    }
  }

  /** A step that drops node j: the last kept node, which pointed at node j,
      now points past it. */
  lemma DropStep(head: ListNode?, nodes: seq<ListNode>, keep: seq<bool>, j: int, kept: seq<ListNode>)
    requires |keep| == |nodes| && 0 <= j < |nodes| && !keep[j]
    requires kept == Kept(nodes, keep, j) && kept != []
    requires ChainTo(head, kept[..|kept| - 1], kept[|kept| - 1])
    requires kept[|kept| - 1] !in kept[..|kept| - 1]
    requires kept[|kept| - 1].next == NodeAt(nodes, j + 1)
    ensures kept == Kept(nodes, keep, j + 1)
    ensures ChainTo(head, kept, NodeAt(nodes, j + 1))
  {
    var m := |kept| - 1;
    assert kept == kept[..m] + [kept[m]];
    if m == 0 {
      assert kept == [kept[0]];
    } else {
      ChainToSnoc(head, kept[..m], kept[m], NodeAt(nodes, j + 1));
    }
  }

  /** A list whose last node points at null is a null-terminated list. */
  lemma ChainToNull(head: ListNode?, s: seq<ListNode>)
    requires ChainTo(head, s, null)
    ensures Chain(head, s)
  {
    forall i | 0 <= i < |s| ensures s[i].next == After(s, i) {
    }
  }

  /** Lists of at most one node are kept whole. */
  lemma ShortKept(nodes: seq<ListNode>, keep: seq<bool>)
    requires |nodes| <= 1 && |keep| == |nodes| && (nodes != [] ==> keep[0])
    ensures Select(nodes, keep) == nodes
  {
  }

  /** deleteDuplicates (Solution): current stands on the last kept node; a
      successor with the same value is unlinked, a different one is moved
      to. */
  method SkipNext(head: ListNode?, ghost nodes: seq<ListNode>, ghost vs: seq<int>, ghost keep: seq<bool>)
    returns (r: ListNode?)
    requires Chain(head, nodes) && |vs| == |nodes| && MarksRunStarts(vs, keep)
    requires forall k {:trigger nodes[k].val} :: 0 <= k < |nodes| ==> nodes[k].val == vs[k]
    modifies nodes`next
    ensures r == head && Chain(r, Select(nodes, keep))
  {
    if head == null || head.next == null {
      ShortKept(nodes, keep);
      return head;
    }
    var current := head;
    ghost var j, c, kept := 1, 0, [head];
    assert Kept(nodes, keep, 0) == [];
    while current != null && current.next != null
      invariant 1 <= j <= |nodes| && 0 <= c < j && current == nodes[c] && current.val == vs[j - 1]
      invariant forall k {:trigger nodes[k].val} :: 0 <= k < |nodes| ==> nodes[k].val == vs[k]
      invariant kept == Kept(nodes, keep, j) && kept != [] && kept[|kept| - 1] == current
      invariant ChainTo(head, kept, NodeAt(nodes, j))
      invariant forall k {:trigger nodes[k].next} :: j <= k < |nodes| ==> nodes[k].next == NodeAt(nodes, k + 1)
      decreases |nodes| - j
    {
      current, c, kept := RunStep(head, current, current.next, nodes, vs, keep, j, c, kept);
      j := j + 1;
    }
    ChainToNull(head, kept);
    r := head;
  }

  /** deleteDuplicates (Solution3): prev is the last kept node and curr walks
      ahead; a curr with prev's value is unlinked, another becomes prev. */
  method TrailingPointer(head: ListNode?, ghost nodes: seq<ListNode>, ghost vs: seq<int>, ghost keep: seq<bool>)
    returns (r: ListNode?)
    requires Chain(head, nodes) && |vs| == |nodes| && MarksRunStarts(vs, keep)
    requires forall k {:trigger nodes[k].val} :: 0 <= k < |nodes| ==> nodes[k].val == vs[k]
    modifies nodes`next
    ensures r == head && Chain(r, Select(nodes, keep))
  {
    if head == null {
      return head;
    }
    var prev := head;
    var curr := head.next;
    ghost var j, c, kept := 1, 0, [head];
    assert Kept(nodes, keep, 0) == [];
    while curr != null
      invariant 1 <= j <= |nodes| && 0 <= c < j && prev == nodes[c] && prev.val == vs[j - 1]
      invariant forall k {:trigger nodes[k].val} :: 0 <= k < |nodes| ==> nodes[k].val == vs[k]
      invariant curr == NodeAt(nodes, j)
      invariant kept == Kept(nodes, keep, j) && kept != [] && kept[|kept| - 1] == prev
      invariant ChainTo(head, kept, curr)
      invariant forall k {:trigger nodes[k].next} :: j <= k < |nodes| ==> nodes[k].next == NodeAt(nodes, k + 1)
      decreases |nodes| - j
    {
      prev, c, kept := RunStep(head, prev, curr, nodes, vs, keep, j, c, kept);
      curr := curr.next;
      j := j + 1;
    }
    ChainToNull(head, kept);
    r := head;
  }

  /** One turn of the single-pointer and the trailing-pointer loops: prev is
      the last kept node and curr, node j, its successor; curr is unlinked
      when it repeats prev's value and becomes the last kept node otherwise. */
  method RunStep(head: ListNode?, prev: ListNode, curr: ListNode, ghost nodes: seq<ListNode>, ghost vs: seq<int>,
                 ghost keep: seq<bool>, ghost j: int, ghost c: int, ghost kept: seq<ListNode>)
    returns (prev': ListNode, ghost c': int, ghost kept': seq<ListNode>)
    requires Distinct(nodes) && |vs| == |nodes| && MarksRunStarts(vs, keep)
    requires 1 <= j < |nodes| && 0 <= c < j && prev == nodes[c] && prev.val == vs[j - 1] && curr == nodes[j]
    requires forall k {:trigger nodes[k].val} :: 0 <= k < |nodes| ==> nodes[k].val == vs[k]
    requires kept == Kept(nodes, keep, j) && kept != [] && kept[|kept| - 1] == prev
    requires ChainTo(head, kept, curr)
    requires forall k {:trigger nodes[k].next} :: j <= k < |nodes| ==> nodes[k].next == NodeAt(nodes, k + 1)
    modifies prev`next
    ensures 0 <= c' <= j && prev' == nodes[c'] && prev'.val == vs[j]
    ensures kept' == Kept(nodes, keep, j + 1) && kept' != [] && kept'[|kept'| - 1] == prev'
    ensures ChainTo(head, kept', NodeAt(nodes, j + 1))
    ensures forall k {:trigger nodes[k].next} :: j + 1 <= k < |nodes| ==> nodes[k].next == NodeAt(nodes, k + 1)
  {
    if curr.val == prev.val {
      DropPrepare(head, kept, curr);
      assert forall k :: j <= k < |nodes| ==> nodes[k] != prev;
      prev.next := curr.next;
      DropStep(head, nodes, keep, j, kept);
      prev', c', kept' := prev, c, kept;
    } else {
      KeepStep(head, nodes, keep, j, kept);
      prev', c', kept' := curr, j, kept + [curr];
    }
  }

  /** deleteDuplicates (Solution4): a set of the values seen so far decides;
      a successor whose value was seen is unlinked. On unsorted lists this
      keeps each value's first occurrence anywhere in the list. */
  method SeenSet(head: ListNode?, ghost nodes: seq<ListNode>, ghost vs: seq<int>, ghost keep: seq<bool>)
    returns (r: ListNode?)
    requires Chain(head, nodes) && |vs| == |nodes| && MarksFirstSeen(vs, keep)
    requires forall k {:trigger nodes[k].val} :: 0 <= k < |nodes| ==> nodes[k].val == vs[k]
    modifies nodes`next
    ensures r == head && Chain(r, Select(nodes, keep))
  {
    if head == null {
      return head;
    }
    var seen: set<int> := {};
    seen := seen + {head.val};
    EarlierStep(vs, 0);
    var current := head;
    ghost var j, c, kept := 1, 0, [head];
    assert Kept(nodes, keep, 0) == [];
    while current.next != null
      invariant 1 <= j <= |nodes| && 0 <= c < j && current == nodes[c]
      invariant forall k {:trigger nodes[k].val} :: 0 <= k < |nodes| ==> nodes[k].val == vs[k]
      invariant seen == Earlier(vs, j)
      invariant kept == Kept(nodes, keep, j) && kept != [] && kept[|kept| - 1] == current
      invariant ChainTo(head, kept, NodeAt(nodes, j))
      invariant forall k {:trigger nodes[k].next} :: j <= k < |nodes| ==> nodes[k].next == NodeAt(nodes, k + 1)
      decreases |nodes| - j
    {
      current, seen, c, kept := SeenStep(head, current, current.next, seen, nodes, vs, keep, j, c, kept);
      j := j + 1;
    }
    ChainToNull(head, kept);
    r := head;
  }

  /** One turn of the set loop: current's successor, node j, is unlinked when
      its value was seen and is recorded and moved to otherwise. */
  method SeenStep(head: ListNode?, current: ListNode, next: ListNode, seen: set<int>, ghost nodes: seq<ListNode>, ghost vs: seq<int>,
                    ghost keep: seq<bool>, ghost j: int, ghost c: int, ghost kept: seq<ListNode>)
    returns (current': ListNode, seen': set<int>, ghost c': int, ghost kept': seq<ListNode>)
    requires Distinct(nodes) && |vs| == |nodes| && MarksFirstSeen(vs, keep)
    requires 1 <= j < |nodes| && 0 <= c < j && current == nodes[c] && next == nodes[j] && seen == Earlier(vs, j)
    requires forall k {:trigger nodes[k].val} :: 0 <= k < |nodes| ==> nodes[k].val == vs[k]
    requires kept == Kept(nodes, keep, j) && kept != [] && kept[|kept| - 1] == current
    requires ChainTo(head, kept, next)
    requires forall k {:trigger nodes[k].next} :: j <= k < |nodes| ==> nodes[k].next == NodeAt(nodes, k + 1)
    modifies current`next
    ensures 0 <= c' <= j && current' == nodes[c'] && seen' == Earlier(vs, j + 1)
    ensures kept' == Kept(nodes, keep, j + 1) && kept' != [] && kept'[|kept'| - 1] == current'
    ensures ChainTo(head, kept', NodeAt(nodes, j + 1))
    ensures forall k {:trigger nodes[k].next} :: j + 1 <= k < |nodes| ==> nodes[k].next == NodeAt(nodes, k + 1)
  {
    EarlierStep(vs, j);
    if next.val in seen {
      DropPrepare(head, kept, next);
      assert forall k :: j <= k < |nodes| ==> nodes[k] != current;
      current.next := next.next;
      DropStep(head, nodes, keep, j, kept);
      current', seen', c', kept' := current, seen, c, kept;
    } else {
      KeepStep(head, nodes, keep, j, kept);
      current', seen', c', kept' := next, seen + {next.val}, j, kept + [next];
    }
  }

  /** The values before j + 1 are those before j and value j. */
  lemma EarlierStep(vs: seq<int>, j: int)
    requires 0 <= j < |vs|
    ensures Earlier(vs, j + 1) == Earlier(vs, j) + {vs[j]}
  {
  }

  /** deleteDuplicates (Solution2) on the list from position lo: the rest is
      deduplicated first and hung after head; head is dropped when its value
      equals the next kept node's, so the last node of every run survives.
      vs are the nodes' values. */
  method RecursiveFrom(head: ListNode?, ghost nodes: seq<ListNode>, ghost vs: seq<int>, ghost lo: int)
    returns (r: ListNode?)
    requires Distinct(nodes) && |vs| == |nodes| && 0 <= lo <= |nodes|
    requires forall k {:trigger nodes[k].val} :: 0 <= k < |nodes| ==> nodes[k].val == vs[k]
    requires lo < |nodes| ==> head == nodes[lo]
    requires lo == |nodes| ==> head == null
    requires forall k {:trigger nodes[k].next} :: lo <= k < |nodes| ==> nodes[k].next == After(nodes, k)
    modifies nodes`next
    ensures forall k {:trigger nodes[k].next} :: 0 <= k < lo ==> nodes[k].next == old(nodes[k].next)
    ensures Chain(r, KeptFrom(nodes, RunEnds(vs), lo))
    ensures lo < |nodes| ==> r != null && r.val == vs[lo]
    decreases |nodes| - lo
  {
    if head == null || head.next == null {
      return head;
    }
    var sub := RecursiveFrom(head.next, nodes, vs, lo + 1);
    ghost var t := KeptFrom(nodes, RunEnds(vs), lo + 1);
    KeptFromIn(nodes, RunEnds(vs), lo + 1);
    assert nodes[lo] !in nodes[lo + 1..];
    assert forall i :: 0 <= i < |t| ==> t[i] != head;
    assert forall k :: 0 <= k < lo ==> nodes[k] != head;
    head.next := sub;
    if head.val == head.next.val {
      return head.next;
    }
    return head;
  }

  /** deleteDuplicates (Solution2) on a whole list. */
  method Recursive(head: ListNode?, ghost nodes: seq<ListNode>) returns (r: ListNode?)
    requires Chain(head, nodes)
    modifies nodes`next
    ensures Chain(r, Select(nodes, RunEnds(old(Values(nodes)))))
  {
    ghost var vs := Values(nodes);
    r := RecursiveFrom(head, nodes, vs, 0);
    KeptSplit(nodes, RunEnds(vs), |nodes|);
    assert KeptFrom(nodes, RunEnds(vs), |nodes|) == [];
    assert Select(nodes, RunEnds(vs)) == KeptFrom(nodes, RunEnds(vs), 0);
  }

  /** The values left by the first-of-run variants are the reference result:
      no two neighbours equal, every value kept. */
  lemma FirstOfRunValues(nodes: seq<ListNode>)
    ensures Values(Select(nodes, RunStarts(Values(nodes)))) == Dedup(Values(nodes))
  {
    ValuesKept(nodes, RunStarts(Values(nodes)), |nodes|);
    RunStartsDedup(Values(nodes));
  }

  /** The recursion keeps other nodes but leaves the same values. */
  lemma LastOfRunValues(nodes: seq<ListNode>)
    ensures Values(Select(nodes, RunEnds(Values(nodes)))) == Dedup(Values(nodes))
  {
    ValuesKept(nodes, RunEnds(Values(nodes)), |nodes|);
    RunEndsDedup(Values(nodes));
  }

  /** On a sorted list the set variant keeps exactly the first-of-run nodes. */
  lemma SeenSetSorted(nodes: seq<ListNode>)
    requires Sorted(Values(nodes))
    ensures Select(nodes, FirstSeen(Values(nodes))) == Select(nodes, RunStarts(Values(nodes)))
  {
    FirstSeenRunStarts(Values(nodes));
  }
}

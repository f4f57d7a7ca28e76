// Odd Even Linked List: relink a list so that the nodes at odd positions
// (first, third, ...) come first, in order, followed by the nodes at even
// positions, in order. Positions count from 1, so nodes[0] is at position 1.
// Variants: a loop with a turn counter, a loop with odd and even pointers, a
// single pointer with two tails, and a recursion that splits the list.

module OddEvenList {
  import opened LinkedList

  /** The elements at odd positions (indices 0, 2, 4, ...). */
  function OddPositions<T>(s: seq<T>): (r: seq<T>)
    ensures |r| == (|s| + 1) / 2
    ensures forall i :: 0 <= i < |r| ==> r[i] == s[2 * i]
    decreases |s|, 1
  {
    if s == [] then [] else [s[0]] + EvenPositions(s[1..])
  }

  /** The elements at even positions (indices 1, 3, 5, ...). */
  function EvenPositions<T>(s: seq<T>): (r: seq<T>)
    ensures |r| == |s| / 2
    ensures forall i :: 0 <= i < |r| ==> r[i] == s[2 * i + 1]
    decreases |s|, 0
  {
    if s == [] then [] else OddPositions(s[1..])
  }

  /** The order the relinked list has: odd positions, then even positions. */
  function Split<T>(s: seq<T>): seq<T> {
    OddPositions(s) + EvenPositions(s)
  }

  /** The split holds the same elements, as many times each. */
  lemma {:induction false} SplitPermutes<T>(s: seq<T>)
    ensures multiset(OddPositions(s)) + multiset(EvenPositions(s)) == multiset(s)
    ensures |Split(s)| == |s| && multiset(Split(s)) == multiset(s)
    decreases |s|
  {
    if s != [] {
      SplitPermutes(s[1..]);
      assert s == [s[0]] + s[1..];
    }
  }

  /** The node two places further on, or null past the end. */
  function Skip(nodes: seq<ListNode>, k: int): ListNode?
    requires 0 <= k < |nodes|
  {
    if k + 2 < |nodes| then nodes[k + 2] else null
  }

  /** The index of the last node at an odd position. */
  function LastOdd(n: int): int {
    if (n - 1) % 2 == 0 then n - 1 else n - 2
  }

  /** Where the i-th element of the split comes from. */
  function SplitIndex(n: int, i: int): int {
    var h := (n + 1) / 2;
    if i < h then 2 * i else 2 * (i - h) + 1
  }

  lemma SplitAt<T>(s: seq<T>, i: int)
    requires 0 <= i < |s|
    ensures 0 <= SplitIndex(|s|, i) < |s| && Split(s)[i] == s[SplitIndex(|s|, i)]
  {
    var h := |OddPositions(s)|;
    if i >= h {
      assert Split(s)[i] == EvenPositions(s)[i - h];
    }
  }

  /** Splitting keeps the elements distinct. */
  lemma SplitDistinct<T>(s: seq<T>)
    requires Distinct(s)
    ensures Distinct(Split(s))
  {
    var r := Split(s);
    forall i, j | 0 <= i < j < |r| ensures r[i] != r[j] {
      SplitAt(s, i);
      SplitAt(s, j);
    }
  }

  /** Every node points two places on, except the last node at an odd
      position, which points at the second node: the relinked list. */
  lemma SkippedChain(nodes: seq<ListNode>)
    requires Distinct(nodes) && |nodes| >= 2
    requires forall k {:trigger nodes[k].next} :: 0 <= k < |nodes| && k != LastOdd(|nodes|) ==> nodes[k].next == Skip(nodes, k)
    requires nodes[LastOdd(|nodes|)].next == nodes[1]
    ensures Chain(nodes[0], Split(nodes))
  {
    SplitDistinct(nodes);
    var n, r := |nodes|, Split(nodes);
    var h := (n + 1) / 2;
    assert LastOdd(n) == 2 * (h - 1);
    forall i | 0 <= i < |r| ensures r[i].next == After(r, i) {
      SplitAt(nodes, i);
      if i + 1 < |r| {
        SplitAt(nodes, i + 1);
      }
    }
    SplitAt(nodes, 0);
  }

  /** The state the loops end in: the nodes before the last odd position m
      point two places on, the one after it (if any) ends the list, and m
      points at the second node. */
  lemma FinishSplit(nodes: seq<ListNode>, half: int)
    requires Distinct(nodes) && |nodes| >= 2
    requires 2 * half + 1 == |nodes| || 2 * half + 2 == |nodes|
    requires forall k {:trigger nodes[k].next} :: 0 <= k < 2 * half ==> nodes[k].next == Skip(nodes, k)
    requires forall k :: 2 * half < k < |nodes| ==> nodes[k].next == null
    requires nodes[2 * half].next == nodes[1]
    ensures Chain(nodes[0], Split(nodes))
  {
    assert 2 * half == LastOdd(|nodes|);
    SkippedChain(nodes);
  }

  /** A list of at most one node is its own split. */
  lemma ShortSplit(nodes: seq<ListNode>)
    requires |nodes| <= 1
    ensures Split(nodes) == nodes
  {
  }

  /** The first m nodes point two places on; the others are untouched. */
  ghost predicate SkippedUpTo(nodes: seq<ListNode>, m: int)
    reads nodes`next
  {
    Distinct(nodes) && 0 <= m <= |nodes| &&
    (forall k {:trigger nodes[k].next} :: 0 <= k < m ==> nodes[k].next == Skip(nodes, k)) &&
    (forall k {:trigger nodes[k].next} :: m <= k < |nodes| ==> nodes[k].next == After(nodes, k))
  }

  /** oddEvenList: a turn counter walks the list, pointing each node two
      places on; the parity of the last turn decides which of the last two
      nodes gets the even list. */
  method TurnCounter(head: ListNode?, ghost nodes: seq<ListNode>) returns (r: ListNode?)
    requires Chain(head, nodes)
    modifies nodes`next
    ensures Chain(r, Split(nodes))
  {
    if head == null || head.next == null {
      ShortSplit(nodes);
      return head;
    }
    var evenHead := head.next;
    var currentP := head;
    var currentNextP := head;
    var turn := 0;
    while currentNextP != null && currentNextP.next != null
      invariant 0 <= turn < |nodes| && SkippedUpTo(nodes, turn)
      invariant currentNextP == nodes[turn] && currentP == nodes[if turn == 0 then 0 else turn - 1]
      decreases |nodes| - turn
    {
      turn := turn + 1;
      currentP := currentNextP;
      currentNextP := currentP.next;
      assert forall k :: 0 <= k < |nodes| && k != turn - 1 ==> nodes[k] != currentP;
      currentP.next := currentP.next.next;
    }
    assert turn == |nodes| - 1 && currentP == nodes[turn - 1];
    if turn % 2 == 1 {
      assert forall k :: 0 <= k < |nodes| && k != turn - 1 ==> nodes[k] != currentP;
      currentP.next := evenHead;
      FinishSplit(nodes, (turn - 1) / 2);
    } else {
      assert forall k :: 0 <= k < |nodes| && k != turn ==> nodes[k] != currentNextP;
      currentNextP.next := evenHead;
      FinishSplit(nodes, turn / 2);
    }
    r := head;
  }

  /** oddEvenList_v2: odd and even pointers advance together, each node
      pointing past its neighbour; then the even list is hung after the odd. */
  method TwoPointers(head: ListNode?, ghost nodes: seq<ListNode>) returns (r: ListNode?)
    requires Chain(head, nodes)
    modifies nodes`next
    ensures Chain(r, Split(nodes))
  {
    if head == null || head.next == null {
      ShortSplit(nodes);
      return head;
    }
    var odd := head;
    var even := head.next;
    var evenHead := even;
    ghost var t := 0;
    while even != null && even.next != null
      invariant 0 <= 2 * t < |nodes| && SkippedUpTo(nodes, 2 * t)
      invariant odd == nodes[2 * t] && even == After(nodes, 2 * t)
      decreases |nodes| - 2 * t
    {
      assert forall k :: 0 <= k < |nodes| && k != 2 * t ==> nodes[k] != odd;
      odd.next := even.next;
      odd := odd.next;
      assert forall k :: 0 <= k < |nodes| && k != 2 * t + 1 ==> nodes[k] != even;
      even.next := odd.next;
      even := even.next;
      t := t + 1;
    }
    assert forall k :: 0 <= k < |nodes| && k != 2 * t ==> nodes[k] != odd;
    odd.next := evenHead;
    FinishSplit(nodes, t);
    r := head;
  }

  /** Points node m, the tail of its class, two places on at current. */
  method SkipAt(tail: ListNode, current: ListNode, ghost nodes: seq<ListNode>, ghost m: int)
    requires SkippedUpTo(nodes, m) && m + 2 < |nodes|
    requires tail == nodes[m] && current == nodes[m + 2]
    modifies tail`next
    ensures SkippedUpTo(nodes, m + 1)
  {
    assert forall k :: 0 <= k < |nodes| && k != m ==> nodes[k] != tail;
    tail.next := current;
  }

  /** oddEvenList_v3: one pointer walks from the third node, appending each
      node to the tail of its own parity; at the end the even tail is closed
      and the odd tail points at the even head. index is the 1-based position
      of current. */
  method TwoTails(head: ListNode?, ghost nodes: seq<ListNode>) returns (r: ListNode?)
    requires Chain(head, nodes)
    modifies nodes`next
    ensures Chain(r, Split(nodes))
  {
    if head == null || head.next == null {
      ShortSplit(nodes);
      return head;
    }
    var oddTail := head;
    var evenHead := head.next;
    var evenTail := evenHead;
    var current := evenHead.next;
    var index := 3;
    // oddTail is nodes[2 * h], evenTail the other of the two nodes before current
    ghost var h := 0;
    while current != null
      invariant 3 <= index <= |nodes| + 1 && SkippedUpTo(nodes, index - 3)
      invariant current == (if index - 1 < |nodes| then nodes[index - 1] else null)
      invariant index == 2 * h + 3 || index == 2 * h + 2
      invariant oddTail == nodes[2 * h]
      invariant evenTail == nodes[if index == 2 * h + 3 then index - 2 else index - 3]
      decreases |nodes| + 1 - index
    {
      var nextNode := current.next;
      assert index % 2 == 1 <==> index == 2 * h + 3;
      if index % 2 == 1 {
        SkipAt(oddTail, current, nodes, index - 3);
        oddTail := current;
        h := h + 1;
      } else {
        SkipAt(evenTail, current, nodes, index - 3);
        evenTail := current;
      }
      current := nextNode;
      index := index + 1;
    }
    ghost var e := if index == 2 * h + 3 then index - 2 else index - 3;
    assert forall k :: 0 <= k < |nodes| && k != e ==> nodes[k] != evenTail;
    evenTail.next := null;
    assert forall k :: 0 <= k < |nodes| && k != 2 * h ==> nodes[k] != oddTail;
    oddTail.next := evenHead;
    FinishSplit(nodes, h);
    r := head;
  }

  /** The last node at or after position lo in lo's own class (same) or the
      other class, d telling whether the number of nodes from lo on is odd
      (2 * d + 1) or even (2 * d). */
  function LastOfClass(nodes: seq<ListNode>, lo: int, d: int, same: bool): ListNode?
    requires 0 <= lo <= |nodes| && (|nodes| - lo == 2 * d || |nodes| - lo == 2 * d + 1)
  {
    var k := if same == (|nodes| - lo == 2 * d + 1) then |nodes| - 1 else |nodes| - 2;
    if lo <= k then nodes[k] else null
  }

  /** oddEvenList_v4's split_list: splits the list from position lo and
      returns (odd head, odd tail, even head, even tail) of that part, every
      node there pointing at the next node of its own class. isOdd says
      whether the node at lo belongs to the odd positions. */
  method SplitFrom(node: ListNode?, isOdd: bool, ghost nodes: seq<ListNode>, ghost lo: int, ghost d: int)
    returns (oddHead: ListNode?, oddTail: ListNode?, evenHead: ListNode?, evenTail: ListNode?)
    requires Distinct(nodes) && 0 <= lo <= |nodes|
    requires lo < |nodes| ==> node == nodes[lo]
    requires lo == |nodes| ==> node == null
    requires |nodes| - lo == 2 * d || |nodes| - lo == 2 * d + 1
    requires forall k {:trigger nodes[k].next} :: lo <= k < |nodes| ==> nodes[k].next == After(nodes, k)
    modifies nodes`next
    ensures forall k {:trigger nodes[k].next} :: 0 <= k < lo ==> nodes[k].next == old(nodes[k].next)
    ensures forall k {:trigger nodes[k].next} :: lo <= k < |nodes| ==> nodes[k].next == Skip(nodes, k)
    ensures (if isOdd then oddHead else evenHead) == (if lo < |nodes| then nodes[lo] else null)
    ensures (if isOdd then oddTail else evenTail) == LastOfClass(nodes, lo, d, true)
    ensures (if isOdd then evenTail else oddTail) == LastOfClass(nodes, lo, d, false)
    ensures (if isOdd then evenHead else oddHead) == (if lo + 1 < |nodes| then nodes[lo + 1] else null)
    decreases |nodes| - lo
  {
    if node == null {
      return null, null, null, null;
    }
    ghost var d' := if |nodes| - lo == 2 * d + 1 then d else d - 1;
    if isOdd {
      if node.next == null {
        return node, node, null, null;
      }
      var oh, ot, eh, et := SplitFrom(node.next, false, nodes, lo + 1, d');
      assert forall k :: 0 <= k < |nodes| && k != lo ==> nodes[k] != node;
      node.next := oh;
      return node, (if ot != null then ot else node), eh, et;
    } else {
      if node.next == null {
        return null, null, node, node;
      }
      var oh, ot, eh, et := SplitFrom(node.next, true, nodes, lo + 1, d');
      assert forall k :: 0 <= k < |nodes| && k != lo ==> nodes[k] != node;
      node.next := eh;
      return oh, ot, node, (if et != null then et else node);
    }
  }

  /** oddEvenList_v4: split recursively, then hang the even list after the
      odd tail. */
  method Recursive(head: ListNode?, ghost nodes: seq<ListNode>) returns (r: ListNode?)
    requires Chain(head, nodes)
    modifies nodes`next
    ensures Chain(r, Split(nodes))
  {
    if head == null || head.next == null {
      ShortSplit(nodes);
      return head;
    }
    var oddHead, oddTail, evenHead, evenTail := SplitFrom(head, true, nodes, 0, |nodes| / 2);
    ghost var last := LastOdd(|nodes|);
    assert oddTail == nodes[last];
    assert forall k :: 0 <= k < |nodes| && k != last ==> nodes[k] != nodes[last];
    if oddTail != null {
      oddTail.next := evenHead;
    }
    SkippedChain(nodes);
    r := if oddHead != null then oddHead else evenHead;
  }
}

// Reverse Linked List: rewire the next pointers so that the list runs back to
// front. Variants: a three-pointer loop, a recursion that fixes the links on
// the way back, a stack of nodes, and a tail recursion carrying prev.

module ReverseList {
  import opened LinkedList

  /** The state of the reversal after its first i nodes: those point back,
      the rest are untouched. */
  ghost predicate ReversedUpTo(nodes: seq<ListNode>, i: int)
    reads nodes`next
  {
    Distinct(nodes) && 0 <= i <= |nodes| &&
    (forall k :: 0 <= k < i ==> nodes[k].next == (if k == 0 then null else nodes[k - 1])) &&
    (forall k :: i <= k < |nodes| ==> nodes[k].next == After(nodes, k))
  }

  /** All nodes pointing back is the reversed list, headed by the old last node. */
  lemma ReversedAll(nodes: seq<ListNode>)
    requires ReversedUpTo(nodes, |nodes|)
    ensures Chain(if nodes == [] then null else nodes[|nodes| - 1], Rev(nodes))
  {
    var r, n := Rev(nodes), |nodes|;
    forall i, j | 0 <= i < j < n ensures r[i] != r[j] {
      assert r[i] == nodes[n - 1 - i] && r[j] == nodes[n - 1 - j];
    }
    forall i | 0 <= i < n ensures r[i].next == After(r, i) {
      var k := n - 1 - i;
      assert r[i] == nodes[k];
      assert nodes[k].next == (if k == 0 then null else nodes[k - 1]);
      if i + 1 < n {
        assert r[i + 1] == nodes[k - 1];
      }
    }
  }

  /** reverseList: prev, current and next_temp walk down the list, turning each
      link around. */
  method Iterative(head: ListNode?, ghost nodes: seq<ListNode>) returns (r: ListNode?)
    requires Chain(head, nodes)
    modifies nodes`next
    ensures Chain(r, Rev(nodes))
  {
    assert ReversedUpTo(nodes, 0);
    var prev: ListNode? := null;
    var current := head;
    ghost var i := 0;
    while current != null
      invariant ReversedUpTo(nodes, i)
      invariant prev == (if i == 0 then null else nodes[i - 1])
      invariant current == (if i < |nodes| then nodes[i] else null)
      decreases |nodes| - i
    {
      var nextTemp := current.next;
      assert forall k :: 0 <= k < |nodes| && k != i ==> nodes[k] != current;
      current.next := prev;
      prev := current;
      current := nextTemp;
      i := i + 1;
    }
    ReversedAll(nodes);
    r := prev;
  }

  /** reverseList_recursive, on the list that starts at position lo: reverse
      the part after head first, then hang head after its old successor and
      cut head's own link. Returns the old last node. */
  method Recursive(head: ListNode?, ghost nodes: seq<ListNode>, ghost lo: int) returns (r: ListNode?)
    requires Distinct(nodes) && 0 <= lo <= |nodes|
    requires head == (if lo == |nodes| then null else nodes[lo])
    requires forall k :: lo <= k < |nodes| ==> nodes[k].next == After(nodes, k)
    modifies nodes`next
    ensures forall k :: 0 <= k < lo ==> nodes[k].next == old(nodes[k].next)
    ensures forall k :: lo <= k < |nodes| ==> nodes[k].next == (if k == lo then null else nodes[k - 1])
    ensures r == (if lo == |nodes| then null else nodes[|nodes| - 1])
    decreases |nodes| - lo
  {
    if head == null || head.next == null {
      return head;
    }
    r := Recursive(head.next, nodes, lo + 1);
    assert head.next == nodes[lo + 1];
    head.next.next := head;
    head.next := null;
  }

  /** reverseList_recursive on a whole list. */
  method RecursiveWhole(head: ListNode?, ghost nodes: seq<ListNode>) returns (r: ListNode?)
    requires Chain(head, nodes)
    modifies nodes`next
    ensures Chain(r, Rev(nodes))
  {
    r := Recursive(head, nodes, 0);
    ReversedAll(nodes);
  }

  /** reverseList_stack, first loop: the nodes from the head on, in order. */
  method Collect(head: ListNode?, ghost nodes: seq<ListNode>) returns (stack: seq<ListNode>)
    requires Chain(head, nodes)
    ensures stack == nodes
  {
    stack := [];
    var current := head;
    while current != null
      invariant |stack| <= |nodes| && stack == nodes[..|stack|]
      invariant current == (if |stack| < |nodes| then nodes[|stack|] else null)
      decreases |nodes| - |stack|
    {
      stack := stack + [current];
      current := current.next;
    }
  }

  /** The state of the stack variant with j nodes still on the stack: the
      nodes after position j point back, the others are untouched. */
  ghost predicate RelinkedAfter(nodes: seq<ListNode>, j: int)
    reads nodes`next
  {
    0 <= j < |nodes| &&
    (forall k :: 0 <= k <= j ==> nodes[k].next == After(nodes, k)) &&
    (forall k :: j < k < |nodes| ==> nodes[k].next == nodes[k - 1])
  }

  /** reverseList_stack, second loop: pop the remaining nodes, linking each
      to the next one popped, and end the list at the last one. The pops are
      counted by the height top. */
  method Relink(stack: seq<ListNode>, newHead: ListNode, ghost nodes: seq<ListNode>)
    requires Distinct(nodes) && |stack| + 1 == |nodes| && newHead == nodes[|stack|]
    requires forall k :: 0 <= k < |stack| ==> stack[k] == nodes[k]
    requires forall k :: 0 <= k < |nodes| ==> nodes[k].next == After(nodes, k)
    modifies nodes`next
    ensures ReversedUpTo(nodes, |nodes|)
  {
    var top := |stack|;
    var current := newHead;
    while top > 0
      invariant 0 <= top <= |stack| && RelinkedAfter(nodes, top) && current == nodes[top]
      decreases top
    {
      var node := stack[top - 1];
      top := top - 1;
      assert forall k :: 0 <= k < |nodes| && k != top + 1 ==> nodes[k] != current;
      current.next := node;
      current := node;
    }
    assert current == nodes[0] && forall k :: 0 < k < |nodes| ==> nodes[k] != current;
    current.next := null;
    assert forall k :: 0 < k < |nodes| ==> nodes[k].next == nodes[k - 1];
  }

  /** reverseList_stack: push every node, then pop them and link each to the
      next one popped; the last one popped gets next = None. */
  method WithStack(head: ListNode?, ghost nodes: seq<ListNode>) returns (r: ListNode?)
    requires Chain(head, nodes)
    modifies nodes`next
    ensures Chain(r, Rev(nodes))
  {
    if head == null {
      return null;
    }
    var stack := Collect(head, nodes);
    var newHead := stack[|stack| - 1];
    stack := stack[..|stack| - 1];
    Relink(stack, newHead, nodes);
    ReversedAll(nodes);
    r := newHead;
  }

  /** reverseList_recursive_v2's helper: the loop of reverseList as a tail
      recursion on (current, prev). */
  method ReverseFrom(current: ListNode?, prev: ListNode?, ghost nodes: seq<ListNode>, ghost i: int)
    returns (r: ListNode?)
    requires ReversedUpTo(nodes, i)
    requires prev == (if i == 0 then null else nodes[i - 1])
    requires current == (if i < |nodes| then nodes[i] else null)
    modifies nodes`next
    ensures Chain(r, Rev(nodes))
    decreases |nodes| - i
  {
    if current == null {
      ReversedAll(nodes);
      return prev;
    }
    var nextNode := current.next;
    assert forall k :: 0 <= k < |nodes| && k != i ==> nodes[k] != current;
    current.next := prev;
    r := ReverseFrom(nextNode, current, nodes, i + 1);
  }

  /** reverseList_recursive_v2. */
  method TailRecursive(head: ListNode?, ghost nodes: seq<ListNode>) returns (r: ListNode?)
    requires Chain(head, nodes)
    modifies nodes`next
    ensures Chain(r, Rev(nodes))
  {
    assert ReversedUpTo(nodes, 0);
    r := ReverseFrom(head, null, nodes, 0);
  }
}

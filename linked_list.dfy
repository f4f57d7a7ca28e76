// Singly linked lists of integer nodes, shared by the list-rewiring models.
// A list is described by the ghost sequence of its nodes: distinct nodes,
// each pointing at the next one, the last at null.

module LinkedList {

  class ListNode {
    var val: int
    var next: ListNode?

    constructor (v: int, n: ListNode?)
      ensures val == v && next == n
    {
      val := v;
      next := n;
    }
  }

  /** No node occurs twice. */
  predicate Distinct<T(==)>(s: seq<T>) {
    forall i, j :: 0 <= i < j < |s| ==> s[i] != s[j]
  }

  /** The node after position i of the list: the next one, or null at the end. */
  function After(nodes: seq<ListNode>, i: int): ListNode?
    requires 0 <= i < |nodes|
  {
    if i + 1 < |nodes| then nodes[i + 1] else null
  }

  /** head starts a null-terminated list whose nodes are exactly nodes, in order. */
  ghost predicate Chain(head: ListNode?, nodes: seq<ListNode>)
    reads nodes`next
  {
    Distinct(nodes) &&
    head == (if nodes == [] then null else nodes[0]) &&
    forall i {:trigger nodes[i].next} :: 0 <= i < |nodes| ==> nodes[i].next == After(nodes, i)
  }

  /** The values held by the nodes, in order. */
  function Values(nodes: seq<ListNode>): (vs: seq<int>)
    reads nodes`val
    ensures |vs| == |nodes|
    ensures forall i :: 0 <= i < |nodes| ==> vs[i] == nodes[i].val
  {
    if nodes == [] then [] else [nodes[0].val] + Values(nodes[1..])
  }

  /** The tail of a list starts at its head's successor. */
  lemma ChainTail(head: ListNode?, nodes: seq<ListNode>)
    requires Chain(head, nodes) && nodes != []
    ensures Chain(nodes[0].next, nodes[1..])
  {
    var t := nodes[1..];
    forall i | 0 <= i < |t|
      ensures t[i].next == After(t, i)
    {
      assert t[i] == nodes[i + 1];
    }
  }

  /** A head determines its list: following next pointers from it reaches the
      same nodes in the same order. */
  lemma {:induction false} ChainUnique(head: ListNode?, a: seq<ListNode>, b: seq<ListNode>)
    requires Chain(head, a) && Chain(head, b)
    ensures a == b
    decreases |a|
  {
    if a != [] {
      assert b != [] && a[0] == b[0];
      ChainTail(head, a);
      ChainTail(head, b);
      ChainUnique(a[0].next, a[1..], b[1..]);
      assert a == [a[0]] + a[1..] && b == [b[0]] + b[1..];
    }
  }

  /** A sequence back to front. */
  function Rev<T>(s: seq<T>): (r: seq<T>)
    ensures |r| == |s|
    ensures forall i :: 0 <= i < |s| ==> r[i] == s[|s| - 1 - i]
  {
    if s == [] then [] else Rev(s[1..]) + [s[0]]
  }

  /** The values of the reversed nodes are the values reversed. */
  lemma ValuesRev(nodes: seq<ListNode>)
    ensures Values(Rev(nodes)) == Rev(Values(nodes))
  {
  }

  /** Reversing twice gives the sequence back. */
  lemma RevRev<T>(s: seq<T>)
    ensures Rev(Rev(s)) == s
  {
  }

  /** Reversing a concatenation reverses the parts and swaps them. */
  lemma {:induction false} RevAppend<T>(a: seq<T>, b: seq<T>)
    ensures Rev(a + b) == Rev(b) + Rev(a)
    decreases |a|
  {
    if a == [] {
      assert a + b == b;
    } else {
      assert (a + b)[1..] == a[1..] + b;
      RevAppend(a[1..], b);
    }
  }

  /** Reversing a sequence with one more element at the end puts that element first. */
  lemma RevSnoc<T>(s: seq<T>, x: T)
    ensures Rev(s + [x]) == [x] + Rev(s)
  {
    RevAppend(s, [x]);
  }

  /** A prefix of a reversed sequence is the reverse of the matching suffix. */
  lemma {:induction false} RevPrefix<T>(t: seq<T>, m: int)
    requires 0 <= m <= |t|
    ensures Rev(t)[..m] == Rev(t[|t| - m..])
  {
    var r := Rev(t);
    var u := t[|t| - m..];
    var b := Rev(u);
    assert |r[..m]| == m == |b|;
    forall i | 0 <= i < m ensures r[..m][i] == b[i] {
      assert b[i] == u[m - 1 - i] == t[|t| - 1 - i];
    }
  }

  /** Reversing keeps the elements. */
  lemma {:induction false} RevMultiset<T>(t: seq<T>)
    ensures multiset(Rev(t)) == multiset(t)
    decreases |t|
  {
    if t != [] {
      RevMultiset(t[1..]);
      assert t == [t[0]] + t[1..];
    }
  }
}

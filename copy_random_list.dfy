// Copy List with Random Pointer: a singly linked list whose nodes also
// carry a random pointer to any node of the list (or None) is deep-copied.
// Four variants: a map from old to new nodes filled in two passes
// (copyRandomList), a recursive clone through a visited map
// (copyRandomList_recursive), copies woven in after their originals and
// then split off (copyRandomList_interweaving), and a one-pass map whose
// entries are created on first sight (copyRandomList_one_pass).
// A list is described by the ghost sequence of its nodes, as in LinkedList.

module CopyRandomList {
  import LinkedList

  class Node {
    const val: int
    var next: Node?
    var random: Node?

    /** Node(x): next and random start as None. */
    constructor (x: int)
      ensures val == x && next == null && random == null
    {
      val := x;
      next := null;
      random := null;
    }
  }

  /** The head of a list given by its nodes: the first node, or None. */
  function First(nodes: seq<Node>): Node? {
    if nodes == [] then null else nodes[0]
  }

  /** The node after position i: the next one, or None at the end. */
  function After(nodes: seq<Node>, i: int): Node?
    requires 0 <= i < |nodes|
  {
    if i + 1 < |nodes| then nodes[i + 1] else null
  }

  /**
   * head starts a null-terminated list whose nodes are exactly nodes, in
   * order, and every random pointer is None or a node of the list.
   */
  ghost predicate RandomList(head: Node?, nodes: seq<Node>)
    reads nodes`next, nodes`random
  {
    && LinkedList.Distinct(nodes)
    && head == First(nodes)
    && (forall i {:trigger nodes[i].next} :: 0 <= i < |nodes| ==> nodes[i].next == After(nodes, i))
    && (forall i :: 0 <= i < |nodes| ==> nodes[i].random == null || nodes[i].random in nodes)
  }

  /** Every next and random pointer of the list stays within the list. */
  ghost predicate Closed(nodes: seq<Node>)
    reads nodes`next, nodes`random
  {
    forall x :: x in nodes ==> (x.next == null || x.next in nodes) && (x.random == null || x.random in nodes)
  }

  /** A list's pointers stay within it. */
  lemma ListClosed(head: Node?, nodes: seq<Node>)
    requires RandomList(head, nodes)
    ensures Closed(nodes)
  {
    forall x | x in nodes ensures x.next == null || x.next in nodes {
      var k :| 0 <= k < |nodes| && nodes[k] == x;
    }
  }

  /** The i-th copy's random is None when the original's is, and otherwise the copy of the node it points to. */
  ghost predicate RandomMatches(nodes: seq<Node>, copies: seq<Node>, i: int)
    requires |copies| == |nodes| && 0 <= i < |nodes|
    reads {nodes[i]}`random, {copies[i]}`random
  {
    || (nodes[i].random == null && copies[i].random == null)
    || (exists j :: 0 <= j < |nodes| && nodes[i].random == nodes[j] && copies[i].random == copies[j])
  }

  /**
   * copies is a deep copy of the list nodes: a list of its own, of new
   * nodes, with the same values in order and the random pointers carried
   * over to the corresponding copies.
   */
  ghost predicate CopyOf(nodes: seq<Node>, copies: seq<Node>)
    reads nodes, copies
  {
    && |copies| == |nodes|
    && RandomList(First(copies), copies)
    && (forall i, j :: 0 <= i < |copies| && 0 <= j < |nodes| ==> copies[i] != nodes[j])
    && (forall i :: 0 <= i < |nodes| ==> copies[i].val == nodes[i].val && RandomMatches(nodes, copies, i))
  }

  /** A random pointer and its copy point at the same position, in both directions. */
  lemma RandomIff(nodes: seq<Node>, copies: seq<Node>, i: int, j: int)
    requires RandomList(First(nodes), nodes) && CopyOf(nodes, copies)
    requires 0 <= i < |nodes| && 0 <= j < |nodes|
    ensures nodes[i].random == nodes[j] <==> copies[i].random == copies[j]
  {
    if nodes[i].random != null {
      var w :| 0 <= w < |nodes| && nodes[i].random == nodes[w] && copies[i].random == copies[w];
      assert nodes[j] == nodes[w] <==> j == w;
      assert copies[j] == copies[w] <==> j == w;
    } else {
      assert copies[i].random == null;
    }
  }

  /** The original list is in turn a deep copy of its copy. */
  lemma CopySymmetric(nodes: seq<Node>, copies: seq<Node>)
    requires RandomList(First(nodes), nodes) && CopyOf(nodes, copies)
    ensures CopyOf(copies, nodes)
  {
    forall i | 0 <= i < |nodes| ensures RandomMatches(copies, nodes, i) {
      if copies[i].random != null {
        var w :| 0 <= w < |nodes| && nodes[i].random == nodes[w] && copies[i].random == copies[w];
      }
    }
  }

  // ---------------------------------------------------------------------
  // The old-to-new map shared by the three map-based variants

  /** old_to_new (or visited) maps nodes of the list to new nodes with the same values, one per original. */
  ghost predicate MapBase(m: map<Node, Node>, nodes: seq<Node>) {
    && (forall x :: x in m ==> x in nodes && m[x] !in nodes && m[x].val == x.val)
    && (forall x, y :: x in m && y in m && x != y ==> m[x] != m[y])
  }

  /** x's copy has the copies of x's next and random. */
  ghost predicate Linked(m: map<Node, Node>, x: Node)
    requires x in m
    reads x`next, x`random, {m[x]}`next, {m[x]}`random
  {
    && ((x.next == null && m[x].next == null) || (x.next in m && m[x].next == m[x.next]))
    && ((x.random == null && m[x].random == null) || (x.random in m && m[x].random == m[x.random]))
  }

  /** The map is a MapBase and the copy of every node in linked is linked. */
  ghost predicate Cloned(m: map<Node, Node>, linked: set<Node>, nodes: seq<Node>)
    reads m.Keys, m.Values
  {
    MapBase(m, nodes) && linked <= m.Keys && forall x :: x in linked ==> Linked(m, x)
  }

  /** The copies of the nodes, in list order. */
  ghost function Image(m: map<Node, Node>, nodes: seq<Node>): (r: seq<Node>)
    requires forall k :: 0 <= k < |nodes| ==> nodes[k] in m
    ensures |r| == |nodes| && forall k :: 0 <= k < |nodes| ==> r[k] == m[nodes[k]]
  {
    if nodes == [] then [] else [m[nodes[0]]] + Image(m, nodes[1..])
  }

  /** Following linked copies from the head's entry reaches every node. */
  lemma {:induction false} Reached(m: map<Node, Node>, linked: set<Node>, nodes: seq<Node>, k: int)
    requires RandomList(First(nodes), nodes) && 0 <= k < |nodes| && nodes[0] in linked
    requires Cloned(m, linked, nodes) && m.Keys <= linked
    ensures nodes[k] in linked
    decreases k
  {
    if k > 0 {
      Reached(m, linked, nodes, k - 1);
      assert nodes[k - 1].next == nodes[k] && Linked(m, nodes[k - 1]);
    }
  }

  /** A fully linked map over every node yields a deep copy. */
  lemma ImageIsCopy(m: map<Node, Node>, linked: set<Node>, nodes: seq<Node>)
    requires RandomList(First(nodes), nodes) && Cloned(m, linked, nodes)
    requires forall k :: 0 <= k < |nodes| ==> nodes[k] in linked
    ensures CopyOf(nodes, Image(m, nodes))
  {
    var c := Image(m, nodes);
    forall i, j | 0 <= i < j < |c| ensures c[i] != c[j] {
      assert nodes[i] != nodes[j];
    }
    forall i | 0 <= i < |c| ensures c[i].next == After(c, i) {
      assert Linked(m, nodes[i]);
      if i + 1 < |c| {
        assert nodes[i].next == nodes[i + 1];
      }
    }
    forall i | 0 <= i < |nodes| ensures RandomMatches(nodes, c, i) && (c[i].random == null || c[i].random in c) {
      assert Linked(m, nodes[i]);
      if nodes[i].random != null {
        var j :| 0 <= j < |nodes| && nodes[j] == nodes[i].random;
        assert c[i].random == c[j];
      }
    }
  }

  // ---------------------------------------------------------------------
  // copyRandomList: two passes over a map

  /** The first pass: one new node per original, with its value and no pointers. */
  method FirstPass(head: Node?, ghost nodes: seq<Node>) returns (m: map<Node, Node>)
    requires RandomList(head, nodes)
    ensures MapBase(m, nodes) && forall k :: 0 <= k < |nodes| ==> nodes[k] in m
    ensures forall x :: x in m ==> fresh(m[x]) && m[x].next == null && m[x].random == null
  {
    m := map[];
    var curr := head;
    ghost var i := 0;
    while curr != null
      invariant 0 <= i <= |nodes| && curr == (if i < |nodes| then nodes[i] else null)
      invariant MapBase(m, nodes) && forall x :: x in m <==> x in nodes[..i]
      invariant forall x :: x in m ==> fresh(m[x]) && m[x].next == null && m[x].random == null
      decreases |nodes| - i
    {
      var copy := new Node(curr.val);
      assert curr !in m;
      m := m[curr := copy];
      curr := curr.next;
      i := i + 1;
    }
    forall k | 0 <= k < |nodes| ensures nodes[k] in m {
      assert nodes[k] in nodes[..i];
    }
  }

  /** The second pass: every copy gets the mapped copies of its original's next and random. */
  method SecondPass(head: Node?, m: map<Node, Node>, ghost nodes: seq<Node>) returns (ghost done: set<Node>)
    requires RandomList(head, nodes) && MapBase(m, nodes) && forall k :: 0 <= k < |nodes| ==> nodes[k] in m
    requires forall x :: x in m ==> m[x].next == null && m[x].random == null
    modifies m.Values
    ensures Cloned(m, done, nodes) && forall k :: 0 <= k < |nodes| ==> nodes[k] in done
  {
    var curr := head;
    ghost var i := 0;
    done := {};
    while curr != null
      invariant 0 <= i <= |nodes| && curr == (if i < |nodes| then nodes[i] else null)
      invariant done == Prefix(nodes, i)
      invariant RandomList(head, nodes) && Cloned(m, done, nodes)
      invariant forall x :: x in m && x !in done ==> m[x].next == null && m[x].random == null
      decreases |nodes| - i
    {
      NotYetDone(nodes, i, i);
      ListClosed(head, nodes);
      LinkTwoPass(curr, m, done, nodes);
      done := done + {curr};
      curr := curr.next;
      i := i + 1;
    }
    AllDone(nodes, i);
  }

  /** copyRandomList: copies made in the first pass, linked in the second. */
  method CopyTwoPass(head: Node?, ghost nodes: seq<Node>) returns (r: Node?, ghost copies: seq<Node>)
    requires RandomList(head, nodes)
    ensures r == First(copies) && CopyOf(nodes, copies)
    ensures forall k :: 0 <= k < |copies| ==> fresh(copies[k])
  {
    if head == null {
      return null, [];
    }
    var oldToNew := FirstPass(head, nodes);
    ghost var done := SecondPass(head, oldToNew, nodes);
    r := oldToNew[head];
    copies := Image(oldToNew, nodes);
    ImageIsCopy(oldToNew, done, nodes);
  }

  /** One step of the second pass: curr's copy gets the mapped copies of curr's next and random. */
  method LinkTwoPass(curr: Node, m: map<Node, Node>, ghost done: set<Node>, ghost nodes: seq<Node>)
    requires Closed(nodes) && curr in nodes && curr !in done && Cloned(m, done, nodes)
    requires forall x :: x in nodes ==> x in m
    requires forall x :: x in m && x !in done ==> m[x].next == null && m[x].random == null
    modifies m[curr]
    ensures unchanged(nodes) && Cloned(m, done + {curr}, nodes)
    ensures forall x :: x in m && x !in done + {curr} ==> m[x].next == null && m[x].random == null
  {
    var copy := m[curr];
    if curr.next != null {
      copy.next := m[curr.next];
    }
    if curr.random != null {
      copy.random := m[curr.random];
    }
    assert Linked(m, curr);
  }

  // ---------------------------------------------------------------------
  // copyRandomList_one_pass: map entries created on first sight

  /**
   * get_cloned_node: None stays None, a mapped node gives its copy, and
   * any other node gets a new copy with its value, not yet linked.
   */
  method GetCloned(node: Node?, m: map<Node, Node>, ghost linked: set<Node>, ghost nodes: seq<Node>)
    returns (c: Node?, m': map<Node, Node>)
    requires (node == null || node in nodes) && Cloned(m, linked, nodes)
    ensures Cloned(m', linked, nodes)
    ensures forall x :: x in m ==> x in m' && m'[x] == m[x]
    ensures forall x :: x in m' && x !in m ==> x == node && fresh(m'[x])
    ensures node == null ==> c == null
    ensures node != null ==> node in m' && c == m'[node]
  {
    if node == null {
      return null, m;
    }
    if node in m {
      return m[node], m;
    }
    c := new Node(node.val);
    m' := m[node := c];
    forall x | x in linked ensures Linked(m', x) {
      assert Linked(m, x);
    }
  }

  /** The loop of copyRandomList_one_pass: each node's copy gets the copies of its next and random. */
  method OnePassLoop(head: Node?, ghost nodes: seq<Node>) returns (oldToNew: map<Node, Node>, ghost done: set<Node>)
    requires RandomList(head, nodes)
    ensures RandomList(head, nodes) && Cloned(oldToNew, done, nodes)
    ensures forall k :: 0 <= k < |nodes| ==> nodes[k] in done
    ensures forall x :: x in oldToNew ==> fresh(oldToNew[x])
  {
    oldToNew := map[];
    var curr := head;
    ghost var i := 0;
    done := {};
    while curr != null
      invariant 0 <= i <= |nodes| && curr == (if i < |nodes| then nodes[i] else null)
      invariant done == Prefix(nodes, i)
      invariant RandomList(head, nodes) && Cloned(oldToNew, done, nodes) && forall x :: x in oldToNew ==> fresh(oldToNew[x])
      decreases |nodes| - i
    {
      NotYetDone(nodes, i, i);
      ListClosed(head, nodes);
      assert curr.next == After(nodes, i);
      oldToNew := VisitOnePass(curr, oldToNew, done, nodes);
      assert curr.next == After(nodes, i);
      done := done + {curr};
      curr := curr.next;
      i := i + 1;
    }
    AllDone(nodes, i);
  }

  /** copyRandomList_one_pass: the copy of the head, after the loop has linked every copy. */
  method CopyOnePass(head: Node?, ghost nodes: seq<Node>) returns (r: Node?, ghost copies: seq<Node>)
    requires RandomList(head, nodes)
    ensures r == First(copies) && CopyOf(nodes, copies)
    ensures forall k :: 0 <= k < |copies| ==> fresh(copies[k])
  {
    if head == null {
      return null, [];
    }
    var oldToNew, done := OnePassLoop(head, nodes);
    r := oldToNew[head];
    copies := Image(oldToNew, nodes);
    ImageIsCopy(oldToNew, done, nodes);
  }

  /** One step of the loop: link the copy of curr, creating the copies it needs on first sight. */
  method VisitOnePass(curr: Node, m: map<Node, Node>, ghost done: set<Node>, ghost nodes: seq<Node>)
    returns (m': map<Node, Node>)
    requires Closed(nodes) && curr in nodes && curr !in done && Cloned(m, done, nodes)
    modifies m.Values
    ensures unchanged(nodes) && Cloned(m', done + {curr}, nodes)
    ensures forall x :: x in m ==> x in m' && m'[x] == m[x]
    ensures forall x :: x in m' && x !in m ==> fresh(m'[x])
  {
    var copy, nextCopy, randomCopy;
    copy, m' := GetCloned(curr, m, done, nodes);
    assert copy !in nodes;
    nextCopy, m' := GetCloned(curr.next, m', done, nodes);
    copy.next := nextCopy;
    randomCopy, m' := GetCloned(curr.random, m', done, nodes);
    label Before:
    copy.random := randomCopy;
    forall x | x in done ensures Linked(m', x) {
      assert old@Before(Linked(m', x)) && m'[x] != copy;
    }
    assert Linked(m', curr);
  }

  /** The first i nodes, as a set. */
  ghost function Prefix(nodes: seq<Node>, i: int): set<Node>
    requires 0 <= i <= |nodes|
  {
    if i == 0 then {} else Prefix(nodes, i - 1) + {nodes[i - 1]}
  }

  /** A node at position j is not among the first i <= j. */
  lemma {:induction false} NotYetDone(nodes: seq<Node>, i: int, j: int)
    requires LinkedList.Distinct(nodes) && 0 <= i <= j < |nodes|
    ensures nodes[j] !in Prefix(nodes, i)
    decreases i
  {
    if i > 0 {
      NotYetDone(nodes, i - 1, j);
      assert nodes[i - 1] != nodes[j];
    }
  }

  /** Every node before position i is among the first i. */
  lemma {:induction false} AllDone(nodes: seq<Node>, i: int)
    requires 0 <= i <= |nodes|
    ensures forall k :: 0 <= k < i ==> nodes[k] in Prefix(nodes, i)
    decreases i
  {
    if i > 0 {
      AllDone(nodes, i - 1);
    }
  }

  // ---------------------------------------------------------------------
  // copyRandomList_recursive: clone through a visited map

  /** The nodes of the list that have no copy yet. */
  ghost function Unvisited(nodes: seq<Node>, m: map<Node, Node>): set<Node> {
    set x | x in nodes && x !in m
  }

  /** Mapping one more node of the list leaves fewer unvisited. */
  lemma UnvisitedShrinks(nodes: seq<Node>, m: map<Node, Node>, m': map<Node, Node>, node: Node)
    requires node in nodes && node !in m && node in m' && m.Keys <= m'.Keys
    ensures |Unvisited(nodes, m')| < |Unvisited(nodes, m)|
  {
    var a, b := Unvisited(nodes, m), Unvisited(nodes, m');
    var rest := a - {node};
    assert node in a && a == rest + {node};
    assert b <= rest && b * rest == b;
    assert |b| + |rest - b| == |rest| == |a| - 1;
  }

  /**
   * clone(node): None gives None, a visited node its copy, and any other
   * node a new copy (CloneNew). A node whose clone is still in progress is
   * visited but not yet linked; linked' adds exactly the nodes this call
   * linked.
   */
  method Clone(node: Node?, visited: map<Node, Node>, ghost linked: set<Node>, ghost nodes: seq<Node>)
    returns (r: Node?, visited': map<Node, Node>, ghost linked': set<Node>)
    requires Closed(nodes) && (node == null || node in nodes)
    requires Cloned(visited, linked, nodes)
    ensures Cloned(visited', linked', nodes)
    ensures linked <= linked' && forall x :: x in linked' ==> x in linked || x !in visited
    ensures forall x :: x in visited ==> x in visited' && visited'[x] == visited[x]
    ensures forall x :: x in visited' && x !in visited ==> x in linked' && fresh(visited'[x])
    ensures node == null ==> r == null
    ensures node != null ==> node in visited' && r == visited'[node]
    decreases |Unvisited(nodes, visited)|, 1
  {
    if node == null {
      return null, visited, linked;
    }
    if node in visited {
      return visited[node], visited, linked;
    }
    r, visited', linked' := CloneNew(node, visited, linked, nodes);
  }

  /**
   * The rest of clone(node) for a node not yet visited: its new copy is
   * entered in visited before its next and random are cloned.
   */
  method CloneNew(node: Node, visited: map<Node, Node>, ghost linked: set<Node>, ghost nodes: seq<Node>)
    returns (r: Node, visited': map<Node, Node>, ghost linked': set<Node>)
    requires Closed(nodes) && node in nodes && node !in visited
    requires Cloned(visited, linked, nodes)
    ensures Cloned(visited', linked', nodes)
    ensures linked <= linked' && forall x :: x in linked' ==> x in linked || x !in visited
    ensures forall x :: x in visited ==> x in visited' && visited'[x] == visited[x]
    ensures forall x :: x in visited' && x !in visited ==> x in linked' && fresh(visited'[x])
    ensures node in visited' && r == visited'[node]
    decreases |Unvisited(nodes, visited)|, 0
  {
    var newNode := new Node(node.val);
    var seen := visited[node := newNode];
    forall x | x in linked ensures Linked(seen, x) {
      assert Linked(visited, x);
    }
    UnvisitedShrinks(nodes, visited, seen, node);
    var n, m1, l1 := Clone(node.next, seen, linked, nodes);
    newNode.next := n;
    UnvisitedShrinks(nodes, visited, m1, node);
    var rd, m2, l2 := Clone(node.random, m1, l1, nodes);
    label Before:
    newNode.random := rd;
    forall x | x in l2 ensures Linked(m2, x) {
      assert old@Before(Linked(m2, x)) && m2[x] != newNode;
    }
    assert Linked(m2, node);
    r, visited', linked' := newNode, m2, l2 + {node};
  }

  /** copyRandomList_recursive: clone the head with an empty visited map. */
  method CopyRecursive(head: Node?, ghost nodes: seq<Node>) returns (r: Node?, ghost copies: seq<Node>)
    requires RandomList(head, nodes)
    ensures r == First(copies) && CopyOf(nodes, copies)
    ensures forall k :: 0 <= k < |copies| ==> fresh(copies[k])
  {
    if head == null {
      return null, [];
    }
    var visited;
    ghost var linked;
    ListClosed(head, nodes);
    r, visited, linked := Clone(head, map[], {}, nodes);
    forall k | 0 <= k < |nodes| ensures nodes[k] in linked {
      Reached(visited, linked, nodes, k);
    }
    copies := Image(visited, nodes);
    ImageIsCopy(visited, linked, nodes);
  }

  // ---------------------------------------------------------------------
  // copyRandomList_interweaving: copies woven into the list, then split off

  /** Step one: after each original, a copy with its value that points on to the original's successor. */
  method Weave(head: Node?, ghost nodes: seq<Node>) returns (ghost copies: seq<Node>)
    requires RandomList(head, nodes)
    modifies nodes`next
    ensures |copies| == |nodes| && LinkedList.Distinct(copies)
    ensures forall k :: 0 <= k < |nodes| ==> fresh(copies[k]) && copies[k].val == nodes[k].val && copies[k].random == null
    ensures forall k {:trigger nodes[k].next} {:trigger copies[k].next} :: 0 <= k < |nodes| ==> nodes[k].next == copies[k] && copies[k].next == After(nodes, k)
  {
    copies := [];
    var curr := head;
    while curr != null
      invariant |copies| <= |nodes| && curr == (if |copies| < |nodes| then nodes[|copies|] else null)
      invariant LinkedList.Distinct(copies)
      invariant forall k :: 0 <= k < |copies| ==> fresh(copies[k]) && copies[k].val == nodes[k].val && copies[k].random == null
      invariant forall k {:trigger nodes[k].next} {:trigger copies[k].next} :: 0 <= k < |copies| ==> nodes[k].next == copies[k] && copies[k].next == After(nodes, k)
      invariant forall k {:trigger nodes[k].next} :: |copies| <= k < |nodes| ==> nodes[k].next == After(nodes, k)
      decreases |nodes| - |copies|
    {
      var newNode := new Node(curr.val);
      newNode.next := curr.next;
      curr.next := newNode;
      curr := newNode.next;
      copies := copies + [newNode];
    }
  }

  /** Step two: each copy's random is the successor of its original's random, which is that node's copy. */
  method SetRandoms(head: Node?, ghost nodes: seq<Node>, ghost copies: seq<Node>)
    requires |copies| == |nodes| && LinkedList.Distinct(nodes) && head == First(nodes)
    requires forall k :: 0 <= k < |nodes| ==> nodes[k].random == null || nodes[k].random in nodes
    requires forall k :: 0 <= k < |nodes| ==> copies[k] !in nodes && copies[k].random == null
    requires forall k {:trigger nodes[k].next} {:trigger copies[k].next} :: 0 <= k < |nodes| ==> nodes[k].next == copies[k] && copies[k].next == After(nodes, k)
    modifies copies`random
    ensures forall k :: 0 <= k < |nodes| ==> RandomMatches(nodes, copies, k)
  {
    var curr := head;
    ghost var i := 0;
    while curr != null
      invariant 0 <= i <= |nodes| && curr == (if i < |nodes| then nodes[i] else null)
      invariant forall k :: 0 <= k < i ==> RandomMatches(nodes, copies, k)
      invariant forall k :: i <= k < |nodes| ==> copies[k].random == null
      decreases |nodes| - i
    {
      if curr.random != null {
        ghost var j :| 0 <= j < |nodes| && nodes[j] == curr.random;
        curr.next.random := curr.random.next;
        assert RandomMatches(nodes, copies, i);
      }
      curr := curr.next.next;
      i := i + 1;
    }
  }

  /** Step three: every original gets its successor back and every copy points at the next copy. */
  method Unweave(head: Node?, ghost nodes: seq<Node>, ghost copies: seq<Node>) returns (newHead: Node?)
    requires |copies| == |nodes| && LinkedList.Distinct(nodes) && head == First(nodes)
    requires forall k, j :: 0 <= k < |nodes| && 0 <= j < |nodes| ==> copies[k] != nodes[j]
    requires forall k {:trigger nodes[k].next} {:trigger copies[k].next} :: 0 <= k < |nodes| ==> nodes[k].next == copies[k] && copies[k].next == After(nodes, k)
    modifies nodes`next, copies`next
    ensures newHead == First(copies)
    ensures forall k {:trigger nodes[k].next} {:trigger copies[k].next} :: 0 <= k < |nodes| ==> nodes[k].next == After(nodes, k) && copies[k].next == After(copies, k)
  {
    if head == null {
      return null;
    }
    var curr := head;
    newHead := head.next;
    ghost var i := 0;
    while curr != null
      invariant 0 <= i <= |nodes| && curr == (if i < |nodes| then nodes[i] else null)
      invariant forall k {:trigger nodes[k].next} {:trigger copies[k].next} :: 0 <= k < i ==> nodes[k].next == After(nodes, k) && copies[k].next == After(copies, k)
      invariant forall k {:trigger nodes[k].next} {:trigger copies[k].next} :: i <= k < |nodes| ==> nodes[k].next == copies[k] && copies[k].next == After(nodes, k)
      decreases |nodes| - i
    {
      var newNode := curr.next;
      curr.next := newNode.next;
      if newNode.next != null {
        newNode.next := newNode.next.next;
      }
      curr := curr.next;
      i := i + 1;
    }
  }

  /** copyRandomList_interweaving: weave, set the randoms, unweave; the original list is restored. */
  method CopyInterweaving(head: Node?, ghost nodes: seq<Node>) returns (r: Node?, ghost copies: seq<Node>)
    requires RandomList(head, nodes)
    modifies nodes`next
    ensures RandomList(head, nodes)
    ensures r == First(copies) && CopyOf(nodes, copies)
    ensures forall k :: 0 <= k < |copies| ==> fresh(copies[k])
  {
    if head == null {
      return null, [];
    }
    copies := Weave(head, nodes);
    assert forall k, j :: 0 <= k < |nodes| && 0 <= j < |nodes| ==> copies[k] != nodes[j];
    SetRandoms(head, nodes, copies);
    r := Unweave(head, nodes, copies);
    SplitIsCopy(nodes, copies);
  }

  /** Copies with the originals' values, chained in order and with matching randoms, are a deep copy. */
  lemma SplitIsCopy(nodes: seq<Node>, copies: seq<Node>)
    requires |copies| == |nodes| && LinkedList.Distinct(copies)
    requires forall k, j :: 0 <= k < |nodes| && 0 <= j < |nodes| ==> copies[k] != nodes[j]
    requires forall k {:trigger copies[k].next} :: 0 <= k < |nodes| ==> copies[k].next == After(copies, k)
    requires forall k :: 0 <= k < |nodes| ==> copies[k].val == nodes[k].val && RandomMatches(nodes, copies, k)
    ensures CopyOf(nodes, copies)
  {
    forall k | 0 <= k < |nodes| ensures copies[k].random == null || copies[k].random in copies {
      assert RandomMatches(nodes, copies, k);
    }
  }
}

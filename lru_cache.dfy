// A least-recently-used cache of integer keys and values, four ways: an
// OrderedDict, a hash map over a doubly linked list with sentinel nodes, an
// insertion-ordered dict, and a second linked-list version.
//
// Every version is proved against one specification: the cache is the list
// of its entries, least recently used first, with distinct keys. get moves
// the key to the end; put removes the key, appends the new entry and drops
// the first entry when the list outgrows the capacity.

module LruCache {

  datatype Entry = Entry(key: int, value: int)

  function Max(a: int, b: int): int {
    if a < b then b else a
  }

  // ---------------------------------------------------------------------
  // The specification: a list of entries, least recently used first

  /** No key occurs twice. */
  ghost predicate UniqueKeys(s: seq<Entry>) {
    forall i, j :: 0 <= i < j < |s| ==> s[i].key != s[j].key
  }

  /** The position of key in s, or -1 when no entry has it. */
  function IndexOf(s: seq<Entry>, key: int): (r: int)
    ensures -1 <= r < |s|
    ensures r >= 0 ==> s[r].key == key
    ensures r >= 0 ==> forall i :: 0 <= i < r ==> s[i].key != key
    ensures r < 0 ==> forall i :: 0 <= i < |s| ==> s[i].key != key
  {
    if s == [] then -1
    else if s[0].key == key then 0
    else
      var r := IndexOf(s[1..], key);
      if r < 0 then -1 else r + 1
  }

  /** key is in the cache. */
  predicate Has(s: seq<Entry>, key: int) {
    IndexOf(s, key) >= 0
  }

  /** d[key] on a present key. */
  function ValueOf(s: seq<Entry>, key: int): int
    requires Has(s, key)
  {
    s[IndexOf(s, key)].value
  }

  /** The value get returns: the entry's value, or -1 for a missing key. */
  function Lookup(s: seq<Entry>, key: int): int {
    var i := IndexOf(s, key);
    if i >= 0 then s[i].value else -1
  }

  /** s with the entry for key taken out (dict.pop / del). */
  function Without(s: seq<Entry>, key: int): seq<Entry> {
    var i := IndexOf(s, key);
    if i >= 0 then s[..i] + s[i + 1..] else s
  }

  /** The order after get: key's entry moved to the end. */
  function Touch(s: seq<Entry>, key: int): seq<Entry> {
    var i := IndexOf(s, key);
    if i >= 0 then s[..i] + s[i + 1..] + [s[i]] else s
  }

  /** The cache after put: key's old entry removed, the new one appended, and the first dropped beyond the capacity. */
  function Store(s: seq<Entry>, capacity: int, key: int, value: int): seq<Entry> {
    var t := Without(s, key) + [Entry(key, value)];
    if |t| > capacity then t[1..] else t
  }

  /** The cache's invariant: distinct keys, and no more entries than the capacity allows. */
  ghost predicate Fits(s: seq<Entry>, capacity: int) {
    UniqueKeys(s) && |s| <= Max(capacity, 0)
  }

  /** The first position holding key is the index. */
  lemma IndexAt(s: seq<Entry>, key: int, c: int)
    requires 0 <= c < |s| && s[c].key == key
    requires forall j :: 0 <= j < c ==> s[j].key != key
    ensures IndexOf(s, key) == c
  {
  }

  /** With distinct keys, every entry sits at its key's index. */
  lemma IndexOfEntry(s: seq<Entry>, c: int)
    requires UniqueKeys(s) && 0 <= c < |s|
    ensures IndexOf(s, s[c].key) == c && Lookup(s, s[c].key) == s[c].value
  {
    IndexAt(s, s[c].key, c);
  }

  /** The entries of s with position i taken out. */
  lemma RemoveAt(s: seq<Entry>, i: int)
    requires 0 <= i < |s|
    ensures |s[..i] + s[i + 1..]| == |s| - 1
    ensures forall j :: 0 <= j < |s| - 1 ==> (s[..i] + s[i + 1..])[j] == (if j < i then s[j] else s[j + 1])
  {
  }

  /** Taking one entry out keeps the other entries, in order, and their keys distinct. */
  lemma WithoutFacts(s: seq<Entry>, key: int)
    requires UniqueKeys(s)
    ensures UniqueKeys(Without(s, key))
    ensures Has(s, key) ==> |Without(s, key)| == |s| - 1
    ensures !Has(s, key) ==> Without(s, key) == s
    ensures forall i :: 0 <= i < |Without(s, key)| ==> Without(s, key)[i].key != key
    ensures forall k :: k != key ==> Lookup(Without(s, key), k) == Lookup(s, k)
    ensures forall k :: k != key ==> Has(Without(s, key), k) == Has(s, k)
    ensures !Has(Without(s, key), key)
  {
    var i := IndexOf(s, key);
    if i >= 0 {
      var w := s[..i] + s[i + 1..];
      RemoveAt(s, i);
      assert UniqueKeys(w);
      forall k | k != key ensures Lookup(w, k) == Lookup(s, k) && Has(w, k) == Has(s, k) {
        KeepsOther(s, i, k);
      }
    }
  }

  /** Another key keeps its value when position i is taken out. */
  lemma KeepsOther(s: seq<Entry>, i: int, k: int)
    requires UniqueKeys(s) && 0 <= i < |s| && s[i].key != k
    ensures Lookup(s[..i] + s[i + 1..], k) == Lookup(s, k)
    ensures Has(s[..i] + s[i + 1..], k) == Has(s, k)
  {
    var w := s[..i] + s[i + 1..];
    RemoveAt(s, i);
    var b := IndexOf(s, k);
    if b >= 0 {
      var c := if b < i then b else b - 1;
      assert w[c] == s[b];
      IndexOfEntry(w, c);
    } else {
      assert forall j :: 0 <= j < |w| ==> w[j].key != k;
      assert IndexOf(w, k) < 0;
    }
  }

  /** get leaves every key's value as it was and keeps the keys distinct; a present key ends up last. */
  lemma TouchFacts(s: seq<Entry>, key: int)
    requires UniqueKeys(s)
    ensures UniqueKeys(Touch(s, key)) && |Touch(s, key)| == |s|
    ensures forall k :: Lookup(Touch(s, key), k) == Lookup(s, k)
    ensures !Has(s, key) ==> Touch(s, key) == s
    ensures Has(s, key) ==> Touch(s, key) == Without(s, key) + [Entry(key, Lookup(s, key))]
    ensures forall k :: Has(Touch(s, key), k) == Has(s, k)
  {
    var i := IndexOf(s, key);
    if i >= 0 {
      WithoutFacts(s, key);
      var w := Without(s, key);
      assert s[i] == Entry(key, Lookup(s, key));
      AppendFacts(w, key, s[i].value);
    }
  }

  /** Appending an entry whose key is new gives it the last position. */
  lemma AppendFacts(w: seq<Entry>, key: int, value: int)
    requires UniqueKeys(w)
    requires forall i :: 0 <= i < |w| ==> w[i].key != key
    ensures UniqueKeys(w + [Entry(key, value)])
    ensures IndexOf(w + [Entry(key, value)], key) == |w|
    ensures Lookup(w + [Entry(key, value)], key) == value
    ensures forall k :: k != key ==> Lookup(w + [Entry(key, value)], k) == Lookup(w, k)
    ensures forall k :: Has(w + [Entry(key, value)], k) == (Has(w, k) || k == key)
  {
    var t := w + [Entry(key, value)];
    assert UniqueKeys(t);
    IndexOfEntry(t, |w|);
    forall k | k != key ensures Lookup(t, k) == Lookup(w, k) && Has(t, k) == Has(w, k) {
      var b := IndexOf(w, k);
      if b >= 0 {
        assert t[b] == w[b];
        IndexOfEntry(t, b);
      } else {
        assert forall j :: 0 <= j < |t| ==> t[j].key != k;
        assert IndexOf(t, k) < 0;
      }
    }
  }

  /** Dropping the first entry takes out exactly its key. */
  lemma DropFirst(t: seq<Entry>)
    requires UniqueKeys(t) && t != []
    ensures t[1..] == Without(t, t[0].key)
  {
  }

  /** put keeps the invariant: distinct keys, and no more entries than the capacity allows. */
  lemma StoreFits(s: seq<Entry>, capacity: int, key: int, value: int)
    requires Fits(s, capacity)
    ensures Fits(Store(s, capacity, key, value), capacity)
  {
    WithoutFacts(s, key);
    var t := Without(s, key) + [Entry(key, value)];
    AppendFacts(Without(s, key), key, value);
    if |t| > capacity {
      DropFirst(t);
      WithoutFacts(t, t[0].key);
    }
  }

  /** With a positive capacity, put stores the new value under key. */
  lemma StoreValue(s: seq<Entry>, capacity: int, key: int, value: int)
    requires Fits(s, capacity) && capacity >= 1
    ensures Lookup(Store(s, capacity, key, value), key) == value
  {
    WithoutFacts(s, key);
    var w := Without(s, key);
    var t := w + [Entry(key, value)];
    AppendFacts(w, key, value);
    if |t| > capacity {
      assert t[0] == w[0];
      DropFirst(t);
      WithoutFacts(t, t[0].key);
    }
  }

  /** put on a present key, or on a new key below the capacity, evicts nothing: every other key keeps its value. */
  lemma StoreKeepsOthers(s: seq<Entry>, capacity: int, key: int, value: int)
    requires Fits(s, capacity)
    requires Has(s, key) || |s| < capacity
    ensures Has(s, key) ==> |Store(s, capacity, key, value)| == |s|
    ensures forall k :: k != key ==> Lookup(Store(s, capacity, key, value), k) == Lookup(s, k)
  {
    WithoutFacts(s, key);
    AppendFacts(Without(s, key), key, value);
  }

  /** put on a new key at the capacity evicts exactly the least recently used entry, the first. */
  lemma StoreEvicts(s: seq<Entry>, capacity: int, key: int, value: int)
    requires Fits(s, capacity)
    requires !Has(s, key) && |s| == capacity >= 1
    ensures Store(s, capacity, key, value) == s[1..] + [Entry(key, value)]
  {
    WithoutFacts(s, key);
  }

  // ---------------------------------------------------------------------
  // Insertion-ordered dictionaries (OrderedDict, and dict since Python 3.7)

  /** d[key] = value: replace the value in place when key is present, append otherwise. */
  function SetItem(s: seq<Entry>, key: int, value: int): (r: seq<Entry>)
    ensures Has(s, key) ==> r == s[IndexOf(s, key) := Entry(key, value)]
    ensures !Has(s, key) ==> r == s + [Entry(key, value)]
  {
    var i := IndexOf(s, key);
    if i >= 0 then s[i := Entry(key, value)] else s + [Entry(key, value)]
  }

  /** OrderedDict.move_to_end(key): key's entry moved last, the others kept in order. */
  function MoveToEnd(s: seq<Entry>, key: int): (r: seq<Entry>)
    requires Has(s, key)
  {
    var i := IndexOf(s, key);
    s[..i] + s[i + 1..] + [s[i]]
  }

  // ---------------------------------------------------------------------
  // LRUCache: an OrderedDict

  class LRUCache {
    var capacity: int
    /** The OrderedDict's items, oldest first. */
    var cache: seq<Entry>

    ghost predicate Valid()
      reads this
    {
      Fits(cache, capacity)
    }

    constructor (capacity: int)
      ensures Valid() && this.capacity == capacity && cache == []
    {
      this.capacity := capacity;
      cache := [];
    }

    /** get: -1 for a missing key; otherwise move the key to the end and return its value. */
    method Get(key: int) returns (r: int)
      requires Valid()
      modifies this
      ensures Valid() && capacity == old(capacity)
      ensures r == Lookup(old(cache), key) && cache == Touch(old(cache), key)
    {
      if !Has(cache, key) {
        return -1;
      }
      TouchFacts(cache, key);
      cache := MoveToEnd(cache, key);
      r := ValueOf(cache, key);
    }

    /** put: move an existing key to the end, set its value, and pop the oldest item beyond the capacity. */
    method Put(key: int, value: int)
      requires Valid()
      modifies this
      ensures Valid() && capacity == old(capacity)
      ensures cache == Store(old(cache), capacity, key, value)
    {
      StoreFits(cache, capacity, key, value);
      WithoutFacts(cache, key);
      if Has(cache, key) {
        TouchFacts(cache, key);
        cache := MoveToEnd(cache, key);
        AppendFacts(Without(old(cache), key), key, Lookup(old(cache), key));
      }
      cache := SetItem(cache, key, value);
      if |cache| > capacity {
        cache := cache[1..];
      }
    }
  }

  // ---------------------------------------------------------------------
  // LRUCache3: a dict, reordered by popping and re-inserting

  class LRUCache3 {
    var capacity: int
    /** The dict's items in insertion order. */
    var cache: seq<Entry>

    ghost predicate Valid()
      reads this
    {
      Fits(cache, capacity)
    }

    constructor (capacity: int)
      ensures Valid() && this.capacity == capacity && cache == []
    {
      this.capacity := capacity;
      cache := [];
    }

    /** get: -1 for a missing key; otherwise pop the key and insert it again, returning its value. */
    method Get(key: int) returns (r: int)
      requires Valid()
      modifies this
      ensures Valid() && capacity == old(capacity)
      ensures r == Lookup(old(cache), key) && cache == Touch(old(cache), key)
    {
      if !Has(cache, key) {
        return -1;
      }
      TouchFacts(cache, key);
      WithoutFacts(cache, key);
      var value := cache[IndexOf(cache, key)].value;
      cache := Without(cache, key);
      cache := SetItem(cache, key, value);
      r := value;
    }

    /** put: pop an existing key, insert the new item, and pop the first key beyond the capacity. */
    method Put(key: int, value: int)
      requires Valid()
      modifies this
      ensures Valid() && capacity == old(capacity)
      ensures cache == Store(old(cache), capacity, key, value)
    {
      var c := cache;
      StoreFits(c, capacity, key, value);
      WithoutFacts(c, key);
      AppendFacts(Without(c, key), key, value);
      if Has(c, key) {
        c := Without(c, key);
      }
      assert IndexOf(c, key) < 0;
      c := SetItem(c, key, value);
      if |c| > capacity {
        var oldestKey := c[0].key;
        DropFirst(c);
        c := Without(c, oldestKey);
      }
      cache := c;
    }
  }

  // ---------------------------------------------------------------------
  // Doubly linked lists with sentinel nodes

  class DLinkedNode {
    var key: int
    var value: int
    var prev: DLinkedNode?
    var next: DLinkedNode?

    constructor (key: int, value: int)
      ensures this.key == key && this.value == value && prev == null && next == null
    {
      this.key := key;
      this.value := value;
      prev := null;
      next := null;
    }
  }

  /** The nodes, distinct, each one's next the following node and each one's prev the one before. */
  ghost predicate Linked(ns: seq<DLinkedNode>)
    reads ns`next, ns`prev
  {
    && (forall i, j :: 0 <= i < j < |ns| ==> ns[i] != ns[j])
    && (forall i {:trigger ns[i].next} :: 0 <= i < |ns| - 1 ==> ns[i].next == ns[i + 1])
    && (forall i {:trigger ns[i].prev} :: 0 < i < |ns| ==> ns[i].prev == ns[i - 1])
  }

  /** Between the two sentinels, the nodes hold the entries in order. */
  ghost predicate Mirrors(ns: seq<DLinkedNode>, entries: seq<Entry>)
    reads ns`key, ns`value
  {
    |ns| == |entries| + 2 &&
    forall i {:trigger entries[i]} :: 0 <= i < |entries| ==> ns[i + 1].key == entries[i].key && ns[i + 1].value == entries[i].value
  }

  /** _remove_node: the node's neighbours are linked to each other. */
  method Unlink(node: DLinkedNode, ghost ns: seq<DLinkedNode>, ghost i: int)
    requires Linked(ns) && 0 < i < |ns| - 1 && ns[i] == node
    modifies ns[i - 1], ns[i + 1]
    ensures Linked(ns[..i] + ns[i + 1..])
    ensures forall n :: n in ns ==> n.key == old(n.key) && n.value == old(n.value)
  {
    node.prev.next := node.next;
    node.next.prev := node.prev;
    ghost var r := ns[..i] + ns[i + 1..];
    assert forall j :: 0 <= j < |r| ==> r[j] == (if j < i then ns[j] else ns[j + 1]);
  }

  /** _add_to_tail: a node not in the list is linked in just before the tail sentinel. */
  method LinkBefore(node: DLinkedNode, tail: DLinkedNode, ghost ns: seq<DLinkedNode>)
    requires Linked(ns) && |ns| >= 2 && ns[|ns| - 1] == tail && node !in ns
    modifies node, tail, ns[|ns| - 2]
    ensures Linked(ns[..|ns| - 1] + [node, tail])
    ensures forall n :: n in ns ==> n.key == old(n.key) && n.value == old(n.value)
    ensures node.key == old(node.key) && node.value == old(node.value)
  {
    node.prev := tail.prev;
    node.next := tail;
    tail.prev.next := node;
    tail.prev := node;
    ghost var r := ns[..|ns| - 1] + [node, tail];
    assert forall j :: 0 <= j < |ns| - 1 ==> r[j] == ns[j];
  }

  /** _move_to_tail: unlink the node and link it again before the tail; its entry moves last. */
  method MoveToTail(node: DLinkedNode, tail: DLinkedNode, ghost ns: seq<DLinkedNode>, ghost i: int, ghost entries: seq<Entry>)
    requires Linked(ns) && 0 < i < |ns| - 1 && ns[i] == node && ns[|ns| - 1] == tail
    requires Mirrors(ns, entries)
    modifies ns
    ensures Linked(MovedLast(ns, i))
    ensures Mirrors(MovedLast(ns, i), entries[..i - 1] + entries[i..] + [entries[i - 1]])
    ensures forall n :: n in ns ==> n.key == old(n.key) && n.value == old(n.value)
  {
    MirrorsMoved(ns, entries, i);
    MovedSame(ns, i);
    Unlink(node, ns, i);
    ghost var r := ns[..i] + ns[i + 1..];
    assert r[|r| - 1] == tail && node !in r;
    LinkBefore(node, tail, r);
    assert MovedLast(ns, i) == r[..|r| - 1] + [node, tail];
  }

  /** node.value = value on the node at i: entry i - 1 gets the new value. */
  method SetValue(node: DLinkedNode, value: int, ghost ns: seq<DLinkedNode>, ghost i: int, ghost entries: seq<Entry>)
    requires Linked(ns) && Mirrors(ns, entries) && 0 < i < |ns| - 1 && ns[i] == node
    modifies node
    ensures Linked(ns) && Mirrors(ns, entries[i - 1 := Entry(entries[i - 1].key, value)])
  {
    node.value := value;
    ghost var e := entries[i - 1 := Entry(entries[i - 1].key, value)];
    forall j | 0 <= j < |e| ensures ns[j + 1].key == e[j].key && ns[j + 1].value == e[j].value {
      if j != i - 1 {
        assert ns[j + 1] != node;
      }
    }
  }

  /** put on a present key: node.value = value, then _move_to_tail. */
  method SetAndMove(node: DLinkedNode, value: int, tail: DLinkedNode, ghost ns: seq<DLinkedNode>, ghost i: int, ghost entries: seq<Entry>)
    requires Linked(ns) && Mirrors(ns, entries) && 0 < i < |ns| - 1 && ns[i] == node && ns[|ns| - 1] == tail
    modifies ns
    ensures var t := entries[i - 1 := Entry(entries[i - 1].key, value)];
      Linked(MovedLast(ns, i)) && Mirrors(MovedLast(ns, i), t[..i - 1] + t[i..] + [t[i - 1]])
  {
    SetValue(node, value, ns, i, entries);
    MoveToTail(node, tail, ns, i, entries[i - 1 := Entry(entries[i - 1].key, value)]);
  }

  /**
   * The cache's invariant over its map, its sentinels and its list: the
   * nodes between head and tail hold the entries, which fit the capacity,
   * size counts them, and the map sends each key to its node.
   */
  ghost predicate Inv(cache: map<int, DLinkedNode>, head: DLinkedNode, tail: DLinkedNode, ns: seq<DLinkedNode>, entries: seq<Entry>, capacity: int, size: int)
    reads ns`next, ns`prev, ns`key, ns`value
  {
    && |ns| >= 2 && ns[0] == head && ns[|ns| - 1] == tail
    && Linked(ns) && Mirrors(ns, entries)
    && Fits(entries, capacity) && size == |entries|
    && NodeMap(cache, ns, entries)
  }

  /** get on the present key at i - 1, on the list: its node moved to the tail leaves the entries at Touch, and its value is returned. */
  method GetList(node: DLinkedNode, head: DLinkedNode, tail: DLinkedNode, cache: map<int, DLinkedNode>, ghost ns: seq<DLinkedNode>, ghost entries: seq<Entry>, capacity: int, size: int, ghost i: int)
    returns (r: int)
    requires Inv(cache, head, tail, ns, entries, capacity, size) && 0 < i < |ns| - 1 && ns[i] == node
    modifies ns
    ensures Inv(cache, head, tail, MovedLast(ns, i), Touch(entries, entries[i - 1].key), capacity, size)
    ensures r == Lookup(entries, entries[i - 1].key)
  {
    MovedSame(ns, i);
    TouchKeeps(cache, ns, entries, capacity, i);
    MoveToTail(node, tail, ns, i, entries);
    r := node.value;
  }

  /** put on the present key at i - 1, on the list: the value set and the node moved to the tail leave the entries at Store. */
  method PutPresentList(node: DLinkedNode, value: int, head: DLinkedNode, tail: DLinkedNode, cache: map<int, DLinkedNode>, ghost ns: seq<DLinkedNode>, ghost entries: seq<Entry>, capacity: int, size: int, ghost i: int)
    requires Inv(cache, head, tail, ns, entries, capacity, size) && 0 < i < |ns| - 1 && ns[i] == node
    modifies ns
    ensures Inv(cache, head, tail, MovedLast(ns, i), Store(entries, capacity, entries[i - 1].key, value), capacity, size)
  {
    MovedSame(ns, i);
    PutPresentKeeps(cache, ns, entries, capacity, i, value);
    SetAndMove(node, value, tail, ns, i, entries);
  }

  /** put on a new key: _add_to_tail of a fresh node, its entry appended. */
  method Append(node: DLinkedNode, tail: DLinkedNode, ghost ns: seq<DLinkedNode>, ghost entries: seq<Entry>)
    requires Linked(ns) && Mirrors(ns, entries) && |ns| >= 2 && ns[|ns| - 1] == tail && node !in ns
    modifies node, tail, ns[|ns| - 2]
    ensures Linked(ns[..|ns| - 1] + [node, tail])
    ensures Mirrors(ns[..|ns| - 1] + [node, tail], entries + [Entry(old(node.key), old(node.value))])
  {
    MirrorsAppended(ns, entries, node);
    LinkBefore(node, tail, ns);
  }

  /** The node order after _move_to_tail: the node at i moved just before the tail sentinel. */
  function MovedLast<T>(ns: seq<T>, i: int): seq<T>
    requires 0 < i < |ns| - 1
  {
    ns[..i] + ns[i + 1..|ns| - 1] + [ns[i], ns[|ns| - 1]]
  }

  /** Moving the node at i last moves entry i - 1 last. */
  lemma MirrorsMoved(ns: seq<DLinkedNode>, entries: seq<Entry>, i: int)
    requires Mirrors(ns, entries) && 0 < i < |ns| - 1
    ensures Mirrors(MovedLast(ns, i), entries[..i - 1] + entries[i..] + [entries[i - 1]])
  {
    var m := MovedLast(ns, i);
    var e := entries[..i - 1] + entries[i..] + [entries[i - 1]];
    forall j | 0 <= j < |e| ensures m[j + 1].key == e[j].key && m[j + 1].value == e[j].value {
      if j < i - 1 {
        assert m[j + 1] == ns[j + 1] && e[j] == entries[j];
      } else if j < |e| - 1 {
        assert m[j + 1] == ns[j + 2] && e[j] == entries[j + 1];
      } else {
        assert m[j + 1] == ns[i] && e[j] == entries[i - 1];
      }
    }
  }

  /** Taking out the node at i takes out entry i - 1. */
  lemma MirrorsRemoved(ns: seq<DLinkedNode>, entries: seq<Entry>, i: int)
    requires Mirrors(ns, entries) && 0 < i < |ns| - 1
    ensures Mirrors(ns[..i] + ns[i + 1..], entries[..i - 1] + entries[i..])
  {
    var m := ns[..i] + ns[i + 1..];
    var e := entries[..i - 1] + entries[i..];
    forall j | 0 <= j < |e| ensures m[j + 1].key == e[j].key && m[j + 1].value == e[j].value {
      if j < i - 1 {
        assert m[j + 1] == ns[j + 1] && e[j] == entries[j];
      } else {
        assert m[j + 1] == ns[j + 2] && e[j] == entries[j + 1];
      }
    }
  }

  /** Linking a node in before the tail appends its entry. */
  lemma MirrorsAppended(ns: seq<DLinkedNode>, entries: seq<Entry>, node: DLinkedNode)
    requires Mirrors(ns, entries)
    ensures Mirrors(ns[..|ns| - 1] + [node, ns[|ns| - 1]], entries + [Entry(node.key, node.value)])
  {
    var m := ns[..|ns| - 1] + [node, ns[|ns| - 1]];
    var e := entries + [Entry(node.key, node.value)];
    forall j | 0 <= j < |e| ensures m[j + 1].key == e[j].key && m[j + 1].value == e[j].value {
      if j < |entries| {
        assert m[j + 1] == ns[j + 1] && e[j] == entries[j];
      }
    }
  }

  /** get's order on the entries is Touch. */
  lemma TouchAt(s: seq<Entry>, i: int)
    requires UniqueKeys(s) && 0 <= i < |s|
    ensures Touch(s, s[i].key) == s[..i] + s[i + 1..] + [s[i]]
    ensures Lookup(s, s[i].key) == s[i].value
  {
    IndexOfEntry(s, i);
  }

  /** put on a present key: set the value, then move the entry last, which is Store. */
  lemma PutPresent(s: seq<Entry>, capacity: int, i: int, value: int)
    requires Fits(s, capacity) && 0 <= i < |s|
    ensures UniqueKeys(s[i := Entry(s[i].key, value)])
    ensures var t := s[i := Entry(s[i].key, value)];
      t[..i] + t[i + 1..] + [t[i]] == Store(s, capacity, s[i].key, value)
  {
    var t := s[i := Entry(s[i].key, value)];
    assert UniqueKeys(t);
    IndexOfEntry(s, i);
    assert t[..i] == s[..i] && t[i + 1..] == s[i + 1..];
  }

  /** Moving a node last keeps the same nodes, the sentinels at both ends. */
  lemma MovedSame<T>(ns: seq<T>, i: int)
    requires 0 < i < |ns| - 1
    ensures |MovedLast(ns, i)| == |ns|
    ensures MovedLast(ns, i)[0] == ns[0] && MovedLast(ns, i)[|ns| - 1] == ns[|ns| - 1]
    ensures forall n :: n in MovedLast(ns, i) <==> n in ns
  {
    var m := MovedLast(ns, i);
    forall n | n in ns ensures n in m {
      var j :| 0 <= j < |ns| && ns[j] == n;
      if j < i {
        assert m[j] == n;
      } else if j == i {
        assert m[|ns| - 2] == n;
      } else if j < |ns| - 1 {
        assert m[j - 1] == n;
      } else {
        assert m[|ns| - 1] == n;
      }
    }
  }

  /** The map sends each cached key to the node holding its entry, and holds no other key. */
  ghost predicate NodeMap(cache: map<int, DLinkedNode>, ns: seq<DLinkedNode>, entries: seq<Entry>) {
    && |ns| == |entries| + 2
    && (forall k :: k in cache <==> Has(entries, k))
    && (forall k :: k in cache ==> cache[k] == ns[IndexOf(entries, k) + 1])
  }

  /** Where a key sits after its neighbour at i is moved last. */
  lemma IndexMoved(s: seq<Entry>, i: int, k: int)
    requires UniqueKeys(s) && 0 <= i < |s| && Has(s, k)
    ensures var t := s[..i] + s[i + 1..] + [s[i]];
      IndexOf(t, k) == (if k == s[i].key then |s| - 1 else if IndexOf(s, k) < i then IndexOf(s, k) else IndexOf(s, k) - 1)
  {
    var t := s[..i] + s[i + 1..] + [s[i]];
    TouchAt(s, i);
    TouchFacts(s, s[i].key);
    var b := IndexOf(s, k);
    var c := if k == s[i].key then |s| - 1 else if b < i then b else b - 1;
    assert t[c] == s[b];
    IndexOfEntry(t, c);
  }

  /** After the move, each key's new position still names its old node. */
  lemma NodeMoved(ns: seq<DLinkedNode>, entries: seq<Entry>, i: int, k: int)
    requires UniqueKeys(entries) && |ns| == |entries| + 2 && 0 < i < |ns| - 1 && Has(entries, k)
    ensures var e := entries[..i - 1] + entries[i..] + [entries[i - 1]];
      0 <= IndexOf(e, k) < |entries| && MovedLast(ns, i)[IndexOf(e, k) + 1] == ns[IndexOf(entries, k) + 1]
  {
    IndexMoved(entries, i - 1, k);
    var b := IndexOf(entries, k);
    if k == entries[i - 1].key {
      IndexOfEntry(entries, i - 1);
      assert MovedLast(ns, i)[|entries|] == ns[i];
    } else if b < i - 1 {
      assert MovedLast(ns, i)[b + 1] == ns[b + 1];
    } else {
      assert MovedLast(ns, i)[b] == ns[b + 1];
    }
  }

  /** get keeps the map pointing at the right nodes. */
  lemma NodeMapMoved(cache: map<int, DLinkedNode>, ns: seq<DLinkedNode>, entries: seq<Entry>, i: int)
    requires NodeMap(cache, ns, entries) && UniqueKeys(entries) && 0 < i < |ns| - 1
    ensures NodeMap(cache, MovedLast(ns, i), entries[..i - 1] + entries[i..] + [entries[i - 1]])
  {
    var e := entries[..i - 1] + entries[i..] + [entries[i - 1]];
    TouchAt(entries, i - 1);
    TouchFacts(entries, entries[i - 1].key);
    forall k | k in cache ensures cache[k] == MovedLast(ns, i)[IndexOf(e, k) + 1] {
      NodeMoved(ns, entries, i, k);
    }
  }

  /** get on the entry at i - 1 keeps the invariant's list-independent part: the order becomes Touch. */
  lemma TouchKeeps(cache: map<int, DLinkedNode>, ns: seq<DLinkedNode>, entries: seq<Entry>, capacity: int, i: int)
    requires Fits(entries, capacity) && NodeMap(cache, ns, entries) && 0 < i < |ns| - 1
    ensures var e := entries[..i - 1] + entries[i..] + [entries[i - 1]];
      && e == Touch(entries, entries[i - 1].key)
      && Lookup(entries, entries[i - 1].key) == entries[i - 1].value
      && Fits(e, capacity) && NodeMap(cache, MovedLast(ns, i), e)
  {
    TouchAt(entries, i - 1);
    TouchFacts(entries, entries[i - 1].key);
    NodeMapMoved(cache, ns, entries, i);
  }

  /** Positions depend on the keys only: a new value keeps every index. */
  lemma IndexSetValue(s: seq<Entry>, i: int, value: int, k: int)
    requires 0 <= i < |s|
    ensures IndexOf(s[i := Entry(s[i].key, value)], k) == IndexOf(s, k)
  {
    var t := s[i := Entry(s[i].key, value)];
    var b := IndexOf(s, k);
    if b >= 0 {
      IndexAt(t, k, b);
    } else {
      assert forall j :: 0 <= j < |t| ==> t[j].key != k;
      assert IndexOf(t, k) < 0;
    }
  }

  /** put on a present key keeps the map pointing at the right nodes after the value is set. */
  lemma NodeMapSetValue(cache: map<int, DLinkedNode>, ns: seq<DLinkedNode>, entries: seq<Entry>, i: int, value: int)
    requires NodeMap(cache, ns, entries) && 0 <= i < |entries|
    ensures NodeMap(cache, ns, entries[i := Entry(entries[i].key, value)])
  {
    forall k ensures IndexOf(entries[i := Entry(entries[i].key, value)], k) == IndexOf(entries, k) {
      IndexSetValue(entries, i, value, k);
    }
  }

  /** put of a new key: the map gains the key and its node, linked in before the tail. */
  lemma NodeMapAppended(cache: map<int, DLinkedNode>, ns: seq<DLinkedNode>, entries: seq<Entry>, key: int, value: int, node: DLinkedNode)
    requires NodeMap(cache, ns, entries) && UniqueKeys(entries) && !Has(entries, key)
    ensures NodeMap(cache[key := node], ns[..|ns| - 1] + [node, ns[|ns| - 1]], entries + [Entry(key, value)])
  {
    var e := entries + [Entry(key, value)];
    var m := ns[..|ns| - 1] + [node, ns[|ns| - 1]];
    AppendFacts(entries, key, value);
    forall k | k in cache[key := node] ensures cache[key := node][k] == m[IndexOf(e, k) + 1] {
      if k != key {
        var b := IndexOf(entries, k);
        assert e[b] == entries[b];
        IndexOfEntry(e, b);
      }
    }
  }

  /** After entry j is taken out, each other key's new position still names its old node. */
  lemma NodeRemoved(ns: seq<DLinkedNode>, entries: seq<Entry>, j: int, k: int)
    requires UniqueKeys(entries) && |ns| == |entries| + 2 && 0 <= j < |entries|
    requires UniqueKeys(entries[..j] + entries[j + 1..]) && Has(entries, k) && k != entries[j].key
    ensures var e := entries[..j] + entries[j + 1..];
      0 <= IndexOf(e, k) < |e| && (ns[..j + 1] + ns[j + 2..])[IndexOf(e, k) + 1] == ns[IndexOf(entries, k) + 1]
  {
    var e := entries[..j] + entries[j + 1..];
    var m := ns[..j + 1] + ns[j + 2..];
    var b := IndexOf(entries, k);
    IndexOfEntry(entries, j);
    var b' := if b < j then b else b - 1;
    assert e[b'] == entries[b];
    IndexOfEntry(e, b');
    assert m[b' + 1] == ns[b + 1];
  }

  /** Taking out entry j: the map loses its key and the list its node. */
  lemma NodeMapRemoved(cache: map<int, DLinkedNode>, ns: seq<DLinkedNode>, entries: seq<Entry>, j: int)
    requires NodeMap(cache, ns, entries) && UniqueKeys(entries) && 0 <= j < |entries|
    ensures NodeMap(cache - {entries[j].key}, ns[..j + 1] + ns[j + 2..], entries[..j] + entries[j + 1..])
  {
    var key := entries[j].key;
    var e := entries[..j] + entries[j + 1..];
    var m := ns[..j + 1] + ns[j + 2..];
    var c := cache - {key};
    IndexOfEntry(entries, j);
    WithoutFacts(entries, key);
    assert Without(entries, key) == e;
    RemoveAt(entries, j);
    forall k | k in c ensures c[k] == m[IndexOf(e, k) + 1] {
      NodeRemoved(ns, entries, j, k);
    }
  }

  /** Appending a new key's entry, and dropping the first beyond the capacity, is put's Store. */
  lemma PutNew(s: seq<Entry>, capacity: int, key: int, value: int)
    requires Fits(s, capacity) && !Has(s, key)
    ensures var t := s + [Entry(key, value)];
      Store(s, capacity, key, value) == if |t| > capacity then t[1..] else t
    ensures UniqueKeys(s + [Entry(key, value)])
  {
    WithoutFacts(s, key);
    AppendFacts(s, key, value);
  }

  /** put of a new key: its entry appended, and the first one evicted beyond the capacity; this is Store, and the invariant's list-independent part holds. */
  lemma PutNewKeeps(cache: map<int, DLinkedNode>, ns: seq<DLinkedNode>, entries: seq<Entry>, capacity: int, key: int, value: int, node: DLinkedNode)
    requires Fits(entries, capacity) && NodeMap(cache, ns, entries) && key !in cache
    ensures var e := entries + [Entry(key, value)];
      var m := ns[..|ns| - 1] + [node, ns[|ns| - 1]];
      && UniqueKeys(e) && NodeMap(cache[key := node], m, e)
      && (|e| <= capacity ==> e == Store(entries, capacity, key, value) && Fits(e, capacity))
      && (|e| > capacity ==>
            && e[1..] == Store(entries, capacity, key, value) && Fits(e[1..], capacity)
            && NodeMap(cache[key := node] - {e[0].key}, m[..1] + m[2..], e[1..]))
  {
    var e := entries + [Entry(key, value)];
    PutNew(entries, capacity, key, value);
    NodeMapAppended(cache, ns, entries, key, value, node);
    StoreFits(entries, capacity, key, value);
    if |e| > capacity {
      NodeMapRemoved(cache[key := node], ns[..|ns| - 1] + [node, ns[|ns| - 1]], e, 0);
      assert e[..0] + e[1..] == e[1..];
    }
  }

  /** Setting a key adds one to the size of the map without it. */
  lemma CardPut<V>(m: map<int, V>, k: int, v: V)
    ensures |m[k := v]| == |m - {k}| + 1
  {
    var r := m - {k};
    assert k !in r;
    assert m[k := v] == r[k := v];
  }

  /** Deleting a present key takes one from the size of the map. */
  lemma CardRemove<V>(m: map<int, V>, k: int)
    requires k in m
    ensures |m - {k}| == |m| - 1
  {
    CardPut(m, k, m[k]);
    assert m[k := m[k]] == m;
  }

  /** LRUCache4.put on the present key at i - 1: its entry and node taken out leave a cache that Store treats alike. */
  lemma RemoveKeeps(cache: map<int, DLinkedNode>, ns: seq<DLinkedNode>, entries: seq<Entry>, capacity: int, i: int)
    requires Fits(entries, capacity) && NodeMap(cache, ns, entries) && |cache| == |entries| && 0 < i < |ns| - 1
    ensures var k := entries[i - 1].key;
      var e := entries[..i - 1] + entries[i..];
      && e == Without(entries, k)
      && Fits(e, capacity) && NodeMap(cache - {k}, ns[..i] + ns[i + 1..], e) && |cache - {k}| == |e|
  {
    var k := entries[i - 1].key;
    var e := entries[..i - 1] + entries[i..];
    NodeMapRemoved(cache, ns, entries, i - 1);
    IndexOfEntry(entries, i - 1);
    WithoutFacts(entries, k);
    assert Without(entries, k) == e;
    CardRemove(cache, k);
  }

  /** put first taking out the key's entry does not change Store. */
  lemma StoreWithout(s: seq<Entry>, capacity: int, key: int, value: int)
    requires UniqueKeys(s)
    ensures Store(Without(s, key), capacity, key, value) == Store(s, capacity, key, value)
  {
    WithoutFacts(s, key);
    WithoutFacts(Without(s, key), key);
  }

  /** put on the present key at i - 1: new value, moved last; this is Store, and the invariant's list-independent part holds. */
  lemma PutPresentKeeps(cache: map<int, DLinkedNode>, ns: seq<DLinkedNode>, entries: seq<Entry>, capacity: int, i: int, value: int)
    requires Fits(entries, capacity) && NodeMap(cache, ns, entries) && 0 < i < |ns| - 1
    ensures var t := entries[i - 1 := Entry(entries[i - 1].key, value)];
      var e := t[..i - 1] + t[i..] + [t[i - 1]];
      && e == Store(entries, capacity, entries[i - 1].key, value)
      && Fits(e, capacity) && NodeMap(cache, MovedLast(ns, i), e)
  {
    PutPresent(entries, capacity, i - 1, value);
    NodeMapSetValue(cache, ns, entries, i - 1, value);
    var t := entries[i - 1 := Entry(entries[i - 1].key, value)];
    TouchKeeps(cache, ns, t, capacity, i);
    StoreFits(entries, capacity, entries[i - 1].key, value);
  }

  /** _remove_head: unlink and return the least recently used node, head.next. */
  method RemoveHead(head: DLinkedNode, ghost ns: seq<DLinkedNode>, ghost entries: seq<Entry>) returns (node: DLinkedNode)
    requires Linked(ns) && |ns| >= 3 && ns[0] == head && Mirrors(ns, entries)
    modifies ns
    ensures node == ns[1] && node.key == entries[0].key
    ensures Linked(ns[..1] + ns[2..]) && Mirrors(ns[..1] + ns[2..], entries[1..])
  {
    MirrorsRemoved(ns, entries, 1);
    assert entries[..0] + entries[1..] == entries[1..];
    node := head.next;
    Unlink(node, ns, 1);
  }

  /**
   * put on a new key, on the map and the list: the fresh node is mapped and
   * linked in before the tail, and beyond the capacity the head's successor
   * is unlinked and its key deleted; the entries end at Store.
   */
  method InsertNode(key: int, value: int, head: DLinkedNode, tail: DLinkedNode, cache: map<int, DLinkedNode>, ghost ns: seq<DLinkedNode>, ghost entries: seq<Entry>, capacity: int, size: int)
    returns (c: map<int, DLinkedNode>, n: int, ghost m': seq<DLinkedNode>)
    requires Inv(cache, head, tail, ns, entries, capacity, size) && key !in cache
    modifies ns
    ensures Inv(c, head, tail, m', Store(entries, capacity, key, value), capacity, n)
  {
    var node := new DLinkedNode(key, value);
    ghost var m, e := ns[..|ns| - 1] + [node, tail], entries + [Entry(key, value)];
    PutNewKeeps(cache, ns, entries, capacity, key, value, node);
    c := cache[key := node];
    Append(node, tail, ns, entries);
    n := size + 1;
    if n > capacity {
      var removed := RemoveHead(head, m, e);
      c := c - {removed.key};
      n := n - 1;
      m' := m[..1] + m[2..];
    } else {
      m' := m;
    }
  }

  /** put on the map and the list: the entries end at Store, and the invariant holds of the new map, size and nodes. */
  method PutList(key: int, value: int, head: DLinkedNode, tail: DLinkedNode, cache: map<int, DLinkedNode>, ghost ns: seq<DLinkedNode>, ghost entries: seq<Entry>, capacity: int, size: int)
    returns (c: map<int, DLinkedNode>, n: int, ghost m: seq<DLinkedNode>)
    requires Inv(cache, head, tail, ns, entries, capacity, size)
    modifies ns
    ensures Inv(c, head, tail, m, Store(entries, capacity, key, value), capacity, n)
  {
    if key in cache {
      var node := cache[key];
      ghost var i := IndexOf(entries, key) + 1;
      PutPresentList(node, value, head, tail, cache, ns, entries, capacity, size, i);
      c, n, m := cache, size, MovedLast(ns, i);
    } else {
      c, n, m := InsertNode(key, value, head, tail, cache, ns, entries, capacity, size);
    }
  }

  // ---------------------------------------------------------------------
  // LRUCache2: a hash map from key to node, over a doubly linked list

  class LRUCache2 {
    var capacity: int
    var cache: map<int, DLinkedNode>
    var head: DLinkedNode
    var tail: DLinkedNode
    var size: int
    /** head, then the entries' nodes least recently used first, then tail. */
    ghost var nodes: seq<DLinkedNode>
    ghost var entries: seq<Entry>

    ghost predicate Valid()
      reads this, nodes
    {
      Inv(cache, head, tail, nodes, entries, capacity, size)
    }

    constructor (capacity: int)
      ensures Valid() && this.capacity == capacity && entries == []
    {
      this.capacity := capacity;
      cache := map[];
      var h := new DLinkedNode(0, 0);
      var t := new DLinkedNode(0, 0);
      h.next := t;
      t.prev := h;
      head, tail := h, t;
      size := 0;
      nodes, entries := [h, t], [];
    }

    /** get: -1 for a missing key; otherwise move its node to the tail and return its value. */
    method Get(key: int) returns (r: int)
      requires Valid()
      modifies this, nodes
      ensures Valid() && capacity == old(capacity)
      ensures r == Lookup(old(entries), key) && entries == Touch(old(entries), key)
    {
      if key !in cache {
        return -1;
      }
      var node := cache[key];
      ghost var ns, es := nodes, entries;
      ghost var i := IndexOf(es, key) + 1;
      nodes, entries := MovedLast(ns, i), Touch(es, key);
      r := GetList(node, head, tail, cache, ns, es, capacity, size, i);
    }

    /**
     * put: a present key gets the new value and moves to the tail; a new
     * key gets a node at the tail, and beyond the capacity the head's
     * successor is unlinked and its key deleted from the map.
     */
    method Put(key: int, value: int)
      requires Valid()
      modifies this, nodes
      ensures Valid() && capacity == old(capacity)
      ensures entries == Store(old(entries), capacity, key, value)
    {
      ghost var es := entries;
      entries := Store(es, capacity, key, value);
      var c, n;
      ghost var m;
      c, n, m := PutList(key, value, head, tail, cache, nodes, es, capacity, size);
      assert Inv(c, head, tail, m, entries, capacity, n);
      cache, size, nodes := c, n, m;
      // the field updates leave the nodes untouched
      assert Inv(c, head, tail, m, entries, capacity, n);
    }
  }

  // ---------------------------------------------------------------------
  // LRUCache4: a hash map over a doubly linked list, a fresh node on every put

  /**
   * LRUCache4.put on the map and the list: a present key's node is unlinked,
   * a fresh node is mapped and inserted at the right, and when the map
   * outgrows the capacity the leftmost real node is unlinked and its key
   * deleted; the entries end at Store.
   */
  method ReplaceNode(key: int, value: int, left: DLinkedNode, right: DLinkedNode, cache: map<int, DLinkedNode>, ghost ns: seq<DLinkedNode>, ghost entries: seq<Entry>, cap: int)
    returns (c: map<int, DLinkedNode>, ghost m: seq<DLinkedNode>)
    requires Inv(cache, left, right, ns, entries, cap, |cache|)
    modifies ns
    ensures Inv(c, left, right, m, Store(entries, cap, key, value), cap, |c|)
  {
    ghost var ns1 := ns;
    if key in cache {
      ghost var i := Detach(key, left, right, cache, ns, entries, cap);
      ns1 := ns[..i] + ns[i + 1..];
    } else {
      WithoutFacts(entries, key);
      assert cache - {key} == cache;
    }
    StoreWithout(entries, cap, key, value);
    c, m := InsertRight(key, value, left, right, cache, ns1, Without(entries, key), cap);
  }

  /** LRUCache4.put on a present key: its old node is unlinked, leaving the list and the map without the key. */
  method Detach(key: int, left: DLinkedNode, right: DLinkedNode, cache: map<int, DLinkedNode>, ghost ns: seq<DLinkedNode>, ghost entries: seq<Entry>, cap: int)
    returns (ghost i: int)
    requires Inv(cache, left, right, ns, entries, cap, |cache|) && key in cache
    modifies ns
    ensures 0 < i < |ns| - 1
    ensures Inv(cache - {key}, left, right, ns[..i] + ns[i + 1..], Without(entries, key), cap, |cache - {key}|)
  {
    var stale := cache[key];
    i := IndexOf(entries, key) + 1;
    RemoveKeeps(cache, ns, entries, cap, i);
    MirrorsRemoved(ns, entries, i);
    Unlink(stale, ns, i);
  }

  /**
   * The rest of LRUCache4.put, once the key's old node is unlinked: a fresh
   * node is mapped and inserted at the right, and beyond the capacity the
   * leftmost real node is unlinked and its key deleted.
   */
  method InsertRight(key: int, value: int, left: DLinkedNode, right: DLinkedNode, cache: map<int, DLinkedNode>, ghost ns: seq<DLinkedNode>, ghost entries: seq<Entry>, cap: int)
    returns (c: map<int, DLinkedNode>, ghost m: seq<DLinkedNode>)
    requires Inv(cache - {key}, left, right, ns, entries, cap, |cache - {key}|)
    modifies ns
    ensures Inv(c, left, right, m, Store(entries, cap, key, value), cap, |c|)
  {
    var node := new DLinkedNode(key, value);
    PutNewKeeps(cache - {key}, ns, entries, cap, key, value, node);
    CardPut(cache, key, node);
    c := cache[key := node];
    assert c == (cache - {key})[key := node];
    Append(node, right, ns, entries);
    m := ns[..|ns| - 1] + [node, right];
    if |c| > cap {
      c, m := EvictLeft(left, right, c, m, entries + [Entry(key, value)], cap);
    }
  }

  /** LRUCache4's eviction: the leftmost real node is unlinked and its key deleted from the map. */
  method EvictLeft(left: DLinkedNode, right: DLinkedNode, cache: map<int, DLinkedNode>, ghost ns: seq<DLinkedNode>, ghost entries: seq<Entry>, cap: int)
    returns (c: map<int, DLinkedNode>, ghost m: seq<DLinkedNode>)
    requires |ns| >= 3 && ns[0] == left && ns[|ns| - 1] == right && Linked(ns) && Mirrors(ns, entries)
    requires UniqueKeys(entries) && Fits(entries[1..], cap) && NodeMap(cache, ns, entries) && |cache| == |entries|
    modifies ns
    ensures Inv(c, left, right, m, entries[1..], cap, |c|)
  {
    NodeMapRemoved(cache, ns, entries, 0);
    assert entries[..0] + entries[1..] == entries[1..];
    var lru := RemoveHead(left, ns, entries);
    CardRemove(cache, lru.key);
    c := cache - {lru.key};
    m := ns[..1] + ns[2..];
  }

  class LRUCache4 {
    var cap: int
    var cache: map<int, DLinkedNode>
    var left: DLinkedNode
    var right: DLinkedNode
    /** left, then the entries' nodes least recently used first, then right. */
    ghost var nodes: seq<DLinkedNode>
    ghost var entries: seq<Entry>

    ghost predicate Valid()
      reads this, nodes
    {
      Inv(cache, left, right, nodes, entries, cap, |cache|)
    }

    constructor (capacity: int)
      ensures Valid() && cap == capacity && entries == []
    {
      cap := capacity;
      cache := map[];
      var l := new DLinkedNode(0, 0);
      var r := new DLinkedNode(0, 0);
      l.next := r;
      r.prev := l;
      left, right := l, r;
      nodes, entries := [l, r], [];
    }

    /** get: -1 for a missing key; otherwise remove its node, insert it at the right and return its value. */
    method Get(key: int) returns (r: int)
      requires Valid()
      modifies this, nodes
      ensures Valid() && cap == old(cap)
      ensures r == Lookup(old(entries), key) && entries == Touch(old(entries), key)
    {
      if key !in cache {
        return -1;
      }
      var node := cache[key];
      ghost var ns, es := nodes, entries;
      ghost var i := IndexOf(es, key) + 1;
      nodes, entries := MovedLast(ns, i), Touch(es, key);
      r := GetList(node, left, right, cache, ns, es, cap, |cache|, i);
    }

    /** put: a fresh node for the key at the right, and beyond the capacity the leftmost real node evicted. */
    method Put(key: int, value: int)
      requires Valid()
      modifies this, nodes
      ensures Valid() && cap == old(cap)
      ensures entries == Store(old(entries), cap, key, value)
    {
      ghost var es := entries;
      entries := Store(es, cap, key, value);
      var c;
      ghost var m;
      c, m := ReplaceNode(key, value, left, right, cache, nodes, es, cap);
      assert Inv(c, left, right, m, entries, cap, |c|);
      cache, nodes := c, m;
      // the field updates leave the nodes untouched
      assert Inv(c, left, right, m, entries, cap, |c|);
    }
  }
}

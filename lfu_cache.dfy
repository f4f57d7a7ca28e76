// A least-frequently-used cache of integer keys and values, three ways: a
// map to nodes with one doubly linked list per use count, a map to
// (value, count) with one OrderedDict of keys per use count, and a single
// map to (value, count, timestamp) searched for the entry to evict.
//
// The third version is the specification: every key has a value, a use
// count and the time of its last use, and put on a new key into a full
// cache evicts the key with the least (count, time). The two bucketed
// versions are proved against it, with ghost timestamps standing for the
// order of the keys within a bucket.

module LfuCache {
  import opened Common

  /** What the cache holds for a key: its value, how often it was used, and the tick of its last use. */
  datatype Slot = Slot(value: int, freq: int, stamp: int)

  /** The cache as the specification sees it: the slots, and the tick of the last operation. */
  datatype Lfu = Lfu(slots: map<int, Slot>, clock: int)

  // ---------------------------------------------------------------------
  // The specification

  /** a is evicted before b: it was used fewer times, or as often but longer ago. */
  predicate Before(a: Slot, b: Slot) {
    a.freq < b.freq || (a.freq == b.freq && a.stamp < b.stamp)
  }

  /** k is a key of m that no other key comes before. */
  ghost predicate IsLeast(m: map<int, Slot>, k: int) {
    k in m && forall j :: j in m && j != k ==> !Before(m[j], m[k])
  }

  /** No two keys were last used at the same tick. */
  ghost predicate DistinctStamps(m: map<int, Slot>) {
    forall j, k :: j in m && k in m && j != k ==> m[j].stamp != m[k].stamp
  }

  /** The cache's invariant: no more keys than the capacity, every key used at least once, at distinct past ticks. */
  ghost predicate Good(s: Lfu, capacity: int) {
    Sized(s, capacity) && DistinctStamps(s.slots)
  }

  /** No more keys than the capacity, every key used at least once, at a past tick. */
  ghost predicate Sized(s: Lfu, capacity: int) {
    && |s.slots| <= capacity
    && forall k :: k in s.slots ==> 1 <= s.slots[k].freq && s.slots[k].stamp <= s.clock
  }

  /** Every non-empty cache has a key to evict. */
  lemma LeastExists(m: map<int, Slot>)
    requires m != map[]
    ensures exists k :: IsLeast(m, k)
    decreases |m|
  {
    NonEmpty(m);
    var k0 :| k0 in m;
    var r := m - {k0};
    if r == map[] {
      assert forall j :: j in m ==> j == k0 by {
        forall j | j in m && j != k0 ensures j in r {
        }
      }
      assert IsLeast(m, k0);
    } else {
      assert r.Keys == m.Keys - {k0};
      LeastExists(r);
      var k1 :| IsLeast(r, k1);
      if Before(m[k0], m[k1]) {
        forall j | j in m && j != k0 ensures !Before(m[j], m[k0]) {
          if j != k1 {
            assert j in r && !Before(r[j], r[k1]);
          }
        }
        assert IsLeast(m, k0);
      } else {
        forall j | j in m && j != k1 ensures !Before(m[j], m[k1]) {
          if j != k0 {
            assert j in r && !Before(r[j], r[k1]);
          }
        }
        assert IsLeast(m, k1);
      }
    }
  }

  /** A map that is not empty has a key. */
  lemma NonEmpty<V>(m: map<int, V>)
    requires m != map[]
    ensures exists k :: k in m
  {
    if forall k :: k !in m {
      assert false;
    }
  }

  /** A set that is not empty has an element. */
  lemma HasElement(s: set<int>)
    requires s != {}
    ensures exists x :: x in s
  {
    if forall x :: x !in s {
      assert false;
    }
  }

  /** With distinct ticks, the key to evict is unique. */
  lemma LeastUnique(m: map<int, Slot>, a: int, b: int)
    requires DistinctStamps(m) && IsLeast(m, a) && IsLeast(m, b)
    ensures a == b
  {
  }

  /** The key put evicts from a full cache. */
  ghost function Victim(m: map<int, Slot>): (k: int)
    requires m != map[]
    ensures IsLeast(m, k)
  {
    LeastExists(m);
    var k :| IsLeast(m, k); k
  }

  /** The slots after a use of a present key: it holds value, has one more use, and is stamped with the next tick. */
  function Touch(slots: map<int, Slot>, key: int, value: int, clock: int): map<int, Slot>
    requires key in slots
  {
    slots[key := Slot(value, slots[key].freq + 1, clock + 1)]
  }

  /** get: -1 and no change for a missing key; otherwise its value, with one more use at the next tick. */
  function Read(s: Lfu, key: int): (int, Lfu) {
    if key !in s.slots then (-1, s)
    else (s.slots[key].value, Lfu(Touch(s.slots, key, s.slots[key].value, s.clock), s.clock + 1))
  }

  /**
   * put: nothing at capacity 0; a present key takes the value and one more
   * use; a new key evicts the victim when the cache is full and enters
   * with one use. Either way the clock ticks.
   */
  ghost function Write(s: Lfu, capacity: int, key: int, value: int): Lfu
    requires capacity >= 0
  {
    if capacity == 0 then s
    else if key in s.slots then
      Lfu(Touch(s.slots, key, value, s.clock), s.clock + 1)
    else Lfu(Kept(s.slots, capacity)[key := Slot(value, 1, s.clock + 1)], s.clock + 1)
  }

  /** The slots a new key joins: the victim is gone when the cache is full. */
  ghost function Kept(m: map<int, Slot>, capacity: int): map<int, Slot>
    requires capacity > 0
  {
    if |m| >= capacity then m - {Victim(m)} else m
  }

  /** get keeps the invariant and the keys; a present key keeps its value and gains one use, and no other key changes. */
  lemma ReadFacts(s: Lfu, capacity: int, key: int)
    requires Good(s, capacity)
    ensures Good(Read(s, key).1, capacity)
    ensures Read(s, key).1.slots.Keys == s.slots.Keys
    ensures key !in s.slots ==> Read(s, key) == (-1, s)
    ensures key in s.slots ==> Read(s, key).0 == s.slots[key].value && Read(s, key).1.slots[key].value == s.slots[key].value
    ensures key in s.slots ==> Read(s, key).1.slots[key].freq == s.slots[key].freq + 1
    ensures forall k :: k in s.slots && k != key ==> Read(s, key).1.slots[k] == s.slots[k]
  {
  }

  /** Setting a key adds one to the size of the map without it. */
  lemma CardPut<V>(m: map<int, V>, k: int, v: V)
    ensures |m[k := v]| == |m - {k}| + 1
  {
    var r := m - {k};
    assert k !in r;
    assert m[k := v] == r[k := v];
  }

  /** Deleting a present key takes one from the size of the map. */
  lemma CardRemove<V>(m: map<int, V>, k: int)
    requires k in m
    ensures |m - {k}| == |m| - 1
  {
    assert (m - {k})[k := m[k]] == m;
    CardPut(m, k, m[k]);
  }

  /** put keeps the invariant: in particular the cache never holds more keys than the capacity. */
  lemma WriteKeeps(s: Lfu, capacity: int, key: int, value: int)
    requires capacity >= 0 && Good(s, capacity)
    ensures Good(Write(s, capacity, key, value), capacity)
  {
    if capacity > 0 && key !in s.slots {
      if |s.slots| >= capacity {
        var v := Victim(s.slots);
        CardRemove(s.slots, v);
        EnterGood(s.slots - {v}, s.clock, capacity, key, value);
      } else {
        EnterGood(s.slots, s.clock, capacity, key, value);
      }
    }
  }

  /** A new key entering a cache with room, at the next tick, keeps the invariant. */
  lemma EnterGood(m: map<int, Slot>, clock: int, capacity: int, key: int, value: int)
    requires Good(Lfu(m, clock), capacity - 1) && key !in m
    ensures Good(Lfu(m[key := Slot(value, 1, clock + 1)], clock + 1), capacity)
  {
    CardPut(m, key, Slot(value, 1, clock + 1));
    assert m - {key} == m;
  }

  /** put on a present key: the value is replaced, the key gains one use, and nothing is evicted or otherwise changed. */
  lemma WritePresent(s: Lfu, capacity: int, key: int, value: int)
    requires capacity > 0 && Good(s, capacity) && key in s.slots
    ensures var r := Write(s, capacity, key, value);
      && r.slots.Keys == s.slots.Keys
      && r.slots[key].value == value && r.slots[key].freq == s.slots[key].freq + 1
      && forall k :: k in s.slots && k != key ==> r.slots[k] == s.slots[k]
  {
  }

  /**
   * put of a new key: it enters with one use, the least count there is;
   * below the capacity nothing is evicted, and at the capacity exactly
   * the key with the least (count, tick) is, the others keeping their slots.
   */
  lemma WriteNew(s: Lfu, capacity: int, key: int, value: int)
    requires capacity > 0 && Good(s, capacity) && key !in s.slots
    ensures var r := Write(s, capacity, key, value);
      && r.slots[key] == Slot(value, 1, s.clock + 1)
      && (forall k :: k in r.slots ==> r.slots[key].freq <= r.slots[k].freq)
      && (|s.slots| < capacity ==> r.slots.Keys == s.slots.Keys + {key})
      && (|s.slots| >= capacity ==>
            exists v :: IsLeast(s.slots, v) && r.slots.Keys == s.slots.Keys - {v} + {key})
      && forall k :: k in s.slots && k in r.slots && k != key ==> r.slots[k] == s.slots[k]
  {
    var r := Write(s, capacity, key, value);
    if |s.slots| >= capacity {
      var v := Victim(s.slots);
      assert r.slots.Keys == s.slots.Keys - {v} + {key};
    }
  }

  /** Within a bucketed cache two keys no other comes before are the same key: a bucket's ticks are distinct. */
  lemma LeastInBucket(slots: map<int, Slot>, b: map<int, seq<int>>, up: bool, v: int, o: int)
    requires Buckets(slots, b, up) && IsLeast(slots, v) && IsLeast(slots, o)
    ensures v == o
  {
    if v != o {
      var f := slots[v].freq;
      var s := Keys(b, f);
      assert v in s && o in s;
      assert f in b && Ranked(slots, b[f], f, up);
      var p :| 0 <= p < |s| && s[p] == v;
      var q :| 0 <= q < |s| && s[q] == o;
      RankedDistinct(slots, s, f, up, p, q);
    }
  }

  /** With distinct ticks, a key no other comes before is the victim. */
  lemma IsVictim(m: map<int, Slot>, k: int)
    requires DistinctStamps(m) && IsLeast(m, k)
    ensures Victim(m) == k
  {
    LeastUnique(m, Victim(m), k);
  }

  /** A put on a full cache of two keys: the one used fewer times, or as often but longer ago, goes, and the key enters at the next tick. */
  lemma PutOnPair(a: int, x: Slot, b: int, y: Slot, clock: int, key: int, value: int)
    requires a != b && key != a && key != b && Before(x, y) && x.stamp != y.stamp
    ensures Write(Lfu(map[a := x, b := y], clock), 2, key, value) == Lfu(map[b := y, key := Slot(value, 1, clock + 1)], clock + 1)
  {
    var m := map[a := x, b := y];
    assert m.Keys == {a, b};
    IsVictim(m, a);
    assert m - {a} == map[b := y];
  }

  /** Two puts of distinct keys into an empty cache of capacity 2: both enter with one use, at ticks 1 and 2. */
  lemma TwoPuts(a: int, x: int, b: int, y: int)
    requires a != b
    ensures Write(Write(Lfu(map[], 0), 2, a, x), 2, b, y) == Lfu(map[a := Slot(x, 1, 1), b := Slot(y, 1, 2)], 2)
  {
    var m := map[a := Slot(x, 1, 1)];
    assert Write(Lfu(map[], 0), 2, a, x) == Lfu(m, 1);
    assert m.Keys == {a};
  }

  /** A get of the second of two keys: its value, and one more use at the next tick. */
  lemma GetOfPair(a: int, x: Slot, b: int, y: Slot, clock: int)
    requires a != b
    ensures Read(Lfu(map[a := x, b := y], clock), b) == (y.value, Lfu(map[a := x, b := Slot(y.value, y.freq + 1, clock + 1)], clock + 1))
    ensures Read(Lfu(map[b := y, a := x], clock), b) == (y.value, Lfu(map[a := x, b := Slot(y.value, y.freq + 1, clock + 1)], clock + 1))
  {
    var m := map[a := x, b := y];
    var n := Slot(y.value, y.freq + 1, clock + 1);
    assert m[b := n] == map[a := x, b := n];
    assert map[b := y, a := x] == m;
  }

  /** The first sample: on capacity 2, put(3, 3) evicts key 2 (used once) and put(4, 4) evicts key 1 (used twice, but before key 3). */
  lemma FirstSample()
    ensures var s2 := Write(Write(Lfu(map[], 0), 2, 1, 1), 2, 2, 2);
      var g1 := Read(s2, 1);
      var s4 := Write(g1.1, 2, 3, 3);
      var g2 := Read(s4, 2);
      var g3 := Read(g2.1, 3);
      var s7 := Write(g3.1, 2, 4, 4);
      var g4 := Read(s7, 1);
      var g5 := Read(g4.1, 3);
      var g6 := Read(g5.1, 4);
      [g1.0, g2.0, g3.0, g4.0, g5.0, g6.0] == [1, -1, 3, -1, 3, 4]
  {
    TwoPuts(1, 1, 2, 2);
    GetOfPair(2, Slot(2, 1, 2), 1, Slot(1, 1, 1), 2);
    PutOnPair(2, Slot(2, 1, 2), 1, Slot(1, 2, 3), 3, 3, 3);
    GetOfPair(1, Slot(1, 2, 3), 3, Slot(3, 1, 4), 4);
    PutOnPair(1, Slot(1, 2, 3), 3, Slot(3, 2, 5), 5, 4, 4);
    GetOfPair(4, Slot(4, 1, 6), 3, Slot(3, 2, 5), 6);
    GetOfPair(3, Slot(3, 3, 7), 4, Slot(4, 1, 6), 7);
  }

  /** The second sample: on capacity 2, key 2 and key 3 are both used twice and key 3 longer ago, so put(4, 3) evicts key 3. */
  lemma SecondSample()
    ensures var s2 := Write(Write(Lfu(map[], 0), 2, 2, 1), 2, 3, 2);
      var g1 := Read(s2, 3);
      var g2 := Read(g1.1, 2);
      var s5 := Write(g2.1, 2, 4, 3);
      var g3 := Read(s5, 2);
      var g4 := Read(g3.1, 3);
      var g5 := Read(g4.1, 4);
      [g1.0, g2.0, g3.0, g4.0, g5.0] == [2, 1, 1, -1, 3]
  {
    TwoPuts(2, 1, 3, 2);
    GetOfPair(2, Slot(1, 1, 1), 3, Slot(2, 1, 2), 2);
    GetOfPair(3, Slot(2, 2, 3), 2, Slot(1, 1, 1), 3);
    PutOnPair(3, Slot(2, 2, 3), 2, Slot(1, 2, 4), 4, 4, 3);
    GetOfPair(4, Slot(3, 1, 5), 2, Slot(1, 2, 4), 5);
    GetOfPair(2, Slot(1, 3, 6), 4, Slot(3, 1, 5), 6);
  }

  // ---------------------------------------------------------------------
  // Buckets: for each use count, its keys in the order of their last use

  /** a comes before b in a bucket kept oldest first (up) or newest first (not up). */
  ghost predicate InTurn(slots: map<int, Slot>, a: int, b: int, up: bool) {
    a in slots && b in slots && (if up then slots[a].stamp < slots[b].stamp else slots[b].stamp < slots[a].stamp)
  }

  /** The bucket of count f: keys used exactly f times, in the order of their last use. */
  ghost predicate Ranked(slots: map<int, Slot>, s: seq<int>, f: int, up: bool) {
    && (forall i :: 0 <= i < |s| ==> s[i] in slots && slots[s[i]].freq == f)
    && (forall i, j {:trigger InTurn(slots, s[i], s[j], up)} :: 0 <= i < j < |s| ==> InTurn(slots, s[i], s[j], up))
  }

  /** The bucket of count f, empty when there is none (a defaultdict lookup). */
  function Keys(b: map<int, seq<int>>, f: int): seq<int> {
    if f in b then b[f] else []
  }

  /** Every bucket ranks its keys, and every key is in the bucket of its count. */
  ghost predicate Buckets(slots: map<int, Slot>, b: map<int, seq<int>>, up: bool) {
    AllRanked(slots, b, up) && Housed(slots, b)
  }

  /** Every bucket ranks its keys. */
  ghost predicate AllRanked(slots: map<int, Slot>, b: map<int, seq<int>>, up: bool) {
    forall f :: f in b ==> Ranked(slots, b[f], f, up)
  }

  /** Every key is in the bucket of its count. */
  ghost predicate Housed(slots: map<int, Slot>, b: map<int, seq<int>>) {
    forall k :: k in slots ==> k in Keys(b, slots[k].freq)
  }

  /** min_freq bounds every count from below, and its bucket is empty only when the cache is. */
  ghost predicate MinFreq(slots: map<int, Slot>, b: map<int, seq<int>>, minFreq: int) {
    && (forall k :: k in slots ==> minFreq <= slots[k].freq)
    && (slots != map[] ==> Keys(b, minFreq) != [])
  }

  /** A key entering a bucket as its most recently used. */
  function Push(s: seq<int>, k: int, up: bool): seq<int> {
    if up then s + [k] else [k] + s
  }

  /** The least recently used key of a bucket. */
  function Oldest(s: seq<int>, up: bool): int
    requires s != []
  {
    if up then s[0] else s[|s| - 1]
  }

  /** A bucket without its least recently used key. */
  function Rest(s: seq<int>, up: bool): seq<int>
    requires s != []
  {
    if up then s[1..] else s[..|s| - 1]
  }

  /** del od[key], and the linked list's remove: the key's first occurrence taken out. */
  function Delete(s: seq<int>, k: int): (r: seq<int>)
    ensures k in s ==> |r| == |s| - 1
    ensures k !in s ==> r == s
    ensures forall x :: x in r ==> x in s
    ensures forall x :: x in s && x != k ==> x in r
  {
    if s == [] then []
    else if s[0] == k then s[1..]
    else [s[0]] + Delete(s[1..], k)
  }

  /** Delete cuts out the key's first position. */
  lemma {:induction false} DeleteAt(s: seq<int>, k: int, i: int)
    requires 0 <= i < |s| && s[i] == k && forall j :: 0 <= j < i ==> s[j] != k
    ensures Delete(s, k) == s[..i] + s[i + 1..]
  {
    if i > 0 {
      DeleteAt(s[1..], k, i - 1);
      assert s[1..][..i - 1] == s[1..i];
      assert s[1..][i..] == s[i + 1..];
      assert [s[0]] + s[1..i] == s[..i];
    }
  }

  /** A bucket is ranked by the counts and ticks of its keys only. */
  lemma RankedFrame(slots: map<int, Slot>, slots': map<int, Slot>, s: seq<int>, f: int, up: bool)
    requires Ranked(slots, s, f, up)
    requires forall i :: 0 <= i < |s| ==> s[i] in slots' && slots'[s[i]].freq == f && slots'[s[i]].stamp == slots[s[i]].stamp
    ensures Ranked(slots', s, f, up)
  {
    forall i, j | 0 <= i < j < |s| ensures InTurn(slots', s[i], s[j], up) {
      assert InTurn(slots, s[i], s[j], up);
    }
  }

  /** No key is twice in a bucket, and no two keys of a bucket share a tick. */
  lemma RankedDistinct(slots: map<int, Slot>, s: seq<int>, f: int, up: bool, i: int, j: int)
    requires Ranked(slots, s, f, up) && 0 <= i < |s| && 0 <= j < |s| && i != j
    ensures s[i] != s[j] && slots[s[i]].stamp != slots[s[j]].stamp
  {
    if i < j {
      assert InTurn(slots, s[i], s[j], up);
    } else {
      assert InTurn(slots, s[j], s[i], up);
    }
  }

  /** The positions of a sequence with position i cut out. */
  lemma CutAt(s: seq<int>, i: int)
    requires 0 <= i < |s|
    ensures |s[..i] + s[i + 1..]| == |s| - 1
    ensures forall j :: 0 <= j < |s| - 1 ==> (s[..i] + s[i + 1..])[j] == if j < i then s[j] else s[j + 1]
  {
  }

  /** Cutting a position out of a bucket keeps it ranked and leaves that key out. */
  lemma RankedCut(slots: map<int, Slot>, s: seq<int>, f: int, up: bool, i: int)
    requires Ranked(slots, s, f, up) && 0 <= i < |s|
    ensures Ranked(slots, s[..i] + s[i + 1..], f, up) && s[i] !in s[..i] + s[i + 1..]
  {
    var r := s[..i] + s[i + 1..];
    CutAt(s, i);
    forall a, c | 0 <= a < c < |r| ensures InTurn(slots, r[a], r[c], up) {
      var a' := if a < i then a else a + 1;
      var c' := if c < i then c else c + 1;
      assert r[a] == s[a'] && r[c] == s[c'];
      assert InTurn(slots, s[a'], s[c'], up);
    }
    forall j | 0 <= j < |r| ensures r[j] != s[i] {
      RankedDistinct(slots, s, f, up, i, if j < i then j else j + 1);
    }
  }

  /** Taking a key out of a bucket keeps it ranked and leaves the key out. */
  lemma RankedDelete(slots: map<int, Slot>, s: seq<int>, f: int, up: bool, k: int)
    requires Ranked(slots, s, f, up)
    ensures Ranked(slots, Delete(s, k), f, up) && k !in Delete(s, k)
  {
    if k in s {
      var i :| 0 <= i < |s| && s[i] == k;
      forall j | 0 <= j < i ensures s[j] != k {
        RankedDistinct(slots, s, f, up, i, j);
      }
      DeleteAt(s, k, i);
      RankedCut(slots, s, f, up, i);
    }
  }

  /** Taking out the least recently used key keeps the bucket ranked, and leaves every other key in. */
  lemma RankedRest(slots: map<int, Slot>, s: seq<int>, f: int, up: bool)
    requires Ranked(slots, s, f, up) && s != []
    ensures Ranked(slots, Rest(s, up), f, up) && Oldest(s, up) !in Rest(s, up)
    ensures forall x :: x in s && x != Oldest(s, up) ==> x in Rest(s, up)
  {
    var r := Rest(s, up);
    if up {
      assert forall j :: 0 <= j < |r| ==> r[j] == s[j + 1];
      forall j | 0 <= j < |r| ensures r[j] != s[0] {
        RankedDistinct(slots, s, f, up, 0, j + 1);
      }
    } else {
      assert forall j :: 0 <= j < |r| ==> r[j] == s[j];
      forall j | 0 <= j < |r| ensures r[j] != s[|s| - 1] {
        RankedDistinct(slots, s, f, up, |s| - 1, j);
      }
    }
    forall x | x in s && x != Oldest(s, up) ensures x in r {
      var i :| 0 <= i < |s| && s[i] == x;
      if up {
        assert r[i - 1] == x;
      } else {
        assert r[i] == x;
      }
    }
  }

  /** A key entering a bucket with a later tick than all its keys keeps it ranked. */
  lemma RankedPush(slots: map<int, Slot>, s: seq<int>, f: int, up: bool, k: int, x: Slot)
    requires Ranked(slots, s, f, up) && k !in s && x.freq == f
    requires forall i :: 0 <= i < |s| ==> slots[s[i]].stamp < x.stamp
    ensures Ranked(slots[k := x], Push(s, k, up), f, up)
  {
    var slots' := slots[k := x];
    RankedFrame(slots, slots', s, f, up);
    var r := Push(s, k, up);
    if up {
      assert forall j :: 0 <= j < |s| ==> r[j] == s[j];
    } else {
      assert forall j :: 0 <= j < |s| ==> r[j + 1] == s[j];
    }
    forall i, j | 0 <= i < j < |r| ensures InTurn(slots', r[i], r[j], up) {
      if up && j < |s| {
        assert InTurn(slots', s[i], s[j], up);
      } else if !up && 0 < i {
        assert InTurn(slots', s[i - 1], s[j - 1], up);
      }
    }
  }

  /**
   * _update_freq on the buckets: the key leaves the bucket of its count f
   * and enters the bucket of f + 1 as its most recently used, at the next tick.
   */
  lemma BumpBuckets(slots: map<int, Slot>, clock: int, b: map<int, seq<int>>, up: bool, key: int, value: int)
    requires Buckets(slots, b, up) && key in slots
    requires forall k :: k in slots ==> slots[k].stamp <= clock
    ensures Buckets(Touch(slots, key, value, clock), Bumped(b, slots[key].freq, key, up), up)
  {
    BumpAllRanked(slots, clock, b, up, key, value);
    BumpHoused(slots, clock, b, up, key, value);
  }

  /** The buckets after _update_freq moves key from the bucket of count f to that of f + 1. */
  function Bumped(b: map<int, seq<int>>, f: int, key: int, up: bool): (b': map<int, seq<int>>)
    ensures b'.Keys == b.Keys + {f, f + 1}
  {
    var b1 := b[f := Delete(Keys(b, f), key)];
    b1[f + 1 := Push(Keys(b1, f + 1), key, up)]
  }

  /** After _update_freq every bucket is ranked. */
  lemma BumpAllRanked(slots: map<int, Slot>, clock: int, b: map<int, seq<int>>, up: bool, key: int, value: int)
    requires AllRanked(slots, b, up) && key in slots
    requires forall k :: k in slots ==> slots[k].stamp <= clock
    ensures var f := slots[key].freq;
      var b' := Bumped(b, f, key, up);
      forall g :: g in b' ==> Ranked(Touch(slots, key, value, clock), b'[g], g, up)
  {
    var f := slots[key].freq;
    var b' := Bumped(b, f, key, up);
    forall g | g in b' ensures Ranked(Touch(slots, key, value, clock), b'[g], g, up) {
      BumpOne(slots, clock, b, up, key, value, g);
    }
  }

  /** One bucket after _update_freq: the one the key left, the one it joined, or one it never touched. */
  lemma BumpOne(slots: map<int, Slot>, clock: int, b: map<int, seq<int>>, up: bool, key: int, value: int, g: int)
    requires AllRanked(slots, b, up) && key in slots
    requires forall k :: k in slots ==> slots[k].stamp <= clock
    ensures var f := slots[key].freq;
      var b' := Bumped(b, f, key, up);
      g in b' ==> Ranked(Touch(slots, key, value, clock), b'[g], g, up)
  {
    var f := slots[key].freq;
    var s := Keys(b, g);
    if g in b {
      assert Ranked(slots, b[g], g, up);
    } else {
      assert s == [];
    }
    assert Ranked(slots, s, g, up);
    forall i | 0 <= i < |s| ensures slots[s[i]].stamp <= clock {
      var k := s[i];
      assert k in slots;
      assert slots[k].stamp <= clock;
    }
    BumpRanked(slots, clock, s, g, up, key, value);
    var b1 := b[f := Delete(Keys(b, f), key)];
    assert Keys(b1, f + 1) == Keys(b, f + 1);
  }

  /** After _update_freq every key is in the bucket of its new count. */
  lemma BumpHoused(slots: map<int, Slot>, clock: int, b: map<int, seq<int>>, up: bool, key: int, value: int)
    requires Housed(slots, b) && key in slots
    ensures var f := slots[key].freq;
      var slots' := Touch(slots, key, value, clock);
      var b' := Bumped(b, f, key, up);
      forall k :: k in slots' ==> k in Keys(b', slots'[k].freq)
  {
    var f := slots[key].freq;
    var slots' := Touch(slots, key, value, clock);
    var b' := Bumped(b, f, key, up);
    forall k | k in slots' ensures k in Keys(b', slots'[k].freq) {
      if k != key {
        var g := slots[k].freq;
        assert k in Keys(b, g);
        if g == f {
          assert k in Delete(Keys(b, f), key);
        }
      }
    }
  }

  /** One bucket of count g after _update_freq: the key's old bucket, its new one, or another. */
  lemma BumpRanked(slots: map<int, Slot>, clock: int, s: seq<int>, g: int, up: bool, key: int, value: int)
    requires Ranked(slots, s, g, up) && key in slots
    requires forall i :: 0 <= i < |s| ==> slots[s[i]].stamp <= clock
    ensures var f := slots[key].freq;
      var slots' := Touch(slots, key, value, clock);
      && (g == f ==> Ranked(slots', Delete(s, key), g, up))
      && (g == f + 1 ==> Ranked(slots', Push(s, key, up), g, up))
      && (g != f && g != f + 1 ==> Ranked(slots', s, g, up))
  {
    var f := slots[key].freq;
    var x := Slot(value, f + 1, clock + 1);
    var slots' := slots[key := x];
    if g == f {
      RankedDelete(slots, s, g, up, key);
      RankedFrame(slots, slots', Delete(s, key), g, up);
    } else {
      assert forall i :: 0 <= i < |s| ==> s[i] != key;
      if g == f + 1 {
        RankedPush(slots, s, g, up, key, x);
      } else {
        RankedFrame(slots, slots', s, g, up);
      }
    }
  }

  /**
   * _update_freq on min_freq: it moves up by one exactly when the key's old
   * bucket was the least and is now empty, and stays otherwise.
   */
  lemma BumpMin(slots: map<int, Slot>, clock: int, b: map<int, seq<int>>, up: bool, key: int, value: int, minFreq: int)
    requires Housed(slots, b) && MinFreq(slots, b, minFreq) && key in slots
    ensures MinFreq(Touch(slots, key, value, clock), Bumped(b, slots[key].freq, key, up), NextMin(b, slots[key].freq, key, minFreq))
  {
    var f := slots[key].freq;
    if Delete(Keys(b, f), key) == [] && f == minFreq {
      assert forall k :: k in slots && k != key ==> k in Delete(Keys(b, f), key) || slots[k].freq != f;
    }
  }

  /** min_freq after _update_freq moved key out of the bucket of count f. */
  function NextMin(b: map<int, seq<int>>, f: int, key: int, minFreq: int): int {
    if Delete(Keys(b, f), key) == [] && f == minFreq then minFreq + 1 else minFreq
  }

  /** The least recently used key of min_freq's bucket is the one put evicts. */
  lemma OldestIsLeast(slots: map<int, Slot>, b: map<int, seq<int>>, up: bool, minFreq: int)
    requires Buckets(slots, b, up) && MinFreq(slots, b, minFreq) && slots != map[]
    ensures IsLeast(slots, Oldest(Keys(b, minFreq), up))
  {
    var s := Keys(b, minFreq);
    assert minFreq in b && Ranked(slots, s, minFreq, up);
    var o := Oldest(s, up);
    var io := if up then 0 else |s| - 1;
    assert s[io] == o;
    forall j | j in slots && j != o ensures !Before(slots[j], slots[o]) {
      if slots[j].freq == minFreq {
        assert j in s;
        var p :| 0 <= p < |s| && s[p] == j;
        if up {
          assert InTurn(slots, s[0], s[p], up);
        } else {
          assert InTurn(slots, s[p], s[|s| - 1], up);
        }
      }
    }
  }

  /** put's eviction on the buckets: the least recently used key of min_freq's bucket is taken out of it. */
  lemma EvictBuckets(slots: map<int, Slot>, b: map<int, seq<int>>, up: bool, minFreq: int)
    requires Buckets(slots, b, up) && MinFreq(slots, b, minFreq) && slots != map[]
    ensures var s := Keys(b, minFreq);
      Buckets(slots - {Oldest(s, up)}, b[minFreq := Rest(s, up)], up)
  {
    var s := Keys(b, minFreq);
    var o := Oldest(s, up);
    var slots' := slots - {o};
    var b' := b[minFreq := Rest(s, up)];
    assert Ranked(slots, s, minFreq, up);
    RankedRest(slots, s, minFreq, up);
    forall g | g in b' ensures Ranked(slots', b'[g], g, up) {
      if g == minFreq {
        RankedFrame(slots, slots', Rest(s, up), g, up);
      } else {
        assert forall i :: 0 <= i < |b[g]| ==> b[g][i] != o;
        RankedFrame(slots, slots', b[g], g, up);
      }
    }
  }

  /** put of a new key on the buckets: it enters the bucket of count 1 as its most recent, and min_freq becomes 1. */
  lemma EnterBuckets(slots: map<int, Slot>, clock: int, b: map<int, seq<int>>, up: bool, key: int, value: int)
    requires Buckets(slots, b, up) && key !in slots
    requires forall k :: k in slots ==> 1 <= slots[k].freq && slots[k].stamp <= clock
    ensures var slots' := slots[key := Slot(value, 1, clock + 1)];
      var b' := b[1 := Push(Keys(b, 1), key, up)];
      Buckets(slots', b', up) && MinFreq(slots', b', 1)
  {
    var x := Slot(value, 1, clock + 1);
    var slots' := slots[key := x];
    var b' := b[1 := Push(Keys(b, 1), key, up)];
    forall g | g in b' ensures Ranked(slots', b'[g], g, up) {
      var s := Keys(b, g);
      assert Ranked(slots, s, g, up);
      assert forall i :: 0 <= i < |s| ==> s[i] != key;
      if g == 1 {
        RankedPush(slots, s, g, up, key, x);
      } else {
        RankedFrame(slots, slots', s, g, up);
      }
    }
  }

  /** Changing a key's value leaves the buckets and min_freq as they are. */
  lemma Revalue(slots: map<int, Slot>, b: map<int, seq<int>>, up: bool, minFreq: int, key: int, value: int)
    requires Buckets(slots, b, up) && MinFreq(slots, b, minFreq) && key in slots
    ensures Buckets(slots[key := slots[key].(value := value)], b, up)
    ensures MinFreq(slots[key := slots[key].(value := value)], b, minFreq)
  {
    var slots' := slots[key := slots[key].(value := value)];
    forall g | g in b ensures Ranked(slots', b[g], g, up) {
      RankedFrame(slots, slots', b[g], g, up);
    }
  }

  // ---------------------------------------------------------------------
  // LFUCache_Solution3: one map to (value, count, timestamp)

  /** min(cache, key=(count, timestamp)): a scan for a key no other comes before. */
  method LeastUsed(cache: map<int, Slot>) returns (k: int)
    requires cache != map[]
    ensures IsLeast(cache, k)
  {
    NonEmpty(cache);
    k :| k in cache;
    var rest := cache.Keys - {k};
    while rest != {}
      invariant rest <= cache.Keys && k in cache && k !in rest
      invariant forall j :: j in cache && j !in rest && j != k ==> !Before(cache[j], cache[k])
      decreases rest
    {
      HasElement(rest);
      var j :| j in rest;
      if Before(cache[j], cache[k]) {
        k := j;
      }
      rest := rest - {j};
    }
  }

  class LFUCache3 {
    var capacity: int
    /** key -> (value, count, timestamp) */
    var cache: map<int, Slot>
    var timestamp: int

    ghost predicate Valid()
      reads this
    {
      Good(Lfu(cache, timestamp), capacity)
    }

    constructor (capacity: int)
      requires capacity >= 0
      ensures Valid() && this.capacity == capacity && cache == map[] && timestamp == 0
    {
      this.capacity := capacity;
      cache := map[];
      timestamp := 0;
    }

    /** get: -1 for a missing key; otherwise its value, its count raised and its timestamp the next tick. */
    method Get(key: int) returns (r: int)
      requires Valid()
      modifies this
      ensures Valid() && capacity == old(capacity)
      ensures (r, Lfu(cache, timestamp)) == Read(old(Lfu(cache, timestamp)), key)
    {
      if key !in cache {
        return -1;
      }
      var t := cache[key];
      timestamp := timestamp + 1;
      cache := cache[key := Slot(t.value, t.freq + 1, timestamp)];
      r := t.value;
    }

    /** put: nothing at capacity 0; otherwise tick, update a present key, or evict the least (count, timestamp) from a full cache and add the key. */
    method Put(key: int, value: int)
      requires Valid()
      modifies this
      ensures Valid() && capacity == old(capacity)
      ensures Lfu(cache, timestamp) == Write(old(Lfu(cache, timestamp)), capacity, key, value)
    {
      WriteKeeps(Lfu(cache, timestamp), capacity, key, value);
      if capacity == 0 {
        return;
      }
      timestamp := timestamp + 1;
      if key in cache {
        var t := cache[key];
        cache := cache[key := Slot(value, t.freq + 1, timestamp)];
        return;
      }
      if |cache| >= capacity {
        var lfuKey := LeastUsed(cache);
        IsVictim(cache, lfuKey);
        cache := cache - {lfuKey};
      }
      cache := cache[key := Slot(value, 1, timestamp)];
    }
  }

  // ---------------------------------------------------------------------
  // Solution 2: a map to (value, count) and one OrderedDict of keys per count

  /**
   * The fields of a bucketed version agree with the specification's state:
   * the same keys with the same values and counts, each bucket holding the
   * keys of its count in the order of their last use, and min_freq the
   * least count. up says which end of a bucket is the least recently used.
   */
  ghost predicate Coupled(s: Lfu, capacity: int, kv: map<int, (int, int)>, b: map<int, seq<int>>, minFreq: int, up: bool) {
    && Sized(s, capacity)
    && Mirrored(s.slots, kv)
    && Buckets(s.slots, b, up)
    && MinFreq(s.slots, b, minFreq)
  }

  /** key -> (value, count) holds the values and counts of the specification's slots. */
  ghost predicate Mirrored(slots: map<int, Slot>, kv: map<int, (int, int)>) {
    kv.Keys == slots.Keys && forall k :: k in slots ==> kv[k] == (slots[k].value, slots[k].freq)
  }

  /** A use of a present key keeps the size bound and the counts and ticks in range. */
  lemma TouchSized(s: Lfu, capacity: int, key: int, value: int)
    requires Sized(s, capacity) && key in s.slots
    ensures Sized(Lfu(Touch(s.slots, key, value, s.clock), s.clock + 1), capacity)
  {
    var t := Touch(s.slots, key, value, s.clock);
    assert t.Keys == s.slots.Keys;
  }

  /** A use of a present key keeps key -> (value, count) in step: its count goes up by one. */
  lemma TouchMirrored(slots: map<int, Slot>, kv: map<int, (int, int)>, key: int, value: int, clock: int)
    requires Mirrored(slots, kv) && key in slots
    ensures Mirrored(Touch(slots, key, value, clock), kv[key := (value, slots[key].freq + 1)])
  {
  }

  /** _update_freq keeps the fields in step with a use of the key on the specification. */
  lemma UpdateCoupled(s: Lfu, capacity: int, kv: map<int, (int, int)>, b: map<int, seq<int>>, minFreq: int, up: bool, key: int)
    requires Coupled(s, capacity, kv, b, minFreq, up) && key in s.slots
    ensures Coupled(Lfu(Touch(s.slots, key, s.slots[key].value, s.clock), s.clock + 1), capacity,
                    kv[key := (s.slots[key].value, s.slots[key].freq + 1)],
                    Bumped(b, s.slots[key].freq, key, up), NextMin(b, s.slots[key].freq, key, minFreq), up)
  {
    var v := s.slots[key].value;
    TouchSized(s, capacity, key, v);
    TouchMirrored(s.slots, kv, key, v, s.clock);
    BumpBuckets(s.slots, s.clock, b, up, key, v);
    BumpMin(s.slots, s.clock, b, up, key, v, minFreq);
  }

  /** Changing a present key's value first, as put does before _update_freq, keeps the fields in step. */
  lemma RevalueCoupled(s: Lfu, capacity: int, kv: map<int, (int, int)>, b: map<int, seq<int>>, minFreq: int, up: bool, key: int, value: int)
    requires Coupled(s, capacity, kv, b, minFreq, up) && key in s.slots
    ensures Coupled(Lfu(s.slots[key := s.slots[key].(value := value)], s.clock), capacity,
                    kv[key := (value, s.slots[key].freq)], b, minFreq, up)
  {
    Revalue(s.slots, b, up, minFreq, key, value);
    var t := s.slots[key := s.slots[key].(value := value)];
    assert t.Keys == s.slots.Keys;
  }

  /** A full cache gives up the least recently used key of min_freq's bucket: the victim of the specification. */
  lemma EvictCoupled(s: Lfu, capacity: int, kv: map<int, (int, int)>, b: map<int, seq<int>>, minFreq: int, up: bool)
    requires Coupled(s, capacity, kv, b, minFreq, up) && kv != map[]
    ensures Keys(b, minFreq) != [] && Victim(s.slots) == Oldest(Keys(b, minFreq), up)
    ensures var o := Oldest(Keys(b, minFreq), up);
      && Sized(Lfu(s.slots - {o}, s.clock), capacity - 1)
      && Mirrored(s.slots - {o}, kv - {o})
      && Buckets(s.slots - {o}, b[minFreq := Rest(Keys(b, minFreq), up)], up)
  {
    assert s.slots != map[] by {
      NonEmpty(kv);
    }
    OldestIsLeast(s.slots, b, up, minFreq);
    EvictBuckets(s.slots, b, up, minFreq);
    var o := Oldest(Keys(b, minFreq), up);
    LeastInBucket(s.slots, b, up, Victim(s.slots), o);
    CardRemove(s.slots, o);
  }

  /** A new key enters the bucket of count 1 and min_freq becomes 1, as put does on the specification. */
  lemma EnterCoupled(slots: map<int, Slot>, clock: int, capacity: int, kv: map<int, (int, int)>, b: map<int, seq<int>>, up: bool, key: int, value: int)
    requires Sized(Lfu(slots, clock), capacity - 1) && key !in kv
    requires Mirrored(slots, kv) && Buckets(slots, b, up)
    ensures Coupled(Lfu(slots[key := Slot(value, 1, clock + 1)], clock + 1), capacity,
                    kv[key := (value, 1)], b[1 := Push(Keys(b, 1), key, up)], 1, up)
  {
    CardPut(slots, key, Slot(value, 1, clock + 1));
    assert slots - {key} == slots;
    EnterBuckets(slots, clock, b, up, key, value);
  }

  /** Below the capacity, a cache with one key fewer allowed still keeps the invariant. */
  lemma RoomLeft(s: Lfu, capacity: int, kv: map<int, (int, int)>)
    requires Sized(s, capacity) && Mirrored(s.slots, kv) && |kv| < capacity
    ensures Sized(s, capacity - 1)
  {
    MirroredSize(s.slots, kv);
  }

  /**
   * _update_freq on the fields of a bucketed version: the key leaves the
   * bucket of its count, min_freq moves up if that emptied the least
   * bucket, and the key joins the next bucket as its most recently used.
   */
  method UpdateFreqOn(ghost s: Lfu, capacity: int, kv: map<int, (int, int)>, b: map<int, seq<int>>, minFreq: int, up: bool, key: int)
    returns (kv': map<int, (int, int)>, b': map<int, seq<int>>, minFreq': int)
    requires Coupled(s, capacity, kv, b, minFreq, up) && key in kv
    ensures Coupled(Read(s, key).1, capacity, kv', b', minFreq', up)
  {
    UpdateCoupled(s, capacity, kv, b, minFreq, up, key);
    var (val, freq) := kv[key];
    var bucket := Delete(Keys(b, freq), key);
    minFreq' := if bucket == [] && freq == minFreq then minFreq + 1 else minFreq;
    b' := b[freq := bucket];
    b' := b'[freq + 1 := Push(Keys(b', freq + 1), key, up)];
    kv' := kv[key := (val, freq + 1)];
  }

  /**
   * put on the fields of a bucketed version: nothing at capacity 0; a
   * present key takes the value, then _update_freq; a new key first evicts
   * from a full cache, then enters. The fields end in step with put on the
   * specification.
   */
  method PutOn(ghost s: Lfu, capacity: int, kv: map<int, (int, int)>, b: map<int, seq<int>>, minFreq: int, up: bool, key: int, value: int)
    returns (kv': map<int, (int, int)>, b': map<int, seq<int>>, minFreq': int)
    requires Coupled(s, capacity, kv, b, minFreq, up)
    ensures Coupled(Write(s, capacity, key, value), capacity, kv', b', minFreq', up)
  {
    if capacity == 0 {
      return kv, b, minFreq;
    }
    if key in kv {
      kv', b', minFreq' := ReplaceOn(s, capacity, kv, b, minFreq, up, key, value);
    } else {
      kv', b', minFreq' := InsertOn(s, capacity, kv, b, minFreq, up, key, value);
    }
  }

  /** put of a present key on the fields: the value is replaced, then _update_freq. */
  method ReplaceOn(ghost s: Lfu, capacity: int, kv: map<int, (int, int)>, b: map<int, seq<int>>, minFreq: int, up: bool, key: int, value: int)
    returns (kv': map<int, (int, int)>, b': map<int, seq<int>>, minFreq': int)
    requires Coupled(s, capacity, kv, b, minFreq, up) && capacity > 0 && key in kv
    ensures Coupled(Write(s, capacity, key, value), capacity, kv', b', minFreq', up)
  {
    ghost var t := Lfu(s.slots[key := s.slots[key].(value := value)], s.clock);
    RevalueCoupled(s, capacity, kv, b, minFreq, up, key, value);
    WriteRevalued(s, capacity, key, value);
    kv' := kv[key := (value, kv[key].1)];
    kv', b', minFreq' := UpdateFreqOn(t, capacity, kv', b, minFreq, up, key);
  }

  /** put of a new key on the fields: a full cache first evicts, then the key enters. */
  method InsertOn(ghost s: Lfu, capacity: int, kv: map<int, (int, int)>, b: map<int, seq<int>>, minFreq: int, up: bool, key: int, value: int)
    returns (kv': map<int, (int, int)>, b': map<int, seq<int>>, minFreq': int)
    requires Coupled(s, capacity, kv, b, minFreq, up) && capacity > 0 && key !in kv
    ensures Coupled(Write(s, capacity, key, value), capacity, kv', b', minFreq', up)
  {
    ghost var kept;
    kv', b', kept := EvictOn(s, capacity, kv, b, minFreq, up);
    InsertCoupled(s, capacity, kv, kept, kv', b', up, key, value);
    kv' := kv'[key := (value, 1)];
    b' := b'[1 := Push(Keys(b', 1), key, up)];
    minFreq' := 1;
  }

  /** After the eviction, the key entering the bucket of count 1 with min_freq 1 leaves the fields in step with put. */
  lemma InsertCoupled(s: Lfu, capacity: int, kv: map<int, (int, int)>, kept: map<int, Slot>, kv': map<int, (int, int)>, b': map<int, seq<int>>, up: bool, key: int, value: int)
    requires Mirrored(s.slots, kv) && capacity > 0 && key !in kv && kv'.Keys <= kv.Keys && kept == Kept(s.slots, capacity)
    requires Sized(Lfu(kept, s.clock), capacity - 1) && Mirrored(kept, kv') && Buckets(kept, b', up)
    ensures Coupled(Write(s, capacity, key, value), capacity, kv'[key := (value, 1)], b'[1 := Push(Keys(b', 1), key, up)], 1, up)
  {
    EnterCoupled(kept, s.clock, capacity, kv', b', up, key, value);
    InsertWrite(s, capacity, kv, kept, kv'[key := (value, 1)], b'[1 := Push(Keys(b', 1), key, up)], up, key, value);
  }

  /** Fields in step with the kept slots plus the new key are in step with put on the specification. */
  lemma InsertWrite(s: Lfu, capacity: int, kv: map<int, (int, int)>, kept: map<int, Slot>, kv': map<int, (int, int)>, b': map<int, seq<int>>, up: bool, key: int, value: int)
    requires Mirrored(s.slots, kv) && capacity > 0 && key !in kv && kept == Kept(s.slots, capacity)
    requires Coupled(Lfu(kept[key := Slot(value, 1, s.clock + 1)], s.clock + 1), capacity, kv', b', 1, up)
    ensures Coupled(Write(s, capacity, key, value), capacity, kv', b', 1, up)
  {
    WriteInsert(s, capacity, kv, key, value);
  }

  /** put of a present key is a use of it after its value was replaced. */
  lemma WriteRevalued(s: Lfu, capacity: int, key: int, value: int)
    requires capacity > 0 && key in s.slots
    ensures Write(s, capacity, key, value) == Read(Lfu(s.slots[key := s.slots[key].(value := value)], s.clock), key).1
  {
    var t := s.slots[key := s.slots[key].(value := value)];
    assert Touch(t, key, value, s.clock) == Touch(s.slots, key, value, s.clock);
  }

  /** put of a key that is not in the cache: it joins the kept slots with one use, at the next tick. */
  lemma WriteInsert(s: Lfu, capacity: int, kv: map<int, (int, int)>, key: int, value: int)
    requires Mirrored(s.slots, kv) && capacity > 0 && key !in kv
    ensures Write(s, capacity, key, value) == Lfu(Kept(s.slots, capacity)[key := Slot(value, 1, s.clock + 1)], s.clock + 1)
  {
  }

  /** The eviction half of put on a new key: only a full cache gives up the least recently used key of min_freq's bucket. */
  method EvictOn(ghost s: Lfu, capacity: int, kv: map<int, (int, int)>, b: map<int, seq<int>>, minFreq: int, up: bool)
    returns (kv': map<int, (int, int)>, b': map<int, seq<int>>, ghost kept: map<int, Slot>)
    requires Coupled(s, capacity, kv, b, minFreq, up) && capacity > 0
    ensures kept == Kept(s.slots, capacity) && kv'.Keys <= kv.Keys
    ensures Sized(Lfu(kept, s.clock), capacity - 1) && Mirrored(kept, kv') && Buckets(kept, b', up)
  {
    MirroredSize(s.slots, kv);
    if |kv| >= capacity {
      EvictCoupled(s, capacity, kv, b, minFreq, up);
      var bucket := Keys(b, minFreq);
      var evictKey := Oldest(bucket, up);
      b' := b[minFreq := Rest(bucket, up)];
      kv' := kv - {evictKey};
      kept := s.slots - {evictKey};
    } else {
      RoomLeft(s, capacity, kv);
      kv', b', kept := kv, b, s.slots;
    }
  }

  /** key -> (value, count) has as many keys as the slots. */
  lemma MirroredSize(slots: map<int, Slot>, kv: map<int, (int, int)>)
    requires Mirrored(slots, kv)
    ensures |slots| == |kv|
  {
    assert slots.Keys == kv.Keys;
  }

  // ---------------------------------------------------------------------
  // LFUCache_Solution2: a map to (value, count) and one OrderedDict of keys per count

  /** An OrderedDict of keys is modelled as the sequence of its keys in insertion order. */
  class LFUCache2 {
    var capacity: int
    var minFreq: int
    /** key -> (value, count) */
    var keyToValFreq: map<int, (int, int)>
    /** count -> the keys used that often, least recently used first */
    var freqToKeys: map<int, seq<int>>
    /** The cache as the specification sees it; its ticks order each bucket. */
    ghost var state: Lfu

    ghost predicate Valid()
      reads this
    {
      Coupled(state, capacity, keyToValFreq, freqToKeys, minFreq, true)
    }

    constructor (capacity: int)
      requires capacity >= 0
      ensures Valid() && this.capacity == capacity && state == Lfu(map[], 0)
    {
      this.capacity := capacity;
      minFreq := 0;
      keyToValFreq := map[];
      freqToKeys := map[];
      state := Lfu(map[], 0);
    }

    /** _update_freq: the key moves from its count's bucket to the end of the next, as a use does on the specification. */
    method UpdateFreq(key: int)
      requires Valid() && key in keyToValFreq
      modifies this
      ensures Valid() && capacity == old(capacity)
      ensures state == Read(old(state), key).1
    {
      ghost var s := state;
      state := Read(s, key).1;
      keyToValFreq, freqToKeys, minFreq := UpdateFreqOn(s, capacity, keyToValFreq, freqToKeys, minFreq, true, key);
    }

    /** get: -1 for a missing key; otherwise its value, after _update_freq. */
    method Get(key: int) returns (r: int)
      requires Valid()
      modifies this
      ensures Valid() && capacity == old(capacity)
      ensures (r, state) == Read(old(state), key)
    {
      if key !in keyToValFreq {
        return -1;
      }
      UpdateFreq(key);
      r := keyToValFreq[key].0;
    }

    /**
     * put: nothing at capacity 0; a present key takes the value, then
     * _update_freq; a new key first pops the oldest key of min_freq's
     * bucket from a full cache, then enters the bucket of count 1.
     */
    method Put(key: int, value: int)
      requires Valid()
      modifies this
      ensures Valid() && capacity == old(capacity)
      ensures state == Write(old(state), capacity, key, value)
    {
      ghost var s := state;
      state := Write(s, capacity, key, value);
      keyToValFreq, freqToKeys, minFreq := PutOn(s, capacity, keyToValFreq, freqToKeys, minFreq, true, key, value);
    }
  }

  // ---------------------------------------------------------------------
  // LFUCache_Solution1: a map to nodes and a doubly linked list per count

  class Node {
    var key: int
    var val: int
    var freq: int
    var prev: Node?
    var next: Node?

    constructor (key: int, val: int)
      ensures this.key == key && this.val == val && freq == 1 && prev == null && next == null
    {
      this.key := key;
      this.val := val;
      freq := 1;
      prev := null;
      next := null;
    }
  }

  /** The nodes, distinct, each one's next the following node and each one's prev the one before. */
  ghost predicate Chained(ns: seq<Node>)
    reads ns`next, ns`prev
  {
    && (forall i, j :: 0 <= i < j < |ns| ==> ns[i] != ns[j])
    && (forall i {:trigger ns[i].next} :: 0 <= i < |ns| - 1 ==> ns[i].next == ns[i + 1])
    && (forall i {:trigger ns[i].prev} :: 0 < i < |ns| ==> ns[i].prev == ns[i - 1])
  }

  /** The nodes of one count, most recently used first, between a head and a tail sentinel. */
  class DoublyLinkedList {
    var head: Node
    var tail: Node
    var size: int
    /** head, the nodes most recently used first, then tail. */
    ghost var nodes: seq<Node>

    ghost predicate Valid()
      reads this, nodes
    {
      && Chained(nodes) && |nodes| >= 2
      && nodes[0] == head && nodes[|nodes| - 1] == tail
      && size == |nodes| - 2
    }

    constructor ()
      ensures Valid() && nodes[1..|nodes| - 1] == [] && fresh(nodes[0]) && fresh(nodes[1])
    {
      var h := new Node(0, 0);
      var t := new Node(0, 0);
      h.next := t;
      t.prev := h;
      head, tail := h, t;
      size := 0;
      nodes := [h, t];
    }

    /** add_first: a node not in the list becomes its first, the most recently used. */
    method AddFirst(node: Node)
      requires Valid() && node !in nodes
      modifies this, node, nodes[0], nodes[1]
      ensures Valid() && head == old(head) && tail == old(tail)
      ensures nodes == [head, node] + old(nodes[1..])
      ensures forall n :: n in nodes ==> n.key == old(n.key) && n.val == old(n.val) && n.freq == old(n.freq)
    {
      node.next := head.next;
      node.prev := head;
      head.next.prev := node;
      head.next := node;
      size := size + 1;
      ghost var old_nodes := nodes;
      nodes := [head, node] + nodes[1..];
      assert forall j :: 2 <= j < |nodes| ==> nodes[j] == old_nodes[j - 1];
    }

    /** remove: the node at position i, not a sentinel, is unlinked from its neighbours. */
    method Remove(node: Node, ghost i: int)
      requires Valid() && 0 < i < |nodes| - 1 && nodes[i] == node
      modifies this, nodes[i - 1], nodes[i + 1]
      ensures Valid() && head == old(head) && tail == old(tail)
      ensures nodes == old(nodes[..i] + nodes[i + 1..])
      ensures forall n :: n in old(nodes) ==> n.key == old(n.key) && n.val == old(n.val) && n.freq == old(n.freq)
    {
      node.prev.next := node.next;
      node.next.prev := node.prev;
      size := size - 1;
      ghost var old_nodes := nodes;
      nodes := nodes[..i] + nodes[i + 1..];
      assert forall j :: 0 <= j < |nodes| ==> nodes[j] == (if j < i then old_nodes[j] else old_nodes[j + 1]);
    }

    /** remove_last: None on an empty list; otherwise the last node, the least recently used, unlinked. */
    method RemoveLast() returns (r: Node?)
      requires Valid()
      modifies this, nodes
      ensures Valid() && head == old(head) && tail == old(tail)
      ensures old(size) == 0 ==> r == null && nodes == old(nodes)
      ensures old(size) > 0 ==> r == old(nodes[|nodes| - 2]) && nodes == old(nodes[..|nodes| - 2] + [tail])
      ensures forall n :: n in old(nodes) ==> n.key == old(n.key) && n.val == old(n.val) && n.freq == old(n.freq)
    {
      if size > 0 {
        var last := tail.prev;
        Remove(last, |nodes| - 2);
        return last;
      }
      return null;
    }

    /** is_empty: no node between the sentinels. */
    method IsEmpty() returns (b: bool)
      requires Valid()
      ensures b <==> nodes[1..|nodes| - 1] == []
    {
      return size == 0;
    }
  }

  /**
   * LFUCache_Solution1 and the submitted LFUCache, with each node seen as
   * its (val, freq) and each count's list as its keys, most recently used
   * first: add_first pushes at the front and remove_last pops the back.
   */
  class LFUCache1 {
    var capacity: int
    var minFreq: int
    /** key -> the (val, freq) of its node */
    var keyToNode: map<int, (int, int)>
    /** freq -> the keys of its list's nodes, most recently used first */
    var freqToList: map<int, seq<int>>
    /** The cache as the specification sees it; its ticks order each list. */
    ghost var state: Lfu

    ghost predicate Valid()
      reads this
    {
      Coupled(state, capacity, keyToNode, freqToList, minFreq, false)
    }

    constructor (capacity: int)
      requires capacity >= 0
      ensures Valid() && this.capacity == capacity && state == Lfu(map[], 0)
    {
      this.capacity := capacity;
      minFreq := 0;
      keyToNode := map[];
      freqToList := map[];
      state := Lfu(map[], 0);
    }

    /** _update_freq: the node leaves its count's list and is added first to the next count's list. */
    method UpdateFreq(key: int)
      requires Valid() && key in keyToNode
      modifies this
      ensures Valid() && capacity == old(capacity)
      ensures state == Read(old(state), key).1
    {
      ghost var s := state;
      state := Read(s, key).1;
      keyToNode, freqToList, minFreq := UpdateFreqOn(s, capacity, keyToNode, freqToList, minFreq, false, key);
    }

    /** get: -1 for a missing key; otherwise the node's val, after _update_freq. */
    method Get(key: int) returns (r: int)
      requires Valid()
      modifies this
      ensures Valid() && capacity == old(capacity)
      ensures (r, state) == Read(old(state), key)
    {
      if key !in keyToNode {
        return -1;
      }
      UpdateFreq(key);
      r := keyToNode[key].0;
    }

    /**
     * put: nothing at capacity 0; a present node takes the value, then
     * _update_freq; a new key first removes the last node of min_freq's
     * list from a full cache, then a node of count 1 is added first.
     */
    method Put(key: int, value: int)
      requires Valid()
      modifies this
      ensures Valid() && capacity == old(capacity)
      ensures state == Write(old(state), capacity, key, value)
    {
      ghost var s := state;
      state := Write(s, capacity, key, value);
      keyToNode, freqToList, minFreq := PutOn(s, capacity, keyToNode, freqToList, minFreq, false, key, value);
    }
  }
}

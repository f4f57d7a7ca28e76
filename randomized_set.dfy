// Insert Delete GetRandom O(1): a set of integers supporting insert and
// remove, each reporting whether it changed the set. Variants: a list of
// the values with a map from each value to its index, removing by moving
// the last value into the freed slot (RandomizedSet); a plain set
// (RandomizedSet_Method2); a plain list searched linearly
// (RandomizedSet_Method3). getRandom draws from the random module and is
// not modelled.

module RandomizedSets {

  /** The values of a list, as a set. */
  function Elems(s: seq<int>): (r: set<int>)
    ensures forall v :: v in r <==> v in s
  {
    set v | v in s
  }

  /** No value occurs twice. */
  predicate Distinct(s: seq<int>) {
    forall i, j :: 0 <= i < j < |s| ==> s[i] != s[j]
  }

  /** `values[index] = values[-1]; values.pop()`: the last value fills slot i and the list shrinks by one. */
  function SwapRemove(s: seq<int>, i: int): (r: seq<int>)
    requires 0 <= i < |s|
    ensures |r| == |s| - 1
    ensures forall k :: 0 <= k < |r| ==> r[k] == if k == i then s[|s| - 1] else s[k]
  {
    s[i := s[|s| - 1]][..|s| - 1]
  }

  /** On a list without repeats, the swap removal drops exactly s[i] and keeps the list free of repeats. */
  lemma SwapRemoveElems(s: seq<int>, i: int)
    requires Distinct(s) && 0 <= i < |s|
    ensures Elems(SwapRemove(s, i)) == Elems(s) - {s[i]}
    ensures Distinct(SwapRemove(s, i))
  {
    var r := SwapRemove(s, i);
    forall v | v in Elems(s) - {s[i]}
      ensures v in Elems(r)
    {
      var k :| 0 <= k < |s| && s[k] == v;
      if k == |s| - 1 {
        assert r[i] == v;
      } else {
        assert r[k] == v;
      }
    }
  }

  /** `list.remove(v)`: drop the first occurrence of v. */
  function RemoveFirst(s: seq<int>, v: int): (r: seq<int>)
    requires v in s
    ensures |r| == |s| - 1
  {
    if s[0] == v then s[1..] else [s[0]] + RemoveFirst(s[1..], v)
  }

  /** On a list without repeats, removing v's occurrence drops exactly v and keeps the order of the rest. */
  lemma {:induction false} RemoveFirstElems(s: seq<int>, v: int)
    requires Distinct(s) && v in s
    ensures Elems(RemoveFirst(s, v)) == Elems(s) - {v}
    ensures Distinct(RemoveFirst(s, v))
    decreases |s|
  {
    if s[0] == v {
      assert s == [s[0]] + s[1..];
    } else {
      assert s == [s[0]] + s[1..];
      assert Distinct(s[1..]) by {
        forall i, j | 0 <= i < j < |s[1..]| ensures s[1..][i] != s[1..][j] {
          assert s[1..][i] == s[i + 1] && s[1..][j] == s[j + 1];
        }
      }
      RemoveFirstElems(s[1..], v);
      var r := RemoveFirst(s, v);
      assert r == [s[0]] + RemoveFirst(s[1..], v);
      forall i, j | 0 <= i < j < |r| ensures r[i] != r[j] {
        if i == 0 {
          assert r[j] in Elems(RemoveFirst(s[1..], v));
          assert s[0] !in s[1..] by {
            forall k | 0 <= k < |s[1..]| ensures s[1..][k] != s[0] {
              assert s[1..][k] == s[k + 1];
            }
          }
        }
      }
    }
  }

  // ---------------------------------------------------------------------
  // RandomizedSet: list plus value-to-index map

  class RandomizedSet {
    var valToIndex: map<int, int>
    var values: seq<int>

    /** Every listed value is a key mapped to its own slot, and every key is listed there. */
    ghost predicate Valid()
      reads this
    {
      && (forall v :: v in valToIndex ==> 0 <= valToIndex[v] < |values| && values[valToIndex[v]] == v)
      && (forall i :: 0 <= i < |values| ==> values[i] in valToIndex && valToIndex[values[i]] == i)
    }

    /** The set held. */
    ghost function Elements(): set<int>
      reads this
    {
      Elems(values)
    }

    /** The slots of a valid set hold each value once. */
    lemma ValidDistinct()
      requires Valid()
      ensures Distinct(values)
      ensures forall v :: v in valToIndex <==> v in Elements()
    {
    }

    constructor ()
      ensures Valid() && Elements() == {}
    {
      valToIndex, values := map[], [];
    }

    /** insert: true exactly when val was absent; val is then appended and mapped to the new last slot. */
    method Insert(val: int) returns (inserted: bool)
      requires Valid()
      modifies this
      ensures Valid()
      ensures inserted <==> val !in old(Elements())
      ensures Elements() == old(Elements()) + {val}
      ensures values == if inserted then old(values) + [val] else old(values)
    {
      if val in valToIndex {
        return false;
      }
      values := values + [val];
      valToIndex := valToIndex[val := |values| - 1];
      assert Elems(values) == Elems(old(values)) + {val};
      return true;
    }

    /** remove: true exactly when val was present; its slot takes the last value and the list shrinks by one. */
    method Remove(val: int) returns (removed: bool)
      requires Valid()
      modifies this
      ensures Valid()
      ensures removed <==> val in old(Elements())
      ensures Elements() == old(Elements()) - {val}
      ensures removed ==> val in old(valToIndex) && values == SwapRemove(old(values), old(valToIndex)[val])
      ensures !removed ==> values == old(values)
    {
      ValidDistinct();
      if val !in valToIndex {
        return false;
      }
      var index := valToIndex[val];
      var lastVal := values[|values| - 1];
      ghost var before := values;
      SwapRemoveElems(before, index);
      values := values[index := lastVal];
      valToIndex := valToIndex[lastVal := index];
      values := values[..|values| - 1];
      valToIndex := valToIndex - {val};
      assert values == SwapRemove(before, index);
      return true;
    }
  }

  // ---------------------------------------------------------------------
  // RandomizedSet_Method2: a plain set

  class SetOnly {
    var dataSet: set<int>

    constructor ()
      ensures dataSet == {}
    {
      dataSet := {};
    }

    method Insert(val: int) returns (inserted: bool)
      modifies this
      ensures inserted <==> val !in old(dataSet)
      ensures dataSet == old(dataSet) + {val}
    {
      if val in dataSet {
        return false;
      }
      dataSet := dataSet + {val};
      return true;
    }

    method Remove(val: int) returns (removed: bool)
      modifies this
      ensures removed <==> val in old(dataSet)
      ensures dataSet == old(dataSet) - {val}
    {
      if val !in dataSet {
        return false;
      }
      dataSet := dataSet - {val};
      return true;
    }
  }

  // ---------------------------------------------------------------------
  // RandomizedSet_Method3: a plain list, searched on every call

  class ListOnly {
    var values: seq<int>

    ghost predicate Valid()
      reads this
    {
      Distinct(values)
    }

    ghost function Elements(): set<int>
      reads this
    {
      Elems(values)
    }

    constructor ()
      ensures Valid() && Elements() == {}
    {
      values := [];
    }

    method Insert(val: int) returns (inserted: bool)
      requires Valid()
      modifies this
      ensures Valid()
      ensures inserted <==> val !in old(Elements())
      ensures Elements() == old(Elements()) + {val}
      ensures values == if inserted then old(values) + [val] else old(values)
    {
      if val in values {
        return false;
      }
      values := values + [val];
      assert Elems(values) == Elems(old(values)) + {val};
      return true;
    }

    method Remove(val: int) returns (removed: bool)
      requires Valid()
      modifies this
      ensures Valid()
      ensures removed <==> val in old(Elements())
      ensures Elements() == old(Elements()) - {val}
      ensures removed ==> val in old(values) && values == RemoveFirst(old(values), val)
      ensures !removed ==> values == old(values)
    {
      if val !in values {
        return false;
      }
      RemoveFirstElems(values, val);
      values := RemoveFirst(values, val);
      return true;
    }
  }

  /** The driver's calls: insert(1), remove(2), insert(2), remove(1), insert(2). */
  method Sample() returns (r: seq<bool>)
    ensures r == [true, false, true, true, false]
  {
    var s := new RandomizedSet();
    var a := s.Insert(1);
    var b := s.Remove(2);
    var c := s.Insert(2);
    var d := s.Remove(1);
    var e := s.Insert(2);
    r := [a, b, c, d, e];
  }
}

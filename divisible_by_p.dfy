// Make Sum Divisible by P: the length of the shortest contiguous stretch
// whose removal leaves a sum divisible by p, 0 when the sum already is, and
// -1 when only removing everything would do. Variants: running prefix
// residues with a map from each residue to its latest position, a brute
// force over every stretch, and a prefix-sum array read by the same map.
// Python's % with a positive modulus agrees with Dafny's.

module DivisibleByP {
  import RepeatedSubstring

  /** sum(nums[:k]). */
  function Pre(s: seq<int>, k: int): int
    requires 0 <= k <= |s|
  {
    if k == 0 then 0 else Pre(s, k - 1) + s[k - 1]
  }

  /** Removing nums[a:b], a non-empty stretch, leaves a sum divisible by p. */
  predicate Good(s: seq<int>, p: int, a: int, b: int)
    requires p > 0
  {
    0 <= a < b <= |s| && (Pre(s, |s|) - (Pre(s, b) - Pre(s, a))) % p == 0
  }

  /** Removing the len elements from a leaves a sum divisible by p. */
  predicate GoodAt(s: seq<int>, p: int, a: int, len: int)
    requires p > 0
  {
    0 <= a && a + len <= |s| && Good(s, p, a, a + len)
  }

  /** The shortest removable length from len up to, but not including, the whole list; -1 if none. */
  function Shortest(s: seq<int>, p: int, len: nat): int
    requires p > 0
    decreases |s| - len
  {
    if len >= |s| then -1
    else if exists a :: 0 <= a <= |s| - len && GoodAt(s, p, a, len) then len
    else Shortest(s, p, len + 1)
  }

  /** The answer: 0 when the sum is already divisible, else the shortest removable proper stretch, or -1. */
  function Answer(s: seq<int>, p: int): int
    requires p > 0
  {
    if Pre(s, |s|) % p == 0 then 0 else Shortest(s, p, 1)
  }

  function Min(a: int, b: int): int {
    if a <= b then a else b
  }

  // ---------------------------------------------------------------------
  // What the answer means

  lemma {:induction false} ShortestMeaning(s: seq<int>, p: int, len: nat)
    requires p > 0 && len >= 1
    ensures Shortest(s, p, len) == -1 || len <= Shortest(s, p, len) < |s|
    ensures Shortest(s, p, len) == -1 ==> forall a, b :: Good(s, p, a, b) && b - a >= len ==> b - a == |s|
    ensures Shortest(s, p, len) != -1 ==> exists a :: GoodAt(s, p, a, Shortest(s, p, len))
    ensures Shortest(s, p, len) != -1 ==> forall a, b :: Good(s, p, a, b) && b - a >= len ==> b - a >= Shortest(s, p, len)
    decreases |s| - len
  {
    if len < |s| && !(exists a :: 0 <= a <= |s| - len && GoodAt(s, p, a, len)) {
      ShortestMeaning(s, p, len + 1);
      forall a, b | Good(s, p, a, b) && b - a >= len ensures b - a >= len + 1 {
        assert GoodAt(s, p, a, b - a);
      }
    }
  }

  /**
   * The answer is 0 exactly when the sum is divisible by p; otherwise it is
   * the length of a removable stretch shorter than the list that no
   * removable stretch shorter than the list undercuts, or -1 when removing
   * everything is the only way.
   */
  lemma AnswerMeaning(s: seq<int>, p: int)
    requires p > 0
    ensures Answer(s, p) == 0 <==> Pre(s, |s|) % p == 0
    ensures Answer(s, p) == -1 || 0 <= Answer(s, p)
    ensures Answer(s, p) > 0 ==> Answer(s, p) < |s| && exists a :: GoodAt(s, p, a, Answer(s, p))
    ensures Answer(s, p) > 0 ==> forall a, b :: Good(s, p, a, b) ==> Answer(s, p) <= b - a
    ensures Answer(s, p) == -1 ==> forall a, b :: Good(s, p, a, b) ==> b - a == |s|
  {
    ShortestMeaning(s, p, 1);
  }

  /**
   * The bridge every solution uses: once the sum is not divisible, a
   * length m no larger than the list, no longer than any removable
   * stretch, and either the list's length or that of some removable
   * stretch, gives the answer m, or -1 when m is the whole list.
   */
  lemma FromLeast(s: seq<int>, p: int, m: int)
    requires p > 0 && Pre(s, |s|) % p != 0 && m <= |s|
    requires forall a, b :: Good(s, p, a, b) ==> m <= b - a
    requires m == |s| || exists a, b :: Good(s, p, a, b) && b - a == m
    ensures Answer(s, p) == if m < |s| then m else -1
  {
    ShortestMeaning(s, p, 1);
  }

  // ---------------------------------------------------------------------
  // Residues

  /** The remainder of p * k + z is that of z. */
  lemma ModShift(z: int, k: int, p: int)
    requires p > 0
    ensures (p * k + z) % p == z % p
  {
    var q, r := z / p, z % p;
    assert p * k + z == p * (k + q) + r;
    RepeatedSubstring.DivMod(p * k + z, p, k + q, r);
  }

  /** Adding y to x or to x's remainder leaves the same remainder. */
  lemma ModAdd(x: int, y: int, p: int)
    requires p > 0
    ensures (x % p + y) % p == (x + y) % p
  {
    ModShift(x % p + y, x / p, p);
  }

  /**
   * Removing nums[a:b] leaves a multiple of p exactly when the prefix
   * residue at a is the one the source calls needed at b:
   * (prefix residue at b - target + p) % p, with target the total's residue.
   */
  lemma Congruence(t: int, a: int, b: int, p: int)
    requires p > 0
    ensures (t - (b - a)) % p == 0 <==> a % p == (b % p - t % p + p) % p
  {
    var rt, rb, ra := t % p, b % p, a % p;
    var q := t / p - b / p + a / p;
    var e := rt - rb + ra;
    assert t - (b - a) == p * q + e;
    var n := rb - rt + p;
    if n < p {
      RepeatedSubstring.DivMod(n, p, 0, n);
    } else {
      RepeatedSubstring.DivMod(n, p, 1, n - p);
    }
    if e < 0 {
      assert p * q + e == p * (q - 1) + (e + p);
      RepeatedSubstring.DivMod(t - (b - a), p, q - 1, e + p);
    } else if e < p {
      RepeatedSubstring.DivMod(t - (b - a), p, q, e);
    } else {
      assert p * q + e == p * (q + 1) + (e - p);
      RepeatedSubstring.DivMod(t - (b - a), p, q + 1, e - p);
    }
  }

  /** The residue the source looks up at prefix end b. */
  function Needed(s: seq<int>, p: int, b: int): int
    requires p > 0 && 0 <= b <= |s|
  {
    (Pre(s, b) % p - Pre(s, |s|) % p + p) % p
  }

  lemma GoodIffNeeded(s: seq<int>, p: int, a: int, b: int)
    requires p > 0 && 0 <= a < b <= |s|
    ensures Good(s, p, a, b) <==> Pre(s, a) % p == Needed(s, p, b)
  {
    Congruence(Pre(s, |s|), Pre(s, a), Pre(s, b), p);
  }

  /** The latest prefix end k <= m whose prefix sum has residue r, or -1. */
  function Latest(s: seq<int>, p: int, r: int, m: int): (k: int)
    requires p > 0 && 0 <= m <= |s|
    ensures -1 <= k <= m
    ensures k >= 0 ==> Pre(s, k) % p == r
    ensures forall j :: k < j <= m ==> Pre(s, j) % p != r
  {
    if Pre(s, m) % p == r then m
    else if m == 0 then -1
    else Latest(s, p, r, m - 1)
  }

  /** The shortest removable stretch ending at or before m, or the list's length. */
  function MinEnd(s: seq<int>, p: int, m: int): int
    requires p > 0 && 0 <= m <= |s|
  {
    if m == 0 then |s|
    else
      var k := Latest(s, p, Needed(s, p, m), m - 1);
      Min(MinEnd(s, p, m - 1), if k >= 0 then m - k else |s|)
  }

  /** MinEnd is the least length of the removable stretches ending by m, capped at the list's length. */
  lemma {:induction false} MinEndMeaning(s: seq<int>, p: int, m: int)
    requires p > 0 && 0 <= m <= |s|
    ensures MinEnd(s, p, m) <= |s|
    ensures forall a, b :: Good(s, p, a, b) && b <= m ==> MinEnd(s, p, m) <= b - a
    ensures MinEnd(s, p, m) == |s| || exists a, b :: Good(s, p, a, b) && b <= m && b - a == MinEnd(s, p, m)
  {
    if m > 0 {
      MinEndMeaning(s, p, m - 1);
      var k := Latest(s, p, Needed(s, p, m), m - 1);
      forall a | 0 <= a < m && Good(s, p, a, m) ensures MinEnd(s, p, m) <= m - a {
        GoodIffNeeded(s, p, a, m);
      }
      if k >= 0 {
        GoodIffNeeded(s, p, k, m);
      }
    }
  }

  /** The least removable length overall. */
  lemma MinEndAll(s: seq<int>, p: int)
    requires p > 0 && Pre(s, |s|) % p != 0
    ensures Answer(s, p) == if MinEnd(s, p, |s|) < |s| then MinEnd(s, p, |s|) else -1
  {
    MinEndMeaning(s, p, |s|);
    FromLeast(s, p, MinEnd(s, p, |s|));
  }

  // ---------------------------------------------------------------------
  // Solution: running residue and a map of latest positions

  /** What the map of Solution holds after i elements: each prefix residue seen, at its latest end minus one. */
  ghost predicate LatestMap(s: seq<int>, p: int, i: int, modMap: map<int, int>)
    requires p > 0 && 0 <= i <= |s|
  {
    && (forall r :: r in modMap <==> Latest(s, p, r, i) >= 0)
    && (forall r :: r in modMap ==> modMap[r] == Latest(s, p, r, i) - 1)
  }

  lemma LatestMapStep(s: seq<int>, p: int, i: int, modMap: map<int, int>)
    requires p > 0 && 0 <= i < |s| && LatestMap(s, p, i, modMap)
    ensures LatestMap(s, p, i + 1, modMap[Pre(s, i + 1) % p := i])
  {
  }

  /** Solution: one pass keeping the prefix residue and the latest position of every residue. */
  method HashMap(nums: seq<int>, p: int) returns (result: int)
    requires p > 0
    ensures result == Answer(nums, p)
  {
    var n := |nums|;
    var total := Pre(nums, n);
    var target := total % p;
    if target == 0 {
      return 0;
    }
    var modMap := map[0 := -1];
    var prefixSum := 0;
    var minLen := n;
    for i := 0 to n
      invariant prefixSum == Pre(nums, i) % p
      invariant LatestMap(nums, p, i, modMap)
      invariant minLen == MinEnd(nums, p, i)
    {
      ModAdd(Pre(nums, i), nums[i], p);
      prefixSum := (prefixSum + nums[i]) % p;
      var needed := (prefixSum - target + p) % p;
      if needed in modMap {
        minLen := Min(minLen, i - modMap[needed]);
      }
      LatestMapStep(nums, p, i, modMap);
      modMap := modMap[prefixSum := i];
    }
    MinEndAll(nums, p);
    result := if minLen < n then minLen else -1;
  }

  // ---------------------------------------------------------------------
  // Solution2: every stretch

  /** Stretch [a, b) comes before the one the nested loops are at: start i, end at most j. */
  predicate Done(i: int, j: int, a: int, b: int) {
    a < i || (a == i && b <= j)
  }

  /** No removable stretch seen so far is shorter than m. */
  ghost predicate Below(s: seq<int>, p: int, i: int, j: int, m: int)
    requires p > 0
  {
    forall a, b :: Good(s, p, a, b) && Done(i, j, a, b) ==> m <= b - a
  }

  /** m is the list's length or that of a removable stretch. */
  ghost predicate Reached(s: seq<int>, p: int, m: int)
    requires p > 0
  {
    m == |s| || exists a, b :: Good(s, p, a, b) && b - a == m
  }

  lemma BruteStep(s: seq<int>, p: int, i: int, j: int, minLen: int, minLen': int)
    requires p > 0 && 0 <= i <= j < |s| && Below(s, p, i, j, minLen) && Reached(s, p, minLen)
    requires minLen' == if Good(s, p, i, j + 1) then Min(minLen, j + 1 - i) else minLen
    ensures Below(s, p, i, j + 1, minLen') && Reached(s, p, minLen')
  {
    forall a, b | Good(s, p, a, b) && Done(i, j + 1, a, b) ensures minLen' <= b - a {
      if Done(i, j, a, b) {
      }
    }
  }

  lemma BruteRow(s: seq<int>, p: int, i: int, m: int)
    requires p > 0 && 0 <= i && Below(s, p, i, |s|, m)
    ensures Below(s, p, i + 1, i + 1, m)
  {
    forall a, b | Good(s, p, a, b) && Done(i + 1, i + 1, a, b) ensures m <= b - a {
      assert Done(i, |s|, a, b);
    }
  }

  /** Solution2: try every stretch, keeping the running sum of the current one. */
  method BruteForce(nums: seq<int>, p: int) returns (result: int)
    requires p > 0
    ensures result == Answer(nums, p)
  {
    var n := |nums|;
    var total := Pre(nums, n);
    if total % p == 0 {
      return 0;
    }
    var minLen := n;
    for i := 0 to n
      invariant Below(nums, p, i, i, minLen) && Reached(nums, p, minLen) && minLen <= n
    {
      var subarraySum := 0;
      for j := i to n
        invariant subarraySum == Pre(nums, j) - Pre(nums, i)
        invariant Below(nums, p, i, j, minLen) && Reached(nums, p, minLen) && minLen <= n
      {
        subarraySum := subarraySum + nums[j];
        var remaining := total - subarraySum;
        var minLen' := minLen;
        if remaining % p == 0 {
          minLen' := Min(minLen, j - i + 1);
        }
        BruteStep(nums, p, i, j, minLen, minLen');
        minLen := minLen';
      }
      BruteRow(nums, p, i, minLen);
    }
    forall a, b | Good(nums, p, a, b) ensures minLen <= b - a {
      assert Done(n, n, a, b);
    }
    FromLeast(nums, p, minLen);
    result := if minLen < n then minLen else -1;
  }

  // ---------------------------------------------------------------------
  // Solution3: a prefix-sum array, then the map

  /** Solution3's first loop: prefix[k] == sum(nums[:k]). */
  method PrefixArray(nums: seq<int>) returns (prefix: array<int>)
    ensures fresh(prefix) && prefix.Length == |nums| + 1
    ensures forall k {:trigger prefix[k]} :: 0 <= k <= |nums| ==> prefix[k] == Pre(nums, k)
  {
    var n := |nums|;
    prefix := new int[n + 1](_ => 0);
    for i := 0 to n
      invariant forall k {:trigger prefix[k]} :: 0 <= k <= i ==> prefix[k] == Pre(nums, k)
    {
      prefix[i + 1] := prefix[i] + nums[i];
      assert prefix[i + 1] == Pre(nums, i + 1);
    }
  }

  /** What the map of Solution3 holds before prefix end i: each residue seen, at its latest end. */
  ghost predicate SeenMap(s: seq<int>, p: int, i: int, modMap: map<int, int>)
    requires p > 0 && 0 <= i <= |s| + 1
  {
    if i == 0 then modMap == map[]
    else
      && (forall r :: r in modMap <==> Latest(s, p, r, i - 1) >= 0)
      && (forall r :: r in modMap ==> modMap[r] == Latest(s, p, r, i - 1))
  }

  lemma SeenMapStep(s: seq<int>, p: int, i: int, modMap: map<int, int>)
    requires p > 0 && 0 <= i <= |s| && SeenMap(s, p, i, modMap)
    ensures SeenMap(s, p, i + 1, modMap[Pre(s, i) % p := i])
  {
  }

  /** One step of Solution3's loop extends the least length to the stretches ending at prefix end i. */
  lemma SeenMapMin(s: seq<int>, p: int, i: int, modMap: map<int, int>, minLen: int, minLen': int)
    requires p > 0 && 0 <= i <= |s| && SeenMap(s, p, i, modMap)
    requires minLen == if i == 0 then |s| else MinEnd(s, p, i - 1)
    requires minLen' == if Needed(s, p, i) in modMap then Min(minLen, i - modMap[Needed(s, p, i)]) else minLen
    ensures minLen' == MinEnd(s, p, i)
  {
    if i > 0 {
      MinEndMeaning(s, p, i - 1);
    }
  }

  /** Solution3: the map over the prefix-sum array, one prefix end at a time. */
  method PrefixMap(nums: seq<int>, p: int) returns (result: int)
    requires p > 0
    ensures result == Answer(nums, p)
  {
    var n := |nums|;
    var prefix := PrefixArray(nums);
    var total := prefix[n];
    var target := total % p;
    if target == 0 {
      return 0;
    }
    var minLen := n;
    var modMap: map<int, int> := map[];
    for i := 0 to n + 1
      invariant forall k {:trigger prefix[k]} :: 0 <= k <= n ==> prefix[k] == Pre(nums, k)
      invariant SeenMap(nums, p, i, modMap)
      invariant minLen == if i == 0 then n else MinEnd(nums, p, i - 1)
    {
      var currentMod := prefix[i] % p;
      var needed := (currentMod - target + p) % p;
      assert currentMod == Pre(nums, i) % p && needed == Needed(nums, p, i);
      var minLen' := minLen;
      if needed in modMap {
        minLen' := Min(minLen, i - modMap[needed]);
      }
      SeenMapMin(nums, p, i, modMap, minLen, minLen');
      minLen := minLen';
      SeenMapStep(nums, p, i, modMap);
      modMap := modMap[currentMod := i];
    }
    MinEndAll(nums, p);
    result := if minLen < n then minLen else -1;
  }

  // ---------------------------------------------------------------------
  // The driver's cases

  lemma SampleOne()
    ensures Answer([3, 1, 4, 2], 6) == 1
  {
    var s := [3, 1, 4, 2];
    assert Pre(s, 4) == 10 && Pre(s, 3) == 8 && Pre(s, 2) == 4;
    assert GoodAt(s, 6, 2, 1);
  }

  lemma SampleTwo()
    ensures Answer([6, 3, 5, 2], 9) == 2
  {
    var s := [6, 3, 5, 2];
    assert Pre(s, 4) == 16 && Pre(s, 3) == 14 && Pre(s, 2) == 9 && Pre(s, 1) == 6;
    assert !GoodAt(s, 9, 0, 1) && !GoodAt(s, 9, 1, 1) && !GoodAt(s, 9, 2, 1) && !GoodAt(s, 9, 3, 1);
    assert GoodAt(s, 9, 2, 2);
  }

  lemma SampleThree()
    ensures Answer([1, 2, 3], 3) == 0 && Answer([1, 1, 1], 3) == 0
  {
    assert Pre([1, 2, 3], 3) == 6;
    assert Pre([1, 1, 1], 3) == 3;
  }
}

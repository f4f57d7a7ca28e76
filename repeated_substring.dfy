// Repeated Substring Pattern: can s be built by repeating one of its proper
// prefixes two or more times? Four ways to decide it: enumerate the prefix
// lengths, enumerate only the divisors of the length, look for s inside
// (s + s) without its first and last character, and read the answer off the
// KMP table of longest borders.
//
// The border and period facts proved here are also used by the repeated
// string match module.

module RepeatedSubstring {

  // ---------------------------------------------------------------------
  // Repetition, periods and rotations
  // ---------------------------------------------------------------------

  /** Python's p * m: p written m times. */
  function Repeat(p: string, m: nat): (r: string)
    ensures |r| == |p| * m
  {
    if m == 0 then [] else p + Repeat(p, m - 1)
  }

  /** Euclidean division is unique: x == k * q + r with 0 <= r < k fixes both. */
  lemma DivMod(x: int, k: int, q: int, r: int)
    requires k > 0 && 0 <= r < k && x == k * q + r
    ensures x / k == q && x % k == r
  {
    var d := x / k - q;
    assert k * d == r - x % k;
    assert d >= 1 ==> k * d >= k;
    assert d <= -1 ==> k * d <= -k;
  }

  /** Character i of p * m is character i mod |p| of p. */
  lemma {:induction false} RepeatAt(p: string, m: nat, i: nat)
    requires |p| > 0 && i < |p| * m
    ensures Repeat(p, m)[i] == p[i % |p|]
  {
    if i < |p| {
      DivMod(i, |p|, 0, i);
    } else {
      RepeatAt(p, m - 1, i - |p|);
      DivMod(i, |p|, (i - |p|) / |p| + 1, (i - |p|) % |p|);
    }
  }

  /** k is a period of s: every character equals the one k places on. */
  ghost predicate IsPeriod(s: string, k: int) {
    0 < k && forall i :: 0 <= i < |s| - k ==> s[i] == s[i + k]
  }

  /** With period k every character repeats the one at its position mod k. */
  lemma {:induction false} PeriodAt(s: string, k: int, i: nat)
    requires IsPeriod(s, k) && i < |s|
    ensures s[i] == s[i % k]
    decreases i
  {
    if i < k {
      DivMod(i, k, 0, i);
    } else {
      PeriodAt(s, k, i - k);
      DivMod(i, k, (i - k) / k + 1, (i - k) % k);
    }
  }

  /** For a divisor k of |s|, s is its first k characters repeated exactly when k is a period. */
  lemma RepeatIffPeriod(s: string, k: int)
    requires 0 < k <= |s| && |s| % k == 0
    ensures Repeat(s[..k], |s| / k) == s <==> IsPeriod(s, k)
  {
    if Repeat(s[..k], |s| / k) == s {
      RepeatGivesPeriod(s[..k], |s| / k);
    }
    if IsPeriod(s, k) {
      PeriodGivesRepeat(s, k);
    }
  }

  /** A repetition has the repeated unit's length as a period. */
  lemma RepeatGivesPeriod(p: string, m: nat)
    requires |p| > 0
    ensures IsPeriod(Repeat(p, m), |p|)
  {
    var k, w := |p|, Repeat(p, m);
    forall i | 0 <= i < |w| - k ensures w[i] == w[i + k] {
      RepeatAt(p, m, i);
      RepeatAt(p, m, i + k);
      DivMod(i + k, k, i / k + 1, i % k);
    }
  }

  /** With a period k dividing |s|, s is its first k characters repeated. */
  lemma PeriodGivesRepeat(s: string, k: int)
    requires 0 < k <= |s| && |s| % k == 0 && IsPeriod(s, k)
    ensures Repeat(s[..k], |s| / k) == s
  {
    var n, p, m := |s|, s[..k], |s| / k;
    assert n == k * m + n % k;
    forall i | 0 <= i < n ensures Repeat(p, m)[i] == s[i] {
      RepeatAt(p, m, i);
      PeriodAt(s, k, i);
    }
  }

  /** s repeats one of its proper prefixes, at least twice. */
  ghost predicate IsRepeated(s: string) {
    exists k :: IsUnit(s, k)
  }

  /** The first k characters, repeated, give back s, and k is shorter than s. */
  ghost predicate IsUnit(s: string, k: int) {
    0 < k < |s| && |s| % k == 0 && Repeat(s[..k], |s| / k) == s
  }

  /** Divisibility is transitive. */
  lemma DividesTrans(p: int, k: int, n: int)
    requires p > 0 && k > 0 && k % p == 0 && n % k == 0
    ensures n % p == 0
  {
    var a, b := k / p, n / k;
    assert k == p * a;
    assert n == k * b;
    assert n == p * (a * b);
    DivMod(n, p, a * b, 0);
  }

  /** A proper divisor is at most half. */
  lemma DivisorHalf(n: int, k: int)
    requires 0 < k < n && n % k == 0
    ensures k <= n / 2
  {
    var q := n / k;
    assert n == k * q;
    assert q <= 1 ==> k * q <= k;
    assert k * 2 <= k * q;
  }

  // ---------------------------------------------------------------------
  // Method 1: every prefix length that divides the length
  // ---------------------------------------------------------------------

  /**
   * Try each prefix length i + 1 that divides the length and is not the
   * whole string, and compare the repeated prefix with s.
   */
  method BruteForce(s: string) returns (r: bool)
    ensures r <==> IsRepeated(s)
  {
    var n := |s|;
    for i := 0 to n
      invariant forall k :: 0 < k <= i ==> !IsUnit(s, k)
    {
      var len := i + 1;
      if n % len != 0 || n == len {
        continue;
      }
      var times := n / len;
      var result := Repeat(s[..len], times);
      if result == s {
        assert IsUnit(s, len);
        return true;
      }
    }
    return false;
  }

  // ---------------------------------------------------------------------
  // Methods 3 and 5: only the divisors up to half the length
  // ---------------------------------------------------------------------

  method DivisorScan(s: string) returns (r: bool)
    ensures r <==> IsRepeated(s)
  {
    var n := |s|;
    for length := 1 to n / 2 + 1
      invariant forall k :: 0 < k < length ==> !IsUnit(s, k)
    {
      if n % length == 0 {
        if Repeat(s[..length], n / length) == s {
          assert IsUnit(s, length);
          return true;
        }
      }
    }
    forall k | IsUnit(s, k) ensures false {
      DivisorHalf(n, k);
    }
    return false;
  }

  // ---------------------------------------------------------------------
  // Method 2: s inside (s + s)[1:-1]
  // ---------------------------------------------------------------------

  /** p occurs in t at position j. */
  ghost predicate OccursAt(t: string, p: string, j: int) {
    0 <= j <= |t| - |p| && t[j..j + |p|] == p
  }

  /** Python's p in t. */
  function Contains(t: string, p: string): (r: bool)
    ensures r <==> exists j :: OccursAt(t, p, j)
    decreases |t|
  {
    if |p| > |t| then false
    else if t[..|p|] == p then
      assert OccursAt(t, p, 0);
      true
    else
      ContainsShift(t, p);
      Contains(t[1..], p)
  }

  /** When p is not at the front of t, its occurrences are those in t[1..], shifted by one. */
  lemma ContainsShift(t: string, p: string)
    requires |p| <= |t| && t[..|p|] != p
    ensures (exists j :: OccursAt(t, p, j)) <==> (exists j :: OccursAt(t[1..], p, j))
  {
    if j :| OccursAt(t[1..], p, j) {
      assert t[1..][j..j + |p|] == t[j + 1..j + 1 + |p|];
      assert OccursAt(t, p, j + 1);
    }
    if j :| OccursAt(t, p, j) {
      assert j > 0;
      assert t[j..j + |p|] == t[1..][j - 1..j - 1 + |p|];
      assert OccursAt(t[1..], p, j - 1);
    }
  }

  /** t[1:-1]: t without its first and last character, empty when t is shorter than 2. */
  function Inner(t: string): string {
    if |t| >= 2 then t[1..|t| - 1] else []
  }

  function Doubled(s: string): bool {
    Contains(Inner(s + s), s)
  }

  /** s rotated left by j places. */
  function Rotate(s: string, j: int): string
    requires 0 <= j <= |s|
  {
    s[j..] + s[..j]
  }

  /** Rotating by x and then by y is rotating by x + y. */
  lemma RotateTwice(s: string, x: int, y: int)
    requires 0 <= x && 0 <= y && x + y <= |s|
    ensures Rotate(Rotate(s, x), y) == Rotate(s, x + y)
  {
    var t := Rotate(s, x);
    assert t[y..] == s[x + y..] + s[..x];
    assert t[..y] == s[x..x + y];
    assert s[..x + y] == s[..x] + s[x..x + y];
  }

  /** If rotating by a and by b both leave s alone, so does rotating by a - b. */
  lemma RotateSub(s: string, a: int, b: int)
    requires 0 <= b <= a <= |s| && Rotate(s, a) == s && Rotate(s, b) == s
    ensures Rotate(s, a - b) == s
  {
    RotateTwice(s, b, a - b);
  }

  /** Euclid's algorithm by subtraction. */
  function Gcd(a: int, b: int): (g: int)
    requires a > 0 && b > 0
    ensures 0 < g <= a && g <= b && a % g == 0 && b % g == 0
    decreases a + b
  {
    if a == b then a
    else if a > b then
      var g := Gcd(a - b, b);
      DividesSum(g, a - b, b);
      g
    else
      var g := Gcd(a, b - a);
      DividesSum(g, a, b - a);
      g
  }

  /** A common divisor of x and y divides x + y. */
  lemma DividesSum(g: int, x: int, y: int)
    requires g > 0 && x % g == 0 && y % g == 0
    ensures (x + y) % g == 0
  {
    var p, q := x / g, y / g;
    assert x == g * p && y == g * q;
    assert x + y == g * (p + q);
    DivMod(x + y, g, p + q, 0);
  }

  /** Rotations that leave s alone are closed under Euclid's algorithm. */
  lemma {:induction false} RotateGcd(s: string, a: int, b: int)
    requires 0 < a <= |s| && 0 < b <= |s| && Rotate(s, a) == s && Rotate(s, b) == s
    ensures Rotate(s, Gcd(a, b)) == s
    decreases a + b
  {
    if a > b {
      RotateSub(s, a, b);
      RotateGcd(s, a - b, b);
    } else if a < b {
      RotateSub(s, b, a);
      RotateGcd(s, a, b - a);
    }
  }

  /** The |s| characters of s + s from position j are s rotated by j. */
  lemma DoubledSlice(s: string, j: int)
    requires 0 <= j <= |s|
    ensures (s + s)[j..j + |s|] == Rotate(s, j)
  {
    var n := |s|;
    forall i | 0 <= i < n ensures (s + s)[j..j + n][i] == Rotate(s, j)[i] {
      if i < n - j {
        assert (s + s)[j + i] == s[j + i];
      } else {
        assert (s + s)[j + i] == s[j + i - n];
      }
    }
  }

  /** A period dividing |s| is a rotation that leaves s alone. */
  lemma PeriodRotates(s: string, k: int)
    requires 0 < k <= |s| && |s| % k == 0 && IsPeriod(s, k)
    ensures Rotate(s, k) == s
  {
    var n := |s|;
    forall i | 0 <= i < n ensures Rotate(s, k)[i] == s[i] {
      if i >= n - k {
        assert Rotate(s, k)[i] == s[i - n + k];
        PeriodAt(s, k, i);
        PeriodAt(s, k, i - n + k);
        DivMod(n, k, n / k, 0);
        DivMod(i - n + k, k, i / k - n / k + 1, i % k);
      }
    }
  }

  /** A repeated string occurs inside its doubled copy at the length of its unit. */
  lemma DoubledIfRepeated(s: string)
    requires IsRepeated(s)
    ensures Doubled(s)
  {
    var n := |s|;
    var k :| IsUnit(s, k);
    RepeatIffPeriod(s, k);
    PeriodRotates(s, k);
    RotationDoubled(s, k);
  }

  /** A rotation by 0 < k < |s| that leaves s alone puts s inside its doubled copy. */
  lemma RotationDoubled(s: string, k: int)
    requires 0 < k < |s| && Rotate(s, k) == s
    ensures Doubled(s)
  {
    var n := |s|;
    DoubledSlice(s, k);
    var t := Inner(s + s);
    assert t == (s + s)[1..2 * n - 1];
    var u, v := t[k - 1..k - 1 + n], (s + s)[k..k + n];
    forall i | 0 <= i < n ensures u[i] == v[i] {
      assert t[k - 1 + i] == (s + s)[k + i];
    }
    assert OccursAt(t, s, k - 1);
  }

  /** An occurrence inside the doubled copy is a rotation, and Euclid turns it into a unit dividing |s|. */
  lemma RepeatedIfDoubled(s: string)
    requires |s| > 0 && Doubled(s)
    ensures IsRepeated(s)
  {
    var j := RotationOfDoubled(s);
    RepeatedIfRotates(s, j);
  }

  /** An occurrence of s at j - 1 in (s + s)[1:-1] shows s fixed by the rotation j. */
  lemma RotationOfDoubled(s: string) returns (j: int)
    requires |s| > 0 && Doubled(s)
    ensures 0 < j < |s| && Rotate(s, j) == s
  {
    var n := |s|;
    var t := Inner(s + s);
    var j' :| OccursAt(t, s, j');
    j := j' + 1;
    assert t == (s + s)[1..2 * n - 1];
    var u, v := t[j'..j' + n], (s + s)[j..j + n];
    forall i | 0 <= i < n ensures u[i] == v[i] {
      assert t[j' + i] == (s + s)[j + i];
    }
    assert u == v;
    DoubledSlice(s, j);
  }

  /** A rotation 0 < j < |s| fixing s makes gcd(j, |s|) a unit that s repeats. */
  lemma RepeatedIfRotates(s: string, j: int)
    requires 0 < j < |s| && Rotate(s, j) == s
    ensures IsRepeated(s)
  {
    var n := |s|;
    assert Rotate(s, n) == s;
    RotateGcd(s, j, n);
    var g := Gcd(j, n);
    forall i | 0 <= i < n - g ensures s[i] == s[i + g] {
      assert Rotate(s, g)[i] == s[g + i];
    }
    RepeatIffPeriod(s, g);
    assert IsUnit(s, g);
  }

  /** For a non-empty s the doubled-copy test decides the property. */
  lemma DoubledCorrect(s: string)
    requires |s| > 0
    ensures Doubled(s) <==> IsRepeated(s)
  {
    if Doubled(s) {
      RepeatedIfDoubled(s);
    }
    if IsRepeated(s) {
      DoubledIfRepeated(s);
    }
  }

  /** The empty string is found in the empty inner part, although it repeats nothing. */
  lemma DoubledEmpty()
    ensures Doubled("") && !IsRepeated("")
  {
    assert OccursAt("", "", 0);
  }

  // ---------------------------------------------------------------------
  // Method 4: the KMP table of longest proper borders
  // ---------------------------------------------------------------------

  /** The first b characters of s[..m] are also its last b, and b < m. */
  ghost predicate IsBorder(s: string, m: int, b: int) {
    0 <= b < m <= |s| && s[..b] == s[m - b..m]
  }

  /** b is the longest proper border of s[..m]. */
  ghost predicate LongestBorder(s: string, m: int, b: int) {
    IsBorder(s, m, b) && forall c :: b < c < m ==> !IsBorder(s, m, c)
  }

  /** Entry i of the table is the longest proper border of s[..i + 1]. */
  ghost predicate IsBorderTable(s: string, t: seq<int>) {
    |t| == |s| && forall i :: 0 <= i < |s| ==> LongestBorder(s, i + 1, t[i])
  }

  /** Dropping the last character of a non-empty border gives a border one shorter. */
  lemma BorderShrink(s: string, m: int, c: int)
    requires 0 < c && IsBorder(s, m + 1, c)
    ensures IsBorder(s, m, c - 1) && s[c - 1] == s[m]
  {
    assert s[..c - 1] == s[..c][..c - 1];
    assert s[m + 1 - c..m] == s[m + 1 - c..m + 1][..c - 1];
    assert s[c - 1] == s[..c][c - 1];
  }

  /** A border followed by a matching character extends by one. */
  lemma BorderExtend(s: string, m: int, b: int)
    requires IsBorder(s, m, b) && m < |s| && s[b] == s[m]
    ensures IsBorder(s, m + 1, b + 1)
  {
    assert s[..b + 1] == s[..b] + [s[b]];
    assert s[m - b..m + 1] == s[m - b..m] + [s[m]];
  }

  /** A border of a border is a border. */
  lemma BorderOfBorder(s: string, m: int, b: int, c: int)
    requires IsBorder(s, m, b) && IsBorder(s, b, c)
    ensures IsBorder(s, m, c)
  {
    assert s[m - c..m] == s[m - b..m][b - c..];
    assert s[b - c..b] == s[..b][b - c..];
  }

  /** A shorter border of s[..m] is a border of any longer one. */
  lemma BorderInside(s: string, m: int, b: int, c: int)
    requires IsBorder(s, m, b) && IsBorder(s, m, c) && c < b
    ensures IsBorder(s, b, c)
  {
    assert s[b - c..b] == s[..b][b - c..];
    assert s[m - c..m] == s[m - b..m][b - c..];
  }

  /** What holds before position i of the table loop. */
  ghost predicate TableInv(s: string, t: seq<int>, i: int, length: int) {
    && |t| == |s| && 0 < i && (i <= |s| || |s| == 0)
    && 0 <= length < i
    && (i <= |s| ==> IsBorder(s, i, length))
    && (forall j :: 0 <= j < i && j < |s| ==> LongestBorder(s, j + 1, t[j]))
    && (i < |s| ==> BordersAtMost(s, i + 1, length + 1))
  }

  /** No border of s[..m] is longer than bound. */
  ghost predicate BordersAtMost(s: string, m: int, bound: int) {
    forall c :: IsBorder(s, m, c) ==> c <= bound
  }

  /** Matching character: length + 1 is the longest border of s[..i + 1]. */
  lemma TableMatch(s: string, t: seq<int>, i: int, length: int)
    requires TableInv(s, t, i, length) && i < |s| && s[i] == s[length]
    ensures TableInv(s, t[i := length + 1], i + 1, length + 1)
  {
    BorderExtend(s, i, length);
    if i + 1 < |s| {
      var m := i + 2;
      forall c | IsBorder(s, m, c) ensures c <= length + 2 {
        if c > 0 {
          BorderShrink(s, i + 1, c);
        }
      }
    }
  }

  /** Mismatch: fall back to the longest border of the current border. */
  lemma TableFallBack(s: string, t: seq<int>, i: int, length: int)
    requires TableInv(s, t, i, length) && i < |s| && s[i] != s[length] && length != 0
    ensures 0 <= t[length - 1] < length && TableInv(s, t, i, t[length - 1])
  {
    var b := t[length - 1];
    assert LongestBorder(s, length, b);
    BorderOfBorder(s, i, length, b);
    var m := i + 1;
    forall c | IsBorder(s, m, c) ensures c <= b + 1 {
      if c > 0 {
        BorderShrink(s, i, c);
        if c - 1 < length {
          BorderInside(s, i, length, c - 1);
        }
      }
    }
  }

  /** Mismatch with no border left: s[..i + 1] has no non-empty border. */
  lemma TableNone(s: string, t: seq<int>, i: int)
    requires TableInv(s, t, i, 0) && i < |s| && s[i] != s[0]
    ensures TableInv(s, t[i := 0], i + 1, 0)
  {
    var m := i + 1;
    forall c | IsBorder(s, m, c) ensures c == 0 {
      if c > 0 {
        BorderShrink(s, i, c);
      }
    }
    if i + 1 < |s| {
      var m' := i + 2;
      forall c | IsBorder(s, m', c) ensures c <= 1 {
        if c > 0 {
          BorderShrink(s, i + 1, c);
        }
      }
    }
  }

  /** The table loop of method 4: one step forward on a match, fall back on a mismatch. */
  method BorderTable(s: string) returns (lps: seq<int>)
    ensures IsBorderTable(s, lps)
  {
    var n := |s|;
    var a := new int[n](_ => 0);
    var length := 0;
    var i := 1;
    while i < n
      invariant TableInv(s, a[..], i, length)
      decreases n - i, length
    {
      if s[i] == s[length] {
        TableMatch(s, a[..], i, length);
        length := length + 1;
        a[i] := length;
        i := i + 1;
      } else {
        if length != 0 {
          TableFallBack(s, a[..], i, length);
          length := a[length - 1];
        } else {
          TableNone(s, a[..], i);
          a[i] := 0;
          i := i + 1;
        }
      }
    }
    lps := a[..];
  }

  /** A border of length |s| - k is the same as a period k. */
  lemma BorderIsPeriod(s: string, k: int)
    requires 0 < k <= |s|
    ensures IsBorder(s, |s|, |s| - k) <==> IsPeriod(s, k)
  {
    var n := |s|;
    if IsPeriod(s, k) {
      assert s[..n - k] == s[k..n];
    }
    if IsBorder(s, n, n - k) {
      forall i | 0 <= i < n - k ensures s[i] == s[i + k] {
        assert s[..n - k][i] == s[k..n][i];
      }
    }
  }

  /** Two periods that fit in s leave their difference as a period. */
  lemma PeriodSub(s: string, p: int, q: int)
    requires IsPeriod(s, p) && IsPeriod(s, q) && p < q && p + q <= |s|
    ensures IsPeriod(s, q - p)
  {
    forall i | 0 <= i < |s| - (q - p) ensures s[i] == s[i + q - p] {
      if i + q < |s| {
        assert s[i] == s[i + q];
        assert s[i + q - p] == s[i + q - p + p];
      } else {
        assert s[i - p] == s[i - p + p];
        assert s[i - p] == s[i - p + q];
      }
    }
  }

  /** Two periods that fit in s leave their greatest common divisor as a period. */
  lemma {:induction false} PeriodGcd(s: string, p: int, q: int)
    requires IsPeriod(s, p) && IsPeriod(s, q) && p + q <= |s|
    ensures IsPeriod(s, Gcd(p, q))
    decreases p + q
  {
    if p < q {
      PeriodSub(s, p, q);
      PeriodGcd(s, p, q - p);
    } else if p > q {
      PeriodSub(s, q, p);
      PeriodGcd(s, p - q, q);
    }
  }

  /**
   * With b the longest proper border of s, s repeats a proper prefix exactly
   * when b > 0 and |s| - b divides |s|.
   */
  lemma BorderCriterion(s: string, b: int)
    requires LongestBorder(s, |s|, b)
    ensures b > 0 && |s| % (|s| - b) == 0 <==> IsRepeated(s)
  {
    var n := |s|;
    if b > 0 && n % (n - b) == 0 {
      BorderIsPeriod(s, n - b);
      RepeatIffPeriod(s, n - b);
      assert IsUnit(s, n - b);
    }
    if IsRepeated(s) {
      var k :| IsUnit(s, k);
      UnitMultipleOfShortest(s, b, k);
    }
  }

  /** Any unit s repeats is a multiple of the shortest period |s| - b, which therefore divides |s|. */
  lemma UnitMultipleOfShortest(s: string, b: int, k: int)
    requires LongestBorder(s, |s|, b)
    requires 0 < k < |s| && |s| % k == 0 && Repeat(s[..k], |s| / k) == s
    ensures b > 0 && |s| % (|s| - b) == 0
  {
    var n := |s|;
    var p := n - b;
    RepeatIffPeriod(s, k);
    BorderIsPeriod(s, k);
    assert n - k <= b;
    BorderIsPeriod(s, p);
    DivisorHalf(n, k);
    PeriodGcd(s, p, k);
    var g := Gcd(p, k);
    BorderIsPeriod(s, g);
    assert g == p;
    DividesTrans(p, k, n);
  }


  /** Build the table, then apply the border criterion. s must not be empty: lps[n - 1] is read. */
  method Kmp(s: string) returns (r: bool)
    requires |s| > 0
    ensures r <==> IsRepeated(s)
  {
    var lps := BorderTable(s);
    var n := |s|;
    BorderCriterion(s, lps[n - 1]);
    r := lps[n - 1] > 0 && n % (n - lps[n - 1]) == 0;
  }
}

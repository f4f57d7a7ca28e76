// Repeated String Match: the fewest copies of a, written one after another,
// that contain b, or -1 when no number of copies does. Only two counts need
// trying: the ceiling of |b| / |a| and one more.

module RepeatedStringMatch {
  import opened RepeatedSubstring

  /** b occurs in a written t times. */
  ghost predicate FoundIn(a: string, b: string, t: nat) {
    Contains(Repeat(a, t), b)
  }

  /** r is the fewest copies of a containing b, or -1 when none do. */
  ghost predicate IsAnswer(a: string, b: string, r: int) {
    if r == -1 then forall t: nat :: !FoundIn(a, b, t)
    else r >= 0 && FoundIn(a, b, r) && forall t: nat :: t < r ==> !FoundIn(a, b, t)
  }

  /** There is only one answer. */
  lemma AnswerUnique(a: string, b: string, r: int, r': int)
    requires IsAnswer(a, b, r) && IsAnswer(a, b, r')
    ensures r == r'
  {
    if r != -1 && r' != -1 {
      assert !(r < r') && !(r' < r);
    }
  }

  /** math.ceil(m / n) on non-negative integers. */
  function Ceil(m: nat, n: nat): (q: nat)
    requires n > 0
    ensures n * q >= m && n * (q - 1) < m
  {
    var q := (m + n - 1) / n;
    DivMod(m + n - 1, n, q, (m + n - 1) % n);
    q
  }

  /** Python's -(-m // n), with // rounding down, is the same ceiling. */
  lemma NegFloorIsCeil(m: int, n: int)
    requires m >= 0 && n > 0
    ensures -((-m) / n) == Ceil(m, n)
  {
    var q: int := Ceil(m, n);
    DivMod(-m, n, -q, n * q - m);
  }

  /** Fewer than Ceil(|b|, |a|) copies are too short to hold b. */
  lemma TooShort(a: string, b: string, t: nat)
    requires |a| > 0 && t < Ceil(|b|, |a|)
    ensures !FoundIn(a, b, t)
  {
    MulLe(|a|, t, Ceil(|b|, |a|) - 1);
  }

  /** Adding i to j and to j mod n leaves the same remainder. */
  lemma ModAdd(j: int, i: int, n: int)
    requires 0 <= j && 0 <= i && n > 0
    ensures (j + i) % n == (j % n + i) % n
  {
    var r := j % n;
    DivMod(j, n, j / n, r);
    var q2, r2 := (r + i) / n, (r + i) % n;
    DivMod(r + i, n, q2, r2);
    assert j + i == n * (j / n + q2) + r2;
    DivMod(j + i, n, j / n + q2, r2);
  }

  /** An occurrence at position j moves to position j mod |a| in any repetition long enough. */
  lemma Shift(a: string, b: string, t: nat, j: int, u: nat)
    requires |a| > 0 && OccursAt(Repeat(a, t), b, j)
    requires j % |a| + |b| <= |a| * u
    ensures OccursAt(Repeat(a, u), b, j % |a|)
  {
    var n, w, v := |a|, Repeat(a, t), Repeat(a, u);
    var j' := j % n;
    forall i | 0 <= i < |b| ensures v[j' + i] == b[i] {
      assert w[j..j + |b|][i] == b[i];
      RepeatAt(a, t, j + i);
      RepeatAt(a, u, j' + i);
      ModAdd(j, i, n);
    }
    assert v[j'..j' + |b|] == b;
  }

  /** If any number of copies holds b, then Ceil(|b|, |a|) + 1 copies do. */
  lemma FoundCeilPlusOne(a: string, b: string, t: nat)
    requires |a| > 0 && FoundIn(a, b, t)
    ensures FoundIn(a, b, Ceil(|b|, |a|) + 1)
  {
    var j :| OccursAt(Repeat(a, t), b, j);
    var q := Ceil(|b|, |a|);
    assert |a| * (q + 1) == |a| * q + |a|;
    Shift(a, b, t, j, q + 1);
  }

  /** set(b) <= set(a): every character of b occurs in a. */
  predicate CharsWithin(b: string, a: string) {
    forall c :: c in b ==> c in a
  }

  /** A character of b that a lacks rules out every number of copies. */
  lemma MissingChar(a: string, b: string, c: char, t: nat)
    requires c in b && c !in a
    ensures !FoundIn(a, b, t)
  {
    if FoundIn(a, b, t) {
      var w := Repeat(a, t);
      var j :| OccursAt(w, b, j);
      var i :| 0 <= i < |b| && b[i] == c;
      assert w[j..j + |b|][i] == c;
      if |a| > 0 {
        RepeatAt(a, t, j + i);
      }
    }
  }

  /** No fewer than m copies contain b. */
  ghost predicate NoneBelow(a: string, b: string, m: nat) {
    forall t: nat :: t < m ==> !FoundIn(a, b, t)
  }

  /** Up to the ceiling, every count is too short. */
  lemma NoneBelowCeil(a: string, b: string, m: nat)
    requires |a| > 0 && m <= Ceil(|b|, |a|)
    ensures NoneBelow(a, b, m)
  {
    forall t: nat | t < m ensures !FoundIn(a, b, t) {
      TooShort(a, b, t);
    }
  }

  /** When neither the ceiling nor one more copy holds b, no count does. */
  lemma NeverPastCeil(a: string, b: string)
    requires |a| > 0 && NoneBelow(a, b, Ceil(|b|, |a|) + 2)
    ensures IsAnswer(a, b, -1)
  {
    forall t: nat ensures !FoundIn(a, b, t) {
      if FoundIn(a, b, t) {
        FoundCeilPlusOne(a, b, t);
      }
    }
  }

  // ---------------------------------------------------------------------
  // Methods 1 to 4: try the counts around the ceiling
  // ---------------------------------------------------------------------

  /**
   * Method 1: try from the floor of |b| / |a| up to two more. The quotient is
   * computed exactly here; the source divides in floating point.
   */
  method FloorTries(a: string, b: string) returns (r: int)
    requires |a| > 0
    ensures IsAnswer(a, b, r)
  {
    var atLeast := |b| / |a|;
    var atMost := atLeast + 2;
    FloorNearCeil(|b|, |a|);
    NoneBelowCeil(a, b, atLeast);
    for times := atLeast to atMost + 1
      invariant NoneBelow(a, b, times)
    {
      var combo := Repeat(a, times);
      if Contains(combo, b) {
        return times;
      }
    }
    NeverPastCeil(a, b);
    return -1;
  }

  /** The floor of m / n is at most the ceiling, and the ceiling at most one more. */
  lemma FloorNearCeil(m: nat, n: nat)
    requires n > 0
    ensures m / n <= Ceil(m, n) <= m / n + 1
  {
    var q, f := Ceil(m, n), m / n;
    DivMod(m, n, f, m % n);
    if q < f {
      MulLe(n, q, f - 1);
    } else if q > f + 1 {
      MulLe(n, f + 1, q - 1);
    }
  }

  lemma MulLe(n: nat, x: int, y: int)
    requires x <= y
    ensures n * x <= n * y
  {
    assert n * y - n * x == n * (y - x);
  }

  /** Method 2: the ceiling, then one more, then give up. a must not be empty. */
  function CeilingTries(a: string, b: string): int
    requires |a| > 0
  {
    var q := Ceil(|b|, |a|);
    if Contains(Repeat(a, q), b) then q
    else if Contains(Repeat(a, q + 1), b) then q + 1
    else -1
  }

  lemma CeilingTriesCorrect(a: string, b: string)
    requires |a| > 0
    ensures IsAnswer(a, b, CeilingTries(a, b))
  {
    var q := Ceil(|b|, |a|);
    NoneBelowCeil(a, b, q);
    if !FoundIn(a, b, q) && !FoundIn(a, b, q + 1) {
      NeverPastCeil(a, b);
    }
  }

  /**
   * Method 3: every character of b must be in a; then the same two tries.
   * An empty a fails the character test unless b is empty too, the one case
   * that reaches the division by |a|.
   */
  function CharsThenTries(a: string, b: string): int
    requires |a| > 0 || |b| > 0
  {
    if !CharsWithin(b, a) then -1
    else
      assert |b| > 0 ==> b[0] in b;
      var q := -((-|b|) / |a|);
      if Contains(Repeat(a, q), b) then q
      else if Contains(Repeat(a, q + 1), b) then q + 1
      else -1
  }

  lemma CharsThenTriesCorrect(a: string, b: string)
    requires |a| > 0 || |b| > 0
    ensures IsAnswer(a, b, CharsThenTries(a, b))
  {
    if !CharsWithin(b, a) {
      NeverIfMissing(a, b);
    } else {
      assert |b| > 0 ==> b[0] in b;
      SameTries(a, b);
      CeilingTriesCorrect(a, b);
    }
  }

  /** Past the character test, method 3 tries the same two counts as method 2. */
  lemma SameTries(a: string, b: string)
    requires |a| > 0 && CharsWithin(b, a)
    ensures CharsThenTries(a, b) == CeilingTries(a, b)
  {
    NegFloorIsCeil(|b|, |a|);
  }

  /** Method 4: a loop over the two candidate counts. */
  method RangeTries(a: string, b: string) returns (r: int)
    requires |a| > 0
    ensures IsAnswer(a, b, r)
  {
    var minRepeat := -((-|b|) / |a|);
    NegFloorIsCeil(|b|, |a|);
    var maxRepeat := minRepeat + 1;
    NoneBelowCeil(a, b, minRepeat);
    for times := minRepeat to maxRepeat + 1
      invariant NoneBelow(a, b, times)
    {
      var candidate := Repeat(a, times);
      if Contains(candidate, b) {
        return times;
      }
    }
    NeverPastCeil(a, b);
    return -1;
  }

  // ---------------------------------------------------------------------
  // Method 5: KMP over the repeated text without building it
  // ---------------------------------------------------------------------

  /** The border table loop of method 5: fall back first, then extend on a match. */
  method FailureTable(pattern: string) returns (next: seq<int>)
    ensures IsBorderTable(pattern, next)
  {
    var m := |pattern|;
    var arr := new int[m](_ => 0);
    var j := 0;
    var i := 1;
    while i < m
      invariant TableInv(pattern, arr[..], i, j)
    {
      while j > 0 && pattern[i] != pattern[j]
        invariant TableInv(pattern, arr[..], i, j)
      {
        TableFallBack(pattern, arr[..], i, j);
        j := arr[j - 1];
      }
      if pattern[i] == pattern[j] {
        TableMatch(pattern, arr[..], i, j);
        j := j + 1;
      } else {
        TableNone(pattern, arr[..], i);
      }
      arr[i] := j;
      i := i + 1;
    }
    next := arr[..];
  }

  /** The first k characters of b end at position e of w. */
  ghost predicate MatchEnd(w: string, b: string, e: int, k: int) {
    0 <= k <= |b| && k <= e <= |w| && w[e - k..e] == b[..k]
  }

  /** A non-empty match ending one later gives a match one shorter ending here. */
  lemma MatchShrink(w: string, b: string, e: int, c: int)
    requires 0 < c && MatchEnd(w, b, e + 1, c)
    ensures MatchEnd(w, b, e, c - 1) && w[e] == b[c - 1]
  {
    assert w[e + 1 - c..e] == w[e + 1 - c..e + 1][..c - 1];
    assert b[..c - 1] == b[..c][..c - 1];
    assert w[e] == w[e + 1 - c..e + 1][c - 1];
  }

  lemma MatchExtend(w: string, b: string, e: int, j: int)
    requires MatchEnd(w, b, e, j) && j < |b| && e < |w| && w[e] == b[j]
    ensures MatchEnd(w, b, e + 1, j + 1)
  {
    assert w[e - j..e + 1] == w[e - j..e] + [w[e]];
    assert b[..j + 1] == b[..j] + [b[j]];
  }

  /** Two matches ending at the same place: the shorter is a border of the longer. */
  lemma MatchBorder(w: string, b: string, e: int, j: int, c: int)
    requires MatchEnd(w, b, e, j) && MatchEnd(w, b, e, c) && c < j
    ensures IsBorder(b, j, c)
  {
    assert b[j - c..j] == b[..j][j - c..];
    assert w[e - c..e] == w[e - j..e][j - c..];
  }

  /** A border of a match is a match. */
  lemma MatchFallBack(w: string, b: string, e: int, j: int, c: int)
    requires MatchEnd(w, b, e, j) && IsBorder(b, j, c)
    ensures MatchEnd(w, b, e, c)
  {
    assert b[j - c..j] == b[..j][j - c..];
    assert w[e - c..e] == w[e - j..e][j - c..];
  }

  /** No match of all of b ends at or before e. */
  ghost predicate NoneEndsBy(w: string, b: string, e: int) {
    forall f :: f <= e ==> !MatchEnd(w, b, f, |b|)
  }

  /** j is the longest prefix of b ending at e, and shorter than b. */
  ghost predicate Longest(w: string, b: string, e: int, j: int) {
    && 0 <= j < |b| && MatchEnd(w, b, e, j) && MatchesAtMost(w, b, e, j)
  }

  /** No prefix of b longer than bound ends at f. */
  ghost predicate MatchesAtMost(w: string, b: string, f: int, bound: int) {
    forall c :: MatchEnd(w, b, f, c) ==> c <= bound
  }

  /** While falling back before reading w[e]: no prefix longer than j + 1 can end after it. */
  ghost predicate Candidates(w: string, b: string, e: int, j: int) {
    MatchesAtMost(w, b, e + 1, j + 1)
  }

  lemma StartCandidates(w: string, b: string, e: int, j: int)
    requires e < |w| && Longest(w, b, e, j)
    ensures Candidates(w, b, e, j)
  {
    var f := e + 1;
    forall c | MatchEnd(w, b, f, c) ensures c <= j + 1 {
      if c > 0 {
        MatchShrink(w, b, e, c);
      }
    }
  }

  lemma FallBackStep(w: string, b: string, e: int, j: int, next: seq<int>)
    requires e < |w| && 0 < j < |b| && MatchEnd(w, b, e, j) && Candidates(w, b, e, j)
    requires IsBorderTable(b, next) && w[e] != b[j]
    ensures MatchEnd(w, b, e, next[j - 1]) && Candidates(w, b, e, next[j - 1])
  {
    var k := next[j - 1];
    assert LongestBorder(b, j, k);
    MatchFallBack(w, b, e, j, k);
    var f := e + 1;
    forall c | MatchEnd(w, b, f, c) ensures c <= k + 1 {
      if c > 0 {
        MatchShrink(w, b, e, c);
        MatchBorder(w, b, e, j, c - 1);
      }
    }
  }

  /** After falling back, reading w[e] gives the longest match ending one later. */
  lemma ReadStep(w: string, b: string, e: int, j: int)
    requires e < |w| && 0 <= j < |b| && MatchEnd(w, b, e, j) && Candidates(w, b, e, j)
    requires j == 0 || w[e] == b[j]
    ensures w[e] == b[j] ==> MatchEnd(w, b, e + 1, j + 1) && MatchesAtMost(w, b, e + 1, j + 1)
    ensures w[e] != b[j] ==> Longest(w, b, e + 1, 0)
  {
    if w[e] == b[j] {
      MatchExtend(w, b, e, j);
    } else {
      var f := e + 1;
      forall c | MatchEnd(w, b, f, c) ensures c <= 0 {
        if c > 0 {
          MatchShrink(w, b, e, c);
        }
      }
      assert w[e + 1..e + 1] == b[..0];
    }
  }

  /** Reading w[e] either completes b or leaves the longest shorter match and no full one yet. */
  lemma Advance(w: string, b: string, e: int, j: int)
    requires e < |w| && 0 <= j < |b| && MatchEnd(w, b, e, j) && Candidates(w, b, e, j)
    requires j == 0 || w[e] == b[j]
    requires NoneEndsBy(w, b, e)
    ensures var j' := if w[e] == b[j] then j + 1 else 0;
      && (j' == |b| ==> MatchEnd(w, b, e + 1, |b|))
      && (j' < |b| ==> Longest(w, b, e + 1, j') && NoneEndsBy(w, b, e + 1))
  {
    ReadStep(w, b, e, j);
  }

  /** The repeated text read at position i is a at position i mod |a|. */
  lemma TextAt(a: string, count: nat, i: int)
    requires |a| > 0 && 0 <= i < |a| * count
    ensures Repeat(a, count)[i] == a[i % |a|]
  {
    RepeatAt(a, count, i);
  }

  /** A match ending at e in the first count copies is an occurrence in any t copies reaching e. */
  lemma EndToFound(a: string, b: string, count: nat, e: int, t: nat)
    requires |a| > 0 && MatchEnd(Repeat(a, count), b, e, |b|) && e <= |a| * t
    ensures FoundIn(a, b, t)
  {
    var w, v := Repeat(a, count), Repeat(a, t);
    var j := e - |b|;
    forall i | 0 <= i < |b| ensures v[j + i] == b[i] {
      assert w[j..e][i] == b[..|b|][i];
      RepeatAt(a, count, j + i);
      RepeatAt(a, t, j + i);
    }
    assert v[j..j + |b|] == b;
    assert OccursAt(v, b, j);
  }

  /** An occurrence in t copies, t <= count, is a match ending within the first |a| * t characters. */
  lemma FoundToEnd(a: string, b: string, count: nat, t: nat)
    requires |a| > 0 && FoundIn(a, b, t) && t <= count
    ensures exists e :: e <= |a| * t && MatchEnd(Repeat(a, count), b, e, |b|)
  {
    var w, v := Repeat(a, count), Repeat(a, t);
    var j :| OccursAt(v, b, j);
    MulLe(|a|, t, count);
    forall i | 0 <= i < |b| ensures w[j + i] == b[i] {
      assert v[j..j + |b|][i] == b[i];
      RepeatAt(a, count, j + i);
      RepeatAt(a, t, j + i);
    }
    assert w[j..j + |b|] == b[..|b|];
    assert MatchEnd(w, b, j + |b|, |b|);
  }

  /**
   * Method 5. An empty b needs no copies; a character of b missing from a
   * rules every count out, an empty a included; otherwise KMP runs over the characters of a
   * repeated Ceil(|b|, |a|) + 1 times, read as a[i % |a|].
   */
  method KmpMatch(a: string, b: string) returns (r: int)
    ensures IsAnswer(a, b, r)
  {
    var lenA, lenB := |a|, |b|;
    if b == [] {
      assert OccursAt(Repeat(a, 0), b, 0);
      return 0;
    }
    if !CharsWithin(b, a) {
      NeverIfMissing(a, b);
      return -1;
    }
    assert lenA > 0 by {
      assert b[0] in a;
    }
    var next := FailureTable(b);
    var maxCount := (lenB + lenA - 1) / lenA + 1;
    r := Scan(a, b, next, maxCount);
  }

  /** The matching loop of method 5 over maxCount copies of a, read as a[i % |a|]. */
  method Scan(a: string, b: string, next: seq<int>, maxCount: nat) returns (r: int)
    requires |a| > 0 && |b| > 0 && IsBorderTable(b, next)
    requires maxCount == Ceil(|b|, |a|) + 1
    ensures IsAnswer(a, b, r)
  {
    var lenA, lenB := |a|, |b|;
    var j := 0;
    var count := 1;
    ghost var w := Repeat(a, maxCount);
    assert MatchEnd(w, b, 0, 0);
    for i := 0 to maxCount * lenA
      invariant Longest(w, b, i, j)
      invariant NoneEndsBy(w, b, i)
    {
      TextAt(a, maxCount, i);
      StartCandidates(w, b, i, j);
      while j > 0 && a[i % lenA] != b[j]
        invariant 0 <= j < lenB && MatchEnd(w, b, i, j) && Candidates(w, b, i, j)
      {
        FallBackStep(w, b, i, j, next);
        j := next[j - 1];
      }
      Advance(w, b, i, j);
      if a[i % lenA] == b[j] {
        j := j + 1;
      }
      if j == lenB {
        FirstEnd(a, b, maxCount, i + 1);
        return (i / lenA) + 1;
      }
      if (i + 1) % lenA == 0 {
        count := (i + 1) / lenA + 1;
      }
    }
    NeverIfNoEnd(a, b, maxCount);
    return -1;
  }

  lemma NeverIfMissing(a: string, b: string)
    requires !CharsWithin(b, a)
    ensures IsAnswer(a, b, -1)
  {
    var c :| c in b && c !in a;
    forall t: nat ensures !FoundIn(a, b, t) {
      MissingChar(a, b, c, t);
    }
  }

  /** No match ending anywhere in Ceil(|b|, |a|) + 1 copies means no count works. */
  lemma NeverIfNoEnd(a: string, b: string, count: nat)
    requires |a| > 0 && count == Ceil(|b|, |a|) + 1
    requires NoneEndsBy(Repeat(a, count), b, |a| * count)
    ensures IsAnswer(a, b, -1)
  {
    forall t: nat ensures !FoundIn(a, b, t) {
      if FoundIn(a, b, t) {
        FoundCeilPlusOne(a, b, t);
        FoundToEnd(a, b, count, count);
      }
    }
  }

  /** The copy holding position e - 1: t = (e - 1) / n + 1 copies reach e and t - 1 do not. */
  lemma CopiesReaching(e: int, n: int)
    requires 0 < e && n > 0
    ensures n * ((e - 1) / n) < e <= n * ((e - 1) / n + 1)
  {
    DivMod(e - 1, n, (e - 1) / n, (e - 1) % n);
  }

  /** The first match ending at e in the repeated text gives the answer (e - 1) / |a| + 1. */
  lemma FirstEnd(a: string, b: string, count: nat, e: int)
    requires |a| > 0 && 0 < e <= |a| * count
    requires MatchEnd(Repeat(a, count), b, e, |b|) && NoneEndsBy(Repeat(a, count), b, e - 1)
    ensures IsAnswer(a, b, (e - 1) / |a| + 1)
  {
    var n := |a|;
    var t := (e - 1) / n + 1;
    CopiesReaching(e, n);
    EndToFound(a, b, count, e, t);
    forall u: nat | u < t ensures !FoundIn(a, b, u) {
      if FoundIn(a, b, u) {
        FewerCopies(a, b, count, e, u);
      }
    }
  }

  /** No fewer copies than reach e can hold b when no match ends before e. */
  lemma FewerCopies(a: string, b: string, count: nat, e: int, u: nat)
    requires |a| > 0 && 0 < e <= |a| * count && u < (e - 1) / |a| + 1
    requires NoneEndsBy(Repeat(a, count), b, e - 1)
    ensures !FoundIn(a, b, u)
  {
    var n := |a|;
    CopiesReaching(e, n);
    MulLe(n, u, (e - 1) / n);
    if u >= count {
      MulLe(n, count, u);
    }
    if FoundIn(a, b, u) {
      FoundToEnd(a, b, count, u);
    }
  }

  /** "cdabcdab" needs three copies of "abcd": two are only as long as it and differ from it. */
  lemma SampleOne()
    ensures IsAnswer("abcd", "cdabcdab", 3)
  {
    var a, b := "abcd", "cdabcdab";
    assert Repeat(a, 1) == a;
    assert Repeat(a, 2) == a + a;
    assert Repeat(a, 3) == a + a + a;
    assert Repeat(a, 3)[2..10] == b;
    assert OccursAt(Repeat(a, 3), b, 2);
    assert Repeat(a, 2)[0..8][0] != b[0];
    forall t: nat | t < 3 ensures !FoundIn(a, b, t) {
      if t < 2 {
        TooShort(a, b, t);
      }
    }
  }

  /** "aa" needs two copies of "a". */
  lemma SampleTwo()
    ensures IsAnswer("a", "aa", 2)
  {
    assert Repeat("a", 2) == "aa";
    assert OccursAt(Repeat("a", 2), "aa", 0);
    forall t: nat | t < 2 ensures !FoundIn("a", "aa", t) {
      TooShort("a", "aa", t);
    }
  }

  /** "wxyz" shares no character with "abc", so no number of copies holds it. */
  lemma SampleThree()
    ensures IsAnswer("abc", "wxyz", -1)
  {
    assert "wxyz"[0] == 'w';
    forall t: nat ensures !FoundIn("abc", "wxyz", t) {
      MissingChar("abc", "wxyz", 'w', t);
    }
  }
}

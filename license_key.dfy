// License Key Formatting: drop the dashes of a key, upper-case it, and
// regroup it with dashes into groups of k characters counted from the end,
// so that only the first group may be shorter. Five variants: a backward
// scan with a counter, slices after a short first group, a character list
// followed by the backward scan, slices after a first group of n % k or k,
// and a forward scan that places each dash by its position.

module LicenseKey {
  import DetectCapital
  import MaskingPii

  /** No character of s is a dash. */
  predicate NoDash(s: string) {
    forall i :: 0 <= i < |s| ==> s[i] != '-'
  }

  /** s.replace('-', ''): the characters of s other than dashes, in order. */
  function Strip(s: string): (r: string)
    ensures |r| <= |s|
  {
    if s == [] then []
    else (if s[0] == '-' then [] else [s[0]]) + Strip(s[1..])
  }

  /** Stripping leaves no dash. */
  lemma {:induction false} StripLeavesNoDash(s: string)
    ensures NoDash(Strip(s))
    decreases |s|
  {
    if s != [] {
      StripLeavesNoDash(s[1..]);
    }
  }

  /** Stripping distributes over concatenation. */
  lemma {:induction false} StripConcat(a: string, b: string)
    ensures Strip(a + b) == Strip(a) + Strip(b)
    decreases |a|
  {
    if a == [] {
      assert a + b == b;
    } else {
      assert (a + b)[0] == a[0];
      assert (a + b)[1..] == a[1..] + b;
      StripConcat(a[1..], b);
    }
  }

  /** A string without dashes is its own stripped form. */
  lemma {:induction false} StripNoDash(s: string)
    requires NoDash(s)
    ensures Strip(s) == s
    decreases |s|
  {
    if s != [] {
      StripNoDash(s[1..]);
    }
  }

  /** The key with its dashes removed and letters upper-cased. */
  function Key(s: string): string {
    DetectCapital.Upper(Strip(s))
  }

  /** Upper-casing creates no dash, so a key holds none. */
  lemma KeyNoDash(s: string)
    ensures NoDash(Key(s))
  {
    StripLeavesNoDash(s);
  }

  /** The length of the first group of an n-character key. */
  function Front(n: nat, k: nat): (f: nat)
    requires k >= 1
    ensures n > 0 ==> 1 <= f <= k
    ensures f <= n
  {
    if n <= k then n else Front(n - k, k)
  }

  /** The number of full groups after the first. */
  function Rest(n: nat, k: nat): nat
    requires k >= 1
  {
    if n <= k then 0 else Rest(n - k, k) + 1
  }

  /** An n-character key is its first group and Rest(n, k) groups of k. */
  lemma {:induction false} FrontRest(n: nat, k: nat)
    requires k >= 1
    ensures n == Front(n, k) + Rest(n, k) * k
    decreases n
  {
    if n > k {
      FrontRest(n - k, k);
      assert (Rest(n - k, k) + 1) * k == Rest(n - k, k) * k + k;
    }
  }

  /** Adding a character in front grows the first group, or opens a new one
      when it was full. */
  lemma {:induction false} FrontStep(n: nat, k: nat)
    requires k >= 1 && n >= 1
    ensures Front(n + 1, k) == if Front(n, k) == k then 1 else Front(n, k) + 1
    decreases n
  {
    if n > k {
      FrontStep(n - k, k);
    }
  }

  /** Python's n % k, on a natural n and a positive k, is the unique
      remainder. */
  lemma ModUnique(x: int, k: int, q: int, r: int)
    requires k > 0 && 0 <= r < k && x == q * k + r
    ensures x % k == r
  {
    var q0, r0 := x / k, x % k;
    assert (q - q0) * k == r0 - r;
    if q - q0 >= 1 {
      assert false;
    } else if q - q0 <= -1 {
      assert false;
    }
  }

  /** The first group has n % k characters, or k when k divides n. */
  lemma FrontMod(n: nat, k: nat)
    requires k >= 1 && n >= 1
    ensures Front(n, k) == if n % k == 0 then k else n % k
  {
    FrontRest(n, k);
    var f, c := Front(n, k), Rest(n, k);
    if f == k {
      assert n == (c + 1) * k + 0;
      ModUnique(n, k, c + 1, 0);
    } else {
      ModUnique(n, k, c, f);
    }
  }

  /** The reference: the last k characters form the last group, and the rest
      is formatted the same way. */
  function Format(key: string, k: nat): string
    requires k >= 1
    decreases |key|
  {
    if |key| <= k then key else Format(key[..|key| - k], k) + "-" + key[|key| - k..]
  }

  /** The groups the reference forms, from first to last. */
  function Groups(key: string, k: nat): (g: seq<string>)
    requires k >= 1
    ensures |g| > 0
    decreases |key|
  {
    if |key| <= k then [key] else Groups(key[..|key| - k], k) + [key[|key| - k..]]
  }

  /** Joining with one more piece at the end puts a separator before it. */
  lemma {:induction false} JoinSnoc(parts: seq<string>, x: string, sep: char)
    requires |parts| > 0
    ensures MaskingPii.Join(parts + [x], sep) == MaskingPii.Join(parts, sep) + [sep] + x
    decreases |parts|
  {
    if |parts| > 1 {
      assert (parts + [x])[1..] == parts[1..] + [x];
      JoinSnoc(parts[1..], x, sep);
    }
  }

  /** The reference is its groups joined by dashes. */
  lemma {:induction false} FormatJoinsGroups(key: string, k: nat)
    requires k >= 1
    ensures Format(key, k) == MaskingPii.Join(Groups(key, k), '-')
    decreases |key|
  {
    if |key| > k {
      FormatJoinsGroups(key[..|key| - k], k);
      JoinSnoc(Groups(key[..|key| - k], k), key[|key| - k..], '-');
    }
  }

  /** Every group but the first has exactly k characters; the first has
      Front(n, k), between 1 and k for a non-empty key; and the groups spell
      out the key in order. */
  lemma {:induction false} GroupSizes(key: string, k: nat)
    requires k >= 1
    ensures |Groups(key, k)[0]| == Front(|key|, k)
    ensures forall g :: 1 <= g < |Groups(key, k)| ==> |Groups(key, k)[g]| == k
    ensures Concat(Groups(key, k)) == key
    decreases |key|
  {
    if |key| > k {
      var key' := key[..|key| - k];
      GroupSizes(key', k);
      ConcatSnoc(Groups(key', k), key[|key| - k..]);
      assert key' + key[|key| - k..] == key;
    }
  }

  /** The groups written one after another. */
  function Concat(parts: seq<string>): string {
    if parts == [] then [] else parts[0] + Concat(parts[1..])
  }

  lemma {:induction false} ConcatSnoc(parts: seq<string>, x: string)
    ensures Concat(parts + [x]) == Concat(parts) + x
    decreases |parts|
  {
    if parts != [] {
      assert (parts + [x])[1..] == parts[1..] + [x];
      ConcatSnoc(parts[1..], x);
    }
  }

  /** Removing the dashes of the formatted key gives the key back. */
  lemma {:induction false} StripFormat(key: string, k: nat)
    requires k >= 1 && NoDash(key)
    ensures Strip(Format(key, k)) == key
    decreases |key|
  {
    if |key| <= k {
      StripNoDash(key);
    } else {
      var n := |key|;
      var key', tail := key[..n - k], key[n - k..];
      NoDashSlices(key, n - k);
      StripFormat(key', k);
      StripNoDash(tail);
      StripPiece(Format(key', k), tail, tail);
      assert key' + tail == key;
    }
  }

  /** Both sides of a cut of a dash-free string are dash-free. */
  lemma NoDashSlices(s: string, i: nat)
    requires NoDash(s) && i <= |s|
    ensures NoDash(s[..i]) && NoDash(s[i..])
  {
  }

  /** A non-empty formatted key neither starts nor ends with a dash. */
  lemma {:induction false} FormatEnds(key: string, k: nat)
    requires k >= 1 && key != []
    ensures |Format(key, k)| > 0
    ensures Format(key, k)[0] == key[0]
    ensures Format(key, k)[|Format(key, k)| - 1] == key[|key| - 1]
    decreases |key|
  {
    if |key| > k {
      FormatEnds(key[..|key| - k], k);
    }
  }

  /** The formatted key has one dash between each pair of groups. */
  lemma {:induction false} FormatLength(key: string, k: nat)
    requires k >= 1
    ensures |Format(key, k)| == |key| + Rest(|key|, k)
    decreases |key|
  {
    if |key| > k {
      FormatLength(key[..|key| - k], k);
    }
  }

  /** Putting a character in front of a formatted suffix: it joins the first
      group, or opens a new group when the first one is full. */
  lemma {:induction false} FormatCons(c: char, t: string, k: nat)
    requires k >= 1 && t != []
    ensures Format([c] + t, k) ==
      if Front(|t|, k) == k then [c, '-'] + Format(t, k) else [c] + Format(t, k)
    decreases |t|
  {
    var ct := [c] + t;
    if |t| < k {
      assert Format(ct, k) == ct;
    } else if |t| == k {
      assert ct[..|ct| - k] == [c] && ct[|ct| - k..] == t;
      assert Format(ct, k) == Format([c], k) + "-" + t;
    } else {
      var t' := t[..|t| - k];
      assert ct[..|ct| - k] == [c] + t';
      assert ct[|ct| - k..] == t[|t| - k..];
      assert Format(ct, k) == Format([c] + t', k) + "-" + t[|t| - k..];
      assert Format(t, k) == Format(t', k) + "-" + t[|t| - k..];
      assert Front(|t|, k) == Front(|t'|, k);
      FormatCons(c, t', k);
    }
  }

  /** s[::-1] */
  function Reverse(s: string): (r: string)
    ensures |r| == |s|
  {
    if s == [] then [] else Reverse(s[1..]) + [s[0]]
  }

  lemma {:induction false} ReverseSnoc(s: string, x: char)
    ensures Reverse(s + [x]) == [x] + Reverse(s)
    decreases |s|
  {
    if s != [] {
      assert (s + [x])[1..] == s[1..] + [x];
      ReverseSnoc(s[1..], x);
    }
  }

  /** What the backward scan knows once it has written the characters from
      position i on: reversed, they are the formatted suffix, and count is
      the size of its first group. */
  ghost predicate BackScanned(key: string, k: nat, i: nat, result: string, count: nat)
    requires k >= 1
  {
    i <= |key| && Reverse(result) == Format(key[i..], k) && count == Front(|key| - i, k)
  }

  /** One step of the backward scan: character i goes in front, after a dash
      when the first group was full. */
  lemma BackStep(key: string, k: nat, i: nat, result: string, count: nat, result': string, count': nat)
    requires k >= 1 && i < |key|
    requires BackScanned(key, k, i + 1, result, count)
    requires result' == (if count == k then result + ['-'] else result) + [key[i]]
    requires count' == (if count == k then 0 else count) + 1
    ensures BackScanned(key, k, i, result', count')
  {
    assert key[i..] == [key[i]] + key[i + 1..];
    if i + 1 == |key| {
      BackStepLast(key, k, i, result, count, result', count');
    } else {
      BackStepInner(key[i], key[i + 1..], k, result, count, result');
      FrontStep(|key| - (i + 1), k);
    }
  }

  /** The last character starts the first group. */
  lemma BackStepLast(key: string, k: nat, i: nat, result: string, count: nat, result': string, count': nat)
    requires k >= 1 && i + 1 == |key|
    requires BackScanned(key, k, i + 1, result, count)
    requires result' == (if count == k then result + ['-'] else result) + [key[i]]
    requires count' == (if count == k then 0 else count) + 1
    ensures BackScanned(key, k, i, result', count')
  {
    assert Reverse(result) == [];
    assert result' == [key[i]];
    assert key[i..] == [key[i]];
  }

  /** Before a non-empty formatted suffix t, character c goes in front of the
      reversed output, after a dash when the first group of t is full. */
  lemma BackStepInner(c: char, t: string, k: nat, result: string, count: nat, result': string)
    requires k >= 1 && t != []
    requires Reverse(result) == Format(t, k) && count == Front(|t|, k)
    requires result' == (if count == k then result + ['-'] else result) + [c]
    ensures Reverse(result') == Format([c] + t, k)
  {
    FormatCons(c, t, k);
    if count == k {
      ReverseSnoc(result, '-');
      ReverseSnoc(result + ['-'], c);
    } else {
      ReverseSnoc(result, c);
    }
  }

  /** The backward scan of Solution and Solution3: walk the key from its end,
      put a dash whenever k characters have been written since the last one,
      and reverse what was written. */
  method GroupBackward(key: string, k: nat) returns (r: string)
    requires k >= 1
    ensures r == Format(key, k)
  {
    var result: string := [];
    var count := 0;
    var i := |key|;
    while i > 0
      invariant 0 <= i <= |key|
      invariant BackScanned(key, k, i, result, count)
    {
      i := i - 1;
      var result', count' := result, count;
      if count' == k {
        result' := result' + ['-'];
        count' := 0;
      }
      result' := result' + [key[i]];
      count' := count' + 1;
      BackStep(key, k, i, result, count, result', count');
      result, count := result', count';
    }
    assert key[0..] == key;
    r := Reverse(result);
  }

  /** Solution: strip and upper-case with the library calls, then the
      backward scan. */
  method BackwardScan(s: string, k: nat) returns (r: string)
    requires k >= 1
    ensures r == Format(Key(s), k)
  {
    var key := Key(s);
    if key == [] {
      return "";
    }
    r := GroupBackward(key, k);
  }

  /** Solution3's first loop: keep each non-dash character, upper-cased. */
  method CollectKey(s: string) returns (chars: string)
    ensures chars == Key(s)
  {
    chars := [];
    for i := 0 to |s|
      invariant chars == Key(s[..i])
    {
      assert s[..i + 1] == s[..i] + [s[i]];
      StripConcat(s[..i], [s[i]]);
      assert Strip([s[i]]) == if s[i] == '-' then [] else [s[i]] by {
        assert [s[i]][..0] == [];
      }
      if s[i] != '-' {
        chars := chars + [DetectCapital.UpperChar(s[i])];
      }
    }
    assert s[..|s|] == s;
  }

  /** Solution3: collect the characters by hand, then the backward scan. */
  method CharacterList(s: string, k: nat) returns (r: string)
    requires k >= 1
    ensures r == Format(Key(s), k)
  {
    var chars := CollectKey(s);
    if chars == [] {
      return "";
    }
    r := GroupBackward(chars, k);
  }

  /** Python's slices s[from:from + k], from + k, from + 2k, ... to the end. */
  function Chunks(key: string, from: nat, k: nat): seq<string>
    requires k >= 1
    decreases |key| - from
  {
    if from >= |key| then []
    else [key[from..if from + k <= |key| then from + k else |key|]] + Chunks(key, from + k, k)
  }

  /** Chunks of a key that ends on a chunk boundary gain its last chunk. */
  lemma {:induction false} ChunksSnoc(key: string, from: nat, k: nat, c: nat)
    requires k >= 1 && from + c * k + k == |key|
    ensures Chunks(key, from, k) == Chunks(key[..|key| - k], from, k) + [key[|key| - k..]]
    decreases c
  {
    if c == 0 {
      assert from == |key| - k;
      assert Chunks(key, from + k, k) == [];
      assert Chunks(key[..|key| - k], from, k) == [];
      assert key[from..from + k] == key[|key| - k..];
    } else {
      assert c * k == (c - 1) * k + k;
      ChunksSnoc(key, from + k, k, c - 1);
      assert key[..|key| - k][from..from + k] == key[from..from + k];
    }
  }

  /** The groups are the first group followed by the chunks of k after it. */
  lemma {:induction false} GroupsAsChunks(key: string, k: nat)
    requires k >= 1 && key != []
    ensures Groups(key, k) == [key[..Front(|key|, k)]] + Chunks(key, Front(|key|, k), k)
    decreases |key|
  {
    var n, f := |key|, Front(|key|, k);
    if n <= k {
      assert key[..f] == key;
    } else {
      var key' := key[..n - k];
      GroupsAsChunks(key', k);
      FrontRest(n - k, k);
      ChunksSnoc(key, f, k, Rest(n - k, k));
      assert key'[..f] == key[..f];
    }
  }

  /** The loop `for i in range(start, len(s), k): groups.append(s[i:i+k])`. */
  method SliceFrom(key: string, start: nat, k: nat) returns (groups: seq<string>)
    requires k >= 1
    ensures groups == Chunks(key, start, k)
  {
    groups := [];
    var i := start;
    while i < |key|
      invariant start <= i
      invariant groups + Chunks(key, i, k) == Chunks(key, start, k)
      decreases |key| - i
    {
      groups := groups + [key[i..if i + k <= |key| then i + k else |key|]];
      i := i + k;
    }
  }

  /** Solution2: a first group of n % k characters when that is not zero,
      then slices of k, joined by dashes. */
  method Slices(s: string, k: nat) returns (r: string)
    requires k >= 1
    ensures r == Format(Key(s), k)
  {
    var key := Key(s);
    if key == [] {
      return "";
    }
    var firstGroupLen := |key| % k;
    FrontMod(|key|, k);
    var rest := SliceFrom(key, firstGroupLen, k);
    var result := if firstGroupLen > 0 then [key[..firstGroupLen]] + rest else rest;
    GroupsAsChunks(key, k);
    assert result == Groups(key, k);
    r := MaskingPii.Join(result, '-');
    FormatJoinsGroups(key, k);
  }

  /** Solution4: a first group of n % k characters, or k when that is zero,
      then slices of k, joined by dashes. */
  method FirstThenSlices(s: string, k: nat) returns (r: string)
    requires k >= 1
    ensures r == Format(Key(s), k)
  {
    var key := Key(s);
    if key == [] {
      return "";
    }
    var first := if |key| % k != 0 then |key| % k else k;
    FrontMod(|key|, k);
    var rest := SliceFrom(key, first, k);
    var groups := [key[..first]] + rest;
    GroupsAsChunks(key, k);
    r := MaskingPii.Join(groups, '-');
    FormatJoinsGroups(key, k);
  }

  /** What Solution5 has written after its first i characters: a dash goes
      before character i when i > 0 and (i - first) % k == 0. */
  function Dashed(key: string, first: nat, k: nat, i: nat): string
    requires k >= 1 && i <= |key|
  {
    if i == 0 then []
    else
      var dash := if i - 1 > 0 && (i - 1 - first) % k == 0 then "-" else "";
      Dashed(key, first, k, i - 1) + dash + [key[i - 1]]
  }

  /** Before the end of the first group no dash is written. */
  lemma {:induction false} DashedFirst(key: string, first: nat, k: nat, i: nat)
    requires 1 <= first <= k && i <= first <= |key|
    ensures Dashed(key, first, k, i) == key[..i]
    decreases i
  {
    if i > 0 {
      DashedFirst(key, first, k, i - 1);
      if i - 1 > 0 {
        ModUnique(i - 1 - first, k, -1, k + i - 1 - first);
      }
    }
  }

  /** Past a multiple of k, the remainder grows with the offset. */
  lemma ModShift(x: int, k: int, j: int)
    requires k > 0 && x % k == 0 && 0 <= j < k
    ensures (x + j) % k == j
  {
    ModUnique(x + j, k, x / k, j);
  }

  /** From a group boundary m, the next j <= k characters follow one dash. */
  lemma {:induction false} DashedGroup(key: string, first: nat, k: nat, m: nat, j: nat)
    requires 1 <= first <= k && first <= m && (m - first) % k == 0
    requires 1 <= j <= k && m + j <= |key|
    ensures Dashed(key, first, k, m + j) == Dashed(key, first, k, m) + "-" + key[m..m + j]
    decreases j
  {
    if j > 1 {
      DashedGroup(key, first, k, m, j - 1);
      ModShift(m - first, k, j - 1);
      assert m + j - 1 - first == (m - first) + (j - 1);
      assert key[m..m + j - 1] + [key[m + j - 1]] == key[m..m + j];
    }
  }

  /** A positive multiple of k is at least k, and the one below it is a
      multiple too. */
  lemma ModStepBack(x: int, k: int)
    requires k > 0 && x > 0 && x % k == 0
    ensures x >= k && (x - k) % k == 0
  {
    var q := x / k;
    assert x == q * k;
    if q <= 0 {
      assert false;
    }
    assert x - k == (q - 1) * k;
    ModUnique(x - k, k, q - 1, 0);
  }

  /** At every group boundary m (a multiple of k past the first group) the
      forward scan has written the reference formatting of the characters so
      far. */
  lemma {:induction false} DashedFormat(key: string, f: nat, k: nat, m: nat)
    requires 1 <= f <= k && f <= m <= |key| && (m - f) % k == 0
    ensures Dashed(key, f, k, m) == Format(key[..m], k)
    decreases m
  {
    if m == f {
      DashedFirst(key, f, k, f);
    } else {
      ModStepBack(m - f, k);
      var m' := m - k;
      DashedFormat(key, f, k, m');
      DashedGroup(key, f, k, m', k);
      FormatPrefix(key, k, m);
    }
  }

  /** Unfolding the reference once on a prefix longer than k. */
  lemma FormatPrefix(key: string, k: nat, m: nat)
    requires k >= 1 && k < m <= |key|
    ensures Format(key[..m], k) == Format(key[..m - k], k) + "-" + key[m - k..m]
  {
    var pre := key[..m];
    assert pre[..m - k] == key[..m - k];
    assert pre[m - k..] == key[m - k..m];
  }

  /** Solution5: one pass that writes a dash wherever a group starts. */
  method Enumerate(s: string, k: nat) returns (r: string)
    requires k >= 1
    ensures r == Format(Key(s), k)
  {
    var key := Key(s);
    if key == [] {
      return "";
    }
    var n := |key|;
    var firstGroupLen := n % k;
    if firstGroupLen == 0 {
      firstGroupLen := k;
    }
    FrontMod(n, k);
    var result: string := [];
    for i := 0 to n
      invariant result == Dashed(key, firstGroupLen, k, i)
    {
      if i > 0 && (i - firstGroupLen) % k == 0 {
        result := result + ['-'];
      }
      result := result + [key[i]];
    }
    FrontRest(n, k);
    ModUnique(n - firstGroupLen, k, Rest(n, k), 0);
    DashedFormat(key, firstGroupLen, k, n);
    assert key[..n] == key;
    r := result;
  }

  /** A lone dash strips to nothing. */
  lemma StripDash()
    ensures Strip("-") == []
  {
    assert "-"[..0] == [];
  }

  /** Stripping a dash-free piece followed by a dash and a suffix. */
  lemma StripPiece(piece: string, rest: string, r: string)
    requires Strip(rest) == r
    ensures Strip(piece + "-" + rest) == Strip(piece) + r
  {
    StripDash();
    StripConcat(piece + "-", rest);
    StripConcat(piece, "-");
  }

  /** The first sample's key, 5F3Z2E9W, splits into two groups of four. */
  lemma SampleOne()
    ensures Format("5F3Z2E9W", 4) == "5F3Z-2E9W"
  {
    assert "5F3Z2E9W"[..4] == "5F3Z" && "5F3Z2E9W"[4..] == "2E9W";
  }

  /** The second sample's key, 25G3J, groups by two from the end. */
  lemma SampleTwo()
    ensures Format("25G3J", 2) == "2-5G-3J"
  {
    assert "25G3J"[..3] == "25G" && "25G3J"[3..] == "3J";
    assert "25G"[..1] == "2" && "25G"[1..] == "5G";
  }

  /** Upper-casing the letters of the second sample's stripped key. */
  lemma SampleTwoUpper()
    ensures DetectCapital.Upper("25g3J") == "25G3J"
  {
  }

  /** A key of dashes only formats to the empty string. */
  lemma OnlyDashes()
    ensures Format(Key("---"), 3) == ""
  {
    StripDash();
    StripConcat("-", "-");
    StripConcat("--", "-");
    assert "-" + "-" == "--" && "--" + "-" == "---";
  }
}

// Stream of Characters: a checker built from a list of words answers, for
// each letter appended to a stream, whether some word is a suffix of the
// stream so far. Variants: a trie of the reversed words walked from the
// newest letter (StreamChecker), a set of words tested against every short
// suffix (StreamChecker2), a forward trie with a list of partial matches
// (StreamChecker3), and a forward trie walked from the newest letter
// (StreamChecker4). A trie of nested dicts is described by its paths: the
// strings leading from the root to a dict (its nodes) and the strings whose
// dict carries the end-of-word mark ('#' or 'is_word').

module StreamOfCharacters {
  import LinkedList

  type Str = seq<char>

  function Min(a: int, b: int): int {
    if a <= b then a else b
  }

  predicate IsPrefix(p: Str, w: Str) {
    |p| <= |w| && w[..|p|] == p
  }

  predicate IsSuffix(w: Str, h: Str) {
    |w| <= |h| && h[|h| - |w|..] == w
  }

  /** Some word ends the stream h (the empty word ends every stream). */
  ghost predicate SuffixIn(words: set<Str>, h: Str) {
    exists w :: w in words && IsSuffix(w, h)
  }

  /** Some non-empty word ends the stream h. */
  ghost predicate NonEmptySuffixIn(words: set<Str>, h: Str) {
    exists w :: w in words && w != [] && IsSuffix(w, h)
  }

  /** The words, each reversed. */
  function RevAll(words: set<Str>): set<Str> {
    set w | w in words :: LinkedList.Rev(w)
  }

  /** Reversing each word twice gives the words back. */
  lemma RevAllRevAll(words: set<Str>)
    ensures RevAll(RevAll(words)) == words
  {
    forall w | w in words ensures w in RevAll(RevAll(words)) {
      LinkedList.RevRev(w);
      assert LinkedList.Rev(w) in RevAll(words);
    }
    forall p | p in RevAll(RevAll(words)) ensures p in words {
      var v :| v in RevAll(words) && LinkedList.Rev(v) == p;
      var w :| w in words && LinkedList.Rev(w) == v;
      LinkedList.RevRev(w);
    }
  }

  /** The words of a list, as a set. */
  function Words(ws: seq<Str>): set<Str> {
    set w | w in ws
  }

  /** One more word in the list adds it to the set. */
  lemma WordsSnoc(ws: seq<Str>, i: int)
    requires 0 <= i < |ws|
    ensures Words(ws[..i + 1]) == Words(ws[..i]) + {ws[i]}
  {
    assert ws[..i + 1] == ws[..i] + [ws[i]];
  }

  /** The longest word's length: max(len(word) for word in words), 0 for no words. */
  function MaxLen(ws: seq<Str>): (m: int)
    ensures m >= 0
    ensures forall i :: 0 <= i < |ws| ==> |ws[i]| <= m
    ensures ws != [] ==> exists i :: 0 <= i < |ws| && |ws[i]| == m
  {
    if ws == [] then 0
    else
      var m := MaxLen(ws[..|ws| - 1]);
      if |ws[|ws| - 1]| > m then |ws[|ws| - 1]| else m
  }

  // ---------------------------------------------------------------------
  // Tries

  /** A trie of nested dicts, as its node paths and its marked paths. */
  datatype Trie = Trie(nodes: set<Str>, marked: set<Str>)

  /** t is the trie of keys: its nodes are the root and the prefixes of keys, and the keys are marked. */
  ghost predicate Holds(t: Trie, keys: set<Str>) {
    && t.marked == keys
    && (forall p :: p in t.nodes <==> p == [] || exists w :: w in keys && IsPrefix(p, w))
  }

  /** Every key is a node. */
  lemma MarkedNodes(t: Trie, keys: set<Str>)
    requires Holds(t, keys)
    ensures forall w :: w in t.marked ==> w in t.nodes
  {
    forall w | w in t.marked ensures w in t.nodes {
      assert IsPrefix(w, w);
    }
  }

  /**
   * The insertion loop for one word: walk down from the root, adding a
   * child for each letter where there is none, then mark the last node.
   */
  method InsertWord(t: Trie, w: Str, ghost keys: set<Str>) returns (t': Trie)
    requires Holds(t, keys)
    ensures Holds(t', keys + {w})
  {
    var nodes := t.nodes;
    var node: Str := [];
    var i := 0;
    while i < |w|
      invariant 0 <= i <= |w| && node == w[..i]
      invariant forall p :: p in nodes <==> p in t.nodes || (1 <= |p| <= i && p == w[..|p|])
    {
      if node + [w[i]] !in nodes {
        nodes := nodes + {node + [w[i]]};
      }
      assert node + [w[i]] == w[..i + 1];
      node := node + [w[i]];
      i := i + 1;
    }
    t' := Trie(nodes, t.marked + {w});
    forall p ensures p in t'.nodes <==> p == [] || exists v :: v in keys + {w} && IsPrefix(p, v) {
      if p in t'.nodes && p !in t.nodes {
        assert IsPrefix(p, w);
      }
      if IsPrefix(p, w) && p != [] {
        assert p == w[..|p|];
      }
    }
  }

  /** The constructor loop of StreamChecker3 and StreamChecker4: insert each word. */
  method BuildTrie(ws: seq<Str>) returns (t: Trie)
    ensures Holds(t, Words(ws))
  {
    t := Trie({[]}, {});
    var i := 0;
    while i < |ws|
      invariant 0 <= i <= |ws|
      invariant Holds(t, Words(ws[..i]))
    {
      t := InsertWord(t, ws[i], Words(ws[..i]));
      assert (Words(ws[..i + 1])) == (Words(ws[..i])) + {ws[i]} by {
        assert ws[..i + 1] == ws[..i] + [ws[i]];
      }
      i := i + 1;
    }
    assert ws[..|ws|] == ws;
  }

  /** StreamChecker's constructor loop: track the longest word and insert each word reversed. */
  method BuildReversed(ws: seq<Str>) returns (t: Trie, maxLen: int)
    ensures Holds(t, RevAll(Words(ws)))
    ensures maxLen == MaxLen(ws)
  {
    t := Trie({[]}, {});
    maxLen := 0;
    var i := 0;
    while i < |ws|
      invariant 0 <= i <= |ws|
      invariant Holds(t, RevAll(Words(ws[..i])))
      invariant maxLen == MaxLen(ws[..i])
    {
      assert ws[..i + 1][..i] == ws[..i];
      WordsSnoc(ws, i);
      maxLen := if maxLen < |ws[i]| then |ws[i]| else maxLen;
      t := InsertWord(t, LinkedList.Rev(ws[i]), RevAll(Words(ws[..i])));
      assert RevAll(Words(ws[..i + 1])) == RevAll(Words(ws[..i])) + {LinkedList.Rev(ws[i])};
      i := i + 1;
    }
    assert ws[..|ws|] == ws;
  }

  /** The newest maxLen letters of the stream h, oldest first. */
  function Window(h: Str, maxLen: int): (s: Str)
    requires 0 <= maxLen
    ensures |s| == Min(maxLen, |h|) && IsSuffix(s, h)
  {
    h[|h| - Min(maxLen, |h|)..]
  }

  /** The newest maxLen letters of the stream h, newest first. */
  function NewestFirst(h: Str, maxLen: int): (s: Str)
    requires 0 <= maxLen
    ensures |s| == Min(maxLen, |h|)
    ensures forall i :: 0 <= i < |s| ==> s[i] == h[|h| - 1 - i]
  {
    LinkedList.Rev(h)[..Min(maxLen, |h|)]
  }

  /** Some prefix of s is a key. */
  ghost predicate KeyPrefix(s: Str, keys: set<Str>) {
    exists j :: 0 <= j <= |s| && s[..j] in keys
  }

  /** The reverse of some non-empty suffix of s is a key. */
  ghost predicate ReversedSuffixKey(s: Str, keys: set<Str>) {
    exists i :: 0 <= i < |s| && LinkedList.Rev(s[i..]) in keys
  }

  /** A string with a prefix that is not a node is not a key. */
  lemma NotNodeNotKey(t: Trie, keys: set<Str>, p: Str, w: Str)
    requires Holds(t, keys) && p !in t.nodes && IsPrefix(p, w)
    ensures w !in keys
  {
  }

  /**
   * StreamChecker's walk: from the root, follow s letter by letter, stopping
   * with true at a marked node and with false where no child matches.
   * It answers whether some prefix of s is a key.
   */
  method WalkForward(t: Trie, ghost keys: set<Str>, s: Str) returns (found: bool)
    requires Holds(t, keys)
    ensures found <==> KeyPrefix(s, keys)
  {
    var node: Str := [];
    var i := 0;
    while i < |s|
      invariant 0 <= i <= |s| && node == s[..i] && node in t.nodes
      invariant forall j :: 0 <= j < i ==> s[..j] !in keys
    {
      if node in t.marked {
        return true;
      }
      if node + [s[i]] !in t.nodes {
        forall j | i < j <= |s| ensures s[..j] !in keys {
          assert s[..j][..i + 1] == s[..i + 1] == node + [s[i]];
          NotNodeNotKey(t, keys, node + [s[i]], s[..j]);
        }
        return false;
      }
      assert node + [s[i]] == s[..i + 1];
      node := node + [s[i]];
      i := i + 1;
    }
    assert s[..|s|] == s;
    found := node in t.marked;
  }

  /** The reverse of a suffix, one letter longer: the new letter goes last. */
  lemma RevStep(s: Str, i: int)
    requires 0 <= i < |s|
    ensures LinkedList.Rev(s[i..]) == LinkedList.Rev(s[i + 1..]) + [s[i]]
  {
    assert s[i..][1..] == s[i + 1..];
  }

  /** The reverse of a shorter suffix begins the reverse of a longer one. */
  lemma RevSuffixPrefix(s: Str, j: int, i: int)
    requires 0 <= j <= i < |s|
    ensures IsPrefix(LinkedList.Rev(s[i..]), LinkedList.Rev(s[j..]))
  {
    assert s[j..] == s[j..i] + s[i..];
    LinkedList.RevAppend(s[j..i], s[i..]);
  }

  /**
   * StreamChecker4's walk: from the root, follow the letters of s from the
   * last one back, stopping with true on reaching a marked node and with
   * false where no child matches. It answers whether the reverse of some
   * non-empty suffix of s is a key.
   */
  method WalkBackward(t: Trie, ghost keys: set<Str>, s: Str) returns (found: bool)
    requires Holds(t, keys)
    ensures found <==> ReversedSuffixKey(s, keys)
  {
    var node: Str := [];
    var i := |s| - 1;
    while i >= 0
      invariant -1 <= i < |s| && node == LinkedList.Rev(s[i + 1..]) && node in t.nodes
      invariant forall j :: i < j < |s| ==> LinkedList.Rev(s[j..]) !in keys
    {
      var ch := s[i];
      RevStep(s, i);
      if node + [ch] in t.nodes {
        node := node + [ch];
        if node in t.marked {
          return true;
        }
      } else {
        forall j | 0 <= j <= i ensures LinkedList.Rev(s[j..]) !in keys {
          RevSuffixPrefix(s, j, i);
        }
        return false;
      }
      i := i - 1;
    }
    return false;
  }

  // ---------------------------------------------------------------------
  // From walks to suffixes

  /** A string is a reversed word exactly when its reverse is a word. */
  lemma RevMember(keys: set<Str>, y: Str)
    ensures y in RevAll(keys) <==> LinkedList.Rev(y) in keys
  {
    LinkedList.RevRev(y);
    if y in RevAll(keys) {
      var w :| w in keys && LinkedList.Rev(w) == y;
      LinkedList.RevRev(w);
    }
    if LinkedList.Rev(y) in keys {
      assert LinkedList.Rev(LinkedList.Rev(y)) in RevAll(keys);
    }
  }

  /** The first j of the newest-first letters are a reversed word exactly when the last j letters are a word. */
  lemma ForwardOne(words: set<Str>, h: Str, m: int, j: int)
    requires 0 <= j <= m <= |h|
    ensures (LinkedList.Rev(h)[..m])[..j] in RevAll(words) <==> h[|h| - j..] in words
  {
    var r := LinkedList.Rev(h);
    var u := h[|h| - j..];
    assert r[..m][..j] == r[..j];
    LinkedList.RevPrefix(h, j);
    RevMember(words, LinkedList.Rev(u));
    LinkedList.RevRev(u);
  }

  /**
   * The reversed trie's walk over the newest letters first answers the
   * question: with every word at most maxLen long, some prefix of the
   * retained letters is a reversed word exactly when some word ends the stream.
   */
  lemma ForwardMeansSuffix(words: set<Str>, h: Str, maxLen: int, s: Str)
    requires 0 <= maxLen && forall w :: w in words ==> |w| <= maxLen
    requires s == NewestFirst(h, maxLen)
    ensures KeyPrefix(s, RevAll(words)) <==> SuffixIn(words, h)
  {
    var m := Min(maxLen, |h|);
    if KeyPrefix(s, RevAll(words)) {
      var j :| 0 <= j <= |s| && s[..j] in RevAll(words);
      ForwardOne(words, h, m, j);
      assert IsSuffix(h[|h| - j..], h);
    }
    if SuffixIn(words, h) {
      var w :| w in words && IsSuffix(w, h);
      ForwardOne(words, h, m, |w|);
      assert s[..|w|] in RevAll(words);
    }
  }

  /** A suffix of a suffix of h is a suffix of h. */
  lemma SuffixOfSuffix(s: Str, h: Str, i: int)
    requires IsSuffix(s, h) && 0 <= i <= |s|
    ensures IsSuffix(s[i..], h)
  {
    assert h[|h| - (|s| - i)..] == h[|h| - |s|..][i..];
  }

  /** Of two suffixes of h, the shorter ends the longer. */
  lemma SuffixWithin(v: Str, s: Str, h: Str)
    requires IsSuffix(v, h) && IsSuffix(s, h) && |v| <= |s|
    ensures s[|s| - |v|..] == v
  {
    assert s[|s| - |v|..] == h[|h| - |s|..][|s| - |v|..] == h[|h| - |v|..];
  }

  /** A non-empty reversed key that ends the stream is the reverse of a key among the retained suffixes. */
  lemma BackwardFromSuffix(keys: set<Str>, h: Str, maxLen: int, s: Str)
    requires 0 <= maxLen && forall w :: w in keys ==> |w| <= maxLen
    requires s == Window(h, maxLen)
    requires NonEmptySuffixIn(RevAll(keys), h)
    ensures ReversedSuffixKey(s, keys)
  {
    var v :| v in RevAll(keys) && v != [] && IsSuffix(v, h);
    RevMember(keys, v);
    assert |v| == |LinkedList.Rev(v)| <= maxLen;
    SuffixWithin(v, s, h);
    var i := |s| - |v|;
    assert s[i..] == v;
    assert 0 <= i < |s| && LinkedList.Rev(s[i..]) in keys;
  }

  /**
   * The backward walk over the retained letters: the reverse of some
   * non-empty retained suffix is a key exactly when some non-empty reversed
   * key ends the stream.
   */
  lemma BackwardMeansSuffix(keys: set<Str>, h: Str, maxLen: int, s: Str)
    requires 0 <= maxLen && forall w :: w in keys ==> |w| <= maxLen
    requires s == Window(h, maxLen)
    ensures ReversedSuffixKey(s, keys) <==> NonEmptySuffixIn(RevAll(keys), h)
  {
    if ReversedSuffixKey(s, keys) {
      var i :| 0 <= i < |s| && LinkedList.Rev(s[i..]) in keys;
      RevMember(keys, s[i..]);
      SuffixOfSuffix(s, h, i);
      assert s[i..] in RevAll(keys) && s[i..] != [];
    }
    if NonEmptySuffixIn(RevAll(keys), h) {
      BackwardFromSuffix(keys, h, maxLen, s);
    }
  }

  // ---------------------------------------------------------------------
  // StreamChecker: reversed trie, newest letter first

  class StreamChecker {
    var trie: Trie
    var stream: Str
    var maxLen: int
    ghost var words: set<Str>
    ghost var history: Str

    /** The trie holds the reversed words; the deque holds the newest maxLen letters, newest first. */
    ghost predicate Valid()
      reads this
    {
      && Holds(trie, RevAll(words))
      && 0 <= maxLen && (forall w :: w in words ==> |w| <= maxLen)
      && stream == NewestFirst(history, maxLen)
    }

    constructor (ws: seq<Str>)
      ensures Valid() && words == Words(ws) && history == []
    {
      var t, m := BuildReversed(ws);
      trie, stream, maxLen := t, [], m;
      words, history := Words(ws), [];
    }

    /** query: appendleft, drop the oldest beyond maxLen, then walk; true exactly when some word ends the stream. */
    method Query(letter: char) returns (found: bool)
      requires Valid()
      modifies this
      ensures Valid() && words == old(words) && history == old(history) + [letter]
      ensures |stream| <= maxLen
      ensures found <==> SuffixIn(words, history)
    {
      var s := [letter] + stream;
      if |s| > maxLen {
        s := s[..|s| - 1];
      }
      NewestFirstSnoc(history, letter, stream, maxLen);
      found := WalkForward(trie, RevAll(words), s);
      ForwardMeansSuffix(words, history + [letter], maxLen, s);
      stream, history := s, history + [letter];
    }
  }

  // ---------------------------------------------------------------------
  // StreamChecker2: a set of words and every suffix up to maxLen

  class StreamChecker2 {
    var wordsSet: set<Str>
    var stream: Str
    var maxLen: int

    ghost predicate Valid()
      reads this
    {
      0 <= maxLen && forall w :: w in wordsSet ==> |w| <= maxLen
    }

    /** max() of no lengths raises ValueError, so words must not be empty. */
    constructor (ws: seq<Str>)
      requires |ws| >= 1
      ensures Valid() && wordsSet == Words(ws) && stream == []
    {
      wordsSet, stream, maxLen := Words(ws), [], MaxLen(ws);
    }

    /** query: append, then test the suffixes starting from max(0, len - maxLen); true exactly when a non-empty word ends the stream. */
    method Query(letter: char) returns (found: bool)
      requires Valid()
      modifies this
      ensures Valid() && wordsSet == old(wordsSet) && maxLen == old(maxLen)
      ensures stream == old(stream) + [letter]
      ensures found <==> NonEmptySuffixIn(wordsSet, stream)
    {
      stream := stream + [letter];
      var start := if 0 < |stream| - maxLen then |stream| - maxLen else 0;
      var i := start;
      while i < |stream|
        invariant start <= i <= |stream|
        invariant forall j :: start <= j < i ==> stream[j..] !in wordsSet
      {
        if stream[i..] in wordsSet {
          assert IsSuffix(stream[i..], stream);
          return true;
        }
        i := i + 1;
      }
      found := false;
    }
  }

  // ---------------------------------------------------------------------
  // StreamChecker3: forward trie and the list of partial matches

  /** q is a non-empty suffix of h and a trie node: a partial match still alive. */
  ghost predicate Alive(q: Str, h: Str, t: Trie) {
    exists i :: 0 <= i < |h| && h[i..] == q && q in t.nodes
  }

  /** q is one of the starts advanced by the letter c, and a trie node. */
  ghost predicate Advanced(starts: seq<Str>, c: char, q: Str, t: Trie) {
    exists m :: 0 <= m < |starts| && q == starts[m] + [c] && q in t.nodes
  }

  /** The list holds exactly the partial matches of the stream h. */
  ghost predicate LiveMatches(active: seq<Str>, h: Str, t: Trie) {
    forall p :: p in active <==> Alive(p, h, t)
  }

  class StreamChecker3 {
    var trie: Trie
    var activeNodes: seq<Str>
    ghost var words: set<Str>
    ghost var history: Str

    ghost predicate Valid()
      reads this
    {
      Holds(trie, words) && LiveMatches(activeNodes, history, trie)
    }

    constructor (ws: seq<Str>)
      ensures Valid() && words == Words(ws) && history == []
    {
      var t := BuildTrie(ws);
      trie, activeNodes := t, [];
      words, history := Words(ws), [];
    }

    /**
     * query: add the root as a new start, advance every partial match by the
     * letter, keep those that continue; true exactly when a non-empty word
     * ends the stream.
     */
    method Query(letter: char) returns (found: bool)
      requires Valid()
      modifies this
      ensures Valid() && words == old(words) && history == old(history) + [letter]
      ensures found <==> NonEmptySuffixIn(words, history)
    {
      MarkedNodes(trie, words);
      var starts := activeNodes + [[]];
      var next;
      next, found := Advance(trie, starts, letter);
      ghost var h := history;
      history := history + [letter];
      activeNodes := next;
      StepMatches(starts, h, letter, trie, words);
    }
  }

  /**
   * The loop of query: advance every start by the letter, keep those that
   * are trie nodes, and note whether one of them is marked.
   */
  method Advance(t: Trie, starts: seq<Str>, c: char) returns (next: seq<Str>, found: bool)
    requires t.marked <= t.nodes
    ensures forall q :: q in next <==> Advanced(starts, c, q, t)
    ensures found <==> exists m :: 0 <= m < |starts| && starts[m] + [c] in t.marked
  {
    next := [];
    found := false;
    var k := 0;
    while k < |starts|
      invariant 0 <= k <= |starts|
      invariant forall q :: q in next <==> exists m :: 0 <= m < k && q == starts[m] + [c] && q in t.nodes
      invariant found <==> exists m :: 0 <= m < k && starts[m] + [c] in t.marked
    {
      var node := starts[k];
      if node + [c] in t.nodes {
        var nextNode := node + [c];
        if nextNode in t.marked {
          found := true;
        }
        next := next + [nextNode];
      }
      k := k + 1;
    }
  }

  /** A suffix of the longer stream is a suffix of the shorter one (or empty) followed by the letter. */
  lemma SuffixSnoc(h: Str, c: char, i: int)
    requires 0 <= i <= |h|
    ensures (h + [c])[i..] == (if i < |h| then h[i..] else []) + [c]
  {
    if i < |h| {
      assert (h + [c])[i..] == h[i..] + [c];
    }
  }

  /** A prefix of a node is a node. */
  lemma PrefixNode(t: Trie, keys: set<Str>, q: Str, p: Str)
    requires Holds(t, keys) && q in t.nodes && IsPrefix(p, q)
    ensures p in t.nodes
  {
    if p != [] {
      var w :| w in keys && IsPrefix(q, w);
      assert w[..|p|] == w[..|q|][..|p|];
    }
  }

  /** A partial match of the longer stream comes from a start advanced by its last letter. */
  lemma AliveFromStart(starts: seq<Str>, h: Str, c: char, t: Trie, words: set<Str>, q: Str)
    requires Holds(t, words)
    requires forall p :: p in starts <==> p == [] || Alive(p, h, t)
    requires Alive(q, h + [c], t)
    ensures Advanced(starts, c, q, t)
  {
    var i :| 0 <= i < |h| + 1 && (h + [c])[i..] == q && q in t.nodes;
    SuffixSnoc(h, c, i);
    var p := if i < |h| then h[i..] else [];
    assert q == p + [c];
    if i < |h| {
      assert q[..|p|] == p;
      PrefixNode(t, words, q, p);
      assert Alive(p, h, t);
    }
    assert p in starts;
    var m :| 0 <= m < |starts| && starts[m] == p;
  }

  /** A start advanced by the letter, when a trie node, is a partial match of the longer stream. */
  lemma StartToAlive(starts: seq<Str>, h: Str, c: char, t: Trie, q: Str)
    requires forall p :: p in starts <==> p == [] || Alive(p, h, t)
    requires Advanced(starts, c, q, t)
    ensures Alive(q, h + [c], t)
  {
    var m :| 0 <= m < |starts| && q == starts[m] + [c] && q in t.nodes;
    var p := starts[m];
    assert p in starts;
    if p == [] {
      assert (h + [c])[|h|..] == q;
    } else {
      var i :| 0 <= i < |h| && h[i..] == p && p in t.nodes;
      SuffixSnoc(h, c, i);
    }
  }

  /**
   * One step of the partial matches: advancing the old matches and the root
   * by the letter gives the matches of the longer stream, and a marked one
   * among them is a non-empty word ending it.
   */
  lemma StepMatches(starts: seq<Str>, h: Str, c: char, t: Trie, words: set<Str>)
    requires Holds(t, words)
    requires forall p :: p in starts <==> p == [] || Alive(p, h, t)
    ensures forall q :: Advanced(starts, c, q, t) <==> Alive(q, h + [c], t)
    ensures (exists m :: 0 <= m < |starts| && starts[m] + [c] in t.marked) <==> NonEmptySuffixIn(words, h + [c])
  {
    forall q ensures Advanced(starts, c, q, t) <==> Alive(q, h + [c], t) {
      if Alive(q, h + [c], t) {
        AliveFromStart(starts, h, c, t, words, q);
      }
      if Advanced(starts, c, q, t) {
        StartToAlive(starts, h, c, t, q);
      }
    }
    StepMarked(starts, h + [c], c, t, words);
  }

  /** With the advanced starts being the partial matches of h', a marked one among them is a non-empty word ending h'. */
  lemma StepMarked(starts: seq<Str>, h': Str, c: char, t: Trie, words: set<Str>)
    requires Holds(t, words)
    requires forall q :: Advanced(starts, c, q, t) <==> Alive(q, h', t)
    ensures (exists m :: 0 <= m < |starts| && starts[m] + [c] in t.marked) <==> NonEmptySuffixIn(words, h')
  {
    if exists m :: 0 <= m < |starts| && starts[m] + [c] in t.marked {
      var m :| 0 <= m < |starts| && starts[m] + [c] in t.marked;
      MarkedAdvanced(starts, c, t, words, m);
      MarkedToSuffix(starts[m] + [c], h', t, words);
    }
    if NonEmptySuffixIn(words, h') {
      var w :| w in words && w != [] && IsSuffix(w, h');
      WordAlive(w, h', t, words);
      assert Advanced(starts, c, w, t);
    }
  }

  /** A start whose advance by the letter is marked advances to a trie node. */
  lemma MarkedAdvanced(starts: seq<Str>, c: char, t: Trie, words: set<Str>, m: int)
    requires Holds(t, words)
    requires 0 <= m < |starts| && starts[m] + [c] in t.marked
    ensures Advanced(starts, c, starts[m] + [c], t)
  {
    MarkedNodes(t, words);
  }

  /** A marked partial match that ends with a letter is a non-empty word ending the stream. */
  lemma MarkedToSuffix(q: Str, h': Str, t: Trie, words: set<Str>)
    requires Holds(t, words)
    requires q in t.marked && Alive(q, h', t)
    ensures NonEmptySuffixIn(words, h')
  {
    var i :| 0 <= i < |h'| && h'[i..] == q && q in t.nodes;
    assert q != [] && IsSuffix(q, h');
  }

  /** A non-empty word ending the stream is a partial match. */
  lemma WordAlive(w: Str, h': Str, t: Trie, words: set<Str>)
    requires Holds(t, words)
    requires w in words && w != [] && IsSuffix(w, h')
    ensures Alive(w, h', t) && w in t.marked
  {
    MarkedNodes(t, words);
    assert h'[|h'| - |w|..] == w;
  }

  // ---------------------------------------------------------------------
  // StreamChecker4: forward trie walked from the newest letter

  class StreamChecker4 {
    var trie: Trie
    var stream: Str
    var maxLen: int
    ghost var words: set<Str>
    ghost var history: Str

    /** The trie holds the words as written; the list holds the newest maxLen letters, oldest first. */
    ghost predicate Valid()
      reads this
    {
      && Holds(trie, words)
      && 0 <= maxLen && (forall w :: w in words ==> |w| <= maxLen)
      && stream == Window(history, maxLen)
    }

    /** max() of no lengths raises ValueError, so words must not be empty. */
    constructor (ws: seq<Str>)
      requires |ws| >= 1
      ensures Valid() && words == Words(ws) && history == []
    {
      var t := BuildTrie(ws);
      trie, stream, maxLen := t, [], MaxLen(ws);
      words, history := Words(ws), [];
    }

    /**
     * query: append, drop the oldest beyond maxLen, then walk the forward
     * trie from the newest letter back. The walk spells each suffix
     * backwards, so the answer is whether some word, reversed, ends the stream.
     */
    method Query(letter: char) returns (found: bool)
      requires Valid()
      modifies this
      ensures Valid() && words == old(words) && history == old(history) + [letter]
      ensures |stream| <= maxLen
      ensures found <==> NonEmptySuffixIn(RevAll(words), history)
    {
      ghost var h := history + [letter];
      var s := stream + [letter];
      if |s| > maxLen {
        s := s[1..];
      }
      WindowSnoc(history, letter, stream, maxLen);
      found := WalkWords(trie, words, maxLen, h, s);
      stream, history := s, h;
    }
  }

  /** The backward walk over a trie of the words as written, over the newest letters of h: true exactly when a non-empty reversed word ends h. */
  method WalkWords(t: Trie, ghost words: set<Str>, maxLen: int, ghost h: Str, s: Str) returns (found: bool)
    requires Holds(t, words)
    requires 0 <= maxLen && forall w :: w in words ==> |w| <= maxLen
    requires s == Window(h, maxLen)
    ensures found <==> NonEmptySuffixIn(RevAll(words), h)
  {
    found := WalkBackward(t, words, s);
    BackwardMeansSuffix(words, h, maxLen, s);
  }

  /** A StreamChecker4 over ["cd"] after the query 'c'. */
  method Checker4AfterC() returns (sc: StreamChecker4)
    ensures fresh(sc) && sc.Valid() && sc.words == {"cd"} && sc.history == ['c']
  {
    sc := new StreamChecker4(["cd"]);
    assert Words(["cd"]) == {"cd"};
    var first := sc.Query('c');
  }

  /** With words ["cd"], the queries 'c' then 'd' end the stream with the word "cd", yet StreamChecker4 answers false. */
  method Checker4MissesWord() returns (second: bool)
    ensures NonEmptySuffixIn({"cd"}, "cd")
    ensures !second
  {
    assert IsSuffix("cd", "cd");
    var sc := Checker4AfterC();
    second := sc.Query('d');
    ghost var h := sc.history;
    assert h == ['c'] + ['d'];
    OnlyReversedCd(h);
  }

  /** The one reversed word "dc" does not end the stream "cd". */
  lemma OnlyReversedCd(h: Str)
    requires |h| == 2 && h[0] == 'c' && h[1] == 'd'
    ensures !NonEmptySuffixIn(RevAll({"cd"}), h)
  {
    forall v | v in RevAll({"cd"}) ensures !IsSuffix(v, h) {
      assert v == LinkedList.Rev("cd");
      assert |v| == 2 && v[0] == 'd';
    }
  }

  // ---------------------------------------------------------------------
  // StreamChecker4, corrected: the trie holds the reversed words

  class StreamChecker4Fixed {
    var trie: Trie
    var stream: Str
    var maxLen: int
    ghost var words: set<Str>
    ghost var history: Str

    ghost predicate Valid()
      reads this
    {
      && Holds(trie, RevAll(words))
      && 0 <= maxLen && (forall w :: w in words ==> |w| <= maxLen)
      && stream == Window(history, maxLen)
    }

    constructor (ws: seq<Str>)
      ensures Valid() && words == Words(ws) && history == []
    {
      var t, m := BuildReversed(ws);
      trie, stream, maxLen := t, [], m;
      words, history := Words(ws), [];
    }

    /** query: the same backward walk over a trie of reversed words; true exactly when a non-empty word ends the stream. */
    method Query(letter: char) returns (found: bool)
      requires Valid()
      modifies this
      ensures Valid() && words == old(words) && history == old(history) + [letter]
      ensures found <==> NonEmptySuffixIn(words, history)
    {
      ghost var h := history + [letter];
      var s := stream + [letter];
      if |s| > maxLen {
        s := s[1..];
      }
      WindowSnoc(history, letter, stream, maxLen);
      found := WalkReversed(trie, words, maxLen, h, s);
      stream, history := s, h;
    }
  }

  /** The backward walk over a trie of the reversed words, over the newest letters of h: true exactly when a non-empty word ends h. */
  method WalkReversed(t: Trie, ghost words: set<Str>, maxLen: int, ghost h: Str, s: Str) returns (found: bool)
    requires Holds(t, RevAll(words))
    requires 0 <= maxLen && forall w :: w in words ==> |w| <= maxLen
    requires s == Window(h, maxLen)
    ensures found <==> NonEmptySuffixIn(words, h)
  {
    found := WalkBackward(t, RevAll(words), s);
    ReversedAnswer(words, h, maxLen, s);
  }

  /** Appending a letter and dropping the oldest beyond maxLen keeps the newest maxLen letters. */
  lemma WindowSnoc(h: Str, c: char, stream: Str, maxLen: int)
    requires 0 <= maxLen && stream == Window(h, maxLen)
    ensures var t := stream + [c];
            var t' := if |t| > maxLen then t[1..] else t;
            t' == Window(h + [c], maxLen) && |t'| <= maxLen
  {
    var t := stream + [c];
    assert t == (h + [c])[|h| - Min(maxLen, |h|)..];
  }

  /** Putting a letter in front and dropping the oldest beyond maxLen keeps the newest maxLen letters, newest first. */
  lemma NewestFirstSnoc(h: Str, c: char, stream: Str, maxLen: int)
    requires 0 <= maxLen && stream == NewestFirst(h, maxLen)
    ensures var t := [c] + stream;
            var t' := if |t| > maxLen then t[..|t| - 1] else t;
            t' == NewestFirst(h + [c], maxLen) && |t'| <= maxLen
  {
    LinkedList.RevSnoc(h, c);
    var r := LinkedList.Rev(h);
    assert [c] + stream == ([c] + r)[..Min(maxLen, |h|) + 1];
  }

  /** Over the reversed words, the backward walk's answer is whether a non-empty word ends the stream. */
  lemma ReversedAnswer(words: set<Str>, h: Str, maxLen: int, s: Str)
    requires 0 <= maxLen && forall w :: w in words ==> |w| <= maxLen
    requires s == Window(h, maxLen)
    ensures ReversedSuffixKey(s, RevAll(words)) <==> NonEmptySuffixIn(words, h)
  {
    forall v | v in RevAll(words) ensures |v| <= maxLen {
      var w :| w in words && LinkedList.Rev(w) == v;
    }
    BackwardMeansSuffix(RevAll(words), h, maxLen, s);
    RevAllRevAll(words);
  }
}

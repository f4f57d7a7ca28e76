// Detect Capital: a word uses capitals correctly when all its letters are
// capitals, none are, or only the first one is. Words are made of the ASCII
// letters; case conversion leaves every other character alone.

module DetectCapital {

  predicate IsUpper(c: char) { 'A' <= c <= 'Z' }
  predicate IsLower(c: char) { 'a' <= c <= 'z' }

  /** A word of English letters only. */
  predicate IsWord(w: string) {
    forall i :: 0 <= i < |w| ==> IsUpper(w[i]) || IsLower(w[i])
  }

  function UpperChar(c: char): char {
    if IsLower(c) then (c as int - 32) as char else c
  }

  function LowerChar(c: char): char {
    if IsUpper(c) then (c as int + 32) as char else c
  }

  /** str.upper() and str.lower() on ASCII text. */
  function Upper(w: string): string {
    seq(|w|, i requires 0 <= i < |w| => UpperChar(w[i]))
  }

  function Lower(w: string): string {
    seq(|w|, i requires 0 <= i < |w| => LowerChar(w[i]))
  }

  /** The rule: all capitals, no capitals, or a capital followed by no capitals. */
  predicate CapitalsRight(w: string) {
    || (forall i :: 0 <= i < |w| ==> IsUpper(w[i]))
    || (forall i :: 0 <= i < |w| ==> IsLower(w[i]))
    || (|w| > 0 && IsUpper(w[0]) && forall i :: 1 <= i < |w| ==> IsLower(w[i]))
  }

  /** A word equals its upper-case form exactly when it holds no lower-case letter. */
  lemma UpperFixed(w: string)
    ensures w == Upper(w) <==> forall i :: 0 <= i < |w| ==> !IsLower(w[i])
  {
    if w != Upper(w) {
      var i :| 0 <= i < |w| && w[i] != Upper(w)[i];
    }
  }

  lemma LowerFixed(w: string)
    ensures w == Lower(w) <==> forall i :: 0 <= i < |w| ==> !IsUpper(w[i])
  {
    if w != Lower(w) {
      var i :| 0 <= i < |w| && w[i] != Lower(w)[i];
    }
  }

  /** Compare the word with its upper- and lower-case forms. */
  function CompareCases(word: string): bool {
    if |word| == 1 then true
    else if word == Upper(word) then true
    else if word == Lower(word) then true
    else if word[0] == UpperChar(word[0]) && word[1..] == Lower(word[1..]) then true
    else false
  }

  lemma CompareCasesCorrect(word: string)
    requires IsWord(word)
    ensures CompareCases(word) <==> CapitalsRight(word)
  {
    UpperFixed(word);
    LowerFixed(word);
    if |word| > 1 {
      LowerFixed(word[1..]);
      assert forall i :: 1 <= i < |word| ==> word[1..][i - 1] == word[i];
    }
  }

  /** The number of capitals in w. */
  function CountUpper(w: string): (n: nat)
    ensures n <= |w|
  {
    if w == [] then 0 else (if IsUpper(w[0]) then 1 else 0) + CountUpper(w[1..])
  }

  /** The count reaches |w| exactly when every letter is a capital, and 0 exactly when none is. */
  lemma {:induction false} CountUpperExtremes(w: string)
    ensures CountUpper(w) == |w| <==> forall i :: 0 <= i < |w| ==> IsUpper(w[i])
    ensures CountUpper(w) == 0 <==> forall i :: 0 <= i < |w| ==> !IsUpper(w[i])
  {
    if w != [] {
      CountUpperExtremes(w[1..]);
      assert forall i :: 1 <= i < |w| ==> w[1..][i - 1] == w[i];
    }
  }

  /** Count the capitals and decide from the count and the first letter. */
  function CountCapitals(word: string): bool {
    var n := CountUpper(word);
    if n == |word| then true
    else if n == 0 then true
    else if n == 1 && IsUpper(word[0]) then true
    else false
  }

  lemma CountCapitalsCorrect(word: string)
    requires IsWord(word)
    ensures CountCapitals(word) <==> CapitalsRight(word)
  {
    CountUpperExtremes(word);
    if word != [] {
      CountUpperExtremes(word[1..]);
      assert forall i :: 1 <= i < |word| ==> word[1..][i - 1] == word[i];
    }
  }

  /**
   * Decide from the first two letters what the rest must be. The word must
   * not be empty: its first letter is read unconditionally.
   */
  function FirstTwo(word: string): bool
    requires |word| > 0
  {
    if |word| == 1 then true
    else if IsUpper(word[0]) then
      if IsUpper(word[1]) then forall i :: 2 <= i < |word| ==> IsUpper(word[i])
      else forall i :: 2 <= i < |word| ==> IsLower(word[i])
    else forall i :: 1 <= i < |word| ==> IsLower(word[i])
  }

  lemma FirstTwoCorrect(word: string)
    requires |word| > 0 && IsWord(word)
    ensures FirstTwo(word) <==> CapitalsRight(word)
  {
  }

  /** A single letter is always used correctly. */
  lemma SingleLetter(word: string)
    requires |word| == 1
    ensures CompareCases(word) && FirstTwo(word)
    ensures IsWord(word) ==> CountCapitals(word) && CapitalsRight(word)
  {
  }
}

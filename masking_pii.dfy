// Masking Personal Information: an email address keeps the first and last
// letter of its name and its domain, all in lower case; a phone number keeps
// its last four digits and shows its country code as stars.

module MaskingPii {
  import opened Common
  import DetectCapital

  // ---------------------------------------------------------------------
  // Python string and list operations used by the masking code
  // ---------------------------------------------------------------------

  /** s.index(c): the first position of c. */
  function IndexOf(s: string, c: char): (i: nat)
    requires c in s
    ensures i < |s| && s[i] == c && forall j :: 0 <= j < i ==> s[j] != c
  {
    if s[0] == c then 0 else 1 + IndexOf(s[1..], c)
  }

  /** The pieces of s joined back with sep between them. */
  function Join(parts: seq<string>, sep: char): string
    requires |parts| > 0
  {
    if |parts| == 1 then parts[0] else parts[0] + [sep] + Join(parts[1..], sep)
  }

  /** s.split(sep): the pieces between the separators, which join back to s. */
  function Split(s: string, sep: char): (parts: seq<string>)
    ensures |parts| > 0 && Join(parts, sep) == s
    ensures forall k :: 0 <= k < |parts| ==> sep !in parts[k]
    ensures |parts| == 1 <==> sep !in s
    decreases |s|
  {
    if sep !in s then [s]
    else
      var i := IndexOf(s, sep);
      var rest := Split(s[i + 1..], sep);
      assert s == s[..i] + [sep] + s[i + 1..];
      assert ([s[..i]] + rest)[1..] == rest;
      [s[..i]] + rest
  }

  /** xs[i] with Python's negative indices; None where Python raises IndexError. */
  function PyIndex<T>(xs: seq<T>, i: int): (r: Option<T>)
    ensures r.Some? <==> -|xs| <= i < |xs|
    ensures 0 <= i < |xs| ==> r == Some(xs[i])
    ensures -|xs| <= i < 0 ==> r == Some(xs[|xs| + i])
  {
    if 0 <= i < |xs| then Some(xs[i])
    else if -|xs| <= i < 0 then Some(xs[|xs| + i])
    else None
  }

  /** s[-4:]: the last four characters, or all of s when it is shorter. */
  function LastFour(s: string): (r: string)
    ensures |s| >= 4 ==> |r| == 4 && s == s[..|s| - 4] + r
    ensures |s| < 4 ==> r == s
  {
    if |s| >= 4 then s[|s| - 4..] else s
  }

  predicate IsDigit(c: char) { '0' <= c <= '9' }

  /** The digits of s in order: ''.join(c for c in s if c.isdigit()). */
  function DigitsOf(s: string): (d: string)
    ensures forall k :: 0 <= k < |d| ==> IsDigit(d[k])
    ensures |d| <= |s|
  {
    if s == [] then []
    else (if IsDigit(s[0]) then [s[0]] else []) + DigitsOf(s[1..])
  }

  /** Filtering keeps order across a concatenation. */
  lemma {:induction false} DigitsOfConcat(a: string, b: string)
    ensures DigitsOf(a + b) == DigitsOf(a) + DigitsOf(b)
  {
    if a != [] {
      var head := if IsDigit(a[0]) then [a[0]] else [];
      assert (a + b)[0] == a[0] && (a + b)[1..] == a[1..] + b;
      assert DigitsOf(a + b) == head + DigitsOf(a[1..] + b);
      DigitsOfConcat(a[1..], b);
      assert DigitsOf(a) == head + DigitsOf(a[1..]);
    } else {
      assert a + b == b;
    }
  }

  /** Filtering a string of digits gives it back, so a second filter changes nothing. */
  lemma {:induction false} DigitsOfDigits(s: string)
    requires forall k :: 0 <= k < |s| ==> IsDigit(s[k])
    ensures DigitsOf(s) == s
  {
    if s != [] {
      DigitsOfDigits(s[1..]);
    }
  }

  lemma DigitsIdempotent(s: string)
    ensures DigitsOf(DigitsOf(s)) == DigitsOf(s)
  {
    DigitsOfDigits(DigitsOf(s));
  }

  // ---------------------------------------------------------------------
  // Solution: split the email, index a prefix table for the phone
  // ---------------------------------------------------------------------

  /** Lower case, split at '@', and keep the first and last letter of the name. */
  function MaskEmail(s: string): (r: Option<string>)
  {
    var t := DetectCapital.Lower(s);
    var parts := Split(t, '@');
    if |parts| != 2 || parts[0] == [] then None
    else
      var name := parts[0];
      Some([name[0]] + "*****" + [name[|name| - 1]] + "@" + parts[1])
  }

  const Prefixes: seq<string> := ["", "+*-", "+**-", "+***-"]

  /** Keep the digits; the prefix is looked up by the number of digits beyond ten. */
  function MaskPhone(s: string): Option<string> {
    var digits := DigitsOf(s);
    match PyIndex(Prefixes, |digits| - 10)
    case None => None
    case Some(prefix) => Some(prefix + "***-***-" + LastFour(digits))
  }

  /** An '@' makes the text an email address; anything else is a phone number. */
  function MaskPii(s: string): Option<string> {
    if '@' in s then MaskEmail(s) else MaskPhone(s)
  }

  /** Lower-casing leaves '@' where it is and creates no new one. */
  lemma LowerKeepsAt(s: string)
    ensures |DetectCapital.Lower(s)| == |s|
    ensures forall i :: 0 <= i < |s| ==> (DetectCapital.Lower(s)[i] == '@' <==> s[i] == '@')
    ensures '@' in DetectCapital.Lower(s) <==> '@' in s
  {
    var t := DetectCapital.Lower(s);
    if '@' in s {
      var i :| 0 <= i < |s| && s[i] == '@';
      assert t[i] == '@';
    }
  }

  /** Lower-casing a suffix is the suffix of the lower-cased text. */
  lemma LowerSuffix(s: string, i: nat)
    requires i <= |s|
    ensures DetectCapital.Lower(s)[i..] == DetectCapital.Lower(s[i..])
  {
  }

  /** The number of times c occurs in s. */
  function Occurrences(s: string, c: char): nat {
    multiset(s)[c]
  }

  /** c occurs once exactly when no c follows its first occurrence. */
  lemma OnceAfterFirst(s: string, c: char)
    requires c in s
    ensures Occurrences(s, c) == 1 <==> c !in s[IndexOf(s, c) + 1..]
  {
    var i := IndexOf(s, c);
    assert s == s[..i] + [s[i]] + s[i + 1..];
    assert multiset(s)[c] == multiset(s[..i])[c] + 1 + multiset(s[i + 1..])[c];
    assert c !in s[..i];
  }

  /** Split into two pieces: the text before the first separator and the text after it. */
  lemma SplitTwo(t: string, sep: char)
    requires sep in t
    ensures var i := IndexOf(t, sep);
      && (|Split(t, sep)| == 2 <==> sep !in t[i + 1..])
      && (|Split(t, sep)| == 2 ==> Split(t, sep) == [t[..i], t[i + 1..]])
  {
  }

  /**
   * An email is masked exactly when it holds one '@' and a non-empty name;
   * the mask is the name's first and last letter around five stars, then '@'
   * and the domain, all in lower case.
   */
  lemma EmailMask(s: string)
    requires '@' in s
    ensures MaskPii(s).Some? <==> Occurrences(s, '@') == 1 && s[0] != '@'
    ensures MaskPii(s).Some? ==>
      var t := DetectCapital.Lower(s);
      var i := IndexOf(s, '@');
      MaskPii(s).value == [t[0]] + "*****" + [t[i - 1]] + "@" + t[i + 1..]
  {
    var t := DetectCapital.Lower(s);
    LowerKeepsAt(s);
    var i := IndexOf(s, '@');
    assert IndexOf(t, '@') == i;
    SplitTwo(t, '@');
    OnceAfterFirst(s, '@');
    LowerSuffix(s, i + 1);
    LowerKeepsAt(s[i + 1..]);
  }

  /** The table and the "+", stars, "-" form give the same prefix for 10 to 13 digits. */
  function CountryPrefix(k: nat): string {
    if k == 0 then "" else "+" + seq(k, _ => '*') + "-"
  }

  /**
   * A phone number is masked as its country prefix, "***-***-" and its last
   * four digits. With 10 to 13 digits the prefix shows one star per digit of
   * country code; Python's negative indices also let 6 to 9 digits through,
   * and fewer than 6 or more than 13 digits raise IndexError.
   */
  lemma PhoneMask(s: string)
    requires '@' !in s
    ensures var n := |DigitsOf(s)|; MaskPii(s).Some? <==> 6 <= n <= 13
    ensures var n := |DigitsOf(s)|; 10 <= n <= 13 ==>
      MaskPii(s) == Some(CountryPrefix(n - 10) + "***-***-" + DigitsOf(s)[n - 4..])
    ensures var n := |DigitsOf(s)|; 6 <= n < 10 ==>
      MaskPii(s) == Some(Prefixes[n - 6] + "***-***-" + DigitsOf(s)[n - 4..])
  {
    PrefixTable();
    assert MaskPii(s) == MaskPhone(s);
  }

  /** The prefix table lists the country prefixes for 0 to 3 digits of country code. */
  lemma PrefixTable()
    ensures forall k :: 0 <= k < 4 ==> Prefixes[k] == CountryPrefix(k)
  {
    assert CountryPrefix(1) == "+*-";
    assert CountryPrefix(2) == "+**-";
    assert CountryPrefix(3) == "+***-";
  }

  // ---------------------------------------------------------------------
  // Solution3: index the lower-cased text directly
  // ---------------------------------------------------------------------

  const Forms: seq<string> := ["***-***-", "+*-***-***-", "+**-***-***-", "+***-***-***-"]

  function OneLine(s: string): Option<string> {
    if '@' in s then
      var t := DetectCapital.Lower(s);
      LowerKeepsAt(s);
      var i := IndexOf(t, '@');
      match PyIndex(t, i - 1)
      case None => None
      case Some(c) => Some([t[0]] + "*****" + [c] + "@" + t[i + 1..])
    else
      var digits := DigitsOf(s);
      match PyIndex(Forms, |digits| - 10)
      case None => None
      case Some(form) => Some(form + LastFour(digits))
  }

  /**
   * Wherever Solution masks the text, Solution3 produces the same string, and
   * the two give the same answer for every phone number.
   */
  lemma OneLineAgrees(s: string)
    ensures MaskPii(s).Some? ==> OneLine(s) == MaskPii(s)
    ensures '@' !in s ==> OneLine(s) == MaskPii(s)
  {
    if '@' in s {
      if MaskPii(s).Some? {
        EmailMask(s);
        LowerKeepsAt(s);
        var t := DetectCapital.Lower(s);
        assert IndexOf(t, '@') == IndexOf(s, '@');
      }
    } else {
      forall k | -4 <= k < 4 ensures PyIndex(Forms, k).Some? && PyIndex(Forms, k).value == PyIndex(Prefixes, k).value + "***-***-" {
      }
    }
  }

  /**
   * Solution3 accepts more: a text starting with '@' has no name, so Solution
   * raises while Solution3 wraps around to the last character.
   */
  lemma OneLineAcceptsEmptyName()
    ensures MaskPii("@ab").None?
    ensures OneLine("@ab") == Some("@*****b@ab")
  {
    var t := DetectCapital.Lower("@ab");
    assert t[0] == '@' && t[1] == 'a' && t[2] == 'b';
    assert t == "@ab";
    assert IndexOf(t, '@') == 0;
    assert Split(t, '@') == ["", "ab"];
    assert t[1..] == "ab";
    assert PyIndex(t, -1) == Some('b');
    assert [t[0]] + "*****" + ['b'] + "@" + t[1..] == "@*****b@ab";
  }
}

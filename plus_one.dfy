// Plus One: add one to a non-negative integer given as its decimal digits,
// most significant first.

module PlusOne {
  import opened Common

  predicate IsDigits(s: seq<int>) {
    forall i :: 0 <= i < |s| ==> 0 <= s[i] <= 9
  }

  predicate AllNines(s: seq<int>) {
    forall i :: 0 <= i < |s| ==> s[i] == 9
  }

  function Pow10(k: nat): nat {
    if k == 0 then 1 else 10 * Pow10(k - 1)
  }

  /** The number the digits denote, most significant digit first. */
  function Value(s: seq<int>): int {
    if s == [] then 0 else Value(s[..|s| - 1]) * 10 + s[|s| - 1]
  }

  /** k copies of x. */
  function Repeat(x: int, k: nat): (r: seq<int>)
    ensures |r| == k && forall i :: 0 <= i < k ==> r[i] == x
  {
    if k == 0 then [] else Repeat(x, k - 1) + [x]
  }

  /**
   * Reference definition: propagate the carry from the last digit; a carry out
   * of the first digit prepends a 1.
   */
  function Increment(d: seq<int>): seq<int> {
    if d == [] then [1]
    else if d[|d| - 1] < 9 then d[..|d| - 1] + [d[|d| - 1] + 1]
    else Increment(d[..|d| - 1]) + [0]
  }

  lemma {:induction false} IncrementCorrect(d: seq<int>)
    requires IsDigits(d)
    ensures IsDigits(Increment(d))
    ensures Value(Increment(d)) == Value(d) + 1
    ensures |Increment(d)| == if AllNines(d) then |d| + 1 else |d|
    ensures AllNines(d) ==> Increment(d)[0] == 1
  {
    if d != [] {
      var p, x := d[..|d| - 1], d[|d| - 1];
      assert d == p + [x];
      AllNinesSnoc(p, x);
      if x < 9 {
        ValueSnoc(p, x + 1);
      } else {
        IncrementCorrect(p);
        ValueSnoc(Increment(p), 0);
      }
    }
  }

  /** The value of digits with one more digit at the end. */
  lemma ValueSnoc(p: seq<int>, x: int)
    ensures Value(p + [x]) == Value(p) * 10 + x
  {
    assert (p + [x])[..|p|] == p;
  }

  /** Digits with one more at the end are all nines iff both parts are. */
  lemma AllNinesSnoc(p: seq<int>, x: int)
    ensures AllNines(p + [x]) <==> AllNines(p) && x == 9
    ensures IsDigits(p + [x]) <==> IsDigits(p) && 0 <= x <= 9
  {
    var d := p + [x];
    if AllNines(d) {
      assert forall i :: 0 <= i < |p| ==> p[i] == d[i];
      assert d[|p|] == x;
    }
    if IsDigits(d) {
      assert forall i :: 0 <= i < |p| ==> p[i] == d[i];
      assert d[|p|] == x;
    }
  }

  /** Digit strings of one length with one value are the same digit string. */
  lemma {:induction false} DigitsDetermined(a: seq<int>, b: seq<int>)
    requires IsDigits(a) && IsDigits(b) && |a| == |b| && Value(a) == Value(b)
    ensures a == b
  {
    if a != [] {
      var a', b' := a[..|a| - 1], b[..|b| - 1];
      var x, y := a[|a| - 1], b[|b| - 1];
      var dv := Value(a') - Value(b');
      assert 10 * dv == y - x;
      assert dv == 0;
      DigitsDetermined(a', b');
      assert a == a' + [x] && b == b' + [y];
    }
  }

  /** The carry stops at a digit below 9; the trailing nines become zeros. */
  lemma {:induction false} IncrementAtDigit(p: seq<int>, x: int, k: nat)
    requires x < 9
    ensures Increment(p + [x] + Repeat(9, k)) == p + [x + 1] + Repeat(0, k)
  {
    if k == 0 {
      var s := p + [x];
      assert s[..|s| - 1] == p;
      assert p + [x] + Repeat(9, 0) == s;
    } else {
      IncrementAtDigit(p, x, k - 1);
      var s := p + [x] + Repeat(9, k);
      assert s[..|s| - 1] == p + [x] + Repeat(9, k - 1);
    }
  }

  /** A run of nines carries out of the first digit. */
  lemma {:induction false} IncrementAllNines(k: nat)
    ensures Increment(Repeat(9, k)) == [1] + Repeat(0, k)
  {
    if k > 0 {
      IncrementAllNines(k - 1);
      var s := Repeat(9, k);
      assert s[..|s| - 1] == Repeat(9, k - 1);
    }
  }

  /** A scan from the right that bumped digit i, below 9, after turning the nines right of it
      into zeros has produced the increment. */
  lemma CarryStopped(d0: seq<int>, cur: seq<int>, i: int)
    requires 0 <= i < |d0| == |cur| && d0[i] < 9 && cur[i] == d0[i] + 1
    requires forall j :: 0 <= j < i ==> cur[j] == d0[j]
    requires forall j :: i < j < |d0| ==> cur[j] == 0 && d0[j] == 9
    ensures cur == Increment(d0) && !AllNines(d0)
  {
    var n := |d0|;
    assert d0 == d0[..i] + [d0[i]] + Repeat(9, n - 1 - i);
    IncrementAtDigit(d0[..i], d0[i], n - 1 - i);
    assert cur == d0[..i] + [d0[i] + 1] + Repeat(0, n - 1 - i);
  }

  /** A scan that turned every digit, all nines, into zeros: the increment puts a 1 in front. */
  lemma CarriedOut(d0: seq<int>, cur: seq<int>)
    requires |d0| == |cur|
    requires forall j :: 0 <= j < |d0| ==> cur[j] == 0 && d0[j] == 9
    ensures [1] + cur == Increment(d0) && AllNines(d0)
  {
    var n := |d0|;
    assert d0 == Repeat(9, n);
    IncrementAllNines(n);
    assert cur == Repeat(0, n);
  }

  /**
   * Right-to-left scan: the first digit below 9 is bumped and the nines after
   * it have become zeros; if every digit was 9 the list is all zeros and a 1 is
   * put in front.
   */
  method PlusOneScan(digits: array<int>) returns (r: seq<int>)
    requires IsDigits(digits[..])
    modifies digits
    ensures r == Increment(old(digits[..]))
    ensures digits[..] == if AllNines(old(digits[..])) then r[1..] else r
  {
    ghost var d0 := digits[..];
    var n := digits.Length;
    var i := n - 1;
    while i >= 0
      invariant -1 <= i < n
      invariant forall j :: 0 <= j <= i ==> digits[j] == d0[j]
      invariant forall j :: i < j < n ==> digits[j] == 0 && d0[j] == 9
    {
      if digits[i] < 9 {
        digits[i] := digits[i] + 1;
        CarryStopped(d0, digits[..], i);
        return digits[..];
      }
      digits[i] := 0;
      i := i - 1;
    }
    CarriedOut(d0, digits[..]);
    r := [1] + digits[..];
    assert r[1..] == digits[..];
  }

  /** A Python list of digits: it can be written in place and can grow at the front. */
  class DigitList {
    var items: seq<int>

    constructor (s: seq<int>)
      ensures items == s
    {
      items := s;
    }
  }

  /**
   * Carry-flag loop: add the carry, keep the unit digit, stop once the carry
   * is spent; a carry left over inserts a 1 at the front of the caller's list.
   * The list returned is the caller's own list.
   */
  method PlusOneCarry(digits: DigitList) returns (r: DigitList)
    requires IsDigits(digits.items)
    modifies digits
    ensures r == digits && digits.items == Increment(old(digits.items))
  {
    ghost var d0 := digits.items;
    var n := |digits.items|;
    var carry := 1;
    var i := n - 1;
    while i >= 0
      invariant -1 <= i < n && |digits.items| == n && carry == 1
      invariant forall j :: 0 <= j <= i ==> digits.items[j] == d0[j]
      invariant forall j :: i < j < n ==> digits.items[j] == 0 && d0[j] == 9
    {
      digits.items := digits.items[i := digits.items[i] + carry];
      carry := digits.items[i] / 10;
      digits.items := digits.items[i := digits.items[i] % 10];
      if carry == 0 {
        break;
      }
      i := i - 1;
    }
    if carry == 1 {
      CarriedOut(d0, digits.items);
      digits.items := [1] + digits.items;
    } else {
      CarryStopped(d0, digits.items, i);
    }
    r := digits;
  }

  /** Works on a copy: the caller's digits are left as they were. */
  method PlusOneCopy(digits: array<int>) returns (r: seq<int>)
    requires IsDigits(digits[..])
    ensures r == Increment(digits[..])
    ensures IsDigits(r) && Value(r) == Value(digits[..]) + 1
  {
    ghost var d0 := digits[..];
    var n := digits.Length;
    var result := digits[..];
    var carry := 1;
    var i := n - 1;
    while i >= 0
      invariant -1 <= i < n && |result| == n && carry == 1
      invariant forall j :: 0 <= j <= i ==> result[j] == d0[j]
      invariant forall j :: i < j < n ==> result[j] == 0 && d0[j] == 9
    {
      var total := result[i] + carry;
      result := result[i := total % 10];
      carry := total / 10;
      if carry == 0 {
        CarryStopped(d0, result, i);
        break;
      }
      i := i - 1;
    }
    if carry == 1 {
      CarriedOut(d0, result);
      result := [1] + result;
    }
    r := result;
    IncrementCorrect(d0);
  }

  /**
   * Pad with a leading zero, bump the last digit, turn every 10 into a 0 with
   * a carry to the left, and drop the pad if it stayed 0. The first line bumps
   * the last digit of the caller's list before the copy is made.
   */
  method PlusOnePadded(digits: array<int>) returns (r: Option<seq<int>>)
    requires IsDigits(digits[..])
    modifies digits
    ensures digits.Length == 0 ==> r == None && digits[..] == old(digits[..])
    ensures digits.Length > 0 ==> r == Some(Increment(old(digits[..])))
    ensures digits.Length > 0 ==>
      digits[..] == old(digits[..])[digits.Length - 1 := old(digits[digits.Length - 1]) + 1]
  {
    ghost var d0 := digits[..];
    var n := digits.Length;
    if n == 0 {
      // digits[-1] raises IndexError on an empty list
      return None;
    }
    digits[n - 1] := digits[n - 1] + 1;
    assert digits[..] == d0[n - 1 := d0[n - 1] + 1];
    var w := [0] + digits[..];
    ValueConcat([0], digits[..]);
    ValueBump(d0);
    assert [0][..0] == [];
    ghost var bumped := digits[..];
    var i := n;
    while i >= 0
      invariant digits[..] == bumped
      invariant -1 <= i <= n && |w| == n + 1
      invariant Value(w) == Value(d0) + 1
      invariant forall j :: 0 <= j < i ==> 0 <= w[j] <= 9
      invariant 0 <= i ==> 0 <= w[i] <= 10
      invariant forall j :: i < j <= n ==> 0 <= w[j] <= 9
      invariant 0 <= w[0] <= 1 && (1 <= i ==> w[0] == 0)
    {
      if w[i] == 10 {
        CarryKeepsValue(w, i);
        w := w[i := 0][i - 1 := w[i - 1] + 1];
      }
      i := i - 1;
    }
    IncrementCorrect(d0);
    var inc := Increment(d0);
    var padded := if |inc| == n then [0] + inc else inc;
    ValueConcat([0], inc);
    assert [0][..0] == [];
    DigitsDetermined(w, padded);
    if w[0] == 0 {
      r := Some(w[1..]);
      assert padded == [0] + inc;
    } else {
      r := Some(w);
    }
  }

  lemma {:induction false} ValueConcat(s: seq<int>, t: seq<int>)
    ensures Value(s + t) == Value(s) * Pow10(|t|) + Value(t)
  {
    if t == [] {
      assert s + t == s;
    } else {
      var t', x := t[..|t| - 1], t[|t| - 1];
      ValueConcat(s, t');
      assert (s + t)[..|s + t| - 1] == s + t';
      calc {
        Value(s + t);
        Value(s + t') * 10 + x;
        (Value(s) * Pow10(|t'|) + Value(t')) * 10 + x;
        Value(s) * (Pow10(|t'|) * 10) + (Value(t') * 10 + x);
        Value(s) * Pow10(|t|) + Value(t);
      }
    }
  }

  /** Bumping the last digit adds one. */
  lemma ValueBump(d: seq<int>)
    requires d != []
    ensures Value(d[|d| - 1 := d[|d| - 1] + 1]) == Value(d) + 1
  {
    var e := d[|d| - 1 := d[|d| - 1] + 1];
    assert e[..|e| - 1] == d[..|d| - 1];
  }

  /** Replacing a 10 by 0 and adding one to the digit on its left keeps the value. */
  lemma CarryKeepsValue(w: seq<int>, i: int)
    requires 1 <= i < |w|
    ensures Value(w[i := w[i] - 10][i - 1 := w[i - 1] + 1]) == Value(w)
  {
    var v := w[i := w[i] - 10][i - 1 := w[i - 1] + 1];
    var p, q := w[..i - 1], w[i + 1..];
    assert w == p + [w[i - 1], w[i]] + q;
    assert v == p + [w[i - 1] + 1, w[i] - 10] + q;
    ValueConcat(p + [w[i - 1], w[i]], q);
    ValueConcat(p + [w[i - 1] + 1, w[i] - 10], q);
    ValueConcat(p, [w[i - 1], w[i]]);
    ValueConcat(p, [w[i - 1] + 1, w[i] - 10]);
    assert [w[i - 1], w[i]][..1] == [w[i - 1]];
    assert [w[i - 1] + 1, w[i] - 10][..1] == [w[i - 1] + 1];
  }

  /**
   * The recursive helper as written: past the first digit it returns [1]
   * alone, dropping the zeros the carry left behind. The pair is the returned
   * list and the digits afterwards.
   */
  function AddOneAsWritten(d: seq<int>, index: int): (r: (seq<int>, seq<int>))
    requires -1 <= index < |d|
    ensures |r.0| > 0
    decreases index + 1
  {
    if index < 0 then ([1], d)
    else if d[index] < 9 then (d[index := d[index] + 1], d[index := d[index] + 1])
    else AddOneAsWritten(d[index := 0], index - 1)
  }

  /** On digits that are all nines the helper carries past the first one and returns [1] alone. */
  lemma {:induction false} AddOneNines(d: seq<int>, index: int)
    requires -1 <= index < |d|
    ensures AllNines(d[..index + 1]) ==> AddOneAsWritten(d, index).0 == [1]
    decreases index + 1
  {
    if index >= 0 && AllNines(d[..index + 1]) {
      assert d[..index + 1][index] == d[index] == 9;
      var e := d[index := 0];
      assert e[..index] == d[..index];
      assert AllNines(e[..index]) by {
        forall k | 0 <= k < index ensures e[..index][k] == 9 {
          assert e[..index][k] == d[..index + 1][k];
        }
      }
      AddOneNines(e, index - 1);
    }
  }

  /**
   * Short of a carry past the first digit, the helper returns the
   * incremented prefix followed by the digits it has not touched.
   */
  lemma {:induction false} AddOneIncrements(d: seq<int>, index: int)
    requires -1 <= index < |d|
    ensures IsDigits(d) && !AllNines(d[..index + 1]) ==>
      AddOneAsWritten(d, index).0 == Increment(d[..index + 1]) + d[index + 1..]
    decreases index + 1
  {
    if index >= 0 && IsDigits(d) && !AllNines(d[..index + 1]) {
      var p := d[..index + 1];
      assert p == d[..index] + [d[index]];
      assert p[..|p| - 1] == d[..index];
      if d[index] < 9 {
        calc {
          AddOneAsWritten(d, index).0;
          d[index := d[index] + 1];
          { assert d[index := d[index] + 1] == d[..index] + [d[index] + 1] + d[index + 1..]; }
          d[..index] + [d[index] + 1] + d[index + 1..];
          Increment(p) + d[index + 1..];
        }
      } else {
        AllNinesSnoc(d[..index], d[index]);
        var e := d[index := 0];
        assert e[..index] == d[..index];
        assert e[index..] == [0] + d[index + 1..];
        assert e[..index + 1 - 1] == e[..index];
        assert IsDigits(e);
        AddOneIncrements(e, index - 1);
        calc {
          AddOneAsWritten(d, index).0;
          AddOneAsWritten(e, index - 1).0;
          Increment(d[..index]) + ([0] + d[index + 1..]);
          Increment(d[..index]) + [0] + d[index + 1..];
          Increment(p) + d[index + 1..];
        }
      }
    }
  }

  /** Without a carry out of the first digit, incrementing keeps the length and raises the first digit by at most one. */
  lemma {:induction false} IncrementHead(d: seq<int>)
    ensures IsDigits(d) && !AllNines(d) ==>
      |Increment(d)| == |d| > 0 && (Increment(d)[0] == d[0] || Increment(d)[0] == d[0] + 1)
    ensures IsDigits(d) && !AllNines(d) && |d| == 1 ==> Increment(d) == [d[0] + 1]
  {
    if d != [] {
      var n := |d|;
      assert d == d[..n - 1] + [d[n - 1]];
      AllNinesSnoc(d[..n - 1], d[n - 1]);
      if d[n - 1] >= 9 {
        IncrementHead(d[..n - 1]);
      }
    }
  }

  /** plusOne4 as written: [1] when every digit is 9, and the incremented digits when the first one is not a leading zero. */
  function PlusOneRecursiveAsWritten(d: seq<int>): (r: seq<int>)
    ensures AllNines(d) ==> r == [1]
    ensures IsDigits(d) && !AllNines(d) && (|d| == 1 || d[0] != 0) ==> r == Increment(d)
  {
    AddOneNines(d, |d| - 1);
    AddOneIncrements(d, |d| - 1);
    IncrementHead(d);
    assert d[..|d|] == d && d[|d|..] == [];
    var (result, after) := AddOneAsWritten(d, |d| - 1);
    if result[0] != 0 then result else [1] + after
  }

  /** On 9 the recursive variant returns [1], whose value is 1 and not 10. */
  lemma RecursiveAsWrittenLosesZeros()
    ensures PlusOneRecursiveAsWritten([9]) == [1]
    ensures Value(PlusOneRecursiveAsWritten([9])) != Value([9]) + 1
    ensures Increment([9]) == [1, 0]
  {
    assert [9][0 := 0] == [0];
    assert AddOneAsWritten([9], 0) == ([1], [0]);
    assert [9][..0] == [] && [1][..0] == [];
    assert [1, 0][..1] == [1];
  }
}

// Sum of Square Numbers: decide whether a non-negative integer c is a*a + b*b
// for some integers a and b. Variants: two pointers from 0 and sqrt(c), a
// scan for a perfect-square remainder, a set of squares, and the
// prime-factor test of Fermat's two-square theorem.

module SumOfSquares {
  import RepeatedSubstring

  /** a and b are a solution: non-negative, and their squares add up to c. */
  ghost predicate IsSumOf(a: int, b: int, c: int) {
    0 <= a && 0 <= b && a * a + b * b == c
  }

  /** c is a sum of two squares. */
  ghost predicate TwoSquares(c: int) {
    exists a, b :: IsSumOf(a, b, c)
  }

  /** Squares of non-negative numbers grow with them. */
  lemma SquareMonotone(x: int, y: int)
    requires 0 <= x <= y
    ensures x * x <= y * y
  {
    ProductMono(x, y, x, y);
  }

  /** Products of non-negative numbers grow with their factors. */
  lemma ProductMono(a: int, b: int, x: int, y: int)
    requires 0 <= a <= b && 0 <= x <= y
    ensures a * x <= b * y
  {
    assert b * y - a * x == b * (y - x) + (b - a) * x;
  }

  /** int(n ** 0.5), computed exactly: the integer square root. */
  function Isqrt(n: nat): (r: nat)
    ensures r * r <= n < (r + 1) * (r + 1)
  {
    if n == 0 then 0
    else
      var s := Isqrt(n - 1);
      if (s + 1) * (s + 1) <= n then
        assert (s + 2) * (s + 2) == (s + 1) * (s + 1) + 2 * s + 3;
        s + 1
      else s
  }

  /** A solution's parts are at most the square root of c. */
  lemma PartBelowRoot(x: int, c: nat)
    requires 0 <= x && x * x <= c
    ensures x <= Isqrt(c)
  {
    if x > Isqrt(c) {
      SquareMonotone(Isqrt(c) + 1, x);
    }
  }

  /** Swapping a solution's parts gives a solution. */
  lemma Swap(a: int, b: int, c: int)
    requires IsSumOf(a, b, c)
    ensures IsSumOf(b, a, c)
  {
  }

  /** Solutions whose first part is the smaller one all lie in [left, right]. */
  ghost predicate Window(c: int, left: int, right: int) {
    forall a, b :: IsSumOf(a, b, c) && a <= b ==> left <= a && b <= right
  }

  /** A sum below c rules out left as a first part; one above c rules out right as a second part. */
  lemma TwoPointerStep(c: int, left: int, right: int)
    requires 0 <= left <= right && Window(c, left, right)
    ensures left * left + right * right < c ==> Window(c, left + 1, right)
    ensures left * left + right * right > c ==> Window(c, left, right - 1)
  {
    forall a, b | IsSumOf(a, b, c) && a <= b
      ensures left * left + right * right < c ==> left + 1 <= a
      ensures left * left + right * right > c ==> b <= right - 1
    {
      if a == left && left * left + right * right < c {
        SquareMonotone(b, right);
      }
      if b == right && left * left + right * right > c {
        SquareMonotone(a, left);
      }
    }
  }

  /** Solution: two pointers from 0 and sqrt(c) moving towards each other. */
  method TwoPointers(c: int) returns (r: bool)
    requires c >= 0
    ensures r <==> TwoSquares(c)
  {
    var left := 0;
    var right: int := Isqrt(c);
    forall a, b | IsSumOf(a, b, c) && a <= b ensures b <= right {
      SquareMonotone(a, b);
      PartBelowRoot(b, c);
    }
    while left <= right
      invariant 0 <= left && left - 1 <= right
      invariant Window(c, left, right)
      decreases right - left
    {
      var currentSum := left * left + right * right;
      if currentSum == c {
        assert IsSumOf(left, right, c);
        return true;
      }
      TwoPointerStep(c, left, right);
      if currentSum < c {
        left := left + 1;
      } else {
        right := right - 1;
      }
    }
    NoneInEmptyWindow(c, left, right);
    return false;
  }

  /** An empty window means no solution at all, since either part order can be the smaller. */
  lemma NoneInEmptyWindow(c: int, left: int, right: int)
    requires right < left && Window(c, left, right)
    ensures !TwoSquares(c)
  {
    forall a, b | IsSumOf(a, b, c) ensures false {
      if b < a {
        Swap(a, b, c);
      }
    }
  }

  /** Solution2's helper: a negative number is no square; otherwise compare with its root squared. */
  function IsPerfectSquare(n: int): (r: bool)
    ensures r <==> exists b :: IsSumOf(0, b, n)
  {
    if n < 0 then false
    else
      var root := Isqrt(n);
      RootUnique(n);
      if root * root == n then
        assert IsSumOf(0, root, n);
        true
      else
        false
  }

  /** A square's only non-negative root is its integer square root. */
  lemma RootUnique(n: nat)
    ensures forall b :: IsSumOf(0, b, n) ==> b == Isqrt(n)
  {
    forall b | IsSumOf(0, b, n) ensures b == Isqrt(n) {
      PartBelowRoot(b, n);
      if b < Isqrt(n) { SquareMonotone(b + 1, Isqrt(n)); }
    }
  }

  /** Solution2: try each first part a with a * a <= c and test whether c - a * a is a square. */
  method PerfectSquareScan(c: int) returns (r: bool)
    requires c >= 0
    ensures r <==> TwoSquares(c)
  {
    var a := 0;
    while a * a <= c
      invariant a >= 0
      invariant forall x, b :: IsSumOf(x, b, c) ==> x >= a
      decreases c - a
    {
      var bSquare := c - a * a;
      if IsPerfectSquare(bSquare) {
        ghost var b :| IsSumOf(0, b, bSquare);
        assert IsSumOf(a, b, c);
        return true;
      }
      forall x, b | IsSumOf(x, b, c) ensures x >= a + 1 {
        assert x == a ==> IsSumOf(0, b, bSquare);
      }
      a := a + 1;
    }
    forall x, b | IsSumOf(x, b, c) ensures false {
      SquareMonotone(a, x);
    }
    return false;
  }

  /** The squares of 0 .. m - 1. */
  function SquaresBelow(m: nat): (s: set<int>)
    ensures forall v :: v in s ==> exists k :: IsSumOf(0, k, v) && k < m
  {
    if m == 0 then {}
    else
      var s := SquaresBelow(m - 1);
      assert IsSumOf(0, m - 1, (m - 1) * (m - 1));
      s + {(m - 1) * (m - 1)}
  }

  /** Solution3: collect the squares up to sqrt(c), then look for one whose complement is also there. */
  method SquareSet(c: int) returns (r: bool)
    requires c >= 0
    ensures r <==> TwoSquares(c)
  {
    var maxVal := Isqrt(c);
    var squares: set<int> := {};
    for i := 0 to maxVal + 1
      invariant squares == SquaresBelow(i)
    {
      squares := squares + {i * i};
    }
    var rest := squares;
    while rest != {}
      invariant rest <= squares
      invariant forall s :: s in squares && s !in rest ==> c - s !in squares
      decreases |rest|
    {
      var square :| square in rest;
      if c - square in squares {
        ghost var a :| IsSumOf(0, a, square) && a < maxVal + 1;
        ghost var b :| IsSumOf(0, b, c - square) && b < maxVal + 1;
        assert IsSumOf(a, b, c);
        return true;
      }
      rest := rest - {square};
    }
    NoComplement(c, squares);
    return false;
  }

  /** When no square up to sqrt(c) has its complement among them, c is no sum of two squares. */
  lemma NoComplement(c: nat, squares: set<int>)
    requires squares == SquaresBelow(Isqrt(c) + 1)
    requires forall s :: s in squares ==> c - s !in squares
    ensures !TwoSquares(c)
  {
    if TwoSquares(c) {
      var a, b :| IsSumOf(a, b, c);
      SquareMonotone(0, a);
      SquareMonotone(0, b);
      PartBelowRoot(a, c);
      PartBelowRoot(b, c);
      SquareIn(a, Isqrt(c) + 1);
      SquareIn(b, Isqrt(c) + 1);
    }
  }

  /** Every square of 0 .. m - 1 is collected. */
  lemma {:induction false} SquareIn(k: int, m: nat)
    requires 0 <= k < m
    ensures k * k in SquaresBelow(m)
  {
    if k < m - 1 {
      SquareIn(k, m - 1);
    }
  }

  // ---- Solution4: the prime-factor criterion ----

  /** No number in [2, d) divides n. */
  ghost predicate NoFactorBelow(n: int, d: int) {
    forall k :: 2 <= k < d ==> n % k != 0
  }

  /** The smallest divisor of n that is at least d, given that none below d divides n. */
  function SmallestFactorFrom(n: nat, d: nat): (f: nat)
    requires 2 <= d <= n
    requires NoFactorBelow(n, d)
    ensures d <= f <= n && n % f == 0
    ensures NoFactorBelow(n, f)
    decreases n - d
  {
    if n % d == 0 then d else SmallestFactorFrom(n, d + 1)
  }

  /** The smallest prime factor of n >= 2. */
  function SmallestFactor(n: nat): (f: nat)
    requires n >= 2
    ensures 2 <= f <= n && n % f == 0
    ensures NoFactorBelow(n, f)
  {
    SmallestFactorFrom(n, 2)
  }

  /** p is prime: at least 2 and no smaller number from 2 on divides it. */
  ghost predicate Prime(p: int) {
    p >= 2 && NoFactorBelow(p, p)
  }

  /** The smallest factor of n is prime. */
  lemma SmallestFactorPrime(n: nat)
    requires n >= 2
    ensures Prime(SmallestFactor(n))
  {
    var f := SmallestFactor(n);
    forall k | 2 <= k < f ensures f % k != 0 {
      if f % k == 0 {
        RepeatedSubstring.DividesTrans(k, f, n);
      }
    }
  }

  /** How often p divides n, and what is left of n after dividing p out that often. */
  function Strip(n: nat, p: nat): (r: (nat, nat))
    requires n >= 1 && p >= 2
    ensures 1 <= r.1 <= n && r.1 % p != 0
    ensures n % p == 0 ==> r.1 < n && r.0 >= 1
    decreases n
  {
    if n % p == 0 then
      QuotientBelow(n, p);
      var r := Strip(n / p, p);
      (r.0 + 1, r.1)
    else (0, n)
  }

  /** Dividing by a divisor p >= 2 leaves a smaller positive number. */
  lemma QuotientBelow(n: nat, p: nat)
    requires n >= 1 && p >= 2 && n % p == 0
    ensures 1 <= n / p < n
  {
    var q := n / p;
    RepeatedSubstring.DivMod(n, p, q, 0);
    assert n == p * q;
    assert p * q >= 2 * q;
  }

  /**
   * The condition of Fermat's two-square theorem for n >= 1, read off the
   * factorisation by smallest prime factors: every prime factor of the form
   * 4k + 3 occurs an even number of times.
   */
  function FermatCondition(n: nat): bool
    requires n >= 1
    decreases n
  {
    if n == 1 then true
    else
      var p := SmallestFactor(n);
      var (count, rest) := Strip(n, p);
      (p % 4 != 3 || count % 2 == 0) && FermatCondition(rest)
  }

  /** A divisor of n / i divides n. */
  lemma DivisorOfQuotient(n: int, i: int, k: int)
    requires n > 0 && i > 0 && k > 0 && n % i == 0 && (n / i) % k == 0
    ensures n % k == 0
  {
    RepeatedSubstring.DivMod(n, i, n / i, 0);
    var q := n / i / k;
    RepeatedSubstring.DivMod(n / i, k, q, 0);
    assert n == k * (i * q);
    RepeatedSubstring.DivMod(n, k, i * q, 0);
  }

  /** With no divisor below i and i * i > n, an n >= 2 is its own smallest factor. */
  lemma LargeRemainderPrime(n: nat, i: nat)
    requires n >= 2 && i >= 2 && i * i > n
    requires NoFactorBelow(n, i)
    ensures SmallestFactor(n) == n
  {
    var f := SmallestFactor(n);
    if f < n {
      var q := n / f;
      RepeatedSubstring.DivMod(n, f, q, 0);
      assert n == f * q;
      assert q >= 2;
      assert n % q == 0 by {
        assert n == q * f;
        RepeatedSubstring.DivMod(n, q, f, 0);
      }
      assert f >= i && q >= i;
      ProductMono(i, f, i, q);
    }
  }

  /** Dividing i out of n keeps the factor-free range and tracks the count. */
  lemma StripStep(n: nat, i: nat, count: nat, n0: nat)
    requires n >= 1 && i >= 2 && n % i == 0 && n0 >= 1
    requires Strip(n0, i).0 == count + Strip(n, i).0 && Strip(n0, i).1 == Strip(n, i).1
    ensures n / i >= 1
    ensures Strip(n0, i).0 == count + 1 + Strip(n / i, i).0 && Strip(n0, i).1 == Strip(n / i, i).1
  {
    QuotientBelow(n, i);
    StripUnfold(n, i);
  }

  /** One division step of Strip, unfolded. */
  lemma StripUnfold(n: nat, i: nat)
    requires n >= 1 && i >= 2 && n % i == 0 && n / i >= 1
    ensures Strip(n, i) == (Strip(n / i, i).0 + 1, Strip(n / i, i).1)
  {
  }

  /** Solution4: trial division, failing on a 4k + 3 factor of odd multiplicity. */
  method Fermat(c: int) returns (r: bool)
    requires c >= 0
    ensures r <==> (c == 0 || FermatCondition(c))
  {
    if c == 0 {
      return true;
    }
    var n := c;
    var i := 2;
    while i * i <= n
      invariant 2 <= i && 1 <= n
      invariant NoFactorBelow(n, i)
      invariant FermatCondition(c) == FermatCondition(n)
      decreases n - i
    {
      ProductMono(1, i, i, i);
      ghost var n0 := n;
      var count;
      count, n := DivideOut(n, i);
      TrialStep(n0, i, count, n);
      if i % 4 == 3 && count % 2 != 0 {
        return false;
      }
      i := i + 1;
    }
    if n >= 2 {
      LargeRemainderPrime(n, i);
      PrimeCondition(n);
    }
    return n % 4 != 3;
  }

  /** A prime occurs once in itself, so the condition on it is just its residue. */
  lemma PrimeCondition(n: nat)
    requires n >= 2 && SmallestFactor(n) == n
    ensures FermatCondition(n) == (n % 4 != 3)
  {
    assert n / n == 1;
    assert Strip(1, n) == (0, 1);
    assert Strip(n, n) == (1, 1);
  }

  /** Solution4's inner loop: divide i out of n as often as it goes, counting the divisions. */
  method DivideOut(n0: nat, i: nat) returns (count: nat, n: nat)
    requires n0 >= 1 && i >= 2
    requires NoFactorBelow(n0, i)
    ensures Strip(n0, i).0 == count && Strip(n0, i).1 == n
    ensures 1 <= n <= n0
    ensures NoFactorBelow(n, i + 1)
  {
    count, n := 0, n0;
    while n % i == 0
      invariant 1 <= n <= n0
      invariant Strip(n0, i).0 == count + Strip(n, i).0 && Strip(n0, i).1 == Strip(n, i).1
      invariant NoFactorBelow(n, i)
      decreases n
    {
      StripStep(n, i, count, n0);
      QuotientBelow(n, i);
      forall k | 2 <= k < i ensures (n / i) % k != 0 {
        if (n / i) % k == 0 {
          DivisorOfQuotient(n, i, k);
        }
      }
      count := count + 1;
      n := n / i;
    }
  }

  /** One round of trial division by i peels off exactly the condition's first factor. */
  lemma TrialStep(n0: nat, i: nat, count: nat, n: nat)
    requires n0 >= 1 && i >= 2 && n >= 1 && n % i != 0
    requires i * i <= n0
    requires NoFactorBelow(n0, i)
    requires Strip(n0, i).0 == count && Strip(n0, i).1 == n
    ensures FermatCondition(n0) == ((i % 4 != 3 || count % 2 == 0) && FermatCondition(n))
  {
    if count > 0 {
      assert n0 % i == 0;
      assert n0 >= 2;
      assert SmallestFactor(n0) == i;
    } else {
      assert n == n0;
    }
  }

  /** The driver's true cases, each with its two squares. */
  lemma SampleSums()
    ensures IsSumOf(1, 2, 5) && IsSumOf(0, 2, 4) && IsSumOf(1, 1, 2)
    ensures IsSumOf(0, 1, 1) && IsSumOf(0, 0, 0) && IsSumOf(2, 2, 8)
  {
  }

  /** The criterion on the driver's primes 3, 5 and 7. */
  lemma SamplePrimes()
    ensures !FermatCondition(3) && FermatCondition(5) && !FermatCondition(7)
  {
    assert SmallestFactorFrom(3, 2) == 3;
    PrimeCondition(3);
    assert SmallestFactorFrom(5, 4) == 5;
    assert SmallestFactorFrom(5, 2) == 5;
    PrimeCondition(5);
    assert SmallestFactorFrom(7, 6) == 7;
    assert SmallestFactorFrom(7, 4) == 7;
    assert SmallestFactorFrom(7, 2) == 7;
    PrimeCondition(7);
  }

  /** The criterion on 8 = 2 * 2 * 2. */
  lemma SampleEight()
    ensures FermatCondition(8)
  {
    assert SmallestFactor(8) == 2;
    assert Strip(1, 2) == (0, 1);
    assert Strip(2, 2) == (1, 1);
    assert Strip(4, 2) == (2, 1);
    assert Strip(8, 2) == (3, 1);
  }
}

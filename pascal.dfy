// Pascal's Triangle: the first numRows rows of the triangle, row i holding
// the binomial coefficients C(i, 0) .. C(i, i). Five variants: a nested loop
// over a list of rows, a loop over the previous row, the multiplicative
// formula, a recursion and a zip comprehension.

module Pascal {

  /** The binomial coefficient, defined by Pascal's rule. */
  function Binom(n: nat, k: nat): nat
    requires k <= n
  {
    if k == 0 || k == n then 1 else Binom(n - 1, k - 1) + Binom(n - 1, k)
  }

  /** Row n of the triangle. */
  function Row(n: nat): (r: seq<int>)
    ensures |r| == n + 1
  {
    seq(n + 1, k requires 0 <= k <= n => Binom(n, k))
  }

  /** The first m rows of the triangle. */
  function Triangle(m: nat): (t: seq<seq<int>>)
    ensures |t| == m
  {
    seq(m, i requires 0 <= i < m => Row(i))
  }

  /** Row i has i + 1 entries, starts and ends with 1, and every inner entry
      is the sum of the two entries above it. */
  lemma TriangleShape(m: nat, i: nat)
    requires i < m
    ensures |Triangle(m)[i]| == i + 1
    ensures Triangle(m)[i][0] == 1 && Triangle(m)[i][i] == 1
    ensures forall j :: 1 <= j < i ==>
      Triangle(m)[i][j] == Triangle(m)[i - 1][j - 1] + Triangle(m)[i - 1][j]
  {
  }

  /** Every entry is at least 1. */
  lemma {:induction false} BinomPositive(n: nat, k: nat)
    requires k <= n
    ensures Binom(n, k) >= 1
    decreases n
  {
    if k != 0 && k != n {
      BinomPositive(n - 1, k - 1);
    }
  }

  /** The triangle is symmetric: C(n, k) == C(n, n - k). */
  lemma {:induction false} BinomSymmetric(n: nat, k: nat)
    requires k <= n
    ensures Binom(n, k) == Binom(n, n - k)
    decreases n
  {
    if k != 0 && k != n {
      BinomSymmetric(n - 1, k - 1);
      BinomSymmetric(n - 1, k);
    }
  }

  /** The arithmetic of one absorption step, on plain integers. */
  lemma AbsorbStep(n: int, k: int, c: int, d: int, e1: int, e2: int)
    requires k * d == (n - 1) * e2 && (k - 1) * c == (n - 1) * e1 && c == e1 + e2
    ensures k * (c + d) == n * c
  {
    calc {
      k * (c + d);
      (k - 1) * c + c + k * d;
      (n - 1) * e1 + c + (n - 1) * e2;
      (n - 1) * (e1 + e2) + c;
      n * c;
    }
  }

  /** Absorption: k * C(n, k) == n * C(n - 1, k - 1). */
  lemma {:induction false} Absorb(n: nat, k: nat)
    requires 1 <= k <= n
    ensures k * Binom(n, k) == n * Binom(n - 1, k - 1)
    decreases n
  {
    if k < n {
      var c, d := Binom(n - 1, k - 1), Binom(n - 1, k);
      assert Binom(n, k) == c + d;
      Absorb(n - 1, k);
      var e2 := Binom(n - 2, k - 1);
      assert k * d == (n - 1) * e2;
      if k == 1 {
        assert c == 1 && e2 == 1;
      } else {
        Absorb(n - 1, k - 1);
        var e1 := Binom(n - 2, k - 2);
        assert c == e1 + e2;
        AbsorbStep(n, k, c, d, e1, e2);
      }
    }
  }

  /** The step Solution3 takes: C(n, k) == C(n, k - 1) * (n - k + 1) / k, and
      the division is exact. */
  lemma Recurrence(n: nat, k: nat)
    requires 1 <= k <= n
    ensures Binom(n, k - 1) * (n - k + 1) == k * Binom(n, k)
    ensures Binom(n, k - 1) * (n - k + 1) / k == Binom(n, k)
  {
    var a, b, m := Binom(n, k - 1), Binom(n, k), n - k + 1;
    var c, c' := Binom(n - 1, k - 1), Binom(n - 1, n - k);
    Absorb(n, k);
    assert k * b == n * c;
    BinomSymmetric(n, k - 1);
    assert a == Binom(n, m);
    Absorb(n, m);
    assert m * a == n * c';
    BinomSymmetric(n - 1, k - 1);
    assert c == c';
    assert a * m == k * b;
    DivExact(b, k);
  }

  /** Dividing k * b by a positive k gives b back. */
  lemma DivExact(b: int, k: int)
    requires k > 0
    ensures k * b / k == b
  {
    var q, r := k * b / k, k * b % k;
    assert k * (b - q) == r && 0 <= r < k;
    if b - q >= 1 {
      assert false;
    } else if b - q <= -1 {
      assert false;
    }
  }

  /** Solution: each new row starts as all ones and its inner entries are
      summed from the row above. */
  method Generate(numRows: nat) returns (result: seq<seq<int>>)
    ensures result == Triangle(numRows)
  {
    result := [];
    for i := 0 to numRows
      invariant result == Triangle(i)
    {
      var row := seq(i + 1, _ => 1);
      var j := 1;
      while j < i
        invariant 1 <= j <= if i == 0 then 1 else i
        invariant |row| == i + 1 && row[0] == 1
        invariant forall k :: 1 <= k < j ==> row[k] == Binom(i, k)
        invariant forall k :: j <= k <= i ==> row[k] == 1
      {
        row := row[j := result[i - 1][j - 1] + result[i - 1][j]];
        j := j + 1;
      }
      assert row == Row(i);
      result := result + [row];
    }
  }

  /** The row after prev: 1, the sums of neighbouring pairs, 1. */
  function NextRow(prev: seq<int>): (r: seq<int>)
    requires |prev| >= 1
    ensures |r| == |prev| + 1
  {
    [1] + seq(|prev| - 1, j requires 0 <= j < |prev| - 1 => prev[j] + prev[j + 1]) + [1]
  }

  /** Building on row n gives row n + 1. */
  lemma NextRowIsRow(n: nat)
    ensures NextRow(Row(n)) == Row(n + 1)
  {
    var r, s := NextRow(Row(n)), Row(n + 1);
    forall k | 0 <= k <= n + 1 ensures r[k] == s[k] {
      if 0 < k <= n {
        assert r[k] == Row(n)[k - 1] + Row(n)[k];
        assert s[k] == Binom(n, k - 1) + Binom(n, k);
      }
    }
  }

  /** Solution2: start from [[1]] and append the sums of each pair of the last
      row, framed by ones. */
  method GenerateFromLast(numRows: nat) returns (result: seq<seq<int>>)
    ensures result == Triangle(numRows)
  {
    if numRows == 0 {
      return [];
    }
    result := [[1]];
    assert Row(0) == [1];
    for i := 1 to numRows
      invariant result == Triangle(i)
    {
      var prevRow := result[|result| - 1];
      var newRow := [1];
      for j := 0 to |prevRow| - 1
        invariant |newRow| == j + 1 && newRow[0] == 1
        invariant forall k :: 1 <= k <= j ==> newRow[k] == prevRow[k - 1] + prevRow[k]
      {
        newRow := newRow + [prevRow[j] + prevRow[j + 1]];
      }
      newRow := newRow + [1];
      assert newRow == NextRow(prevRow);
      NextRowIsRow(i - 1);
      result := result + [newRow];
    }
  }

  /** Solution3: each row from the multiplicative formula, with exact
      integer division. */
  method GenerateByFormula(numRows: nat) returns (result: seq<seq<int>>)
    ensures result == Triangle(numRows)
  {
    result := [];
    for n := 0 to numRows
      invariant result == Triangle(n)
    {
      var row := [1];
      for k := 1 to n + 1
        invariant |row| == k
        invariant forall j :: 0 <= j < k ==> row[j] == Binom(n, j)
      {
        Recurrence(n, k);
        row := row + [row[|row| - 1] * (n - k + 1) / k];
      }
      assert row == Row(n);
      result := result + [row];
    }
  }

  /** Solution4: the first numRows - 1 rows by recursion, then one more row.
      Only numRows == 1 ends the recursion. */
  function Recursive(numRows: nat): (t: seq<seq<int>>)
    requires numRows >= 1
    ensures t == Triangle(numRows)
  {
    if numRows == 1 then assert Row(0) == [1]; [[1]]
    else
      var result := Recursive(numRows - 1);
      NextRowIsRow(numRows - 2);
      result + [NextRow(result[|result| - 1])]
  }

  /** Solution5 as written: [[1]] and then numRows - 1 zipped rows. */
  function Zipped(numRows: nat): seq<seq<int>>
  {
    if numRows <= 1 then [[1]]
    else
      var result := Zipped(numRows - 1);
      result + [NextRow(result[|result| - 1])]
  }

  /** From one row on, Solution5 builds the triangle. */
  lemma {:induction false} ZippedTriangle(numRows: nat)
    requires numRows >= 1
    ensures Zipped(numRows) == Triangle(numRows)
  {
    if numRows == 1 {
      assert Row(0) == [1];
    } else {
      ZippedTriangle(numRows - 1);
      NextRowIsRow(numRows - 2);
    }
  }

  /** For zero rows Solution5 still returns [[1]] where the triangle is empty. */
  lemma ZippedZeroRows()
    ensures Zipped(0) == [[1]] && Triangle(0) == []
    ensures Zipped(0) != Triangle(0)
  {
  }

  /** numRows = 5 gives [[1], [1, 1], [1, 2, 1], [1, 3, 3, 1], [1, 4, 6, 4, 1]]. */
  lemma SampleFive()
    ensures Triangle(5) == [[1], [1, 1], [1, 2, 1], [1, 3, 3, 1], [1, 4, 6, 4, 1]]
  {
    assert Row(0) == [1];
    assert Row(1) == [1, 1];
    assert Row(2) == [1, 2, 1];
    assert Row(3) == [1, 3, 3, 1];
    assert Row(4) == [1, 4, 6, 4, 1];
  }
}

/** The similarity score the matcher compares against its threshold. The matcher takes the
    scorer as a parameter (a `Scorer`, any function into 0..100); IndelRatio is the standard
    normalised indel ratio, 100 * (1 - d / (|a| + |b|)) with d the insert/delete edit distance,
    rounded half to even as Python's round() does. */
module Similarity {

  /** A score on the 0..100 scale. */
  type Score = x: int | 0 <= x <= 100

  /** What the matcher needs of a similarity function: a score for every pair of strings. */
  type Scorer = (string, string) -> Score

  function Max(x: nat, y: nat): nat {
    if x < y then y else x
  }

  /** Length of a longest common subsequence of a and b. */
  function Lcs(a: string, b: string): (n: nat)
    ensures n <= |a| && n <= |b|
    decreases |a| + |b|
  {
    if a == [] || b == [] then 0
    else if a[0] == b[0] then 1 + Lcs(a[1..], b[1..])
    else Max(Lcs(a[1..], b), Lcs(a, b[1..]))
  }

  /** Insert/delete edit distance: what is not common to the two strings. */
  function IndelDistance(a: string, b: string): (d: nat)
    ensures d <= |a| + |b|
  {
    |a| + |b| - 2 * Lcs(a, b)
  }

  /** n / m rounded to the nearest integer, a tie going to the even neighbour. */
  function RoundHalfEven(n: nat, m: nat): (q: int)
    requires m > 0
    ensures -(m as int) <= 2 * (n - q * m) <= m
    ensures 2 * (n - q * m) == m || 2 * (n - q * m) == -(m as int) ==> q % 2 == 0
  {
    var q0, r := n / m, n % m;
    assert n == q0 * m + r;
    if 2 * r > m || (2 * r == m && q0 % 2 == 1) then
      assert (q0 + 1) * m == q0 * m + m;
      q0 + 1
    else q0
  }

  lemma QuotientAtMost100(n: nat, m: nat)
    requires m > 0 && n <= 100 * m
    ensures n / m <= 100
    ensures n / m == 100 ==> n % m == 0
  {
    var q, r := n / m, n % m;
    assert n == q * m + r;
    if q == 100 {
      assert q * m == 100 * m;
    }
  }

  /** The ratio: 100 for two identical strings, lower as the indel distance grows. */
  function IndelRatio(a: string, b: string): (score: Score)
  {
    var total := |a| + |b|;
    if total == 0 then 100
    else
      var same := total - IndelDistance(a, b);
      QuotientAtMost100(100 * same, total);
      var q := RoundHalfEven(100 * same, total);
      assert q == (100 * same) / total || q == (100 * same) / total + 1;
      q
  }

  lemma {:induction false} LcsSelf(a: string)
    ensures Lcs(a, a) == |a|
    decreases |a|
  {
    if a != [] {
      LcsSelf(a[1..]);
    }
  }

  lemma {:induction false} LcsSymmetric(a: string, b: string)
    ensures Lcs(a, b) == Lcs(b, a)
    decreases |a| + |b|
  {
    if a != [] && b != [] {
      if a[0] == b[0] {
        LcsSymmetric(a[1..], b[1..]);
      } else {
        LcsSymmetric(a[1..], b);
        LcsSymmetric(a, b[1..]);
      }
    }
  }

  /** A string scores 100 against itself. */
  lemma IndelRatioSelf(a: string)
    ensures IndelRatio(a, a) == 100
  {
    LcsSelf(a);
    var m := |a| + |a|;
    if m > 0 {
      assert IndelDistance(a, a) == 0;
      RoundWhole(m);
    }
  }

  lemma RoundWhole(m: nat)
    requires m > 0
    ensures RoundHalfEven(100 * m, m) == 100
  {
    DivUnique(100 * m, m, 100, 0);
  }

  lemma MulSign(d: int, m: nat)
    requires m > 0
    ensures d >= 1 ==> d * m >= m
    ensures d <= -1 ==> d * m <= -(m as int)
  {
  }

  /** Quotient and remainder are the only pair that recombines to n. */
  lemma DivUnique(n: nat, m: nat, q: int, r: int)
    requires m > 0 && 0 <= r < m && n == q * m + r
    ensures n / m == q && n % m == r
  {
    var q', r' := n / m, n % m;
    var d := q - q';
    assert d * m == r' - r;
    MulSign(d, m);
  }

  /** The score does not depend on the order of its arguments. */
  lemma IndelRatioSymmetric(a: string, b: string)
    ensures IndelRatio(a, b) == IndelRatio(b, a)
  {
    LcsSymmetric(a, b);
  }
}

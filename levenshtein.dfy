/**
 * Edit distance between two strings, as `levenshtein` computes it for the similarity
 * test of answers: `Dist` is the recurrence on prefixes, `ComputeLevenshtein` fills the table row by row.
 */
module Levenshtein {

  /** 1 when the characters differ, 0 when they are equal: the substitution cost. */
  function Cost(x: char, y: char): int {
    if x == y then 0 else 1
  }

  function Min3(x: int, y: int, z: int): (r: int)
  {
    if x <= y && x <= z then x else if y <= z then y else z
  }

  lemma Min3Swap(x: int, y: int, z: int)
    ensures Min3(x, y, z) == Min3(y, x, z)
  {
  }

  /** The edit distance between the prefixes `a[..i]` and `b[..j]`: deletions, insertions and substitutions, each costing 1. */
  function Dist(a: string, b: string, i: nat, j: nat): int
    requires i <= |a| && j <= |b|
    decreases i + j
  {
    if i == 0 then j
    else if j == 0 then i
    else Min3(Dist(a, b, i - 1, j) + 1, Dist(a, b, i, j - 1) + 1, Dist(a, b, i - 1, j - 1) + Cost(a[i - 1], b[j - 1]))
  }

  function EditDistance(a: string, b: string): int {
    Dist(a, b, |a|, |b|)
  }

  /** `levenshtein(a, b)`: the `(|a| + 1) x (|b| + 1)` table, first column and row, then every cell from its three neighbours. */
  method ComputeLevenshtein(a: string, b: string) returns (d: int)
    ensures d == EditDistance(a, b)
  {
    var dp := new int[|a| + 1, |b| + 1]((_, _) => 0);
    for i := 0 to |a| + 1
      invariant forall p :: 0 <= p < i ==> dp[p, 0] == p
    {
      dp[i, 0] := i;
    }
    for j := 0 to |b| + 1
      invariant forall p :: 0 <= p <= |a| ==> dp[p, 0] == p
      invariant forall q :: 0 <= q < j ==> dp[0, q] == q
    {
      dp[0, j] := j;
    }
    for i := 1 to |a| + 1
      invariant forall p, q {:trigger dp[p, q]} :: 0 <= p < i && 0 <= q <= |b| ==> dp[p, q] == Dist(a, b, p, q)
      invariant forall p :: i <= p <= |a| ==> dp[p, 0] == p
    {
      FillRow(a, b, dp, i);
    }
    d := dp[|a|, |b|];
  }

  /** Row `i` of the table, left to right, from the finished row above it. */
  method FillRow(a: string, b: string, dp: array2<int>, i: nat)
    requires dp.Length0 == |a| + 1 && dp.Length1 == |b| + 1 && 1 <= i <= |a|
    requires forall p, q {:trigger dp[p, q]} :: 0 <= p < i && 0 <= q <= |b| ==> dp[p, q] == Dist(a, b, p, q)
    requires forall p :: i <= p <= |a| ==> dp[p, 0] == p
    modifies dp
    ensures forall p, q {:trigger dp[p, q]} :: 0 <= p <= i && 0 <= q <= |b| ==> dp[p, q] == Dist(a, b, p, q)
    ensures forall p :: i < p <= |a| ==> dp[p, 0] == p
  {
    for j := 1 to |b| + 1
      invariant forall p, q {:trigger dp[p, q]} :: 0 <= p < i && 0 <= q <= |b| ==> dp[p, q] == Dist(a, b, p, q)
      invariant forall p :: i <= p <= |a| ==> dp[p, 0] == p
      invariant forall q {:trigger dp[i, q]} :: 0 <= q < j ==> dp[i, q] == Dist(a, b, i, q)
    {
      var cost := if a[i - 1] == b[j - 1] then 0 else 1;
      assert dp[i - 1, j] == Dist(a, b, i - 1, j) && dp[i - 1, j - 1] == Dist(a, b, i - 1, j - 1);
      assert dp[i, j - 1] == Dist(a, b, i, j - 1);
      dp[i, j] := Min3(dp[i - 1, j] + 1, dp[i, j - 1] + 1, dp[i - 1, j - 1] + cost);
      assert dp[i, j] == Dist(a, b, i, j);
    }
  }

  /** The distance is at most the longer prefix: substitute along the shorter, then insert or delete the rest. */
  lemma {:induction false} DistUpperBound(a: string, b: string, i: nat, j: nat)
    requires i <= |a| && j <= |b|
    ensures Dist(a, b, i, j) <= if i <= j then j else i
    decreases i + j
  {
    if i > 0 && j > 0 {
      DistUpperBound(a, b, i - 1, j - 1);
    }
  }

  /** The distance is at least the difference in length: each edit changes the length by at most one. */
  lemma {:induction false} DistLowerBound(a: string, b: string, i: nat, j: nat)
    requires i <= |a| && j <= |b|
    ensures Dist(a, b, i, j) >= if i <= j then j - i else i - j
    decreases i + j
  {
    if i > 0 && j > 0 {
      DistLowerBound(a, b, i - 1, j);
      DistLowerBound(a, b, i, j - 1);
      DistLowerBound(a, b, i - 1, j - 1);
    }
  }

  /** Equal prefixes are at distance zero: substitute every character by itself. */
  lemma {:induction false} EqualPrefixesDistZero(a: string, b: string, i: nat, j: nat)
    requires i <= |a| && j <= |b| && a[..i] == b[..j]
    ensures Dist(a, b, i, j) == 0
    decreases i
  {
    assert |a[..i]| == i && |b[..j]| == j;
    if i > 0 {
      assert a[..i - 1] == a[..i][..i - 1] && b[..j - 1] == b[..j][..j - 1];
      assert a[i - 1] == a[..i][i - 1] && b[j - 1] == b[..j][j - 1];
      EqualPrefixesDistZero(a, b, i - 1, j - 1);
      DistLowerBound(a, b, i - 1, j);
      DistLowerBound(a, b, i, j - 1);
    }
  }

  /** A cell at distance zero comes from the diagonal with matching characters. */
  lemma ZeroStep(a: string, b: string, i: nat, j: nat)
    requires 0 < i <= |a| && 0 < j <= |b| && Dist(a, b, i, j) == 0
    ensures Dist(a, b, i - 1, j - 1) == 0 && a[i - 1] == b[j - 1]
  {
    DistLowerBound(a, b, i - 1, j);
    DistLowerBound(a, b, i, j - 1);
    DistLowerBound(a, b, i - 1, j - 1);
  }

  /** Distance zero leaves no edit to make: the prefixes are equal. */
  lemma {:induction false} DistZeroEqualPrefixes(a: string, b: string, i: nat, j: nat)
    requires i <= |a| && j <= |b| && Dist(a, b, i, j) == 0
    ensures a[..i] == b[..j]
    decreases i
  {
    if i == 0 || j == 0 {
      assert |a[..i]| == i && |b[..j]| == j;
    } else {
      ZeroStep(a, b, i, j);
      DistZeroEqualPrefixes(a, b, i - 1, j - 1);
      assert a[..i] == a[..i - 1] + [a[i - 1]];
      assert b[..j] == b[..j - 1] + [b[j - 1]];
    }
  }

  /** Distance zero exactly when the two prefixes are the same string. */
  lemma DistZeroIffEqual(a: string, b: string, i: nat, j: nat)
    requires i <= |a| && j <= |b|
    ensures Dist(a, b, i, j) == 0 <==> a[..i] == b[..j]
  {
    if Dist(a, b, i, j) == 0 {
      DistZeroEqualPrefixes(a, b, i, j);
    }
    if a[..i] == b[..j] {
      EqualPrefixesDistZero(a, b, i, j);
    }
  }

  /** Swapping the strings does not change the distance. */
  lemma {:induction false} DistSymmetric(a: string, b: string, i: nat, j: nat)
    requires i <= |a| && j <= |b|
    ensures Dist(a, b, i, j) == Dist(b, a, j, i)
    decreases i + j
  {
    if i > 0 && j > 0 {
      DistSymmetric(a, b, i - 1, j);
      DistSymmetric(a, b, i, j - 1);
      DistSymmetric(a, b, i - 1, j - 1);
      Min3Swap(Dist(a, b, i - 1, j) + 1, Dist(a, b, i, j - 1) + 1, Dist(a, b, i - 1, j - 1) + Cost(a[i - 1], b[j - 1]));
    }
  }

  /** The whole-string facts that answer grading relies on. */
  lemma EditDistanceFacts(a: string, b: string)
    ensures EditDistance(a, "") == |a| && EditDistance("", b) == |b|
    ensures EditDistance(a, b) == EditDistance(b, a)
    ensures EditDistance(a, b) == 0 <==> a == b
    ensures (if |a| <= |b| then |b| - |a| else |a| - |b|) <= EditDistance(a, b)
    ensures EditDistance(a, b) <= if |a| <= |b| then |b| else |a|
  {
    DistSymmetric(a, b, |a|, |b|);
    DistZeroIffEqual(a, b, |a|, |b|);
    assert a[..|a|] == a && b[..|b|] == b;
    DistLowerBound(a, b, |a|, |b|);
    DistUpperBound(a, b, |a|, |b|);
  }
}

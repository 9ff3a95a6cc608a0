/**
  Edit distance as used by the fuzzy tier. `Dist` is the textbook
  recurrence (insert, delete and substitute each cost one) over prefixes,
  indexed as the source's table is: row `i` ranges over `b`, column `j`
  over `a`. `Levenshtein` is the source's table-filling algorithm.
*/
module Levenshtein {

  function Min3(x: nat, y: nat, z: nat): (m: nat)
    ensures m <= x && m <= y && m <= z
    ensures m == x || m == y || m == z
  {
    if x <= y && x <= z then x else if y <= z then y else z
  }

  /** Edit distance between `a[..j]` and `b[..i]`. */
  function Dist(a: string, b: string, i: nat, j: nat): nat
    requires i <= |b| && j <= |a|
    decreases i + j
  {
    if i == 0 then j
    else if j == 0 then i
    else Min3(Dist(a, b, i - 1, j - 1) + (if b[i - 1] == a[j - 1] then 0 else 1),
              Dist(a, b, i, j - 1) + 1,
              Dist(a, b, i - 1, j) + 1)
  }

  function EditDistance(a: string, b: string): nat {
    Dist(a, b, |b|, |a|)
  }

  /** Dropping the last character of `b`'s prefix changes the distance by at most one. */
  lemma {:induction false} DistDropRow(a: string, b: string, i: nat, j: nat)
    requires 1 <= i <= |b| && j <= |a|
    ensures Dist(a, b, i - 1, j) <= Dist(a, b, i, j) + 1
    decreases j
  {
    if j > 0 {
      DistDropRow(a, b, i, j - 1);
    }
  }

  /** Dropping the last character of `a`'s prefix changes the distance by at most one. */
  lemma {:induction false} DistDropColumn(a: string, b: string, i: nat, j: nat)
    requires i <= |b| && 1 <= j <= |a|
    ensures Dist(a, b, i, j - 1) <= Dist(a, b, i, j) + 1
    decreases i
  {
    if i > 0 {
      DistDropColumn(a, b, i - 1, j);
    }
  }

  /**
    The source takes the diagonal cell outright when the two characters
    agree; this is sound because the other two candidates are never smaller.
  */
  lemma DiagonalWhenEqual(a: string, b: string, i: nat, j: nat)
    requires 1 <= i <= |b| && 1 <= j <= |a|
    requires b[i - 1] == a[j - 1]
    ensures Dist(a, b, i, j) == Dist(a, b, i - 1, j - 1)
  {
    DistDropRow(a, b, i, j - 1);
    DistDropColumn(a, b, i - 1, j);
  }

  /** The table as the source initialises it: first row `j`, first column `i`, zero elsewhere. */
  function InitialCell(i: nat, j: nat): nat {
    if i == 0 then j else if j == 0 then i else 0
  }

  /** `levenshtein(a, b)`: fills `dp[i][j]` row by row and returns `dp[|b|][|a|]`. */
  method Levenshtein(a: string, b: string) returns (d: nat)
    ensures d == EditDistance(a, b)
  {
    var dp := new nat[|b| + 1, |a| + 1]((i, j) requires 0 <= i && 0 <= j => InitialCell(i, j));
    var i := 1;
    while i <= |b|
      invariant 1 <= i <= |b| + 1
      invariant forall ii, jj {:trigger dp[ii, jj]} :: 0 <= ii < i && 0 <= jj <= |a| ==> dp[ii, jj] == Dist(a, b, ii, jj)
      invariant forall ii :: i <= ii <= |b| ==> dp[ii, 0] == ii
    {
      var j := 1;
      while j <= |a|
        invariant 1 <= j <= |a| + 1
        invariant forall ii, jj {:trigger dp[ii, jj]} :: 0 <= ii < i && 0 <= jj <= |a| ==> dp[ii, jj] == Dist(a, b, ii, jj)
        invariant forall jj {:trigger dp[i, jj]} :: 0 <= jj < j ==> dp[i, jj] == Dist(a, b, i, jj)
        invariant forall ii :: i < ii <= |b| ==> dp[ii, 0] == ii
      {
        var diag, left, up := dp[i - 1, j - 1], dp[i, j - 1], dp[i - 1, j];
        assert diag == Dist(a, b, i - 1, j - 1) && left == Dist(a, b, i, j - 1) && up == Dist(a, b, i - 1, j);
        var cell;
        if b[i - 1] == a[j - 1] {
          DiagonalWhenEqual(a, b, i, j);
          cell := diag;
        } else {
          cell := Min3(diag + 1, left + 1, up + 1);
        }
        assert cell == Dist(a, b, i, j);
        dp[i, j] := cell;
        j := j + 1;
      }
      i := i + 1;
    }
    d := dp[|b|, |a|];
  }

  lemma {:induction false} DistLowerBound(a: string, b: string, i: nat, j: nat)
    requires i <= |b| && j <= |a|
    ensures i - j <= Dist(a, b, i, j) && j - i <= Dist(a, b, i, j)
    decreases i + j
  {
    if i > 0 && j > 0 {
      DistLowerBound(a, b, i - 1, j - 1);
      DistLowerBound(a, b, i, j - 1);
      DistLowerBound(a, b, i - 1, j);
    }
  }

  lemma {:induction false} DistUpperBound(a: string, b: string, i: nat, j: nat)
    requires i <= |b| && j <= |a|
    ensures Dist(a, b, i, j) <= if i <= j then j else i
    decreases i + j
  {
    if i > 0 && j > 0 {
      DistUpperBound(a, b, i - 1, j - 1);
    }
  }

  lemma {:induction false} DistSymmetric(a: string, b: string, i: nat, j: nat)
    requires i <= |b| && j <= |a|
    ensures Dist(a, b, i, j) == Dist(b, a, j, i)
    decreases i + j
  {
    if i > 0 && j > 0 {
      DistSymmetric(a, b, i - 1, j - 1);
      DistSymmetric(a, b, i, j - 1);
      DistSymmetric(a, b, i - 1, j);
    }
  }

  lemma {:induction false} DistSelf(a: string, i: nat)
    requires i <= |a|
    ensures Dist(a, a, i, i) == 0
    decreases i
  {
    if i > 0 {
      DistSelf(a, i - 1);
    }
  }

  /** The length difference bounds the distance from below, the longer length from above. */
  lemma EditDistanceBounds(a: string, b: string)
    ensures |a| - |b| <= EditDistance(a, b) && |b| - |a| <= EditDistance(a, b)
    ensures EditDistance(a, b) <= if |a| <= |b| then |b| else |a|
  {
    DistLowerBound(a, b, |b|, |a|);
    DistUpperBound(a, b, |b|, |a|);
  }

  lemma EditDistanceIdentity(a: string)
    ensures EditDistance(a, a) == 0
    ensures EditDistance(a, "") == |a| && EditDistance("", a) == |a|
  {
    DistSelf(a, |a|);
  }

  lemma EditDistanceSymmetric(a: string, b: string)
    ensures EditDistance(a, b) == EditDistance(b, a)
  {
    DistSymmetric(a, b, |b|, |a|);
  }
}

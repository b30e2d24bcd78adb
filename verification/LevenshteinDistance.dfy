/**
 The Levenshtein distance in one row, overwritten in place
 (flt/string/levenshtein_distance.hpp).
*/
module LevenshteinRow {
  import opened Levenshtein

  /** `v` holds column `i` of the table up to `j`, and column `i - 1` from there on. */
  ghost predicate Row<A, B>(v: seq<nat>, a: seq<A>, b: seq<B>, eq: Comparison<A, B>, i: nat, j: nat)
    requires |v| == |a| + 1 && 0 < i <= |b| && j <= |a| + 1
  {
    && (forall k :: 0 <= k < j ==> v[k] == Dist(a, b, eq, k, i))
    && (forall k :: j <= k <= |a| ==> v[k] == Dist(a, b, eq, k, i - 1))
  }

  method LevenshteinDistanceOrdered<A, B>(lhs: seq<A>, rhs: seq<B>, eq: Comparison<A, B>) returns (d: nat)
    requires |lhs| <= |rhs|
    ensures d == Distance(lhs, rhs, eq)
  {
    var v := new nat[|lhs| + 1](k => k);
    var i := 1;
    while i <= |rhs|
      invariant 1 <= i <= |rhs| + 1
      invariant forall k :: 0 <= k <= |lhs| ==> v[k] == Dist(lhs, rhs, eq, k, i - 1)
    {
      v[0] := i;
      FillRow(v, lhs, rhs, eq, i);
      i := i + 1;
    }
    d := v[|lhs|];
  }

  /** The inner loop: the column of one element of the right-hand side. */
  method FillRow<A, B>(v: array<nat>, lhs: seq<A>, rhs: seq<B>, eq: Comparison<A, B>, i: nat)
    requires v.Length == |lhs| + 1 && 0 < i <= |rhs|
    requires Row(v[..], lhs, rhs, eq, i, 1)
    modifies v
    ensures Row(v[..], lhs, rhs, eq, i, |lhs| + 1)
  {
    var j, lastDiag := 1, i - 1;
    while j <= |lhs|
      invariant 1 <= j <= |lhs| + 1
      invariant lastDiag == Dist(lhs, rhs, eq, j - 1, i - 1)
      invariant Row(v[..], lhs, rhs, eq, i, j)
    {
      hide Dist;
      DistStep(lhs, rhs, eq, j, i);
      var previousDiag := v[j];
      v[j] := Min3(v[j] + 1, v[j - 1] + 1, lastDiag + Mismatch(lhs[j - 1], rhs[i - 1], eq));
      Min3Flip(Dist(lhs, rhs, eq, j, i - 1) + 1, Dist(lhs, rhs, eq, j - 1, i) + 1,
               Dist(lhs, rhs, eq, j - 1, i - 1) + Mismatch(lhs[j - 1], rhs[i - 1], eq));
      lastDiag := previousDiag;
      j := j + 1;
    }
  }

  /** Puts the shorter sequence first. The comparison then gets its arguments the other
      way round, so the result is the distance under the flipped comparison. */
  method LevenshteinDistance<T>(lhs: seq<T>, rhs: seq<T>, eq: Comparison<T, T>) returns (d: nat)
    ensures d == if |lhs| <= |rhs| then Distance(lhs, rhs, eq) else Distance(lhs, rhs, Flip(eq))
  {
    if |lhs| <= |rhs| {
      d := LevenshteinDistanceOrdered(lhs, rhs, eq);
    } else {
      d := LevenshteinDistanceOrdered(rhs, lhs, eq);
      DistFlip(rhs, lhs, eq, |rhs|, |lhs|);
    }
  }

  /** A comparison that treats the elements of the two sequences alike in both orders
      makes the swap harmless. */
  lemma SwapIsHarmless<T>(lhs: seq<T>, rhs: seq<T>, eq: Comparison<T, T>)
    requires forall x, y :: x in lhs && y in rhs ==> eq(x, y) == eq(y, x)
    ensures Distance(lhs, rhs, Flip(eq)) == Distance(lhs, rhs, eq)
  {
    DistSame(lhs, rhs, eq, Flip(eq), |lhs|, |rhs|);
  }

  lemma TwoAgainstOne<T>(x: T, y: T, eq: Comparison<T, T>)
    ensures Distance([x, x], [y], eq) == if eq(x, y) then 1 else 2
  {
    DistStep([x, x], [y], eq, 1, 1);
    DistStep([x, x], [y], eq, 2, 1);
  }

  /** The swap never changes a distance exactly if the comparison is symmetric. */
  lemma SwapHarmlessIffSymmetric<T(!new)>(eq: Comparison<T, T>)
    ensures (forall x, y :: eq(x, y) == eq(y, x))
       <==> forall lhs, rhs :: |lhs| > |rhs| ==> Distance(lhs, rhs, Flip(eq)) == Distance(lhs, rhs, eq)
  {
    if forall x, y :: eq(x, y) == eq(y, x) {
      forall lhs, rhs | |lhs| > |rhs| ensures Distance(lhs, rhs, Flip(eq)) == Distance(lhs, rhs, eq) {
        SwapIsHarmless(lhs, rhs, eq);
      }
    } else {
      var x, y :| eq(x, y) != eq(y, x);
      TwoAgainstOne(x, y, eq);
      TwoAgainstOne(x, y, Flip(eq));
      assert |[x, x]| > |[y]|;
      assert Distance([x, x], [y], Flip(eq)) != Distance([x, x], [y], eq);
    }
  }
}

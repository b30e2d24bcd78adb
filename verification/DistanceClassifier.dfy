/**
 Splitting sorted distances into an inner and an outer class by moving a cutoff to the
 middle between the two class means (flt/clustering/distance_classifier.hpp).
*/
module DistanceClassifier {

  datatype Classification = TooFewValues | IdenticalValues | Threshold(value: real)

  predicate Sorted(a: seq<real>) {
    forall i, j :: 0 <= i <= j < |a| ==> a[i] <= a[j]
  }

  function Sum(a: seq<real>, lo: nat, hi: nat): real
    requires lo <= hi <= |a|
  {
    if lo == hi then 0.0 else Sum(a, lo, hi - 1) + a[hi - 1]
  }

  function Mean(a: seq<real>, lo: nat, hi: nat): real
    requires lo < hi <= |a|
  {
    Sum(a, lo, hi) / (hi - lo) as real
  }

  function Square(x: real): real {
    x * x
  }

  /** Sum of squared distances from `x`. */
  ghost function Squares(a: seq<real>, lo: nat, hi: nat, x: real): real
    requires lo <= hi <= |a|
  {
    if lo == hi then 0.0 else Squares(a, lo, hi - 1, x) + Square(a[hi - 1] - x)
  }

  /** A split leaves both classes non-empty. */
  predicate IsSplit(a: seq<real>, p: nat) {
    0 < p < |a|
  }

  function Cutoff(a: seq<real>, p: nat): real
    requires IsSplit(a, p)
  {
    (Mean(a, 0, p) + Mean(a, p, |a|)) / 2.0
  }

  /** Squared deviations within the two classes. */
  ghost function Deviation(a: seq<real>, p: nat): real
    requires IsSplit(a, p)
  {
    Squares(a, 0, p, Mean(a, 0, p)) + Squares(a, p, |a|, Mean(a, p, |a|))
  }

  /** The values on the two sides differ. */
  predicate HasGap(a: seq<real>, p: nat) {
    IsSplit(a, p) && a[p - 1] < a[p]
  }

  /** The cutoff of the split is between its classes. */
  predicate Stable(a: seq<real>, p: nat) {
    IsSplit(a, p) && a[p - 1] <= Cutoff(a, p) < a[p]
  }

  // ------------------------------------------------------------------------- searches

  /** First position not below `x`. */
  function LowerBound(a: seq<real>, lo: nat, hi: nat, x: real): (i: nat)
    requires lo <= hi <= |a|
    ensures lo <= i <= hi && (forall j :: lo <= j < i ==> a[j] < x) && (i < hi ==> a[i] >= x)
    decreases hi - lo
  {
    if lo == hi || a[lo] >= x then lo else LowerBound(a, lo + 1, hi, x)
  }

  /** First position above `x`. */
  function UpperBound(a: seq<real>, lo: nat, hi: nat, x: real): (i: nat)
    requires lo <= hi <= |a|
    ensures lo <= i <= hi && (forall j :: lo <= j < i ==> a[j] <= x) && (i < hi ==> a[i] > x)
    decreases hi - lo
  {
    if lo == hi || a[lo] > x then lo else UpperBound(a, lo + 1, hi, x)
  }

  lemma UpperBoundMonotone(a: seq<real>, x: real, y: real)
    requires Sorted(a) && x <= y
    ensures UpperBound(a, 0, |a|, x) <= UpperBound(a, 0, |a|, y)
  {
    var i, j := UpperBound(a, 0, |a|, x), UpperBound(a, 0, |a|, y);
    assert forall k :: 0 <= k < i ==> a[k] <= y;
  }

  // ---------------------------------------------------------------------------- means

  lemma {:induction false} SumSplit(a: seq<real>, lo: nat, mid: nat, hi: nat)
    requires lo <= mid <= hi <= |a|
    ensures Sum(a, lo, hi) == Sum(a, lo, mid) + Sum(a, mid, hi)
  {
    if mid < hi { SumSplit(a, lo, mid, hi - 1); }
  }

  function Scaled(n: nat, x: real): real {
    n as real * x
  }

  lemma ScaledOrder(n: nat, x: real, y: real)
    requires n > 0
    ensures Scaled(n, x) < Scaled(n, y) <==> x < y
  {
  }

  lemma ScaledSum(k: nat, n: nat, x: real)
    ensures Scaled(k + n, x) == Scaled(k, x) + Scaled(n, x)
  {
  }

  lemma {:induction false} SumAtLeast(a: seq<real>, lo: nat, hi: nat, x: real)
    requires lo <= hi <= |a| && forall i :: lo <= i < hi ==> a[i] >= x
    ensures Sum(a, lo, hi) >= Scaled(hi - lo, x)
  {
    if lo < hi {
      SumAtLeast(a, lo, hi - 1, x);
      ScaledSum(hi - 1 - lo, 1, x);
    }
  }

  lemma {:induction false} SumAtMost(a: seq<real>, lo: nat, hi: nat, x: real)
    requires lo <= hi <= |a| && forall i :: lo <= i < hi ==> a[i] <= x
    ensures Sum(a, lo, hi) <= Scaled(hi - lo, x)
  {
    if lo < hi {
      SumAtMost(a, lo, hi - 1, x);
      ScaledSum(hi - 1 - lo, 1, x);
    }
  }

  lemma MeanTimesCount(a: seq<real>, lo: nat, hi: nat)
    requires lo < hi <= |a|
    ensures Sum(a, lo, hi) == Scaled(hi - lo, Mean(a, lo, hi))
  {
  }

  lemma MeanBetween(a: seq<real>, lo: nat, hi: nat)
    requires Sorted(a) && lo < hi <= |a|
    ensures a[lo] <= Mean(a, lo, hi) <= a[hi - 1]
  {
    hide Sum, Mean, Scaled;
    SumAtLeast(a, lo, hi, a[lo]);
    SumAtMost(a, lo, hi, a[hi - 1]);
    MeanTimesCount(a, lo, hi);
    ScaledOrder(hi - lo, Mean(a, lo, hi), a[lo]);
    ScaledOrder(hi - lo, a[hi - 1], Mean(a, lo, hi));
  }

  /** Values not below the mean before them lift it, and strictly if they are above. */
  lemma MeanLifted(a: seq<real>, lo: nat, mid: nat, hi: nat, x: real)
    requires lo < mid <= hi <= |a| && Mean(a, lo, mid) <= x && forall i :: mid <= i < hi ==> a[i] >= x
    ensures Mean(a, lo, mid) <= Mean(a, lo, hi)
    ensures Mean(a, lo, mid) < x && mid < hi ==> Mean(a, lo, mid) < Mean(a, lo, hi)
  {
    if mid < hi {
      hide Sum, Mean, Scaled;
      var m := Mean(a, lo, mid);
      SumSplit(a, lo, mid, hi);
      SumAtLeast(a, mid, hi, x);
      MeanTimesCount(a, lo, mid);
      MeanTimesCount(a, lo, hi);
      ScaledSum(mid - lo, hi - mid, m);
      ScaledOrder(hi - mid, x, m);
      ScaledOrder(hi - mid, m, x);
      ScaledOrder(hi - lo, Mean(a, lo, hi), m);
      ScaledOrder(hi - lo, m, Mean(a, lo, hi));
    }
  }

  /** Values not above the mean behind them lower it, and strictly if they are below. */
  lemma MeanLowered(a: seq<real>, lo: nat, mid: nat, hi: nat, x: real)
    requires lo <= mid < hi <= |a| && x <= Mean(a, mid, hi) && forall i :: lo <= i < mid ==> a[i] <= x
    ensures Mean(a, lo, hi) <= Mean(a, mid, hi)
    ensures x < Mean(a, mid, hi) && lo < mid ==> Mean(a, lo, hi) < Mean(a, mid, hi)
  {
    if lo < mid {
      hide Sum, Mean, Scaled;
      var m := Mean(a, mid, hi);
      SumSplit(a, lo, mid, hi);
      SumAtMost(a, lo, mid, x);
      MeanTimesCount(a, mid, hi);
      MeanTimesCount(a, lo, hi);
      ScaledSum(hi - mid, mid - lo, m);
      ScaledOrder(mid - lo, m, x);
      ScaledOrder(mid - lo, x, m);
      ScaledOrder(hi - lo, m, Mean(a, lo, hi));
      ScaledOrder(hi - lo, Mean(a, lo, hi), m);
    }
  }

  // ----------------------------------------------------------------------- the cutoff

  /** Further up the split, higher the cutoff. */
  lemma CutoffMonotone(a: seq<real>, p: nat, q: nat)
    requires Sorted(a) && IsSplit(a, p) && IsSplit(a, q) && p <= q
    ensures Cutoff(a, p) <= Cutoff(a, q)
  {
    hide Mean;
    MeanBetween(a, 0, p);
    MeanLifted(a, 0, p, q, a[p - 1]);
    MeanBetween(a, q, |a|);
    MeanLowered(a, p, q, |a|, a[q]);
  }

  /** The split the next pass of the loop makes. */
  function Next(a: seq<real>, p: nat): nat
    requires IsSplit(a, p)
  {
    UpperBound(a, 0, |a|, Cutoff(a, p))
  }

  /** The cutoff is strictly between the means, so neither class of the next split is
      empty, and its classes differ. */
  lemma NextIsSplit(a: seq<real>, p: nat)
    requires Sorted(a) && HasGap(a, p)
    ensures Mean(a, 0, p) < Cutoff(a, p) < Mean(a, p, |a|)
    ensures HasGap(a, Next(a, p)) && a[Next(a, p) - 1] <= Cutoff(a, p) < a[Next(a, p)]
  {
    hide Mean;
    MeanBetween(a, 0, p);
    MeanBetween(a, p, |a|);
    assert a[0] < Cutoff(a, p) < a[|a| - 1];
  }

  lemma NextMonotone(a: seq<real>, p: nat, q: nat)
    requires Sorted(a) && IsSplit(a, p) && IsSplit(a, q) && p <= q
    ensures Next(a, p) <= Next(a, q)
  {
    CutoffMonotone(a, p, q);
    UpperBoundMonotone(a, Cutoff(a, p), Cutoff(a, q));
  }

  /** The splits the loop stops at are the stable ones. */
  lemma StableIsFixed(a: seq<real>, p: nat)
    requires Sorted(a) && IsSplit(a, p)
    ensures Stable(a, p) <==> HasGap(a, p) && Next(a, p) == p
  {
    hide Cutoff;
    if a[p - 1] <= Cutoff(a, p) < a[p] {
      UpperBoundIs(a, Cutoff(a, p), p);
    }
  }

  lemma UpperBoundIs(a: seq<real>, x: real, p: nat)
    requires Sorted(a) && IsSplit(a, p) && a[p - 1] <= x < a[p]
    ensures UpperBound(a, 0, |a|, x) == p
  {
    assert forall i :: 0 <= i < p ==> a[i] <= x;
    assert forall i :: p <= i < |a| ==> a[i] > x;
  }

  function Distance(x: real, y: real): real {
    if x < y then y - x else x - y
  }

  /** A split is stable exactly if every inner value is at least as close to the inner
      mean as to the outer one and every outer value is closer to the outer mean. */
  lemma StableIsNearest(a: seq<real>, p: nat)
    requires Sorted(a) && HasGap(a, p)
    ensures Stable(a, p) <==>
      && (forall i :: 0 <= i < p ==> Distance(a[i], Mean(a, 0, p)) <= Distance(a[i], Mean(a, p, |a|)))
      && (forall i :: p <= i < |a| ==> Distance(a[i], Mean(a, p, |a|)) < Distance(a[i], Mean(a, 0, p)))
  {
    hide Mean;
    NextIsSplit(a, p);
    var inner, outer := Mean(a, 0, p), Mean(a, p, |a|);
    forall x: real ensures Distance(x, inner) <= Distance(x, outer) <==> x <= Cutoff(a, p) {
    }
  }

  // ------------------------------------------------------------------- the deviation

  function Cross(u: real, t: real): real {
    2.0 * u * t
  }

  /** Squared distances from `x` by those from `m`. */
  lemma {:induction false} SquaresFrom(a: seq<real>, lo: nat, hi: nat, x: real, m: real)
    requires lo <= hi <= |a|
    ensures Squares(a, lo, hi, x) ==
      Squares(a, lo, hi, m) + Cross(m - x, Sum(a, lo, hi) - Scaled(hi - lo, m)) + Scaled(hi - lo, Square(m - x))
  {
    if lo < hi {
      SquaresFrom(a, lo, hi - 1, x, m);
      ScaledSum(hi - 1 - lo, 1, m);
      ScaledSum(hi - 1 - lo, 1, Square(m - x));
      ScaledOne(m);
      ScaledOne(Square(m - x));
      hide Scaled, Square, Cross;
      SquareFrom(a[hi - 1], x, m, Sum(a, lo, hi - 1) - Scaled(hi - 1 - lo, m));
    }
  }

  lemma ScaledOne(x: real)
    ensures Scaled(1, x) == x
  {
  }

  lemma SquareFrom(v: real, x: real, m: real, rest: real)
    ensures Cross(m - x, rest) + Square(v - x) == Square(v - m) + Cross(m - x, rest + v - m) + Square(m - x)
  {
    var p, q := v - m, m - x;
    assert v - x == p + q;
    assert Square(p + q) == Square(p) + Cross(q, p) + Square(q);
    assert Cross(q, rest + p) == Cross(q, rest) + Cross(q, p);
  }

  /** No point has a smaller sum of squared distances than the mean. */
  lemma MeanIsBest(a: seq<real>, lo: nat, hi: nat, x: real)
    requires lo < hi <= |a|
    ensures Squares(a, lo, hi, Mean(a, lo, hi)) <= Squares(a, lo, hi, x)
    ensures x != Mean(a, lo, hi) ==> Squares(a, lo, hi, Mean(a, lo, hi)) < Squares(a, lo, hi, x)
  {
    hide Sum, Mean, Squares;
    var m := Mean(a, lo, hi);
    MeanTimesCount(a, lo, hi);
    SquaresFrom(a, lo, hi, x, m);
    ScaledOrder(hi - lo, 0.0, Square(m - x));
    ScaledOrder(hi - lo, Square(m - x), 0.0);
    SquareIsPositive(m - x);
    assert Scaled(hi - lo, 0.0) == 0.0 == Cross(m - x, 0.0);
    hide Scaled, Square, Cross;
  }

  lemma PositiveSquare(d: real)
    requires d > 0.0
    ensures Square(d) > 0.0
  {
    if d < 1.0 {
      assert 1.0 / d > 0.0;
      assert Square(d) * (1.0 / d) == d;
    }
  }

  lemma SquareIsPositive(d: real)
    ensures Square(d) >= 0.0 && (d != 0.0 ==> Square(d) > 0.0)
  {
    assert Square(d) == Square(-d);
    if d != 0.0 {
      PositiveSquare(if d < 0.0 then -d else d);
    }
  }

  lemma {:induction false} SquaresSplit(a: seq<real>, lo: nat, mid: nat, hi: nat, x: real)
    requires lo <= mid <= hi <= |a|
    ensures Squares(a, lo, hi, x) == Squares(a, lo, mid, x) + Squares(a, mid, hi, x)
  {
    if mid < hi { SquaresSplit(a, lo, mid, hi - 1, x); }
  }

  lemma {:induction false} SquaresCloser(a: seq<real>, lo: nat, hi: nat, x: real, y: real)
    requires lo <= hi <= |a| && forall i :: lo <= i < hi ==> Distance(a[i], x) <= Distance(a[i], y)
    ensures Squares(a, lo, hi, x) <= Squares(a, lo, hi, y)
  {
    if lo < hi {
      SquaresCloser(a, lo, hi - 1, x, y);
      hide Distance, Square;
      SquareMonotone(a[hi - 1], x, y);
    }
  }

  lemma SquareMonotone(v: real, x: real, y: real)
    requires Distance(v, x) <= Distance(v, y)
    ensures Square(v - x) <= Square(v - y)
  {
    SquareOfDistance(v, x);
    SquareOfDistance(v, y);
    ProductOrder(Distance(v, x), Distance(v, y));
  }

  lemma SquareOfDistance(v: real, x: real)
    ensures Square(Distance(v, x)) == Square(v - x)
  {
  }

  lemma ProductOrder(p: real, q: real)
    requires 0.0 <= p <= q
    ensures Square(p) <= Square(q)
  {
    assert q * q - p * p == (q - p) * (q + p);
  }

  /** A pass of the loop that changes the split lowers the deviation within classes. */
  lemma DeviationFalls(a: seq<real>, p: nat)
    requires Sorted(a) && HasGap(a, p) && Next(a, p) != p
    ensures IsSplit(a, Next(a, p)) && Deviation(a, Next(a, p)) < Deviation(a, p)
  {
    NextIsSplit(a, p);
    var q, n := Next(a, p), |a|;
    var inner, outer := Mean(a, 0, p), Mean(a, p, n);
    Reassigned(a, p);
    MeanMoves(a, p);
    hide Mean, Squares, Cutoff;
    MeanIsBest(a, 0, q, inner);
    MeanIsBest(a, q, n, outer);
  }

  lemma MeanMoves(a: seq<real>, p: nat)
    requires Sorted(a) && HasGap(a, p) && Next(a, p) != p && HasGap(a, Next(a, p))
    ensures Mean(a, 0, Next(a, p)) != Mean(a, 0, p) || Mean(a, Next(a, p), |a|) != Mean(a, p, |a|)
  {
    hide Mean, Cutoff;
    MeanBetween(a, 0, p);
    MeanBetween(a, p, |a|);
    if p < Next(a, p) {
      MeanLifted(a, 0, p, Next(a, p), a[p]);
    } else {
      MeanLowered(a, Next(a, p), p, |a|, a[p - 1]);
    }
  }

  /** With the old means, the new classes are no worse. */
  lemma Reassigned(a: seq<real>, p: nat)
    requires Sorted(a) && HasGap(a, p) && HasGap(a, Next(a, p))
    ensures var q, inner, outer := Next(a, p), Mean(a, 0, p), Mean(a, p, |a|);
      Squares(a, 0, q, inner) + Squares(a, q, |a|, outer) <= Squares(a, 0, p, inner) + Squares(a, p, |a|, outer)
  {
    hide Mean, Squares;
    NextIsSplit(a, p);
    var q, n := Next(a, p), |a|;
    var inner, outer := Mean(a, 0, p), Mean(a, p, n);
    if p <= q {
      SquaresSplit(a, 0, p, q, inner);
      SquaresSplit(a, p, q, n, outer);
      SquaresCloser(a, p, q, inner, outer);
    } else {
      SquaresSplit(a, 0, q, p, inner);
      SquaresSplit(a, q, p, n, outer);
      forall i | q <= i < p ensures Distance(a[i], outer) <= Distance(a[i], inner) {
        assert a[q] <= a[i];
      }
      SquaresCloser(a, q, p, outer, inner);
    }
  }

  // --------------------------------------------------------------------- the algorithm

  method Accumulate(a: seq<real>, lo: nat, hi: nat) returns (sum: real)
    requires lo <= hi <= |a|
    ensures sum == Sum(a, lo, hi)
  {
    sum := 0.0;
    var i := lo;
    while i < hi
      invariant lo <= i <= hi && sum == Sum(a, lo, i)
    {
      sum := sum + a[i];
      i := i + 1;
    }
  }

  /** The split the search starts from: below the run of values equal to the one in the
      middle or, if that run starts at the front, behind it. */
  function FirstSplit(a: seq<real>): (p: nat)
    requires |a| >= 2
    ensures p <= |a|
  {
    var mid := |a| / 2;
    var p := LowerBound(a, 0, mid, a[mid]);
    if p == 0 then UpperBound(a, mid, |a|, a[mid]) else p
  }

  /** There is no first split exactly if all values are the same. */
  lemma FirstSplitHasGap(a: seq<real>)
    requires Sorted(a) && |a| >= 2
    ensures FirstSplit(a) == |a| <==> a[0] == a[|a| - 1]
    ensures FirstSplit(a) < |a| ==> HasGap(a, FirstSplit(a))
  {
    var mid := |a| / 2;
    var p := LowerBound(a, 0, mid, a[mid]);
    assert a[0] <= a[mid] <= a[|a| - 1];
    if p == 0 {
      assert a[0] == a[mid];
    } else {
      assert a[0] < a[mid];
    }
  }

  /** Where the search starts: at the lower end of the run of values equal to the one in
      the middle or, if that run starts at the front, at its upper end. There is only one
      such split. */
  lemma StartIsFirstSplit(a: seq<real>, s: nat)
    requires Sorted(a) && |a| >= 2
    requires 0 < s < |a| && a[s - 1] < a[s]
    requires if a[0] < a[|a| / 2] then a[s] == a[|a| / 2] else a[s - 1] == a[|a| / 2]
    ensures FirstSplit(a) == s
  {
    var mid := |a| / 2;
    var p := LowerBound(a, 0, mid, a[mid]);
    if a[0] < a[mid] {
      assert forall j :: 0 <= j < s ==> a[j] <= a[s - 1];
      assert s <= mid;
    } else {
      assert forall j :: s <= j < |a| ==> a[j] >= a[s];
      assert mid < s;
    }
  }

  /** There is one unless all values are the same. */
  lemma FirstSplitIsStart(a: seq<real>)
    requires Sorted(a) && |a| >= 2 && a[0] < a[|a| - 1]
    ensures var s := FirstSplit(a);
      && 0 < s < |a| && a[s - 1] < a[s]
      && (if a[0] < a[|a| / 2] then a[s] == a[|a| / 2] else a[s - 1] == a[|a| / 2])
  {
    FirstSplitHasGap(a);
    var mid := |a| / 2;
    var p := LowerBound(a, 0, mid, a[mid]);
    assert a[0] <= a[mid];
    if p == 0 {
      assert a[0] == a[mid];
      assert forall j :: mid <= j < FirstSplit(a) ==> a[mid] <= a[j];
    }
  }

  /** The class change of the values between two splits. */
  datatype Classes = Classes(innerSum: real, innerCount: nat, outerSum: real, outerCount: nat)

  predicate Counted(a: seq<real>, c: Classes, p: nat) {
    && p <= |a| && c.innerCount == p && c.outerCount == |a| - p
    && c.innerSum == Sum(a, 0, p) && c.outerSum == Sum(a, p, |a|)
  }

  method MoveInwards(a: seq<real>, p: nat, q: nat, before: Classes) returns (c: Classes)
    requires p <= q <= |a| && Counted(a, before, p)
    ensures Counted(a, c, q)
  {
    c := before;
    var i := p;
    while i < q
      invariant p <= i <= q && Counted(a, c, i)
    {
      SumSplit(a, i, i + 1, |a|);
      c := Classes(c.innerSum + a[i], c.innerCount + 1, c.outerSum - a[i], c.outerCount - 1);
      i := i + 1;
    }
  }

  method MoveOutwards(a: seq<real>, p: nat, q: nat, before: Classes) returns (c: Classes)
    requires q <= p <= |a| && Counted(a, before, p)
    ensures Counted(a, c, q)
  {
    c := before;
    var i := q;
    while i < p
      invariant q <= i <= p
      invariant c.innerCount == p - (i - q) && c.outerCount == |a| - c.innerCount
      invariant c.innerSum == Sum(a, 0, p) - Sum(a, q, i) && c.outerSum == Sum(a, p, |a|) + Sum(a, q, i)
    {
      c := Classes(c.innerSum - a[i], c.innerCount - 1, c.outerSum + a[i], c.outerCount + 1);
      i := i + 1;
    }
    SumSplit(a, 0, q, p);
    SumSplit(a, q, p, |a|);
  }

  /** `p` is where a search from `start` ends: the first stable split on the side the
      first pass of the loop turns to. */
  ghost predicate FirstStableFrom(a: seq<real>, start: nat, p: nat)
    requires IsSplit(a, start)
  {
    && Stable(a, p)
    && if start <= Next(a, start)
       then start <= p && forall q: nat :: start <= q && Stable(a, q) ==> p <= q
       else p <= start && forall q: nat :: q <= start && Stable(a, q) ==> q <= p
  }

  /** How far the search has come: it has not passed a stable split and the next pass
      does not turn back. */
  ghost predicate OnTheWay(a: seq<real>, start: nat, p: nat)
    requires IsSplit(a, start)
  {
    && HasGap(a, p)
    && if start <= Next(a, start)
       then start <= p <= Next(a, p) && forall q: nat :: start <= q && Stable(a, q) ==> p <= q
       else start >= p >= Next(a, p) && forall q: nat :: q <= start && Stable(a, q) ==> q <= p
  }

  lemma OneMorePass(a: seq<real>, start: nat, p: nat)
    requires Sorted(a) && IsSplit(a, start) && OnTheWay(a, start, p)
    ensures OnTheWay(a, start, Next(a, p))
  {
    hide Next;
    var next := Next(a, p);
    NextIsSplit(a, p);
    if start <= Next(a, start) {
      NextMonotone(a, p, next);
      forall q: nat | start <= q && Stable(a, q) ensures next <= q {
        StableIsFixed(a, q);
        NextMonotone(a, p, q);
      }
    } else {
      NextMonotone(a, next, p);
      forall q: nat | q <= start && Stable(a, q) ensures q <= next {
        StableIsFixed(a, q);
        NextMonotone(a, q, p);
      }
    }
  }

  /** The classification of a sorted range: it fails exactly for fewer than two and for
      identical values, and otherwise ends at the first stable split of its direction. */
  method DistanceClassificationThresholdSorted(a: seq<real>) returns (r: Classification, p: nat)
    requires Sorted(a)
    ensures r == TooFewValues <==> |a| < 2
    ensures r == IdenticalValues <==> |a| >= 2 && a[0] == a[|a| - 1]
    ensures r.Threshold? ==> 0 < p < |a| && r.value == a[p - 1]
    ensures r.Threshold? ==> exists s: nat ::
      && 0 < s < |a| && a[s - 1] < a[s]
      && (if a[0] < a[|a| / 2] then a[s] == a[|a| / 2] else a[s - 1] == a[|a| / 2])
      && FirstStableFrom(a, s, p) && Deviation(a, p) <= Deviation(a, s)
  {
    hide Sum, Mean, Cutoff, Squares, Next, FirstSplit, HasGap, OnTheWay, Deviation;
    p := 0;
    if |a| < 2 {
      return TooFewValues, p;
    }
    FirstSplitHasGap(a);
    p := FirstSplit(a);
    if p == |a| {
      return IdenticalValues, p;
    }
    ghost var start := p;
    FirstSplitIsStart(a);
    GapIs(a, p);
    StartsOnTheWay(a, start);
    var lastCutoff := a[p - 1];
    var innerSum := Accumulate(a, 0, p);
    var outerSum := Accumulate(a, p, |a|);
    var c := Classes(innerSum, p, outerSum, |a| - p);
    var assignmentsChanged := true;
    while assignmentsChanged
      invariant IsSplit(a, p) && HasGap(a, p) && OnTheWay(a, start, p) && Counted(a, c, p)
      invariant a[p - 1] <= lastCutoff < a[p]
      invariant Deviation(a, p) <= Deviation(a, start)
      invariant !assignmentsChanged ==> Stable(a, p)
      decreases if start <= Next(a, start) then |a| - p else p, assignmentsChanged
    {
      var cutoff := (c.innerSum / c.innerCount as real + c.outerSum / c.outerCount as real) / 2.0;
      CutoffOf(a, c, p);
      var next := UpperBound(a, 0, |a|, cutoff);
      NextIsSplit(a, p);
      GapIs(a, next);
      assert next != 0;
      assert next != |a|;
      assignmentsChanged := next != p;
      OneMorePass(a, start, p);
      Turns(a, start, p, next, cutoff, lastCutoff);
      if assignmentsChanged {
        var underest := cutoff > lastCutoff;
        assert underest == (start <= Next(a, start));
        DeviationFalls(a, p);
        if underest {
          c := MoveInwards(a, p, next, c);
        } else {
          c := MoveOutwards(a, p, next, c);
        }
        p := next;
        lastCutoff := cutoff;
      }
    }
    StopsThere(a, start, p);
    r := Threshold(a[p - 1]);
  }

  lemma GapIs(a: seq<real>, p: nat)
    requires HasGap(a, p)
    ensures IsSplit(a, p) && a[p - 1] < a[p]
  {
  }

  lemma StartsOnTheWay(a: seq<real>, start: nat)
    requires Sorted(a) && HasGap(a, start)
    ensures OnTheWay(a, start, start)
  {
  }

  lemma CutoffOf(a: seq<real>, c: Classes, p: nat)
    requires IsSplit(a, p) && Counted(a, c, p)
    ensures (c.innerSum / c.innerCount as real + c.outerSum / c.outerCount as real) / 2.0 == Cutoff(a, p)
    ensures Next(a, p) == UpperBound(a, 0, |a|, Cutoff(a, p))
  {
  }

  /** A pass that changes the split goes on in the direction of the search, and the two
      last cutoffs alone show that direction. */
  lemma Turns(a: seq<real>, start: nat, p: nat, next: nat, cutoff: real, lastCutoff: real)
    requires Sorted(a) && IsSplit(a, start) && OnTheWay(a, start, p) && next == Next(a, p)
    requires IsSplit(a, p) && a[p - 1] <= lastCutoff < a[p]
    requires IsSplit(a, next) && cutoff == Cutoff(a, p) && a[next - 1] <= cutoff < a[next]
    ensures next == p ==> Stable(a, p)
    ensures next != p ==> (cutoff > lastCutoff <==> start <= Next(a, start))
    ensures if start <= Next(a, start) then p <= next else next <= p
  {
    hide Cutoff, Next;
    assert p < next ==> a[p] <= a[next - 1];
    assert next < p ==> a[next] <= a[p - 1];
  }

  lemma StopsThere(a: seq<real>, start: nat, p: nat)
    requires IsSplit(a, start) && OnTheWay(a, start, p) && Stable(a, p)
    ensures FirstStableFrom(a, start, p)
  {
  }

  /** The threshold found leaves every value at least as close to the mean of its own
      class as to the other. */
  lemma ThresholdSeparates(a: seq<real>, start: nat, p: nat)
    requires Sorted(a) && IsSplit(a, start) && FirstStableFrom(a, start, p)
    ensures IsSplit(a, p)
    ensures forall i :: 0 <= i < |a| ==> (a[i] <= a[p - 1] <==> i < p)
    ensures forall i :: 0 <= i < p ==> Distance(a[i], Mean(a, 0, p)) <= Distance(a[i], Mean(a, p, |a|))
    ensures forall i :: p <= i < |a| ==> Distance(a[i], Mean(a, p, |a|)) < Distance(a[i], Mean(a, 0, p))
  {
    hide Mean, Cutoff;
    StableIsNearest(a, p);
  }
}

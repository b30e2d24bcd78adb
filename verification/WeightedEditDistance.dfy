/**
 The position-weighted distance of two sequences of words
 (flt/string/weighted_edit_distance.hpp), over the reals.
*/
module WeightedEditDistance {
  import opened Levenshtein

  type Measure<!T> = (T, T) -> real
  type Weights = nat -> real

  /** Word `k`, or the empty word behind the end. */
  function WordAt<T>(s: seq<T>, empty: T, k: nat): T {
    if k < |s| then s[k] else empty
  }

  function Term<T>(a: seq<T>, b: seq<T>, empty: T, d: Measure<T>, w: Weights, k: nat): real {
    d(WordAt(a, empty, k), WordAt(b, empty, k)) * w(k + 1)
  }

  function Sum<T>(a: seq<T>, b: seq<T>, empty: T, d: Measure<T>, w: Weights, n: nat): real {
    if n == 0 then 0.0 else Sum(a, b, empty, d, w, n - 1) + Term(a, b, empty, d, w, n - 1)
  }

  function Longer<T>(a: seq<T>, b: seq<T>): nat {
    if |a| < |b| then |b| else |a|
  }

  /** Both sequences padded with empty words to the same length. */
  function Padded<T>(a: seq<T>, b: seq<T>, empty: T, d: Measure<T>, w: Weights): real {
    Sum(a, b, empty, d, w, Longer(a, b))
  }

  /** The three loops of the source: words in pairs, then the rest of either side. */
  method WeightedDistance<T>(a: seq<T>, b: seq<T>, empty: T, d: Measure<T>, w: Weights) returns (distance: real)
    ensures distance == Padded(a, b, empty, d, w)
  {
    distance := 0.0;
    var counter: nat := 0;
    var i, j := 0, 0;
    while i != |a| && j != |b|
      invariant i == j == counter && i <= |a| && j <= |b|
      invariant distance == Sum(a, b, empty, d, w, counter)
      decreases |a| - i
    {
      counter := counter + 1;
      distance := distance + d(a[i], b[j]) * w(counter);
      i, j := i + 1, j + 1;
    }
    while i != |a|
      invariant i == counter <= |a| && j <= |b| && (i < |a| ==> j == |b| <= i)
      invariant j == |b| || i == j == counter
      invariant distance == Sum(a, b, empty, d, w, counter)
      decreases |a| - i
    {
      counter := counter + 1;
      distance := distance + d(a[i], empty) * w(counter);
      i := i + 1;
    }
    while j != |b|
      invariant j <= |b| && i == |a| && (j < |b| ==> counter == j >= |a|) && (j == |b| ==> counter == Longer(a, b))
      invariant distance == Sum(a, b, empty, d, w, counter)
      decreases |b| - j
    {
      counter := counter + 1;
      distance := distance + d(empty, b[j]) * w(counter);
      j := j + 1;
    }
  }

  // --------------------------------------------------------------------- properties

  ghost predicate NonNegative(w: Weights) {
    forall k :: w(k) >= 0.0
  }

  ghost predicate PseudoMetric<T(!new)>(d: Measure<T>) {
    && (forall x, y :: d(x, y) >= 0.0)
    && (forall x :: d(x, x) == 0.0)
    && (forall x, y :: d(x, y) == d(y, x))
    && (forall x, y, z :: d(x, z) <= d(x, y) + d(y, z))
  }

  lemma {:induction false} SumSymmetric<T(!new)>(a: seq<T>, b: seq<T>, empty: T, d: Measure<T>, w: Weights, n: nat)
    requires forall x, y :: d(x, y) == d(y, x)
    ensures Sum(a, b, empty, d, w, n) == Sum(b, a, empty, d, w, n)
  {
    if n > 0 {
      SumSymmetric(a, b, empty, d, w, n - 1);
      var x, y := WordAt(a, empty, n - 1), WordAt(b, empty, n - 1);
      assert d(x, y) == d(y, x);
      assert Term(a, b, empty, d, w, n - 1) == Term(b, a, empty, d, w, n - 1);
    }
  }

  lemma ScaleMonotone(x: real, y: real, w: real)
    requires x <= y && w >= 0.0
    ensures x * w <= y * w
  {
  }

  lemma {:induction false} SumTriangle<T(!new)>(a: seq<T>, b: seq<T>, c: seq<T>, empty: T, d: Measure<T>,
      w: Weights, n: nat)
    requires PseudoMetric(d) && NonNegative(w)
    ensures Sum(a, c, empty, d, w, n) <= Sum(a, b, empty, d, w, n) + Sum(b, c, empty, d, w, n)
  {
    if n > 0 {
      SumTriangle(a, b, c, empty, d, w, n - 1);
      var x, y, z := WordAt(a, empty, n - 1), WordAt(b, empty, n - 1), WordAt(c, empty, n - 1);
      ScaleMonotone(d(x, z), d(x, y) + d(y, z), w(n));
    }
  }

  /** Behind the longer sequence nothing is added. */
  lemma {:induction false} SumStops<T(!new)>(a: seq<T>, b: seq<T>, empty: T, d: Measure<T>, w: Weights, n: nat)
    requires d(empty, empty) == 0.0 && n >= Longer(a, b)
    ensures Sum(a, b, empty, d, w, n) == Padded(a, b, empty, d, w)
  {
    if n > Longer(a, b) {
      SumStops(a, b, empty, d, w, n - 1);
    }
  }

  /** Lifting: with weights that are not negative, a pseudometric on words gives one on
      sequences of words of any lengths. */
  lemma PaddedIsPseudoMetric<T(!new)>(a: seq<T>, b: seq<T>, c: seq<T>, empty: T, d: Measure<T>, w: Weights)
    requires PseudoMetric(d) && NonNegative(w)
    ensures Padded(a, b, empty, d, w) >= 0.0
    ensures Padded(a, a, empty, d, w) == 0.0
    ensures Padded(a, b, empty, d, w) == Padded(b, a, empty, d, w)
    ensures Padded(a, c, empty, d, w) <= Padded(a, b, empty, d, w) + Padded(b, c, empty, d, w)
  {
    var n := Longer(a, b) + Longer(b, c);
    SumStops(a, b, empty, d, w, n);
    SumStops(b, c, empty, d, w, n);
    SumStops(a, c, empty, d, w, n);
    SumSymmetric(a, b, empty, d, w, Longer(a, b));
    SumTriangle(a, b, c, empty, d, w, n);
    SumNonNegative(a, b, empty, d, w, Longer(a, b));
    SumNonNegative(a, a, empty, d, w, |a|);
  }

  lemma {:induction false} SumNonNegative<T(!new)>(a: seq<T>, b: seq<T>, empty: T, d: Measure<T>, w: Weights, n: nat)
    requires PseudoMetric(d) && NonNegative(w)
    ensures Sum(a, b, empty, d, w, n) >= 0.0
    ensures a == b ==> Sum(a, b, empty, d, w, n) == 0.0
  {
    if n > 0 {
      SumNonNegative(a, b, empty, d, w, n - 1);
      ScaleMonotone(0.0, d(WordAt(a, empty, n - 1), WordAt(b, empty, n - 1)), w(n));
    }
  }

  /** With positive weights, distance zero means: equal after padding. */
  lemma {:induction false} ZeroIffPaddedEqual<T(!new)>(a: seq<T>, b: seq<T>, empty: T, d: Measure<T>, w: Weights,
      n: nat)
    requires PseudoMetric(d) && forall k :: w(k) > 0.0
    requires forall x, y :: d(x, y) == 0.0 ==> x == y
    ensures Sum(a, b, empty, d, w, n) == 0.0 <==> forall k :: 0 <= k < n ==> WordAt(a, empty, k) == WordAt(b, empty, k)
  {
    if n > 0 {
      ZeroIffPaddedEqual(a, b, empty, d, w, n - 1);
      SumNonNegative(a, b, empty, d, w, n - 1);
      var x, y := WordAt(a, empty, n - 1), WordAt(b, empty, n - 1);
      ScaleMonotone(0.0, d(x, y), w(n));
      if x != y {
        assert d(x, y) > 0.0 && w(n) > 0.0;
        assert d(x, y) * w(n) > 0.0;
      }
    }
  }

  // -------------------------------------------------------------- what one word counts

  lemma {:induction false} SumAgrees<T(!new)>(a: seq<T>, b: seq<T>, c: seq<T>, empty: T, d: Measure<T>, w: Weights,
      n: nat)
    requires forall i :: 0 <= i < n ==> WordAt(a, empty, i) == WordAt(c, empty, i)
    ensures Sum(a, b, empty, d, w, n) == Sum(c, b, empty, d, w, n)
  {
    if n > 0 {
      SumAgrees(a, b, c, empty, d, w, n - 1);
      assert WordAt(a, empty, n - 1) == WordAt(c, empty, n - 1);
      assert Term(a, b, empty, d, w, n - 1) == Term(c, b, empty, d, w, n - 1);
    }
  }

  /** Sequences that differ in one position only differ by what it adds. */
  lemma {:induction false} SumDiffers<T(!new)>(a: seq<T>, b: seq<T>, c: seq<T>, empty: T, d: Measure<T>, w: Weights,
      k: nat, n: nat)
    requires k < n && forall i :: 0 <= i < n && i != k ==> WordAt(a, empty, i) == WordAt(c, empty, i)
    ensures Sum(c, b, empty, d, w, n) == Sum(a, b, empty, d, w, n)
      + d(WordAt(c, empty, k), WordAt(b, empty, k)) * w(k + 1)
      - d(WordAt(a, empty, k), WordAt(b, empty, k)) * w(k + 1)
  {
    if n - 1 == k {
      SumAgrees(a, b, c, empty, d, w, n - 1);
    } else {
      SumDiffers(a, b, c, empty, d, w, k, n - 1);
      assert WordAt(a, empty, n - 1) == WordAt(c, empty, n - 1);
      assert Term(a, b, empty, d, w, n - 1) == Term(c, b, empty, d, w, n - 1);
    }
  }

  /** Replacing a word changes the distance by what the words in its position differ,
      times the weight of the position, counted from one. */
  lemma WordReplaced<T(!new)>(a: seq<T>, b: seq<T>, empty: T, d: Measure<T>, w: Weights, k: nat, x: T)
    requires k < |a|
    ensures var y := if k < |b| then b[k] else empty;
      Padded(a[k := x], b, empty, d, w) == Padded(a, b, empty, d, w) + d(x, y) * w(k + 1) - d(a[k], y) * w(k + 1)
  {
    SumDiffers(a, b, a[k := x], empty, d, w, k, Longer(a, b));
  }

  /** So does another word at the end, in place of the empty word if the other sequence
      goes on. */
  lemma WordAppended<T(!new)>(a: seq<T>, b: seq<T>, empty: T, d: Measure<T>, w: Weights, x: T)
    ensures var k := |a|;
      Padded(a + [x], b, empty, d, w) == Padded(a, b, empty, d, w)
        + if k < |b| then d(x, b[k]) * w(k + 1) - d(empty, b[k]) * w(k + 1) else d(x, empty) * w(k + 1)
  {
    if |a| < |b| {
      SumDiffers(a, b, a + [x], empty, d, w, |a|, |b|);
    } else {
      SumAgrees(a, b, a + [x], empty, d, w, |a|);
    }
  }

  /** If the words differ in one position only, the distance is theirs times the weight of
      that position, counted from one. */
  lemma OnePositionCounts<T(!new)>(a: seq<T>, b: seq<T>, empty: T, d: Measure<T>, w: Weights, k: nat)
    requires (forall x :: d(x, x) == 0.0) && (k < |a| || k < |b|)
    requires forall i :: 0 <= i && i != k ==> WordAt(a, empty, i) == WordAt(b, empty, i)
    ensures Padded(a, b, empty, d, w) == d(WordAt(a, empty, k), WordAt(b, empty, k)) * w(k + 1)
  {
    var n := Longer(a, b);
    SumDiffers(b, b, a, empty, d, w, k, n);
    SumOfNothing(b, empty, d, w, n);
    assert d(WordAt(b, empty, k), WordAt(b, empty, k)) == 0.0;
  }

  lemma {:induction false} SumOfNothing<T(!new)>(a: seq<T>, empty: T, d: Measure<T>, w: Weights, n: nat)
    requires forall x :: d(x, x) == 0.0
    ensures Sum(a, a, empty, d, w, n) == 0.0
  {
    if n > 0 {
      SumOfNothing(a, empty, d, w, n - 1);
      assert d(WordAt(a, empty, n - 1), WordAt(a, empty, n - 1)) == 0.0;
    }
  }

  // ----------------------------------------------------- words compared by Levenshtein

  function WordMeasure(x: string, y: string): real {
    StringDistance(x, y) as real
  }

  lemma WordMeasureIsMetric()
    ensures PseudoMetric(WordMeasure)
    ensures forall x, y :: WordMeasure(x, y) == 0.0 ==> x == y
  {
    forall x, y
      ensures WordMeasure(x, y) >= 0.0 && WordMeasure(x, y) == WordMeasure(y, x)
      ensures WordMeasure(x, y) == 0.0 <==> x == y
    {
      StringDistanceIsMetric(x, y, x);
    }
    forall x, y, z ensures WordMeasure(x, z) <= WordMeasure(x, y) + WordMeasure(y, z) {
      StringDistanceIsMetric(x, y, z);
    }
  }

  /** The weighted edit distance of log lines: symmetric, with the triangle inequality,
      and zero exactly between lines that differ in empty words at the end only. */
  lemma LineDistance(a: seq<string>, b: seq<string>, c: seq<string>, w: Weights)
    requires forall k :: w(k) > 0.0
    ensures Padded(a, b, "", WordMeasure, w) == Padded(b, a, "", WordMeasure, w)
    ensures Padded(a, c, "", WordMeasure, w) <= Padded(a, b, "", WordMeasure, w) + Padded(b, c, "", WordMeasure, w)
    ensures Padded(a, b, "", WordMeasure, w) == 0.0 <==>
      forall k :: 0 <= k < Longer(a, b) ==> WordAt(a, "", k) == WordAt(b, "", k)
  {
    WordMeasureIsMetric();
    PaddedIsPseudoMetric(a, b, c, "", WordMeasure, w);
    ZeroIffPaddedEqual(a, b, "", WordMeasure, w, Longer(a, b));
  }
}

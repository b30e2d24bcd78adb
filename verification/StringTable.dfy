/**
 Tables over words, stored in one flat array (flt/string/string_table.hpp).

 A cell is addressed by a vector with one index per word, each from zero up to and
 including the length of the word; the flat offset is the number these indices are
 in a mixed-radix system.
*/
module StringTables {

  type Vector = seq<nat>

  /** Index vectors of a table for words of lengths `exts`. */
  predicate InRange(v: Vector, exts: Vector) {
    |v| == |exts| && forall i :: 0 <= i < |v| ==> v[i] <= exts[i]
  }

  /** Number of cells. */
  function Cells(exts: Vector): nat {
    if exts == [] then 1 else (exts[0] + 1) * Cells(exts[1..])
  }

  /** Position of a vector among all vectors, the first index varying fastest. */
  function Offset(v: Vector, exts: Vector): nat
    requires |v| == |exts|
  {
    if v == [] then 0 else v[0] + (exts[0] + 1) * Offset(v[1..], exts[1..])
  }

  /** The vector at a position. */
  function VectorAt(k: nat, exts: Vector): Vector {
    if exts == [] then [] else [k % (exts[0] + 1)] + VectorAt(k / (exts[0] + 1), exts[1..])
  }

  /** Weight of index `d`: the number of cells of the table of the words before it. */
  function Weight(exts: Vector, d: nat): nat
    requires d <= |exts|
  {
    Cells(exts[..d])
  }

  // ------------------------------------------------------------ offsets are positions

  lemma {:induction false} OffsetInTable(v: Vector, exts: Vector)
    requires InRange(v, exts)
    ensures Offset(v, exts) < Cells(exts)
  {
    if v != [] {
      OffsetInTable(v[1..], exts[1..]);
      DigitBound(v[0], exts[0] + 1, Offset(v[1..], exts[1..]), Cells(exts[1..]));
    }
  }

  lemma DigitBound(digit: nat, radix: nat, rest: nat, bound: nat)
    requires digit < radix && rest < bound
    ensures digit + radix * rest < radix * bound
  {
    assert radix * (rest + 1) <= radix * bound;
  }

  lemma MulMonotone(radix: nat, a: int, b: int)
    requires a <= b
    ensures radix * a <= radix * b
  {
  }

  lemma QuotientIs(k: nat, radix: nat, rest: nat)
    requires radix * rest <= k < radix * (rest + 1)
    ensures k / radix == rest
  {
    var q := k / radix;
    assert radix * q <= k < radix * (q + 1);
    if q < rest {
      MulMonotone(radix, q + 1, rest);
    } else if q > rest {
      MulMonotone(radix, rest + 1, q);
    }
  }

  lemma DigitSplit(digit: nat, radix: nat, rest: nat)
    requires digit < radix
    ensures (digit + radix * rest) % radix == digit
    ensures (digit + radix * rest) / radix == rest
  {
    assert radix * (rest + 1) == radix * rest + radix;
    QuotientIs(digit + radix * rest, radix, rest);
  }

  /** Different vectors of a table have different offsets. */
  lemma {:induction false} VectorOfOffset(v: Vector, exts: Vector)
    requires InRange(v, exts)
    ensures VectorAt(Offset(v, exts), exts) == v
  {
    if v != [] {
      VectorOfOffset(v[1..], exts[1..]);
      DigitSplit(v[0], exts[0] + 1, Offset(v[1..], exts[1..]));
    }
  }

  lemma TableStep(k: nat, exts: Vector)
    requires exts != []
    ensures Cells(exts) == (exts[0] + 1) * Cells(exts[1..])
    ensures VectorAt(k, exts) == [k % (exts[0] + 1)] + VectorAt(k / (exts[0] + 1), exts[1..])
  {
  }

  lemma EmptyTable()
    ensures Cells([]) == 1 && VectorAt(0, []) == [] && Offset([], []) == 0 && InRange([], [])
  {
  }

  lemma Division(k: nat, radix: nat)
    requires radix > 0
    ensures k % radix < radix && k / radix >= 0 && k == k % radix + radix * (k / radix)
  {
  }

  /** Every position below the size is the offset of a vector of the table. */
  lemma {:induction false} OffsetOfVector(k: nat, exts: Vector)
    requires k < Cells(exts)
    ensures InRange(VectorAt(k, exts), exts)
    ensures Offset(VectorAt(k, exts), exts) == k
  {
    hide *;
    if exts == [] {
      EmptyTable();
    } else {
      var radix := exts[0] + 1;
      TableStep(k, exts);
      Division(k, radix);
      QuotientBound(k, radix, Cells(exts[1..]));
      OffsetOfVector(k / radix, exts[1..]);
      PrependDigit(k % radix, VectorAt(k / radix, exts[1..]), exts);
    }
  }

  lemma PrependDigit(digit: nat, v: Vector, exts: Vector)
    requires exts != [] && digit <= exts[0] && InRange(v, exts[1..])
    ensures InRange([digit] + v, exts)
    ensures Offset([digit] + v, exts) == digit + (exts[0] + 1) * Offset(v, exts[1..])
  {
    assert ([digit] + v)[1..] == v;
    forall i | 0 <= i < |v| + 1 ensures ([digit] + v)[i] <= exts[i] {
      if i > 0 { assert v[i - 1] <= exts[1..][i - 1]; }
    }
  }

  lemma QuotientBound(k: nat, radix: nat, bound: nat)
    requires radix > 0 && k < radix * bound
    ensures k / radix < bound
  {
    if k / radix >= bound {
      MulMonotone(radix, bound, k / radix);
    }
  }

  /** The last cell is that of the vector of the lengths. */
  lemma {:induction false} LastOffset(exts: Vector)
    ensures InRange(exts, exts) && Offset(exts, exts) == Cells(exts) - 1
  {
    if exts != [] {
      LastOffset(exts[1..]);
      assert (exts[0] + 1) * (Cells(exts[1..]) - 1) == (exts[0] + 1) * Cells(exts[1..]) - (exts[0] + 1);
    }
  }

  // ------------------------------------------------------------------------ weights

  lemma {:induction false} CellsSplit(exts: Vector, d: nat)
    requires d < |exts|
    ensures Weight(exts, d + 1) == Weight(exts, d) * (exts[d] + 1)
    ensures Weight(exts, d) > 0
  {
    if d == 0 {
      assert exts[..1] == [exts[0]];
      assert Cells([exts[0]]) == (exts[0] + 1) * Cells([]);
    } else {
      assert exts[..d][1..] == exts[1..][..d - 1];
      assert exts[..d + 1][1..] == exts[1..][..d];
      CellsSplit(exts[1..], d - 1);
      MulAssoc(exts[0] + 1, Weight(exts[1..], d - 1), exts[d] + 1);
    }
  }

  lemma MulAssoc(a: nat, b: nat, c: nat)
    requires a > 0 && b > 0
    ensures a * (b * c) == a * b * c
    ensures a * b > 0
  {
  }

  /** The inner product the source computes. */
  function WeightedSum(v: Vector, exts: Vector, n: nat): nat
    requires n <= |v| == |exts|
  {
    if n == 0 then 0 else WeightedSum(v, exts, n - 1) + v[n - 1] * Weight(exts, n - 1)
  }

  lemma {:induction false} WeightedSumShift(v: Vector, exts: Vector, n: nat)
    requires 1 <= n <= |v| == |exts|
    ensures WeightedSum(v, exts, n) == v[0] + (exts[0] + 1) * WeightedSum(v[1..], exts[1..], n - 1)
  {
    if n == 1 {
      assert exts[..0] == [];
    } else {
      WeightedSumShift(v, exts, n - 1);
      var radix, w := exts[0] + 1, Weight(exts[1..], n - 2);
      assert exts[..n - 1][1..] == exts[1..][..n - 2];
      assert Weight(exts, n - 1) == radix * w;
      DistributeDigit(radix, WeightedSum(v[1..], exts[1..], n - 2), v[n - 1], w);
    }
  }

  lemma DistributeDigit(radix: nat, sum: nat, digit: nat, w: nat)
    ensures radix * sum + digit * (radix * w) == radix * (sum + digit * w)
  {
    assert digit * (radix * w) == radix * (digit * w);
  }

  /** The inner product is the position in the mixed-radix system. */
  lemma {:induction false} WeightedSumIsOffset(v: Vector, exts: Vector)
    requires |v| == |exts|
    ensures WeightedSum(v, exts, |v|) == Offset(v, exts)
  {
    if v != [] {
      WeightedSumShift(v, exts, |v|);
      WeightedSumIsOffset(v[1..], exts[1..]);
    }
  }

  /** Shifting one index shifts the offset by that many weights. */
  lemma {:induction false} ShiftOne(v: Vector, exts: Vector, d: nat, shift: int, n: nat)
    requires d < |v| == |exts| && v[d] + shift >= 0 && n <= |v|
    ensures WeightedSum(v[d := v[d] + shift], exts, n)
         == WeightedSum(v, exts, n) + if d < n then shift * Weight(exts, d) else 0
  {
    if n > 0 {
      ShiftOne(v, exts, d, shift, n - 1);
      DistributeShift(v[d], shift, Weight(exts, d));
    }
  }

  lemma DistributeShift(digit: int, shift: int, w: int)
    ensures (digit + shift) * w == digit * w + shift * w
  {
  }

  function AllShifted(v: Vector, shift: int): Vector
    requires forall i :: 0 <= i < |v| ==> v[i] + shift >= 0
  {
    seq(|v|, i requires 0 <= i < |v| => v[i] + shift)
  }

  /** That many times all weights. */
  function ShiftedWeights(exts: Vector, shift: int, n: nat): int
    requires n <= |exts|
  {
    if n == 0 then 0 else ShiftedWeights(exts, shift, n - 1) + shift * Weight(exts, n - 1)
  }

  /** Shifting all indices shifts the offset by that many times all weights. */
  lemma {:induction false} ShiftAll(v: Vector, exts: Vector, shift: int, n: nat)
    requires n <= |v| == |exts| && forall i :: 0 <= i < |v| ==> v[i] + shift >= 0
    ensures WeightedSum(AllShifted(v, shift), exts, n) == WeightedSum(v, exts, n) + ShiftedWeights(exts, shift, n)
  {
    if n > 0 {
      ShiftAll(v, exts, shift, n - 1);
      DistributeShift(v[n - 1], shift, Weight(exts, n - 1));
    }
  }

  // ------------------------------------------------- tables of a fixed dimension

  /** The recursion that fills the weights of a table of a fixed dimension: every
      weight, and the size behind them. */
  function FillOffsetTable(size: nat, dims: Vector): seq<nat>
    decreases |dims|
  {
    if dims == [] then [size] else [size] + FillOffsetTable(size * (dims[0] + 1), dims[1..])
  }

  /** The recursion over the indices of one cell. */
  function ImplCalculateOffset(offsets: seq<nat>, v: Vector): nat
    requires |offsets| == |v|
  {
    if v == [] then 0 else offsets[0] * v[0] + ImplCalculateOffset(offsets[1..], v[1..])
  }

  lemma {:induction false} FillIsWeights(exts: Vector, d: nat)
    requires d <= |exts|
    ensures var filled := FillOffsetTable(Weight(exts, d), exts[d..]);
      |filled| == |exts| - d + 1 && forall k :: 0 <= k < |filled| ==> filled[k] == Weight(exts, d + k)
    decreases |exts| - d
  {
    var filled := FillOffsetTable(Weight(exts, d), exts[d..]);
    if d < |exts| {
      CellsSplit(exts, d);
      FillIsWeights(exts, d + 1);
      assert exts[d..][1..] == exts[d + 1..];
      assert filled == [Weight(exts, d)] + FillOffsetTable(Weight(exts, d + 1), exts[d + 1..]);
      hide Cells, FillOffsetTable;
      forall k | 0 <= k < |filled| ensures filled[k] == Weight(exts, d + k) {
        if k > 0 { assert filled[k] == FillOffsetTable(Weight(exts, d + 1), exts[d + 1..])[k - 1]; }
      }
    }
  }

  /** One step of the recursion takes one term of the sum. */
  lemma ImplStep(offsets: seq<nat>, v: Vector, exts: Vector, d: nat)
    requires d < |v| == |exts| == |offsets| && offsets[d] == Weight(exts, d)
    ensures ImplCalculateOffset(offsets[d..], v[d..])
         == WeightedSum(v, exts, d + 1) - WeightedSum(v, exts, d) + ImplCalculateOffset(offsets[d + 1..], v[d + 1..])
  {
    hide Weight;
    assert offsets[d..][1..] == offsets[d + 1..] && v[d..][1..] == v[d + 1..];
    Commute(offsets[d], v[d]);
  }

  lemma Commute(x: nat, y: nat)
    ensures x * y == y * x
  {
  }

  lemma {:induction false} ImplIsWeightedSum(offsets: seq<nat>, v: Vector, exts: Vector, d: nat)
    requires d <= |v| == |exts| == |offsets| && forall k :: 0 <= k < |v| ==> offsets[k] == Weight(exts, k)
    ensures WeightedSum(v, exts, d) + ImplCalculateOffset(offsets[d..], v[d..]) == WeightedSum(v, exts, |v|)
    decreases |v| - d
  {
    hide Weight, WeightedSum;
    if d < |v| {
      ImplIsWeightedSum(offsets, v, exts, d + 1);
      ImplStep(offsets, v, exts, d);
    }
  }

  // -------------------------------------------------------------------------- table

  class StringTable<T> {
    /** Lengths of the words; the source keeps only the weights and the size. */
    ghost const exts: Vector
    const indexOffsets: seq<nat>
    const values: array<T>

    ghost predicate Valid() {
      && |indexOffsets| == |exts|
      && (forall d :: 0 <= d < |exts| ==> indexOffsets[d] == Weight(exts, d))
      && values.Length == Cells(exts)
    }

    /** The cell of an index vector. */
    ghost function Cell(v: Vector): T
      requires Valid() && InRange(v, exts)
      reads values
    {
      OffsetInTable(v, exts);
      values[Offset(v, exts)]
    }

    /** A table for any number of words, with default values in all cells. */
    constructor NDimensional(lens: Vector, default: T)
      ensures Valid() && exts == lens && fresh(values)
      ensures forall v :: InRange(v, lens) ==> Cell(v) == default
    {
      var offsets: seq<nat>, multiplier := [], 1;
      while |offsets| < |lens|
        invariant |offsets| <= |lens|
        invariant multiplier == Weight(lens, |offsets|)
        invariant forall d :: 0 <= d < |offsets| ==> offsets[d] == Weight(lens, d)
      {
        CellsSplit(lens, |offsets|);
        var oldMultiplier := multiplier;
        multiplier := multiplier * (lens[|offsets|] + 1);
        offsets := offsets + [oldMultiplier];
      }
      assert lens[..|lens|] == lens;
      exts, indexOffsets := lens, offsets;
      values := new T[multiplier](_ => default);
      new;
      forall v | InRange(v, lens) ensures Cell(v) == default {
        OffsetInTable(v, lens);
      }
    }

    /** A table for a number of words fixed in advance. */
    constructor FixedDimensional(dims: Vector, default: T)
      ensures Valid() && exts == dims && fresh(values)
      ensures forall v :: InRange(v, dims) ==> Cell(v) == default
    {
      var filled := FillOffsetTable(1, dims);
      assert dims[..0] == [] && dims[0..] == dims && dims[..|dims|] == dims;
      FillIsWeights(dims, 0);
      exts, indexOffsets := dims, filled[..|dims|];
      values := new T[filled[|dims|]](_ => default);
      new;
      forall v | InRange(v, dims) ensures Cell(v) == default {
        OffsetInTable(v, dims);
      }
    }

    /** The cell of given indices, by recursion over the indices. */
    method At(v: Vector) returns (k: nat, x: T)
      requires Valid() && InRange(v, exts)
      ensures k == Offset(v, exts) && x == Cell(v)
    {
      k := ImplCalculateOffset(indexOffsets, v);
      ImplIsWeightedSum(indexOffsets, v, exts, 0);
      assert indexOffsets[0..] == indexOffsets && v[0..] == v;
      WeightedSumIsOffset(v, exts);
      OffsetInTable(v, exts);
      x := values[k];
    }

    /** The inner product of a vector and the weights; the first weight is one. */
    method CalculateOffset(v: Vector) returns (k: nat)
      requires Valid() && |v| == |exts| > 0
      ensures k == Offset(v, exts)
    {
      k := v[0];
      assert exts[..0] == [];
      assert WeightedSum(v, exts, 1) == WeightedSum(v, exts, 0) + v[0] * Weight(exts, 0);
      var i := 1;
      while i < |v|
        invariant 1 <= i <= |v|
        invariant k == WeightedSum(v, exts, i)
      {
        k := k + v[i] * indexOffsets[i];
        i := i + 1;
      }
      WeightedSumIsOffset(v, exts);
    }

    /** Adds a possibly negative multiple of a weight. */
    function AdjustByRelative(k: int, shift: int, weight: nat): int {
      if shift < 0 then k - (-shift) * weight else k + shift * weight
    }

    lemma Adjusted(k: int, shift: int, weight: nat)
      ensures AdjustByRelative(k, shift, weight) == k + shift * weight
    {
    }

    /** The offset of the vector with index `d` shifted. */
    method CalculateRelativeOffset(k: nat, d: nat, shift: int, ghost v: Vector) returns (relative: nat)
      requires Valid() && InRange(v, exts) && k == Offset(v, exts)
      requires d < |v| && 0 <= v[d] + shift <= exts[d]
      ensures InRange(v[d := v[d] + shift], exts) && relative == Offset(v[d := v[d] + shift], exts)
    {
      WeightedSumIsOffset(v, exts);
      WeightedSumIsOffset(v[d := v[d] + shift], exts);
      ShiftOne(v, exts, d, shift, |v|);
      Adjusted(k, shift, indexOffsets[d]);
      relative := AdjustByRelative(k, shift, indexOffsets[d]);
    }

    /** The offset of the vector with all indices shifted. */
    method CalculateAllRelativeOffset(k: nat, shift: int, ghost v: Vector) returns (relative: nat)
      requires Valid() && InRange(v, exts) && k == Offset(v, exts)
      requires forall i :: 0 <= i < |v| ==> 0 <= v[i] + shift <= exts[i]
      ensures InRange(AllShifted(v, shift), exts) && relative == Offset(AllShifted(v, shift), exts)
    {
      WeightedSumIsOffset(v, exts);
      WeightedSumIsOffset(AllShifted(v, shift), exts);
      ShiftAll(v, exts, shift, |v|);
      var sum: int := k;
      var i := 0;
      while i < |indexOffsets|
        invariant i <= |indexOffsets|
        invariant sum == k + ShiftedWeights(exts, shift, i)
      {
        hide Weight, AdjustByRelative;
        Adjusted(sum, shift, indexOffsets[i]);
        sum := AdjustByRelative(sum, shift, indexOffsets[i]);
        i := i + 1;
      }
      relative := sum;
    }

    /** The length of a word, from the weights alone. */
    method GetNthWordlength(d: nat) returns (length: nat)
      requires Valid() && d < |exts|
      ensures length == exts[d]
    {
      var above := if d == |indexOffsets| - 1 then values.Length else indexOffsets[d + 1];
      CellsSplit(exts, d);
      assert exts[..|exts|] == exts;
      DigitSplit(0, indexOffsets[d], exts[d] + 1);
      assert above == indexOffsets[d] * (exts[d] + 1);
      length := above / indexOffsets[d] - 1;
    }

    /** Stores through an offset. */
    method Set(ghost v: Vector, k: nat, value: T)
      requires Valid() && InRange(v, exts) && k == Offset(v, exts)
      modifies values
      ensures k < values.Length && values[..] == old(values[..])[k := value]
      ensures Cell(v) == value
      ensures forall w :: InRange(w, exts) && w != v ==> Cell(w) == old(Cell(w))
    {
      OffsetInTable(v, exts);
      values[k] := value;
      forall w | InRange(w, exts) && w != v ensures Cell(w) == old(Cell(w)) {
        OffsetInTable(w, exts);
        VectorOfOffset(v, exts);
        VectorOfOffset(w, exts);
      }
    }
  }
}

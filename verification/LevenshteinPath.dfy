/**
 The full Levenshtein matrix and the edit script read off its values
 (flt/string/levenshtein_path.hpp).
*/
module LevenshteinPath {
  import opened Levenshtein
  import opened StringTables

  /** All cells of the matrix hold the distance of their prefixes. */
  ghost predicate IsMatrix<A, B>(mat: StringTable<nat>, a: seq<A>, b: seq<B>, eq: Comparison<A, B>)
    reads mat.values
  {
    && mat.Valid() && mat.exts == [|a|, |b|]
    && forall i: nat, j: nat :: i <= |a| && j <= |b| ==> HoldsDist(mat, a, b, eq, i, j)
  }

  ghost predicate HoldsDist<A, B>(mat: StringTable<nat>, a: seq<A>, b: seq<B>, eq: Comparison<A, B>, i: nat, j: nat)
    requires mat.Valid() && mat.exts == [|a|, |b|] && i <= |a| && j <= |b|
    reads mat.values
  {
    mat.Cell([i, j]) == Dist(a, b, eq, i, j)
  }

  /** Stores into one cell and keeps the others. */
  method SetCell<A, B>(mat: StringTable<nat>, i: nat, j: nat, x: nat, ghost a: seq<A>, ghost b: seq<B>,
      ghost eq: Comparison<A, B>)
    requires mat.Valid() && mat.exts == [|a|, |b|] && i <= |a| && j <= |b| && x == Dist(a, b, eq, i, j)
    modifies mat.values
    ensures HoldsDist(mat, a, b, eq, i, j)
    ensures forall p: nat, q: nat :: p <= |a| && q <= |b| && old(HoldsDist(mat, a, b, eq, p, q)) ==>
      HoldsDist(mat, a, b, eq, p, q)
  {
    var k, before := mat.At([i, j]);
    mat.Set([i, j], k, x);
    forall p: nat, q: nat | p <= |a| && q <= |b| && old(HoldsDist(mat, a, b, eq, p, q))
      ensures HoldsDist(mat, a, b, eq, p, q)
    {
      assert [p, q] == [i, j] ==> p == i && q == j by {
        assert [p, q][0] == p && [p, q][1] == q;
      }
    }
  }

  method CalculateLevenshteinMatrix<A, B>(lhs: seq<A>, rhs: seq<B>, eq: Comparison<A, B>)
    returns (mat: StringTable<nat>)
    ensures fresh(mat) && fresh(mat.values) && IsMatrix(mat, lhs, rhs, eq)
  {
    hide StringTable.Valid, StringTable.Cell, Dist, HoldsDist;
    mat := new StringTable.FixedDimensional([|lhs|, |rhs|], 0);
    CornerHolds(mat, lhs, rhs, eq);
    var i := 1;
    while i <= |lhs|
      invariant 1 <= i <= |lhs| + 1 && mat.Valid() && fresh(mat.values)
      invariant forall p: nat :: p < i ==> HoldsDist(mat, lhs, rhs, eq, p, 0)
    {
      DistEdge(lhs, rhs, eq, i, 0);
      SetCell(mat, i, 0, i, lhs, rhs, eq);
      i := i + 1;
    }
    var j := 1;
    while j <= |rhs|
      invariant 1 <= j <= |rhs| + 1 && mat.Valid() && fresh(mat.values)
      invariant forall p: nat :: p <= |lhs| ==> HoldsDist(mat, lhs, rhs, eq, p, 0)
      invariant forall q: nat :: q < j ==> HoldsDist(mat, lhs, rhs, eq, 0, q)
    {
      DistEdge(lhs, rhs, eq, 0, j);
      SetCell(mat, 0, j, j, lhs, rhs, eq);
      j := j + 1;
    }
    i := 1;
    while i <= |lhs|
      invariant 1 <= i <= |lhs| + 1 && mat.Valid() && fresh(mat.values)
      invariant forall p: nat :: p <= |lhs| ==> HoldsDist(mat, lhs, rhs, eq, p, 0)
      invariant forall p: nat, q: nat :: p < i && q <= |rhs| ==> HoldsDist(mat, lhs, rhs, eq, p, q)
    {
      FillLine(mat, lhs, rhs, eq, i);
      i := i + 1;
    }
  }

  lemma CornerHolds<A, B>(mat: StringTable<nat>, a: seq<A>, b: seq<B>, eq: Comparison<A, B>)
    requires mat.Valid() && mat.exts == [|a|, |b|]
    requires forall v :: InRange(v, mat.exts) ==> mat.Cell(v) == 0
    ensures HoldsDist(mat, a, b, eq, 0, 0)
  {
    assert InRange([0, 0], mat.exts);
  }

  /** The inner loop: one line of the matrix. */
  method FillLine<A, B>(mat: StringTable<nat>, lhs: seq<A>, rhs: seq<B>, eq: Comparison<A, B>, i: nat)
    requires mat.Valid() && mat.exts == [|lhs|, |rhs|] && 1 <= i <= |lhs|
    requires HoldsDist(mat, lhs, rhs, eq, i, 0)
    requires forall p: nat, q: nat :: p == i - 1 && q <= |rhs| ==> HoldsDist(mat, lhs, rhs, eq, p, q)
    modifies mat.values
    ensures forall q: nat :: q <= |rhs| ==> HoldsDist(mat, lhs, rhs, eq, i, q)
    ensures forall p: nat, q: nat :: p <= |lhs| && q <= |rhs| && old(HoldsDist(mat, lhs, rhs, eq, p, q)) ==>
      HoldsDist(mat, lhs, rhs, eq, p, q)
  {
    var j := 1;
    while j <= |rhs|
      invariant 1 <= j <= |rhs| + 1
      invariant forall q: nat :: q < j ==> HoldsDist(mat, lhs, rhs, eq, i, q)
      invariant forall p: nat, q: nat :: p <= |lhs| && q <= |rhs| && old(HoldsDist(mat, lhs, rhs, eq, p, q)) ==>
        HoldsDist(mat, lhs, rhs, eq, p, q)
    {
      hide Dist, HoldsDist, StringTable.Valid;
      FillCell(mat, lhs, rhs, eq, i, j);
      j := j + 1;
    }
  }

  method FillCell<A, B>(mat: StringTable<nat>, lhs: seq<A>, rhs: seq<B>, eq: Comparison<A, B>, i: nat, j: nat)
    requires mat.Valid() && mat.exts == [|lhs|, |rhs|] && 1 <= i <= |lhs| && 1 <= j <= |rhs|
    requires HoldsDist(mat, lhs, rhs, eq, i - 1, j) && HoldsDist(mat, lhs, rhs, eq, i, j - 1)
    requires HoldsDist(mat, lhs, rhs, eq, i - 1, j - 1)
    modifies mat.values
    ensures HoldsDist(mat, lhs, rhs, eq, i, j)
    ensures forall p: nat, q: nat :: p <= |lhs| && q <= |rhs| && old(HoldsDist(mat, lhs, rhs, eq, p, q)) ==>
      HoldsDist(mat, lhs, rhs, eq, p, q)
  {
    hide Dist, HoldsDist, StringTable.Valid;
    var up := Read(mat, i - 1, j, lhs, rhs, eq);
    var left := Read(mat, i, j - 1, lhs, rhs, eq);
    var diag := Read(mat, i - 1, j - 1, lhs, rhs, eq);
    DistStep(lhs, rhs, eq, i, j);
    SetCell(mat, i, j, Min3(up + 1, left + 1, diag + Mismatch(lhs[i - 1], rhs[j - 1], eq)), lhs, rhs, eq);
  }

  method Read<A, B>(mat: StringTable<nat>, i: nat, j: nat, ghost a: seq<A>, ghost b: seq<B>,
      ghost eq: Comparison<A, B>) returns (x: nat)
    requires mat.Valid() && mat.exts == [|a|, |b|] && i <= |a| && j <= |b| && HoldsDist(mat, a, b, eq, i, j)
    ensures x == Dist(a, b, eq, i, j)
  {
    var k;
    k, x := mat.At([i, j]);
  }

  // ---------------------------------------------------------------------- trace-back

  function Reversed(s: seq<EditOp>): seq<EditOp> {
    if s == [] then [] else Reversed(s[1..]) + [s[0]]
  }

  lemma {:induction false} ReversedMore(s: seq<EditOp>, op: EditOp)
    ensures Reversed(s + [op]) == [op] + Reversed(s)
  {
    if s == [] {
      assert [op][1..] == [];
    } else {
      ReversedMore(s[1..], op);
      assert (s + [op])[1..] == s[1..] + [op];
    }
  }

  function Repeat(op: EditOp, n: nat): seq<EditOp> {
    seq(n, _ => op)
  }

  /** The script for the first elements that tracing back step by step yields. */
  function TraceBack<A, B>(a: seq<A>, b: seq<B>, eq: Comparison<A, B>, i: nat, j: nat): seq<EditOp>
    requires i <= |a| && j <= |b|
    decreases i + j
  {
    if i == 0 || j == 0 then Repeat(if i > 0 then Deletion else Insertion, i + j)
    else
      var op := BackOf(a, b, eq, i, j);
      TraceBack(a, b, eq, if op == Insertion then i else i - 1, if op == Deletion then j else j - 1) + [op]
  }

  lemma TraceStep<A, B>(a: seq<A>, b: seq<B>, eq: Comparison<A, B>, i: nat, j: nat, stack: seq<EditOp>, op: EditOp)
    requires 0 < i <= |a| && 0 < j <= |b| && op == BackOf(a, b, eq, i, j)
    ensures TraceBack(a, b, eq, i, j) + Reversed(stack)
         == TraceBack(a, b, eq, if op == Insertion then i else i - 1, if op == Deletion then j else j - 1)
            + Reversed(stack + [op])
  {
    hide *;
    ReversedMore(stack, op);
    TraceMore(a, b, eq, i, j, op);
  }

  lemma TraceMore<A, B>(a: seq<A>, b: seq<B>, eq: Comparison<A, B>, i: nat, j: nat, op: EditOp)
    requires 0 < i <= |a| && 0 < j <= |b| && op == BackOf(a, b, eq, i, j)
    ensures TraceBack(a, b, eq, i, j)
         == TraceBack(a, b, eq, if op == Insertion then i else i - 1, if op == Deletion then j else j - 1) + [op]
  {
    hide BackOf;
  }

  lemma TraceEnds<A, B>(a: seq<A>, b: seq<B>, eq: Comparison<A, B>, i: nat, j: nat)
    requires i <= |a| && j <= |b| && (i == 0 || j == 0)
    ensures TraceBack(a, b, eq, i, j) == Repeat(if i > 0 then Deletion else Insertion, i + j)
  {
  }

  /** A script for the rest of both sequences, and what it costs. */
  ghost predicate Completes<A, B>(ops: seq<EditOp>, a: seq<A>, b: seq<B>, eq: Comparison<A, B>, i: nat, j: nat) {
    && i <= |a| && j <= |b| && Turns(ops, a, b, eq, i, j, true)
    && Dist(a, b, eq, i, j) + Cost(ops) == Distance(a, b, eq)
  }

  lemma StepBack<A, B>(ops: seq<EditOp>, a: seq<A>, b: seq<B>, eq: Comparison<A, B>, i: nat, j: nat, op: EditOp)
    requires Completes(ops, a, b, eq, i, j) && i > 0 && j > 0
    requires op == BackOf(a, b, eq, i, j)
    ensures Completes([op] + ops, a, b, eq, if op == Insertion then i else i - 1, if op == Deletion then j else j - 1)
  {
    hide Dist, BackOf, BackStep, Turns, Cost;
    BackStepIsRight(a, b, eq, i, j);
    OneMoreOp(op, ops, a, b, eq, if op == Insertion then i else i - 1, if op == Deletion then j else j - 1);
  }

  lemma OneMoreOp<A, B>(op: EditOp, ops: seq<EditOp>, a: seq<A>, b: seq<B>, eq: Comparison<A, B>, i: nat, j: nat)
    requires op != Insertion ==> i < |a|
    requires op != Deletion ==> j < |b|
    requires op == Retention ==> eq(a[i], b[j])
    requires op == Substitution ==> !eq(a[i], b[j])
    requires Turns(ops, a, b, eq, if op == Insertion then i else i + 1, if op == Deletion then j else j + 1, true)
    ensures Turns([op] + ops, a, b, eq, i, j, true)
    ensures Cost([op] + ops) == Cost(ops) + if op == Retention then 0 else 1
  {
    assert ([op] + ops)[1..] == ops;
  }

  lemma {:induction false} EdgeBack<A, B>(ops: seq<EditOp>, a: seq<A>, b: seq<B>, eq: Comparison<A, B>, i: nat, j: nat)
    requires Completes(ops, a, b, eq, i, j) && (i == 0 || j == 0)
    ensures Completes(Repeat(if i > 0 then Deletion else Insertion, i + j) + ops, a, b, eq, 0, 0)
    decreases i + j
  {
    var op := if i > 0 then Deletion else Insertion;
    if i == 0 && j == 0 {
      assert Repeat(op, 0) + ops == ops;
    } else {
      var i', j' := if i > 0 then i - 1 else 0, if i > 0 then 0 else j - 1;
      assert ([op] + ops)[1..] == ops;
      EdgeBack([op] + ops, a, b, eq, i', j');
      assert i + j > 1 ==> Repeat(op, i + j) + ops == Repeat(op, i' + j') + ([op] + ops);
      assert i + j == 1 ==> Repeat(op, i + j) + ops == [op] + ops;
    }
  }

  lemma NothingLeft<A, B>(a: seq<A>, b: seq<B>, eq: Comparison<A, B>)
    ensures Completes([], a, b, eq, |a|, |b|)
  {
  }

  lemma WholeScript<A, B>(ops: seq<EditOp>, a: seq<A>, b: seq<B>, eq: Comparison<A, B>)
    requires Completes(ops, a, b, eq, 0, 0)
    ensures Distance(a, b, eq) == Cost(ops) && Turns(ops, a, b, eq, 0, 0, true)
  {
  }

  lemma MatrixShape<A, B>(mat: StringTable<nat>, a: seq<A>, b: seq<B>, eq: Comparison<A, B>)
    requires IsMatrix(mat, a, b, eq)
    ensures mat.Valid() && mat.exts == [|a|, |b|]
  {
  }

  /** Appends the operations of a stack, its top first. */
  method PopAll(first: seq<EditOp>, pushed: seq<EditOp>) returns (ops: seq<EditOp>)
    ensures ops == first + Reversed(pushed)
  {
    ops := first;
    var stack := pushed;
    while stack != []
      invariant ops + Reversed(stack) == first + Reversed(pushed)
    {
      ghost var init, top := stack[..|stack| - 1], stack[|stack| - 1];
      assert stack == init + [top];
      ReversedMore(init, top);
      ops := ops + [stack[|stack| - 1]];
      stack := stack[..|stack| - 1];
    }
  }

  /** Reads an edit script off the matrix, from the last cell backwards. Neither the
      sequences nor the comparison are looked at again. */
  method FindLevenshteinPath<A, B>(mat: StringTable<nat>, ghost a: seq<A>, ghost b: seq<B>, ghost eq: Comparison<A, B>)
    returns (cost: nat, ops: seq<EditOp>)
    requires IsMatrix(mat, a, b, eq)
    ensures cost == Distance(a, b, eq) == Cost(ops)
    ensures Turns(ops, a, b, eq, 0, 0, true) && ops == TraceBack(a, b, eq, |a|, |b|)
  {
    hide Turns, Cost, Dist, Distance, BackStep, Repeat, Completes, IsMatrix, TraceBack;
    MatrixShape(mat, a, b, eq);
    var i := mat.GetNthWordlength(0);
    var j := mat.GetNthWordlength(1);
    var stack: seq<EditOp> := [];
    NothingLeft(a, b, eq);
    assert TraceBack(a, b, eq, i, j) + Reversed([]) == TraceBack(a, b, eq, i, j);
    while i > 0 && j > 0
      invariant 0 <= i <= |a| && 0 <= j <= |b| && Completes(Reversed(stack), a, b, eq, i, j)
      invariant TraceBack(a, b, eq, |a|, |b|) == TraceBack(a, b, eq, i, j) + Reversed(stack)
      decreases i + j
    {
      var item := PickItem(mat, i, j, a, b, eq);
      ReversedMore(stack, item);
      TraceStep(a, b, eq, i, j, stack, item);
      StepBack(Reversed(stack), a, b, eq, i, j, item);
      stack := stack + [item];
      match item {
        case Retention => i, j := i - 1, j - 1;
        case Substitution => i, j := i - 1, j - 1;
        case Deletion => i := i - 1;
        case Insertion => j := j - 1;
      }
    }
    var k := if i < j then j else i;
    var edge := Repeat(if i > 0 then Deletion else Insertion, k);
    EdgeBack(Reversed(stack), a, b, eq, i, j);
    TraceEnds(a, b, eq, i, j);
    ops := PopAll(edge, stack);
    WholeScript(ops, a, b, eq);
    cost := Last(mat, a, b, eq);
  }

  /** The last cell of the array is the cell of the whole sequences. */
  method Last<A, B>(mat: StringTable<nat>, ghost a: seq<A>, ghost b: seq<B>, ghost eq: Comparison<A, B>)
    returns (x: nat)
    requires IsMatrix(mat, a, b, eq)
    ensures x == Distance(a, b, eq)
  {
    OffsetInTable([|a|, |b|], mat.exts);
    LastOffset(mat.exts);
    assert HoldsDist(mat, a, b, eq, |a|, |b|);
    x := mat.values[mat.values.Length - 1];
  }

  /** The choice at one cell, by comparing it with its three predecessors. */
  method PickItem<A, B>(mat: StringTable<nat>, i: nat, j: nat, ghost a: seq<A>, ghost b: seq<B>,
      ghost eq: Comparison<A, B>)
    returns (item: EditOp)
    requires IsMatrix(mat, a, b, eq) && 0 < i <= |a| && 0 < j <= |b|
    ensures item == BackOf(a, b, eq, i, j)
  {
    hide Dist, HoldsDist, StringTable.Valid;
    var here := Read(mat, i, j, a, b, eq);
    var up := Read(mat, i - 1, j, a, b, eq);
    var left := Read(mat, i, j - 1, a, b, eq);
    var minCost := Read(mat, i - 1, j - 1, a, b, eq);
    item := if here == minCost then Retention else Substitution;
    if up < minCost {
      minCost := up;
      item := Deletion;
    }
    if left < minCost {
      item := Insertion;
    }
  }

  /** Distance and script of two sequences. */
  method LevenshteinPath<A, B>(lhs: seq<A>, rhs: seq<B>, eq: Comparison<A, B>) returns (cost: nat, ops: seq<EditOp>)
    ensures cost == Distance(lhs, rhs, eq) == Cost(ops)
    ensures Turns(ops, lhs, rhs, eq, 0, 0, true) && ops == TraceBack(lhs, rhs, eq, |lhs|, |rhs|)
  {
    var mat := CalculateLevenshteinMatrix(lhs, rhs, eq);
    cost, ops := FindLevenshteinPath(mat, lhs, rhs, eq);
  }
}

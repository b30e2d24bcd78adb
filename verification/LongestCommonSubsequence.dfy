/**
 Filling the table of common subsequences by a recursive loop nest, and tracing a
 longest one back through it (flt/string/longest_common_subsequence.hpp).
*/
module LongestCommonSubsequence {
  import opened StringTables
  import opened CommonSubsequences

  // --------------------------------------------------------------------- fill order

  predicate BeforeAt(w: Vector, pos: Vector, j: nat)
    requires j < |w| && j < |pos|
  {
    w[..j] == pos[..j] && w[j] < pos[j]
  }

  /** The loop nest has passed `w`: it comes lexicographically before the positions of
      the outer `n` loops or, with `through`, has these very positions. */
  ghost predicate Passed(w: Vector, pos: Vector, n: nat, through: bool)
    requires n <= |w| && n <= |pos|
  {
    (exists j :: 0 <= j < n && BeforeAt(w, pos, j)) || (through && w[..n] == pos[..n])
  }

  /** The cells passed fit, all others are as constructed. */
  ghost predicate Progress<T>(words: Words<T>, comp: Comparison<T>, cells: seq<Entry>, pos: Vector, n: nat,
      through: bool) {
    && words != [] && IsTable(cells, Lengths(words)) && n <= |pos| == |words|
    && forall w :: InRange(w, Lengths(words)) ==> Reached(words, comp, cells, pos, n, through, w)
  }

  ghost predicate Reached<T>(words: Words<T>, comp: Comparison<T>, cells: seq<Entry>, pos: Vector, n: nat,
      through: bool, w: Vector)
    requires words != [] && IsTable(cells, Lengths(words)) && n <= |pos| == |words| && InRange(w, Lengths(words))
  {
    if Positive(w) && Passed(w, pos, n, through) then Fits(words, comp, cells, w)
    else At(cells, Lengths(words), w) == DEFAULT
  }

  lemma EnterLoop<T>(words: Words<T>, comp: Comparison<T>, cells: seq<Entry>, pos: Vector, pos': Vector, i: nat)
    requires i < |pos| == |pos'| && Progress(words, comp, cells, pos, i, false)
    requires pos' == pos[i := 1]
    ensures Progress(words, comp, cells, pos', i + 1, false)
  {
    forall w | InRange(w, Lengths(words)) ensures Reached(words, comp, cells, pos', i + 1, false, w) {
      assert Reached(words, comp, cells, pos, i, false, w);
      if Positive(w) {
        forall j | 0 <= j < i ensures BeforeAt(w, pos, j) == BeforeAt(w, pos', j) {
          assert pos[..j] == pos'[..j];
        }
        assert !BeforeAt(w, pos', i);
      }
    }
  }

  lemma StepLoop<T>(words: Words<T>, comp: Comparison<T>, cells: seq<Entry>, pos: Vector, pos': Vector, i: nat)
    requires i < |pos| == |pos'| && Progress(words, comp, cells, pos, i + 1, true)
    requires pos' == pos[i := pos[i] + 1]
    ensures Progress(words, comp, cells, pos', i + 1, false)
  {
    forall w | InRange(w, Lengths(words)) ensures Reached(words, comp, cells, pos', i + 1, false, w) {
      assert Reached(words, comp, cells, pos, i + 1, true, w);
      StepPasses(w, pos, pos', i);
    }
  }

  lemma StepPasses(w: Vector, pos: Vector, pos': Vector, i: nat)
    requires i < |pos| == |pos'| == |w| && pos' == pos[i := pos[i] + 1]
    ensures Passed(w, pos, i + 1, true) == Passed(w, pos', i + 1, false)
  {
    forall j | 0 <= j < i ensures BeforeAt(w, pos, j) == BeforeAt(w, pos', j) {
      assert pos[..j] == pos'[..j];
    }
    assert pos[..i] == pos'[..i];
    assert BeforeAt(w, pos', i) <==> BeforeAt(w, pos, i) || w[..i + 1] == pos[..i + 1] by {
      assert w[..i + 1] == w[..i] + [w[i]] && pos[..i + 1] == pos[..i] + [pos[i]];
    }
  }

  lemma LeaveLoop<T>(words: Words<T>, comp: Comparison<T>, cells: seq<Entry>, pos: Vector, i: nat)
    requires i < |pos| && Progress(words, comp, cells, pos, i + 1, false)
    requires pos[i] == |words[i]| + 1
    ensures Progress(words, comp, cells, pos, i, true)
  {
    forall w | InRange(w, Lengths(words)) ensures Reached(words, comp, cells, pos, i, true, w) {
      assert Reached(words, comp, cells, pos, i + 1, false, w);
      assert BeforeAt(w, pos, i) <==> w[..i] == pos[..i];
    }
  }

  lemma AllPassed<T>(words: Words<T>, comp: Comparison<T>, cells: seq<Entry>, pos: Vector)
    requires Progress(words, comp, cells, pos, 0, true)
    ensures IsFilled(words, comp, cells)
  {
    forall w | InRange(w, Lengths(words)) ensures Fits(words, comp, cells, w) {
      assert Reached(words, comp, cells, pos, 0, true, w);
      assert w[..0] == pos[..0];
    }
  }

  // ------------------------------------------------------------------------ one cell

  lemma AtAfter(cells: seq<Entry>, exts: Vector, pos: Vector, e: Entry, w: Vector)
    requires IsTable(cells, exts) && InRange(pos, exts) && InRange(w, exts)
    requires Offset(pos, exts) < |cells|
    ensures At(cells[Offset(pos, exts) := e], exts, w) == if w == pos then e else At(cells, exts, w)
  {
    OffsetInTable(w, exts);
    VectorOfOffset(w, exts);
    VectorOfOffset(pos, exts);
  }

  /** Cells other than `pos` are read as before. */
  ghost predicate SameBut(cells: seq<Entry>, cells': seq<Entry>, exts: Vector, pos: Vector)
    requires IsTable(cells, exts) && IsTable(cells', exts)
  {
    forall w :: InRange(w, exts) && w != pos ==> At(cells', exts, w) == At(cells, exts, w)
  }

  lemma BestElsewhere(cells: seq<Entry>, cells': seq<Entry>, exts: Vector, pos: Vector, w: Vector, e: Entry, n: nat)
    requires IsTable(cells, exts) && IsTable(cells', exts) && SameBut(cells, cells', exts, pos)
    requires InRange(w, exts) && Positive(w) && n <= |w| && IsBest(cells, exts, w, e, n)
    requires forall d :: 0 <= d < |w| ==> Down(w, d) != pos
    ensures IsBest(cells', exts, w, e, n)
  {
    forall d | 0 <= d < n ensures At(cells', exts, Down(w, d)) == At(cells, exts, Down(w, d)) {
    }
  }

  lemma RightElsewhere<T>(words: Words<T>, comp: Comparison<T>, cells: seq<Entry>, cells': seq<Entry>,
      pos: Vector, w: Vector, e: Entry)
    requires words != [] && IsTable(cells, Lengths(words)) && IsTable(cells', Lengths(words))
    requires SameBut(cells, cells', Lengths(words), pos)
    requires InRange(w, Lengths(words)) && Positive(w) && Right(words, comp, cells, w, e)
    requires Back(w) != pos && forall d :: 0 <= d < |w| ==> Down(w, d) != pos
    ensures Right(words, comp, cells', w, e)
  {
    PredecessorsInRange(w, Lengths(words));
    if !AllMatch(words, comp, Back(w)) {
      BestElsewhere(cells, cells', Lengths(words), pos, w, e, |w|);
    }
  }

  /** No cell passed reads the cell at the positions. */
  lemma PassedReadsOthers(w: Vector, pos: Vector)
    requires |w| == |pos| > 0 && Positive(w) && (Passed(w, pos, |w|, false) || w == pos)
    ensures Back(w) != pos && forall d :: 0 <= d < |w| ==> Down(w, d) != pos
  {
    if w == pos {
      assert Back(w)[0] != pos[0];
      forall d | 0 <= d < |w| ensures Down(w, d) != pos {
        assert Down(w, d)[d] != pos[d];
      }
    } else {
      var j :| 0 <= j < |w| && BeforeAt(w, pos, j);
      assert Back(w)[j] != pos[j];
      forall d | 0 <= d < |w| ensures Down(w, d) != pos {
        assert Down(w, d)[j] != pos[j];
      }
    }
  }

  lemma StoreReached<T>(words: Words<T>, comp: Comparison<T>, cells: seq<Entry>, cells': seq<Entry>, pos: Vector,
      w: Vector)
    requires Progress(words, comp, cells, pos, |pos|, false) && IsTable(cells', Lengths(words))
    requires InRange(pos, Lengths(words)) && Positive(pos)
    requires SameBut(cells, cells', Lengths(words), pos)
    requires Right(words, comp, cells, pos, At(cells', Lengths(words), pos))
    requires InRange(w, Lengths(words))
    ensures Reached(words, comp, cells', pos, |pos|, true, w)
  {
    assert Reached(words, comp, cells, pos, |pos|, false, w);
    assert w[..|pos|] == w && pos[..|pos|] == pos;
    if Positive(w) && Passed(w, pos, |pos|, true) {
      hide IsBest, AllMatch, BeforeAt;
      PassedReadsOthers(w, pos);
      RightElsewhere(words, comp, cells, cells', pos, w, At(cells', Lengths(words), w));
    }
  }

  lemma StoreIsProgress<T>(words: Words<T>, comp: Comparison<T>, cells: seq<Entry>, cells': seq<Entry>, pos: Vector)
    requires Progress(words, comp, cells, pos, |pos|, false) && IsTable(cells', Lengths(words))
    requires InRange(pos, Lengths(words)) && Positive(pos)
    requires SameBut(cells, cells', Lengths(words), pos)
    requires Right(words, comp, cells, pos, At(cells', Lengths(words), pos))
    ensures Progress(words, comp, cells', pos, |pos|, true)
  {
    hide Reached, Right;
    forall w | InRange(w, Lengths(words)) ensures Reached(words, comp, cells', pos, |pos|, true, w) {
      StoreReached(words, comp, cells, cells', pos, w);
    }
  }

  // ------------------------------------------------------------------- the loop nest

  /** The table is one for these words. */
  ghost predicate Shaped<T>(table: StringTable<Entry>, words: Words<T>) {
    table.Valid() && words != [] && table.exts == Lengths(words)
  }

  /** The positions of the first `n` loops and the iterators beside them. */
  predicate InStep<T>(words: Words<T>, positions: Vector, iterators: Vector, n: nat) {
    && |positions| == |iterators| == |words| && n <= |words|
    && forall j :: 0 <= j < n ==> 1 <= positions[j] <= |words[j]| && iterators[j] + 1 == positions[j]
  }

  method MatchesFirst<T>(words: Words<T>, comp: Comparison<T>, iterators: array<nat>) returns (all: bool)
    requires |words| == iterators.Length > 0 && forall j :: 0 <= j < |words| ==> iterators[j] < |words[j]|
    ensures all == AllMatch(words, comp, iterators[..])
  {
    all := true;
    var j := 1;
    while j < |words| && all
      invariant 1 <= j <= |words|
      invariant all == forall i :: 1 <= i < j ==> comp(words[i][iterators[i]], words[0][iterators[0]])
    {
      all := comp(words[j][iterators[j]], words[0][iterators[0]]);
      j := j + 1;
    }
  }

  /** Stores the entry of the positions; all other cells stay as in `before`. */
  method Store(table: StringTable<Entry>, ghost before: seq<Entry>, ghost pos: Vector, k: nat, e: Entry)
    requires table.Valid() && InRange(pos, table.exts) && k == Offset(pos, table.exts)
    requires IsTable(before, table.exts) && SameBut(before, table.values[..], table.exts, pos)
    modifies table.values
    ensures SameBut(before, table.values[..], table.exts, pos)
    ensures At(table.values[..], table.exts, pos) == e
  {
    hide Cells, Offset;
    OffsetInTable(pos, table.exts);
    table.Set(pos, k, e);
    forall w | InRange(w, table.exts)
      ensures At(table.values[..], table.exts, w) == if w == pos then e else At(old(table.values[..]), table.exts, w)
    {
      AtAfter(old(table.values[..]), table.exts, pos, e, w);
    }
  }

  /** The entry one step down in dimension `d`. */
  method Candidate(table: StringTable<Entry>, ghost before: seq<Entry>, ghost pos: Vector, k: nat, d: nat)
    returns (entry: Entry)
    requires table.Valid() && InRange(pos, table.exts) && Positive(pos) && k == Offset(pos, table.exts)
    requires IsTable(before, table.exts) && SameBut(before, table.values[..], table.exts, pos) && d < |pos|
    ensures InRange(Down(pos, d), table.exts) && entry == At(before, table.exts, Down(pos, d))
  {
    hide Cells, Offset;
    var down := table.CalculateRelativeOffset(k, d, -1, pos);
    OffsetInTable(Down(pos, d), table.exts);
    entry := table.values[down];
    assert Down(pos, d)[d] != pos[d];
    assert At(table.values[..], table.exts, Down(pos, d)) == entry;
  }

  lemma BestStep(cells: seq<Entry>, exts: Vector, v: Vector, e: Entry, d: nat)
    requires IsTable(cells, exts) && InRange(v, exts) && Positive(v) && d < |v| && IsBest(cells, exts, v, e, d)
    requires InRange(Down(v, d), exts)
    ensures var c := At(cells, exts, Down(v, d)).value;
      IsBest(cells, exts, v, if e.value < c then Entry(c, Dropped(d)) else e, d + 1)
  {
  }

  /** The candidate loop: keeps the largest value and the dimension it came from. */
  method ChooseDimension<T>(table: StringTable<Entry>, words: Words<T>, ghost comp: Comparison<T>,
      ghost pos: Vector, k: nat)
    requires Shaped(table, words) && InRange(pos, table.exts) && Positive(pos) && k == Offset(pos, table.exts)
    requires !AllMatch(words, comp, Back(pos)) && At(table.values[..], table.exts, pos) == DEFAULT
    modifies table.values
    ensures SameBut(old(table.values[..]), table.values[..], table.exts, pos)
    ensures Right(words, comp, old(table.values[..]), pos, At(table.values[..], table.exts, pos))
  {
    hide Cells, Offset, AllMatch, IsBest, SameBut;
    var d := 0;
    ghost var before := table.values[..];
    StartBest(before, table.exts, pos);
    while d < |words|
      invariant d <= |words|
      invariant SameBut(before, table.values[..], table.exts, pos)
      invariant IsBest(before, table.exts, pos, At(table.values[..], table.exts, pos), d)
    {
      var candidate := Candidate(table, before, pos, k, d);
      BestStep(before, table.exts, pos, At(table.values[..], table.exts, pos), d);
      OffsetInTable(pos, table.exts);
      if table.values[k].value < candidate.value {
        Store(table, before, pos, k, Entry(candidate.value, Dropped(d)));
      }
      d := d + 1;
    }
  }

  lemma StartBest(cells: seq<Entry>, exts: Vector, v: Vector)
    requires IsTable(cells, exts) && InRange(v, exts) && Positive(v)
    ensures SameBut(cells, cells, exts, v) && IsBest(cells, exts, v, DEFAULT, 0)
  {
  }

  /** The innermost statement of the nest: one cell. */
  method FillCell<T>(table: StringTable<Entry>, words: Words<T>, comp: Comparison<T>, iterators: array<nat>,
      positions: array<nat>)
    requires Shaped(table, words) && InStep(words, positions[..], iterators[..], |words|)
    requires Progress(words, comp, table.values[..], positions[..], |words|, false)
    modifies table.values
    ensures Progress(words, comp, table.values[..], positions[..], |words|, true)
  {
    hide Cells, Offset, AllMatch, Progress, Right, SameBut, IsBest, At;
    ghost var before := table.values[..];
    var pos := positions[..];
    assert InRange(pos, table.exts) && Positive(pos) && iterators[..] == Back(pos);
    NotYetPassed(words, comp, before, pos);
    var k := table.CalculateOffset(pos);
    var matching := MatchesFirst(words, comp, iterators);
    if matching {
      var prev := table.CalculateAllRelativeOffset(k, -1, pos);
      StoreMatch(table, words, comp, pos, k, prev);
    } else {
      ChooseDimension(table, words, comp, pos, k);
    }
    StoreIsProgress(words, comp, before, table.values[..], pos);
  }

  method StoreMatch<T>(table: StringTable<Entry>, ghost words: Words<T>, ghost comp: Comparison<T>,
      ghost pos: Vector, k: nat, prev: nat)
    requires Shaped(table, words) && InRange(pos, table.exts) && Positive(pos) && k == Offset(pos, table.exts)
    requires InRange(Back(pos), table.exts) && prev == Offset(Back(pos), table.exts)
    requires AllMatch(words, comp, Back(pos)) && At(table.values[..], table.exts, pos) == DEFAULT
    modifies table.values
    ensures SameBut(old(table.values[..]), table.values[..], table.exts, pos)
    ensures Right(words, comp, old(table.values[..]), pos, At(table.values[..], table.exts, pos))
  {
    hide Cells, Offset, AllMatch, SameBut;
    ghost var before := table.values[..];
    StartBest(before, table.exts, pos);
    OffsetInTable(pos, table.exts);
    OffsetInTable(Back(pos), table.exts);
    Store(table, before, pos, k, table.values[k].(value := table.values[prev].value + 1));
  }

  lemma NotYetPassed<T>(words: Words<T>, comp: Comparison<T>, cells: seq<Entry>, pos: Vector)
    requires Progress(words, comp, cells, pos, |pos|, false) && InRange(pos, Lengths(words))
    ensures At(cells, Lengths(words), pos) == DEFAULT
  {
    assert Reached(words, comp, cells, pos, |pos|, false, pos);
  }

  /** Loop `i` of the nest: runs its position over its word and the loops inside it. */
  method InnerDynamicLoop<T>(table: StringTable<Entry>, words: Words<T>, comp: Comparison<T>, i: nat,
                             iterators: array<nat>, positions: array<nat>)
    requires Shaped(table, words) && i < |words| && iterators != positions
    requires InStep(words, positions[..], iterators[..], i)
    requires Progress(words, comp, table.values[..], positions[..], i, false)
    modifies table.values, iterators, positions
    ensures positions[..i] == old(positions[..i]) && iterators[..i] == old(iterators[..i])
    ensures Progress(words, comp, table.values[..], positions[..], i, true)
    decreases |words| - i
  {
    hide Cells, Offset, Progress;
    iterators[i] := 0;
    positions[i] := 1;
    assert positions[..] == old(positions[..])[i := 1];
    EnterLoop(words, comp, table.values[..], old(positions[..]), positions[..], i);
    while positions[i] <= |words[i]|
      invariant positions[..i] == old(positions[..i]) && iterators[..i] == old(iterators[..i])
      invariant 1 <= positions[i] <= |words[i]| + 1 && iterators[i] + 1 == positions[i]
      invariant Progress(words, comp, table.values[..], positions[..], i + 1, false)
      decreases |words[i]| + 1 - positions[i]
    {
      InStepExtends(words, positions, iterators, old(positions[..i]), old(iterators[..i]), i);
      if i + 1 == |words| {
        FillCell(table, words, comp, iterators, positions);
      } else {
        InnerDynamicLoop(table, words, comp, i + 1, iterators, positions);
      }
      ghost var inner := positions[..];
      positions[i] := positions[i] + 1;
      iterators[i] := iterators[i] + 1;
      assert positions[..] == inner[i := inner[i] + 1];
      StepLoop(words, comp, table.values[..], inner, positions[..], i);
    }
    LeaveLoop(words, comp, table.values[..], positions[..], i);
  }

  lemma InStepExtends<T>(words: Words<T>, positions: array<nat>, iterators: array<nat>, outer: Vector,
      outerIts: Vector, i: nat)
    requires i < |words| == positions.Length == iterators.Length
    requires positions[..i] == outer && iterators[..i] == outerIts
    requires forall j :: 0 <= j < i ==> 1 <= outer[j] <= |words[j]| && outerIts[j] + 1 == outer[j]
    requires 1 <= positions[i] <= |words[i]| && iterators[i] + 1 == positions[i]
    ensures InStep(words, positions[..], iterators[..], i + 1)
  {
    forall j | 0 <= j < i ensures positions[j] == outer[j] && iterators[j] == outerIts[j] {
      assert positions[j] == positions[..i][j] && iterators[j] == iterators[..i][j];
    }
  }

  /** A complete table for the words. */
  method CalculateLcsMatrix<T>(words: Words<T>, comp: Comparison<T>) returns (table: StringTable<Entry>)
    requires words != []
    ensures fresh(table) && fresh(table.values) && Shaped(table, words)
    ensures IsFilled(words, comp, table.values[..])
  {
    hide Cells, Offset, Progress;
    var lengths: Vector := [];
    while |lengths| < |words|
      invariant |lengths| <= |words|
      invariant forall d :: 0 <= d < |lengths| ==> lengths[d] == |words[d]|
    {
      lengths := lengths + [|words[|lengths|]|];
    }
    assert lengths == Lengths(words);
    table := new StringTable.NDimensional(lengths, DEFAULT);
    var iterators, positions := new nat[|words|], new nat[|words|];
    NothingPassed(words, comp, table, positions[..]);
    InnerDynamicLoop(table, words, comp, 0, iterators, positions);
    AllPassed(words, comp, table.values[..], positions[..]);
  }

  lemma NothingPassed<T>(words: Words<T>, comp: Comparison<T>, table: StringTable<Entry>, pos: Vector)
    requires Shaped(table, words) && |pos| == |words|
    requires forall v :: InRange(v, table.exts) ==> table.Cell(v) == DEFAULT
    ensures Progress(words, comp, table.values[..], pos, 0, false)
  {
    hide Offset;
    forall w | InRange(w, Lengths(words)) ensures Reached(words, comp, table.values[..], pos, 0, false, w) {
      OffsetInTable(w, table.exts);
      assert table.Cell(w) == At(table.values[..], Lengths(words), w);
    }
  }

  // ---------------------------------------------------------------------- trace-back

  /** Positions marked on the stack, its top standing for position `from`. */
  function Marked(stack: seq<bool>, from: nat): (places: seq<nat>)
    ensures forall i :: 0 <= i < |places| ==> from <= places[i] < from + |stack|
    decreases |stack|
  {
    if stack == [] then []
    else
      var rest := Marked(stack[..|stack| - 1], from + 1);
      if stack[|stack| - 1] then [from] + rest else rest
  }

  lemma MarkedPushed(stack: seq<bool>, mark: bool, from: nat)
    requires from > 0
    ensures Marked(stack + [mark], from - 1) == if mark then [from - 1] + Marked(stack, from) else Marked(stack, from)
  {
    assert (stack + [mark])[..|stack|] == stack;
  }

  /** The walk stands at `v`; `al` are the places found behind it, which the stack marks
      in word `a`. */
  ghost predicate Walked<T>(words: Words<T>, comp: Comparison<T>, v: Vector, al: seq<Vector>, stack: seq<bool>, a: nat)
    requires words != [] && a < |words|
  {
    && InRange(v, Lengths(words)) && IsAlignment(words, comp, al, Lengths(words))
    && AllAbove(v, al)
    && |stack| + v[a] == |words[a]|
    && Marked(stack, v[a]) == Column(al, a)
  }

  /** A cell that promises more says where to go: a match behind it, or a dimension
      along which nothing is lost. */
  lemma WhereToGo<T>(words: Words<T>, comp: Comparison<T>, cells: seq<Entry>, v: Vector)
    requires IsFilled(words, comp, cells) && InRange(v, Lengths(words))
    requires At(cells, Lengths(words), v).value > 0
    ensures Positive(v) && InRange(Back(v), Lengths(words))
    ensures var e := At(cells, Lengths(words), v);
      match e.trace
      case NoTrace => AllMatch(words, comp, Back(v)) && At(cells, Lengths(words), Back(v)).value + 1 == e.value
      case Dropped(d) =>
        && d < |v| && InRange(Down(v, d), Lengths(words))
        && At(cells, Lengths(words), Down(v, d)).value == e.value
  {
    assert Fits(words, comp, cells, v);
    PredecessorsInRange(v, Lengths(words));
  }

  predicate AllAbove(v: Vector, al: seq<Vector>) {
    forall i :: 0 <= i < |al| ==> |al[i]| == |v| && forall d :: 0 <= d < |v| ==> v[d] <= al[i][d]
  }

  lemma PrependedAligned<T>(words: Words<T>, comp: Comparison<T>, v: Vector, al: seq<Vector>)
    requires words != [] && InRange(v, Lengths(words)) && Positive(v) && AllMatch(words, comp, Back(v))
    requires IsAlignment(words, comp, al, Lengths(words)) && AllAbove(v, al)
    ensures IsAlignment(words, comp, [Back(v)] + al, Lengths(words))
  {
    hide AllMatch;
    var more := [Back(v)] + al;
    forall i | 0 <= i < |more| ensures Below(more[i], Lengths(words)) && AllMatch(words, comp, more[i]) {
      if i > 0 { assert more[i] == al[i - 1] && Below(al[i - 1], Lengths(words)); }
    }
    forall i, j | 0 <= i < j < |more| ensures Below(more[i], more[j]) {
      assert more[j] == al[j - 1];
      if i > 0 { assert more[i] == al[i - 1]; }
    }
  }

  lemma AboveBack(v: Vector, al: seq<Vector>)
    requires AllAbove(v, al) && Positive(v)
    ensures AllAbove(Back(v), [Back(v)] + al)
  {
  }

  lemma ColumnMore(at: Vector, al: seq<Vector>, a: nat)
    requires a < |at| && forall i :: 0 <= i < |al| ==> |al[i]| == |at|
    ensures Column([at] + al, a) == [at[a]] + Column(al, a)
  {
  }

  lemma WalkedMatch<T>(words: Words<T>, comp: Comparison<T>, v: Vector, al: seq<Vector>, stack: seq<bool>, a: nat)
    requires words != [] && a < |words| && Walked(words, comp, v, al, stack, a)
    requires Positive(v) && AllMatch(words, comp, Back(v))
    ensures Walked(words, comp, Back(v), [Back(v)] + al, stack + [true], a)
  {
    hide AllMatch, IsAlignment, Marked, Column;
    PrependedAligned(words, comp, v, al);
    AboveBack(v, al);
    MarkedPushed(stack, true, v[a]);
    ColumnMore(Back(v), al, a);
    hide AllAbove, Positive;
  }

  lemma WalkedDrop<T>(words: Words<T>, comp: Comparison<T>, v: Vector, al: seq<Vector>, stack: seq<bool>, a: nat,
      d: nat)
    requires words != [] && a < |words| && Walked(words, comp, v, al, stack, a)
    requires Positive(v) && d < |v|
    ensures Walked(words, comp, Down(v, d), al, if d == a then stack + [false] else stack, a)
  {
    MarkedPushed(stack, false, v[a]);
  }

  /** The walk through the table. */
  method WalkBack<T>(table: StringTable<Entry>, ghost words: Words<T>, ghost comp: Comparison<T>, a: nat)
    returns (stack: seq<bool>, ghost v: Vector, ghost al: seq<Vector>)
    requires Shaped(table, words) && a < |words| && IsFilled(words, comp, table.values[..])
    ensures Walked(words, comp, v, al, stack, a)
    ensures |al| == At(table.values[..], table.exts, table.exts).value
  {
    hide Cells, Offset, IsFilled, Walked, Positive, Sum;
    stack, al, v := [], [], table.exts;
    LastOffset(table.exts);
    ghost var cells := table.values[..];
    FilledShape(words, comp, cells);
    var k := table.values.Length - 1;
    var length := table.values[k].value;
    WalkStarts(words, comp, a);
    var counter := 0;
    while counter != length
      invariant InRange(v, table.exts) && k == Offset(v, table.exts)
      invariant Walked(words, comp, v, al, stack, a)
      invariant |al| == counter <= length && At(cells, table.exts, v).value == length - counter
      decreases Sum(v)
    {
      WhereToGo(words, comp, cells, v);
      OffsetInTable(v, table.exts);
      WalkShrinks(v);
      match table.values[k].trace {
        case NoTrace =>
          WalkedMatch(words, comp, v, al, stack, a);
          stack := stack + [true];
          counter := counter + 1;
          k := table.CalculateAllRelativeOffset(k, -1, v);
          al := [Back(v)] + al;
          v := Back(v);
        case Dropped(d) =>
          WalkedDrop(words, comp, v, al, stack, a, d);
          k := table.CalculateRelativeOffset(k, d, -1, v);
          if d == a {
            stack := stack + [false];
          }
          v := Down(v, d);
      }
    }
  }

  lemma FilledShape<T>(words: Words<T>, comp: Comparison<T>, cells: seq<Entry>)
    requires IsFilled(words, comp, cells)
    ensures words != [] && IsTable(cells, Lengths(words))
  {
  }

  lemma WalkStarts<T>(words: Words<T>, comp: Comparison<T>, a: nat)
    requires words != [] && a < |words|
    ensures Walked(words, comp, Lengths(words), [], [], a)
  {
  }

  lemma WalkShrinks(v: Vector)
    requires Positive(v) && v != []
    ensures Sum(Back(v)) < Sum(v) && forall d :: 0 <= d < |v| ==> Sum(Down(v, d)) < Sum(v)
  {
    assert Back(v)[0] != v[0];
    SumBelow(Back(v), v);
    forall d | 0 <= d < |v| ensures Sum(Down(v, d)) < Sum(v) {
      assert Down(v, d)[d] != v[d];
      SumBelow(Down(v, d), v);
    }
  }

  lemma AlignedPlaces<T>(words: Words<T>, comp: Comparison<T>, al: seq<Vector>, a: nat)
    requires words != [] && a < |words| && IsAlignment(words, comp, al, Lengths(words))
    ensures forall i :: 0 <= i < |al| ==> |al[i]| == |words| && al[i][a] < |words[a]|
  {
    forall i | 0 <= i < |al| ensures |al[i]| == |words| && al[i][a] < |words[a]| {
      assert Below(al[i], Lengths(words));
    }
  }

  /** Reads the marked elements of word `a`; the last element leaves the stack empty. */
  method FindLcsPath<T>(table: StringTable<Entry>, word: seq<T>, a: nat, ghost words: Words<T>,
      ghost comp: Comparison<T>)
    returns (output: seq<T>, ghost al: seq<Vector>)
    requires Shaped(table, words) && a < |words| && word == words[a] && IsFilled(words, comp, table.values[..])
    ensures IsAlignment(words, comp, al, Lengths(words))
    ensures |output| == |al| == At(table.values[..], table.exts, table.exts).value
    ensures forall i :: 0 <= i < |al| ==> |al[i]| == |words| && al[i][a] < |word|
    ensures output == Picked(word, Column(al, a))
  {
    hide Cells, Offset, IsFilled, IsAlignment;
    ghost var v;
    var stack;
    stack, v, al := WalkBack(table, words, comp, a);
    AlignedPlaces(words, comp, al, a);
    var length := table.GetNthWordlength(a);
    var place := length - |stack|;
    output := [];
    while place != |word|
      invariant place <= |word| && |stack| == |word| - place
      invariant output + Picked(word, Marked(stack, place)) == Picked(word, Column(al, a))
      decreases |word| - place
    {
      ghost var marks := Marked(stack, place);
      var top := stack[|stack| - 1];
      stack := stack[..|stack| - 1];
      assert marks == if top then [place] + Marked(stack, place + 1) else Marked(stack, place + 1);
      if top {
        assert Picked(word, marks) == [word[place]] + Picked(word, Marked(stack, place + 1));
        output := output + [word[place]];
      }
      place := place + 1;
    }
    assert stack == [];
  }

  /** For an equivalence, the result is a common subsequence of all words and no other one
      is longer; for any comparison, it is what an alignment of greatest length picks
      from the first word. */
  method LongestCommonSubsequence<T(!new)>(words: Words<T>, comp: Comparison<T>) returns (output: seq<T>)
    requires words != []
    ensures exists al :: IsAlignment(words, comp, al, Lengths(words)) && PicksFromFirst(words, al, output)
    ensures forall al :: IsAlignment(words, comp, al, Lengths(words)) ==> |al| <= |output|
    ensures IsEquivalence(comp) ==> IsCommon(output, words, comp)
    ensures IsEquivalence(comp) ==> forall z :: IsCommon(z, words, comp) ==> |z| <= |output|
  {
    hide IsAlignment, IsFilled, IsEquivalence, IsCommon;
    var table := CalculateLcsMatrix(words, comp);
    ghost var al;
    output, al := FindLcsPath(table, words[0], 0, words, comp);
    assert PicksFromFirst(words, al, output);
    LongestAlignment(words, comp, table.values[..]);
    if IsEquivalence(comp) {
      PickedIsCommon(words, comp, al, 0);
      forall z | IsCommon(z, words, comp) ensures |z| <= |output| {
        var other := CommonIsAligned(z, words, comp);
      }
    }
  }

  predicate PicksFromFirst<T(==)>(words: Words<T>, al: seq<Vector>, output: seq<T>)
    requires words != []
  {
    && (forall i :: 0 <= i < |al| ==> |al[i]| == |words| && al[i][0] < |words[0]|)
    && output == Picked(words[0], Column(al, 0))
  }

  lemma LongestAlignment<T>(words: Words<T>, comp: Comparison<T>, cells: seq<Entry>)
    requires IsFilled(words, comp, cells)
    ensures forall al :: IsAlignment(words, comp, al, Lengths(words)) ==>
      |al| <= At(cells, Lengths(words), Lengths(words)).value
  {
    FilledIsLongest(words, comp, cells, Lengths(words));
  }
}

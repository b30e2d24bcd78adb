/**
 Longest common subsequences of any number of words, and the table that finds them
 (flt/string/longest_common_subsequence.hpp).

 A common subsequence is given by the places it takes in the words: a list of vectors
 with one place per word, growing in every word, the elements there matching.
*/
module CommonSubsequences {
  import opened StringTables

  type Words<T> = seq<seq<T>>

  type Comparison<!T> = (T, T) -> bool

  datatype Trace = NoTrace | Dropped(dim: nat)

  datatype Entry = Entry(value: nat, trace: Trace)

  const DEFAULT := Entry(0, NoTrace)

  function Lengths<T>(words: Words<T>): (lens: Vector)
    ensures |lens| == |words| && forall i :: 0 <= i < |words| ==> lens[i] == |words[i]|
  {
    seq(|words|, i requires 0 <= i < |words| => |words[i]|)
  }

  // --------------------------------------------------------------------- alignments

  /** Every word has at its place what the first word has at its own. */
  predicate AllMatch<T>(words: Words<T>, comp: Comparison<T>, at: Vector)
    requires |words| == |at| > 0 && forall i :: 0 <= i < |at| ==> at[i] < |words[i]|
  {
    forall i :: 1 <= i < |words| ==> comp(words[i][at[i]], words[0][at[0]])
  }

  predicate Below(u: Vector, v: Vector) {
    |u| == |v| && forall i :: 0 <= i < |u| ==> u[i] < v[i]
  }

  /** The places of a common subsequence of the prefixes of lengths `v`. */
  ghost predicate IsAlignment<T>(words: Words<T>, comp: Comparison<T>, al: seq<Vector>, v: Vector)
    requires words != [] && InRange(v, Lengths(words))
  {
    && (forall i :: 0 <= i < |al| ==> Below(al[i], v) && AllMatch(words, comp, al[i]))
    && (forall i, j :: 0 <= i < j < |al| ==> Below(al[i], al[j]))
  }

  ghost predicate IsLongest<T>(words: Words<T>, comp: Comparison<T>, v: Vector, n: nat)
    requires words != [] && InRange(v, Lengths(words))
  {
    && (exists al :: IsAlignment(words, comp, al, v) && |al| == n)
    && (forall al :: IsAlignment(words, comp, al, v) ==> |al| <= n)
  }

  // ----------------------------------------------------------------- the recurrence

  predicate Positive(v: Vector) {
    forall i :: 0 <= i < |v| ==> v[i] > 0
  }

  /** All prefixes one shorter. */
  function Back(v: Vector): (u: Vector)
    requires Positive(v)
    ensures |u| == |v| && forall i :: 0 <= i < |v| ==> u[i] == v[i] - 1
  {
    AllShifted(v, -1)
  }

  /** One prefix one shorter. */
  function Down(v: Vector, d: nat): (u: Vector)
    requires d < |v| && v[d] > 0
    ensures |u| == |v| && u[d] == v[d] - 1 && forall i :: 0 <= i < |v| && i != d ==> u[i] == v[i]
  {
    v[d := v[d] - 1]
  }

  predicate IsTable(cells: seq<Entry>, exts: Vector) {
    |cells| == Cells(exts)
  }

  function At(cells: seq<Entry>, exts: Vector, v: Vector): Entry
    requires IsTable(cells, exts) && InRange(v, exts)
  {
    OffsetInTable(v, exts);
    cells[Offset(v, exts)]
  }

  /** The largest value one step down in the first `n` dimensions, and the first
      dimension that reaches it, if it is not zero. */
  predicate IsBest(cells: seq<Entry>, exts: Vector, v: Vector, e: Entry, n: nat)
    requires IsTable(cells, exts) && InRange(v, exts) && Positive(v) && n <= |v|
  {
    && (forall d :: 0 <= d < n ==> At(cells, exts, Down(v, d)).value <= e.value)
    && match e.trace
       case NoTrace => e.value == 0
       case Dropped(t) =>
         && t < n && e.value > 0 && e.value == At(cells, exts, Down(v, t)).value
         && forall d :: 0 <= d < t ==> At(cells, exts, Down(v, d)).value < e.value
  }

  /** What the source stores for `v`, given the cells below it. */
  predicate Right<T>(words: Words<T>, comp: Comparison<T>, cells: seq<Entry>, v: Vector, e: Entry)
    requires words != [] && IsTable(cells, Lengths(words)) && InRange(v, Lengths(words)) && Positive(v)
  {
    if AllMatch(words, comp, Back(v)) then e == Entry(At(cells, Lengths(words), Back(v)).value + 1, NoTrace)
    else IsBest(cells, Lengths(words), v, e, |v|)
  }

  predicate Fits<T>(words: Words<T>, comp: Comparison<T>, cells: seq<Entry>, v: Vector)
    requires words != [] && IsTable(cells, Lengths(words)) && InRange(v, Lengths(words))
  {
    var e := At(cells, Lengths(words), v);
    if Positive(v) then Right(words, comp, cells, v, e) else e == DEFAULT
  }

  /** The table is complete. */
  ghost predicate IsFilled<T>(words: Words<T>, comp: Comparison<T>, cells: seq<Entry>) {
    && words != [] && IsTable(cells, Lengths(words))
    && forall v :: InRange(v, Lengths(words)) ==> Fits(words, comp, cells, v)
  }

  // --------------------------------------------------------------------- optimality

  function Sum(v: Vector): nat {
    if v == [] then 0 else v[0] + Sum(v[1..])
  }

  lemma {:induction false} SumBelow(u: Vector, v: Vector)
    requires |u| == |v| && forall i :: 0 <= i < |u| ==> u[i] <= v[i]
    ensures Sum(u) <= Sum(v)
    ensures u != v ==> Sum(u) < Sum(v)
  {
    if u != [] {
      SumBelow(u[1..], v[1..]);
      if u != v && u[0] == v[0] {
        assert u == [u[0]] + u[1..] && v == [v[0]] + v[1..];
      }
    }
  }

  /** A common subsequence of longer prefixes. */
  lemma Widened<T>(words: Words<T>, comp: Comparison<T>, al: seq<Vector>, u: Vector, v: Vector)
    requires words != [] && InRange(u, Lengths(words)) && InRange(v, Lengths(words))
    requires forall i :: 0 <= i < |u| ==> u[i] <= v[i]
    requires IsAlignment(words, comp, al, u)
    ensures IsAlignment(words, comp, al, v)
  {
    forall i | 0 <= i < |al| ensures Below(al[i], v) && AllMatch(words, comp, al[i]) {
      assert Below(al[i], u);
    }
  }

  /** Without its last place a common subsequence fits below that place. */
  lemma Shortened<T>(words: Words<T>, comp: Comparison<T>, al: seq<Vector>, v: Vector)
    requires words != [] && InRange(v, Lengths(words)) && al != [] && Positive(v)
    requires IsAlignment(words, comp, al, v)
    ensures InRange(Back(v), Lengths(words)) && IsAlignment(words, comp, al[..|al| - 1], Back(v))
  {
    var last := al[|al| - 1];
    assert Below(last, v);
    forall i | 0 <= i < |al| - 1 ensures Below(al[i], Back(v)) && AllMatch(words, comp, al[i]) {
      assert Below(al[i], last) && Below(al[i], v);
    }
  }

  /** If the last place leaves a gap in one word, that word can be one shorter. */
  lemma Narrowed<T>(words: Words<T>, comp: Comparison<T>, al: seq<Vector>, v: Vector, d: nat)
    requires words != [] && InRange(v, Lengths(words)) && al != []
    requires IsAlignment(words, comp, al, v)
    requires d < |v| && al[|al| - 1][d] + 1 < v[d]
    ensures InRange(Down(v, d), Lengths(words)) && IsAlignment(words, comp, al, Down(v, d))
  {
    var last := al[|al| - 1];
    forall i | 0 <= i < |al| ensures Below(al[i], Down(v, d)) && AllMatch(words, comp, al[i]) {
      assert Below(al[i], v);
      if i < |al| - 1 { assert Below(al[i], last); }
    }
  }

  lemma Lengthened<T>(words: Words<T>, comp: Comparison<T>, al: seq<Vector>, v: Vector)
    requires words != [] && InRange(v, Lengths(words)) && Positive(v) && AllMatch(words, comp, Back(v))
    requires IsAlignment(words, comp, al, Back(v))
    ensures IsAlignment(words, comp, al + [Back(v)], v)
  {
    var more := al + [Back(v)];
    Widened(words, comp, al, Back(v), v);
    forall i | 0 <= i < |more| ensures Below(more[i], v) && AllMatch(words, comp, more[i]) {
      if i < |al| { assert more[i] == al[i]; }
    }
    forall i, j | 0 <= i < j < |more| ensures Below(more[i], more[j]) {
      assert more[i] == al[i] && Below(al[i], Back(v));
      if j < |al| { assert more[j] == al[j]; }
    }
  }

  lemma NothingInNothing<T>(words: Words<T>, comp: Comparison<T>, v: Vector)
    requires words != [] && InRange(v, Lengths(words)) && !Positive(v)
    ensures IsLongest(words, comp, v, 0)
  {
    assert IsAlignment(words, comp, [], v);
    forall al | IsAlignment(words, comp, al, v) ensures |al| <= 0 {
      assert al != [] ==> Below(al[0], v);
    }
  }

  lemma MatchIsLongest<T>(words: Words<T>, comp: Comparison<T>, v: Vector, n: nat)
    requires words != [] && InRange(v, Lengths(words)) && Positive(v) && AllMatch(words, comp, Back(v))
    requires InRange(Back(v), Lengths(words)) && IsLongest(words, comp, Back(v), n)
    ensures IsLongest(words, comp, v, n + 1)
  {
    var al :| IsAlignment(words, comp, al, Back(v)) && |al| == n;
    Lengthened(words, comp, al, v);
    assert |al + [Back(v)]| == n + 1;
    forall other | IsAlignment(words, comp, other, v) ensures |other| <= n + 1 {
      if other != [] { Shortened(words, comp, other, v); }
    }
  }

  /** A matching place other than the last one leaves a gap in some word. */
  lemma GapOf<T>(words: Words<T>, comp: Comparison<T>, al: seq<Vector>, v: Vector) returns (d: nat)
    requires words != [] && InRange(v, Lengths(words)) && Positive(v) && !AllMatch(words, comp, Back(v))
    requires IsAlignment(words, comp, al, v) && al != []
    ensures d < |v| && al[|al| - 1][d] + 1 < v[d]
  {
    var last := al[|al| - 1];
    assert Below(last, v) && AllMatch(words, comp, last);
    assert last != Back(v);
    d :| 0 <= d < |v| && last[d] != Back(v)[d];
  }

  lemma DropIsLongest<T>(words: Words<T>, comp: Comparison<T>, v: Vector, t: nat, n: nat)
    requires words != [] && InRange(v, Lengths(words)) && Positive(v) && !AllMatch(words, comp, Back(v))
    requires forall d :: 0 <= d < |v| ==> InRange(Down(v, d), Lengths(words))
    requires t < |v| && IsLongest(words, comp, Down(v, t), n)
    requires forall d, al :: 0 <= d < |v| && IsAlignment(words, comp, al, Down(v, d)) ==> |al| <= n
    ensures IsLongest(words, comp, v, n)
  {
    hide AllMatch, InRange, Positive, Lengths, IsAlignment, Below;
    var al :| IsAlignment(words, comp, al, Down(v, t)) && |al| == n;
    Widened(words, comp, al, Down(v, t), v);
    forall other | IsAlignment(words, comp, other, v) ensures |other| <= n {
      if other != [] {
        var d := GapOf(words, comp, other, v);
        Narrowed(words, comp, other, v, d);
      }
    }
  }

  lemma PredecessorsInRange(v: Vector, exts: Vector)
    requires InRange(v, exts) && Positive(v)
    ensures InRange(Back(v), exts)
    ensures forall d :: 0 <= d < |v| ==> InRange(Down(v, d), exts)
  {
  }

  /** Every cell of a complete table holds the greatest length of a common subsequence
      of all the prefixes it stands for. */
  lemma {:induction false} FilledIsLongest<T>(words: Words<T>, comp: Comparison<T>, cells: seq<Entry>, v: Vector)
    requires IsFilled(words, comp, cells) && InRange(v, Lengths(words))
    ensures IsLongest(words, comp, v, At(cells, Lengths(words), v).value)
    decreases Sum(v)
  {
    var exts := Lengths(words);
    var e := At(cells, exts, v);
    assert Fits(words, comp, cells, v);
    if !Positive(v) {
      NothingInNothing(words, comp, v);
    } else {
      PredecessorsInRange(v, exts);
      if AllMatch(words, comp, Back(v)) {
        SumBelow(Back(v), v);
        assert Back(v)[0] != v[0];
        FilledIsLongest(words, comp, cells, Back(v));
        MatchIsLongest(words, comp, v, e.value - 1);
      } else {
        forall d | 0 <= d < |v|
          ensures IsLongest(words, comp, Down(v, d), At(cells, exts, Down(v, d)).value)
        {
          SumBelow(Down(v, d), v);
          assert Down(v, d)[d] != v[d];
          FilledIsLongest(words, comp, cells, Down(v, d));
        }
        var t := if e.trace.NoTrace? then 0 else e.trace.dim;
        assert At(cells, exts, Down(v, 0)).value <= e.value;
        assert IsLongest(words, comp, Down(v, t), e.value);
        forall d, al | 0 <= d < |v| && IsAlignment(words, comp, al, Down(v, d)) ensures |al| <= e.value {
          assert At(cells, exts, Down(v, d)).value <= e.value;
        }
        DropIsLongest(words, comp, v, t, e.value);
      }
    }
  }

  // ------------------------------------------------------------- common subsequences

  ghost predicate IsEquivalence<T(!new)>(comp: Comparison<T>) {
    && (forall x :: comp(x, x))
    && (forall x, y :: comp(x, y) ==> comp(y, x))
    && (forall x, y, z :: comp(x, y) && comp(y, z) ==> comp(x, z))
  }

  /** The elements of `z` match, in order, the elements of the word at these places. */
  predicate OccursAt<T>(z: seq<T>, word: seq<T>, comp: Comparison<T>, places: seq<nat>) {
    && |places| == |z|
    && (forall i :: 0 <= i < |z| ==> places[i] < |word| && comp(word[places[i]], z[i]))
    && (forall i, j :: 0 <= i < j < |z| ==> places[i] < places[j])
  }

  ghost predicate Occurs<T>(z: seq<T>, word: seq<T>, comp: Comparison<T>) {
    exists places :: OccursAt(z, word, comp, places)
  }

  /** `z` is a subsequence of every word, up to the comparison. */
  ghost predicate IsCommon<T>(z: seq<T>, words: Words<T>, comp: Comparison<T>) {
    forall d :: 0 <= d < |words| ==> Occurs(z, words[d], comp)
  }

  function Column(al: seq<Vector>, a: nat): (places: seq<nat>)
    requires forall i :: 0 <= i < |al| ==> a < |al[i]|
    ensures |places| == |al| && forall i :: 0 <= i < |al| ==> places[i] == al[i][a]
  {
    seq(|al|, i requires 0 <= i < |al| => al[i][a])
  }

  function Picked<T>(word: seq<T>, places: seq<nat>): (z: seq<T>)
    requires forall i :: 0 <= i < |places| ==> places[i] < |word|
    ensures |z| == |places| && forall i :: 0 <= i < |z| ==> z[i] == word[places[i]]
  {
    seq(|places|, i requires 0 <= i < |places| => word[places[i]])
  }

  lemma MatchInAnyWord<T(!new)>(words: Words<T>, comp: Comparison<T>, at: Vector, c: nat, d: nat)
    requires IsEquivalence(comp) && |words| == |at| > 0 && forall i :: 0 <= i < |at| ==> at[i] < |words[i]|
    requires AllMatch(words, comp, at) && c < |words| && d < |words|
    ensures comp(words[d][at[d]], words[c][at[c]])
  {
    var first := words[0][at[0]];
    assert comp(words[d][at[d]], first) && comp(words[c][at[c]], first);
    assert comp(first, words[c][at[c]]);
  }

  lemma PickedOccurs<T(!new)>(words: Words<T>, comp: Comparison<T>, al: seq<Vector>, a: nat, d: nat)
    requires IsEquivalence(comp) && words != [] && IsAlignment(words, comp, al, Lengths(words))
    requires a < |words| && d < |words| && forall i :: 0 <= i < |al| ==> |al[i]| == |words| && al[i][a] < |words[a]|
    ensures OccursAt(Picked(words[a], Column(al, a)), words[d], comp, Column(al, d))
  {
    var z := Picked(words[a], Column(al, a));
    forall i | 0 <= i < |al| ensures al[i][d] < |words[d]| && comp(words[d][al[i][d]], z[i]) {
      assert Below(al[i], Lengths(words));
      MatchInAnyWord(words, comp, al[i], a, d);
    }
    forall i, j | 0 <= i < j < |al| ensures al[i][d] < al[j][d] {
      assert Below(al[i], al[j]);
    }
  }

  /** What an alignment picks from any one word is a common subsequence. */
  lemma PickedIsCommon<T(!new)>(words: Words<T>, comp: Comparison<T>, al: seq<Vector>, a: nat)
    requires IsEquivalence(comp) && words != [] && IsAlignment(words, comp, al, Lengths(words))
    requires a < |words| && forall i :: 0 <= i < |al| ==> |al[i]| == |words| && al[i][a] < |words[a]|
    ensures IsCommon(Picked(words[a], Column(al, a)), words, comp)
  {
    hide OccursAt, IsAlignment, IsEquivalence;
    forall d | 0 <= d < |words| ensures Occurs(Picked(words[a], Column(al, a)), words[d], comp) {
      PickedOccurs(words, comp, al, a, d);
    }
  }

  /** The places of `z` in all words. */
  lemma {:induction false} PlacesInWords<T>(z: seq<T>, words: Words<T>, comp: Comparison<T>, n: nat)
    returns (rows: seq<seq<nat>>)
    requires IsCommon(z, words, comp) && n <= |words|
    ensures |rows| == n && forall d :: 0 <= d < n ==> OccursAt(z, words[d], comp, rows[d])
  {
    if n == 0 {
      rows := [];
    } else {
      var rest := PlacesInWords(z, words, comp, n - 1);
      assert Occurs(z, words[n - 1], comp);
      var places :| OccursAt(z, words[n - 1], comp, places);
      rows := rest + [places];
    }
  }

  /** Every common subsequence is as long as some alignment. */
  lemma CommonIsAligned<T(!new)>(z: seq<T>, words: Words<T>, comp: Comparison<T>) returns (al: seq<Vector>)
    requires IsEquivalence(comp) && words != [] && IsCommon(z, words, comp)
    ensures IsAlignment(words, comp, al, Lengths(words)) && |al| == |z|
  {
    var rows := PlacesInWords(z, words, comp, |words|);
    al := seq(|z|, i requires 0 <= i < |z| => seq(|words|, d requires 0 <= d < |words| => rows[d][i]));
    forall i | 0 <= i < |al| ensures Below(al[i], Lengths(words)) && AllMatch(words, comp, al[i]) {
      forall d | 0 <= d < |words| ensures al[i][d] < |words[d]| && comp(words[d][al[i][d]], words[0][al[i][0]]) {
        assert OccursAt(z, words[d], comp, rows[d]) && OccursAt(z, words[0], comp, rows[0]);
        assert comp(words[0][rows[0][i]], z[i]);
        assert comp(z[i], words[0][rows[0][i]]);
      }
    }
    forall i, j | 0 <= i < j < |al| ensures Below(al[i], al[j]) {
      forall d | 0 <= d < |words| ensures al[i][d] < al[j][d] {
        assert OccursAt(z, words[d], comp, rows[d]);
      }
    }
  }
}

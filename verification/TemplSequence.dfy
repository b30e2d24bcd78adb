/**
 The templates of a layer as a function of the lines it was fed: which template learns
 a line depends on the lines alone, neither on parameter tables nor on splits
 (`templ_layer::update` of flt/templating/online_templater.hpp).
*/
module TemplSequences {
  import opened WordIterators
  import opened ParamTables
  import opened TemplStrings
  import opened Similarities

  // ----------------------------------------------------------- the closest template

  ghost predicate NoneSimilar(sims: seq<Similarity>) {
    forall i :: 0 <= i < |sims| ==> !sims[i].Exceeds(0.0)
  }

  /** The first of the most similar templates. */
  ghost predicate IsClosest(sims: seq<Similarity>, b: nat) {
    && b < |sims| && sims[b].Exceeds(0.0)
    && (forall i :: 0 <= i < |sims| && sims[i].Value? ==> sims[i].v <= sims[b].v)
    && (forall i :: 0 <= i < b && sims[i].Value? ==> sims[i].v < sims[b].v)
  }

  /** State of the search after some similarities: the largest one above zero, and where
      it was first. */
  ghost predicate Scanned(sims: seq<Similarity>, found: bool, closest: nat, max: real) {
    && (!found ==> max == 0.0)
    && (found ==> closest < |sims| && sims[closest] == Value(max) && max > 0.0)
    && (forall i :: 0 <= i < |sims| && sims[i].Value? ==> sims[i].v <= max)
    && (found ==> forall i :: 0 <= i < closest && sims[i].Value? ==> sims[i].v < max)
  }

  lemma ScanStart()
    ensures Scanned([], false, 0, 0.0)
  {
  }

  lemma ScanStep(sims: seq<Similarity>, found: bool, closest: nat, max: real, cur: Similarity)
    requires Scanned(sims, found, closest, max)
    ensures if cur.Exceeds(max) then Scanned(sims + [cur], true, |sims|, cur.v)
            else Scanned(sims + [cur], found, closest, max)
  {
  }

  lemma ScanEnd(sims: seq<Similarity>, found: bool, closest: nat, max: real)
    requires Scanned(sims, found, closest, max)
    ensures if found then IsClosest(sims, closest) else NoneSimilar(sims)
  {
  }

  /** There is a closest template exactly if one is similar at all, and only one. */
  lemma {:induction false} ClosestExists(sims: seq<Similarity>)
    ensures NoneSimilar(sims) <==> forall b :: !IsClosest(sims, b)
    ensures forall b, b' :: IsClosest(sims, b) && IsClosest(sims, b') ==> b == b'
  {
    var found, closest, max := Scan(sims);
    ScanEnd(sims, found, closest, max);
  }

  lemma {:induction false} Scan(sims: seq<Similarity>) returns (found: bool, closest: nat, max: real)
    ensures Scanned(sims, found, closest, max)
  {
    if sims == [] {
      ScanStart();
      found, closest, max := false, 0, 0.0;
    } else {
      var n := |sims| - 1;
      found, closest, max := Scan(sims[..n]);
      assert sims == sims[..n] + [sims[n]];
      hide Scanned;
      ScanStep(sims[..n], found, closest, max, sims[n]);
      if sims[n].Exceeds(max) {
        found, closest, max := true, n, sims[n].v;
      }
    }
  }

  // ------------------------------------------------------------ from lines to templates

  ghost function SimilarityTo(templ: string, line: string, threshold: real): Similarity {
    if |Words(templ)| != |Words(line)| then NotANumber
    else SimilarityOf(ParseLine(templ), ParseLine(line), threshold)
  }

  ghost function SimilaritiesTo(templs: seq<string>, line: string, threshold: real): (sims: seq<Similarity>)
    ensures |sims| == |templs| && forall i :: 0 <= i < |sims| ==> sims[i] == SimilarityTo(templs[i], line, threshold)
  {
    seq(|templs|, i requires 0 <= i < |templs| => SimilarityTo(templs[i], line, threshold))
  }

  /** The closest template is generalised, or the line becomes a template. */
  ghost function LearnLine(templs: seq<string>, line: string, threshold: real): seq<string> {
    var sims := SimilaritiesTo(templs, line, threshold);
    if NoneSimilar(sims) then templs + [line]
    else
      ClosestExists(sims);
      var b: nat :| IsClosest(sims, b);
      templs[b := Render(Merged(templs[b], line))]
  }

  ghost function TemplsAfter(lines: seq<string>, threshold: real): seq<string> {
    if lines == [] then []
    else LearnLine(TemplsAfter(lines[..|lines| - 1], threshold), lines[|lines| - 1], threshold)
  }

  lemma TemplsAfterMore(lines: seq<string>, line: string, threshold: real)
    ensures TemplsAfter(lines + [line], threshold) == LearnLine(TemplsAfter(lines, threshold), line, threshold)
  {
    assert (lines + [line])[..|lines|] == lines;
  }

  lemma LearnLineSays(templs: seq<string>, line: string, threshold: real, b: nat)
    ensures var sims := SimilaritiesTo(templs, line, threshold);
      && (NoneSimilar(sims) ==> LearnLine(templs, line, threshold) == templs + [line])
      && (IsClosest(sims, b) ==>
            && |Words(templs[b])| == |Words(line)|
            && LearnLine(templs, line, threshold) == templs[b := Render(Merged(templs[b], line))])
  {
    ClosestExists(SimilaritiesTo(templs, line, threshold));
  }

  /** The lines that each template was learned from, likewise. */
  ghost function HistoriesAfter(lines: seq<string>, threshold: real): (histories: seq<seq<string>>)
    ensures |histories| == |TemplsAfter(lines, threshold)|
  {
    if lines == [] then []
    else
      var before, line := lines[..|lines| - 1], lines[|lines| - 1];
      var sims := SimilaritiesTo(TemplsAfter(before, threshold), line, threshold);
      var histories := HistoriesAfter(before, threshold);
      ClosestExists(sims);
      if NoneSimilar(sims) then histories + [[line]]
      else
        var b: nat :| IsClosest(sims, b);
        histories[b := histories[b] + [line]]
  }

  lemma HistoriesAfterMore(lines: seq<string>, line: string, threshold: real, b: nat)
    ensures var sims := SimilaritiesTo(TemplsAfter(lines, threshold), line, threshold);
      var histories := HistoriesAfter(lines, threshold);
      && (NoneSimilar(sims) ==> HistoriesAfter(lines + [line], threshold) == histories + [[line]])
      && (IsClosest(sims, b) ==> HistoriesAfter(lines + [line], threshold) == histories[b := histories[b] + [line]])
  {
    assert (lines + [line])[..|lines|] == lines;
    ClosestExists(SimilaritiesTo(TemplsAfter(lines, threshold), line, threshold));
  }

  ghost predicate ArePart(histories: seq<seq<string>>, lines: seq<string>) {
    forall h :: h in histories ==> h != [] && forall l :: l in h ==> l in lines
  }

  lemma ArePartMore(histories: seq<seq<string>>, lines: seq<string>, line: string, b: nat)
    requires ArePart(histories, lines)
    ensures ArePart(histories + [[line]], lines + [line])
    ensures b < |histories| ==> ArePart(histories[b := histories[b] + [line]], lines + [line])
  {
    assert forall l :: l in lines + [line] <==> l in lines || l == line;
    if b < |histories| {
      var after := histories[b := histories[b] + [line]];
      forall h | h in after ensures h != [] && forall l :: l in h ==> l in lines + [line] {
        var i :| 0 <= i < |after| && after[i] == h;
        assert histories[i] in histories;
      }
    }
  }

  /** Every template was learned from some of the lines. */
  lemma {:induction false} HistoriesArePart(lines: seq<string>, threshold: real)
    ensures ArePart(HistoriesAfter(lines, threshold), lines)
  {
    if lines != [] {
      hide *;
      var before, line := lines[..|lines| - 1], lines[|lines| - 1];
      assert lines == before + [line];
      var sims := SimilaritiesTo(TemplsAfter(before, threshold), line, threshold);
      HistoriesArePart(before, threshold);
      ClosestExists(sims);
      var b: nat :| IsClosest(sims, b) || NoneSimilar(sims);
      HistoriesAfterMore(before, line, threshold, b);
      ArePartMore(HistoriesAfter(before, threshold), before, line, b);
      if IsClosest(sims, b) { ClosestWithin(sims, b); }
    }
  }

  lemma ClosestWithin(sims: seq<Similarity>, b: nat)
    requires IsClosest(sims, b)
    ensures b < |sims|
  {
  }

  /** The most similar template learns the line, of several the one that was founded first;
      the others stay as they are. */
  lemma OldestOfClosestLearns(lines: seq<string>, line: string, threshold: real, b: nat)
    requires b < |TemplsAfter(lines, threshold)|
    requires var s := SimilarityTo(TemplsAfter(lines, threshold)[b], line, threshold);
      && s.Value? && s.v > 0.0
      && forall i :: 0 <= i < |TemplsAfter(lines, threshold)| ==>
           var x := SimilarityTo(TemplsAfter(lines, threshold)[i], line, threshold);
           x.Value? ==> x.v <= s.v && (i < b ==> x.v < s.v)
    ensures var templs, histories := TemplsAfter(lines, threshold), HistoriesAfter(lines, threshold);
      && |Words(templs[b])| == |Words(line)|
      && TemplsAfter(lines + [line], threshold) == templs[b := Render(Merged(templs[b], line))]
      && HistoriesAfter(lines + [line], threshold) == histories[b := histories[b] + [line]]
  {
    hide TemplsAfter, HistoriesAfter, SimilarityTo, LearnLine;
    var templs := TemplsAfter(lines, threshold);
    var sims := SimilaritiesTo(templs, line, threshold);
    assert IsClosest(sims, b);
    TemplsAfterMore(lines, line, threshold);
    LearnLineSays(templs, line, threshold, b);
    HistoriesAfterMore(lines, line, threshold, b);
  }

  /** A line that is similar to no template becomes one. */
  lemma DissimilarFounds(lines: seq<string>, line: string, threshold: real)
    requires forall i :: 0 <= i < |TemplsAfter(lines, threshold)| ==>
      var x := SimilarityTo(TemplsAfter(lines, threshold)[i], line, threshold);
      x.Value? ==> x.v <= 0.0
    ensures TemplsAfter(lines + [line], threshold) == TemplsAfter(lines, threshold) + [line]
    ensures HistoriesAfter(lines + [line], threshold) == HistoriesAfter(lines, threshold) + [[line]]
  {
    hide TemplsAfter, HistoriesAfter, SimilarityTo, LearnLine;
    var templs := TemplsAfter(lines, threshold);
    assert NoneSimilar(SimilaritiesTo(templs, line, threshold));
    TemplsAfterMore(lines, line, threshold);
    LearnLineSays(templs, line, threshold, 0);
    HistoriesAfterMore(lines, line, threshold, 0);
  }

  /** The line is similar enough to one of the templates of these lines. */
  ghost predicate Joins(lines: seq<string>, line: string, threshold: real) {
    !NoneSimilar(SimilaritiesTo(TemplsAfter(lines, threshold), line, threshold))
  }

  /** A line that founds a template must not have the wildcard as a word. */
  ghost predicate Admits(lines: seq<string>, line: string, threshold: real) {
    WILDCARD in Words(line) ==> Joins(lines, line, threshold)
  }
}

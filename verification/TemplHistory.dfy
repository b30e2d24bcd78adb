/**
 What templates owe to the lines they were learned from, now and at their last split:
 what `templ_layer` of flt/templating/online_templater.hpp cannot tell any more, because
 it forgets the lines.
*/
module TemplHistories {
  import opened WordIterators
  import opened ParamTables
  import opened Splitting
  import opened TemplStrings
  import opened Similarities
  import opened TemplNodes
  import opened Outputs

  /** Every line is matched by a written template. */
  ghost predicate AllMatched(written: seq<string>, lines: seq<string>) {
    forall l :: l in lines ==> exists w :: w in written && Matches(Words(w), Words(l))
  }

  /** Besides, every written template matches a line. */
  ghost predicate Covered(written: seq<string>, lines: seq<string>) {
    && AllMatched(written, lines)
    && (forall w :: w in written ==> exists l :: l in lines && Matches(Words(w), Words(l)))
  }

  lemma CoveredIs(written: seq<string>, lines: seq<string>)
    requires forall l :: l in lines ==> exists w :: w in written && Matches(Words(w), Words(l))
    requires forall w :: w in written ==> exists l :: l in lines && Matches(Words(w), Words(l))
    ensures Covered(written, lines)
  {
    hide Words, Matches;
  }

  lemma MatchedAt(lines: seq<string>, templs: seq<string>)
    requires forall l :: l in lines ==> exists k :: 0 <= k < |templs| && Matches(Words(templs[k]), Words(l))
    ensures AllMatched(templs, lines)
  {
    hide Words, Matches;
  }

  lemma CoveringTempl(written: seq<string>, lines: seq<string>, l: string) returns (w: string)
    requires AllMatched(written, lines) && l in lines
    ensures w in written && Matches(Words(w), Words(l))
  {
    hide Words, Matches;
    w :| w in written && Matches(Words(w), Words(l));
  }

  /** No word of any line is the wildcard. */
  ghost predicate NoWildcards(lines: seq<string>) {
    forall l :: l in lines ==> WILDCARD !in Words(l)
  }

  /** More than its share of the words are literal, unless one of the lines has the
      wildcard as a word. */
  ghost predicate LiteralEnough(lines: seq<string>, w: string, threshold: real) {
    threshold < 1.0 && NoWildcards(lines) ==> MostlyLiteral(Words(w), threshold)
  }

  /** A template of these lines matches one of them, has their width, keeps the words
      they all share and is literal enough. */
  ghost predicate TemplateOf(lines: seq<string>, w: string, threshold: real) {
    && (exists l :: l in lines && Matches(Words(w), Words(l)))
    && (forall l :: l in lines ==> |Words(l)| == |Words(w)|)
    && KeepsAgreed(lines, w)
    && LiteralEnough(lines, w, threshold)
  }

  lemma MatchedLine(lines: seq<string>, w: string, threshold: real) returns (l: string)
    requires TemplateOf(lines, w, threshold)
    ensures l in lines && Matches(Words(w), Words(l)) && |Words(l)| == |Words(w)|
    ensures KeepsAgreed(lines, w) && LiteralEnough(lines, w, threshold)
  {
    hide Words, Matches, LiteralEnough, KeepsAgreed;
    l :| l in lines && Matches(Words(w), Words(l));
  }

  /** A template of some lines is one of more lines of the same width. */
  lemma TemplateOfMore(some: seq<string>, lines: seq<string>, w: string, threshold: real)
    requires TemplateOf(some, w, threshold) && forall l :: l in some ==> l in lines
    requires forall l :: l in lines ==> |Words(l)| == |Words(w)|
    ensures TemplateOf(lines, w, threshold)
  {
    hide Words, Matches, MostlyLiteral, KeepsAgreed;
    var l :| l in some && Matches(Words(w), Words(l));
    assert l in lines;
    KeepsAgreedMore(some, lines, w);
  }

  /** What more lines agree on, fewer agree on as well. */
  lemma KeepsAgreedMore(some: seq<string>, lines: seq<string>, w: string)
    requires KeepsAgreed(some, w) && some != [] && forall l :: l in some ==> l in lines
    ensures KeepsAgreed(lines, w)
  {
    hide Words;
    forall p, t: string | 0 <= p < |Words(w)| && AllHave(lines, p, t) ensures Words(w)[p] == t {
      assert AllHave(some, p, t);
    }
  }

  // ------------------------------------------------------------------ conservation

  ghost function Total(histories: seq<seq<string>>): multiset<string> {
    if histories == [] then multiset{} else multiset(histories[0]) + Total(histories[1..])
  }

  lemma {:induction false} TotalUpdate(histories: seq<seq<string>>, i: nat, line: string)
    requires i < |histories|
    ensures Total(histories[i := histories[i] + [line]]) == Total(histories) + multiset{line}
  {
    var after := histories[i := histories[i] + [line]];
    if i == 0 {
      assert after[1..] == histories[1..];
    } else {
      assert after[1..] == histories[1..][i - 1 := histories[1..][i - 1] + [line]];
      TotalUpdate(histories[1..], i - 1, line);
    }
  }

  lemma {:induction false} TotalAppend(histories: seq<seq<string>>, line: string)
    ensures Total(histories + [[line]]) == Total(histories) + multiset{line}
  {
    if histories == [] {
      assert Total([[line]]) == multiset([line]) + Total([]);
    } else {
      assert (histories + [[line]])[1..] == histories[1..] + [[line]];
      TotalAppend(histories[1..], line);
    }
  }

  lemma {:induction false} InTotal(histories: seq<seq<string>>, line: string)
    ensures line in Total(histories) <==> exists i :: 0 <= i < |histories| && line in histories[i]
  {
    if histories != [] {
      InTotal(histories[1..], line);
      if line in Total(histories[1..]) {
        var i :| 0 <= i < |histories[1..]| && line in histories[1..][i];
        assert histories[i + 1] == histories[1..][i];
      }
      if i :| 0 <= i < |histories| && line in histories[i] {
        assert i > 0 ==> histories[1..][i - 1] == histories[i];
      }
    }
  }

  // ------------------------------------------------------------------- past splits

  /** The last split of a template: the lines it had been learned from by then, and what
      became of it. */
  datatype Split = Split(lines: seq<string>, templs: seq<string>)

  /** The split templates belong to those lines, and are their output if they are written
      instead of the template, which is so if wildcards are put back. */
  ghost predicate SplitOk(s: Split, history: seq<string>, instead: bool, threshold: real) {
    && s.lines <= history && s.lines != []
    && instead == (PutBackIn(s.lines) != {})
    && multiset(s.templs) == (if instead then OutputBag(s.lines) else multiset{})
    && (forall w :: w in s.templs ==> TemplateOf(s.lines, w, threshold))
    && (instead ==> AllMatched(s.templs, s.lines))
  }

  lemma SplitIsOk(lines: seq<string>, templs: seq<string>, instead: bool, threshold: real)
    requires lines != [] && instead == (PutBackIn(lines) != {})
    requires if instead
      then multiset(templs) == OutputBag(lines) && AllMatched(templs, lines)
           && forall w :: w in templs ==> TemplateOf(lines, w, threshold)
      else templs == []
    ensures SplitOk(Split(lines, templs), lines, instead, threshold)
  {
    hide TemplateOf, PutBackIn, OutputBag, AllMatched;
  }

  lemma SplitSays(s: Split, history: seq<string>, instead: bool, threshold: real, w: string)
    requires SplitOk(s, history, instead, threshold) && w in s.templs
    ensures TemplateOf(s.lines, w, threshold) && forall l :: l in s.lines ==> l in history
  {
    hide TemplateOf, PutBackIn, OutputBag, AllMatched;
  }

  /** The templates that have come later have not been split. */
  ghost predicate SplitsOk(splits: seq<Split>, histories: seq<seq<string>>, instead: seq<bool>, threshold: real) {
    && |splits| <= |histories| == |instead|
    && (forall k :: 0 <= k < |splits| ==> SplitOk(splits[k], histories[k], instead[k], threshold))
    && (forall k :: |splits| <= k < |instead| ==> !instead[k])
  }

  /** The lines whose match is guaranteed by what would be written for one template: all
      it was learned from, or those up to the last split if it was split. */
  function KeptFor(splits: seq<Split>, histories: seq<seq<string>>, instead: seq<bool>, k: nat): seq<string>
    requires k < |histories| == |instead|
  {
    if instead[k] && k < |splits| then splits[k].lines else histories[k]
  }

  ghost predicate IsKept(splits: seq<Split>, histories: seq<seq<string>>, instead: seq<bool>, l: string)
    requires |histories| == |instead|
  {
    exists k: nat :: k < |histories| && l in KeptFor(splits, histories, instead, k)
  }

  lemma SplitOkMore(s: Split, history: seq<string>, instead: bool, threshold: real, line: string)
    requires SplitOk(s, history, instead, threshold)
    ensures SplitOk(s, history + [line], instead, threshold)
  {
    hide TemplateOf, PutBackIn, OutputBag, AllMatched;
  }

  /** A template learns a line. */
  lemma SplitsLearn(splits: seq<Split>, histories: seq<seq<string>>, instead: seq<bool>, threshold: real,
                    at: nat, line: string)
    requires SplitsOk(splits, histories, instead, threshold) && at < |histories|
    ensures var histories' := histories[at := histories[at] + [line]];
      && SplitsOk(splits, histories', instead, threshold)
      && (forall l :: IsKept(splits, histories, instead, l) ==> IsKept(splits, histories', instead, l))
      && (!instead[at] ==> IsKept(splits, histories', instead, line))
  {
    hide SplitOk;
    var histories' := histories[at := histories[at] + [line]];
    if at < |splits| { SplitOkMore(splits[at], histories[at], instead[at], threshold, line); }
    forall l | IsKept(splits, histories, instead, l) ensures IsKept(splits, histories', instead, l) {
      var k: nat :| k < |histories| && l in KeptFor(splits, histories, instead, k);
      assert l in KeptFor(splits, histories', instead, k);
    }
    if !instead[at] {
      assert line in KeptFor(splits, histories', instead, at);
    }
  }

  /** A line becomes a template. */
  lemma SplitsFound(splits: seq<Split>, histories: seq<seq<string>>, instead: seq<bool>, threshold: real, line: string)
    requires SplitsOk(splits, histories, instead, threshold)
    ensures var histories', instead' := histories + [[line]], instead + [false];
      && SplitsOk(splits, histories', instead', threshold)
      && (forall l :: IsKept(splits, histories, instead, l) ==> IsKept(splits, histories', instead', l))
      && IsKept(splits, histories', instead', line)
  {
    hide SplitOk;
    var histories', instead' := histories + [[line]], instead + [false];
    forall l | IsKept(splits, histories, instead, l) ensures IsKept(splits, histories', instead', l) {
      var k: nat :| k < |histories| && l in KeptFor(splits, histories, instead, k);
      assert l in KeptFor(splits, histories', instead', k);
    }
    assert line in KeptFor(splits, histories', instead', |histories|);
  }

  /** What is written for a template: the template, or what the lines of its last split made
      of it. */
  ghost function OutputFor(splits: seq<Split>, histories: seq<seq<string>>, instead: seq<bool>, k: nat)
    : multiset<string>
    requires k < |histories| == |instead|
  {
    if instead[k] && k < |splits| then OutputBag(splits[k].lines)
    else if histories[k] == [] then multiset{} else multiset{TemplOf(histories[k])}
  }

  ghost function OutputNow(splits: seq<Split>, histories: seq<seq<string>>, instead: seq<bool>, n: nat)
    : multiset<string>
    requires n <= |histories| == |instead|
  {
    if n == 0 then multiset{}
    else OutputNow(splits, histories, instead, n - 1) + OutputFor(splits, histories, instead, n - 1)
  }

  lemma NothingNow(splits: seq<Split>, histories: seq<seq<string>>, instead: seq<bool>)
    requires |histories| == |instead|
    ensures OutputNow(splits, histories, instead, 0) == multiset{}
  {
  }

  lemma OneMoreNow(splits: seq<Split>, histories: seq<seq<string>>, instead: seq<bool>, k: nat)
    requires k < |histories| == |instead|
    ensures OutputNow(splits, histories, instead, k + 1)
         == OutputNow(splits, histories, instead, k) + OutputFor(splits, histories, instead, k)
  {
  }

  /** Right after a split that is the output of all lines. */
  lemma {:induction false} OutputAtSplit(splits: seq<Split>, histories: seq<seq<string>>, instead: seq<bool>,
      threshold: real, n: nat)
    requires SplitsOk(splits, histories, instead, threshold) && n <= |splits| == |histories|
    requires forall k :: 0 <= k < |splits| ==> splits[k].lines == histories[k]
    ensures OutputNow(splits, histories, instead, n) == OutputOfAll(histories[..n])
  {
    hide SplitOk, OutputFor, OutputBag;
    if n > 0 {
      OutputAtSplit(splits, histories, instead, threshold, n - 1);
      assert histories[..n][..n - 1] == histories[..n - 1];
      assert SplitOk(splits[n - 1], histories[n - 1], instead[n - 1], threshold);
      OutputForSplit(splits, histories, instead, threshold, n - 1);
    }
  }

  lemma OutputForSplit(splits: seq<Split>, histories: seq<seq<string>>, instead: seq<bool>, threshold: real, k: nat)
    requires k < |splits| == |histories| == |instead| && splits[k].lines == histories[k]
    requires SplitOk(splits[k], histories[k], instead[k], threshold)
    ensures OutputFor(splits, histories, instead, k) == OutputBag(histories[k])
  {
    hide Output, PutBackIn, TemplateOf, AllMatched, TemplOf;
    if !instead[k] { OutputIs(histories[k]); }
  }

  lemma OutputIs(lines: seq<string>)
    requires lines != [] && PutBackIn(lines) == {}
    ensures Output(lines) == {TemplOf(lines)}
  {
    hide PutBackIn, TemplOf;
  }

  lemma {:induction false} DistinctIsSet(s: seq<string>, elements: set<string>)
    requires forall i, j :: 0 <= i < j < |s| ==> s[i] != s[j]
    requires forall x :: x in s <==> x in elements
    ensures multiset(s) == multiset(elements)
  {
    if s != [] {
      var last := |s| - 1;
      assert s == s[..last] + [s[last]];
      assert s[last] !in s[..last];
      DistinctIsSet(s[..last], elements - {s[last]});
      assert elements == (elements - {s[last]}) + {s[last]};
    } else {
      assert elements == {};
    }
  }

  /** If no template was split since its lines, or all were, every line is kept. */
  lemma AllKept(splits: seq<Split>, histories: seq<seq<string>>, instead: seq<bool>, l: string)
    requires |histories| == |instead| && l in Total(histories)
    requires forall k :: 0 <= k < |histories| && instead[k] && k < |splits| ==> splits[k].lines == histories[k]
    ensures IsKept(splits, histories, instead, l)
  {
    hide Total;
    InTotal(histories, l);
    var k: nat :| k < |histories| && l in histories[k];
    assert l in KeptFor(splits, histories, instead, k);
  }

  /** What all splits have left behind. */
  ghost function Joined(splits: seq<Split>): seq<string> {
    if splits == [] then [] else Joined(splits[..|splits| - 1]) + splits[|splits| - 1].templs
  }

  lemma {:induction false} JoinedElements(splits: seq<Split>, w: string)
    ensures w in Joined(splits) <==> exists k :: 0 <= k < |splits| && w in splits[k].templs
  {
    if splits != [] {
      JoinedElements(splits[..|splits| - 1], w);
    }
  }
}

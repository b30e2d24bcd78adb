/**
 The templates of one routing key: `templ_layer` of
 flt/templating/online_templater.hpp.
*/
module TemplLayers {
  import opened WordIterators
  import opened ParamTables
  import opened Splitting
  import opened TemplStrings
  import opened TemplSplits
  import opened Similarities
  import opened TemplSequences
  import opened TemplNodes
  import opened Outputs
  import opened TemplHistories

  class TemplLayer {
    var nodes: seq<TemplNode>
    var splitNodes: seq<TemplNode>
    const config: Configuration

    /** Number of words of every line of this layer, the lines it was fed, and which
        of them each template was learned from. */
    ghost const width: nat
    ghost var fed: seq<string>
    ghost var histories: seq<seq<string>>
    /** What each template was last split into, and what it had been learned from then. */
    ghost var parts: seq<seq<TemplNode>>
    ghost var splits: seq<Split>
    /** Which templates count as split. */
    ghost var instead: seq<bool>
    ghost var Repr: set<object>

    ghost predicate Shape()
      reads this
    {
      && this in Repr
      && (forall n :: n in nodes ==> n in Repr)
      && (forall n :: n in splitNodes ==> n in Repr)
      && (forall i, j :: 0 <= i < j < |nodes| ==> nodes[i] != nodes[j])
      && (forall n :: n in splitNodes ==> n !in nodes)
      && |histories| == |nodes| == |instead|
      && multiset(fed) == Total(histories)
    }

    ghost predicate NodeOk(n: TemplNode, history: seq<string>)
      reads n
    {
      && n.Valid() && n.config == config && n.templLength == width && n.history == history
      && LiteralEnough(history, n.templ, config.threshold)
    }

    ghost predicate Fits(lines: seq<string>, w: string) {
      |Words(w)| == width && TemplateOf(lines, w, config.threshold)
    }

    /** The templates are those the lines alone determine. */
    ghost predicate TemplsAre(templs: seq<string>)
      reads this, nodes
    {
      HaveTempls(nodes, templs)
    }

    /** The split templates, however old, are those of the lines known by then. */
    ghost predicate SplitNodesOk()
      reads this`nodes, this`splitNodes, this`splits, this`histories, this`instead, nodes, splitNodes
    {
      && SplitsOk(splits, histories, instead, config.threshold) && |instead| == |nodes|
      && (forall i :: 0 <= i < |nodes| ==> instead[i] == nodes[i].templWasSplit)
      && HaveTempls(splitNodes, Joined(splits))
    }

    ghost predicate Valid()
      reads this, Repr
    {
      && Shape()
      && (forall i :: 0 <= i < |nodes| ==> NodeOk(nodes[i], histories[i]))
      && TemplsAre(TemplsAfter(fed, config.threshold))
      && histories == HistoriesAfter(fed, config.threshold)
      && SplitNodesOk()
    }

    constructor (config: Configuration, ghost width: nat)
      ensures Valid() && fresh(Repr) && this.config == config && this.width == width
      ensures this in Repr && fed == [] && Whole() && nodes == [] && splitNodes == []
    {
      this.config := config;
      this.width := width;
      nodes, splitNodes, fed, histories, parts, splits, instead := [], [], [], [], [], [], [];
      Repr := {this};
    }

    /** A line that is matched by what would be written: a line of a template that is not
        split, or one that was known when the template was split. */
    ghost predicate Kept(l: string)
      reads this
    {
      |histories| == |instead| && IsKept(splits, histories, instead, l)
    }

    /** No template counts as split. */
    ghost predicate Whole()
      reads this
    {
      true !in instead
    }

    /** Similarities of the templates to a line. */
    ghost function Sims(line: string): seq<Similarity>
      reads this
    {
      SimilaritiesTo(TemplsAfter(fed, config.threshold), line, config.threshold)
    }

    /** The loop over the templates: the first of the most similar ones, if any is
        similar enough. */
    method FindClosest(line: string) returns (found: bool, closest: nat)
      requires Valid() && |Words(line)| == width
      ensures if found then IsClosest(Sims(line), closest) else NoneSimilar(Sims(line))
    {
      hide Valid, Scanned, Words, ParseLine, SimilarityOf, NodeOk, TemplNode.Valid, IsClosest, NoneSimilar, Sims;
      var max := 0.0;
      found, closest := false, 0;
      ScanStart();
      ghost var sims := Sims(line);
      SimsAre(line);
      var i := 0;
      while i < |nodes|
        invariant i <= |nodes| == |sims|
        invariant Scanned(sims[..i], found, closest, max)
      {
        SimAt(line, i);
        var cur := nodes[i].GetSimilarity(line);
        assert sims[..i + 1] == sims[..i] + [cur];
        ScanStep(sims[..i], found, closest, max, cur);
        if cur.Exceeds(max) {
          max, found, closest := cur.v, true, i;
        }
        i := i + 1;
      }
      assert sims[..i] == sims;
      ScanEnd(sims, found, closest, max);
    }

    lemma SimsAre(line: string)
      requires Valid()
      ensures |Sims(line)| == |nodes|
    {
      hide Shape, NodeOk, TemplsAfter, HistoriesAfter, SplitNodesOk, SimilarityTo;
    }

    lemma SimAt(line: string, i: nat)
      requires Valid() && |Words(line)| == width && i < |nodes|
      ensures |Words(nodes[i].templ)| == |Words(line)| && nodes[i].config == config && i < |Sims(line)|
      ensures Sims(line)[i] == SimilarityOf(ParseLine(nodes[i].templ), ParseLine(line), config.threshold)
    {
      hide Words, ParseLine, SimilarityOf, Knows, LiteralEnough, TemplsAfter, HistoriesAfter, SplitNodesOk, Total;
      assert NodeOk(nodes[i], histories[i]);
    }

    /** A template learns a line it is similar to. */
    method LearnNode(n: TemplNode, ghost history: seq<string>, line: string)
      requires NodeOk(n, history) && |Words(n.templ)| == |Words(line)|
      requires SimilarityOf(ParseLine(n.templ), ParseLine(line), config.threshold).Exceeds(0.0)
      modifies n
      ensures NodeOk(n, history + [line]) && |Words(old(n.templ))| == |Words(line)|
      ensures n.templWasSplit == old(n.templWasSplit)
      ensures n.templ == Render(Merged(old(n.templ), line))
    {
      hide Words, ParseLine, Knows, KnowsMore, LiteralEnough, Merged;
      SimilarHasWords(n.templ, line);
      ghost var templ0 := n.templ;
      label before:
      n.Update(line);
      LearnedWords(config.storeParams, templ0, history, old@before(n.exceeded), old@before(n.params), line,
                   n.templ, n.exceeded, n.paramTable, n.params);
      StillLiteral(history, templ0, line, n.templ);
    }

    lemma SimilarHasWords(templ: string, line: string)
      requires |Words(templ)| == |Words(line)|
      requires SimilarityOf(ParseLine(templ), ParseLine(line), config.threshold).Exceeds(0.0)
      ensures |Words(line)| > 0
    {
    }

    /** The closest template learns the line. */
    method LearnAt(line: string, at: nat)
      requires Valid() && |Words(line)| == width && IsClosest(Sims(line), at)
      modifies Repr
      ensures Valid() && Repr == old(Repr) && fed == old(fed) + [line]
      ensures nodes == old(nodes) && splitNodes == old(splitNodes)
      ensures at < |nodes| && histories == old(histories)[at := old(histories)[at] + [line]]
      ensures instead == old(instead) && forall l :: old(Kept(l)) ==> Kept(l)
      ensures at < |instead| && (!instead[at] ==> Kept(line))
    {
      hide Shape, NodeOk, Words, ParseLine, SimilarityOf, TemplsAfter, HistoriesAfter, IsClosest, Sims;
      hide SplitsOk, Joined, IsKept;
      SimsSay(line, at);
      ShapeSays();
      SplitsLearn(splits, histories, instead, config.threshold, at, line);
      assert nodes[at] in nodes && nodes[at] !in splitNodes;
      LearnNodeAt(line, at);
      assert TemplsAre(TemplsAfter(fed, config.threshold));
      assert histories == HistoriesAfter(fed, config.threshold);
      assert SplitNodesOk();
    }

    lemma ShapeSays()
      requires Shape()
      ensures this in Repr && |histories| == |nodes| == |instead|
      ensures (forall n :: n in nodes ==> n in Repr) && forall n :: n in splitNodes ==> n !in nodes
    {
    }

    method LearnNodeAt(line: string, at: nat)
      requires Shape() && forall i :: 0 <= i < |nodes| ==> NodeOk(nodes[i], histories[i])
      requires at < |nodes| && |Words(nodes[at].templ)| == |Words(line)|
      requires SimilarityOf(ParseLine(nodes[at].templ), ParseLine(line), config.threshold).Exceeds(0.0)
      modifies this`fed, this`histories, nodes[at]
      ensures Shape() && forall i :: 0 <= i < |nodes| ==> NodeOk(nodes[i], histories[i])
      ensures fed == old(fed) + [line] && histories == old(histories)[at := old(histories)[at] + [line]]
      ensures |Words(old(nodes[at].templ))| == |Words(line)|
      ensures nodes[at].templ == Render(Merged(old(nodes[at].templ), line))
      ensures nodes[at].templWasSplit == old(nodes[at].templWasSplit)
      ensures forall i :: 0 <= i < |nodes| && i != at ==> nodes[i] != nodes[at]
    {
      hide Words, ParseLine, SimilarityOf, NodeOk, Total;
      var n := nodes[at];
      LearnNode(n, histories[at], line);
      TotalUpdate(histories, at, line);
      histories := histories[at := histories[at] + [line]];
      fed := fed + [line];
      forall i | 0 <= i < |nodes| ensures NodeOk(nodes[i], histories[i]) {
        if i != at { assert nodes[i] != n && old(NodeOk(nodes[i], histories[i])); }
      }
    }

    lemma SimsSay(line: string, at: nat)
      requires TemplsAre(TemplsAfter(fed, config.threshold)) && histories == HistoriesAfter(fed, config.threshold)
      ensures IsClosest(Sims(line), at) ==>
        && at < |nodes| && |Words(nodes[at].templ)| == |Words(line)|
        && SimilarityOf(ParseLine(nodes[at].templ), ParseLine(line), config.threshold).Exceeds(0.0)
        && TemplsAfter(fed + [line], config.threshold)
           == TemplsAfter(fed, config.threshold)[at := Render(Merged(nodes[at].templ, line))]
        && at < |histories|
        && HistoriesAfter(fed + [line], config.threshold) == histories[at := histories[at] + [line]]
      ensures NoneSimilar(Sims(line)) ==>
        && TemplsAfter(fed + [line], config.threshold) == TemplsAfter(fed, config.threshold) + [line]
        && HistoriesAfter(fed + [line], config.threshold) == histories + [[line]]
    {
      hide TemplsAfter, HistoriesAfter, LearnLine, Words, SimilarityOf;
      HistoriesAfterMore(fed, line, config.threshold, at);
      TemplsAfterMore(fed, line, config.threshold);
      LearnLineSays(TemplsAfter(fed, config.threshold), line, config.threshold, at);
    }

    lemma StillLiteral(lines: seq<string>, templ: string, line: string, templ': string)
      requires |Words(templ)| == |Words(line)| && Words(templ') == Merge(Words(templ), Words(line))
      requires SimilarityOf(ParseLine(templ), ParseLine(line), config.threshold).Exceeds(0.0)
      ensures LiteralEnough(lines + [line], templ', config.threshold)
    {
      hide Words, SimilarityOf, MostlyLiteral;
      if NoWildcards(lines + [line]) {
        assert (lines + [line])[|lines|] == line;
        SimilarKeepsLiterals(templ, line, config.threshold);
      }
    }

    lemma LiteralAtFirst(line: string)
      requires WILDCARD !in Words(line)
      ensures LiteralEnough([line], line, config.threshold)
    {
      hide Words, MostlyLiteral;
      if |Words(line)| > 0 {
        FirstLineIsLiteral(Words(line), config.threshold);
      } else {
        EmptyIsLiteral(Words(line), config.threshold);
      }
    }

    method MakeNode(line: string) returns (n: TemplNode)
      requires |Words(line)| == width && WILDCARD !in Words(line)
      ensures fresh(n) && n.templ == line && !n.templWasSplit && NodeOk(n, [line])
    {
      hide Words, ParseLine, Knows, LiteralEnough;
      n := new TemplNode(line, config, map[], [line]);
      FirstLineKnown(config.storeParams, line);
      n.ValidIs();
      LiteralAtFirst(line);
    }

    /** The line becomes a template. */
    method AddNode(line: string)
      requires Valid() && |Words(line)| == width && WILDCARD !in Words(line) && NoneSimilar(Sims(line))
      modifies this
      ensures Valid() && fresh(Repr - old(Repr)) && fed == old(fed) + [line]
      ensures |nodes| == |old(nodes)| + 1 && nodes[..|old(nodes)|] == old(nodes)
      ensures nodes[|old(nodes)|].templ == line && splitNodes == old(splitNodes)
      ensures histories == old(histories) + [[line]]
      ensures instead == old(instead) + [false]
      ensures Kept(line) && forall l :: old(Kept(l)) ==> Kept(l)
    {
      hide Shape, NodeOk, Words, ParseLine, TemplsAfter, HistoriesAfter, NoneSimilar, Sims;
      hide HaveTempls, SplitsOk, IsKept, Joined;
      SimsSay(line, 0);
      ShapeSays();
      SplitsFound(splits, histories, instead, config.threshold, line);
      var n := MakeNode(line);
      HaveTemplsMore(nodes, TemplsAfter(fed, config.threshold), n);
      AppendNode(n, line);
      assert SplitNodesOk();
    }

    method AppendNode(n: TemplNode, line: string)
      requires Shape() && forall i :: 0 <= i < |nodes| ==> NodeOk(nodes[i], histories[i])
      requires n !in Repr && NodeOk(n, [line])
      modifies this`nodes, this`histories, this`instead, this`fed, this`Repr
      ensures Shape() && forall i :: 0 <= i < |nodes| ==> NodeOk(nodes[i], histories[i])
      ensures nodes == old(nodes) + [n] && histories == old(histories) + [[line]] && fed == old(fed) + [line]
      ensures instead == old(instead) + [false] && Repr == old(Repr) + {n}
    {
      hide NodeOk, Total;
      TotalAppend(histories, line);
      nodes := nodes + [n];
      histories := histories + [[line]];
      instead := instead + [false];
      fed := fed + [line];
      Repr := Repr + {n};
      forall i | 0 <= i < |nodes| ensures NodeOk(nodes[i], histories[i]) {
        if i < |nodes| - 1 { assert old(NodeOk(nodes[i], histories[i])); }
      }
    }

    lemma OwnsItself()
      requires Valid()
      ensures this in Repr
    {
    }

    lemma AdmitsSays(line: string)
      requires Admits(fed, line, config.threshold)
      ensures NoneSimilar(Sims(line)) ==> WILDCARD !in Words(line)
    {
      hide Words, TemplsAfter, SimilaritiesTo;
    }

    lemma WholeSays()
      ensures Whole() <==> forall k :: 0 <= k < |instead| ==> !instead[k]
    {
    }

    /** Feeds one line: the closest template learns it, or it becomes a template, which a
        line with the wildcard as a word must not. */
    method Update(line: string)
      requires Valid() && |Words(line)| == width && Admits(fed, line, config.threshold)
      modifies Repr
      ensures Valid() && fresh(Repr - old(Repr))
      ensures fed == old(fed) + [line] && splitNodes == old(splitNodes)
      ensures old(NoneSimilar(Sims(line))) ==>
        && |nodes| == |old(nodes)| + 1 && nodes[..|old(nodes)|] == old(nodes)
        && nodes[|old(nodes)|].templ == line && histories == old(histories) + [[line]]
      ensures !old(NoneSimilar(Sims(line))) ==> exists b: nat ::
        && old(IsClosest(Sims(line), b)) && b < |nodes| && nodes == old(nodes)
        && histories == old(histories)[b := old(histories)[b] + [line]]
      ensures instead == old(instead) + if old(NoneSimilar(Sims(line))) then [false] else []
      ensures forall l :: old(Kept(l)) ==> Kept(l)
      ensures old(Whole()) ==> Whole() && Kept(line)
    {
      hide *;
      ClosestExists(Sims(line));
      OwnsItself();
      AdmitsSays(line);
      WholeSays();
      var found, closest := FindClosest(line);
      if found {
        LearnAt(line, closest);
      } else {
        AddNode(line);
      }
      WholeSays();
    }

    /** A template and what it was split into, if its table called for a split. */
    ghost predicate SplitDone(n: TemplNode, part: seq<TemplNode>)
      reads n, part
    {
      && n.templWasSplit == (RestoredPositions(n.templ, n.exceeded, n.paramTable) != {})
      && (if n.templWasSplit then n.SplitsInto(part) else part == [])
    }

    /** All templates have been split since the last line. */
    ghost predicate JustSplit()
      reads this, Repr
    {
      && Shape()
      && |parts| == |splits| == |nodes| && splitNodes == Flat(parts)
      && (forall i :: 0 <= i < |nodes| ==> PartIn(parts[i], Repr) && SplitDone(nodes[i], parts[i]))
      && (forall i :: 0 <= i < |nodes| ==> splits[i].lines == histories[i])
    }

    /** One round of the loop over the templates: what a template is split into belongs to
        its lines and covers them. */
    ghost predicate PartDone(n: TemplNode, history: seq<string>, part: seq<TemplNode>, split: Split)
      reads n, part
    {
      && SplitDone(n, part) && HaveTempls(part, split.templs)
      && SplitOk(split, history, n.templWasSplit, config.threshold) && split.lines == history
    }

    method SplitNode(n: TemplNode, ghost history: seq<string>) returns (part: seq<TemplNode>, ghost split: Split)
      requires NodeOk(n, history)
      modifies n`templWasSplit
      ensures NodeOk(n, history) && PartDone(n, history, part, split)
      ensures forall p :: p in part ==> fresh(p)
    {
      hide Words, Knows, LiteralEnough, RestoredPositions, Usable, SplitStrings, StoredSplitParams, SplitOk;
      part := n.SplitTempl();
      split := Split(history, TemplsOf(part));
      PartOk(n, part);
    }

    /** What a template was split into is the output of its lines, belongs to them and
        covers them. */
    lemma PartOk(n: TemplNode, part: seq<TemplNode>)
      requires NodeOk(n, n.history) && SplitDone(n, part)
      ensures SplitOk(Split(n.history, TemplsOf(part)), n.history, n.templWasSplit, config.threshold)
    {
      hide *;
      PartIsOutput(n, part);
      if n.templWasSplit {
        SplitNodeCovers(n, part);
      } else {
        NoPart(n, part);
      }
      SplitIsOk(n.history, TemplsOf(part), n.templWasSplit, config.threshold);
    }

    lemma PartIsOutput(n: TemplNode, part: seq<TemplNode>)
      requires NodeOk(n, n.history) && SplitDone(n, part)
      ensures n.history != [] && n.templWasSplit == (PutBackIn(n.history) != {})
      ensures n.templWasSplit ==> multiset(TemplsOf(part)) == OutputBag(n.history)
    {
      hide Words, Knows, LiteralEnough, RestoredPositions, PutBackIn, TemplsOf, Output, SplitStrings, Usable;
      hide StoredSplitParams, Covers;
      n.ValidIs();
      RestoredIsPutBackIn(config.storeParams, n.templ, n.history, n.exceeded, n.paramTable, n.params);
      if n.templWasSplit {
        SplitIsOutput(config.storeParams, n.templ, n.history, n.exceeded, n.paramTable, n.params);
        var templs := TemplsOf(part);
        assert forall i :: 0 <= i < |part| ==> templs[i] == part[i].templ;
        DistinctIsSet(templs, Output(n.history));
      }
    }

    lemma NoPart(n: TemplNode, part: seq<TemplNode>)
      requires SplitDone(n, part) && !n.templWasSplit
      ensures TemplsOf(part) == []
    {
    }

    /** The loop over the templates. */
    method SplitEachNode()
      requires Shape() && forall k :: 0 <= k < |nodes| ==> NodeOk(nodes[k], histories[k])
      modifies this`splitNodes, this`parts, this`splits, nodes`templWasSplit
      ensures |parts| == |splits| == |nodes| && splitNodes == Flat(parts)
      ensures forall k :: 0 <= k < |nodes| ==> NodeOk(nodes[k], histories[k])
      ensures forall k :: 0 <= k < |nodes| ==> PartDone(nodes[k], histories[k], parts[k], splits[k])
      ensures NoneIn(splitNodes, nodes) && forall n :: n in splitNodes ==> fresh(n)
    {
      hide Total, NodeOk, PartDone, Flat;
      FlatNothing();
      splitNodes, parts, splits := [], [], [];
      var i := 0;
      while i < |nodes|
        invariant i == |parts| == |splits| <= |nodes| && splitNodes == Flat(parts)
        invariant forall k, l :: 0 <= k < l < |nodes| ==> nodes[k] != nodes[l]
        invariant forall k :: 0 <= k < |nodes| ==> NodeOk(nodes[k], histories[k])
        invariant forall k :: 0 <= k < i ==> PartDone(nodes[k], histories[k], parts[k], splits[k])
        invariant forall n :: n in splitNodes ==> fresh(n)
      {
        label before:
        FlatElements(parts);
        ghost var split;
        var newTempls;
        newTempls, split := SplitNode(nodes[i], histories[i]);
        forall k | 0 <= k < i ensures PartDone(nodes[k], histories[k], parts[k], splits[k]) {
          assert old@before(PartDone(nodes[k], histories[k], parts[k], splits[k]));
          assert old(allocated(nodes[i])) && nodes[i] !in splitNodes;
        }
        FlatMore(parts, newTempls);
        splitNodes := splitNodes + newTempls;
        parts := parts + [newTempls];
        splits := splits + [split];
        i := i + 1;
      }
      assert forall k :: 0 <= k < |nodes| ==> old(allocated(nodes[k]));
    }

    /** It leaves behind parts that belong to the lines known so far. */
    method SplitAll()
      requires Shape() && forall k :: 0 <= k < |nodes| ==> NodeOk(nodes[k], histories[k])
      modifies this`splitNodes, this`parts, this`splits, this`instead, nodes`templWasSplit
      ensures |parts| == |splits| == |nodes| == |instead| && splitNodes == Flat(parts) && SplitNodesOk()
      ensures forall k :: 0 <= k < |nodes| ==> NodeOk(nodes[k], histories[k])
      ensures forall k :: 0 <= k < |nodes| ==> SplitDone(nodes[k], parts[k]) && splits[k].lines == histories[k]
      ensures NoneIn(splitNodes, nodes) && forall n :: n in splitNodes ==> fresh(n)
    {
      hide Total, NodeOk, SplitDone, PartDone, Flat, SplitNodesOk, NoneIn;
      SplitEachNode();
      instead := WereSplit(nodes);
      AllDone();
    }

    lemma AllDone()
      requires |parts| == |splits| == |nodes| == |histories| == |instead| && splitNodes == Flat(parts)
      requires forall k :: 0 <= k < |nodes| ==> PartDone(nodes[k], histories[k], parts[k], splits[k])
      requires forall k :: 0 <= k < |nodes| ==> instead[k] == nodes[k].templWasSplit
      ensures SplitNodesOk()
      ensures forall k :: 0 <= k < |nodes| ==> SplitDone(nodes[k], parts[k]) && splits[k].lines == histories[k]
    {
      hide SplitDone, SplitOk, HaveTempls, Flat;
      assert forall k :: 0 <= k < |nodes| ==> PartDone(nodes[k], histories[k], parts[k], splits[k]);
      FlatHasTempls(parts, splits);
    }

    method SplitTempls()
      requires Valid()
      modifies Repr
      ensures Valid() && JustSplit() && fresh(Repr - old(Repr))
      ensures nodes == old(nodes) && histories == old(histories) && fed == old(fed)
    {
      hide Total, NodeOk, SplitDone, Flat, TemplsAfter, SplitNodesOk;
      ghost var templs := TemplsAfter(fed, config.threshold);
      SplitAll();
      assert TemplsAre(templs);
      Repr := Repr + (set n: TemplNode | n in splitNodes :: n as object);
      assert Shape();
      FlatWithin(parts, Repr);
    }

    lemma HistoryFed(k: nat)
      requires k < |histories| && multiset(fed) == Total(histories)
      ensures forall l :: l in histories[k] ==> l in fed
    {
      hide Total;
      forall l | l in histories[k] ensures l in fed {
        InTotal(histories, l);
        assert l in multiset(fed);
      }
    }

    /** What is written: the templates that were not split, then the split ones. */
    ghost function Saved(): seq<string>
      reads this, nodes, splitNodes
    {
      Unsplit(nodes) + TemplsOf(splitNodes)
    }

    /** Which strings these are, in every reachable state: the templates that were not split
        and the split ones, each once. */
    lemma SavedExactly()
      requires Valid()
      ensures forall w :: w in Saved() <==>
        || (exists k :: 0 <= k < |nodes| && !nodes[k].templWasSplit && nodes[k].templ == w)
        || (exists k :: 0 <= k < |splits| && w in splits[k].templs)
      ensures |Saved()| == |set k | 0 <= k < |nodes| && !nodes[k].templWasSplit| + |splitNodes|
    {
      hide Shape, NodeOk, TemplsAre, SplitsOk, Joined, Unsplit, TemplsOf;
      UnsplitElements(nodes);
      UnsplitCount(nodes);
      forall w ensures w in TemplsOf(splitNodes) <==> exists k :: 0 <= k < |splits| && w in splits[k].templs {
        JoinedElements(splits, w);
      }
    }

    /** They are determined by the lines, those known now and those known at the last split. */
    lemma SavedIsOutput()
      requires Valid()
      ensures |histories| == |instead| == |nodes|
      ensures multiset(Saved()) == OutputNow(splits, histories, instead, |nodes|)
    {
      hide SplitOk, OutputFor, Joined, Unsplit, NodeOk, Shape;
      ShapeSays();
      assert TemplsOf(splitNodes) == Joined(splits);
      SavedUpTo(|nodes|);
      assert nodes[..|nodes|] == nodes && splits[..|splits|] == splits;
    }

    lemma {:induction false} SavedUpTo(n: nat)
      requires Valid() && n <= |nodes|
      ensures |histories| == |instead| == |nodes| && |splits| <= |nodes|
      ensures multiset(Unsplit(nodes[..n])) + multiset(Joined(splits[..if n <= |splits| then n else |splits|]))
           == OutputNow(splits, histories, instead, n)
    {
      hide *;
      CountsAgree();
      if n == 0 {
        NothingSaved();
        assert nodes[..0] == [] && splits[..0] == [];
        NothingNow(splits, histories, instead);
      } else {
        var k := n - 1;
        SavedUpTo(k);
        UnsplitMore(nodes, k);
        if k < |splits| { JoinedAt(splits, k); }
        SavedAt(k);
        OneMoreNow(splits, histories, instead, k);
      }
    }

    lemma CountsAgree()
      requires Valid()
      ensures |histories| == |instead| == |nodes| && |splits| <= |nodes|
    {
      hide SplitOk, NodeOk, Total;
    }

    /** What one template contributes. */
    lemma SavedAt(k: nat)
      requires Valid() && k < |nodes|
      ensures |histories| == |instead| == |nodes| && instead[k] == nodes[k].templWasSplit
      ensures OutputFor(splits, histories, instead, k)
           == (if nodes[k].templWasSplit then multiset{} else multiset{nodes[k].templ})
              + if k < |splits| then multiset(splits[k].templs) else multiset{}
    {
      hide TemplsAre, Joined, TemplsOf, TemplateOf, AllMatched, PutBackIn, OutputBag, TemplOf, Learned, Reached, Words;
      assert NodeOk(nodes[k], histories[k]);
      if k < |splits| {
        assert SplitOk(splits[k], histories[k], instead[k], config.threshold);
      }
    }

    /** After a split, the lines alone determine what is written, with how many copies. */
    lemma SavedAfterSplit()
      requires Valid() && JustSplit()
      ensures multiset(Saved()) == OutputOfAll(HistoriesAfter(fed, config.threshold))
    {
      hide Shape, NodeOk, TemplsAre, HistoriesAfter, SplitDone, Flat, Saved, SplitsOk, Joined;
      SavedIsOutput();
      OutputAtSplit(splits, histories, instead, config.threshold, |histories|);
      assert histories[..|histories|] == histories;
    }

    method SaveTempls() returns (written: seq<string>)
      ensures written == Saved()
    {
      written := [];
      var i := 0;
      while i < |nodes|
        invariant i <= |nodes| && written == Unsplit(nodes[..i])
      {
        assert nodes[..i + 1][..i] == nodes[..i];
        if !nodes[i].templWasSplit {
          written := written + [nodes[i].templ];
        }
        i := i + 1;
      }
      assert nodes[..i] == nodes;
      i := 0;
      while i < |splitNodes|
        invariant i <= |splitNodes| && written == Unsplit(nodes) + TemplsOf(splitNodes[..i])
      {
        assert splitNodes[..i + 1][..i] == splitNodes[..i];
        written := written + [splitNodes[i].templ];
        i := i + 1;
      }
      assert splitNodes[..i] == splitNodes;
    }

    /** After a split, all lines are kept, and as long as no template was split as well. */
    lemma FedIsKept(l: string)
      requires Valid() && l in fed && (JustSplit() || Whole())
      ensures Kept(l)
    {
      hide Total, NodeOk, TemplsAre, SplitDone, SplitNodesOk, IsKept;
      assert l in multiset(fed);
      AllKept(splits, histories, instead, l);
    }

    /** In every reachable state, what would be written matches all lines that are kept. */
    lemma LineIsWritten(l: string) returns (w: string)
      requires Valid() && Kept(l)
      ensures w in Saved() && Matches(Words(w), Words(l))
    {
      hide Words, Matches, Total, NodeOk, TemplsAre, SplitNodesOk;
      UnsplitElements(nodes);
      var k: nat :| k < |histories| && l in KeptFor(splits, histories, instead, k);
      SplitIsNoted(k);
      if nodes[k].templWasSplit {
        w := PartIsWritten(k, l);
      } else {
        w := nodes[k].templ;
        NodeMatches(nodes[k], histories[k], l);
      }
    }

    lemma SplitIsNoted(k: nat)
      requires SplitNodesOk() && k < |nodes|
      ensures |instead| == |nodes| && instead[k] == nodes[k].templWasSplit && (instead[k] ==> k < |splits|)
    {
      hide SplitOk, HaveTempls;
    }

    lemma PartIsWritten(k: nat, l: string) returns (w: string)
      requires SplitNodesOk() && k < |nodes| && nodes[k].templWasSplit && k < |splits| && l in splits[k].lines
      ensures w in Saved() && Matches(Words(w), Words(l))
    {
      hide *;
      SplitCoversLines(k);
      w := CoveringTempl(splits[k].templs, splits[k].lines, l);
      JoinedElements(splits, w);
      SavedHasJoined(w);
    }

    lemma SplitCoversLines(k: nat)
      requires SplitNodesOk() && k < |nodes| && nodes[k].templWasSplit && k < |splits|
      ensures AllMatched(splits[k].templs, splits[k].lines)
    {
      hide AllMatched, TemplateOf, PutBackIn, OutputBag, Joined, HaveTempls;
      assert SplitOk(splits[k], histories[k], instead[k], config.threshold);
    }

    lemma SavedHasJoined(w: string)
      requires SplitNodesOk() && w in Joined(splits)
      ensures w in Saved()
    {
      hide SplitsOk, Joined, Unsplit;
      assert TemplsOf(splitNodes) == Joined(splits);
    }

    lemma NodeMatches(n: TemplNode, history: seq<string>, l: string)
      requires NodeOk(n, history) && l in history
      ensures Matches(Words(n.templ), Words(l))
    {
      hide Words, Matches, Knows, LiteralEnough;
      n.ValidIs();
      KnownLinesMatch(config.storeParams, n.templ, n.history, n.exceeded, n.paramTable, n.params);
    }

    lemma NodeIsTemplate(n: TemplNode, history: seq<string>)
      requires NodeOk(n, history)
      ensures Fits(history, n.templ)
    {
      hide Words, Matches, Knows, LiteralEnough, KeepsAgreed;
      n.ValidIs();
      KnownLinesMatch(config.storeParams, n.templ, n.history, n.exceeded, n.paramTable, n.params);
      KnownKeepsAgreed(config.storeParams, n.templ, n.history, n.exceeded, n.paramTable, n.params);
      assert n.history[0] in n.history;
      forall l | l in history ensures |Words(l)| == |Words(n.templ)| {
        n.HistoryWidths(l);
      }
    }

    /** The lines a template was learned from, or one it was split into. */
    ghost predicate LearnedFrom(w: string, some: seq<string>)
      reads this, nodes
    {
      || (exists k: nat :: k < |nodes| && k < |histories| && nodes[k].templ == w && histories[k] == some)
      || (exists k: nat :: k < |splits| && w in splits[k].templs && splits[k].lines == some)
    }

    /** In every reachable state, each template and whatever would be written, split
        recently, long ago or never, is a template of the lines it was learned from. */
    lemma LearnedFits(w: string, some: seq<string>)
      requires Valid() && LearnedFrom(w, some)
      ensures Fits(some, w) && forall l :: l in some ==> l in fed
    {
      hide Total, NodeOk, TemplsAre, TemplateOf, Words, Joined, HistoriesAfter, SplitOk;
      if k: nat :| k < |nodes| && k < |histories| && nodes[k].templ == w && histories[k] == some {
        NodeIsTemplate(nodes[k], some);
        HistoryFed(k);
      } else {
        var k: nat :| k < |splits| && w in splits[k].templs && splits[k].lines == some;
        SplitSays(splits[k], histories[k], instead[k], config.threshold, w);
        HistoryFed(k);
        var l := MatchedLine(some, w, config.threshold);
        WidthFed(l);
      }
    }

    lemma SavedIsLearned(w: string) returns (some: seq<string>)
      requires Valid() && w in Saved()
      ensures LearnedFrom(w, some)
    {
      hide Total, NodeOk, TemplsAre, SplitOk, TemplsOf, Joined;
      UnsplitElements(nodes);
      JoinedElements(splits, w);
      if i: nat :| i < |nodes| && !nodes[i].templWasSplit && nodes[i].templ == w {
        some := histories[i];
      } else {
        var k: nat :| k < |splits| && w in splits[k].templs;
        some := splits[k].lines;
      }
    }

    /** Each template fits the lines fed. */
    lemma NodeFits(i: nat)
      requires Valid() && i < |nodes|
      ensures Fits(fed, nodes[i].templ)
    {
      hide *;
      var some := NodeIsLearned(i);
      FitsAll(nodes[i].templ, some);
    }

    lemma NodeIsLearned(i: nat) returns (some: seq<string>)
      requires Valid() && i < |nodes|
      ensures LearnedFrom(nodes[i].templ, some)
    {
      hide Total, NodeOk, TemplsAre, SplitNodesOk;
      some := histories[i];
    }

    /** So does whatever would be written. */
    lemma SavedFits(w: string)
      requires Valid() && w in Saved()
      ensures Fits(fed, w)
    {
      hide *;
      var some := SavedIsLearned(w);
      FitsAll(w, some);
    }

    lemma FitsAll(w: string, some: seq<string>)
      requires Valid() && LearnedFrom(w, some)
      ensures Fits(fed, w)
    {
      hide Valid, LearnedFrom, TemplateOf, Words;
      LearnedFits(w, some);
      FedWidths();
      TemplateOfMore(some, fed, w, config.threshold);
    }

    lemma SplitNodeCovers(n: TemplNode, part: seq<TemplNode>)
      requires NodeOk(n, n.history) && SplitDone(n, part) && n.templWasSplit
      ensures AllMatched(TemplsOf(part), n.history)
      ensures forall w :: w in TemplsOf(part) ==> TemplateOf(n.history, w, config.threshold)
    {
      hide *;
      SplitDoneSays(n, part);
      n.SplitCovers(part);
      TemplsAreThose(part);
      MatchedAt(n.history, TemplsOf(part));
      forall w | w in TemplsOf(part) ensures TemplateOf(n.history, w, config.threshold) {
        var k :| 0 <= k < |part| && w == part[k].templ;
        SplitFitsHere(n, w);
      }
    }

    lemma SplitDoneSays(n: TemplNode, part: seq<TemplNode>)
      requires NodeOk(n, n.history) && SplitDone(n, part) && n.templWasSplit
      ensures n.Valid() && RestoredPositions(n.templ, n.exceeded, n.paramTable) != {} && n.SplitsInto(part)
    {
      hide Knows, RestoredPositions, TemplNode.SplitsInto;
    }

    lemma TemplsAreThose(part: seq<TemplNode>)
      ensures |TemplsOf(part)| == |part| && forall k :: 0 <= k < |part| ==> TemplsOf(part)[k] == part[k].templ
      ensures forall w :: w in TemplsOf(part) ==> exists k :: 0 <= k < |part| && w == part[k].templ
    {
      hide TemplsOf;
      assert HaveTempls(part, TemplsOf(part));
    }

    lemma SplitFitsHere(n: TemplNode, s: string)
      requires NodeOk(n, n.history) && SplitFits(n.templ, n.history, s)
      ensures TemplateOf(n.history, s, config.threshold)
    {
      hide Words, Matches, Knows, MostlyLiteral;
      forall l | l in n.history ensures |Words(l)| == |Words(s)| {
        n.HistoryWidths(l);
      }
    }

    /** After a split, what is written covers all lines, and fits them. */
    lemma SavedCovers()
      requires Valid() && JustSplit()
      ensures Covered(Saved(), fed)
      ensures forall w :: w in Saved() ==> Fits(fed, w)
    {
      hide *;
      forall l | l in fed ensures exists w :: w in Saved() && Matches(Words(w), Words(l)) {
        FedIsKept(l);
        var w := LineIsWritten(l);
      }
      forall w | w in Saved()
        ensures Fits(fed, w) && exists l :: l in fed && Matches(Words(w), Words(l))
      {
        SavedFits(w);
        var l := FittingLine(fed, w);
      }
      CoveredIs(Saved(), fed);
    }

    lemma FedWidths()
      requires Valid()
      ensures forall l :: l in fed ==> |Words(l)| == width
    {
      hide Valid;
      forall l | l in fed ensures |Words(l)| == width {
        WidthFed(l);
      }
    }

    lemma WidthFed(l: string)
      requires Valid() && l in fed
      ensures |Words(l)| == width
    {
      hide Words, Total, MostlyLiteral, SplitNodesOk;
      InTotal(histories, l);
      assert l in multiset(fed);
      var i :| 0 <= i < |histories| && l in histories[i];
      assert NodeOk(nodes[i], histories[i]);
      nodes[i].HistoryWidths(l);
    }

    lemma FittingLine(lines: seq<string>, w: string) returns (l: string)
      requires Fits(lines, w)
      ensures l in lines && Matches(Words(w), Words(l))
      ensures |Words(w)| == width && KeepsAgreed(lines, w) && LiteralEnough(lines, w, config.threshold)
    {
      hide TemplateOf, Words;
      l := MatchedLine(lines, w, config.threshold);
    }
  }

  ghost function Unsplit(nodes: seq<TemplNode>): seq<string>
    reads nodes
  {
    if nodes == [] then []
    else
      var last := nodes[|nodes| - 1];
      Unsplit(nodes[..|nodes| - 1]) + if last.templWasSplit then [] else [last.templ]
  }

  lemma NothingSaved()
    ensures Unsplit([]) == [] && Joined([]) == []
  {
  }

  lemma UnsplitMore(nodes: seq<TemplNode>, k: nat)
    requires k < |nodes|
    ensures Unsplit(nodes[..k + 1]) == Unsplit(nodes[..k]) + if nodes[k].templWasSplit then [] else [nodes[k].templ]
  {
    assert nodes[..k + 1][..k] == nodes[..k];
  }

  lemma JoinedAt(splits: seq<Split>, k: nat)
    requires k < |splits|
    ensures Joined(splits[..k + 1]) == Joined(splits[..k]) + splits[k].templs
  {
    assert splits[..k + 1][..k] == splits[..k];
  }

  lemma {:induction false} UnsplitCount(nodes: seq<TemplNode>)
    ensures |Unsplit(nodes)| == |set k | 0 <= k < |nodes| && !nodes[k].templWasSplit|
  {
    if nodes != [] {
      var last := |nodes| - 1;
      UnsplitCount(nodes[..last]);
      var before := set k | 0 <= k < last && !nodes[..last][k].templWasSplit;
      assert (set k | 0 <= k < |nodes| && !nodes[k].templWasSplit)
          == before + if nodes[last].templWasSplit then {} else {last};
    }
  }

  lemma {:induction false} UnsplitElements(nodes: seq<TemplNode>)
    ensures forall w ::
      w in Unsplit(nodes) <==> exists i :: 0 <= i < |nodes| && !nodes[i].templWasSplit && nodes[i].templ == w
  {
    if nodes != [] {
      UnsplitElements(nodes[..|nodes| - 1]);
    }
  }

  ghost function TemplsOf(nodes: seq<TemplNode>): (templs: seq<string>)
    reads nodes
    ensures HaveTempls(nodes, templs)
  {
    if nodes == [] then [] else TemplsOf(nodes[..|nodes| - 1]) + [nodes[|nodes| - 1].templ]
  }

  ghost function WereSplit(nodes: seq<TemplNode>): (were: seq<bool>)
    reads nodes
    ensures |were| == |nodes| && forall i :: 0 <= i < |nodes| ==> were[i] == nodes[i].templWasSplit
  {
    if nodes == [] then [] else WereSplit(nodes[..|nodes| - 1]) + [nodes[|nodes| - 1].templWasSplit]
  }

  ghost predicate HaveTempls(nodes: seq<TemplNode>, templs: seq<string>)
    reads nodes
  {
    |nodes| == |templs| && forall i :: 0 <= i < |nodes| ==> nodes[i].templ == templs[i]
  }

  lemma HaveTemplsMore(nodes: seq<TemplNode>, templs: seq<string>, n: TemplNode)
    requires HaveTempls(nodes, templs)
    ensures HaveTempls(nodes + [n], templs + [n.templ])
  {
  }

  ghost predicate NoneIn(part: seq<TemplNode>, nodes: seq<TemplNode>) {
    forall n :: n in part ==> n !in nodes
  }

  ghost predicate PartIn(part: seq<TemplNode>, objects: set<object>) {
    forall n :: n in part ==> n in objects
  }

  ghost function Flat(parts: seq<seq<TemplNode>>): seq<TemplNode> {
    if parts == [] then [] else Flat(parts[..|parts| - 1]) + parts[|parts| - 1]
  }

  lemma {:induction false} FlatHasTempls(parts: seq<seq<TemplNode>>, splits: seq<Split>)
    requires |parts| == |splits| && forall k :: 0 <= k < |parts| ==> HaveTempls(parts[k], splits[k].templs)
    ensures HaveTempls(Flat(parts), Joined(splits))
  {
    if parts != [] {
      FlatHasTempls(parts[..|parts| - 1], splits[..|parts| - 1]);
    }
  }

  lemma FlatWithin(parts: seq<seq<TemplNode>>, objects: set<object>)
    requires PartIn(Flat(parts), objects)
    ensures forall k :: 0 <= k < |parts| ==> PartIn(parts[k], objects)
  {
    FlatElements(parts);
  }

  lemma FlatNothing()
    ensures Flat([]) == []
  {
  }

  lemma FlatMore(parts: seq<seq<TemplNode>>, part: seq<TemplNode>)
    ensures Flat(parts + [part]) == Flat(parts) + part
  {
    assert (parts + [part])[..|parts|] == parts;
  }

  lemma {:induction false} FlatElements(parts: seq<seq<TemplNode>>)
    ensures forall n :: n in Flat(parts) <==> exists k :: 0 <= k < |parts| && n in parts[k]
  {
    if parts != [] {
      FlatElements(parts[..|parts| - 1]);
    }
  }
}

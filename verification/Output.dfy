/**
 What is written for one template after a split, in terms of the lines it was learned
 from: the template or, if wildcards are put back, one template for each combination of
 words that these lines have in their place (`split_templ`,
 flt/templating/online_templater.hpp).
*/
module Outputs {
  import opened WordIterators
  import opened ParamTables
  import opened TableSequences
  import opened Splitting
  import opened Corrections
  import opened TemplStrings
  import opened TemplSplits
  import opened Similarities
  import opened TemplNodes

  /** Lines of one width, of which the first one does not have the wildcard as a word. */
  ghost predicate Founded(lines: seq<string>) {
    && lines != [] && WILDCARD !in Words(lines[0])
    && forall l :: l in lines ==> |Words(l)| == |Words(lines[0])|
  }

  /** The positions that the parameter table has given up after these lines. */
  ghost function GivenUp(lines: seq<string>): set<nat> {
    if exists templ, exceeded, table :: Reached(Rows(lines), templ, exceeded, table)
    then (var templ, exceeded, table :| Reached(Rows(lines), templ, exceeded, table); exceeded) else {}
  }

  /** The wildcards the table keeps track of. */
  ghost function Tracked(lines: seq<string>): set<nat>
    requires lines != []
  {
    Wild(Words(TemplOf(lines))) - GivenUp(lines)
  }

  ghost function PutBackIn(lines: seq<string>): set<nat>
    requires lines != []
  {
    set p | p in Tracked(lines) && PutBack(Rows(lines), Tracked(lines), |Words(TemplOf(lines))|, p)
  }

  /** The template with the words of one line put back. */
  ghost function Corrected(lines: seq<string>, l: string): string
    requires lines != []
  {
    var templ := TemplOf(lines);
    if |Words(l)| == |Words(templ)|
    then Render(Retoken(Restore(Words(templ), Words(l), PutBackIn(lines)), ParseLine(templ))) else templ
  }

  ghost function Output(lines: seq<string>): set<string>
    requires lines != []
  {
    if PutBackIn(lines) == {} then {TemplOf(lines)} else set l | l in lines :: Corrected(lines, l)
  }

  ghost function OutputBag(lines: seq<string>): multiset<string> {
    if lines == [] then multiset{} else multiset(Output(lines))
  }

  /** What is written for several templates. */
  ghost function OutputOfAll(histories: seq<seq<string>>): multiset<string> {
    if histories == [] then multiset{}
    else OutputOfAll(histories[..|histories| - 1]) + OutputBag(histories[|histories| - 1])
  }

  // ------------------------------------------------------- templates know their lines

  lemma GivenUpIs(lines: seq<string>, templ: Row, exceeded: set<nat>, table: Table)
    requires lines != [] && Reached(Rows(lines), templ, exceeded, table)
    ensures GivenUp(lines) == exceeded
  {
    hide Reached, Words;
    var t, x, d :| Reached(Rows(lines), t, x, d) && x == GivenUp(lines);
    ReachedUnique(Rows(lines), templ, exceeded, table, t, x, d);
  }

  lemma TrackedIs(lines: seq<string>, exceeded: set<nat>)
    requires lines != [] && GivenUp(lines) == exceeded
    ensures Tracked(lines) == Wild(Words(TemplOf(lines))) - exceeded
  {
  }

  lemma PutBackInIs(lines: seq<string>, p: nat)
    requires lines != []
    ensures p in PutBackIn(lines) <==> PutBack(Rows(lines), Tracked(lines), |Words(TemplOf(lines))|, p)
  {
    hide Tracked, SeesWord, Crowd, Paired, Same, Words, TemplOf;
  }

  /** The positions the source restores are those put back according to the lines. */
  lemma RestoredIsPutBackIn(store: bool, templ: string, lines: seq<string>, exceeded: set<nat>, table: Table,
      params: Params)
    requires Knows(store, templ, lines, exceeded, table, params)
    ensures lines != [] && templ == TemplOf(lines) && GivenUp(lines) == exceeded
    ensures RestoredPositions(templ, exceeded, table) == PutBackIn(lines)
  {
    hide *;
    KnowsTable(store, templ, lines, exceeded, table, params);
    RestoredIsOfLines(store, templ, lines, exceeded, table, params);
    GivenUpIs(lines, Words(templ), exceeded, table);
    TrackedIs(lines, exceeded);
    forall p ensures p in RestoredPositions(templ, exceeded, table) <==> p in PutBackIn(lines) {
      PutBackInIs(lines, p);
    }
  }

  /** The strings the source makes of a table are those the lines make. */
  lemma SplitIsOutput(store: bool, templ: string, lines: seq<string>, exceeded: set<nat>, table: Table, params: Params)
    requires Knows(store, templ, lines, exceeded, table, params) && RestoredPositions(templ, exceeded, table) != {}
    ensures lines != [] && Covers(table, RestoredPositions(templ, exceeded, table))
    ensures SplitStrings(templ, table, RestoredPositions(templ, exceeded, table)) == Output(lines)
  {
    hide *;
    KnowsTable(store, templ, lines, exceeded, table, params);
    RestoredIsPutBackIn(store, templ, lines, exceeded, table, params);
    KnowsUsable(store, templ, lines, exceeded, table, params);
    var restored, at := RestoredPositions(templ, exceeded, table), Wild(Words(templ)) - exceeded;
    UsableSays(templ, table, exceeded, restored);
    var left, right := SplitStrings(templ, table, restored), Output(lines);
    forall s | s in left ensures s in right {
      var l := LineOfSplit(lines, templ, at, table, restored, s);
      SplitOfLine(lines, templ, at, restored, l);
      CorrectedIsOutput(lines, l, s);
    }
    forall s | s in right ensures s in left {
      var l := LineOfOutput(lines, s);
      EntryOfLine(lines, at, l);
      SplitOfLine(lines, templ, at, restored, l);
      EntryIsSplit(templ, table, restored, Project(Words(l), at));
    }
  }

  lemma UsableSays(templ: string, table: Table, exceeded: set<nat>, restored: set<nat>)
    requires Usable(templ, table, exceeded, restored)
    ensures Covers(table, restored)
  {
  }

  lemma LineOfSplit(lines: seq<string>, templ: string, at: set<nat>, table: Table, restored: set<nat>, s: string)
    returns (l: string)
    requires Within(Rows(lines), at) && table == Projections(Rows(lines), at) && Covers(table, restored)
    requires restored <= at && s in SplitStrings(templ, table, restored)
    ensures l in lines && (forall p :: p in at ==> p < |Words(l)|) && Words(l) in Rows(lines)
    ensures s == SplitString(templ, Project(Words(l), at), restored)
  {
    hide Words, SplitString, Project;
    var e :| e in table && s == SplitString(templ, e, restored);
    var r :| r in Rows(lines) && e == Project(r, at);
    l := LineOfRow(lines, r);
  }

  lemma CorrectedIsOutput(lines: seq<string>, l: string, s: string)
    requires lines != [] && PutBackIn(lines) != {} && l in lines && s == Corrected(lines, l)
    ensures s in Output(lines)
  {
    hide Corrected, PutBackIn;
  }

  lemma LineOfOutput(lines: seq<string>, s: string) returns (l: string)
    requires lines != [] && PutBackIn(lines) != {} && s in Output(lines)
    ensures l in lines && s == Corrected(lines, l)
  {
    hide Corrected, PutBackIn;
    l :| l in lines && s == Corrected(lines, l);
  }

  lemma EntryOfLine(lines: seq<string>, at: set<nat>, l: string)
    requires Within(Rows(lines), at) && l in lines
    ensures Words(l) in Rows(lines) && (forall p :: p in at ==> p < |Words(l)|)
    ensures Project(Words(l), at) in Projections(Rows(lines), at) && Project(Words(l), at).Keys == at
  {
    hide Words;
    var i :| 0 <= i < |lines| && l == lines[i];
    assert Rows(lines)[i] == Words(l);
  }

  lemma EntryIsSplit(templ: string, table: Table, restored: set<nat>, e: Entry)
    requires Covers(table, restored) && e in table && restored <= e.Keys
    ensures SplitString(templ, e, restored) in SplitStrings(templ, table, restored)
  {
    hide SplitString;
  }

  lemma SplitOfLine(lines: seq<string>, templ: string, at: set<nat>, restored: set<nat>, l: string)
    requires lines != [] && templ == TemplOf(lines) && restored == PutBackIn(lines) && restored <= at
    requires |Words(l)| == |Words(templ)| && forall p :: p in at ==> p < |Words(templ)|
    ensures SplitString(templ, Project(Words(l), at), restored) == Corrected(lines, l)
  {
    hide Words, TemplOf, PutBackIn;
    assert Specialise(Words(templ), Project(Words(l), at), restored) == Restore(Words(templ), Words(l), restored);
  }

  // ------------------------------------------------------------ what the output is like

  /** Founded lines lead somewhere, and the template has the words that leads to. */
  lemma {:induction false} FoundedReaches(lines: seq<string>) returns (exceeded: set<nat>, table: Table)
    requires Founded(lines)
    ensures lines != [] && |Words(TemplOf(lines))| == |Words(lines[0])|
    ensures Reached(Rows(lines), Words(TemplOf(lines)), exceeded, table)
    decreases |lines|
  {
    hide *;
    FoundedSays(lines);
    if |lines| == 1 {
      OneLineReached(lines[0]);
      assert lines == [lines[0]];
      exceeded, table := {}, {};
    } else {
      var before, line := lines[..|lines| - 1], lines[|lines| - 1];
      assert lines == before + [line] && before[0] == lines[0];
      FoundedBefore(before, line);
      var x, d := FoundedReaches(before);
      exceeded, table := OneMoreLine(before, x, d, line);
    }
  }

  lemma FoundedSays(lines: seq<string>)
    requires Founded(lines)
    ensures lines != [] && Rows(lines) != [] && WILDCARD !in Rows(lines)[0]
    ensures forall l :: l in lines ==> |Words(l)| == |Words(lines[0])|
    ensures |lines| > 0 ==> |Words(lines[|lines| - 1])| == |Words(lines[0])|
  {
    hide Words;
    assert lines[|lines| - 1] in lines;
  }

  lemma FoundedBefore(lines: seq<string>, line: string)
    requires Founded(lines + [line]) && lines != []
    ensures Founded(lines)
  {
    hide Words;
    assert lines[0] == (lines + [line])[0] && forall l :: l in lines ==> l in lines + [line];
  }

  lemma OneLineReached(line: string)
    ensures TemplOf([line]) == line && Reached(Rows([line]), Words(line), {}, {})
  {
    hide Words;
    assert Rows([line]) == [Words(line)];
  }

  lemma OneMoreLine(lines: seq<string>, x: set<nat>, d: Table, line: string) returns (exceeded: set<nat>, table: Table)
    requires Founded(lines) && Reached(Rows(lines), Words(TemplOf(lines)), x, d)
    requires |Words(TemplOf(lines))| == |Words(line)|
    ensures |Words(TemplOf(lines + [line]))| == |Words(line)|
    ensures Reached(Rows(lines + [line]), Words(TemplOf(lines + [line])), exceeded, table)
  {
    hide *;
    FoundedSays(lines);
    var templ := TemplOf(lines);
    FoundedIsLearned(Rows(lines), Words(templ), x, d);
    var t;
    t, exceeded, table := SteppedExists(Words(templ), Rows(lines), x, d, Words(line));
    RowsAppend(lines, line);
    TemplOfMore(lines, line);
    MergedWords(templ, line);
    SteppedSays(Words(templ), x, d, Words(line), t, exceeded, table);
    ReachedMore(Rows(lines), Words(templ), x, d, Words(line), t, exceeded, table);
  }

  lemma SteppedSays(templ: Row, exceeded: set<nat>, table: Table, row: Row,
                    templ': Row, exceeded': set<nat>, table': Table)
    requires |row| == |templ| && Stepped(templ, exceeded, table, row, templ', exceeded', table')
    ensures templ' == Merge(templ, row)
  {
  }

  /** Lines that differ in at most 500 ways at the wildcards of their template: nothing is
      given up. */
  lemma FewGiveUpNothing(lines: seq<string>)
    requires Founded(lines) && Within(Rows(lines), Wild(Words(TemplOf(lines))))
    requires |Projections(Rows(lines), Wild(Words(TemplOf(lines))))| <= 500
    ensures GivenUp(lines) == {} && Tracked(lines) == Wild(Words(TemplOf(lines)))
  {
    hide Words, Reached, TemplOf, GivenUp, Projections;
    var x, d := FoundedReaches(lines);
    GivenUpIs(lines, Words(TemplOf(lines)), x, d);
    assert Rows(lines)[0] == Words(lines[0]);
    FewAreKept(Rows(lines), Words(TemplOf(lines)), x, d);
  }

  /** The words of what is written. */
  lemma CorrectedWords(lines: seq<string>, l: string)
    requires Founded(lines) && l in lines
    ensures |Words(l)| == |Words(TemplOf(lines))|
    ensures Words(Corrected(lines, l)) == Restore(Words(TemplOf(lines)), Words(l), PutBackIn(lines))
  {
    hide Words, Reached, TemplOf, PutBackIn, IsWord;
    var x, d := FoundedReaches(lines);
    var templ := TemplOf(lines);
    var ws := Restore(Words(templ), Words(l), PutBackIn(lines));
    WordsAreWords(templ);
    WordsAreWords(l);
    forall w | w in ws ensures IsWord(w, SpecialSeps) {
      var p :| 0 <= p < |ws| && ws[p] == w;
      assert w in Words(templ) || w in Words(l);
    }
    RetokenRoundTrip(ws, templ);
  }

  /** A string that has the words of a line where wildcards are put back, and those of the
      template elsewhere. */
  ghost predicate HasWordsOf(lines: seq<string>, l: string, w: string)
    requires lines != []
  {
    && |Words(l)| == |Words(w)| == |Words(TemplOf(lines))|
    && forall p :: 0 <= p < |Words(w)| ==>
         Words(w)[p] == if p in PutBackIn(lines) then Words(l)[p] else Words(TemplOf(lines))[p]
  }

  lemma RestoredWords(templ: Row, r: Row, restored: set<nat>, p: nat)
    requires |r| == |templ| && p < |templ|
    ensures Restore(templ, r, restored)[p] == if p in restored then r[p] else templ[p]
  {
  }

  lemma CorrectedHasWords(lines: seq<string>, l: string)
    requires Founded(lines) && l in lines
    ensures HasWordsOf(lines, l, Corrected(lines, l)) && |Words(l)| == |Words(lines[0])|
  {
    hide Words, TemplOf, PutBackIn, Corrected, Restore;
    CorrectedWords(lines, l);
    var templ := Words(TemplOf(lines));
    forall p | 0 <= p < |templ|
      ensures Restore(templ, Words(l), PutBackIn(lines))[p] == if p in PutBackIn(lines) then Words(l)[p] else templ[p]
    {
      RestoredWords(templ, Words(l), PutBackIn(lines), p);
    }
  }

  lemma PlainIsPutBack(lines: seq<string>, l: string, w: string)
    requires lines != [] && HasWordsOf(lines, l, w) && WILDCARD !in Words(l)
    ensures PutBackIn(lines) !! Wild(Words(w))
  {
    hide Words, TemplOf, PutBackIn;
    assert forall p :: 0 <= p < |Words(l)| ==> Words(l)[p] in Words(l);
  }

  /** What is written: the template if no wildcard is put back, and otherwise the template
      with the words of a line in their place. No wildcard is left there unless a line has
      it as a word. */
  lemma OutputIsCorrected(lines: seq<string>, w: string)
    requires Founded(lines) && w in Output(lines)
    ensures PutBackIn(lines) == {} ==> w == TemplOf(lines)
    ensures PutBackIn(lines) != {} ==> exists l :: l in lines && HasWordsOf(lines, l, w)
    ensures (forall l :: l in lines ==> WILDCARD !in Words(l)) ==> PutBackIn(lines) !! Wild(Words(w))
  {
    hide *;
    FoundedSays(lines);
    if PutBackIn(lines) == {} {
      OnlyTempl(lines, w);
    } else {
      var l := LineOfOutput(lines, w);
      CorrectedHasWords(lines, l);
      if WILDCARD !in Words(l) {
        PlainIsPutBack(lines, l, w);
      }
    }
  }

  lemma OnlyTempl(lines: seq<string>, w: string)
    requires lines != [] && PutBackIn(lines) == {} && w in Output(lines)
    ensures w == TemplOf(lines)
  {
    hide PutBackIn, TemplOf;
  }

  lemma OutputWidth(lines: seq<string>, w: string)
    requires Founded(lines) && w in Output(lines)
    ensures |Words(w)| == |Words(TemplOf(lines))| == |Words(lines[0])|
  {
    hide *;
    var x, d := FoundedReaches(lines);
    OutputIsCorrected(lines, w);
    if PutBackIn(lines) != {} {
      var l :| l in lines && HasWordsOf(lines, l, w);
      HasWidth(lines, l, w);
    }
  }

  lemma HasWidth(lines: seq<string>, l: string, w: string)
    requires lines != [] && HasWordsOf(lines, l, w)
    ensures |Words(w)| == |Words(TemplOf(lines))|
  {
    hide Words, TemplOf, PutBackIn;
  }

  /** The lines differ in at most 500 ways at the wildcards of their template, and there is
      no wrap-around. */
  ghost predicate FewProjections(lines: seq<string>)
    requires lines != []
  {
    var rows, wild := Rows(lines), Wild(Words(TemplOf(lines)));
    Within(rows, wild) && |Projections(rows, wild)| <= 500 && |Words(TemplOf(lines))| < 0x1_0000_0002
  }

  /** The wildcards that `w` has lost, of those of the template of these lines. A wildcard
      that has seen words goes exactly if it tells the lines apart as another one that has
      seen words, is always equal to none that has seen as many different words, and these
      are at most the number of words less two. One that has seen parameters only goes
      exactly if it tells the lines apart as one that has seen words and goes. This is so
      as long as the lines differ in few ways at the wildcards. */
  ghost predicate LosesRightWildcards(lines: seq<string>, w: string)
    requires lines != []
  {
    var rows, templ := Rows(lines), Words(TemplOf(lines));
    var wild := Wild(templ);
    && |Words(w)| == |templ| && Wild(Words(w)) <= wild
    && (FewProjections(lines) ==>
          forall p :: p in wild ==> (p !in Wild(Words(w)) <==>
            if SeesWord(rows, p)
            then GoesAsWord(rows, wild, |templ|, p)
            else exists q :: q in wild && SeesWord(rows, q) && q !in Wild(Words(w)) && Paired(rows, p, q)))
  }

  /** So it is with all that is written for lines that do not have the wildcard as a word. */
  lemma OutputLosesRightWildcards(lines: seq<string>, w: string)
    requires Founded(lines) && w in Output(lines)
    requires forall l :: l in lines ==> WILDCARD !in Words(l)
    ensures LosesRightWildcards(lines, w)
  {
    hide *;
    FoundedSays(lines);
    OutputWidth(lines, w);
    OutputWild(lines, w);
    if FewProjections(lines) {
      OutputIsRight(lines);
    }
    LosesIs(lines, w);
  }

  lemma OutputIsRight(lines: seq<string>)
    requires Founded(lines) && lines != [] && FewProjections(lines)
    ensures RightPutBack(Rows(lines), Wild(Words(TemplOf(lines))), |Words(TemplOf(lines))|, PutBackIn(lines))
  {
    hide *;
    var rows, templ := Rows(lines), Words(TemplOf(lines));
    FewSays(lines);
    WildWithin(templ);
    FewGiveUpNothing(lines);
    forall p ensures p in PutBackIn(lines) <==> PutBack(rows, Wild(templ), |templ|, p) {
      PutBackInIs(lines, p);
    }
    PutBackIsRight(rows, Wild(templ), |templ|, PutBackIn(lines));
  }

  lemma FewSays(lines: seq<string>)
    requires lines != [] && FewProjections(lines)
    ensures var rows, wild := Rows(lines), Wild(Words(TemplOf(lines)));
      Within(rows, wild) && |Projections(rows, wild)| <= 500 && |Words(TemplOf(lines))| < 0x1_0000_0002
  {
  }

  lemma LosesIs(lines: seq<string>, w: string)
    requires lines != [] && |Words(w)| == |Words(TemplOf(lines))|
    requires Wild(Words(w)) == Wild(Words(TemplOf(lines))) - PutBackIn(lines)
    requires FewProjections(lines) ==>
      RightPutBack(Rows(lines), Wild(Words(TemplOf(lines))), |Words(TemplOf(lines))|, PutBackIn(lines))
    ensures LosesRightWildcards(lines, w)
  {
    hide Words, TemplOf, PutBackIn, Rows, Projections, SeesWord, GoesAsWord, Paired;
  }

  /** Exactly the positions put back have lost their wildcard. */
  lemma OutputWild(lines: seq<string>, w: string)
    requires Founded(lines) && w in Output(lines)
    requires forall l :: l in lines ==> WILDCARD !in Words(l)
    ensures lines != [] && Wild(Words(w)) == Wild(Words(TemplOf(lines))) - PutBackIn(lines)
  {
    hide *;
    FoundedSays(lines);
    OutputIsCorrected(lines, w);
    if PutBackIn(lines) != {} {
      var l :| l in lines && HasWordsOf(lines, l, w);
      HasWild(lines, l, w);
    } else {
      assert Wild(Words(TemplOf(lines))) - {} == Wild(Words(TemplOf(lines)));
    }
  }

  lemma HasWild(lines: seq<string>, l: string, w: string)
    requires lines != [] && HasWordsOf(lines, l, w) && WILDCARD !in Words(l)
    ensures Wild(Words(w)) == Wild(Words(TemplOf(lines))) - PutBackIn(lines)
  {
    hide Words, TemplOf, PutBackIn;
    assert forall p :: 0 <= p < |Words(l)| ==> Words(l)[p] in Words(l);
  }

  // ------------------------------------------------------------------ of several templates

  lemma {:induction false} InOutputOfAll(histories: seq<seq<string>>, w: string)
    ensures w in OutputOfAll(histories) <==> exists h :: h in histories && h != [] && w in Output(h)
  {
    hide Output;
    if histories != [] {
      InOutputOfAll(histories[..|histories| - 1], w);
      assert histories == histories[..|histories| - 1] + [histories[|histories| - 1]];
    }
  }
}

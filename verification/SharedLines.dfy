/**
 A line can be matched by a template that is written for other lines: four lines of one
 group, of which two lead to a template with wildcards in a bijection. What is written for
 these two has lost them, but what is written for the others matches one of them too, and
 has a wildcard there (flt/templating/online_templater.hpp).
*/
module SharedLines {
  import opened WordIterators
  import opened ParamTables
  import opened Splitting
  import opened Corrections
  import opened TemplStrings
  import opened Similarities
  import opened TemplSequences
  import opened Outputs
  import opened TemplHistories
  import opened Routing
  import opened LineGroups

  /** One-letter words with blanks between them. */
  function Spaced(cs: string): (toks: seq<Token>)
    ensures |toks| == |cs|
    ensures forall i :: 0 <= i < |toks| ==> toks[i].seps != "="
  {
    if cs == "" then []
    else
      var seps := if |cs| == 1 then "" else " ";
      assert seps != "=" by { assert seps == "" || seps[0] == ' '; }
      [Token(cs[..1], seps)] + Spaced(cs[1..])
  }

  const SHAPE := Parsed("", Spaced("/abxy/"))

  const R1: Row := ["/", "a", "b", "x", "y", "/"]
  const R2: Row := ["+", "c", "d", "x", "y", "+"]
  const R3: Row := ["-", "a", "e", "e", "e", "-"]
  const R4: Row := ["#", "a", "f", "f", "f", "#"]

  const FIRST: Row := [WILDCARD, WILDCARD, WILDCARD, "x", "y", WILDCARD]
  const SECOND: Row := [WILDCARD, "a", WILDCARD, WILDCARD, WILDCARD, WILDCARD]

  /** The words with single blanks between them. */
  function Line(ws: Row): string
    requires |ws| == 6
  {
    Render(Retoken(ws, SHAPE))
  }

  ghost predicate OfWords(ws: Row) {
    |ws| == 6 && forall w :: w in ws ==> IsWord(w, SpecialSeps)
  }

  predicate IsLetter(c: char) {
    'a' <= c <= 'z' || c == '/' || c == '+' || c == '-' || c == '#'
  }

  lemma LetterIsWord(w: string)
    requires |w| == 1 && IsLetter(w[0])
    ensures IsWord(w, SpecialSeps)
  {
  }

  lemma {:induction false} SpacedIsWellFormed(cs: string)
    requires forall c :: c in cs ==> IsLetter(c)
    ensures WellFormedTokens(Spaced(cs), SpecialSeps)
  {
    if cs != "" {
      SpacedIsWellFormed(cs[1..]);
      LetterIsWord(cs[..1]);
      hide IsLetter;
      assert Spaced(cs)[1..] == Spaced(cs[1..]);
    }
  }

  lemma ShapeIsWellFormed()
    ensures WellFormed(SHAPE, SpecialSeps) && |SHAPE.toks| == 6
  {
    SpacedIsWellFormed("/abxy/");
  }

  lemma LineIs(ws: Row)
    requires OfWords(ws)
    ensures |ws| == 6 == |SHAPE.toks|
    ensures ParseLine(Line(ws)) == Retoken(ws, SHAPE) && Words(Line(ws)) == ws
  {
    ShapeIsWellFormed();
    var p := Retoken(ws, SHAPE);
    hide IsWord;
    RetokenWellFormed(ws, SHAPE.toks, p.toks);
    ParseRender(p, SpecialSeps);
  }

  lemma LettersAreWords(ws: Row)
    requires |ws| == 6 && forall i :: 0 <= i < 6 ==> ws[i] == WILDCARD || (|ws[i]| == 1 && IsLetter(ws[i][0]))
    ensures OfWords(ws)
  {
    hide IsWord, IsLetter;
    WildcardIsWord();
    forall w | w in ws ensures IsWord(w, SpecialSeps) {
      if w != WILDCARD { LetterIsWord(w); }
    }
  }

  lemma AreWords()
    ensures OfWords(R1) && OfWords(R2) && OfWords(R3) && OfWords(R4) && OfWords(FIRST) && OfWords(SECOND)
  {
    hide OfWords;
    LettersAreWords(R1);
    LettersAreWords(R2);
    LettersAreWords(R3);
    LettersAreWords(R4);
    LettersAreWords(FIRST);
    LettersAreWords(SECOND);
  }

  lemma RetokenTwice(ws: Row, vs: Row, p: Parsed)
    requires |ws| == |vs| == |p.toks|
    ensures Retoken(ws, Retoken(vs, p)) == Retoken(ws, p)
  {
  }

  lemma MergedLine(ws: Row, vs: Row)
    requires OfWords(ws) && OfWords(vs)
    ensures |ws| == |vs| == 6 && |Words(Line(ws))| == |Words(Line(vs))| == 6
    ensures Render(Merged(Line(ws), Line(vs))) == Line(Merge(ws, vs))
  {
    hide OfWords, Words, ParseLine, Retoken, Render, Merge;
    LineIs(ws);
    LineIs(vs);
    RetokenTwice(Merge(ws, vs), vs, SHAPE);
  }

  // ------------------------------------------------------------------------ similarity

  lemma {:induction false} EqualWordsOf(p: Parsed, q: Parsed, n: nat)
    requires n <= |p.toks| == |q.toks|
    ensures (forall i :: 0 <= i < n ==> p.toks[i].word != q.toks[i].word) ==> EqualWords(p, q, n) == 0
    ensures (exists i :: 0 <= i < n && p.toks[i].word == q.toks[i].word != "&v") ==> EqualWords(p, q, n) > 0
  {
    if n > 0 {
      EqualWordsOf(p, q, n - 1);
    }
  }

  lemma ShapeOf(ws: Row, i: nat)
    requires |ws| == 6 == |SHAPE.toks| && i < 6
    ensures Retoken(ws, SHAPE).toks[i].word == ws[i] && Retoken(ws, SHAPE).toks[i].seps == SHAPE.toks[i].seps
    ensures SepsBefore(Retoken(ws, SHAPE), i) == SepsBefore(SHAPE, i) && SHAPE.toks[i].seps != "="
  {
    hide Spaced;
  }

  lemma ShapeNeverBlocks(ws: Row, vs: Row)
    requires |ws| == |vs| == 6 == |SHAPE.toks|
    ensures !BlockedBefore(Retoken(ws, SHAPE), Retoken(vs, SHAPE), 6)
  {
    hide IsPossibleParam, SepsBefore, EqualAt, Spaced;
    forall i | 0 <= i < 6 ensures !Blocks(Retoken(ws, SHAPE), Retoken(vs, SHAPE), i) {
      ShapeOf(ws, i);
      ShapeOf(vs, i);
    }
  }

  /** With a threshold of zero, lines of one shape are similar if they share a word. */
  lemma SimilarityOfLines(ws: Row, vs: Row)
    requires OfWords(ws) && OfWords(vs)
    ensures |ws| == |vs| == 6
    ensures var s := SimilarityTo(Line(ws), Line(vs), 0.0);
      && s.Value?
      && ((forall i :: 0 <= i < 6 ==> ws[i] != vs[i]) ==> s.v == 0.0)
      && ((exists i :: 0 <= i < 6 && ws[i] == vs[i] != "&v") ==> s.v > 0.0)
  {
    hide OfWords, Words, ParseLine, EqualWords, Line, Retoken, BlockedBefore;
    LineIs(ws);
    LineIs(vs);
    var p, q := Retoken(ws, SHAPE), Retoken(vs, SHAPE);
    ShapeNeverBlocks(ws, vs);
    EqualWordsOf(p, q, 6);
    forall i | 0 <= i < 6 ensures p.toks[i].word == ws[i] && q.toks[i].word == vs[i] {
      ShapeOf(ws, i);
      ShapeOf(vs, i);
    }
    SixthsOf(EqualWords(p, q, 6));
  }

  lemma SixthsOf(n: nat)
    ensures n as real / 6.0 - 0.0 == 0.0 <==> n == 0
    ensures n as real / 6.0 - 0.0 > 0.0 <==> n > 0
  {
  }

  // ---------------------------------------------------------------------- the templates

  lemma NoTempls()
    ensures TemplsAfter([], 0.0) == [] && HistoriesAfter([], 0.0) == []
  {
  }

  lemma Shared(ws: Row, vs: Row, i: nat)
    requires OfWords(ws) && OfWords(vs) && i < 6 && |ws| == |vs| == 6 && ws[i] == vs[i] && |ws[i]| == 1
    ensures SimilarityTo(Line(ws), Line(vs), 0.0).Value? && SimilarityTo(Line(ws), Line(vs), 0.0).v > 0.0
  {
    hide OfWords, SimilarityTo;
    assert |"&v"| == 2;
    SimilarityOfLines(ws, vs);
  }

  lemma NothingShared(ws: Row, vs: Row)
    requires OfWords(ws) && OfWords(vs) && |ws| == |vs| == 6 && forall i :: 0 <= i < 6 ==> ws[i] != vs[i]
    ensures SimilarityTo(Line(ws), Line(vs), 0.0) == Value(0.0)
  {
    hide OfWords, SimilarityTo;
    SimilarityOfLines(ws, vs);
  }

  lemma MergedRows()
    ensures Merge(R1, R2) == FIRST && Merge(R3, R4) == SECOND
    ensures forall i :: 0 <= i < 6 ==> FIRST[i] != R3[i] && FIRST[i] != R4[i]
  {
    var a, b := Merge(R1, R2), Merge(R3, R4);
    assert a == [a[0], a[1], a[2], a[3], a[4], a[5]];
    assert b == [b[0], b[1], b[2], b[3], b[4], b[5]];
  }

  lemma FirstLine()
    ensures TemplsAfter([Line(R1)], 0.0) == [Line(R1)] && HistoriesAfter([Line(R1)], 0.0) == [[Line(R1)]]
  {
    hide Line, OfWords, SimilarityTo, TemplsAfter, HistoriesAfter, Merge, Merged, Render, Words;
    NoTempls();
    DissimilarFounds([], Line(R1), 0.0);
    assert [] + [Line(R1)] == [Line(R1)];
  }

  lemma FirstLines()
    ensures TemplsAfter([Line(R1), Line(R2)], 0.0) == [Line(FIRST)]
    ensures HistoriesAfter([Line(R1), Line(R2)], 0.0) == [[Line(R1), Line(R2)]]
  {
    hide Line, OfWords, SimilarityTo, TemplsAfter, HistoriesAfter, Merge, Merged, Render, Words;
    AreWords();
    FirstLine();
    MergedRows();
    Shared(R1, R2, 3);
    OldestOfClosestLearns([Line(R1)], Line(R2), 0.0, 0);
    MergedLine(R1, R2);
    assert [Line(R1)] + [Line(R2)] == [Line(R1), Line(R2)];
  }

  lemma ThreeLines()
    ensures TemplsAfter([Line(R1), Line(R2), Line(R3)], 0.0) == [Line(FIRST), Line(R3)]
    ensures HistoriesAfter([Line(R1), Line(R2), Line(R3)], 0.0) == [[Line(R1), Line(R2)], [Line(R3)]]
  {
    hide Line, OfWords, SimilarityTo, TemplsAfter, HistoriesAfter, Merge, Merged, Render, Words;
    AreWords();
    FirstLines();
    MergedRows();
    NothingShared(FIRST, R3);
    DissimilarFounds([Line(R1), Line(R2)], Line(R3), 0.0);
    assert [Line(R1), Line(R2)] + [Line(R3)] == [Line(R1), Line(R2), Line(R3)];
  }

  lemma AllLines()
    ensures HistoriesAfter([Line(R1), Line(R2), Line(R3), Line(R4)], 0.0)
         == [[Line(R1), Line(R2)], [Line(R3), Line(R4)]]
  {
    hide Line, OfWords, SimilarityTo, TemplsAfter, HistoriesAfter, Merge, Merged, Render, Words;
    AreWords();
    ThreeLines();
    MergedRows();
    NothingShared(FIRST, R4);
    Shared(R3, R4, 1);
    SecondLearns([Line(R1), Line(R2), Line(R3)], Line(FIRST), Line(R3), Line(R4));
    var histories := [[Line(R1), Line(R2)], [Line(R3)]];
    assert [Line(R3)] + [Line(R4)] == [Line(R3), Line(R4)];
    assert histories[1 := histories[1] + [Line(R4)]] == [[Line(R1), Line(R2)], [Line(R3), Line(R4)]];
    assert [Line(R1), Line(R2), Line(R3)] + [Line(R4)] == [Line(R1), Line(R2), Line(R3), Line(R4)];
  }

  lemma SecondLearns(lines: seq<string>, first: string, second: string, line: string)
    requires TemplsAfter(lines, 0.0) == [first, second]
    requires SimilarityTo(first, line, 0.0) == Value(0.0)
    requires SimilarityTo(second, line, 0.0).Value? && SimilarityTo(second, line, 0.0).v > 0.0
    ensures var histories := HistoriesAfter(lines, 0.0);
      && |histories| == 2
      && HistoriesAfter(lines + [line], 0.0) == histories[1 := histories[1] + [line]]
  {
    hide SimilarityTo, TemplsAfter, HistoriesAfter, Merged, Render, Words;
    OldestOfClosestLearns(lines, line, 0.0, 1);
  }

  // ------------------------------------------------------------------- what is written

  /** Two lines and the template they lead to. */
  lemma TwoLines(r: Row, x: Row)
    requires OfWords(r) && OfWords(x) && WILDCARD !in r && WILDCARD !in x
    ensures |r| == |x| == 6
    ensures var lines := [Line(r), Line(x)];
      && Rows(lines) == [r, x] && TemplOf(lines) == Line(Merge(r, x)) && Words(TemplOf(lines)) == Merge(r, x)
      && Founded(lines) && FewProjections(lines)
      && forall l :: l in lines ==> WILDCARD !in Words(l)
  {
    hide Words, Line, Render, Merged, Merge, TemplOf, OfWords, FewProjections;
    LineIs(r);
    LineIs(x);
    MergedLine(r, x);
    MergedWords(Line(r), Line(x));
    TemplOfTwo(Line(r), Line(x));
    FewOfTwo(Line(r), Line(x), r, x);
  }

  lemma TemplOfTwo(l: string, k: string)
    requires |Words(l)| == |Words(k)|
    ensures TemplOf([l, k]) == Render(Merged(l, k))
  {
    hide *;
    OneLineReached(l);
    TemplOfMore([l], k);
    assert [l] + [k] == [l, k];
  }

  lemma FewOfTwo(l: string, k: string, r: Row, x: Row)
    requires Words(l) == r && Words(k) == x && |r| == |x| == |Words(TemplOf([l, k]))| == 6
    ensures Rows([l, k]) == [r, x] && FewProjections([l, k])
  {
    hide Words, TemplOf, Projections;
    assert Rows([l, k]) == [r, x];
    FewRows(r, x, Wild(Words(TemplOf([l, k]))));
  }

  lemma FewRows(r: Row, x: Row, at: set<nat>)
    requires forall p :: p in at ==> p < |r| && p < |x|
    ensures Within([r, x], at) && |Projections([r, x], at)| <= 2
  {
    TwoProjections(r, x, at);
    var d, e := Project(r, at), Project(x, at);
    if d == e { assert {d, e} == {d}; }
  }

  lemma SeesAre(r: Row, x: Row, p: nat)
    requires p < |r| && p < |x|
    ensures SeesWord([r, x], p) <==> !IsPossibleParam(r[p]) || !IsPossibleParam(x[p])
    ensures SeenAt([r, x], p) == {r[p], x[p]}
  {
    hide IsPossibleParam;
    assert r in [r, x] && x in [r, x] && forall y :: y in [r, x] <==> y == r || y == x;
    assert WordOf(r, p) == r[p] && WordOf(x, p) == x[p];
  }

  lemma PairsAre(r: Row, x: Row, p: nat, q: nat)
    requires p < |r| && p < |x| && q < |r| && q < |x|
    ensures Same([r, x], p, q) <==> r[p] == r[q] && x[p] == x[q]
    ensures Paired([r, x], p, q) <==> (r[p] == x[p] <==> r[q] == x[q])
  {
    assert r in [r, x] && x in [r, x] && forall y :: y in [r, x] <==> y == r || y == x;
    assert WordOf(r, p) == r[p] && WordOf(x, p) == x[p] && WordOf(r, q) == r[q] && WordOf(x, q) == x[q];
  }

  lemma Params()
    ensures IsPossibleParam("/") && IsPossibleParam("+") && IsPossibleParam("-") && IsPossibleParam("#")
    ensures !IsPossibleParam("a") && !IsPossibleParam("b") && !IsPossibleParam("c") && !IsPossibleParam("d")
    ensures !IsPossibleParam("e") && !IsPossibleParam("f")
  {
    assert !IsPlainChar("/"[0]) && !IsPlainChar("+"[0]) && !IsPlainChar("-"[0]) && !IsPlainChar("#"[0]);
  }

  /** The first two lines have two words in a bijection. */
  lemma FirstIsCorrected()
    ensures 2 in PutBackIn([Line(R1), Line(R2)])
  {
    AreWords();
    MergedRows();
    hide OfWords;
    TwoLines(R1, R2);
    var lines, rows := [Line(R1), Line(R2)], [R1, R2];
    OutputIsRight(lines);
    WildOfFirst();
    FirstGoes();
    hide PutBackIn, GoesAsWord, SeesWord, Paired, Words, TemplOf, Line, Rows;
  }

  lemma WildOfFirst()
    ensures Wild(FIRST) == {0, 1, 2, 5} && Wild(SECOND) == {0, 2, 3, 4, 5}
  {
  }

  lemma FirstGoes()
    ensures SeesWord([R1, R2], 2) && GoesAsWord([R1, R2], {0, 1, 2, 5}, 6, 2)
  {
    Params();
    hide IsPossibleParam, SeesWord, SeenAt, Same, Paired;
    SeesAre(R1, R2, 0);
    SeesAre(R1, R2, 1);
    SeesAre(R1, R2, 2);
    SeesAre(R1, R2, 5);
    PairsAre(R1, R2, 2, 1);
    FewerElements(Crowd([R1, R2], {0, 1, 2, 5}, 2), {1, 2});
    assert |{1, 2}| == 2;
  }

  lemma SecondStays(p: nat)
    requires p in {0, 2, 3, 4, 5}
    ensures SeesWord([R3, R4], p) <==> p in {2, 3, 4}
    ensures p in {2, 3, 4} ==> !GoesAsWord([R3, R4], {0, 2, 3, 4, 5}, 6, p)
  {
    Params();
    hide IsPossibleParam, SeesWord, SeenAt, Same, Paired;
    SeesAre(R3, R4, p);
    if p in {2, 3, 4} {
      var q := if p == 2 then 3 else 2;
      SeesAre(R3, R4, q);
      PairsAre(R3, R4, p, q);
      assert q in Crowd([R3, R4], {0, 2, 3, 4, 5}, p);
    }
  }

  /** The other two do not: their words are always equal. */
  lemma SecondIsNot()
    ensures PutBackIn([Line(R3), Line(R4)]) == {}
  {
    AreWords();
    MergedRows();
    WildOfFirst();
    hide OfWords, PutBackIn, Words, TemplOf, Line, Rows, Merge, RightPutBack, FewProjections, Founded, Wild;
    TwoLines(R3, R4);
    OutputIsRight([Line(R3), Line(R4)]);
    NothingGoes(PutBackIn([Line(R3), Line(R4)]));
  }

  lemma NothingGoes(back: set<nat>)
    requires RightPutBack([R3, R4], {0, 2, 3, 4, 5}, 6, back)
    ensures back == {}
  {
    hide GoesAsWord, SeesWord, Paired;
    forall p | p in back ensures p in {0, 5} && !SeesWord([R3, R4], p) {
      SecondStays(p);
    }
  }

  lemma InOneGroup()
    ensures GroupOf(Line(R1)) == GroupOf(Line(R2)) == GroupOf(Line(R3)) == GroupOf(Line(R4))
  {
    AreWords();
    Params();
    hide OfWords, Words, Line, IsPossibleParam;
    LineIs(R1);
    LineIs(R2);
    LineIs(R3);
    LineIs(R4);
  }

  lemma FirstHasNone(w: string)
    requires w in Output([Line(R1), Line(R2)])
    ensures 2 !in Wild(Words(w))
  {
    AreWords();
    hide OfWords, PutBackIn, Words, TemplOf, Line, Rows, Merge, FewProjections, Founded, Wild, Output;
    TwoLines(R1, R2);
    FirstIsCorrected();
    OutputWild([Line(R1), Line(R2)], w);
  }

  lemma SecondHasOne()
    ensures Line(SECOND) in Output([Line(R3), Line(R4)])
    ensures 2 in Wild(Words(Line(SECOND))) && Matches(Words(Line(SECOND)), Words(Line(R1)))
  {
    AreWords();
    MergedRows();
    SecondMatches();
    hide OfWords, PutBackIn, Words, TemplOf, Line, Rows, Merge, FewProjections, Founded, Output, Wild, Matches;
    TwoLines(R3, R4);
    SecondIsNot();
    OutputIs([Line(R3), Line(R4)]);
    LineIs(SECOND);
    LineIs(R1);
  }

  lemma SecondMatches()
    ensures 2 in Wild(SECOND) && Matches(SECOND, R1)
  {
  }

  /** A line of the same group, without wildcards as words. */
  ghost predicate PlainBeside(l: string, first: string) {
    GroupOf(l) == GroupOf(first) && WILDCARD !in Words(l)
  }

  lemma IsPlain(ws: Row)
    requires OfWords(ws) && WILDCARD !in ws && GroupOf(Line(ws)) == GroupOf(Line(R1))
    ensures PlainBeside(Line(ws), Line(R1))
  {
    hide OfWords, Words, Line, GroupOf;
    LineIs(ws);
  }

  /** Four lines, of which what is written for the last two matches the first one, with a
      wildcard in a place where what is written for the first two has none. */
  ghost predicate OtherKeeps(lines: seq<string>, other: string, p: nat) {
    && |lines| == 4 && HistoriesAfter(lines, 0.0) == [[lines[0], lines[1]], [lines[2], lines[3]]]
    && (forall w :: w in Output([lines[0], lines[1]]) ==> p !in Wild(Words(w)))
    && other in Output([lines[2], lines[3]]) && p in Wild(Words(other)) && Matches(Words(other), Words(lines[0]))
  }

  lemma Together(l1: string, l2: string, l3: string, l4: string, other: string, p: nat)
    requires HistoriesAfter([l1, l2, l3, l4], 0.0) == [[l1, l2], [l3, l4]]
    requires forall w :: w in Output([l1, l2]) ==> p !in Wild(Words(w))
    requires other in Output([l3, l4]) && p in Wild(Words(other)) && Matches(Words(other), Words(l1))
    ensures OtherKeeps([l1, l2, l3, l4], other, p)
  {
    hide HistoriesAfter, Output, Wild, Words, Matches;
  }

  lemma PlainTogether(lines: seq<string>)
    requires |lines| == 4 && forall i :: 0 <= i < 4 ==> PlainBeside(lines[i], lines[0])
    ensures forall l :: l in lines ==> PlainBeside(l, lines[0])
  {
    hide PlainBeside;
  }

  lemma ArePlain()
    ensures PlainBeside(Line(R1), Line(R1)) && PlainBeside(Line(R2), Line(R1))
    ensures PlainBeside(Line(R3), Line(R1)) && PlainBeside(Line(R4), Line(R1))
  {
    hide OfWords, Words, Line, GroupOf, PlainBeside;
    AreWords();
    InOneGroup();
    IsPlain(R1);
    IsPlain(R2);
    IsPlain(R3);
    IsPlain(R4);
  }

  lemma KeepsHere()
    ensures OtherKeeps([Line(R1), Line(R2), Line(R3), Line(R4)], Line(SECOND), 2)
  {
    hide Words, Line, Wild, Output, HistoriesAfter, Matches, OtherKeeps;
    AllLines();
    SecondHasOne();
    forall w | w in Output([Line(R1), Line(R2)]) ensures 2 !in Wild(Words(w)) {
      FirstHasNone(w);
    }
    Together(Line(R1), Line(R2), Line(R3), Line(R4), Line(SECOND), 2);
  }

  /** There are such lines of one group, without wildcards as words. */
  lemma OtherKeepsWildcard() returns (lines: seq<string>, other: string)
    ensures OtherKeeps(lines, other, 2) && forall l :: l in lines ==> PlainBeside(l, lines[0])
  {
    hide Line, OtherKeeps, PlainBeside;
    KeepsHere();
    ArePlain();
    lines, other := [Line(R1), Line(R2), Line(R3), Line(R4)], Line(SECOND);
    PlainTogether(lines);
  }
}

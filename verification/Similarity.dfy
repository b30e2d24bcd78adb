/**
 Similarity of a line to a template (`get_similarity` of
 flt/templating/online_templater.hpp), over the reals.
*/
module Similarities {
  import opened WordIterators
  import opened ParamTables
  import opened Splitting
  import opened TemplStrings

  /** With no words at all the source divides zero by zero; the result compares
      greater than nothing. */
  datatype Similarity = NotANumber | Value(v: real) {
    predicate Exceeds(bound: real) {
      Value? && v > bound
    }
  }

  predicate EqualAt(templ: Parsed, line: Parsed, p: nat)
    requires p < |templ.toks| == |line.toks|
  {
    line.toks[p].word == templ.toks[p].word && line.toks[p].word != "&v"
  }

  /** A position that rules out the template altogether: words differ, and either
      the separators before them do or both are keys in front of an equals sign. */
  predicate Blocks(templ: Parsed, line: Parsed, p: nat)
    requires p < |templ.toks| == |line.toks|
  {
    && !EqualAt(templ, line, p)
    && (|| SepsBefore(line, p) != SepsBefore(templ, p)
        || (&& line.toks[p].seps == "=" && templ.toks[p].seps == "="
            && !IsPossibleParam(line.toks[p].word) && !IsPossibleParam(templ.toks[p].word)))
  }

  ghost predicate BlockedBefore(templ: Parsed, line: Parsed, n: nat)
    requires n <= |templ.toks| == |line.toks|
  {
    exists p :: 0 <= p < n && Blocks(templ, line, p)
  }

  /** Number of equal words among the first `n`. */
  function EqualWords(templ: Parsed, line: Parsed, n: nat): nat
    requires n <= |templ.toks| == |line.toks|
  {
    if n == 0 then 0
    else EqualWords(templ, line, n - 1) + if EqualAt(templ, line, n - 1) then 1 else 0
  }

  /** One step of the comparison, in terms of what the iterators show. */
  lemma CompareStep(templ: Parsed, line: Parsed, i: nat, templTok: Token, lineTok: Token, templBefore: string,
      lineBefore: string)
    requires i < |templ.toks| == |line.toks|
    requires templTok == templ.toks[i] && lineTok == line.toks[i]
    requires templBefore == SepsBefore(templ, i) && lineBefore == SepsBefore(line, i)
    ensures var equal := lineTok.word == templTok.word && lineTok.word != "&v";
      var blocks := !equal && (lineBefore != templBefore
        || (&& lineTok.seps == "=" && templTok.seps == "="
            && !IsPossibleParam(lineTok.word) && !IsPossibleParam(templTok.word)));
      && EqualWords(templ, line, i + 1) == EqualWords(templ, line, i) + (if equal then 1 else 0)
      && (BlockedBefore(templ, line, i + 1) <==> BlockedBefore(templ, line, i) || blocks)
      && SepsBefore(templ, i + 1) == templTok.seps && SepsBefore(line, i + 1) == lineTok.seps
  {
    hide IsPossibleParam;
    assert Blocks(templ, line, i) <==> (
      !(lineTok.word == templTok.word && lineTok.word != "&v")
      && (lineBefore != templBefore
        || (&& lineTok.seps == "=" && templTok.seps == "="
            && !IsPossibleParam(lineTok.word) && !IsPossibleParam(templTok.word))));
  }

  lemma CompareStart(templ: Parsed, line: Parsed)
    requires |templ.toks| == |line.toks|
    ensures EqualWords(templ, line, 0) == 0 && !BlockedBefore(templ, line, 0)
    ensures SepsBefore(templ, 0) == templ.lead && SepsBefore(line, 0) == line.lead
  {
  }

  ghost function SimilarityOf(templ: Parsed, line: Parsed, threshold: real): Similarity
    requires |templ.toks| == |line.toks|
  {
    var n := |line.toks|;
    if BlockedBefore(templ, line, n) then Value(0.0)
    else if n == 0 then NotANumber
    else Value(EqualWords(templ, line, n) as real / n as real - threshold)
  }

  lemma BlockedLater(templ: Parsed, line: Parsed, i: nat, threshold: real)
    requires i <= |templ.toks| == |line.toks| && BlockedBefore(templ, line, i)
    ensures SimilarityOf(templ, line, threshold) == Value(0.0)
  {
  }

  lemma NotBlocked(templ: Parsed, line: Parsed, threshold: real)
    requires |templ.toks| == |line.toks| && !BlockedBefore(templ, line, |line.toks|)
    ensures var n := |line.toks|;
      SimilarityOf(templ, line, threshold)
      == if n == 0 then NotANumber else Value(EqualWords(templ, line, n) as real / n as real - threshold)
  {
  }

  /** The positions of equal words, other than those of the one word that never counts. */
  function EqualPositions(templ: Parsed, line: Parsed, n: nat): set<nat>
    requires n <= |templ.toks| == |line.toks|
  {
    set i: nat | i < n && line.toks[i].word == templ.toks[i].word && line.toks[i].word != "&v"
  }

  lemma {:induction false} EqualWordsAre(templ: Parsed, line: Parsed, n: nat)
    requires n <= |templ.toks| == |line.toks|
    ensures EqualWords(templ, line, n) == |EqualPositions(templ, line, n)|
  {
    if n == 0 {
      assert EqualPositions(templ, line, 0) == {};
    } else {
      EqualWordsAre(templ, line, n - 1);
      assert EqualPositions(templ, line, n)
          == EqualPositions(templ, line, n - 1) + if EqualAt(templ, line, n - 1) then {n - 1} else {};
    }
  }

  /** Words that rule a template out: they are not equal and have different separators in
      front, or are both in front of an equals sign and cannot be parameters. */
  predicate RulesOut(templ: Parsed, line: Parsed, i: nat)
    requires i < |templ.toks| == |line.toks|
  {
    && i !in EqualPositions(templ, line, |line.toks|)
    && (|| (if i == 0 then line.lead != templ.lead else line.toks[i - 1].seps != templ.toks[i - 1].seps)
        || (&& line.toks[i].seps == templ.toks[i].seps == "="
            && !IsPossibleParam(line.toks[i].word) && !IsPossibleParam(templ.toks[i].word)))
  }

  lemma RulesOutIs(templ: Parsed, line: Parsed, i: nat)
    requires i < |templ.toks| == |line.toks|
    ensures RulesOut(templ, line, i) <==> Blocks(templ, line, i)
  {
    hide IsPossibleParam;
  }

  /** If no word does, the similarity is the share of equal words less the threshold. */
  lemma SimilarityIsShare(templ: Parsed, line: Parsed, threshold: real)
    requires |templ.toks| == |line.toks| > 0
    ensures var n := |line.toks|;
      SimilarityOf(templ, line, threshold)
      == Value(if exists i: nat :: i < n && RulesOut(templ, line, i) then 0.0
               else |EqualPositions(templ, line, n)| as real / n as real - threshold)
  {
    var n := |line.toks|;
    EqualWordsAre(templ, line, n);
    hide EqualPositions, EqualWords, RulesOut, Blocks;
    forall i: nat | i < n ensures RulesOut(templ, line, i) <==> Blocks(templ, line, i) {
      RulesOutIs(templ, line, i);
    }
    if BlockedBefore(templ, line, n) {
      var i :| 0 <= i < n && Blocks(templ, line, i);
      assert RulesOut(templ, line, i);
    }
  }

  // ------------------------------------------------------------------- literals

  /** Number of literal words among the first `n`. */
  function LiteralCount(row: Row, n: nat): nat
    requires n <= |row|
  {
    if n == 0 then 0 else LiteralCount(row, n - 1) + if row[n - 1] != WILDCARD then 1 else 0
  }

  /** More than a share `threshold` of the words are literal. */
  predicate MostlyLiteral(row: Row, threshold: real) {
    |row| > 0 ==> LiteralCount(row, |row|) as real > Share(threshold, |row|)
  }

  function LiteralPositions(row: Row, n: nat): set<nat>
    requires n <= |row|
  {
    set i: nat | i < n && row[i] != "<*>"
  }

  /** Counting is counting. */
  lemma {:induction false} LiteralsAre(row: Row, n: nat)
    requires n <= |row|
    ensures LiteralCount(row, n) == |LiteralPositions(row, n)|
  {
    if n == 0 {
      assert LiteralPositions(row, 0) == {};
    } else {
      LiteralsAre(row, n - 1);
      assert LiteralPositions(row, n) == LiteralPositions(row, n - 1) + if row[n - 1] != WILDCARD then {n - 1} else {};
    }
  }

  lemma MostlyLiteralIs(row: Row, threshold: real)
    requires row != []
    ensures MostlyLiteral(row, threshold) <==> |LiteralPositions(row, |row|)| as real > threshold * |row| as real
  {
    LiteralsAre(row, |row|);
  }

  function Share(threshold: real, n: nat): real {
    threshold * n as real
  }

  lemma {:induction false} AllLiteral(row: Row, n: nat)
    requires WILDCARD !in row && n <= |row|
    ensures LiteralCount(row, n) == n
  {
    if n > 0 {
      AllLiteral(row, n - 1);
      assert row[n - 1] in row;
    }
  }

  lemma {:induction false} FewerWildcardsMoreLiterals(s: Row, t: Row, n: nat)
    requires n <= |s| == |t| && Wild(s) <= Wild(t)
    ensures LiteralCount(t, n) <= LiteralCount(s, n)
  {
    if n > 0 {
      FewerWildcardsMoreLiterals(s, t, n - 1);
      assert s[n - 1] == WILDCARD ==> n - 1 in Wild(s);
    }
  }

  lemma LiteralsKept(s: Row, t: Row)
    requires |s| == |t| && Wild(s) <= Wild(t)
    ensures forall threshold :: MostlyLiteral(t, threshold) ==> MostlyLiteral(s, threshold)
  {
    FewerWildcardsMoreLiterals(s, t, |s|);
  }

  lemma {:induction false} EqualWordsStayLiteral(templ: string, line: string, n: nat)
    requires n <= |Words(templ)| == |Words(line)| && WILDCARD !in Words(line)
    ensures EqualWords(ParseLine(templ), ParseLine(line), n) <= LiteralCount(Merge(Words(templ), Words(line)), n)
  {
    if n > 0 {
      EqualWordsStayLiteral(templ, line, n - 1);
      assert Words(line)[n - 1] in Words(line);
    }
  }

  /** A line that is similar enough leaves the template more than a share
      `threshold` of literal words. */
  lemma SimilarKeepsLiterals(templ: string, line: string, threshold: real)
    requires |Words(templ)| == |Words(line)| && WILDCARD !in Words(line)
    requires SimilarityOf(ParseLine(templ), ParseLine(line), threshold).Exceeds(0.0)
    ensures |Words(line)| > 0
    ensures MostlyLiteral(Merge(Words(templ), Words(line)), threshold)
  {
    hide EqualWords, LiteralCount, Merge, Words, ParseLine;
    assert !BlockedBefore(ParseLine(templ), ParseLine(line), |Words(line)|);
    var n := |Words(line)|;
    EqualWordsStayLiteral(templ, line, n);
    ShareOf(EqualWords(ParseLine(templ), ParseLine(line), n), n, threshold);
  }

  lemma ShareOf(part: nat, whole: nat, threshold: real)
    requires whole > 0
    ensures part as real / whole as real - threshold > 0.0 <==> part as real > Share(threshold, whole)
  {
    var p, w := part as real, whole as real;
    assert p == p / w * w;
    if p / w > threshold {
      PositiveProduct(p / w - threshold, w);
      assert (p / w - threshold) * w == p / w * w - threshold * w;
    } else {
      NonNegativeProduct(threshold - p / w, w);
      assert (threshold - p / w) * w == threshold * w - p / w * w;
    }
  }

  lemma PositiveProduct(x: real, y: real)
    requires x > 0.0 && y > 0.0
    ensures x * y > 0.0
  {
  }

  lemma NonNegativeProduct(x: real, y: real)
    requires x >= 0.0 && y >= 0.0
    ensures x * y >= 0.0
  {
  }

  lemma EmptyIsLiteral(row: Row, threshold: real)
    requires row == []
    ensures MostlyLiteral(row, threshold)
  {
  }

  lemma WholeExceedsShare(n: nat, threshold: real)
    requires n > 0
    ensures n as real > Share(threshold, n) <==> threshold < 1.0
  {
    ShareOf(n, n, threshold);
    assert n as real / n as real == 1.0;
  }

  /** A first line is all literal, which is enough exactly for a threshold below one. */
  lemma FirstLineIsLiteral(line: Row, threshold: real)
    requires WILDCARD !in line && |line| > 0
    ensures MostlyLiteral(line, threshold) <==> threshold < 1.0
  {
    hide Share, LiteralCount;
    AllLiteral(line, |line|);
    WholeExceedsShare(|line|, threshold);
  }

  // ------------------------------------------------ lines with the wildcard as a word

  /** The words of the line, but the wildcard where the line has the word that never
      counts as equal. */
  function Counted(line: Row): (ws: Row)
    ensures |ws| == |line|
  {
    seq(|line|, i requires 0 <= i < |line| => if line[i] == "&v" then WILDCARD else line[i])
  }

  lemma CountedAreWords(line: string)
    ensures forall w :: w in Counted(Words(line)) ==> IsWord(w, SpecialSeps)
  {
    WordsAreWords(line);
    WildcardIsWord();
    var ws := Counted(Words(line));
    assert forall i :: 0 <= i < |ws| ==> ws[i] == WILDCARD || ws[i] in Words(line);
  }

  lemma CountedAt(templ: string, line: string, i: nat)
    requires ParseLine(templ) == Retoken(Counted(Words(line)), ParseLine(line)) && i < |Words(line)| == |Words(templ)|
    requires Words(templ) == Counted(Words(line))
    ensures EqualAt(ParseLine(templ), ParseLine(line), i) <==> Words(line)[i] != "&v"
    ensures Merge(Words(templ), Words(line))[i] != WILDCARD <==> Words(line)[i] != "&v" && Words(line)[i] != WILDCARD
    ensures SepsBefore(ParseLine(templ), i) == SepsBefore(ParseLine(line), i)
  {
    hide Parse;
  }

  lemma WildcardCounts()
    ensures WILDCARD != "&v"
  {
    assert WILDCARD[0] != "&v"[0];
  }

  lemma NothingCounted(templ: string, line: string)
    requires |Words(line)| == |Words(templ)|
    ensures EqualWords(ParseLine(templ), ParseLine(line), 0) == 0
    ensures LiteralCount(Merge(Words(templ), Words(line)), 0) == 0
  {
  }

  lemma CountsAt(templ: string, line: string, i: nat)
    requires ParseLine(templ) == Retoken(Counted(Words(line)), ParseLine(line))
    requires i < |Words(line)| == |Words(templ)| && Words(templ) == Counted(Words(line))
    ensures EqualWords(ParseLine(templ), ParseLine(line), i + 1)
         == EqualWords(ParseLine(templ), ParseLine(line), i) + if Words(line)[i] != "&v" then 1 else 0
    ensures LiteralCount(Merge(Words(templ), Words(line)), i + 1)
         == LiteralCount(Merge(Words(templ), Words(line)), i)
          + if Words(line)[i] != "&v" && Words(line)[i] != WILDCARD then 1 else 0
  {
    hide EqualAt, Merge, Words, ParseLine, Counted, Retoken;
    CountedAt(templ, line, i);
  }

  /** Against a template of these words every other word counts as equal, also the
      wildcards, which are not literal. */
  lemma {:induction false} WildcardsCountAsEqual(templ: string, line: string, n: nat, p: nat)
    requires ParseLine(templ) == Retoken(Counted(Words(line)), ParseLine(line))
    requires n <= |Words(line)| == |Words(templ)| && Words(templ) == Counted(Words(line))
    requires p < |Words(line)| && Words(line)[p] == WILDCARD
    ensures var literal := LiteralCount(Merge(Words(templ), Words(line)), n);
      literal + (if p < n then 1 else 0) <= EqualWords(ParseLine(templ), ParseLine(line), n)
  {
    hide *;
    WildcardCounts();
    if n == 0 {
      NothingCounted(templ, line);
    } else {
      WildcardsCountAsEqual(templ, line, n - 1, p);
      CountsAt(templ, line, n - 1);
    }
  }

  lemma CountedIsNotBlocked(templ: string, line: string)
    requires ParseLine(templ) == Retoken(Counted(Words(line)), ParseLine(line))
    requires |Words(line)| == |Words(templ)| && Words(templ) == Counted(Words(line))
    ensures !BlockedBefore(ParseLine(templ), ParseLine(line), |Words(line)|)
  {
    hide EqualAt, ParseLine, Counted, Retoken, SepsBefore;
    assert !IsPlainChar("&v"[0]);
    forall i | 0 <= i < |Words(line)| ensures !Blocks(ParseLine(templ), ParseLine(line), i) {
      CountedAt(templ, line, i);
      assert ParseLine(line).toks[i].word == Words(line)[i];
    }
  }

  lemma SimilarByShare(templ: string, line: string, literal: nat)
    requires |Words(templ)| == |Words(line)| > 0 && !BlockedBefore(ParseLine(templ), ParseLine(line), |Words(line)|)
    requires literal < EqualWords(ParseLine(templ), ParseLine(line), |Words(line)|)
    ensures SimilarityOf(ParseLine(templ), ParseLine(line), literal as real / |Words(line)| as real).Exceeds(0.0)
  {
    hide Words, ParseLine, EqualWords, BlockedBefore;
    ShareGrows(literal, EqualWords(ParseLine(templ), ParseLine(line), |Words(line)|), |Words(line)|);
  }

  lemma ShareGrows(literal: nat, equal: nat, n: nat)
    requires literal < equal && n > 0
    ensures equal as real / n as real > literal as real / n as real
  {
  }

  /** Such a template joins with the line for a threshold that the literal words of the
      result do not reach. */
  lemma WildcardIsNoLiteral(line: string, p: nat) returns (templ: string, threshold: real)
    requires p < |Words(line)| && Words(line)[p] == WILDCARD
    ensures |Words(templ)| == |Words(line)|
    ensures SimilarityOf(ParseLine(templ), ParseLine(line), threshold).Exceeds(0.0)
    ensures !MostlyLiteral(Merge(Words(templ), Words(line)), threshold)
  {
    hide *;
    CountedAreWords(line);
    templ := Render(Retoken(Counted(Words(line)), ParseLine(line)));
    RetokenRoundTrip(Counted(Words(line)), line);
    CountedIsNotBlocked(templ, line);
    var n := |Words(line)|;
    WildcardsCountAsEqual(templ, line, n, p);
    var literal := LiteralCount(Merge(Words(templ), Words(line)), n);
    threshold := literal as real / n as real;
    SimilarByShare(templ, line, literal);
    NoMoreThanShare(Merge(Words(templ), Words(line)), threshold);
  }

  lemma NoMoreThanShare(row: Row, threshold: real)
    requires |row| > 0 && threshold == LiteralCount(row, |row|) as real / |row| as real
    ensures !MostlyLiteral(row, threshold)
  {
    hide LiteralCount, Share;
    ShareOf(LiteralCount(row, |row|), |row|, threshold);
  }

  /** A line that joins leaves every template more than the threshold's share of literal
      words exactly if it does not have the wildcard as a word: two wildcards count as
      equal words. */
  lemma SimilarKeepsLiteralsIffPlain(line: string)
    ensures WILDCARD !in Words(line) <==>
      forall templ: string, threshold: real ::
        |Words(templ)| == |Words(line)| && SimilarityOf(ParseLine(templ), ParseLine(line), threshold).Exceeds(0.0)
        ==> MostlyLiteral(Merge(Words(templ), Words(line)), threshold)
  {
    hide Words, ParseLine, SimilarityOf, MostlyLiteral, Merge;
    if WILDCARD !in Words(line) {
      forall templ: string, threshold: real
        | |Words(templ)| == |Words(line)| && SimilarityOf(ParseLine(templ), ParseLine(line), threshold).Exceeds(0.0)
        ensures MostlyLiteral(Merge(Words(templ), Words(line)), threshold)
      {
        SimilarKeepsLiterals(templ, line, threshold);
      }
    } else {
      var p :| 0 <= p < |Words(line)| && Words(line)[p] == WILDCARD;
      var templ, threshold := WildcardIsNoLiteral(line, p);
    }
  }
}

/**
 Template strings: other words written between the separators of a line
 (flt/templating/online_templater.hpp), and what they re-tokenise to.
*/
module TemplStrings {
  import opened WordIterators
  import opened ParamTables

  // ------------------------------------------------------------- merging lines

  /** The separators in front of word `i`. */
  function SepsBefore(p: Parsed, i: nat): string
    requires i <= |p.toks|
  {
    if i == 0 then p.lead else p.toks[i - 1].seps
  }

  ghost function Rows(lines: seq<string>): seq<Row> {
    seq(|lines|, i requires 0 <= i < |lines| => Words(lines[i]))
  }

  lemma RowsAppend(lines: seq<string>, line: string)
    ensures Rows(lines + [line]) == Rows(lines) + [Words(line)]
  {
  }

  /** The words `ws` with the separators of `line`. */
  function Retoken(ws: Row, line: Parsed): Parsed
    requires |ws| == |line.toks|
  {
    Parsed(line.lead, seq(|ws|, i requires 0 <= i < |ws| => Token(ws[i], line.toks[i].seps)))
  }

  lemma {:induction false} RetokenWellFormed(ws: Row, toks: seq<Token>, toks': seq<Token>)
    requires |ws| == |toks| == |toks'| && WellFormedTokens(toks, SpecialSeps)
    requires forall i :: 0 <= i < |ws| ==> IsWord(ws[i], SpecialSeps) && toks'[i] == Token(ws[i], toks[i].seps)
    ensures WellFormedTokens(toks', SpecialSeps)
  {
    if toks != [] {
      RetokenWellFormed(ws[1..], toks[1..], toks'[1..]);
    }
  }

  lemma {:induction false} TokensAreWords(toks: seq<Token>, i: nat)
    requires WellFormedTokens(toks, SpecialSeps) && i < |toks|
    ensures IsWord(toks[i].word, SpecialSeps)
  {
    if i > 0 { TokensAreWords(toks[1..], i - 1); }
  }

  lemma WordsAreWords(s: string)
    ensures forall w :: w in Words(s) ==> IsWord(w, SpecialSeps)
  {
    RenderParse(s, SpecialSeps);
    forall w | w in Words(s) ensures IsWord(w, SpecialSeps) {
      var i :| 0 <= i < |Words(s)| && Words(s)[i] == w;
      TokensAreWords(ParseLine(s).toks, i);
    }
  }

  lemma WildcardIsWord()
    ensures IsWord(WILDCARD, SpecialSeps)
  {
  }

  /** Writing other words between the separators of a line gives a string with
      exactly those words and separators. */
  lemma RetokenRoundTrip(ws: Row, line: string)
    requires |ws| == |Words(line)|
    requires forall w :: w in ws ==> IsWord(w, SpecialSeps)
    ensures ParseLine(Render(Retoken(ws, ParseLine(line)))) == Retoken(ws, ParseLine(line))
    ensures Words(Render(Retoken(ws, ParseLine(line)))) == ws
  {
    var p := ParseLine(line);
    RenderParse(line, SpecialSeps);
    RetokenWellFormed(ws, p.toks, Retoken(ws, p).toks);
    ParseRender(Retoken(ws, p), SpecialSeps);
  }

  lemma {:induction false} RenderTokensAppend(toks: seq<Token>, t: Token)
    ensures RenderTokens(toks + [t]) == RenderTokens(toks) + t.word + t.seps
  {
    if toks == [] {
      assert RenderTokens([t]) == t.word + t.seps + RenderTokens([]);
    } else {
      RenderTokensAppend(toks[1..], t);
      assert (toks + [t])[1..] == toks[1..] + [t];
    }
  }

  lemma MergeOfWords(templ: Row, row: Row)
    requires |templ| == |row| && forall w :: w in templ ==> IsWord(w, SpecialSeps)
    ensures forall w :: w in Merge(templ, row) ==> IsWord(w, SpecialSeps)
  {
    var m := Merge(templ, row);
    assert forall i :: 0 <= i < |m| ==> m[i] == WILDCARD || m[i] in templ;
    WildcardIsWord();
  }

  /** What is written after the first `i` words: nothing at all before the first. */
  function Written(p: Parsed, i: nat): string
    requires i <= |p.toks|
  {
    if i == 0 then "" else p.lead + RenderTokens(p.toks[..i])
  }

  lemma WrittenStep(p: Parsed, i: nat, t: Token)
    requires i < |p.toks| && p.toks[i] == t
    ensures Written(p, i + 1) == Written(p, i) + (if i == 0 then p.lead else "") + t.word + t.seps
  {
    RenderTokensAppend(p.toks[..i], t);
    assert p.toks[..i + 1] == p.toks[..i] + [t];
  }

  /** The template that merging with a line gives, between the separators of the line. */
  function Merged(templ: string, line: string): Parsed
    requires |Words(templ)| == |Words(line)|
  {
    Retoken(Merge(Words(templ), Words(line)), ParseLine(line))
  }

  /** The template that a sequence of lines of the same width makes: the first line, merged
      with one line after the other. */
  ghost function TemplOf(lines: seq<string>): string
    requires lines != []
  {
    if |lines| == 1 then lines[0]
    else
      var templ, line := TemplOf(lines[..|lines| - 1]), lines[|lines| - 1];
      if |Words(templ)| == |Words(line)| then Render(Merged(templ, line)) else templ
  }

  lemma TemplOfMore(lines: seq<string>, line: string)
    requires lines != [] && |Words(TemplOf(lines))| == |Words(line)|
    ensures TemplOf(lines + [line]) == Render(Merged(TemplOf(lines), line))
  {
    assert (lines + [line])[..|lines|] == lines;
  }

  lemma RetokenStep(ws: Row, line: string, i: nat, w: string)
    requires i < |ws| == |Words(line)| && w == ws[i]
    ensures var m := Retoken(ws, ParseLine(line));
      Written(m, i + 1) == Written(m, i) + (if i == 0 then m.lead else "") + w + ParseLine(line).toks[i].seps
  {
    WrittenStep(Retoken(ws, ParseLine(line)), i, Token(ws[i], ParseLine(line).toks[i].seps));
  }

  lemma RetokenEnds(ws: Row, line: string)
    requires |ws| == |Words(line)| > 0
    ensures var m := Retoken(ws, ParseLine(line));
      && m.lead == ParseLine(line).lead
      && Written(m, 0) == "" && |m.toks| == |ws| && Written(m, |ws|) == Render(m)
  {
    var m := Retoken(ws, ParseLine(line));
    assert m.toks[..|ws|] == m.toks;
  }

  lemma MergedStep(templ: string, line: string, i: nat, newTok: string)
    requires i < |Words(templ)| == |Words(line)|
    requires newTok == if Words(templ)[i] != Words(line)[i] then WILDCARD else Words(templ)[i]
    ensures var m := Merged(templ, line);
      Written(m, i + 1) == Written(m, i) + (if i == 0 then m.lead else "") + newTok + ParseLine(line).toks[i].seps
  {
    RetokenStep(Merge(Words(templ), Words(line)), line, i, newTok);
  }

  lemma MergedEnds(templ: string, line: string)
    requires |Words(templ)| == |Words(line)| > 0
    ensures var m := Merged(templ, line);
      && m.lead == ParseLine(line).lead
      && Written(m, 0) == "" && |m.toks| == |Words(line)| && Written(m, |Words(line)|) == Render(m)
  {
    RetokenEnds(Merge(Words(templ), Words(line)), line);
  }

  lemma WordAt(s: string, i: nat)
    requires i < |Words(s)|
    ensures Words(s)[i] == Parse(s, SpecialSeps).toks[i].word
    ensures ParseLine(s) == Parse(s, SpecialSeps)
  {
  }

  /** Between the words it has the separators of the line. */
  lemma MergedSeparators(templ: string, line: string)
    requires |Words(templ)| == |Words(line)|
    ensures var p, l := Parse(Render(Merged(templ, line)), SpecialSeps), Parse(line, SpecialSeps);
      && p.lead == l.lead && |p.toks| == |l.toks| && forall i :: 0 <= i < |l.toks| ==> p.toks[i].seps == l.toks[i].seps
  {
    MergedWords(templ, line);
    hide Parse, Render, Words, Merge;
    assert ParseLine(line) == Parse(line, SpecialSeps);
  }

  /** The string `update` builds re-tokenises to the merged words. */
  lemma MergedWords(templ: string, line: string)
    requires |Words(templ)| == |Words(line)|
    ensures ParseLine(Render(Merged(templ, line))) == Merged(templ, line)
    ensures Words(Render(Merged(templ, line))) == Merge(Words(templ), Words(line))
  {
    WordsAreWords(templ);
    MergeOfWords(Words(templ), Words(line));
    RetokenRoundTrip(Merge(Words(templ), Words(line)), line);
  }
}

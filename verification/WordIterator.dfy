/**
 Words and separators of a string, as the word iterators of
 flt/string/word_iterator.hpp see them.

 The specification is `Parse`: the leading separators, then every word with the
 separators that follow it. The class `WordIterator` walks over a string with a
 cursor, as the source does, and is proved against `Parse`.
 */
module WordIterators {

  /** A word and the separators between it and the next word (or the end). */
  datatype Token = Token(word: string, seps: string)

  datatype Parsed = Parsed(lead: string, toks: seq<Token>)

  /** Class `blank` of the C locale: the separators of the plain word iterator. */
  predicate IsBlank(c: char) {
    c == ' ' || c == '\t'
  }

  /** `isspace` of the C locale. */
  predicate IsSpace(c: char) {
    c == ' ' || '\t' <= c <= '\r'
  }

  /** Separators of the iterator with special separators. */
  predicate IsSpecialSep(c: char) {
    IsSpace(c) || c in "=;,'\"()[]{}"
  }

  /** The plain iterator splits at blanks, the other one at special separators. */
  datatype Mode = Blanks | SpecialSeps

  predicate IsSep(m: Mode, c: char) {
    match m
    case Blanks => IsBlank(c)
    case SpecialSeps => IsSpecialSep(c)
  }

  /** Length of the longest prefix of `s` on which separatorhood is constantly `want`. */
  function SpanLen(s: string, m: Mode, want: bool): (n: nat)
    ensures n <= |s|
    ensures forall k :: 0 <= k < n ==> IsSep(m, s[k]) == want
    ensures n < |s| ==> IsSep(m, s[n]) != want
  {
    if s == "" || IsSep(m, s[0]) != want then 0 else 1 + SpanLen(s[1..], m, want)
  }

  /** The word a string starts with, and the separators after it. */
  function FirstToken(s: string, m: Mode): (t: Token)
    requires s != "" && !IsSep(m, s[0])
    ensures IsWord(t.word, m) && AllSep(t.seps, m, true)
    ensures t.word + t.seps <= s
    ensures var rest := s[|t.word + t.seps|..];
      rest != "" ==> t.seps != "" && !IsSep(m, rest[0])
  {
    var w := SpanLen(s, m, false);
    var n := SpanLen(s[w..], m, true);
    Token(s[..w], s[w..][..n])
  }

  /** The words of a string that starts with a word (or is empty). */
  function TokensOf(s: string, m: Mode): (toks: seq<Token>)
    requires s != "" ==> !IsSep(m, s[0])
    ensures s != "" <==> toks != []
    decreases |s|
  {
    if s == "" then []
    else
      var t := FirstToken(s, m);
      [t] + TokensOf(s[|t.word + t.seps|..], m)
  }

  function Parse(s: string, m: Mode): Parsed {
    var n := SpanLen(s, m, true);
    Parsed(s[..n], TokensOf(s[n..], m))
  }

  function RenderTokens(toks: seq<Token>): string {
    if toks == [] then "" else toks[0].word + toks[0].seps + RenderTokens(toks[1..])
  }

  /** The string written by concatenating words and separators. */
  function Render(p: Parsed): string {
    p.lead + RenderTokens(p.toks)
  }

  predicate AllSep(s: string, m: Mode, want: bool) {
    forall k :: 0 <= k < |s| ==> IsSep(m, s[k]) == want
  }

  predicate IsWord(w: string, m: Mode) {
    w != "" && AllSep(w, m, false)
  }

  /** Words are words, separators are separators, and two words never touch. */
  ghost predicate WellFormedTokens(toks: seq<Token>, m: Mode) {
    toks == [] ||
    (&& IsWord(toks[0].word, m)
     && AllSep(toks[0].seps, m, true)
     && (|toks| > 1 ==> toks[0].seps != "")
     && WellFormedTokens(toks[1..], m))
  }

  ghost predicate WellFormed(p: Parsed, m: Mode) {
    AllSep(p.lead, m, true) && WellFormedTokens(p.toks, m)
  }

  // ---------------------------------------------------------------- round trips

  lemma SpanLenUnique(s: string, m: Mode, want: bool, n: nat)
    requires n <= |s| && AllSep(s[..n], m, want) && (n < |s| ==> IsSep(m, s[n]) != want)
    ensures SpanLen(s, m, want) == n
  {
    var len := SpanLen(s, m, want);
    assert forall k :: 0 <= k < n ==> s[..n][k] == s[k];
  }

  lemma NextTokens(s: string, m: Mode)
    requires s != "" && !IsSep(m, s[0])
    ensures var t := FirstToken(s, m);
      var rest := TokensOf(s[|t.word + t.seps|..], m);
      && TokensOf(s, m) == [t] + rest && t.word != ""
      && RenderTokens([t] + rest) == t.word + t.seps + RenderTokens(rest)
      && (WellFormedTokens(rest, m) ==> WellFormedTokens([t] + rest, m))
  {
    var t := FirstToken(s, m);
    assert ([t] + TokensOf(s[|t.word + t.seps|..], m))[1..] == TokensOf(s[|t.word + t.seps|..], m);
  }

  lemma {:induction false} TokensOfRender(s: string, m: Mode)
    requires s != "" ==> !IsSep(m, s[0])
    ensures WellFormedTokens(TokensOf(s, m), m)
    ensures RenderTokens(TokensOf(s, m)) == s
    decreases |s|
  {
    if s != "" {
      hide *;
      NextTokens(s, m);
      var t := FirstToken(s, m);
      TokensOfRender(s[|t.word + t.seps|..], m);
    }
  }

  /** Tokenising loses nothing: the pieces concatenate to the string. */
  lemma RenderParse(s: string, m: Mode)
    ensures WellFormed(Parse(s, m), m)
    ensures Render(Parse(s, m)) == s
  {
    hide TokensOf, RenderTokens, WellFormedTokens;
    var n := SpanLen(s, m, true);
    TokensOfRender(s[n..], m);
    assert s == s[..n] + s[n..];
  }

  lemma FirstTokenUnique(t: Token, rest: string, m: Mode)
    requires IsWord(t.word, m) && AllSep(t.seps, m, true)
    requires rest != "" ==> t.seps != "" && !IsSep(m, rest[0])
    ensures var s := t.word + t.seps + rest; !IsSep(m, s[0]) && FirstToken(s, m) == t
  {
    var s := t.word + t.seps + rest;
    assert s[0] == t.word[0];
    assert s[..|t.word|] == t.word && s[|t.word|..] == t.seps + rest;
    SpanLenUnique(s, m, false, |t.word|);
    assert (t.seps + rest)[..|t.seps|] == t.seps;
    SpanLenUnique(t.seps + rest, m, true, |t.seps|);
  }

  lemma FrontToken(toks: seq<Token>, m: Mode)
    requires WellFormedTokens(toks, m) && toks != []
    ensures IsWord(toks[0].word, m) && AllSep(toks[0].seps, m, true) && WellFormedTokens(toks[1..], m)
    ensures RenderTokens(toks) == toks[0].word + toks[0].seps + RenderTokens(toks[1..])
    ensures RenderTokens(toks[1..]) != "" ==> toks[0].seps != ""
    ensures RenderTokens(toks) != ""
  {
  }

  lemma NoTokens(m: Mode)
    ensures RenderTokens([]) == "" && TokensOf("", m) == []
  {
  }

  lemma {:induction false} RenderTokensOf(toks: seq<Token>, m: Mode)
    requires WellFormedTokens(toks, m)
    ensures var s := RenderTokens(toks);
      (s != "" ==> !IsSep(m, s[0])) && TokensOf(s, m) == toks
  {
    hide *;
    if toks == [] {
      NoTokens(m);
    } else {
      var t, rest := toks[0], RenderTokens(toks[1..]);
      FrontToken(toks, m);
      RenderTokensOf(toks[1..], m);
      FirstTokenUnique(t, rest, m);
      assert RenderTokens(toks)[|t.word + t.seps|..] == rest;
      NextTokens(RenderTokens(toks), m);
    }
  }

  /** Whatever well-formed pieces are written re-tokenise to exactly those pieces. */
  lemma ParseRender(p: Parsed, m: Mode)
    requires WellFormed(p, m)
    ensures Parse(Render(p), m) == p
  {
    RenderTokensOf(p.toks, m);
    var s := Render(p);
    assert s[..|p.lead|] == p.lead && s[|p.lead|..] == RenderTokens(p.toks);
    SpanLenUnique(s, m, true, |p.lead|);
  }

  /** The characters at which the plain iterator splits, and the other one. */
  predicate SplitsAt(m: Mode, c: char) {
    if m.Blanks? then c as int == 32 || c as int == 9
    else c as int == 32 || 9 <= c as int <= 13 || c in "=;,'" || c == '"' || c in "()" || c in "[]" || c in "{}"
  }

  /** No word has one of them, words are not empty, and what is between them has no others. */
  lemma {:induction false} WordsHaveNoSeparators(toks: seq<Token>, m: Mode, i: nat)
    requires WellFormedTokens(toks, m) && i < |toks|
    ensures toks[i].word != "" && forall c :: c in toks[i].word ==> !SplitsAt(m, c)
    ensures forall c :: c in toks[i].seps ==> SplitsAt(m, c)
  {
    if i > 0 {
      WordsHaveNoSeparators(toks[1..], m, i - 1);
    }
  }

  lemma ParseSplits(s: string, m: Mode)
    ensures var p := Parse(s, m);
      && (forall c :: c in p.lead ==> SplitsAt(m, c))
      && forall i :: 0 <= i < |p.toks| ==>
           && p.toks[i].word != "" && (forall c :: c in p.toks[i].word ==> !SplitsAt(m, c))
           && (forall c :: c in p.toks[i].seps ==> SplitsAt(m, c))
  {
    RenderParse(s, m);
    var p := Parse(s, m);
    forall i | 0 <= i < |p.toks|
      ensures p.toks[i].word != "" && forall c :: c in p.toks[i].word ==> !SplitsAt(m, c)
      ensures forall c :: c in p.toks[i].seps ==> SplitsAt(m, c)
    {
      WordsHaveNoSeparators(p.toks, m, i);
    }
  }

  // ------------------------------------------------------------------ iterator

  /** First position from `from` on where separatorhood differs from `want`. */
  method ScanWhile(s: string, m: Mode, want: bool, from: nat) returns (pos: nat)
    requires from <= |s|
    ensures pos == from + SpanLen(s[from..], m, want) <= |s|
  {
    pos := from;
    while pos != |s| && IsSep(m, s[pos]) == want
      invariant from <= pos <= |s|
      invariant AllSep(s[from..pos], m, want)
    {
      assert s[from..pos + 1] == s[from..pos] + [s[pos]];
      pos := pos + 1;
    }
    assert s[from..][..pos - from] == s[from..pos];
    SpanLenUnique(s[from..], m, want, pos - from);
  }

  /** A cursor at word `index` of a string: where the word begins, where the word
      before it ended, and how long it is. */
  ghost predicate CursorAt(str: string, m: Mode, toks: seq<Token>, index: nat,
                           prevWordEnd: nat, wordBegin: nat, wordSize: nat)
  {
    && prevWordEnd <= wordBegin <= |str|
    && AllSep(str[prevWordEnd..wordBegin], m, true)
    && (wordBegin < |str| ==> !IsSep(m, str[wordBegin]))
    && wordSize == SpanLen(str[wordBegin..], m, false)
    && index <= |toks|
    && TokensOf(str[wordBegin..], m) == toks[index..]
  }

  lemma CursorView(str: string, m: Mode, toks: seq<Token>, index: nat, prevWordEnd: nat, wordBegin: nat, wordSize: nat)
    requires CursorAt(str, m, toks, index, prevWordEnd, wordBegin, wordSize)
    ensures wordBegin + wordSize <= |str|
    ensures wordBegin == |str| <==> index == |toks|
    ensures str[wordBegin..][..wordSize] == if index == |toks| then "" else toks[index].word
  {
    if index < |toks| { assert toks[index..][0] == toks[index]; }
  }

  /** The separators after the word, and the cursor at the next word. */
  lemma CursorStep(str: string, m: Mode, toks: seq<Token>, index: nat,
                   prevWordEnd: nat, wordBegin: nat, wordSize: nat, wordEnd: nat, next: nat)
    requires CursorAt(str, m, toks, index, prevWordEnd, wordBegin, wordSize) && wordBegin < |str|
    requires wordEnd == wordBegin + wordSize <= |str|
    requires next == wordEnd + SpanLen(str[wordEnd..], m, true)
    ensures wordBegin < wordEnd && index < |toks|
    ensures str[wordEnd..next] == toks[index].seps
    ensures CursorAt(str, m, toks, index + 1, wordEnd, next, SpanLen(str[next..], m, false))
  {
    hide TokensOf, AllSep, IsSep, IsWord;
    var s := str[wordBegin..];
    assert s[wordSize..] == str[wordEnd..];
    assert str[wordEnd..][..next - wordEnd] == str[wordEnd..next];
    NextTokens(s, m);
    var t := FirstToken(s, m);
    assert t.seps == str[wordEnd..next];
    assert s[|t.word + t.seps|..] == str[next..];
    assert toks[index..][0] == toks[index] && toks[index..][1..] == toks[index + 1..];
    assert next < |str| ==> str[next..][0] == str[next];
  }

  class WordIterator {
    const str: string
    const mode: Mode
    var wordBegin: nat
    var prevWordEnd: nat
    var wordSize: nat

    /** All words of the string, and how many of them lie behind the cursor. */
    ghost const toks: seq<Token>
    ghost var index: nat

    ghost predicate Valid()
      reads this
    {
      CursorAt(str, mode, toks, index, prevWordEnd, wordBegin, wordSize)
    }

    /** The plain iterator, over either class of separators. */
    constructor Plain(s: string, m: Mode)
      ensures Valid() && str == s && mode == m
      ensures toks == Parse(s, m).toks && index == 0
      ensures PrevSeps() == Parse(s, m).lead
    {
      var begin := ScanWhile(s, m, true, 0);
      var end := ScanWhile(s, m, false, begin);
      str, mode := s, m;
      toks, index := Parse(s, m).toks, 0;
      wordBegin, prevWordEnd, wordSize := begin, 0, end - begin;
      new;
      assert s[0..] == s;
    }

    /** The iterator with special separators skips blanks as the plain one does
        during construction, and then every separator. */
    constructor Special(s: string)
      ensures Valid() && str == s && mode == SpecialSeps
      ensures toks == Parse(s, SpecialSeps).toks && index == 0
      ensures PrevSeps() == Parse(s, SpecialSeps).lead
    {
      var blanks := ScanWhile(s, Blanks, true, 0);
      var begin := ScanWhile(s, SpecialSeps, true, blanks);
      var end := ScanWhile(s, SpecialSeps, false, begin);
      str, mode := s, SpecialSeps;
      toks, index := Parse(s, SpecialSeps).toks, 0;
      wordBegin, prevWordEnd, wordSize := begin, 0, end - begin;
      new;
      BlanksFirst(s, blanks, begin);
      assert s[0..begin] == s[..begin];
    }

    predicate AtEnd()
      reads this
      requires Valid()
      ensures AtEnd() <==> index == |toks|
    {
      CursorView(str, mode, toks, index, prevWordEnd, wordBegin, wordSize);
      wordBegin == |str|
    }

    /** Dereferencing; past the last word this is the empty view. */
    function View(): (w: string)
      reads this
      requires Valid()
      ensures w == if index == |toks| then "" else toks[index].word
    {
      CursorView(str, mode, toks, index, prevWordEnd, wordBegin, wordSize);
      str[wordBegin..][..wordSize]
    }

    function PrevSeps(): (seps: string)
      reads this
      requires Valid()
      ensures AllSep(seps, mode, true)
    {
      str[prevWordEnd..wordBegin]
    }

    method NextSeps() returns (seps: string)
      requires Valid()
      ensures seps == if index == |toks| then "" else toks[index].seps
    {
      CursorView(str, mode, toks, index, prevWordEnd, wordBegin, wordSize);
      var wordEnd := wordBegin + wordSize;
      if wordEnd == |str| {
        seps := "";
        if index < |toks| {
          CursorStep(str, mode, toks, index, prevWordEnd, wordBegin, wordSize, wordEnd, wordEnd);
        }
      } else {
        var next := ScanWhile(str, mode, true, wordEnd);
        CursorStep(str, mode, toks, index, prevWordEnd, wordBegin, wordSize, wordEnd, next);
        seps := str[wordEnd..next];
      }
    }

    method Advance()
      requires Valid() && !AtEnd()
      modifies this
      ensures Valid()
      ensures wordBegin > old(wordBegin)
      ensures index == old(index) + 1
      ensures PrevSeps() == toks[index - 1].seps
    {
      hide CursorAt, SpanLen;
      CursorView(str, mode, toks, index, prevWordEnd, wordBegin, wordSize);
      var wordEnd := wordBegin + wordSize;
      var next := wordEnd;
      if wordEnd != |str| {
        next := ScanWhile(str, mode, true, wordEnd);
      }
      var end := ScanWhile(str, mode, false, next);
      CursorStep(str, mode, toks, index, prevWordEnd, wordBegin, wordSize, wordEnd, next);
      prevWordEnd, wordBegin, wordSize := wordEnd, next, end - next;
      index := index + 1;
    }
  }

  lemma BlankIsSpecial(c: char)
    requires IsSep(Blanks, c)
    ensures IsSep(SpecialSeps, c)
  {
  }

  /** Skipping blanks first makes no difference, blanks being special separators. */
  lemma BlanksFirst(s: string, blanks: nat, begin: nat)
    requires blanks == SpanLen(s[0..], Blanks, true) <= |s|
    requires begin == blanks + SpanLen(s[blanks..], SpecialSeps, true)
    ensures begin == SpanLen(s, SpecialSeps, true)
  {
    hide IsSep, SpanLen;
    forall k | 0 <= k < begin ensures IsSep(SpecialSeps, s[..begin][k]) {
      if k < blanks {
        assert IsSep(Blanks, s[0..][k]);
        BlankIsSpecial(s[k]);
      } else {
        assert s[k] == s[blanks..][k - blanks];
      }
    }
    assert begin < |s| ==> s[begin] == s[blanks..][begin - blanks];
    SpanLenUnique(s, SpecialSeps, true, begin);
  }

  // ---------------------------------------------- words between special separators

  function ParseLine(s: string): Parsed {
    Parse(s, SpecialSeps)
  }

  function Words(s: string): (ws: seq<string>)
    ensures |ws| == |ParseLine(s).toks|
  {
    var toks := ParseLine(s).toks;
    seq(|toks|, i requires 0 <= i < |toks| => toks[i].word)
  }

  /** Number of steps from the first word to the end. */
  method CountTokens(s: string) returns (n: nat)
    ensures n == |Words(s)|
  {
    var it := new WordIterator.Special(s);
    n := 0;
    while !it.AtEnd()
      invariant it.Valid()
      invariant n == it.index
      decreases |s| - it.wordBegin
    {
      it.Advance();
      n := n + 1;
    }
  }
}

/**
 The offline correction of a template: wildcards whose tokens are in bijection
 with those of another wildcard get their tokens back
 (`split_templ` of flt/templating/online_templater.hpp).

 Everything here is a function of the template and its parameter table. The rows
 the table was made from only appear in the lemmas.
*/
module Splitting {
  import opened ParamTables

  predicate IsPlainChar(c: char) {
    'a' <= c <= 'z' || 'A' <= c <= 'Z' || '0' <= c <= '9' || c == ':'
  }

  /** A token with a special character may be a parameter. */
  predicate IsPossibleParam(token: string) {
    exists k :: 0 <= k < |token| && !IsPlainChar(token[k])
  }

  /** Codes of the characters that a word which cannot be a parameter consists of: digits
      and the colon behind them, capital and small letters. */
  lemma ParamsAre(token: string)
    ensures IsPossibleParam(token) <==>
      exists c :: c in token && !(48 <= c as int <= 58 || 65 <= c as int <= 90 || 97 <= c as int <= 122)
  {
    if c :| c in token && !(48 <= c as int <= 58 || 65 <= c as int <= 90 || 97 <= c as int <= 122) {
      var k :| 0 <= k < |token| && token[k] == c;
      assert !IsPlainChar(token[k]);
    }
    if IsPossibleParam(token) {
      var k :| 0 <= k < |token| && !IsPlainChar(token[k]);
      assert token[k] in token;
    }
  }

  // ---------------------------------------------------- which positions to restore

  /** All entries have tokens at the positions `at`. */
  predicate Covers(table: Table, at: set<nat>) {
    forall e, p :: e in table && p in at ==> p in e
  }

  predicate OnlyParams(table: Table, p: nat)
    requires forall e :: e in table ==> p in e
  {
    forall e :: e in table ==> IsPossibleParam(e[p])
  }

  function WordPositions(table: Table, at: set<nat>): set<nat>
    requires Covers(table, at)
  {
    set p | p in at && !OnlyParams(table, p)
  }

  function ParamPositions(table: Table, at: set<nat>): set<nat>
    requires Covers(table, at)
  {
    set p | p in at && OnlyParams(table, p)
  }

  function Count(table: Table, p: nat): nat {
    |TokensAt(table, p)|
  }

  /** The positions with as many distinct tokens as `p`. */
  function Group(table: Table, positions: set<nat>, count: nat): set<nat> {
    set p | p in positions && Count(table, p) == count
  }

  /** The source compares the size of a group with `templ_length_ - 2` in unsigned
      arithmetic of 32 bits. */
  predicate SizeOk(size: nat, templLength: nat) {
    2 <= size <= (templLength - 2) % 0x1_0000_0000
  }

  predicate SameTokens(table: Table, p: nat, q: nat)
    requires forall e :: e in table ==> p in e && q in e
  {
    forall e :: e in table ==> e[p] == e[q]
  }

  /** Two different positions of one group of acceptable size, not all parameters. */
  predicate Comparable(table: Table, at: set<nat>, templLength: nat, p: nat, q: nat)
    requires Covers(table, at)
  {
    var words := WordPositions(table, at);
    && p in words && q in words && p != q
    && Count(table, p) == Count(table, q)
    && SizeOk(|Group(table, words, Count(table, p))|, templLength)
  }

  /** Positions with a proper bijection to a comparable one, and equal to none. */
  ghost function WordBijections(table: Table, at: set<nat>, templLength: nat): set<nat>
    requires Covers(table, at)
  {
    set p | p in at
         && (exists q :: q in at && Comparable(table, at, templLength, p, q)
               && Bijective(table, p, q) && !SameTokens(table, p, q))
         && !(exists q :: q in at && Comparable(table, at, templLength, p, q) && SameTokens(table, p, q))
  }

  /** Positions of parameters in bijection with one of those. */
  ghost function ParamBijections(table: Table, at: set<nat>, templLength: nat): set<nat>
    requires Covers(table, at)
  {
    set q | q in ParamPositions(table, at)
         && exists p :: p in WordBijections(table, at, templLength)
               && Count(table, p) == Count(table, q) && Bijective(table, p, q)
  }

  ghost function Restored(table: Table, at: set<nat>, templLength: nat): set<nat>
    requires Covers(table, at)
  {
    WordBijections(table, at, templLength) + ParamBijections(table, at, templLength)
  }

  /** No position is restored on its own account. */
  lemma RestoredHasPartner(table: Table, at: set<nat>, templLength: nat, p: nat)
    requires Covers(table, at) && p in Restored(table, at, templLength)
    ensures exists q :: q in at && q != p && Bijective(table, p, q)
  {
    hide Bijective, OnlyParams, Count, Group, SizeOk, SameTokens;
    if p in WordBijections(table, at, templLength) {
      var q :| q in at && Comparable(table, at, templLength, p, q) && Bijective(table, p, q);
      assert q != p;
    } else {
      var q :| q in WordBijections(table, at, templLength) && Bijective(table, q, p);
      BijectiveSymmetric(table, q, p);
      assert q in WordPositions(table, at) && p in ParamPositions(table, at);
    }
  }

  lemma BijectiveSymmetric(table: Table, p: nat, q: nat)
    requires forall e :: e in table ==> p in e && q in e
    ensures Bijective(table, p, q) <==> Bijective(table, q, p)
  {
  }

  // ------------------------------------------------------------------ new templates

  /** The template with the tokens of an entry at the restored positions. */
  function Specialise(templ: Row, e: Entry, restored: set<nat>): (s: Row)
    requires restored <= e.Keys
    ensures |s| == |templ|
  {
    seq(|templ|, p requires 0 <= p < |templ| => if p in restored then e[p] else templ[p])
  }

  ghost function SplitRows(templ: Row, table: Table, restored: set<nat>): set<Row>
    requires Covers(table, restored)
  {
    set e | e in table :: Specialise(templ, e, restored)
  }

  /** The tokens stored for a wildcard of a new template: those of the entries that
      give this template, or "*" where the position was given up. */
  ghost function SplitParams(templ: Row, table: Table, exceeded: set<nat>, restored: set<nat>, s: Row)
    : (stored: map<nat, set<string>>)
    requires Covers(table, restored)
    requires Covers(table, Wild(templ) - exceeded)
    ensures stored.Keys == Wild(templ) - restored
  {
    map p | p in Wild(templ) - restored ::
      if p in exceeded then {"*"} else SplitTokens(templ, table, restored, s, p)
  }

  ghost function SplitTokens(templ: Row, table: Table, restored: set<nat>, s: Row, p: nat): set<string>
    requires Covers(table, restored)
    requires Covers(table, {p})
  {
    set e | e in table && Specialise(templ, e, restored) == s :: e[p]
  }

  // ------------------------------------------------- splitting against the history

  /** The table of a template that has learned from more than one row. */
  ghost predicate LearnedTable(templ: Row, rows: seq<Row>, exceeded: set<nat>, table: Table) {
    Learned(templ, rows, exceeded, table) && |rows| > 1
  }

  /** A tracked wildcard has seen at least two tokens, and the table shows it. */
  lemma TwoTokens(templ: Row, rows: seq<Row>, exceeded: set<nat>, table: Table, p: nat)
    requires LearnedTable(templ, rows, exceeded, table) && p in Wild(templ) - exceeded
    ensures exists d, e :: d in table && e in table && p in d && p in e && d[p] != e[p]
  {
    var at := Wild(templ) - exceeded;
    assert rows[0] in rows && |rows[0]| == |templ|;
    assert rows[0][p] in rows[0];
    assert !Agree(rows, p);
    var r, r' :| r in rows && r' in rows && r[p] != r'[p];
    var d, e := Project(r, at), Project(r', at);
    assert d in table && e in table && d[p] != e[p];
  }

  /** No word of any row is the wildcard. */
  ghost predicate Plain(rows: seq<Row>) {
    forall r :: r in rows ==> WILDCARD !in r
  }

  /** A row behind an entry. */
  lemma EntryRow(templ: Row, rows: seq<Row>, exceeded: set<nat>, table: Table, e: Entry) returns (r: Row)
    requires LearnedTable(templ, rows, exceeded, table) && e in table
    ensures r in rows && Matches(templ, r)
    ensures e.Keys == Wild(templ) - exceeded
    ensures forall p :: p in e ==> e[p] == r[p]
  {
    r :| r in rows && e == Project(r, Wild(templ) - exceeded);
    LeastGeneral(templ, rows);
  }

  /** The template with the words of a row at the restored positions. */
  function Restore(templ: Row, r: Row, restored: set<nat>): (s: Row)
    requires |r| == |templ|
    ensures |s| == |templ|
  {
    seq(|templ|, p requires 0 <= p < |templ| => if p in restored then r[p] else templ[p])
  }

  /** The new templates are those the rows themselves give. */
  lemma SplitRowsAreRestored(templ: Row, rows: seq<Row>, exceeded: set<nat>, table: Table, restored: set<nat>)
    requires LearnedTable(templ, rows, exceeded, table)
    requires restored <= Wild(templ) - exceeded && Covers(table, restored)
    ensures forall r :: r in rows ==> |r| == |templ| && Restore(templ, r, restored) in SplitRows(templ, table, restored)
    ensures forall s :: s in SplitRows(templ, table, restored) ==>
      exists r :: r in rows && |r| == |templ| && s == Restore(templ, r, restored)
  {
    hide LearnedTable, SplitRows, Restore, Covers, Wild;
    forall r | r in rows
      ensures |r| == |templ| && Restore(templ, r, restored) in SplitRows(templ, table, restored)
    {
      RowGives(templ, rows, exceeded, table, restored, r);
    }
    forall s | s in SplitRows(templ, table, restored)
      ensures exists r :: r in rows && |r| == |templ| && s == Restore(templ, r, restored)
    {
      var r := RowBehind(templ, rows, exceeded, table, restored, s);
    }
  }

  lemma RowGives(templ: Row, rows: seq<Row>, exceeded: set<nat>, table: Table, restored: set<nat>, r: Row)
    requires LearnedTable(templ, rows, exceeded, table)
    requires restored <= Wild(templ) - exceeded && Covers(table, restored) && r in rows
    ensures |r| == |templ| && Restore(templ, r, restored) in SplitRows(templ, table, restored)
  {
    var e := Project(r, Wild(templ) - exceeded);
    assert e in table;
    hide LearnedTable;
    assert Restore(templ, r, restored) == Specialise(templ, e, restored);
  }

  lemma RowBehind(templ: Row, rows: seq<Row>, exceeded: set<nat>, table: Table, restored: set<nat>, s: Row)
    returns (r: Row)
    requires LearnedTable(templ, rows, exceeded, table)
    requires restored <= Wild(templ) - exceeded && Covers(table, restored) && s in SplitRows(templ, table, restored)
    ensures r in rows && |r| == |templ| && s == Restore(templ, r, restored)
  {
    hide LearnedTable;
    var e :| e in table && s == Specialise(templ, e, restored);
    r := EntryRow(templ, rows, exceeded, table, e);
  }

  /** The rows have the same words at these positions. */
  predicate SameAt(r: Row, x: Row, at: set<nat>) {
    forall p :: p in at ==> p < |r| && p < |x| && r[p] == x[p]
  }

  /** The first row, taken as a template, matches the second one at these positions. */
  predicate ReadsAs(r: Row, x: Row, at: set<nat>) {
    forall p :: p in at ==> p < |r| && p < |x| && (r[p] == WILDCARD || r[p] == x[p])
  }

  lemma RestoreSays(templ: Row, restored: set<nat>, r: Row, x: Row)
    requires Matches(templ, r) && Matches(templ, x) && restored <= Wild(templ)
    ensures Matches(Restore(templ, r, restored), x) <==> ReadsAs(r, x, restored)
    ensures Restore(templ, r, restored) == Restore(templ, x, restored) <==> SameAt(r, x, restored)
  {
    var s, s' := Restore(templ, r, restored), Restore(templ, x, restored);
    assert forall p :: p in restored ==> s[p] == r[p] && s'[p] == x[p];
    assert forall p :: 0 <= p < |templ| && p !in restored ==> s[p] == templ[p] == s'[p];
  }

  /** At most one new template matches the row. */
  ghost predicate MatchedOnce(templ: Row, table: Table, restored: set<nat>, row: Row)
    requires Covers(table, restored)
  {
    forall s, s' :: (
      s in SplitRows(templ, table, restored) && s' in SplitRows(templ, table, restored)
      && Matches(s, row) && Matches(s', row)) ==> s == s'
  }

  /** No row reads as this one at the restored positions unless it has its words there. */
  ghost predicate Unmistakable(rows: seq<Row>, restored: set<nat>, row: Row) {
    forall r :: r in rows && ReadsAs(r, row, restored) ==> SameAt(r, row, restored)
  }

  /** No line is lost: the words of a row give a template that matches the row. It is the
      only new template that does exactly if no other row, by a wildcard among its words
      at the restored positions, can be mistaken for it: put back as a word, the wildcard
      matches everything again. */
  lemma SplitCoversOnce(templ: Row, rows: seq<Row>, exceeded: set<nat>, table: Table, restored: set<nat>, row: Row)
    requires LearnedTable(templ, rows, exceeded, table)
    requires restored <= Wild(templ) - exceeded && Covers(table, restored)
    requires row in rows
    ensures exists s :: s in SplitRows(templ, table, restored) && Matches(s, row)
    ensures MatchedOnce(templ, table, restored, row) <==> Unmistakable(rows, restored, row)
    ensures Plain(rows) ==> MatchedOnce(templ, table, restored, row)
  {
    SplitRowsAreRestored(templ, rows, exceeded, table, restored);
    LeastGeneral(templ, rows);
    hide LearnedTable, Covers, Matches, Plain, ReadsAs, SameAt, SplitRows, Restore;
    assert Matches(templ, row);
    RestoreSays(templ, restored, row, row);
    SameIsReadAs(row, restored, |templ|);
    forall r | r in rows && ReadsAs(r, row, restored) && MatchedOnce(templ, table, restored, row)
      ensures SameAt(r, row, restored)
    {
      RestoreSays(templ, restored, r, row);
    }
    if Unmistakable(rows, restored, row) {
      forall s | s in SplitRows(templ, table, restored) && Matches(s, row)
        ensures s == Restore(templ, row, restored)
      {
        var r :| r in rows && |r| == |templ| && s == Restore(templ, r, restored);
        RestoreSays(templ, restored, r, row);
      }
    }
    PlainIsUnmistakable(rows, restored, row);
  }

  lemma SameIsReadAs(row: Row, restored: set<nat>, n: nat)
    requires |row| == n && forall p :: p in restored ==> p < n
    ensures ReadsAs(row, row, restored) && SameAt(row, row, restored)
  {
  }

  lemma PlainIsUnmistakable(rows: seq<Row>, restored: set<nat>, row: Row)
    ensures Plain(rows) ==> Unmistakable(rows, restored, row)
  {
    if Plain(rows) {
      forall r | r in rows && ReadsAs(r, row, restored) ensures SameAt(r, row, restored) {
        assert forall p :: p in restored ==> r[p] in r;
      }
    }
  }

  /** Every new template stems from a row and is more specific: it has lost restored
      wildcards and gained none. It has lost exactly those where its row does not have
      the wildcard as a word. */
  lemma SplitIsSpecific(templ: Row, rows: seq<Row>, exceeded: set<nat>, table: Table, restored: set<nat>, s: Row)
    requires LearnedTable(templ, rows, exceeded, table)
    requires restored <= Wild(templ) - exceeded && Covers(table, restored)
    requires s in SplitRows(templ, table, restored)
    ensures exists r :: r in rows && Matches(s, r) && Wild(s) == Wild(templ) - (restored - Wild(r))
    ensures Wild(templ) - restored <= Wild(s) <= Wild(templ)
    ensures Plain(rows) ==> Wild(s) == Wild(templ) - restored
    ensures forall x :: Matches(s, x) ==> Matches(templ, x)
  {
    hide LearnedTable;
    var e :| e in table && s == Specialise(templ, e, restored);
    var r := EntryRow(templ, rows, exceeded, table, e);
    assert Matches(s, r);
    if Plain(rows) {
      forall p | 0 <= p < |r| ensures r[p] != WILDCARD {
        assert r[p] in r;
      }
      assert Wild(r) == {};
    }
  }

  /** All new templates have lost exactly the restored wildcards if and only if no row has
      the wildcard as a word at a restored position. */
  lemma SplitClearsIff(templ: Row, rows: seq<Row>, exceeded: set<nat>, table: Table, restored: set<nat>)
    requires LearnedTable(templ, rows, exceeded, table)
    requires restored <= Wild(templ) - exceeded && Covers(table, restored)
    ensures (forall s :: s in SplitRows(templ, table, restored) ==> Wild(s) == Wild(templ) - restored)
       <==> forall r :: r in rows ==> restored !! Wild(r)
  {
    SplitRowsAreRestored(templ, rows, exceeded, table, restored);
    hide LearnedTable, Covers, SplitRows, Restore;
    forall r | r in rows && |r| == |templ|
      ensures Wild(Restore(templ, r, restored)) == Wild(templ) - restored <==> restored !! Wild(r)
    {
      RestoredWild(templ, r, restored);
    }
  }

  lemma RestoredWild(templ: Row, r: Row, restored: set<nat>)
    requires |r| == |templ| && restored <= Wild(templ)
    ensures Wild(Restore(templ, r, restored)) == (Wild(templ) - restored) + (restored * Wild(r))
  {
  }

  /** Which lines the new templates match: those the old template matches whose words
      at the restored positions occur together in the table. A line learned after the
      split that brings a new combination is matched by none of them until the next
      split. */
  lemma SplitMatchesExactly(templ: Row, rows: seq<Row>, exceeded: set<nat>, table: Table, restored: set<nat>, x: Row)
    requires LearnedTable(templ, rows, exceeded, table)
    requires restored <= Wild(templ) - exceeded && Covers(table, restored)
    ensures (exists s :: s in SplitRows(templ, table, restored) && Matches(s, x))
       <==> Matches(templ, x) && exists e :: e in table && AgreesAt(e, x, restored)
  {
    hide LearnedTable;
    if Matches(templ, x) && exists e :: e in table && AgreesAt(e, x, restored) {
      var e :| e in table && AgreesAt(e, x, restored);
      assert Matches(Specialise(templ, e, restored), x);
      assert Specialise(templ, e, restored) in SplitRows(templ, table, restored);
    }
    if s :| s in SplitRows(templ, table, restored) && Matches(s, x) {
      SplitIsSpecific(templ, rows, exceeded, table, restored, s);
      var e :| e in table && s == Specialise(templ, e, restored);
      assert AgreesAt(e, x, restored);
    }
  }

  /** The entry has the words of the row at these positions; a wildcard in the table
      agrees with any word. */
  predicate AgreesAt(e: Entry, x: Row, at: set<nat>) {
    forall p :: p in at ==> p in e && p < |x| && (e[p] == WILDCARD || e[p] == x[p])
  }

  /** A split gives at least two templates. */
  lemma SplitIsProper(templ: Row, rows: seq<Row>, exceeded: set<nat>, table: Table, restored: set<nat>)
    requires LearnedTable(templ, rows, exceeded, table)
    requires restored <= Wild(templ) - exceeded && Covers(table, restored) && restored != {}
    ensures |SplitRows(templ, table, restored)| >= 2
  {
    hide Learned, LearnedTable, TokensAt;
    var p: nat :| p in restored;
    TwoTokens(templ, rows, exceeded, table, p);
    var d, e :| d in table && e in table && p in d && p in e && d[p] != e[p];
    var s, s' := Specialise(templ, d, restored), Specialise(templ, e, restored);
    assert s[p] != s'[p];
    FewerElements({s, s'}, SplitRows(templ, table, restored));
  }

  /** What the new templates store at a tracked wildcard is, together, all the
      tokens the old template has seen there. */
  lemma SplitKeepsParams(templ: Row, rows: seq<Row>, exceeded: set<nat>, table: Table, restored: set<nat>, p: nat)
    requires LearnedTable(templ, rows, exceeded, table)
    requires restored <= Wild(templ) - exceeded && Covers(table, restored) && Covers(table, Wild(templ) - exceeded)
    requires p in Wild(templ) - restored - exceeded
    ensures forall s :: p in SplitParams(templ, table, exceeded, restored, s)
    ensures (set s, t | s in SplitRows(templ, table, restored)
                        && t in SplitParams(templ, table, exceeded, restored, s)[p] :: t)
         == SeenAt(rows, p)
  {
    hide LearnedTable, SplitTokens;
    LearnedTokens(templ, rows, exceeded, table, p);
    SplitTokensUnion(templ, table, restored, p);
    var whole := set s, t | s in SplitRows(templ, table, restored)
                            && t in SplitTokens(templ, table, restored, s, p) :: t;
    var parts := set s, t | s in SplitRows(templ, table, restored)
                            && t in SplitParams(templ, table, exceeded, restored, s)[p] :: t;
    assert forall s :: SplitParams(templ, table, exceeded, restored, s)[p] == SplitTokens(templ, table, restored, s, p);
    assert parts == whole;
  }

  lemma LearnedTokens(templ: Row, rows: seq<Row>, exceeded: set<nat>, table: Table, p: nat)
    requires LearnedTable(templ, rows, exceeded, table) && p in Wild(templ) - exceeded
    ensures TokensAt(table, p) == SeenAt(rows, p)
  {
    TokensOfProjections(rows, Wild(templ) - exceeded, p);
  }

  lemma SplitTokensUnion(templ: Row, table: Table, restored: set<nat>, p: nat)
    requires Covers(table, restored) && Covers(table, {p})
    ensures (set s, t | s in SplitRows(templ, table, restored) && t in SplitTokens(templ, table, restored, s, p) :: t)
         == TokensAt(table, p)
  {
    var parts := set s, t | s in SplitRows(templ, table, restored)
                            && t in SplitTokens(templ, table, restored, s, p) :: t;
    forall t | t in TokensAt(table, p) ensures t in parts {
      var e :| e in table && p in e && e[p] == t;
      var s := Specialise(templ, e, restored);
      assert s in SplitRows(templ, table, restored) && t in SplitTokens(templ, table, restored, s, p);
    }
  }

  // ---------------------------------------------------- lines with a wildcard word

  /** A copied entry after it was asked for these positions: for one it does not have,
      the source inserts the empty word. */
  function WithDefaults(e: Entry, at: set<nat>): Entry {
    map p | p in at :: if p in e then e[p] else ""
  }

  function TableWithDefaults(table: Table, at: set<nat>): (t: Table)
    ensures Covers(t, at)
  {
    set e | e in table :: WithDefaults(e, at)
  }

  const FOUNDER: Row := ["b", WILDCARD, "y", "k", "k"]
  const FOLLOWER: Row := ["a", "c", "x", "k", "k"]
  const NARROW: Entry := map[0 := "b", 2 := "y"]
  const WIDE: Entry := map[0 := "a", 1 := "c", 2 := "x"]

  /** What a split makes of a row, its missing words being empty. */
  function SplitOf(templ: Row, e: Entry, restored: set<nat>): Row {
    Specialise(templ, WithDefaults(e, restored), restored)
  }

  /** Two rows after which the entries of the table differ in width. */
  lemma UnevenTable()
    ensures Merge(FOUNDER, FOLLOWER) == [WILDCARD, WILDCARD, WILDCARD, "k", "k"]
    ensures Stepped(FOUNDER, {}, {}, FOLLOWER, Merge(FOUNDER, FOLLOWER), {}, {NARROW, WIDE})
  {
    var at, lost := {0, 1, 2}, {0, 2};
    FounderMerged();
    FounderProjected();
    hide Merge, NewWild, Wild, Project, Crowded, Drop, Grown;
    assert at - {} == at && lost - {} == lost;
    GrownFirst(NARROW, WIDE, 0);
  }

  lemma FounderMerged()
    ensures Merge(FOUNDER, FOLLOWER) == [WILDCARD, WILDCARD, WILDCARD, "k", "k"]
    ensures Wild(Merge(FOUNDER, FOLLOWER)) == {0, 1, 2} && NewWild(FOUNDER, FOLLOWER) == {0, 2}
  {
    assert Merge(FOUNDER, FOLLOWER) == [WILDCARD, WILDCARD, WILDCARD, "k", "k"];
  }

  lemma FounderProjected()
    ensures Project(FOUNDER, {0, 2}) == NARROW && Project(FOLLOWER, {0, 1, 2}) == WIDE
  {
  }

  lemma GrownFirst(d: Entry, e: Entry, p: nat)
    requires p in d
    ensures Grown({}, d, e) == {d, e} && |{d, e}| <= 2
  {
    assert d != map[];
    assert |{d, e}| <= 2 by {
      if d == e { assert {d, e} == {d}; }
    }
  }

  lemma TwoEntriesWithDefaults(d: Entry, e: Entry, at: set<nat>)
    ensures TableWithDefaults({d, e}, at) == {WithDefaults(d, at), WithDefaults(e, at)}
  {
    hide WithDefaults;
    assert d in {d, e} && e in {d, e};
  }

  lemma TwoTokensAt(d: Entry, e: Entry, p: nat)
    requires p in d && p in e && d[p] != e[p] && !IsPossibleParam(d[p])
    ensures Count({d, e}, p) == 2 && !OnlyParams({d, e}, p)
  {
    hide IsPossibleParam;
    assert TokensAt({d, e}, p) == {d[p], e[p]};
    assert |{d[p], e[p]}| == 2;
    assert d in {d, e};
  }

  lemma PlainWord(t: string)
    requires |t| <= 1 && (t != "" ==> IsPlainChar(t[0]))
    ensures !IsPossibleParam(t)
  {
  }

  /** Positions with two words each, none of them a parameter, are of one group. */
  lemma OneGroup(d: Entry, e: Entry, at: set<nat>)
    requires d.Keys == at && e.Keys == at
    requires forall p :: p in at ==> d[p] != e[p] && !IsPossibleParam(d[p])
    ensures Covers({d, e}, at) && WordPositions({d, e}, at) == at && ParamPositions({d, e}, at) == {}
    ensures Group({d, e}, at, 2) == at && forall p :: p in at ==> Count({d, e}, p) == 2
  {
    hide Count, OnlyParams, IsPossibleParam;
    forall p | p in at ensures Count({d, e}, p) == 2 && !OnlyParams({d, e}, p) {
      TwoTokensAt(d, e, p);
    }
  }

  lemma TwoOfGroup(d: Entry, e: Entry, at: set<nat>, p: nat, q: nat)
    requires d.Keys == at && e.Keys == at && p in at && q in at
    requires d[p] != e[p] && d[q] != e[q] && d[p] != d[q]
    ensures Bijective({d, e}, p, q) && !SameTokens({d, e}, p, q)
  {
    assert d in {d, e};
  }

  lemma InBijections(table: Table, at: set<nat>, n: nat, p: nat, q: nat)
    requires Covers(table, at) && p in at && q in at
    requires Comparable(table, at, n, p, q) && Bijective(table, p, q)
    requires forall r :: r in at && r != p ==> !SameTokens(table, p, r)
    ensures p in WordBijections(table, at, n)
  {
    hide Bijective, SameTokens, Count, Group, WordPositions, SizeOk;
  }

  lemma Compare(d: Entry, e: Entry, at: set<nat>, n: nat, p: nat, q: nat)
    requires |at| == 3 && 5 <= n < 0x1_0000_0000 && d.Keys == at && e.Keys == at
    requires forall r :: r in at ==> d[r] != e[r] && !IsPossibleParam(d[r])
    requires p in at && q in at && p != q
    ensures Covers({d, e}, at) && Comparable({d, e}, at, n, p, q)
  {
    hide Count, IsPossibleParam, WordPositions, ParamPositions, Group, Covers;
    OneGroup(d, e, at);
  }

  /** They are restored together. */
  lemma ThreePositions(d: Entry, e: Entry, at: set<nat>, n: nat)
    requires |at| == 3 && 5 <= n < 0x1_0000_0000 && d.Keys == at && e.Keys == at
    requires forall p :: p in at ==> d[p] != e[p] && !IsPossibleParam(d[p])
    requires forall p, q :: p in at && q in at && p != q ==> d[p] != d[q]
    ensures Covers({d, e}, at) && Restored({d, e}, at, n) == at
  {
    hide *;
    OneGroup(d, e, at);
    forall p | p in at ensures p in WordBijections({d, e}, at, n) {
      assert |at - {p}| == 2;
      var q :| q in at - {p};
      Compare(d, e, at, n, p, q);
      TwoOfGroup(d, e, at, p, q);
      forall r | r in at && r != p ensures !SameTokens({d, e}, p, r) {
        TwoOfGroup(d, e, at, p, r);
      }
      InBijections({d, e}, at, n, p, q);
    }
    AllRestored({d, e}, at, n);
  }

  lemma AllRestored(table: Table, at: set<nat>, n: nat)
    requires Covers(table, at) && ParamPositions(table, at) == {}
    requires forall p :: p in at ==> p in WordBijections(table, at, n)
    ensures Restored(table, at, n) == at
  {
    hide Covers, Comparable, Bijective, SameTokens, Count, OnlyParams;
  }

  /** The narrow entry as the source reads it. */
  lemma NarrowRead()
    ensures WithDefaults(NARROW, {0, 1, 2}) == map[0 := "b", 1 := "", 2 := "y"]
    ensures WithDefaults(WIDE, {0, 1, 2}) == WIDE && WIDE.Keys == {0, 1, 2}
  {
  }

  lemma UnevenIsRestored()
    ensures Restored(TableWithDefaults({NARROW, WIDE}, WIDE.Keys), WIDE.Keys, 5) == {0, 1, 2}
  {
    NarrowRead();
    TwoEntriesWithDefaults(NARROW, WIDE, {0, 1, 2});
    PlainWord("b");
    PlainWord("");
    PlainWord("y");
    hide WithDefaults, TableWithDefaults, Restored, IsPossibleParam;
    var d: Entry := map[0 := "b", 1 := "", 2 := "y"];
    assert |{0, 1, 2}| == 3;
    ThreePositions(d, WIDE, {0, 1, 2}, 5);
  }

  const STARRED: Row := [WILDCARD, WILDCARD, WILDCARD, "k", "k"]
  const STARS: Entry := map[0 := WILDCARD, 1 := WILDCARD, 2 := WILDCARD]

  /** A row that has the wildcard as a word follows a founding row that does not. */
  lemma StarredIsLearned()
    ensures LearnedTable(STARRED, [FOLLOWER, STARRED], {}, {WIDE, STARS})
  {
    hide Generalises, Within, Projections, Wild;
    StarredProjected();
    StarredMerged();
    assert Wild(STARRED) - {} == {0, 1, 2};
  }

  lemma StarredIsRestored()
    ensures Wild(STARRED) == {0, 1, 2}
    ensures Covers({WIDE, STARS}, {0, 1, 2}) && Restored({WIDE, STARS}, {0, 1, 2}, |STARRED|) == {0, 1, 2}
  {
    hide Generalises, Restored, IsPossibleParam;
    StarredMerged();
    PlainWord("a");
    PlainWord("c");
    PlainWord("x");
    assert |{0, 1, 2}| == 3;
    ThreePositions(WIDE, STARS, {0, 1, 2}, 5);
  }

  lemma StarredMerged()
    ensures Generalises(STARRED, [FOLLOWER, STARRED]) && Wild(STARRED) == {0, 1, 2}
  {
    assert STARRED == Merge(FOLLOWER, STARRED);
    MergeGeneralises(FOLLOWER, [FOLLOWER], STARRED);
    assert [FOLLOWER] + [STARRED] == [FOLLOWER, STARRED];
  }

  lemma StarredProjected()
    ensures Within([FOLLOWER, STARRED], {0, 1, 2})
    ensures Projections([FOLLOWER, STARRED], {0, 1, 2}) == {WIDE, STARS} && |{WIDE, STARS}| <= 2
  {
    assert Project(FOLLOWER, {0, 1, 2}) == WIDE && Project(STARRED, {0, 1, 2}) == STARS;
    hide Project;
    TwoProjections(FOLLOWER, STARRED, {0, 1, 2});
    GrownFirst(WIDE, STARS, 0);
  }

  lemma TwoProjections(r: Row, x: Row, at: set<nat>)
    requires forall p :: p in at ==> p < |r| && p < |x|
    ensures Within([r, x], at) && Projections([r, x], at) == {Project(r, at), Project(x, at)}
  {
    hide Project;
    assert [r, x][0] == r && [r, x][1] == x;
  }

  /** Then a row can be matched by two new templates, one of which has lost nothing. */
  lemma SplitMatchesTwice()
    ensures var rows, table, restored := [FOLLOWER, STARRED], {WIDE, STARS}, {0, 1, 2};
      && LearnedTable(STARRED, rows, {}, table) && Covers(table, restored)
      && restored == Restored(table, Wild(STARRED), |STARRED|)
      && !MatchedOnce(STARRED, table, restored, FOLLOWER)
      && exists s :: s in SplitRows(STARRED, table, restored) && Wild(s) == Wild(STARRED)
  {
    hide LearnedTable, Restored, MatchedOnce;
    StarredIsLearned();
    StarredIsRestored();
    var table, restored := {WIDE, STARS}, {0, 1, 2};
    assert STARRED == Specialise(STARRED, STARS, restored);
    assert STARS in table && STARRED in SplitRows(STARRED, table, restored);
    assert ReadsAs(STARRED, FOLLOWER, restored) && !SameAt(STARRED, FOLLOWER, restored);
    assert [FOLLOWER, STARRED][0] == FOLLOWER && [FOLLOWER, STARRED][1] == STARRED;
    SplitCoversOnce(STARRED, [FOLLOWER, STARRED], {}, table, restored, FOLLOWER);
  }

  /** If the row that founds a template has the wildcard as a word, a split can lose that
      row: the source takes the positions from the first entry in the order of maps, here
      the wider one, and none of the new templates matches the row. */
  lemma SplitLosesFounder()
    ensures var templ, table := Merge(FOUNDER, FOLLOWER), {NARROW, WIDE};
      && Stepped(FOUNDER, {}, {}, FOLLOWER, templ, {}, table)
      && Restored(TableWithDefaults(table, WIDE.Keys), WIDE.Keys, |templ|) == {0, 1, 2}
      && forall e :: e in table ==> !Matches(SplitOf(templ, e, {0, 1, 2}), FOUNDER)
  {
    hide WithDefaults, TableWithDefaults, Restored, Stepped, Merge;
    UnevenTable();
    UnevenIsRestored();
    NarrowRead();
    var templ := Merge(FOUNDER, FOLLOWER);
    assert SplitOf(templ, NARROW, {0, 1, 2})[1] == "" && SplitOf(templ, WIDE, {0, 1, 2})[0] == "a";
  }
}

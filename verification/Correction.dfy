/**
 Which wildcards a split puts back, in terms of the lines a template was learned from
 (step 2 of `split_templ`, flt/templating/online_templater.hpp). The source has the
 parameter table only; here neither the table nor its groups are named.
*/
module Corrections {
  import opened ParamTables
  import opened Splitting

  function WordOf(r: Row, p: nat): string {
    if p < |r| then r[p] else ""
  }

  /** The words at one position tell lines apart exactly as those at the other do. */
  ghost predicate Paired(rows: seq<Row>, p: nat, q: nat) {
    forall r, x :: r in rows && x in rows ==> (WordOf(r, p) == WordOf(x, p) <==> WordOf(r, q) == WordOf(x, q))
  }

  ghost predicate Same(rows: seq<Row>, p: nat, q: nat) {
    forall r :: r in rows ==> WordOf(r, p) == WordOf(r, q)
  }

  /** Some line has a word there that cannot be a parameter. */
  ghost predicate SeesWord(rows: seq<Row>, p: nat) {
    exists r :: r in rows && !IsPossibleParam(WordOf(r, p))
  }

  /** The positions that see words, and as many different ones as `p`. */
  ghost function Crowd(rows: seq<Row>, at: set<nat>, p: nat): set<nat> {
    set q | q in at && SeesWord(rows, q) && |SeenAt(rows, q)| == |SeenAt(rows, p)|
  }

  /** A position that sees words is put back if it is paired with another such position
      and always equal to none with as many different words. These may be at most the
      number of words less two, in unsigned arithmetic of 32 bits. */
  ghost predicate WordPutBack(rows: seq<Row>, at: set<nat>, n: nat, p: nat) {
    && p in at && SeesWord(rows, p)
    && |Crowd(rows, at, p)| <= (n - 2) % 0x1_0000_0000
    && (exists q :: q in at && q != p && SeesWord(rows, q) && Paired(rows, p, q))
    && (forall q :: q in Crowd(rows, at, p) && q != p ==> !Same(rows, p, q))
  }

  /** So is a position of parameters that is paired with one of those. */
  ghost predicate PutBack(rows: seq<Row>, at: set<nat>, n: nat, p: nat) {
    || WordPutBack(rows, at, n, p)
    || (p in at && !SeesWord(rows, p) && exists q :: WordPutBack(rows, at, n, q) && Paired(rows, p, q))
  }

  // --------------------------------------------------------- the table says the same

  lemma TableSays(rows: seq<Row>, at: set<nat>, p: nat)
    requires Within(rows, at) && p in at
    ensures var table := Projections(rows, at);
      && Covers(table, at) && Count(table, p) == |SeenAt(rows, p)|
      && (OnlyParams(table, p) <==> !SeesWord(rows, p))
  {
    hide IsPossibleParam;
    var table := Projections(rows, at);
    TokensOfProjections(rows, at, p);
    forall r | r in rows ensures Project(r, at) in table && Project(r, at)[p] == WordOf(r, p) {
    }
  }

  /** An entry of the table and a row behind it. */
  lemma EntryOfRow(rows: seq<Row>, at: set<nat>, r: Row, p: nat)
    requires Within(rows, at) && r in rows && p in at
    ensures Project(r, at) in Projections(rows, at) && p in Project(r, at) && Project(r, at)[p] == WordOf(r, p)
  {
  }

  lemma RowOfEntry(rows: seq<Row>, at: set<nat>, e: Entry) returns (r: Row)
    requires Within(rows, at) && e in Projections(rows, at)
    ensures r in rows && e == Project(r, at)
    ensures forall p :: p in at ==> p in e && e[p] == WordOf(r, p)
  {
    r :| r in rows && e == Project(r, at);
  }

  lemma TableSame(rows: seq<Row>, at: set<nat>, p: nat, q: nat)
    requires Within(rows, at) && p in at && q in at && Covers(Projections(rows, at), at)
    ensures SameTokens(Projections(rows, at), p, q) <==> Same(rows, p, q)
  {
    hide Projections, Project, WordOf;
    var table := Projections(rows, at);
    forall r | r in rows && SameTokens(table, p, q) ensures WordOf(r, p) == WordOf(r, q) {
      EntryOfRow(rows, at, r, p);
      EntryOfRow(rows, at, r, q);
    }
    forall e | e in table && Same(rows, p, q) ensures e[p] == e[q] {
      var r := RowOfEntry(rows, at, e);
    }
  }

  lemma TableDetermines(rows: seq<Row>, at: set<nat>, p: nat, q: nat)
    requires Within(rows, at) && p in at && q in at && Covers(Projections(rows, at), at)
    ensures Determines(Projections(rows, at), p, q) <==>
      forall r, x :: r in rows && x in rows && WordOf(r, p) == WordOf(x, p) ==> WordOf(r, q) == WordOf(x, q)
  {
    hide Projections, Project, WordOf;
    var table := Projections(rows, at);
    forall r, x | r in rows && x in rows && WordOf(r, p) == WordOf(x, p) && Determines(table, p, q)
      ensures WordOf(r, q) == WordOf(x, q)
    {
      EntryOfRow(rows, at, r, p);
      EntryOfRow(rows, at, r, q);
      EntryOfRow(rows, at, x, p);
      EntryOfRow(rows, at, x, q);
    }
    if forall r, x :: r in rows && x in rows && WordOf(r, p) == WordOf(x, p) ==> WordOf(r, q) == WordOf(x, q) {
      forall d, e | d in table && e in table && d[p] == e[p] ensures d[q] == e[q] {
        var r := RowOfEntry(rows, at, d);
        var x := RowOfEntry(rows, at, e);
      }
    }
  }

  lemma TablePairs(rows: seq<Row>, at: set<nat>, p: nat, q: nat)
    requires Within(rows, at) && p in at && q in at && Covers(Projections(rows, at), at)
    ensures Bijective(Projections(rows, at), p, q) <==> Paired(rows, p, q)
  {
    hide Projections, WordOf, Determines;
    TableDetermines(rows, at, p, q);
    TableDetermines(rows, at, q, p);
  }

  /** Paired positions have as many different words. */
  lemma PairedCounts(rows: seq<Row>, p: nat, q: nat)
    requires Paired(rows, p, q) && forall r :: r in rows ==> p < |r| && q < |r|
    ensures |SeenAt(rows, p)| == |SeenAt(rows, q)|
  {
    PairedNoMore(rows, p, q);
    PairedNoMore(rows, q, p);
  }

  /** The word at `q` that goes with a word at `p`. */
  ghost function Partner(rows: seq<Row>, p: nat, q: nat, t: string): string {
    if exists r :: r in rows && WordOf(r, p) == t
    then (var r :| r in rows && WordOf(r, p) == t; WordOf(r, q)) else ""
  }

  lemma PartnerIs(rows: seq<Row>, p: nat, q: nat, r: Row)
    requires Paired(rows, p, q) && r in rows
    ensures Partner(rows, p, q, WordOf(r, p)) == WordOf(r, q)
  {
    hide WordOf;
  }

  lemma PairedNoMore(rows: seq<Row>, p: nat, q: nat)
    requires Paired(rows, p, q) && forall r :: r in rows ==> p < |r| && q < |r|
    ensures |SeenAt(rows, q)| <= |SeenAt(rows, p)|
  {
    hide Paired, Partner;
    var f := (t: string) => Partner(rows, p, q, t);
    ImageSize(f, SeenAt(rows, p));
    forall t | t in SeenAt(rows, q) ensures t in Image(f, SeenAt(rows, p)) {
      var r :| r in rows && r[q] == t;
      PartnerIs(rows, p, q, r);
      assert WordOf(r, p) in SeenAt(rows, p) && f(WordOf(r, p)) == t;
    }
    FewerElements(SeenAt(rows, q), Image(f, SeenAt(rows, p)));
  }

  // -------------------------------------------------------------- the two steps agree

  lemma CrowdIsGroup(rows: seq<Row>, at: set<nat>, p: nat)
    requires Within(rows, at) && p in at && Covers(Projections(rows, at), at)
    ensures var table := Projections(rows, at);
      Group(table, WordPositions(table, at), Count(table, p)) == Crowd(rows, at, p)
  {
    hide Projections, Count, OnlyParams, SeesWord, SeenAt;
    forall q | q in at
      ensures Count(Projections(rows, at), q) == |SeenAt(rows, q)|
      ensures OnlyParams(Projections(rows, at), q) <==> !SeesWord(rows, q)
    {
      TableSays(rows, at, q);
    }
  }

  /** Two positions that are comparable, in terms of the lines. */
  lemma ComparableSays(rows: seq<Row>, at: set<nat>, n: nat, p: nat, q: nat)
    requires Within(rows, at) && p in at && q in at && Covers(Projections(rows, at), at)
    ensures Comparable(Projections(rows, at), at, n, p, q) <==>
      && SeesWord(rows, p) && q != p && q in Crowd(rows, at, p)
      && 2 <= |Crowd(rows, at, p)| <= (n - 2) % 0x1_0000_0000
  {
    TableSays(rows, at, p);
    TableSays(rows, at, q);
    CrowdIsGroup(rows, at, p);
    hide Projections, Count, OnlyParams, SeesWord, SeenAt, Group;
  }

  lemma TwoInCrowd(rows: seq<Row>, at: set<nat>, p: nat, q: nat)
    requires p in at && q in at && p != q && SeesWord(rows, p) && SeesWord(rows, q) && Within(rows, at)
    requires Paired(rows, p, q)
    ensures q in Crowd(rows, at, p) && |Crowd(rows, at, p)| >= 2
  {
    hide SeesWord, SeenAt, Paired;
    PairedCounts(rows, p, q);
    FewerElements({p, q}, Crowd(rows, at, p));
    assert |{p, q}| == 2;
  }

  lemma WordsPutBack(rows: seq<Row>, at: set<nat>, n: nat, p: nat)
    requires Within(rows, at) && Covers(Projections(rows, at), at)
    ensures p in WordBijections(Projections(rows, at), at, n) <==> WordPutBack(rows, at, n, p)
  {
    hide Projections, Comparable, SameTokens, Bijective, Crowd, SeesWord, Paired, Same;
    var table := Projections(rows, at);
    if p in at {
      forall q | q in at
        ensures Comparable(table, at, n, p, q) <==>
          && SeesWord(rows, p) && q != p && q in Crowd(rows, at, p)
          && 2 <= |Crowd(rows, at, p)| <= (n - 2) % 0x1_0000_0000
        ensures SameTokens(table, p, q) <==> Same(rows, p, q)
        ensures Bijective(table, p, q) <==> Paired(rows, p, q)
      {
        ComparableSays(rows, at, n, p, q);
        TableSame(rows, at, p, q);
        TablePairs(rows, at, p, q);
      }
      CrowdIsTracked(rows, at, p);
      if WordPutBack(rows, at, n, p) {
        var q :| q in at && q != p && SeesWord(rows, q) && Paired(rows, p, q);
        TwoInCrowd(rows, at, p, q);
        assert Comparable(table, at, n, p, q);
      }
    }
  }

  lemma CrowdIsTracked(rows: seq<Row>, at: set<nat>, p: nat)
    ensures forall q :: q in Crowd(rows, at, p) ==> q in at && SeesWord(rows, q)
  {
  }

  lemma PairedSymmetric(rows: seq<Row>, p: nat, q: nat)
    ensures Paired(rows, p, q) <==> Paired(rows, q, p)
  {
  }

  /** The source restores exactly the positions that are put back according to the lines. */
  lemma RestoredIsPutBack(rows: seq<Row>, at: set<nat>, n: nat, p: nat)
    requires Within(rows, at)
    ensures Covers(Projections(rows, at), at)
    ensures p in Restored(Projections(rows, at), at, n) <==> PutBack(rows, at, n, p)
  {
    ProjectionsCover(rows, at);
    hide Projections, Covers, WordBijections, WordPutBack, Bijective, Paired, Count, SeesWord, OnlyParams, SeenAt;
    var table := Projections(rows, at);
    forall q ensures q in WordBijections(table, at, n) <==> WordPutBack(rows, at, n, q) {
      WordsPutBack(rows, at, n, q);
    }
    WordsAreTracked(rows, at, n);
    if p in at {
      TableSays(rows, at, p);
      forall q | q in at
        ensures Bijective(table, q, p) <==> Paired(rows, p, q)
        ensures Paired(rows, p, q) ==> Count(table, q) == Count(table, p)
      {
        TablePairs(rows, at, q, p);
        PairedSymmetric(rows, p, q);
        TableSays(rows, at, q);
        if Paired(rows, p, q) { PairedCounts(rows, p, q); }
      }
    }
  }

  lemma ProjectionsCover(rows: seq<Row>, at: set<nat>)
    requires Within(rows, at)
    ensures Covers(Projections(rows, at), at)
  {
  }

  lemma WordsAreTracked(rows: seq<Row>, at: set<nat>, n: nat)
    ensures forall q :: WordPutBack(rows, at, n, q) ==> q in at && SeesWord(rows, q)
  {
  }

  // --------------------------------------------------------------- without wrap-around

  /** A position that sees words goes if it is paired with another one, always equal to
      none that sees as many different words, and these are at most two less than there
      are words. */
  ghost predicate GoesAsWord(rows: seq<Row>, wild: set<nat>, n: nat, p: nat) {
    && |Crowd(rows, wild, p)| + 2 <= n
    && (exists q :: q in wild && q != p && SeesWord(rows, q) && Paired(rows, p, q))
    && (forall q :: q in Crowd(rows, wild, p) && q != p ==> !Same(rows, p, q))
  }

  /** Exactly these positions are put back: those, and the positions of parameters that
      are paired with one of them. */
  ghost predicate RightPutBack(rows: seq<Row>, wild: set<nat>, n: nat, back: set<nat>) {
    forall p :: p in back <==> p in wild && IsRight(rows, wild, n, back, p)
  }

  ghost predicate IsRight(rows: seq<Row>, wild: set<nat>, n: nat, back: set<nat>, p: nat) {
    if SeesWord(rows, p) then GoesAsWord(rows, wild, n, p)
    else exists q :: q in back && SeesWord(rows, q) && Paired(rows, p, q)
  }

  /** Without wrap-around. */
  lemma WordsGo(rows: seq<Row>, wild: set<nat>, n: nat)
    requires Within(rows, wild) && n < 0x1_0000_0002 && forall p :: p in wild ==> p < n
    ensures forall p :: WordPutBack(rows, wild, n, p) <==>
      p in wild && SeesWord(rows, p) && GoesAsWord(rows, wild, n, p)
  {
    forall p ensures WordPutBack(rows, wild, n, p) <==>
      p in wild && SeesWord(rows, p) && GoesAsWord(rows, wild, n, p)
    {
      WordGoes(rows, wild, n, p);
    }
  }

  lemma WordGoes(rows: seq<Row>, wild: set<nat>, n: nat, p: nat)
    requires Within(rows, wild) && n < 0x1_0000_0002 && forall q :: q in wild ==> q < n
    ensures WordPutBack(rows, wild, n, p) <==> p in wild && SeesWord(rows, p) && GoesAsWord(rows, wild, n, p)
  {
    hide SeesWord, Paired, Same, Crowd;
    if q :| q in wild && p in wild && q != p && SeesWord(rows, p) && SeesWord(rows, q) && Paired(rows, p, q) {
      TwoInCrowd(rows, wild, p, q);
      assert n >= 2;
      assert (n - 2) % 0x1_0000_0000 == n - 2;
    }
  }

  lemma PutBackSays(rows: seq<Row>, wild: set<nat>, n: nat)
    ensures forall p :: PutBack(rows, wild, n, p) <==>
      || WordPutBack(rows, wild, n, p)
      || (p in wild && !SeesWord(rows, p) && exists q :: WordPutBack(rows, wild, n, q) && Paired(rows, p, q))
    ensures forall p :: WordPutBack(rows, wild, n, p) ==> p in wild && SeesWord(rows, p)
  {
    hide SeesWord, Paired, Same, Crowd;
  }

  lemma RightIs(rows: seq<Row>, wild: set<nat>, n: nat, back: set<nat>)
    requires forall p :: p in back <==> PutBack(rows, wild, n, p)
    requires forall p :: PutBack(rows, wild, n, p) <==>
      || WordPutBack(rows, wild, n, p)
      || (p in wild && !SeesWord(rows, p) && exists q :: WordPutBack(rows, wild, n, q) && Paired(rows, p, q))
    requires forall p :: WordPutBack(rows, wild, n, p) <==>
      p in wild && SeesWord(rows, p) && GoesAsWord(rows, wild, n, p)
    ensures RightPutBack(rows, wild, n, back)
  {
    hide SeesWord, GoesAsWord, Paired, PutBack, WordPutBack;
    forall q ensures q in back && SeesWord(rows, q) <==> WordPutBack(rows, wild, n, q) {
    }
  }

  lemma PutBackIsRight(rows: seq<Row>, wild: set<nat>, n: nat, back: set<nat>)
    requires Within(rows, wild) && n < 0x1_0000_0002 && forall p :: p in wild ==> p < n
    requires forall p :: p in back <==> PutBack(rows, wild, n, p)
    ensures RightPutBack(rows, wild, n, back)
  {
    hide *;
    WordsGo(rows, wild, n);
    PutBackSays(rows, wild, n);
    RightIs(rows, wild, n, back);
  }
}

/**
 The loops of `split_templ` that look for bijections
 (flt/templating/online_templater.hpp), proved to find exactly the positions
 that `Splitting` describes.
*/
module BijectionSearch {
  import opened ParamTables
  import opened Splitting

  /** Positions listed by their number of distinct tokens. */
  type Listing = map<nat, seq<nat>>

  ghost predicate Distinct(s: seq<nat>) {
    forall i, j :: 0 <= i < j < |s| ==> s[i] != s[j]
  }

  ghost predicate Lists(groups: Listing, table: Table, positions: set<nat>) {
    && (forall p :: p in positions ==> Count(table, p) in groups)
    && (forall n :: n in groups ==> ListsGroup(groups[n], Group(table, positions, n)))
  }

  ghost predicate ListsGroup(list: seq<nat>, group: set<nat>) {
    Distinct(list) && forall p :: p in list <==> p in group
  }

  lemma {:induction false} ListSize(list: seq<nat>, group: set<nat>)
    requires ListsGroup(list, group)
    ensures |list| == |group|
  {
    if list == [] {
      assert group == {};
    } else {
      assert forall p :: p in list <==> p == list[0] || p in list[1..];
      ListSize(list[1..], group - {list[0]});
    }
  }

  // ---------------------------------------------------------------------- step 1

  /** Number of distinct tokens at a position, and whether all may be parameters. */
  method Inspect(table: Table, p: nat) returns (count: nat, onlyParams: bool)
    requires forall e :: e in table ==> p in e
    ensures count == Count(table, p)
    ensures onlyParams == OnlyParams(table, p)
  {
    var uniq := {};
    onlyParams := true;
    var todo := table;
    ghost var done: Table := {};
    while todo != {}
      invariant done + todo == table
      invariant uniq == TokensAt(done, p)
      invariant onlyParams == OnlyParams(done, p)
    {
      hide *;
      var e :| e in todo;
      OnlyParamsMore(done, e, p);
      TokensAtInsert(done, e, p);
      if onlyParams && !IsPossibleParam(e[p]) {
        onlyParams := false;
      }
      uniq := uniq + {e[p]};
      todo, done := todo - {e}, done + {e};
    }
    assert done == table;
    count := |uniq|;
  }

  lemma OnlyParamsMore(table: Table, e: Entry, p: nat)
    requires p in e && forall d :: d in table ==> p in d
    ensures OnlyParams(table + {e}, p) <==> OnlyParams(table, p) && IsPossibleParam(e[p])
  {
    hide IsPossibleParam;
  }

  function Listed(groups: Listing, n: nat, p: nat): Listing {
    groups[n := (if n in groups then groups[n] else []) + [p]]
  }

  lemma ListMore(groups: Listing, table: Table, positions: set<nat>, p: nat)
    requires Lists(groups, table, positions) && p !in positions
    ensures Lists(Listed(groups, Count(table, p), p), table, positions + {p})
  {
    hide Count;
    var n := Count(table, p);
    var list := if n in groups then groups[n] else [];
    assert ListsGroup(list, Group(table, positions, n));
    assert Group(table, positions + {p}, n) == Group(table, positions, n) + {p};
    assert ListsGroup(list + [p], Group(table, positions + {p}, n)) by {
      assert forall q :: q in list + [p] <==> q in list || q == p;
      assert p !in list;
    }
    forall k | k in groups && k != n
      ensures Group(table, positions + {p}, k) == Group(table, positions, k)
    {
    }
  }

  /** Lists the positions, those with words apart from those with parameters only. */
  method ListPositions(table: Table, at: set<nat>) returns (words: Listing, params: Listing)
    requires Covers(table, at)
    ensures Lists(words, table, WordPositions(table, at))
    ensures Lists(params, table, ParamPositions(table, at))
  {
    hide Lists, Count, OnlyParams, Listed;
    words, params := map[], map[];
    ListNothing(table);
    var todo := at;
    ghost var done: set<nat> := {};
    while todo != {}
      invariant done + todo == at && done !! todo
      invariant Lists(words, table, WordPositions(table, done))
      invariant Lists(params, table, ParamPositions(table, done))
    {
      var p :| p in todo;
      var count, onlyParams := Inspect(table, p);
      ghost var next := done + {p};
      if !onlyParams {
        ListMore(words, table, WordPositions(table, done), p);
        words := Listed(words, count, p);
        assert WordPositions(table, next) == WordPositions(table, done) + {p};
        assert ParamPositions(table, next) == ParamPositions(table, done);
      } else {
        ListMore(params, table, ParamPositions(table, done), p);
        params := Listed(params, count, p);
        assert ParamPositions(table, next) == ParamPositions(table, done) + {p};
        assert WordPositions(table, next) == WordPositions(table, done);
      }
      todo, done := todo - {p}, next;
    }
    assert done == at;
  }

  lemma ListNothing(table: Table)
    ensures Lists(map[], table, WordPositions(table, {}))
    ensures Lists(map[], table, ParamPositions(table, {}))
  {
  }

  // ---------------------------------------------------------------------- step 2

  /** Whether `q` is a function of `p` in the table, leaving the loop at the first
      counterexample. */
  method DeterminesByLoop(table: Table, p: nat, q: nat) returns (possible: bool, same: bool)
    requires forall e :: e in table ==> p in e && q in e
    ensures possible == Determines(table, p, q)
    ensures same == SameTokens(table, p, q)
  {
    possible, same := true, true;
    var pairs: map<string, string> := map[];
    var todo := table;
    ghost var done: Table := {};
    while todo != {}
      invariant done + todo == table
      invariant possible && Determines(done, p, q)
      invariant same == SameTokens(done, p, q)
      invariant forall e :: e in done ==> e[p] in pairs && pairs[e[p]] == e[q]
      invariant forall t :: t in pairs ==> exists e :: e in done && e[p] == t
    {
      var e :| e in todo;
      if e[p] != e[q] {
        same := false;
      }
      if e[p] !in pairs {
        pairs := pairs[e[p] := e[q]];
      } else if pairs[e[p]] != e[q] {
        ghost var d :| d in done && d[p] == e[p];
        assert d[q] != e[q];
        possible := false;
        break;
      }
      todo, done := todo - {e}, done + {e};
    }
    if possible { assert done == table; }
  }

  /** How two positions are paired: equal everywhere, or in a bijection that is not
      mere equality. Both relations are symmetric. */
  ghost predicate Related(table: Table, p: nat, q: nat, same: bool)
    requires forall e :: e in table ==> p in e && q in e
  {
    if same then SameTokens(table, p, q)
    else Bijective(table, p, q) && !SameTokens(table, p, q)
  }

  lemma RelatedSymmetric(table: Table, p: nat, q: nat, same: bool)
    requires forall e :: e in table ==> p in e && q in e
    ensures Related(table, p, q, same) <==> Related(table, q, p, same)
  {
  }

  ghost predicate AllCovered(table: Table, list: seq<nat>) {
    forall e, p :: e in table && p in list ==> p in e
  }

  /** `p` belongs to a related pair of list positions `a` and `b`. */
  ghost predicate InPair(table: Table, list: seq<nat>, a: nat, b: nat, p: nat, same: bool)
    requires AllCovered(table, list) && a < |list| && b < |list|
  {
    (p == list[a] || p == list[b]) && Related(table, list[a], list[b], same)
  }

  ghost predicate PairedFrom(table: Table, list: seq<nat>, a: nat, upto: nat, p: nat, same: bool)
    requires AllCovered(table, list) && a < |list| && upto <= |list|
  {
    exists b :: a < b < upto && InPair(table, list, a, b, p, same)
  }

  ghost predicate PairedBefore(table: Table, list: seq<nat>, a: nat, p: nat, same: bool)
    requires AllCovered(table, list) && a <= |list|
  {
    exists i :: 0 <= i < a && PairedFrom(table, list, i, |list|, p, same)
  }

  /** The inner loop: one position against all later ones of its group. */
  method PairWithLater(table: Table, list: seq<nat>, a: nat) returns (bijections: set<nat>, sames: set<nat>)
    requires AllCovered(table, list) && Distinct(list) && a < |list|
    requires forall p, q :: p in list && q in list ==> Count(table, p) == Count(table, q)
    ensures forall p :: p in bijections <==> PairedFrom(table, list, a, |list|, p, false)
    ensures forall p :: p in sames <==> PairedFrom(table, list, a, |list|, p, true)
  {
    bijections, sames := {}, {};
    var b := a;
    while b < |list|
      invariant a <= b <= |list|
      invariant forall p :: p in bijections <==> PairedFrom(table, list, a, b, p, false)
      invariant forall p :: p in sames <==> PairedFrom(table, list, a, b, p, true)
    {
      hide Related, SameTokens, Determines, Bijective, Count;
      ghost var bijections0, sames0 := bijections, sames;
      if a != b {
        assert list[a] in list && list[b] in list;
        var possible, same := DeterminesByLoop(table, list[a], list[b]);
        PairVerdict(table, list[a], list[b]);
        if same {
          sames := sames + {list[a], list[b]};
        } else if possible {
          bijections := bijections + {list[a], list[b]};
        }
      }
      PairStep(table, list, a, b, bijections0, bijections, false);
      PairStep(table, list, a, b, sames0, sames, true);
      b := b + 1;
    }
  }

  lemma PairVerdict(table: Table, p: nat, q: nat)
    requires forall e :: e in table ==> p in e && q in e
    requires Count(table, p) == Count(table, q)
    ensures Related(table, p, q, true) <==> SameTokens(table, p, q)
    ensures Related(table, p, q, false) <==> Determines(table, p, q) && !SameTokens(table, p, q)
  {
    if Determines(table, p, q) {
      PigeonholeBijection(table, p, q);
    }
  }

  lemma PairStep(table: Table, list: seq<nat>, a: nat, b: nat, before: set<nat>, after: set<nat>, same: bool)
    requires AllCovered(table, list) && a <= b < |list|
    requires forall p :: p in before <==> PairedFrom(table, list, a, b, p, same)
    requires after == before + if a != b && Related(table, list[a], list[b], same) then {list[a], list[b]} else {}
    ensures forall p :: p in after <==> PairedFrom(table, list, a, b + 1, p, same)
  {
    hide Related;
    forall p ensures p in after <==> PairedFrom(table, list, a, b + 1, p, same) {
      if p in after {
        if p in before {
          var c :| a < c < b && InPair(table, list, a, c, p, same);
        } else {
          assert InPair(table, list, a, b, p, same);
        }
      }
    }
  }

  /** All pairs of one group. */
  method PairGroup(table: Table, list: seq<nat>) returns (bijections: set<nat>, sames: set<nat>)
    requires AllCovered(table, list) && Distinct(list)
    requires forall p, q :: p in list && q in list ==> Count(table, p) == Count(table, q)
    ensures forall p :: p in bijections <==> Partnered(table, list, p, false)
    ensures forall p :: p in sames <==> Partnered(table, list, p, true)
  {
    bijections, sames := {}, {};
    var a := 0;
    while a < |list|
      invariant a <= |list|
      invariant forall p :: p in bijections <==> PairedBefore(table, list, a, p, false)
      invariant forall p :: p in sames <==> PairedBefore(table, list, a, p, true)
    {
      hide PairedFrom, Count;
      var more, moreSames := PairWithLater(table, list, a);
      bijections, sames := bijections + more, sames + moreSames;
      a := a + 1;
    }
    forall p
      ensures PairedBefore(table, list, a, p, false) <==> Partnered(table, list, p, false)
      ensures PairedBefore(table, list, a, p, true) <==> Partnered(table, list, p, true)
    {
      PairedIsPartnered(table, list, p, false);
      PairedIsPartnered(table, list, p, true);
    }
  }

  /** `p` is related to some other position of the list. */
  ghost predicate Partnered(table: Table, list: seq<nat>, p: nat, same: bool)
    requires AllCovered(table, list)
  {
    p in list && exists q :: q in list && q != p && Related(table, p, q, same)
  }

  lemma PairedIsPartnered(table: Table, list: seq<nat>, p: nat, same: bool)
    requires AllCovered(table, list) && Distinct(list)
    ensures PairedBefore(table, list, |list|, p, same) <==> Partnered(table, list, p, same)
  {
    hide Related;
    if PairedBefore(table, list, |list|, p, same) {
      var a :| 0 <= a < |list| && PairedFrom(table, list, a, |list|, p, same);
      var b :| a < b < |list| && InPair(table, list, a, b, p, same);
      RelatedSymmetric(table, list[a], list[b], same);
      var q := if p == list[a] then list[b] else list[a];
      assert q in list && q != p && Related(table, p, q, same);
    }
    if Partnered(table, list, p, same) {
      var q :| q in list && q != p && Related(table, p, q, same);
      var i :| 0 <= i < |list| && list[i] == p;
      var j :| 0 <= j < |list| && list[j] == q;
      RelatedSymmetric(table, p, q, same);
      var a, b := if i < j then i else j, if i < j then j else i;
      assert InPair(table, list, a, b, p, same);
      assert PairedFrom(table, list, a, |list|, p, same);
    }
  }

  /** `p` has a partner in one of the groups with a size that is taken into account. */
  ghost predicate PartneredIn(table: Table, words: Listing, counts: set<nat>, templLength: nat, p: nat, same: bool)
    requires counts <= words.Keys
    requires forall n :: n in words ==> AllCovered(table, words[n])
  {
    exists n :: n in counts && SizeOk(|words[n]|, templLength) && Partnered(table, words[n], p, same)
  }

  lemma ListedAreCovered(table: Table, at: set<nat>, words: Listing, positions: set<nat>)
    requires Covers(table, at) && positions <= at && Lists(words, table, positions)
    ensures forall n :: n in words ==> AllCovered(table, words[n]) && Distinct(words[n])
    ensures forall n, p, q :: n in words && p in words[n] && q in words[n] ==> Count(table, p) == Count(table, q)
  {
  }

  lemma PartnerIsComparable(table: Table, at: set<nat>, words: Listing, templLength: nat, p: nat, same: bool)
    requires Covers(table, at) && Lists(words, table, WordPositions(table, at))
    requires forall n :: n in words ==> AllCovered(table, words[n])
    ensures PartneredIn(table, words, words.Keys, templLength, p, same)
       <==> p in at && exists q :: q in at && Comparable(table, at, templLength, p, q) && Related(table, p, q, same)
  {
    hide Related, Count, SizeOk, WordPositions;
    assert forall p :: p in WordPositions(table, at) ==> p in at by { WordsWithin(table, at); }
    if PartneredIn(table, words, words.Keys, templLength, p, same) {
      var n :| n in words && SizeOk(|words[n]|, templLength) && Partnered(table, words[n], p, same);
      ListSize(words[n], Group(table, WordPositions(table, at), n));
      var q :| q in words[n] && q != p && Related(table, p, q, same);
      assert Comparable(table, at, templLength, p, q);
    }
    if p in at && exists q :: q in at && Comparable(table, at, templLength, p, q) && Related(table, p, q, same) {
      var q :| q in at && Comparable(table, at, templLength, p, q) && Related(table, p, q, same);
      var n := Count(table, p);
      ListSize(words[n], Group(table, WordPositions(table, at), n));
      assert q in words[n] && p in words[n];
      assert Partnered(table, words[n], p, same);
    }
  }

  lemma WordsWithin(table: Table, at: set<nat>)
    requires Covers(table, at)
    ensures WordPositions(table, at) <= at && ParamPositions(table, at) <= at
  {
  }

  /** Step 2a: bijections among positions that do not hold parameters only. */
  method FindWordBijections(table: Table, words: Listing, ghost at: set<nat>, templLength: nat)
    returns (bijections: set<nat>)
    requires Covers(table, at) && Lists(words, table, WordPositions(table, at))
    ensures bijections == WordBijections(table, at, templLength)
  {
    hide Partnered, AllCovered, Distinct, WordPositions, Count, SizeOk, Lists, Covers;
    WordsWithin(table, at);
    ListedAreCovered(table, at, words, WordPositions(table, at));
    bijections := {};
    var sames := {};
    var todo := words.Keys;
    ghost var done: set<nat> := {};
    while todo != {}
      invariant done + todo == words.Keys
      invariant forall p :: p in bijections <==> PartneredIn(table, words, done, templLength, p, false)
      invariant forall p :: p in sames <==> PartneredIn(table, words, done, templLength, p, true)
    {
      var n :| n in todo;
      if SizeOk(|words[n]|, templLength) {
        var more, moreSames := PairGroup(table, words[n]);
        bijections, sames := bijections + more, sames + moreSames;
      }
      todo, done := todo - {n}, done + {n};
    }
    assert done == words.Keys;
    forall p: nat
      ensures p in bijections - sames <==> p in WordBijections(table, at, templLength)
    {
      PartnerIsComparable(table, at, words, templLength, p, false);
      PartnerIsComparable(table, at, words, templLength, p, true);
      WordBijectionIs(table, at, templLength, p);
    }
    bijections := bijections - sames;
  }

  lemma WordBijectionIs(table: Table, at: set<nat>, templLength: nat, p: nat)
    requires Covers(table, at)
    ensures p in WordBijections(table, at, templLength) <==>
      && p in at
      && (exists q :: q in at && Comparable(table, at, templLength, p, q) && Related(table, p, q, false))
      && !(exists q :: q in at && Comparable(table, at, templLength, p, q) && Related(table, p, q, true))
  {
    hide Comparable, Bijective, SameTokens;
    assert p in at ==> forall q, e :: q in at && e in table ==> p in e && q in e;
    if p in at && exists q :: q in at && Comparable(table, at, templLength, p, q) && Related(table, p, q, false) {
      var q :| q in at && Comparable(table, at, templLength, p, q) && Related(table, p, q, false);
      assert Bijective(table, p, q) && !SameTokens(table, p, q);
    }
    if p in at && exists q :: q in at && Comparable(table, at, templLength, p, q) && SameTokens(table, p, q) {
      var q :| q in at && Comparable(table, at, templLength, p, q) && SameTokens(table, p, q);
      assert Related(table, p, q, true);
    }
  }

  /** `q` is paired with a word position of the same count among those seen. */
  ghost predicate PairedWithWord(table: Table, at: set<nat>, words: set<nat>, q: nat)
    requires Covers(table, at) && words <= at
  {
    q in ParamPositions(table, at) &&
    exists p :: p in words && Count(table, p) == Count(table, q) && Bijective(table, p, q)
  }

  /** One word position against the parameter positions of its count. */
  method MatchParams(table: Table, list: seq<nat>, ghost at: set<nat>, p: nat) returns (found: set<nat>)
    requires Covers(table, at) && p in at && forall q :: q in list ==> q in at
    requires forall q :: q in list ==> Count(table, q) == Count(table, p)
    ensures forall q :: q in found <==> q in list && Bijective(table, p, q)
  {
    found := {};
    var i := 0;
    while i < |list|
      invariant i <= |list|
      invariant forall q :: q in found <==> q in list[..i] && q in list && Bijective(table, p, q)
    {
      hide Determines, Bijective, Count;
      var q := list[i];
      assert q in list && list[..i + 1] == list[..i] + [q];
      var possible, same := DeterminesByLoop(table, p, q);
      if possible {
        PigeonholeBijection(table, p, q);
        found := found + {q};
      }
      BijectiveDetermines(table, p, q);
      i := i + 1;
    }
    assert list[..i] == list;
  }

  lemma BijectiveDetermines(table: Table, p: nat, q: nat)
    requires forall e :: e in table ==> p in e && q in e
    ensures Bijective(table, p, q) ==> Determines(table, p, q)
  {
  }

  /** The word positions found in one group against the parameter positions of its count. */
  method MatchGroup(table: Table, words: seq<nat>, params: seq<nat>, found: set<nat>, ghost at: set<nat>)
    returns (added: set<nat>)
    requires Covers(table, at) && forall p :: p in words || p in params ==> p in at
    requires forall p, q :: p in words && q in params ==> Count(table, p) == Count(table, q)
    ensures forall q :: q in added <==> q in params && exists p :: p in words && p in found && Bijective(table, p, q)
  {
    added := {};
    var i := 0;
    while i < |words|
      invariant i <= |words|
      invariant forall q :: q in added <==>
        q in params && exists p :: p in words && p in words[..i] && p in found && Bijective(table, p, q)
    {
      hide Bijective, Count;
      var p := words[i];
      assert p in words && words[..i + 1] == words[..i] + [p];
      if p in found {
        var more := MatchParams(table, params, at, p);
        added := added + more;
      }
      i := i + 1;
    }
    assert words[..i] == words;
  }

  ghost function WithCounts(table: Table, positions: set<nat>, counts: set<nat>): set<nat> {
    set p | p in positions && Count(table, p) in counts
  }

  /** Step 2b: parameter positions in bijection with a position found in step 2a. */
  method FindParamBijections(table: Table, words: Listing, params: Listing, found: set<nat>, ghost at: set<nat>)
    returns (added: set<nat>)
    requires Covers(table, at) && found <= WordPositions(table, at)
    requires Lists(words, table, WordPositions(table, at)) && Lists(params, table, ParamPositions(table, at))
    ensures found <= at
    ensures forall q :: q in added <==> PairedWithWord(table, at, found, q)
  {
    hide Bijective, Count, Covers, Lists, WordPositions, ParamPositions, PairedWithWord, WithCounts;
    WordsWithin(table, at);
    ListedAreCovered(table, at, words, WordPositions(table, at));
    ListedAreCovered(table, at, params, ParamPositions(table, at));
    added := {};
    var todo := words.Keys;
    ghost var done: set<nat> := {};
    NothingPaired(table, at, found);
    while todo != {}
      invariant done + todo == words.Keys
      invariant WithCounts(table, found, done) <= at
      invariant forall q :: q in added <==> PairedWithWord(table, at, WithCounts(table, found, done), q)
    {
      var n :| n in todo;
      ghost var more: set<nat> := {};
      if n in params {
        ListedAreWithin(table, at, words, params, n);
        var group := MatchGroup(table, words[n], params[n], found, at);
        added := added + group;
        more := group;
      }
      PairCount(table, words, params, found, at, done, n, more);
      todo, done := todo - {n}, done + {n};
    }
    AllPaired(table, words, found, at, done);
  }

  lemma NothingPaired(table: Table, at: set<nat>, found: set<nat>)
    requires Covers(table, at)
    ensures WithCounts(table, found, {}) == {}
    ensures forall q :: !PairedWithWord(table, at, {}, q)
  {
  }

  lemma ListedAreWithin(table: Table, at: set<nat>, words: Listing, params: Listing, n: nat)
    requires Covers(table, at) && n in words && n in params
    requires Lists(words, table, WordPositions(table, at)) && Lists(params, table, ParamPositions(table, at))
    ensures forall p :: p in words[n] || p in params[n] ==> p in at && Count(table, p) == n
  {
  }

  lemma PairCount(table: Table, words: Listing, params: Listing, found: set<nat>, at: set<nat>,
                  done: set<nat>, n: nat, more: set<nat>)
    requires Covers(table, at) && found <= WordPositions(table, at) <= at && n in words
    requires Lists(words, table, WordPositions(table, at)) && Lists(params, table, ParamPositions(table, at))
    requires n !in params ==> more == {}
    requires n in params ==> forall p :: p in words[n] || p in params[n] ==> p in at
    requires n in params ==> forall q :: q in more <==>
      q in params[n] && exists p :: p in words[n] && p in found && Bijective(table, p, q)
    ensures WithCounts(table, found, done) <= at && WithCounts(table, found, done + {n}) <= at
    ensures forall q :: (
      PairedWithWord(table, at, WithCounts(table, found, done + {n}), q)
      <==> (PairedWithWord(table, at, WithCounts(table, found, done), q) || q in more))
  {
    hide Bijective, Count;
    forall q
      ensures PairedWithWord(table, at, WithCounts(table, found, done + {n}), q)
        <==> PairedWithWord(table, at, WithCounts(table, found, done), q) || q in more
    {
      if PairedWithWord(table, at, WithCounts(table, found, done + {n}), q) {
        var p :| p in WithCounts(table, found, done + {n})
          && Count(table, p) == Count(table, q) && Bijective(table, p, q);
        if Count(table, p) == n {
          assert p in words[n] && q in params[n];
        }
      }
      if q in more {
        var p :| p in words[n] && p in found && Bijective(table, p, q);
        assert p in WithCounts(table, found, done + {n});
      }
    }
  }

  lemma AllPaired(table: Table, words: Listing, found: set<nat>, at: set<nat>, done: set<nat>)
    requires Covers(table, at) && found <= WordPositions(table, at) <= at
    requires Lists(words, table, WordPositions(table, at)) && done == words.Keys
    ensures WithCounts(table, found, done) == found
  {
  }

  /** Steps 1 and 2 of the split: the positions to restore. */
  method FindRestored(table: Table, at: set<nat>, templLength: nat) returns (restored: set<nat>)
    requires Covers(table, at)
    ensures restored == Restored(table, at, templLength)
  {
    hide *;
    var words, params := ListPositions(table, at);
    var found := FindWordBijections(table, words, at, templLength);
    FoundAreWords(table, at, templLength);
    var added := FindParamBijections(table, words, params, found, at);
    RestoredIs(table, at, templLength, added);
    restored := found + added;
  }

  lemma FoundAreWords(table: Table, at: set<nat>, templLength: nat)
    requires Covers(table, at)
    ensures WordBijections(table, at, templLength) <= WordPositions(table, at)
  {
  }

  lemma RestoredIs(table: Table, at: set<nat>, templLength: nat, added: set<nat>)
    requires Covers(table, at) && WordBijections(table, at, templLength) <= at
    requires forall q :: q in added <==> PairedWithWord(table, at, WordBijections(table, at, templLength), q)
    ensures WordBijections(table, at, templLength) + added == Restored(table, at, templLength)
  {
    hide WordBijections, Count, Bijective, ParamPositions;
    assert added == ParamBijections(table, at, templLength);
  }
}

/**
 Step 3 of `split_templ` (flt/templating/online_templater.hpp): one new template
 string for each way the restored positions are filled in the table, with the
 parameters to store for it.
*/
module TemplSplits {
  import opened WordIterators
  import opened ParamTables
  import opened Splitting
  import opened TemplStrings

  type Params = map<nat, set<string>>

  function Below(at: set<nat>, i: nat): set<nat> {
    set p | p in at && p < i
  }

  /** The template string an entry gives. */
  function SplitString(templ: string, e: Entry, restored: set<nat>): string
    requires restored <= e.Keys
  {
    Render(Retoken(Specialise(Words(templ), e, restored), ParseLine(templ)))
  }

  ghost function SplitStrings(templ: string, table: Table, restored: set<nat>): set<string>
    requires Covers(table, restored)
  {
    set e | e in table :: SplitString(templ, e, restored)
  }

  ghost predicate EntryOfWords(e: Entry) {
    forall p :: p in e ==> IsWord(e[p], SpecialSeps)
  }

  lemma SpecialisedAreWords(templ: Row, e: Entry, restored: set<nat>)
    requires restored <= e.Keys && EntryOfWords(e)
    requires forall w :: w in templ ==> IsWord(w, SpecialSeps)
    ensures forall w :: w in Specialise(templ, e, restored) ==> IsWord(w, SpecialSeps)
  {
    hide IsWord;
    var s := Specialise(templ, e, restored);
    forall w | w in s ensures IsWord(w, SpecialSeps) {
      var i :| 0 <= i < |s| && s[i] == w;
      if i !in restored { assert templ[i] in templ; }
    }
  }

  /** The new string has the specialised words. */
  lemma SplitStringWords(templ: string, e: Entry, restored: set<nat>)
    requires restored <= e.Keys && EntryOfWords(e)
    ensures Words(SplitString(templ, e, restored)) == Specialise(Words(templ), e, restored)
  {
    hide IsWord;
    WordsAreWords(templ);
    SpecialisedAreWords(Words(templ), e, restored);
    RetokenRoundTrip(Specialise(Words(templ), e, restored), templ);
  }

  /** Between the words it has the separators of the template. */
  lemma SplitSeparators(templ: string, e: Entry, restored: set<nat>)
    requires restored <= e.Keys && EntryOfWords(e)
    ensures var p, t := Parse(SplitString(templ, e, restored), SpecialSeps), Parse(templ, SpecialSeps);
      && p.lead == t.lead && |p.toks| == |t.toks| && forall i :: 0 <= i < |t.toks| ==> p.toks[i].seps == t.toks[i].seps
  {
    hide IsWord, Parse, Render;
    WordsAreWords(templ);
    SpecialisedAreWords(Words(templ), e, restored);
    RetokenRoundTrip(Specialise(Words(templ), e, restored), templ);
    assert ParseLine(templ) == Parse(templ, SpecialSeps);
  }

  // ----------------------------------------------------------------- one template

  /** Looking up a position that is not there yields the empty token. */
  function TokenOrEmpty(e: Entry, p: nat): string {
    if p in e then e[p] else ""
  }

  function ToStore(e: Entry, at: set<nat>): Entry {
    map p | p in at :: TokenOrEmpty(e, p)
  }

  lemma ToStoreStep(e: Entry, at: set<nat>, i: nat)
    ensures ToStore(e, Below(at, 0)) == map[]
    ensures ToStore(e, Below(at, i + 1))
         == if i in at then ToStore(e, Below(at, i))[i := TokenOrEmpty(e, i)] else ToStore(e, Below(at, i))
  {
    assert Below(at, 0) == {};
  }

  lemma ToStoreAll(e: Entry, row: Row, restored: set<nat>)
    ensures Below(Wild(row) - restored, |row|) == Wild(row) - restored
  {
  }

  lemma SpecialisedWord(templ: Row, e: Entry, restored: set<nat>, i: nat)
    requires restored <= e.Keys && i < |templ|
    ensures Specialise(templ, e, restored)[i] == if i in restored then e[i] else templ[i]
    ensures i in Wild(templ) - restored <==> i !in restored && templ[i] == WILDCARD
  {
  }

  method BuildTempl(templ: string, e: Entry, restored: set<nat>, store: bool) returns (newTempl: string, toStore: Entry)
    requires restored <= e.Keys && |Words(templ)| > 0
    ensures newTempl == SplitString(templ, e, restored)
    ensures toStore == if store then ToStore(e, Wild(Words(templ)) - restored) else map[]
  {
    hide *;
    ghost var t, ws := Words(templ), Specialise(Words(templ), e, restored);
    ghost var m, at := Retoken(ws, ParseLine(templ)), Wild(t) - restored;
    RetokenEnds(ws, templ);
    SplitStringIs(templ, e, restored);
    ToStoreStep(e, at, 0);
    ToStoreAll(e, t, restored);
    newTempl, toStore := "", map[];
    var it := new WordIterator.Special(templ);
    var i := 0;
    WordAt(templ, 0);
    while !it.AtEnd()
      invariant it.Valid() && i == it.index <= |t|
      invariant i == 0 ==> it.PrevSeps() == m.lead
      invariant newTempl == Written(m, i)
      invariant toStore == if store then ToStore(e, Below(at, i)) else map[]
      decreases |t| - i
    {
      WordAt(templ, i);
      SpecialisedWord(t, e, restored, i);
      ToStoreStep(e, at, i);
      newTempl := newTempl + if i == 0 then it.PrevSeps() else "";
      var w;
      if i in restored {
        w := e[i];
      } else {
        w := it.View();
        if store && w == WILDCARD {
          toStore := toStore[i := TokenOrEmpty(e, i)];
        }
      }
      var seps := it.NextSeps();
      RetokenStep(ws, templ, i, w);
      newTempl := newTempl + w + seps;
      it.Advance();
      i := i + 1;
    }
  }

  lemma SplitStringIs(templ: string, e: Entry, restored: set<nat>)
    requires restored <= e.Keys
    ensures SplitString(templ, e, restored) == Render(Retoken(Specialise(Words(templ), e, restored), ParseLine(templ)))
  {
  }

  // ---------------------------------------------------------------- all templates

  /** What is stored for a new template: the tokens, or "*" where the position was
      given up. A template seen before gets one more token where it was not. */
  function StoredMore(known: bool, stored: Params, toStore: Entry, exceeded: set<nat>): Params
  {
    map p | p in toStore ::
      if known && p in stored then (if p in exceeded then stored[p] else stored[p] + {toStore[p]})
      else (if p in exceeded then {"*"} else {toStore[p]})
  }

  method StoreParamsOf(stored: Params, known: bool, toStore: Entry, exceeded: set<nat>) returns (after: Params)
    requires if known then stored.Keys == toStore.Keys else stored == map[]
    ensures after == StoredMore(known, stored, toStore, exceeded)
  {
    after := stored;
    var todo := toStore.Keys;
    while todo != {}
      invariant todo <= toStore.Keys
      invariant after.Keys == if known then stored.Keys else toStore.Keys - todo
      invariant forall p :: p in after ==>
        after[p] == if p in todo then stored[p] else StoredMore(known, stored, toStore, exceeded)[p]
    {
      var p :| p in todo;
      if !known {
        after := after[p := if p in exceeded then {"*"} else {toStore[p]}];
      } else if p !in exceeded {
        after := after[p := after[p] + {toStore[p]}];
      }
      todo := todo - {p};
    }
  }

  /** The parameters of all new templates, by template string. */
  type Stored = map<string, Params>

  function ParamsOf(all: Stored, s: string): Params {
    if s in all then all[s] else map[]
  }

  /** All entries of a part of the table can be used. */
  ghost predicate Usable(templ: string, table: Table, exceeded: set<nat>, restored: set<nat>) {
    Covers(table, restored) && Covers(table, Wild(Words(templ)) - exceeded) && TableOfWords(table)
  }

  ghost predicate TableOfWords(table: Table) {
    forall e :: e in table ==> EntryOfWords(e)
  }

  /** The parameters stored for the template strings from a part of the table. */
  ghost predicate StoredFrom(templ: string, table: Table, exceeded: set<nat>, restored: set<nat>, store: bool,
      all: Stored)
    requires Usable(templ, table, exceeded, restored)
  {
    && all.Keys == (if store && Wild(Words(templ)) - restored != {} then SplitStrings(templ, table, restored) else {})
    && (forall s :: s in all ==> all[s] == SplitParams(Words(templ), table, exceeded, restored, Words(s)))
  }

  /** What a new template string stores. */
  ghost function StoredSplitParams(templ: string, table: Table, exceeded: set<nat>, restored: set<nat>,
      s: string): Params
    requires Usable(templ, table, exceeded, restored)
  {
    SplitParams(Words(templ), table, exceeded, restored, Words(s))
  }

  lemma StoredParamsOf(templ: string, table: Table, exceeded: set<nat>, restored: set<nat>, store: bool,
      all: Stored, s: string)
    requires Usable(templ, table, exceeded, restored)
    requires StoredFrom(templ, table, exceeded, restored, store, all)
    requires s in SplitStrings(templ, table, restored)
    ensures ParamsOf(all, s) == if store then StoredSplitParams(templ, table, exceeded, restored, s) else map[]
  {
    hide Words;
  }

  /** Some entry gives the new template `s`. */
  ghost predicate Gives(templ: Row, table: Table, restored: set<nat>, s: Row)
    requires Covers(table, restored)
  {
    exists d :: d in table && Specialise(templ, d, restored) == s
  }

  /** One more entry. */
  lemma SplitParamsStep(templ: Row, table: Table, exceeded: set<nat>, restored: set<nat>, s: Row, e: Entry)
    requires Covers(table + {e}, restored) && Covers(table + {e}, Wild(templ) - exceeded)
    requires Covers(table, restored) && Covers(table, Wild(templ) - exceeded) && restored <= e.Keys
    ensures var stored := SplitParams(templ, table, exceeded, restored, s);
      var toStore := ToStore(e, Wild(templ) - restored);
      var known := Gives(templ, table, restored, s);
      && toStore.Keys == stored.Keys
      && SplitParams(templ, table + {e}, exceeded, restored, s)
         == if s != Specialise(templ, e, restored) then stored
            else StoredMore(known, if known then stored else map[], toStore, exceeded)
  {
    var stored := SplitParams(templ, table, exceeded, restored, s);
    var after := SplitParams(templ, table + {e}, exceeded, restored, s);
    var toStore := ToStore(e, Wild(templ) - restored);
    var known := Gives(templ, table, restored, s);
    var expected := if s != Specialise(templ, e, restored) then stored
                    else StoredMore(known, if known then stored else map[], toStore, exceeded);
    hide SplitTokens, Specialise, Gives, Covers, Wild, SplitParams;
    assert expected.Keys == after.Keys;
    forall p | p in Wild(templ) - restored ensures after[p] == expected[p] {
      SplitParamAt(templ, table, exceeded, restored, s, e, p);
    }
    hide StoredMore, ToStore;
  }

  lemma SplitParamAt(templ: Row, table: Table, exceeded: set<nat>, restored: set<nat>, s: Row, e: Entry, p: nat)
    requires Covers(table + {e}, restored) && Covers(table + {e}, Wild(templ) - exceeded)
    requires Covers(table, restored) && Covers(table, Wild(templ) - exceeded) && restored <= e.Keys
    requires p in Wild(templ) - restored
    ensures SplitParams(templ, table + {e}, exceeded, restored, s)[p] ==
      if p in exceeded then {"*"}
      else if s != Specialise(templ, e, restored) then SplitParams(templ, table, exceeded, restored, s)[p]
      else (if Gives(templ, table, restored, s) then SplitParams(templ, table, exceeded, restored, s)[p] else {})
           + {TokenOrEmpty(e, p)}
    ensures p in exceeded ==> SplitParams(templ, table, exceeded, restored, s)[p] == {"*"}
  {
    hide SplitTokens, Specialise, Gives, Covers, Wild;
    if p !in exceeded {
      SplitTokensMore(templ, table, exceeded, restored, s, p, e);
    }
  }

  lemma SplitTokensMore(templ: Row, table: Table, exceeded: set<nat>, restored: set<nat>, s: Row, p: nat, e: Entry)
    requires Covers(table + {e}, restored) && Covers(table + {e}, Wild(templ) - exceeded)
    requires Covers(table, restored) && restored <= e.Keys && p in Wild(templ) - exceeded
    ensures Covers(table, {p}) && Covers(table + {e}, {p}) && p in e
    ensures SplitTokens(templ, table + {e}, restored, s, p)
         == SplitTokens(templ, table, restored, s, p) + if s == Specialise(templ, e, restored) then {e[p]} else {}
    ensures !Gives(templ, table, restored, s) ==> SplitTokens(templ, table, restored, s, p) == {}
  {
    hide SplitTokens, Specialise, Gives;
    SplitTokensStep(templ, table, restored, s, p, e);
    if !Gives(templ, table, restored, s) {
      NoSplitTokens(templ, table, restored, s, p);
    }
  }

  lemma SplitTokensStep(templ: Row, table: Table, restored: set<nat>, s: Row, p: nat, e: Entry)
    requires Covers(table + {e}, restored) && Covers(table + {e}, {p})
    ensures Covers(table, restored) && Covers(table, {p}) && e in table + {e} && p in e && restored <= e.Keys
    ensures SplitTokens(templ, table + {e}, restored, s, p)
         == SplitTokens(templ, table, restored, s, p) + if s == Specialise(templ, e, restored) then {e[p]} else {}
  {
    assert e in table + {e};
    assert forall d :: d in table ==> d in table + {e};
    assert p in {p};
    hide Specialise;
  }

  lemma NoSplitTokens(templ: Row, table: Table, restored: set<nat>, s: Row, p: nat)
    requires Covers(table, restored) && Covers(table, {p})
    requires !Gives(templ, table, restored, s)
    ensures SplitTokens(templ, table, restored, s, p) == {}
  {
  }

  lemma SameString(templ: string, d: Entry, e: Entry, restored: set<nat>)
    requires restored <= d.Keys && restored <= e.Keys && EntryOfWords(d) && EntryOfWords(e)
    ensures SplitString(templ, d, restored) == SplitString(templ, e, restored)
       <==> Specialise(Words(templ), d, restored) == Specialise(Words(templ), e, restored)
  {
    hide EntryOfWords, Words, Specialise, Render, Retoken;
    SplitStringWords(templ, d, restored);
    SplitStringWords(templ, e, restored);
  }

  /** New template strings and new template rows correspond. */
  lemma StringsAreRows(templ: string, table: Table, restored: set<nat>, e: Entry)
    requires Covers(table, restored) && restored <= e.Keys && TableOfWords(table) && EntryOfWords(e)
    ensures SplitString(templ, e, restored) in SplitStrings(templ, table, restored)
       <==> Gives(Words(templ), table, restored, Specialise(Words(templ), e, restored))
    ensures forall s | s in SplitStrings(templ, table, restored) && s != SplitString(templ, e, restored)
      :: Words(s) != Specialise(Words(templ), e, restored)
  {
    hide EntryOfWords, Words, Specialise, SplitString;
    forall d | d in table
      ensures restored <= d.Keys
      ensures SplitString(templ, d, restored) == SplitString(templ, e, restored)
         <==> Specialise(Words(templ), d, restored) == Specialise(Words(templ), e, restored)
      ensures Words(SplitString(templ, d, restored)) == Specialise(Words(templ), d, restored)
    {
      SplitStringWords(templ, d, restored);
      SameString(templ, d, e, restored);
    }
    if Gives(Words(templ), table, restored, Specialise(Words(templ), e, restored)) {
      var d :| d in table && Specialise(Words(templ), d, restored) == Specialise(Words(templ), e, restored);
      assert SplitString(templ, d, restored) in SplitStrings(templ, table, restored);
    }
  }

  /** The stored parameters after one more entry. */
  lemma StoredMoreFrom(templ: string, table: Table, exceeded: set<nat>, restored: set<nat>,
                       all: Stored, e: Entry, s: string, toStore: Entry, after: Stored)
    requires Usable(templ, table, exceeded, restored) && Usable(templ, table + {e}, exceeded, restored)
    requires StoredFrom(templ, table, exceeded, restored, true, all)
    requires restored <= e.Keys && EntryOfWords(e) && s == SplitString(templ, e, restored)
    requires toStore == ToStore(e, Wild(Words(templ)) - restored)
    requires after.Keys == all.Keys + if toStore == map[] then {} else {s}
    requires forall k :: k in after ==>
      after[k] == if k != s || toStore == map[] then all[k]
                  else StoredMore(s in all, ParamsOf(all, s), toStore, exceeded)
    ensures StoredFrom(templ, table + {e}, exceeded, restored, true, after)
  {
    hide SplitString, Specialise, SplitParams, StoredMore, EntryOfWords, Words, Wild, ToStore;
    StringsStep(templ, table, exceeded, restored, e);
    hide Usable, SplitStrings;
    assert toStore == map[] <==> Wild(Words(templ)) - restored == {} by {
      assert toStore == map[] <==> toStore.Keys == {};
    }
    forall k | k in after
      ensures after[k] == SplitParams(Words(templ), table + {e}, exceeded, restored, Words(k))
    {
      StoredParamsStep(templ, table, exceeded, restored, all, e, k);
    }
  }

  /** What is stored for one string after one more entry. */
  lemma StoredParamsStep(templ: string, table: Table, exceeded: set<nat>, restored: set<nat>, all: Stored,
      e: Entry, k: string)
    requires Usable(templ, table, exceeded, restored) && Usable(templ, table + {e}, exceeded, restored)
    requires StoredFrom(templ, table, exceeded, restored, true, all)
    requires restored <= e.Keys && EntryOfWords(e) && Wild(Words(templ)) - restored != {}
    requires k in all || k == SplitString(templ, e, restored)
    ensures SplitParams(Words(templ), table + {e}, exceeded, restored, Words(k))
         == if k != SplitString(templ, e, restored) then all[k]
            else StoredMore(k in all, ParamsOf(all, k), ToStore(e, Wild(Words(templ)) - restored), exceeded)
  {
    hide SplitString, Specialise, Gives, SplitParams, StoredMore;
    hide EntryOfWords, Words, Wild, ToStore, TableOfWords, Covers;
    StringsStep(templ, table, exceeded, restored, e);
    hide Usable, SplitStrings;
    SplitParamsStep(Words(templ), table, exceeded, restored, Words(k), e);
  }

  lemma StringsStep(templ: string, table: Table, exceeded: set<nat>, restored: set<nat>, e: Entry)
    requires Usable(templ, table, exceeded, restored) && Usable(templ, table + {e}, exceeded, restored)
    requires restored <= e.Keys && EntryOfWords(e)
    ensures Covers(table, restored) && Covers(table, Wild(Words(templ)) - exceeded)
    ensures Covers(table + {e}, restored) && Covers(table + {e}, Wild(Words(templ)) - exceeded)
    ensures ToStore(e, Wild(Words(templ)) - restored).Keys == Wild(Words(templ)) - restored
    ensures SplitStrings(templ, table + {e}, restored)
         == SplitStrings(templ, table, restored) + {SplitString(templ, e, restored)}
    ensures SplitString(templ, e, restored) in SplitStrings(templ, table, restored)
       <==> Gives(Words(templ), table, restored, Words(SplitString(templ, e, restored)))
    ensures Words(SplitString(templ, e, restored)) == Specialise(Words(templ), e, restored)
    ensures forall s | s in SplitStrings(templ, table, restored) && s != SplitString(templ, e, restored)
      :: Words(s) != Specialise(Words(templ), e, restored)
  {
    hide SplitString, Specialise, Gives, EntryOfWords, Words, Wild, Covers;
    SplitStringsStep(templ, table, restored, e);
    StringsAreRows(templ, table, restored, e);
    SplitStringWords(templ, e, restored);
  }

  lemma SplitStringsStep(templ: string, table: Table, restored: set<nat>, e: Entry)
    requires Covers(table + {e}, restored) && Covers(table, restored) && restored <= e.Keys
    ensures SplitStrings(templ, table + {e}, restored)
         == SplitStrings(templ, table, restored) + {SplitString(templ, e, restored)}
  {
    hide SplitString;
    assert e in table + {e};
  }

  lemma StoredKeys(templ: string, table: Table, exceeded: set<nat>, restored: set<nat>, store: bool, all: Stored,
      s: string, e: Entry)
    requires Usable(templ, table, exceeded, restored)
    requires StoredFrom(templ, table, exceeded, restored, store, all)
    ensures s in all ==> store && all[s].Keys == ToStore(e, Wild(Words(templ)) - restored).Keys
  {
  }

  lemma NothingStored(templ: string, table: Table, exceeded: set<nat>, restored: set<nat>, all: Stored, e: Entry)
    requires Usable(templ, table, exceeded, restored) && Usable(templ, table + {e}, exceeded, restored)
    requires StoredFrom(templ, table, exceeded, restored, false, all)
    ensures StoredFrom(templ, table + {e}, exceeded, restored, false, all)
  {
  }

  lemma UsablePart(templ: string, table: Table, exceeded: set<nat>, restored: set<nat>, part: Table)
    requires Usable(templ, table, exceeded, restored) && part <= table
    ensures Usable(templ, part, exceeded, restored)
    ensures forall e :: e in part ==> EntryOfWords(e) && restored <= e.Keys
  {
    hide EntryOfWords, Words;
  }

  /** What one entry adds. */
  method StoreEntry(templ: string, ghost done: Table, exceeded: set<nat>, restored: set<nat>, store: bool,
      all: Stored, e: Entry)
    returns (s: string, after: Stored)
    requires Usable(templ, done, exceeded, restored) && Usable(templ, done + {e}, exceeded, restored)
    requires restored <= e.Keys && EntryOfWords(e) && |Words(templ)| > 0
    requires StoredFrom(templ, done, exceeded, restored, store, all)
    ensures s == SplitString(templ, e, restored)
    ensures StoredFrom(templ, done + {e}, exceeded, restored, store, after)
  {
    hide *;
    var toStore;
    s, toStore := BuildTempl(templ, e, restored, store);
    StoredKeys(templ, done, exceeded, restored, store, all, s, e);
    ParamsOfIs(all, s);
    after := all;
    if toStore != map[] {
      var stored := StoreParamsOf(ParamsOf(all, s), s in all, toStore, exceeded);
      after := all[s := stored];
    }
    if store {
      StoredMoreFrom(templ, done, exceeded, restored, all, e, s, toStore, after);
    } else {
      NothingStored(templ, done, exceeded, restored, all, e);
    }
  }

  lemma ParamsOfIs(all: Stored, s: string)
    ensures ParamsOf(all, s) == if s in all then all[s] else map[]
  {
  }

  /** The loop over the table: new template strings, and what to store for each. */
  method CollectSplits(templ: string, table: Table, exceeded: set<nat>, restored: set<nat>, store: bool)
    returns (strings: set<string>, all: Stored)
    requires Usable(templ, table, exceeded, restored) && |Words(templ)| > 0
    ensures strings == SplitStrings(templ, table, restored)
    ensures StoredFrom(templ, table, exceeded, restored, store, all)
  {
    strings, all := {}, map[];
    var todo := table;
    ghost var done: Table := {};
    while todo != {}
      invariant done + todo == table && Usable(templ, done, exceeded, restored)
      invariant strings == SplitStrings(templ, done, restored)
      invariant StoredFrom(templ, done, exceeded, restored, store, all)
    {
      hide SplitString, StoredFrom, EntryOfWords, Words, SplitStrings, Usable;
      var e :| e in todo;
      UsablePart(templ, table, exceeded, restored, done + {e});
      assert e in done + {e};
      var s;
      s, all := StoreEntry(templ, done, exceeded, restored, store, all, e);
      UsableCovers(templ, done, exceeded, restored, e);
      SplitStringsStep(templ, done, restored, e);
      strings := strings + {s};
      todo, done := todo - {e}, done + {e};
    }
    assert done == table;
  }

  lemma UsableCovers(templ: string, table: Table, exceeded: set<nat>, restored: set<nat>, e: Entry)
    requires Usable(templ, table, exceeded, restored) && Usable(templ, table + {e}, exceeded, restored)
    ensures Covers(table, restored) && Covers(table + {e}, restored)
  {
  }

  // -------------------------------------------------------------- no line is lost

  /** The words of the new strings are the new rows. */
  lemma SplitStringRows(templ: string, table: Table, restored: set<nat>)
    requires Covers(table, restored) && TableOfWords(table)
    ensures forall s :: s in SplitStrings(templ, table, restored) ==>
      Words(s) in SplitRows(Words(templ), table, restored)
    ensures forall r :: r in SplitRows(Words(templ), table, restored) ==>
      exists s :: s in SplitStrings(templ, table, restored) && Words(s) == r
  {
    hide Words, SplitString, Specialise, EntryOfWords;
    forall e | e in table
      ensures restored <= e.Keys
      ensures Words(SplitString(templ, e, restored)) == Specialise(Words(templ), e, restored)
    {
      SplitStringWords(templ, e, restored);
    }
    forall r | r in SplitRows(Words(templ), table, restored)
      ensures exists s :: s in SplitStrings(templ, table, restored) && Words(s) == r
    {
      var e :| e in table && r == Specialise(Words(templ), e, restored);
      assert SplitString(templ, e, restored) in SplitStrings(templ, table, restored);
    }
  }

  /** A template that has learned, with the positions to restore. */
  ghost predicate Splittable(templ: string, rows: seq<Row>, exceeded: set<nat>, table: Table, restored: set<nat>) {
    && LearnedTable(Words(templ), rows, exceeded, table)
    && Usable(templ, table, exceeded, restored)
    && restored <= Wild(Words(templ)) - exceeded && restored != {}
  }

  /** Splitting loses no row: each is matched by a new template, and by only one (up to
      separators) exactly if no other row can be mistaken for it. */
  lemma SplitCoversRow(templ: string, rows: seq<Row>, exceeded: set<nat>, table: Table, restored: set<nat>, r: Row)
    requires Splittable(templ, rows, exceeded, table, restored) && r in rows
    ensures exists s :: s in SplitStrings(templ, table, restored) && Matches(Words(s), r)
    ensures (forall s, s' | s in SplitStrings(templ, table, restored) && s' in SplitStrings(templ, table, restored)
               :: Matches(Words(s), r) && Matches(Words(s'), r) ==> Words(s) == Words(s'))
       <==> Unmistakable(rows, restored, r)
    ensures Plain(rows) ==> Unmistakable(rows, restored, r)
  {
    hide LearnedTable, Words, Matches, TableOfWords, Wild, SplitRows, SplitStrings, Covers, Plain;
    SplitStringRows(templ, table, restored);
    SplitCoversOnce(Words(templ), rows, exceeded, table, restored, r);
  }

  /** Each new template matches a row and has no wildcard the old one does not have; it
      has lost exactly the restored ones if no row has the wildcard as a word. */
  lemma SplitStemsFromRow(templ: string, rows: seq<Row>, exceeded: set<nat>, table: Table, restored: set<nat>,
      s: string)
    requires Splittable(templ, rows, exceeded, table, restored) && s in SplitStrings(templ, table, restored)
    ensures exists r :: r in rows && Matches(Words(s), r)
    ensures |Words(s)| == |Words(templ)| && Wild(Words(templ)) - restored <= Wild(Words(s)) <= Wild(Words(templ))
    ensures Plain(rows) ==> Wild(Words(s)) == Wild(Words(templ)) - restored
    ensures forall x :: Matches(Words(s), x) ==> Matches(Words(templ), x)
  {
    hide LearnedTable, Words, Matches, TableOfWords, Wild, SplitRows, SplitStrings, Covers, Plain;
    SplitStringRows(templ, table, restored);
    SplitIsSpecific(Words(templ), rows, exceeded, table, restored, Words(s));
    SplitKeepsLength(templ, table, restored, Words(s));
  }

  lemma SplitKeepsLength(templ: string, table: Table, restored: set<nat>, r: Row)
    requires Covers(table, restored) && r in SplitRows(Words(templ), table, restored)
    ensures |r| == |Words(templ)|
  {
  }

  lemma SplitAtLeastTwo(templ: string, rows: seq<Row>, exceeded: set<nat>, table: Table, restored: set<nat>)
    requires Splittable(templ, rows, exceeded, table, restored)
    ensures |SplitStrings(templ, table, restored)| >= 2
  {
    hide LearnedTable, Words, TableOfWords, Wild, SplitRows, SplitStrings, Covers;
    SplitIsProper(Words(templ), rows, exceeded, table, restored);
    MoreStringsThanRows(templ, table, restored);
  }

  /** A word was seen at a tracked wildcard exactly if one of the new strings stores it. */
  lemma StoredIsSeen(templ: string, rows: seq<Row>, exceeded: set<nat>, table: Table, restored: set<nat>, p: nat,
      t: string)
    requires Splittable(templ, rows, exceeded, table, restored) && p in Wild(Words(templ)) - restored - exceeded
    ensures t in SeenAt(rows, p) <==> exists s ::
      s in SplitStrings(templ, table, restored) && Stores(templ, table, exceeded, restored, s, p, t)
  {
    hide LearnedTable, Words, TableOfWords, Wild, SplitRows, SplitStrings, Covers, SplitTokens, SeenAt;
    hide Specialise, SplitParams, Stores, StoredSplitParams;
    SplitStringRows(templ, table, restored);
    RowStoresSeen(Words(templ), rows, exceeded, table, restored, p, t);
    forall s | s in SplitStrings(templ, table, restored)
      ensures Stores(templ, table, exceeded, restored, s, p, t)
         <==> RowStores(Words(templ), table, exceeded, restored, Words(s), p, t)
    {
      StoresIs(templ, table, exceeded, restored, s, p, t);
    }
    hide RowStores;
    if t in SeenAt(rows, p) {
      var r :| r in SplitRows(Words(templ), table, restored)
        && RowStores(Words(templ), table, exceeded, restored, r, p, t);
      var s :| s in SplitStrings(templ, table, restored) && Words(s) == r;
    }
  }

  /** The row stores the word at the position. */
  ghost predicate RowStores(templ: Row, table: Table, exceeded: set<nat>, restored: set<nat>, r: Row, p: nat, t: string)
    requires Covers(table, restored) && Covers(table, Wild(templ) - exceeded)
  {
    var stored := SplitParams(templ, table, exceeded, restored, r);
    p in stored && t in stored[p]
  }

  lemma RowStoresSeen(templ: Row, rows: seq<Row>, exceeded: set<nat>, table: Table, restored: set<nat>, p: nat,
      t: string)
    requires LearnedTable(templ, rows, exceeded, table)
    requires restored <= Wild(templ) - exceeded && Covers(table, restored) && Covers(table, Wild(templ) - exceeded)
    requires p in Wild(templ) - restored - exceeded
    ensures t in SeenAt(rows, p) <==> exists r ::
      r in SplitRows(templ, table, restored) && RowStores(templ, table, exceeded, restored, r, p, t)
  {
    hide LearnedTable, SplitParams, SplitRows, SeenAt, Covers;
    SplitKeepsParams(templ, rows, exceeded, table, restored, p);
    if t in SeenAt(rows, p) {
      var r :| r in SplitRows(templ, table, restored) && t in SplitParams(templ, table, exceeded, restored, r)[p];
      assert RowStores(templ, table, exceeded, restored, r, p, t);
    }
  }

  lemma StoresIs(templ: string, table: Table, exceeded: set<nat>, restored: set<nat>, s: string, p: nat, t: string)
    requires Usable(templ, table, exceeded, restored)
    ensures Stores(templ, table, exceeded, restored, s, p, t)
       <==> RowStores(Words(templ), table, exceeded, restored, Words(s), p, t)
  {
    hide SplitParams, Words;
  }

  /** The string stores the word at the position. */
  ghost predicate Stores(templ: string, table: Table, exceeded: set<nat>, restored: set<nat>, s: string, p: nat,
      t: string)
    requires Usable(templ, table, exceeded, restored)
  {
    var stored := StoredSplitParams(templ, table, exceeded, restored, s);
    p in stored && t in stored[p]
  }

  lemma MoreStringsThanRows(templ: string, table: Table, restored: set<nat>)
    requires Covers(table, restored) && TableOfWords(table)
    ensures |SplitRows(Words(templ), table, restored)| <= |SplitStrings(templ, table, restored)|
  {
    SplitStringRows(templ, table, restored);
    hide Words, TableOfWords, SplitStrings, SplitRows;
    var f := (s: string) => Words(s);
    ImageSize(f, SplitStrings(templ, table, restored));
    assert Image(f, SplitStrings(templ, table, restored)) == SplitRows(Words(templ), table, restored);
  }
}

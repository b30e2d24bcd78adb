/**
 One template of the online templater: `templ_node` of
 flt/templating/online_templater.hpp.

 The class keeps what the source keeps: the template string, the parameter
 table and the positions given up. The lines themselves are forgotten; they
 survive only in the ghost field `history`, and `Valid` says what the real
 fields still know about it.
*/
module TemplNodes {
  import opened WordIterators
  import opened ParamTables
  import opened Splitting
  import opened Corrections
  import opened TemplStrings
  import opened TemplSplits
  import opened BijectionSearch
  import opened TableSequences
  import opened Similarities

  datatype Configuration = Configuration(threshold: real, storeParams: bool)

  // ------------------------------------------------------------- stored params

  /** The token of a line, and that of the template where the template loses it. */
  function NewTokens(templTok: string, lineTok: string): set<string> {
    {lineTok} + if templTok != WILDCARD && templTok != lineTok then {templTok} else {}
  }

  function StoreParams(params: Params, templ: Row, row: Row, into: set<nat>): Params
    requires |templ| == |row| && forall p :: p in into ==> p < |row|
  {
    map p | p in params.Keys + into ::
      if p !in into then params[p]
      else (if p in params then params[p] else {}) + NewTokens(templ[p], row[p])
  }

  function Insert(params: Params, p: nat, tokens: set<string>): Params {
    params[p := (if p in params then params[p] else {}) + tokens]
  }

  lemma ProjectStep(row: Row, at: set<nat>, i: nat)
    requires i < |row|
    ensures Project(row, Below(at, i + 1))
         == if i in at then Project(row, Below(at, i))[i := row[i]] else Project(row, Below(at, i))
  {
  }

  lemma StoreStep(params: Params, templ: Row, row: Row, at: set<nat>, i: nat)
    requires |templ| == |row| && i < |row|
    ensures var before := StoreParams(params, templ, row, Below(at, i));
      var after := StoreParams(params, templ, row, Below(at, i + 1));
      after == if i in at then Insert(before, i, NewTokens(templ[i], row[i]))
               else before
  {
  }

  /** What the loop of `update` has collected over the first `i` positions. */
  datatype Collected = Collected(templParams: Entry, lineParams: Entry, params: Params)

  function Collect(templ: Row, row: Row, exceeded: set<nat>, params: Params, store: bool, i: nat): Collected
    requires i <= |row| == |templ|
  {
    if i == 0 then Collected(map[], map[], params)
    else
      var c := Collect(templ, row, exceeded, params, store, i - 1);
      CollectAt(c, i - 1, templ[i - 1], row[i - 1], exceeded, store)
  }

  function CollectAt(c: Collected, i: nat, templTok: string, lineTok: string, exceeded: set<nat>, store: bool)
    : Collected {
    var lost := templTok != lineTok && templTok != WILDCARD;
    if i in exceeded || (templTok == lineTok && templTok != WILDCARD) then c
    else
      Collected(
        if lost then c.templParams[i := templTok] else c.templParams,
        c.lineParams[i := lineTok],
        if store then Insert(c.params, i, NewTokens(templTok, lineTok)) else c.params)
  }

  lemma CollectNothing(templ: Row, row: Row, exceeded: set<nat>, params: Params, store: bool)
    requires |row| == |templ|
    ensures Collect(templ, row, exceeded, params, store, 0) == Collected(map[], map[], params)
  {
  }

  lemma CollectStep(templ: Row, row: Row, exceeded: set<nat>, params: Params, store: bool, i: nat)
    requires i < |row| == |templ|
    ensures Collect(templ, row, exceeded, params, store, i + 1)
         == CollectAt(Collect(templ, row, exceeded, params, store, i), i, templ[i], row[i], exceeded, store)
  {
  }

  lemma {:induction false} CollectIsProjection(templ: Row, row: Row, exceeded: set<nat>, params: Params,
      store: bool, i: nat)
    requires i <= |row| == |templ|
    ensures var lost, into := NewWild(templ, row) - exceeded, Wild(Merge(templ, row)) - exceeded;
      Collect(templ, row, exceeded, params, store, i) == Restricted(templ, row, lost, into, params, store, i)
  {
    hide *;
    var lost, into := NewWild(templ, row) - exceeded, Wild(Merge(templ, row)) - exceeded;
    if i == 0 {
      CollectNothing(templ, row, exceeded, params, store);
      RestrictedToNothing(templ, row, lost, into, params, store);
    } else {
      CollectIsProjection(templ, row, exceeded, params, store, i - 1);
      CollectStep(templ, row, exceeded, params, store, i - 1);
      RestrictedStep(templ, row, exceeded, params, store, i - 1);
    }
  }

  /** The projections of template and row to the first `i` positions. */
  function Restricted(templ: Row, row: Row, lost: set<nat>, into: set<nat>, params: Params, store: bool, i: nat)
    : Collected
    requires i <= |row| == |templ|
  {
    Collected(Project(templ, Below(lost, i)), Project(row, Below(into, i)),
              if store then StoreParams(params, templ, row, Below(into, i)) else params)
  }

  lemma RestrictedToNothing(templ: Row, row: Row, lost: set<nat>, into: set<nat>, params: Params, store: bool)
    requires |row| == |templ|
    ensures Restricted(templ, row, lost, into, params, store, 0) == Collected(map[], map[], params)
  {
    assert Below(lost, 0) == {} == Below(into, 0);
    assert StoreParams(params, templ, row, {}) == params;
  }

  lemma RestrictedStep(templ: Row, row: Row, exceeded: set<nat>, params: Params, store: bool, i: nat)
    requires i < |row| == |templ|
    ensures var lost, into := NewWild(templ, row) - exceeded, Wild(Merge(templ, row)) - exceeded;
      Restricted(templ, row, lost, into, params, store, i + 1)
      == CollectAt(Restricted(templ, row, lost, into, params, store, i), i, templ[i], row[i], exceeded, store)
  {
    var lost, into := NewWild(templ, row) - exceeded, Wild(Merge(templ, row)) - exceeded;
    ProjectStep(templ, lost, i);
    ProjectStep(row, into, i);
    StoreStep(params, templ, row, into, i);
    assert i in into <==> i !in exceeded && (templ[i] != row[i] || templ[i] == WILDCARD);
    hide Project, StoreParams, Below, Wild, Merge;
  }

  lemma CollectAll(templ: Row, row: Row, exceeded: set<nat>, params: Params, store: bool)
    requires |row| == |templ|
    ensures var c, into := Collect(templ, row, exceeded, params, store, |row|), Wild(Merge(templ, row)) - exceeded;
      && c.templParams == Project(templ, NewWild(templ, row) - exceeded)
      && c.lineParams == Project(row, into) && c.lineParams.Keys == into
      && c.params == if store then StoreParams(params, templ, row, into) else params
  {
    CollectIsProjection(templ, row, exceeded, params, store, |row|);
    var lost, into := NewWild(templ, row) - exceeded, Wild(Merge(templ, row)) - exceeded;
    assert Below(lost, |row|) == lost && Below(into, |row|) == into;
  }

  /** With storing on, a parameter set holds tokens seen at its wildcard, and all of
      them unless the position was given up. */
  ghost predicate Stored(store: bool, params: Params, templ: Row, rows: seq<Row>, exceeded: set<nat>) {
    if !store then params == map[]
    else
      && params.Keys == Wild(templ)
      && (forall p :: p in params ==> params[p] <= SeenAt(rows, p))
      && (forall p :: p in params && p !in exceeded ==> params[p] == SeenAt(rows, p))
  }

  lemma StoredStep(store: bool, params: Params, templ: Row, rows: seq<Row>, exceeded: set<nat>, row: Row,
      exceeded': set<nat>)
    requires Stored(store, params, templ, rows, exceeded) && exceeded <= exceeded' && exceeded <= Wild(templ)
    requires Generalises(templ, rows) && |row| == |templ|
    ensures Stored(store, if store then StoreParams(params, templ, row, Wild(Merge(templ, row)) - exceeded) else params,
                   Merge(templ, row), rows + [row], exceeded')
  {
    if store {
      StoreIsSeen(params, templ, rows, row, Wild(Merge(templ, row)) - exceeded);
    }
  }

  /** Where the template is literal, its word is all that was seen. */
  lemma LiteralIsAllSeen(templ: Row, rows: seq<Row>, p: nat)
    requires Generalises(templ, rows) && p < |templ| && templ[p] != WILDCARD
    ensures SeenAt(rows, p) == {templ[p]}
  {
    LeastGeneral(templ, rows);
    assert Matches(templ, rows[0]) && rows[0] in rows;
  }

  /** The stored parameters keep being the tokens seen. */
  lemma StoreIsSeen(params: Params, templ: Row, rows: seq<Row>, row: Row, into: set<nat>)
    requires Generalises(templ, rows) && |row| == |templ|
    requires params.Keys == Wild(templ)
    requires NewWild(templ, row) <= into <= Wild(Merge(templ, row))
    requires forall p :: p in params ==> params[p] <= SeenAt(rows, p)
    requires forall p :: p in params && p in into ==> params[p] == SeenAt(rows, p)
    ensures var after := StoreParams(params, templ, row, into);
      && after.Keys == Wild(Merge(templ, row))
      && (forall p :: p in after ==> after[p] <= SeenAt(rows + [row], p))
      && (forall p :: p in into ==> after[p] == SeenAt(rows + [row], p))
  {
    var after := StoreParams(params, templ, row, into);
    forall p | p in after
      ensures after[p] <= SeenAt(rows + [row], p)
      ensures p in into ==> after[p] == SeenAt(rows + [row], p)
    {
      SeenAppend(rows, row, p);
      if p in NewWild(templ, row) {
        LiteralIsAllSeen(templ, rows, p);
      }
      hide SeenAt, Generalises, Merge;
    }
  }

  lemma SeenAppend(rows: seq<Row>, row: Row, p: nat)
    requires p < |row|
    ensures SeenAt(rows + [row], p) == SeenAt(rows, p) + {row[p]}
  {
    assert forall r :: r in rows + [row] <==> r in rows || r == row;
  }

  /** The fields of a template against the lines it was learned from. */
  ghost predicate Knows(store: bool, templ: string, lines: seq<string>, exceeded: set<nat>, table: Table,
      params: Params) {
    && Learned(Words(templ), Rows(lines), exceeded, table)
    && Stored(store, params, Words(templ), Rows(lines), exceeded)
    && lines != [] && templ == TemplOf(lines)
    && Reached(Rows(lines), Words(templ), exceeded, table)
  }

  /** The fields after one more line, in terms of those before. */
  ghost predicate KnowsMore(store: bool, templ: string, lines: seq<string>, exceeded: set<nat>, params: Params,
      line: string,
                            templ': string, exceeded': set<nat>, table': Table, params': Params)
    requires |Words(line)| == |Words(templ)|
  {
    && templ' == Render(Merged(templ, line))
    && LearnedMore(Words(templ), Rows(lines), exceeded, Words(line), Words(templ'), exceeded', table')
    && params' == if store
                  then StoreParams(params, Words(templ), Words(line), Wild(Words(templ')) - exceeded)
                  else params
  }

  lemma TableCanGrow(store: bool, templ: string, lines: seq<string>, exceeded: set<nat>, table: Table, params: Params,
                     line: string, c: Collected)
    requires Knows(store, templ, lines, exceeded, table, params)
    requires |Words(line)| == |Words(templ)|
    requires c == Collect(Words(templ), Words(line), exceeded, params, store, |Words(line)|)
    ensures Over(Grown(table, c.templParams, c.lineParams), c.lineParams.Keys)
    ensures exceeded !! c.lineParams.Keys
  {
    CollectAll(Words(templ), Words(line), exceeded, params, store);
    GrownTable(Words(templ), Rows(lines), exceeded, table, Words(line));
  }

  lemma UpdateKeepsKnowing(store: bool, templ: string, lines: seq<string>, exceeded: set<nat>, table: Table,
      params: Params,
                           line: string, c: Collected, exceeded': set<nat>, table': Table)
    requires Knows(store, templ, lines, exceeded, table, params)
    requires |Words(line)| == |Words(templ)|
    requires c == Collect(Words(templ), Words(line), exceeded, params, store, |Words(line)|)
    requires exceeded <= exceeded'
    requires Reduced(Grown(table, c.templParams, c.lineParams), c.lineParams.Keys, table', exceeded' - exceeded)
    ensures var templ' := Render(Merged(templ, line));
      && |Words(templ')| == |Words(templ)|
      && KnowsMore(store, templ, lines, exceeded, params, line, templ', exceeded', table', c.params)
      && Knows(store, templ', lines + [line], exceeded', table', c.params)
  {
    var t, l, rows, templ' := Words(templ), Words(line), Rows(lines), Render(Merged(templ, line));
    CollectAll(t, l, exceeded, params, store);
    GrownTable(t, rows, exceeded, table, l);
    MergedWords(templ, line);
    RowsAppend(lines, line);
    assert LearnedMore(t, rows, exceeded, l, Words(templ'), exceeded', table');
    TemplOfMore(lines, line);
    assert Stepped(t, exceeded, table, l, Words(templ'), exceeded', table');
    ReachedMore(rows, t, exceeded, table, l, Words(templ'), exceeded', table');
    LearnStep(t, rows, exceeded, table, l, Words(templ'), exceeded', table');
    StoredStep(store, params, t, rows, exceeded, l, exceeded');
  }

  lemma LearnedWords(store: bool, templ: string, lines: seq<string>, exceeded: set<nat>, params: Params, line: string,
                     templ': string, exceeded': set<nat>, table': Table, params': Params)
    requires |Words(line)| == |Words(templ)|
    requires KnowsMore(store, templ, lines, exceeded, params, line, templ', exceeded', table', params')
    ensures Words(templ') == Merge(Words(templ), Words(line)) && templ' == Render(Merged(templ, line))
  {
  }

  /** A template knows the line it starts from. */
  lemma FirstLineKnown(store: bool, line: string)
    requires WILDCARD !in Words(line)
    ensures Knows(store, line, [line], {}, {}, map[])
  {
    FirstRow(Words(line));
    assert Rows([line]) == [Words(line)];
  }

  class TemplNode {
    var templ: string
    const config: Configuration
    const templLength: nat
    var params: Params
    var templWasSplit: bool
    var paramTable: Table
    var exceeded: set<nat>

    /** The lines this template was learned from, oldest first. */
    ghost var history: seq<string>

    /** A template that learns from lines knows about them what it must. */
    ghost predicate Valid()
      reads this
    {
      && templLength == |Words(templ)|
      && Knows(config.storeParams, templ, history, exceeded, paramTable, params)
    }

    constructor (templ: string, config: Configuration, paramsToStore: Params, ghost lines: seq<string>)
      ensures this.templ == templ && this.config == config && params == paramsToStore
      ensures templLength == |Words(templ)| && history == lines
      ensures !templWasSplit && paramTable == {} && exceeded == {}
    {
      hide *;
      this.templ, this.config, params := templ, config, paramsToStore;
      templWasSplit, paramTable, exceeded := false, {}, {};
      history := lines;
      ParseLineIs(templ);
      var length := 0;
      var it := new WordIterator.Special(templ);
      while !it.AtEnd()
        invariant it.Valid()
        invariant length == it.index <= |Words(templ)|
        decreases |Words(templ)| - length
      {
        it.Advance();
        length := length + 1;
      }
      templLength := length;
    }

    /** What `update` does at one position. */
    method GeneraliseAt(i: nat, templTok: string, lineTok: string, templParams: Entry, lineParams: Entry)
      returns (newTok: string, templParams': Entry, lineParams': Entry)
      modifies this`params
      ensures newTok == if templTok != lineTok then WILDCARD else templTok
      ensures Collected(templParams', lineParams', params)
           == CollectAt(Collected(templParams, lineParams, old(params)), i, templTok, lineTok, exceeded,
                        config.storeParams)
    {
      newTok, templParams', lineParams' := templTok, templParams, lineParams;
      if lineTok != templTok && templTok != WILDCARD {
        if i !in exceeded {
          if config.storeParams {
            params := Insert(params, i, {lineTok});
            params := Insert(params, i, {templTok});
            assert params[i] == Insert(old(params), i, NewTokens(templTok, lineTok))[i];
          }
          templParams' := templParams'[i := templTok];
          lineParams' := lineParams'[i := lineTok];
        }
        newTok := WILDCARD;
      } else if templTok == WILDCARD && i !in exceeded {
        lineParams' := lineParams'[i := lineTok];
        if config.storeParams {
          assert NewTokens(templTok, lineTok) == {lineTok};
          params := Insert(params, i, {lineTok});
        }
      }
    }

    /** The loop of `update`: the new template string and the tokens to enter into
        the table. */
    method GeneraliseWith(line: string) returns (newTempl: string, templParams: Entry, lineParams: Entry)
      requires |Words(line)| == |Words(templ)| > 0
      modifies this`params
      ensures newTempl == Render(Merged(templ, line))
      ensures Collected(templParams, lineParams, params)
           == Collect(Words(templ), Words(line), exceeded, old(params), config.storeParams, |Words(line)|)
    {
      hide *;
      ghost var t, l, merged := Words(templ), Words(line), Merged(templ, line);
      ghost var templ0, exceeded0, params0 := templ, exceeded, params;
      MergedEnds(templ, line);
      WordAt(line, 0);
      CollectNothing(t, l, exceeded, params, config.storeParams);
      var lineIt := new WordIterator.Special(line);
      var templIt := new WordIterator.Special(templ);
      newTempl, templParams, lineParams := "", map[], map[];
      var i := 0;
      while !lineIt.AtEnd()
        invariant lineIt.Valid() && templIt.Valid() && lineIt != templIt
        invariant i == lineIt.index == templIt.index <= |l|
        invariant i == 0 ==> lineIt.PrevSeps() == merged.lead
        invariant newTempl == Written(merged, i)
        invariant Collected(templParams, lineParams, params) == Collect(t, l, exceeded0, params0, config.storeParams, i)
        decreases |l| - i
      {
        newTempl := newTempl + if i == 0 then lineIt.PrevSeps() else "";
        WordAt(line, i);
        WordAt(templ0, i);
        CollectStep(t, l, exceeded0, params0, config.storeParams, i);
        var lineTok, templTok := lineIt.View(), templIt.View();
        var newTok;
        newTok, templParams, lineParams := GeneraliseAt(i, templTok, lineTok, templParams, lineParams);
        var seps := lineIt.NextSeps();
        newTempl := newTempl + newTok + seps;
        MergedStep(templ0, line, i, newTok);
        lineIt.Advance();
        templIt.Advance();
        i := i + 1;
      }
    }

    /** Gives up the positions with the most distinct tokens until the table fits. */
    method ReduceParamTable(ghost at: set<nat>) returns (ghost cut: nat)
      requires Over(paramTable, at) && |paramTable| > MAX_ENTRIES
      modifies this`paramTable, this`exceeded
      ensures exceeded == old(exceeded) + Crowded(old(paramTable), at, cut)
      ensures ReducedAt(old(paramTable), at, paramTable, Crowded(old(paramTable), at, cut), cut)
    {
      ghost var table, exceeded0 := paramTable, exceeded;
      var groups;
      groups, cut := GroupPositions(paramTable, at);
      DropNothing(table);
      while |paramTable| > MAX_ENTRIES
        invariant GroupsBelow(groups, table, at, cut)
        invariant exceeded == exceeded0 + Crowded(table, at, cut)
        invariant paramTable == Drop(table, Crowded(table, at, cut))
        invariant |paramTable| > MAX_ENTRIES || ReducedAt(table, at, paramTable, Crowded(table, at, cut), cut)
        decreases cut
      {
        groups, cut := ReduceOnce(groups, table, at, cut, exceeded0);
      }
    }

    /** One round: the largest group goes. */
    method ReduceOnce(groups: map<nat, set<nat>>, ghost table: Table, ghost at: set<nat>, ghost cut: nat,
        ghost exceeded0: set<nat>)
      returns (groups': map<nat, set<nat>>, ghost cut': nat)
      requires Over(table, at) && GroupsBelow(groups, table, at, cut)
      requires paramTable == Drop(table, Crowded(table, at, cut)) && |paramTable| > MAX_ENTRIES
      requires exceeded == exceeded0 + Crowded(table, at, cut)
      modifies this`paramTable, this`exceeded
      ensures cut' < cut && GroupsBelow(groups', table, at, cut')
      ensures Crowded(table, at, cut' + 1) == Crowded(table, at, cut)
      ensures exceeded == exceeded0 + Crowded(table, at, cut')
      ensures paramTable == Drop(table, Crowded(table, at, cut'))
    {
      GroupsLeft(groups, table, at, cut);
      var largest := LargestKey(groups);
      NextCut(groups, table, at, cut, largest);
      DropTwice(table, paramTable, Crowded(table, at, cut), groups[largest]);
      var reduced := DropPositions(paramTable, groups[largest]);
      exceeded := exceeded + groups[largest];
      paramTable := reduced;
      groups', cut' := groups - {largest}, largest;
    }

    method UpdateParamTable(templParams: Entry, lineParams: Entry)
      requires Over(Grown(paramTable, templParams, lineParams), lineParams.Keys)
      requires exceeded !! lineParams.Keys
      modifies this`paramTable, this`exceeded
      ensures exceeded >= old(exceeded)
      ensures Reduced(Grown(old(paramTable), templParams, lineParams), lineParams.Keys,
                      paramTable, exceeded - old(exceeded))
    {
      hide *;
      ghost var grown, at, exceeded0 := Grown(paramTable, templParams, lineParams), lineParams.Keys, exceeded;
      GrownIs(paramTable, templParams, lineParams);
      if templParams != map[] {
        if paramTable == {} {
          paramTable := paramTable + {templParams};
        } else {
          paramTable := WidenEntries(paramTable, templParams);
        }
      }
      paramTable := paramTable + {lineParams};
      if |paramTable| > MAX_ENTRIES {
        ghost var cut := ReduceParamTable(at);
        CrowdedWithin(grown, at, cut);
        assert exceeded - exceeded0 == Crowded(grown, at, cut);
        ReducedBy(grown, at, paramTable, Crowded(grown, at, cut), cut);
      } else {
        assert exceeded - exceeded0 == {};
        ReducedByNothing(grown, at);
      }
    }

    /** Learns one more line. The template becomes the generalisation of the longer
        history, and the table stays what that history looks like at the tracked
        positions. */
    method Update(line: string)
      requires Valid() && |Words(line)| == templLength > 0
      modifies this
      ensures Valid() && history == old(history) + [line]
      ensures KnowsMore(config.storeParams, old(templ), old(history), old(exceeded), old(params), line,
                        templ, exceeded, paramTable, params)
      ensures templWasSplit == old(templWasSplit)
    {
      hide *;
      ValidIs();
      ghost var templ0, lines, table0, exceeded0, params0 := templ, history, paramTable, exceeded, params;
      var newTempl, templParams, lineParams := GeneraliseWith(line);
      ghost var c := Collected(templParams, lineParams, params);
      TableCanGrow(config.storeParams, templ0, lines, exceeded0, table0, params0, line, c);
      templ := newTempl;
      history := history + [line];
      UpdateParamTable(templParams, lineParams);
      UpdateKeepsKnowing(config.storeParams, templ0, lines, exceeded0, table0, params0, line, c, exceeded, paramTable);
      ValidIs();
    }

    lemma HistoryWidths(l: string)
      requires Valid() && l in history
      ensures |Words(l)| == templLength
    {
      hide Words, Matches;
      KnownLinesMatch(config.storeParams, templ, history, exceeded, paramTable, params);
      MatchWidths(Words(templ), Words(l));
    }

    lemma ValidIs()
      ensures Valid() <==>
        templLength == |Words(templ)| && Knows(config.storeParams, templ, history, exceeded, paramTable, params)
    {
    }

    method GetSimilarity(line: string) returns (s: Similarity)
      requires |Words(line)| == |Words(templ)|
      ensures s == SimilarityOf(ParseLine(templ), ParseLine(line), config.threshold)
    {
      hide *;
      ParseLineIs(line);
      ParseLineIs(templ);
      var tokens := CountTokens(templ);
      ghost var t, l, threshold := ParseLine(templ), ParseLine(line), config.threshold;
      CompareStart(t, l);
      var lineIt := new WordIterator.Special(line);
      var templIt := new WordIterator.Special(templ);
      var equal, i := 0, 0;
      while !lineIt.AtEnd()
        invariant lineIt.Valid() && templIt.Valid() && lineIt != templIt
        invariant i == lineIt.index == templIt.index <= |l.toks|
        invariant lineIt.PrevSeps() == SepsBefore(l, i) && templIt.PrevSeps() == SepsBefore(t, i)
        invariant equal == EqualWords(t, l, i) && !BlockedBefore(t, l, i)
        decreases |l.toks| - i
      {
        var lineSeps := lineIt.NextSeps();
        var templSeps := templIt.NextSeps();
        CompareStep(t, l, i, t.toks[i], l.toks[i], templIt.PrevSeps(), lineIt.PrevSeps());
        if lineIt.View() == templIt.View() && lineIt.View() != "&v" {
          equal := equal + 1;
        } else if lineIt.PrevSeps() != templIt.PrevSeps() {
          BlockedLater(t, l, i + 1, threshold);
          return Value(0.0);
        } else if lineSeps == "=" && templSeps == "="
          && !IsPossibleParam(lineIt.View()) && !IsPossibleParam(templIt.View()) {
          BlockedLater(t, l, i + 1, threshold);
          return Value(0.0);
        }
        lineIt.Advance();
        templIt.Advance();
        i := i + 1;
      }
      NotBlocked(t, l, threshold);
      var lineSeps := lineIt.NextSeps();
      var templSeps := templIt.NextSeps();
      if lineSeps != templSeps {
        return Value(0.0);
      }
      s := if tokens == 0 then NotANumber else Value(equal as real / tokens as real - config.threshold);
    }

    /** `nodes` are the templates this one is split into. */
    ghost predicate SplitsInto(nodes: seq<TemplNode>)
      reads this, nodes
    {
      var restored := RestoredPositions(templ, exceeded, paramTable);
      && Usable(templ, paramTable, exceeded, restored)
      && (forall i :: 0 <= i < |nodes| ==>
            && nodes[i].templ in SplitStrings(templ, paramTable, restored)
            && nodes[i].config == config
            && nodes[i].params == if config.storeParams
                 then StoredSplitParams(templ, paramTable, exceeded, restored, nodes[i].templ) else map[])
      && (forall s :: s in SplitStrings(templ, paramTable, restored) ==>
            exists i :: 0 <= i < |nodes| && nodes[i].templ == s)
      && (forall i, j :: 0 <= i < j < |nodes| ==> nodes[i].templ != nodes[j].templ)
    }

    /** Splits the template where its table shows bijections. The lines are gone; the
        table is all there is to go by. */
    method SplitTempl() returns (newTempls: seq<TemplNode>)
      requires Valid()
      modifies this`templWasSplit
      ensures templWasSplit == (RestoredPositions(templ, exceeded, paramTable) != {})
      ensures templWasSplit <==>
        exists p :: PutBack(Rows(history), Wild(Words(templ)) - exceeded, |Words(templ)|, p)
      ensures if templWasSplit then SplitsInto(newTempls) else newTempls == []
      ensures forall n :: n in newTempls ==> fresh(n)
      ensures Valid()
    {
      hide *;
      ValidIs();
      templWasSplit := false;
      newTempls := [];
      ValidIs();
      RestoredIsOfLines(config.storeParams, templ, history, exceeded, paramTable, params);
      var restored := FindPositionsToRestore();
      if restored != {} {
        KnowsUsable(config.storeParams, templ, history, exceeded, paramTable, params);
        var strings, all := CollectSplits(templ, paramTable, exceeded, restored, config.storeParams);
        newTempls := CreateTempls(strings, all);
        templWasSplit := true;
        CreatedAreSplits(newTempls, strings, all);
        ValidIs();
      }
    }

    /** The positions in the table are those of its first entry. */
    method FindPositionsToRestore() returns (restored: set<nat>)
      requires Valid()
      ensures restored == RestoredPositions(templ, exceeded, paramTable)
    {
      KnowsCovers(config.storeParams, templ, history, exceeded, paramTable, params);
      hide *;
      restored := {};
      if paramTable != {} {
        var first :| first in paramTable;
        restored := FindRestored(paramTable, first.Keys, templLength);
      }
    }

    lemma CreatedAreSplits(nodes: seq<TemplNode>, strings: set<string>, all: Stored)
      requires var restored := RestoredPositions(templ, exceeded, paramTable);
        && Usable(templ, paramTable, exceeded, restored)
        && strings == SplitStrings(templ, paramTable, restored)
        && StoredFrom(templ, paramTable, exceeded, restored, config.storeParams, all)
      requires forall n :: n in nodes ==> n.templ in strings && IsNew(n, n.templ, all)
      requires forall s :: s in strings ==> exists i :: 0 <= i < |nodes| && nodes[i].templ == s
      requires forall i, j :: 0 <= i < j < |nodes| ==> nodes[i].templ != nodes[j].templ
      ensures SplitsInto(nodes)
    {
      hide Usable, SplitStrings, StoredFrom, SplitParams;
      var restored := RestoredPositions(templ, exceeded, paramTable);
      forall i | 0 <= i < |nodes|
        ensures nodes[i].templ in SplitStrings(templ, paramTable, restored) && nodes[i].config == config
        ensures Usable(templ, paramTable, exceeded, restored)
        ensures nodes[i].params == if config.storeParams
          then StoredSplitParams(templ, paramTable, exceeded, restored, nodes[i].templ) else map[]
      {
        assert nodes[i] in nodes;
        StoredParamsOf(templ, paramTable, exceeded, restored, config.storeParams, all, nodes[i].templ);
      }
    }

    /** Together, the new templates match the lines. */
    lemma SplitCovers(nodes: seq<TemplNode>)
      requires Valid() && RestoredPositions(templ, exceeded, paramTable) != {} && SplitsInto(nodes)
      ensures forall l :: l in history ==> exists k :: 0 <= k < |nodes| && Matches(Words(nodes[k].templ), Words(l))
      ensures forall k :: 0 <= k < |nodes| ==> SplitFits(templ, history, nodes[k].templ)
    {
      hide Words, Matches, Knows, RestoredPositions, Covers, TableOfWords, SplitStrings, StoredSplitParams, SplitFits;
      SplitLinesMatch(config.storeParams, templ, history, exceeded, paramTable, params);
      var strings := SplitStrings(templ, paramTable, RestoredPositions(templ, exceeded, paramTable));
      forall l | l in history ensures exists k :: 0 <= k < |nodes| && Matches(Words(nodes[k].templ), Words(l)) {
        var s :| s in strings && Matches(Words(s), Words(l));
      }
    }

    /** With storing on, the new templates together store what this one has stored at a
        tracked wildcard that is not restored. */
    lemma SplitKeepsStored(nodes: seq<TemplNode>, p: nat, t: string)
      requires Valid() && config.storeParams
      requires RestoredPositions(templ, exceeded, paramTable) != {} && SplitsInto(nodes)
      requires p in Wild(Words(templ)) - RestoredPositions(templ, exceeded, paramTable) - exceeded
      ensures p in params
      ensures t in params[p] <==> exists i :: 0 <= i < |nodes| && p in nodes[i].params && t in nodes[i].params[p]
    {
      hide *;
      var restored := RestoredPositions(templ, exceeded, paramTable);
      ValidIs();
      KnowsSplittable(config.storeParams, templ, history, exceeded, paramTable, params);
      TrackedIsSeen(config.storeParams, templ, history, exceeded, paramTable, params, p);
      StoredIsSeen(templ, Rows(history), exceeded, paramTable, restored, p, t);
      SplitNodesStore(nodes, p, t);
    }

    /** Where the position was given up, every new template stores a star. */
    lemma GivenUpStoresStar(nodes: seq<TemplNode>, p: nat, i: nat)
      requires config.storeParams && SplitsInto(nodes) && i < |nodes|
      requires p in Wild(Words(templ)) - RestoredPositions(templ, exceeded, paramTable) && p in exceeded
      ensures p in nodes[i].params && nodes[i].params[p] == {"*"}
    {
      hide RestoredPositions, SplitStrings, Words;
    }

    /** What the new templates store is what is stored for their strings. */
    lemma SplitNodesStore(nodes: seq<TemplNode>, p: nat, t: string)
      requires config.storeParams && SplitsInto(nodes)
      ensures var restored := RestoredPositions(templ, exceeded, paramTable);
        && Usable(templ, paramTable, exceeded, restored)
        && ((exists s :: s in SplitStrings(templ, paramTable, restored)
                         && Stores(templ, paramTable, exceeded, restored, s, p, t))
            <==> exists i :: 0 <= i < |nodes| && p in nodes[i].params && t in nodes[i].params[p])
    {
      hide RestoredPositions, SplitStrings, StoredSplitParams, TableOfWords, Words;
      var restored := RestoredPositions(templ, exceeded, paramTable);
      if s :| s in SplitStrings(templ, paramTable, restored) && Stores(templ, paramTable, exceeded, restored, s, p, t) {
        var i :| 0 <= i < |nodes| && nodes[i].templ == s;
        assert p in nodes[i].params && t in nodes[i].params[p];
      }
      if i :| 0 <= i < |nodes| && p in nodes[i].params && t in nodes[i].params[p] {
        assert Stores(templ, paramTable, exceeded, restored, nodes[i].templ, p, t);
      }
    }

    ghost predicate IsNew(n: TemplNode, s: string, all: Stored)
      reads n
    {
      n.templ == s && n.config == config && n.params == ParamsOf(all, s)
    }

    /** One new template for each string. */
    method CreateTempls(strings: set<string>, all: Stored) returns (nodes: seq<TemplNode>)
      ensures forall n :: n in nodes ==> fresh(n) && n.templ in strings && IsNew(n, n.templ, all)
      ensures forall s :: s in strings ==> exists i :: 0 <= i < |nodes| && nodes[i].templ == s
      ensures forall i, j :: 0 <= i < j < |nodes| ==> nodes[i].templ != nodes[j].templ
    {
      hide ParamsOf, Words;
      var list := ListOf(strings);
      nodes := [];
      while |nodes| < |list|
        invariant |nodes| <= |list|
        invariant forall i :: 0 <= i < |nodes| ==> fresh(nodes[i]) && IsNew(nodes[i], list[i], all)
      {
        hide IsNew;
        var n := CreateTempl(list[|nodes|], all);
        nodes := nodes + [n];
      }
      assert forall i :: 0 <= i < |nodes| ==> nodes[i].templ == list[i] && list[i] in list;
      forall s | s in strings ensures exists i :: 0 <= i < |nodes| && nodes[i].templ == s {
        var i :| 0 <= i < |list| && list[i] == s;
        assert nodes[i].templ == s;
      }
    }

    method CreateTempl(s: string, all: Stored) returns (n: TemplNode)
      ensures fresh(n) && IsNew(n, s, all)
    {
      hide ParamsOf, Words;
      n := new TemplNode(s, config, ParamsOf(all, s), []);
    }
  }

  /** The elements of a set, in some order. */
  method ListOf<T(==)>(elements: set<T>) returns (list: seq<T>)
    ensures forall x :: x in list <==> x in elements
    ensures forall i, j :: 0 <= i < j < |list| ==> list[i] != list[j]
  {
    list := [];
    var todo := elements;
    while todo != {}
      invariant todo <= elements
      invariant forall x :: x in list <==> x in elements && x !in todo
      invariant forall i, j :: 0 <= i < j < |list| ==> list[i] != list[j]
    {
      var x :| x in todo;
      list := list + [x];
      todo := todo - {x};
    }
  }

  /** What a template knows is enough to split it. */
  lemma KnowsCovers(store: bool, templ: string, lines: seq<string>, exceeded: set<nat>, table: Table, params: Params)
    requires Knows(store, templ, lines, exceeded, table, params)
    ensures var at := Wild(Words(templ)) - exceeded;
      && Over(table, at) && Covers(table, at)
      && RestoredPositions(templ, exceeded, table)
         == if table == {} then {} else Restored(table, at, |Words(templ)|)
  {
    hide Restored, Stored;
  }

  lemma RestoredWithin(table: Table, at: set<nat>, templLength: nat)
    requires Covers(table, at)
    ensures Restored(table, at, templLength) <= at
  {
  }

  /** What a template that knows its lines tells about its table. */
  lemma KnowsTable(store: bool, templ: string, lines: seq<string>, exceeded: set<nat>, table: Table, params: Params)
    requires Knows(store, templ, lines, exceeded, table, params)
    ensures var rows, at := Rows(lines), Wild(Words(templ)) - exceeded;
      && lines != [] && templ == TemplOf(lines) && |rows| == |lines| && Within(rows, at)
      && Reached(rows, Words(templ), exceeded, table)
      && (|lines| == 1 ==> at == {} && table == {})
      && (|lines| > 1 ==> table == Projections(rows, at) && table != {})
      && (forall r :: r in rows ==> |r| == |Words(templ)|)
  {
    hide Reached, Words, TemplOf;
    var rows := Rows(lines);
    assert rows[0] in rows;
    if |lines| == 1 {
      SingleRowHasNoWildcard(Words(templ), rows);
    } else {
      assert Project(rows[0], Wild(Words(templ)) - exceeded) in table;
    }
  }

  /** The positions the source restores are those put back according to the lines. */
  lemma RestoredIsOfLines(store: bool, templ: string, lines: seq<string>, exceeded: set<nat>, table: Table,
      params: Params)
    requires Knows(store, templ, lines, exceeded, table, params)
    ensures forall p :: p in RestoredPositions(templ, exceeded, table) <==>
      PutBack(Rows(lines), Wild(Words(templ)) - exceeded, |Words(templ)|, p)
  {
    hide *;
    KnowsTable(store, templ, lines, exceeded, table, params);
    KnowsCovers(store, templ, lines, exceeded, table, params);
    var rows, at, n := Rows(lines), Wild(Words(templ)) - exceeded, |Words(templ)|;
    PutBackIsTracked(rows, at, n);
    forall p ensures p in RestoredPositions(templ, exceeded, table) <==> PutBack(rows, at, n, p) {
      if |lines| > 1 {
        RestoredIsPutBack(rows, at, n, p);
      }
    }
  }

  lemma PutBackIsTracked(rows: seq<Row>, at: set<nat>, n: nat)
    ensures forall p :: PutBack(rows, at, n, p) ==> p in at
  {
  }

  lemma WildWithin(templ: Row)
    ensures forall p :: p in Wild(templ) ==> p < |templ|
  {
  }

  /** Which positions these are, without wrap-around: all in a bijection, and no others. */
  lemma RestoredIsRight(store: bool, templ: string, lines: seq<string>, exceeded: set<nat>, table: Table,
      params: Params)
    requires Knows(store, templ, lines, exceeded, table, params) && |Words(templ)| < 0x1_0000_0002
    ensures RightPutBack(Rows(lines), Wild(Words(templ)) - exceeded, |Words(templ)|,
                         RestoredPositions(templ, exceeded, table))
  {
    hide *;
    KnowsTable(store, templ, lines, exceeded, table, params);
    RestoredIsOfLines(store, templ, lines, exceeded, table, params);
    WildWithin(Words(templ));
    PutBackIsRight(Rows(lines), Wild(Words(templ)) - exceeded, |Words(templ)|,
                   RestoredPositions(templ, exceeded, table));
  }

  ghost predicate RowOfWords(r: Row) {
    forall w :: w in r ==> IsWord(w, SpecialSeps)
  }

  lemma RowsHoldWords(lines: seq<string>)
    ensures forall r :: r in Rows(lines) ==> RowOfWords(r)
  {
    hide IsWord, Words;
    forall r | r in Rows(lines) ensures RowOfWords(r) {
      var i :| 0 <= i < |lines| && r == Words(lines[i]);
      WordsAreWords(lines[i]);
    }
  }

  lemma EntryHoldsWords(r: Row, at: set<nat>)
    requires RowOfWords(r) && forall p :: p in at ==> p < |r|
    ensures EntryOfWords(Project(r, at))
  {
    hide IsWord;
    assert forall p :: p in at ==> r[p] in r;
  }

  lemma TableHoldsWords(templ: Row, lines: seq<string>, exceeded: set<nat>, table: Table)
    requires Learned(templ, Rows(lines), exceeded, table)
    ensures TableOfWords(table)
  {
    hide RowOfWords, EntryOfWords, Rows, Generalises;
    RowsHoldWords(lines);
    forall e | e in table ensures EntryOfWords(e) {
      var r :| r in Rows(lines) && e == Project(r, Wild(templ) - exceeded);
      EntryHoldsWords(r, Wild(templ) - exceeded);
    }
  }

  lemma KnowsUsable(store: bool, templ: string, lines: seq<string>, exceeded: set<nat>, table: Table, params: Params)
    requires Knows(store, templ, lines, exceeded, table, params)
    requires RestoredPositions(templ, exceeded, table) != {}
    ensures var restored := RestoredPositions(templ, exceeded, table);
      && restored <= Wild(Words(templ)) - exceeded
      && Usable(templ, table, exceeded, restored) && |Words(templ)| > 0
      && LearnedTable(Words(templ), Rows(lines), exceeded, table)
  {
    KnowsCovers(store, templ, lines, exceeded, table, params);
    TableHoldsWords(Words(templ), lines, exceeded, table);
    RestoredWithin(table, Wild(Words(templ)) - exceeded, |Words(templ)|);
    hide Restored, Generalises, Stored, Projections;
    var p :| p in RestoredPositions(templ, exceeded, table);
    assert p < |Words(templ)|;
  }

  lemma KnowsSplittable(store: bool, templ: string, lines: seq<string>, exceeded: set<nat>, table: Table,
      params: Params)
    requires Knows(store, templ, lines, exceeded, table, params)
    requires RestoredPositions(templ, exceeded, table) != {}
    ensures Splittable(templ, Rows(lines), exceeded, table, RestoredPositions(templ, exceeded, table))
  {
    hide Words, Stored, Restored, Generalises, Projections, TableOfWords;
    KnowsUsable(store, templ, lines, exceeded, table, params);
  }

  lemma TrackedIsSeen(store: bool, templ: string, lines: seq<string>, exceeded: set<nat>, table: Table,
      params: Params, p: nat)
    requires Knows(store, templ, lines, exceeded, table, params)
    requires store && p in Wild(Words(templ)) && p !in exceeded
    ensures p in params && params[p] == SeenAt(Rows(lines), p)
  {
    hide Learned, Words, SeenAt, Rows;
  }

  /** A template matches all lines it was learned from. */
  lemma KnownLinesMatch(store: bool, templ: string, lines: seq<string>, exceeded: set<nat>, table: Table,
      params: Params)
    requires Knows(store, templ, lines, exceeded, table, params)
    ensures lines != [] && forall l :: l in lines ==> Matches(Words(templ), Words(l))
  {
    hide Words, Matches, Stored;
    forall l | l in lines ensures Matches(Words(templ), Words(l)) {
      var i :| 0 <= i < |lines| && lines[i] == l;
      assert Rows(lines)[i] == Words(l);
      LearnedMatches(Words(templ), Rows(lines), exceeded, table, Words(l));
    }
  }

  /** Where all lines have the same word, so has the template. */
  ghost predicate KeepsAgreed(lines: seq<string>, w: string) {
    forall p, t: string :: 0 <= p < |Words(w)| && AllHave(lines, p, t) ==> Words(w)[p] == t
  }

  ghost predicate AllHave(lines: seq<string>, p: int, t: string) {
    lines != [] && forall l :: l in lines ==> 0 <= p < |Words(l)| && Words(l)[p] == t
  }

  lemma KnownKeepsAgreed(store: bool, templ: string, lines: seq<string>, exceeded: set<nat>, table: Table,
      params: Params)
    requires Knows(store, templ, lines, exceeded, table, params)
    ensures KeepsAgreed(lines, templ)
  {
    hide Words, Stored, Projections, Rows;
    forall p, t: string | 0 <= p < |Words(templ)| && AllHave(lines, p, t)
      ensures Words(templ)[p] == t
    {
      forall r | r in Rows(lines) ensures r[p] == t {
        var l := LineOfRow(lines, r);
      }
      AgreedIsKept(Words(templ), Rows(lines), p, t);
    }
  }

  /** A more specific template that matches a line keeps what the general one keeps. */
  lemma SpecificKeepsAgreed(templ: string, lines: seq<string>, s: string, l: string)
    requires KeepsAgreed(lines, templ) && Wild(Words(s)) <= Wild(Words(templ)) && |Words(s)| == |Words(templ)|
    requires l in lines && Matches(Words(s), Words(l)) && WILDCARD !in Words(lines[0])
    ensures KeepsAgreed(lines, s)
  {
    hide Words;
    forall p, t: string | 0 <= p < |Words(s)| && AllHave(lines, p, t)
      ensures Words(s)[p] == t
    {
      assert lines[0] in lines && Words(lines[0])[p] == t && t in Words(lines[0]);
      assert Words(l)[p] == t && Words(templ)[p] == t;
      assert p !in Wild(Words(templ));
      assert p !in Wild(Words(s));
    }
  }

  /** So do, together, the templates it is split into; and each of those matches one
      of the lines and has at least as many literal words. */
  lemma SplitLinesMatch(store: bool, templ: string, lines: seq<string>, exceeded: set<nat>, table: Table,
      params: Params)
    requires Knows(store, templ, lines, exceeded, table, params)
    requires RestoredPositions(templ, exceeded, table) != {}
    ensures var restored := RestoredPositions(templ, exceeded, table);
      && Usable(templ, table, exceeded, restored)
      && (forall l :: l in lines ==>
            exists s :: s in SplitStrings(templ, table, restored) && Matches(Words(s), Words(l)))
      && (forall s :: s in SplitStrings(templ, table, restored) ==> SplitFits(templ, lines, s))
      && |SplitStrings(templ, table, restored)| >= 2
  {
    KnowsUsable(store, templ, lines, exceeded, table, params);
    hide Words, Matches, Knows, LearnedTable, RestoredPositions, SplitStrings, Usable, SplitFits, KeepsAgreed;
    var restored := RestoredPositions(templ, exceeded, table);
    assert Splittable(templ, Rows(lines), exceeded, table, restored);
    forall l | l in lines
      ensures exists s :: s in SplitStrings(templ, table, restored) && Matches(Words(s), Words(l))
    {
      var i :| 0 <= i < |lines| && lines[i] == l;
      assert Rows(lines)[i] == Words(l);
      SplitCoversRow(templ, Rows(lines), exceeded, table, restored, Words(l));
    }
    KnownKeepsAgreed(store, templ, lines, exceeded, table, params);
    FounderHasNoWildcard(store, templ, lines, exceeded, table, params);
    forall s | s in SplitStrings(templ, table, restored) ensures SplitFits(templ, lines, s) {
      SplitStringFits(templ, lines, exceeded, table, restored, s);
    }
    SplitAtLeastTwo(templ, Rows(lines), exceeded, table, restored);
  }

  lemma FounderHasNoWildcard(store: bool, templ: string, lines: seq<string>, exceeded: set<nat>, table: Table,
      params: Params)
    requires Knows(store, templ, lines, exceeded, table, params)
    ensures lines != [] && WILDCARD !in Words(lines[0])
  {
    KnownLinesMatch(store, templ, lines, exceeded, table, params);
    hide Words, Matches, Stored, Projections, Generalises;
    assert Rows(lines)[0] == Words(lines[0]);
  }

  /** A new template that matches a line and keeps the literals of the old one. */
  ghost predicate SplitFits(templ: string, lines: seq<string>, s: string) {
    && (exists l :: l in lines && Matches(Words(s), Words(l)))
    && |Words(s)| == |Words(templ)| && KeepsAgreed(lines, s)
    && forall threshold :: MostlyLiteral(Words(templ), threshold) ==> MostlyLiteral(Words(s), threshold)
  }

  lemma LineOfRow(lines: seq<string>, r: Row) returns (l: string)
    requires r in Rows(lines)
    ensures l in lines && Words(l) == r
  {
    hide Words;
    var i :| 0 <= i < |lines| && r == Words(lines[i]);
    l := lines[i];
  }

  lemma SplitStringFits(templ: string, lines: seq<string>, exceeded: set<nat>, table: Table, restored: set<nat>,
      s: string)
    requires Splittable(templ, Rows(lines), exceeded, table, restored) && s in SplitStrings(templ, table, restored)
    requires KeepsAgreed(lines, templ) && lines != [] && WILDCARD !in Words(lines[0])
    ensures SplitFits(templ, lines, s)
  {
    hide Words, Matches, Splittable, SplitStrings, MostlyLiteral, Wild, KeepsAgreed;
    SplitStemsFromRow(templ, Rows(lines), exceeded, table, restored, s);
    var r :| r in Rows(lines) && Matches(Words(s), r);
    var l := LineOfRow(lines, r);
    LiteralsKept(Words(s), Words(templ));
    SpecificKeepsAgreed(templ, lines, s, l);
  }

  ghost function RestoredPositions(templ: string, exceeded: set<nat>, table: Table): set<nat> {
    var at := Wild(Words(templ)) - exceeded;
    if table != {} && Covers(table, at) then Restored(table, at, |Words(templ)|) else {}
  }

  lemma ParseLineIs(s: string)
    ensures ParseLine(s) == Parse(s, SpecialSeps)
  {
  }
}

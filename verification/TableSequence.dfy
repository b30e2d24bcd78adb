/**
 What a template keeps after a sequence of lines is a function of these lines: which
 positions its parameter table gives up, and what is left of it
 (`update`, `update_param_table` and `reduce_param_table` of
 flt/templating/online_templater.hpp).
*/
module TableSequences {
  import opened ParamTables

  // ------------------------------------------------------------------- what is given up

  /** A table of at most 500 entries gives up nothing. From a larger one the positions with
      the most different words go, those with equally many together, and no fewer than it
      takes: without the last of them it would not fit. */
  lemma ReducedGivesUpLeast(before: Table, at: set<nat>, after: Table, gone: set<nat>, fewer: set<nat>)
    requires Reduced(before, at, after, gone)
    ensures |before| <= 500 ==> gone == {} && after == before
    ensures |before| > 500 ==> |after| <= 500 && after == set e | e in before :: e - gone
    ensures forall p, q :: p in gone && q in at && |TokensAt(before, q)| >= |TokensAt(before, p)| ==> q in gone
    ensures (
      && fewer < gone
      && forall p, q :: p in fewer && q in gone && |TokensAt(before, q)| >= |TokensAt(before, p)| ==> q in fewer)
      ==> |set e | e in before :: e - fewer| > 500
  {
    if |before| > 500 {
      var cut: nat :| ReducedAt(before, at, after, gone, cut);
      assert after == set e | e in before :: e - gone;
      if fewer < gone && forall p, q ::
          p in fewer && q in gone && |TokensAt(before, q)| >= |TokensAt(before, p)| ==> q in fewer {
        FewerIsMoreCrowded(before, at, cut, fewer);
        DropMore(before, fewer, Crowded(before, at, cut + 1));
        assert Drop(before, fewer) == set e | e in before :: e - fewer;
      }
    }
  }

  lemma FewerIsMoreCrowded(before: Table, at: set<nat>, cut: nat, fewer: set<nat>)
    requires fewer < Crowded(before, at, cut)
    requires forall p, q ::
      p in fewer && q in Crowded(before, at, cut) && |TokensAt(before, q)| >= |TokensAt(before, p)| ==> q in fewer
    ensures fewer <= Crowded(before, at, cut + 1)
  {
    hide TokensAt;
    assert !(Crowded(before, at, cut) <= fewer);
    var q :| q in Crowded(before, at, cut) && q !in fewer;
    forall p | p in fewer ensures |TokensAt(before, p)| >= cut + 1 {
      assert |TokensAt(before, q)| < |TokensAt(before, p)|;
    }
  }

  /** A reduction is always possible. */
  lemma ReducedExists(before: Table, at: set<nat>) returns (after: Table, gone: set<nat>)
    requires Over(before, at)
    ensures Reduced(before, at, after, gone)
  {
    if |before| <= MAX_ENTRIES {
      after, gone := before, {};
    } else {
      var top := TopCount(before, at);
      CrowdedNone(before, at, top + 1);
      DropNothing(before);
      DropAll(before, at);
      assert Crowded(before, at, 0) == at;
      var cut := LargestCut(before, at, top);
      gone := Crowded(before, at, cut);
      after := Drop(before, gone);
      assert ReducedAt(before, at, after, gone, cut);
    }
  }

  lemma {:induction false} TopCount(table: Table, at: set<nat>) returns (top: nat)
    ensures forall p :: p in at ==> |TokensAt(table, p)| <= top
  {
    if at == {} {
      top := 0;
    } else {
      var p :| p in at;
      top := TopCount(table, at - {p});
      if top < |TokensAt(table, p)| { top := |TokensAt(table, p)|; }
    }
  }

  lemma CrowdedNone(table: Table, at: set<nat>, cut: nat)
    requires forall p :: p in at ==> |TokensAt(table, p)| < cut
    ensures Crowded(table, at, cut) == {}
  {
  }

  lemma {:induction false} LargestCut(before: Table, at: set<nat>, top: nat) returns (cut: nat)
    requires |Drop(before, Crowded(before, at, 0))| <= MAX_ENTRIES < |Drop(before, Crowded(before, at, top + 1))|
    ensures |Drop(before, Crowded(before, at, cut))| <= MAX_ENTRIES < |Drop(before, Crowded(before, at, cut + 1))|
  {
    hide Drop, Crowded;
    if |Drop(before, Crowded(before, at, top))| <= MAX_ENTRIES {
      cut := top;
    } else {
      cut := LargestCut(before, at, top - 1);
    }
  }

  // --------------------------------------------------------- a function of the lines

  lemma SteppedUnique(templ: Row, exceeded: set<nat>, table: Table, row: Row,
                      t1: Row, x1: set<nat>, d1: Table, t2: Row, x2: set<nat>, d2: Table)
    requires |row| == |templ|
    requires Stepped(templ, exceeded, table, row, t1, x1, d1) && Stepped(templ, exceeded, table, row, t2, x2, d2)
    ensures t1 == t2 && x1 == x2 && d1 == d2
  {
    hide Grown, Reduced;
    var at := Wild(t1) - exceeded;
    var grown := Grown(table, Project(templ, NewWild(templ, row) - exceeded), Project(row, at));
    ReducedIsUnique(grown, at, d1, x1 - exceeded, d2, x2 - exceeded);
    assert x1 == exceeded + (x1 - exceeded) && x2 == exceeded + (x2 - exceeded);
  }

  lemma OneRowSays(rows: seq<Row>, templ: Row, exceeded: set<nat>, table: Table)
    requires Reached(rows, templ, exceeded, table) && |rows| == 1
    ensures templ == rows[0] && exceeded == {} && table == {}
  {
  }

  /** After some lines, template, table and what was given up are determined. */
  lemma {:induction false} ReachedUnique(rows: seq<Row>, t1: Row, x1: set<nat>, d1: Table,
                                         t2: Row, x2: set<nat>, d2: Table)
    requires rows != [] && Reached(rows, t1, x1, d1) && Reached(rows, t2, x2, d2)
    ensures t1 == t2 && x1 == x2 && d1 == d2
    decreases |rows|
  {
    hide Reached, Stepped;
    if |rows| == 1 {
      OneRowSays(rows, t1, x1, d1);
      OneRowSays(rows, t2, x2, d2);
    } else {
      var u1, y1, e1 := ReachedBefore(rows, t1, x1, d1);
      var u2, y2, e2 := ReachedBefore(rows, t2, x2, d2);
      ReachedUnique(rows[..|rows| - 1], u1, y1, e1, u2, y2, e2);
      SteppedUnique(u1, y1, e1, rows[|rows| - 1], t1, x1, d1, t2, x2, d2);
    }
  }

  lemma ReachedMore(rows: seq<Row>, templ: Row, exceeded: set<nat>, table: Table, row: Row,
                    templ': Row, exceeded': set<nat>, table': Table)
    requires rows != [] && Reached(rows, templ, exceeded, table) && |row| == |templ|
    requires Stepped(templ, exceeded, table, row, templ', exceeded', table')
    ensures Reached(rows + [row], templ', exceeded', table')
  {
    assert (rows + [row])[..|rows|] == rows;
    LastStep(rows + [row], templ, exceeded, table, templ', exceeded', table');
  }

  lemma LastStep(rows: seq<Row>, templ: Row, exceeded: set<nat>, table: Table,
                 templ': Row, exceeded': set<nat>, table': Table)
    requires |rows| > 1 && |rows[|rows| - 1]| == |templ|
    requires Reached(rows[..|rows| - 1], templ, exceeded, table)
    requires Stepped(templ, exceeded, table, rows[|rows| - 1], templ', exceeded', table')
    ensures Reached(rows, templ', exceeded', table')
  {
    hide Stepped;
  }

  /** The step exists if the founding line does not have the wildcard as a word. */
  lemma SteppedExists(templ: Row, rows: seq<Row>, exceeded: set<nat>, table: Table, row: Row)
    returns (templ': Row, exceeded': set<nat>, table': Table)
    requires Learned(templ, rows, exceeded, table) && |row| == |templ|
    ensures Stepped(templ, exceeded, table, row, templ', exceeded', table')
  {
    templ' := Merge(templ, row);
    var at := Wild(templ') - exceeded;
    var grown := Grown(table, Project(templ, NewWild(templ, row) - exceeded), Project(row, at));
    GrownTable(templ, rows, exceeded, table, row);
    var gone;
    table', gone := ReducedExists(grown, at);
    exceeded' := exceeded + gone;
    hide *;
    ReducedDrops(grown, at, table', gone);
    assert exceeded' - exceeded == gone;
    SteppedBy(templ, exceeded, table, row, table', gone);
  }

  lemma SteppedBy(templ: Row, exceeded: set<nat>, table: Table, row: Row, table': Table, gone: set<nat>)
    requires |row| == |templ| && exceeded + gone - exceeded == gone
    requires var at := Wild(Merge(templ, row)) - exceeded;
      Reduced(Grown(table, Project(templ, NewWild(templ, row) - exceeded), Project(row, at)), at, table', gone)
    ensures Stepped(templ, exceeded, table, row, Merge(templ, row), exceeded + gone, table')
  {
    hide Grown, Reduced;
  }

  lemma SteppedWidth(templ: Row, exceeded: set<nat>, table: Table, row: Row,
                     templ': Row, exceeded': set<nat>, table': Table)
    requires |row| == |templ| && Stepped(templ, exceeded, table, row, templ', exceeded', table')
    ensures |templ'| == |row| && Wild(templ) <= Wild(templ') && exceeded <= exceeded'
  {
  }

  lemma {:induction false} ReachedExists(rows: seq<Row>) returns (templ: Row, exceeded: set<nat>, table: Table)
    requires rows != [] && WILDCARD !in rows[0] && forall r :: r in rows ==> |r| == |rows[0]|
    ensures Reached(rows, templ, exceeded, table) && |templ| == |rows[0]|
    decreases |rows|
  {
    var n := |rows| - 1;
    if n == 0 {
      templ, exceeded, table := rows[0], {}, {};
    } else {
      hide *;
      var before, row := rows[..n], rows[n];
      assert rows == before + [row];
      assert row in rows && before[0] == rows[0] && forall r :: r in before ==> r in rows;
      var t, x, d := ReachedExists(before);
      FoundedIsLearned(before, t, x, d);
      templ, exceeded, table := SteppedExists(t, before, x, d, row);
      ReachedMore(before, t, x, d, row, templ, exceeded, table);
      SteppedWidth(t, x, d, row, templ, exceeded, table);
    }
  }

  // --------------------------------------------------------- few different projections

  /** Fewer rows at fewer positions do not differ more. */
  lemma FewerProjections(some: seq<Row>, rows: seq<Row>, fewer: set<nat>, at: set<nat>)
    requires Within(rows, at) && fewer <= at && forall r :: r in some ==> r in rows
    ensures Within(some, fewer) && |Projections(some, fewer)| <= |Projections(rows, at)|
  {
    var gone := at - fewer;
    DropIsProjection(rows, at, gone);
    assert at - gone == fewer;
    DropNothing(Projections(rows, at));
    DropMore(Projections(rows, at), {}, gone);
    assert Projections(some, fewer) <= Projections(rows, fewer);
    FewerElements(Projections(some, fewer), Projections(rows, fewer));
  }

  /** As long as the lines differ in at most 500 ways at the wildcards, no position is
      given up, and the table has all of them. */
  lemma {:induction false} FewAreKept(rows: seq<Row>, templ: Row, exceeded: set<nat>, table: Table)
    requires Reached(rows, templ, exceeded, table) && rows != [] && WILDCARD !in rows[0]
    requires Within(rows, Wild(templ)) && |Projections(rows, Wild(templ))| <= 500
    ensures exceeded == {} && (|rows| > 1 ==> table == Projections(rows, Wild(templ)))
    decreases |rows|
  {
    hide *;
    if |rows| == 1 {
      OneRowSays(rows, templ, exceeded, table);
    } else {
      var t, x, d := ReachedBefore(rows, templ, exceeded, table);
      var before, row := rows[..|rows| - 1], rows[|rows| - 1];
      assert rows == before + [row] && forall r :: r in before ==> r in rows;
      SteppedWidth(t, x, d, row, templ, exceeded, table);
      FewerProjections(before, rows, Wild(t), Wild(templ));
      FewAreKept(before, t, x, d);
      FoundedIsLearned(before, t, x, d);
      FewStep(before, t, d, row, templ, exceeded, table);
    }
  }

  lemma FewStep(rows: seq<Row>, templ: Row, table: Table, row: Row, templ': Row, exceeded': set<nat>, table': Table)
    requires Learned(templ, rows, {}, table) && |row| == |templ|
    requires Stepped(templ, {}, table, row, templ', exceeded', table')
    requires Within(rows + [row], Wild(templ')) && |Projections(rows + [row], Wild(templ'))| <= 500
    ensures exceeded' == {} && table' == Projections(rows + [row], Wild(templ'))
  {
    GrownTable(templ, rows, {}, table, row);
    hide Learned, Grown, Projections, Merge;
    assert Wild(templ') - {} == Wild(templ') && exceeded' - {} == exceeded';
  }

  /** A table never has more than 500 entries. */
  lemma TableFits(rows: seq<Row>, templ: Row, exceeded: set<nat>, table: Table)
    requires Reached(rows, templ, exceeded, table) && rows != [] && WILDCARD !in rows[0]
    ensures |table| <= 500
  {
    FoundedIsLearned(rows, templ, exceeded, table);
  }
}

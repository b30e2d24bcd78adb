/**
 Templates as generalisations of rows of words, and the parameter table a
 template keeps instead of the rows it has seen
 (flt/templating/online_templater.hpp).

 The table is a set of entries; an entry maps token positions to tokens. The
 central notion is `Projections`: the rows restricted to a set of positions.
*/
module ParamTables {

  const WILDCARD := "<*>"

  /** Largest number of entries a parameter table may keep. */
  const MAX_ENTRIES := 500

  type Row = seq<string>
  type Entry = map<nat, string>
  type Table = set<Entry>

  predicate Matches(templ: Row, row: Row) {
    |templ| == |row| && forall p :: 0 <= p < |row| ==> templ[p] == WILDCARD || templ[p] == row[p]
  }

  lemma MatchWidths(templ: Row, row: Row)
    requires Matches(templ, row)
    ensures |templ| == |row|
  {
  }

  function Wild(templ: Row): set<nat> {
    set p: nat | p < |templ| && templ[p] == WILDCARD
  }

  // ----------------------------------------------- least general generalisation

  ghost predicate Agree(rows: seq<Row>, p: nat)
    requires forall r :: r in rows ==> p < |r|
  {
    forall r, r' :: r in rows && r' in rows ==> r[p] == r'[p]
  }

  /** `templ` keeps a word exactly where all rows have that word. */
  ghost predicate Generalises(templ: Row, rows: seq<Row>) {
    && rows != []
    && (forall r :: r in rows ==> |r| == |templ|)
    && forall p :: 0 <= p < |templ| ==>
         templ[p] == if Agree(rows, p) then rows[0][p] else WILDCARD
  }

  /** A generalisation matches all its rows, and whatever else matches them all
      is at least as general. */
  lemma LeastGeneral(templ: Row, rows: seq<Row>)
    requires Generalises(templ, rows)
    ensures forall r :: r in rows ==> Matches(templ, r)
    ensures forall other: Row, x: Row ::
      (forall r :: r in rows ==> Matches(other, r)) && Matches(templ, x) ==> Matches(other, x)
  {
    forall other: Row, x: Row | (forall r :: r in rows ==> Matches(other, r)) && Matches(templ, x)
      ensures Matches(other, x)
    {
      assert Matches(other, rows[0]);
      forall p | 0 <= p < |other| && other[p] != WILDCARD
        ensures other[p] == x[p]
      {
        assert forall r :: r in rows ==> Matches(other, r) && r[p] == other[p];
        assert Agree(rows, p);
      }
    }
  }

  lemma AgreedIsKept(templ: Row, rows: seq<Row>, p: nat, t: string)
    requires Generalises(templ, rows) && p < |templ|
    requires forall r :: r in rows ==> r[p] == t
    ensures templ[p] == t
  {
    assert rows[0] in rows;
    assert Agree(rows, p);
  }

  /** Positions where the template loses its word to the next row. */
  function NewWild(templ: Row, row: Row): set<nat>
    requires |templ| == |row|
  {
    set p: nat | p < |row| && templ[p] != WILDCARD && templ[p] != row[p]
  }

  /** The template after one more row. */
  function Merge(templ: Row, row: Row): (m: Row)
    requires |templ| == |row|
    ensures |m| == |row|
    ensures Wild(m) == Wild(templ) + NewWild(templ, row)
  {
    seq(|row|, p requires 0 <= p < |row| => if templ[p] != row[p] then WILDCARD else templ[p])
  }

  lemma MergeGeneralises(templ: Row, rows: seq<Row>, row: Row)
    requires Generalises(templ, rows) && |row| == |templ|
    ensures Generalises(Merge(templ, row), rows + [row])
  {
    var rows', m := rows + [row], Merge(templ, row);
    assert forall r :: r in rows' <==> r in rows || r == row;
    forall p | 0 <= p < |m|
      ensures m[p] == if Agree(rows', p) then rows'[0][p] else WILDCARD
    {
      assert rows[0] in rows && row in rows';
      assert row[p] in row && rows[0][p] in rows[0];
      if Agree(rows', p) {
        assert Agree(rows, p);
        assert rows[0] in rows';
      } else if Agree(rows, p) {
        assert templ[p] == rows[0][p] != row[p];
      }
    }
  }

  // -------------------------------------------------------------- projections

  function Project(row: Row, at: set<nat>): Entry
    requires forall p :: p in at ==> p < |row|
  {
    map p | p in at :: row[p]
  }

  ghost predicate Within(rows: seq<Row>, at: set<nat>) {
    forall r, p :: r in rows && p in at ==> p < |r|
  }

  /** All rows, restricted to some positions. */
  ghost function Projections(rows: seq<Row>, at: set<nat>): Table
    requires Within(rows, at)
  {
    set r | r in rows :: Project(r, at)
  }

  /** `table` only has entries over the positions `at`. */
  predicate Over(table: Table, at: set<nat>) {
    forall e :: e in table ==> e.Keys == at
  }

  /** Entry-wise removal of positions, as the loop of the reduction does it. */
  ghost function Drop(table: Table, gone: set<nat>): Table {
    set e | e in table :: e - gone
  }

  lemma DropNothing(table: Table)
    ensures Drop(table, {}) == table
  {
    assert forall e: Entry :: e - {} == e;
  }

  /** Entry-wise insertion. As with `std::map::insert`, a key that is there keeps its value. */
  ghost function Widen(table: Table, extra: Entry): Table {
    set e | e in table :: extra + e
  }

  /** One more row: widening by the words the template loses and inserting the
      row's own words is projecting the longer history on more positions. */
  lemma WidenIsProjection(rows: seq<Row>, row: Row, templ: Row, at: set<nat>, added: set<nat>)
    requires Within(rows + [row], at + added)
    requires at !! added && forall p :: p in added ==> p < |templ|
    requires forall r, p :: r in rows && p in added ==> r[p] == templ[p]
    ensures Within(rows, at)
    ensures Widen(Projections(rows, at), Project(templ, added)) + {Project(row, at + added)}
         == Projections(rows + [row], at + added)
  {
    var all := at + added;
    assert forall r :: r in rows + [row] <==> r in rows || r == row;
    assert forall p :: p in at ==> p in all;
    forall r | r in rows
      ensures Project(templ, added) + Project(r, at) == Project(r, all)
    {
      assert forall p :: p in added ==> p in all;
    }
    var left := Widen(Projections(rows, at), Project(templ, added)) + {Project(row, all)};
    var right := Projections(rows + [row], all);
    forall e | e in left ensures e in right {
      if e != Project(row, all) {
        var d :| d in Projections(rows, at) && e == Project(templ, added) + d;
        var r :| r in rows && d == Project(r, at);
        assert e == Project(r, all);
      }
    }
    forall e | e in right ensures e in left {
      var r :| r in rows + [row] && e == Project(r, all);
      if r in rows {
        assert Project(r, at) in Projections(rows, at);
        assert e == Project(templ, added) + Project(r, at);
      }
    }
  }

  /** The table before it is reduced, as `update_param_table` builds it. */
  ghost function Grown(table: Table, templParams: Entry, lineParams: Entry): Table {
    (if templParams == map[] then table
     else if table == {} then {templParams}
     else Widen(table, templParams)) + {lineParams}
  }

  /** From the second row on, growing the table keeps it the projection of the
      whole history; the first row enters the table only with the second. */
  lemma GrownIsProjection(table: Table, rows: seq<Row>, row: Row, templ: Row, at: set<nat>, added: set<nat>)
    requires Within(rows + [row], at + added) && rows != []
    requires at !! added && forall p :: p in added ==> p < |templ|
    requires forall r, p :: r in rows && p in added ==> r[p] == templ[p]
    requires |rows| == 1 ==> table == {} && at == {}
    requires |rows| > 1 ==> Within(rows, at) && table == Projections(rows, at)
    ensures Grown(table, Project(templ, added), Project(row, at + added)) == Projections(rows + [row], at + added)
  {
    var extra := Project(templ, added);
    WidenIsProjection(rows, row, templ, at, added);
    assert rows[0] in rows;
    assert extra == map[] <==> added == {} by {
      if p :| p in added { assert p in extra; }
    }
    if |rows| == 1 {
      assert forall r :: r in rows <==> r == rows[0];
      assert Projections(rows, at) == {map[]};
      assert Widen({map[]}, extra) == {extra} by { assert extra + map[] == extra; }
      if added == {} {
        assert Project(row, at + added) == map[];
      }
    } else {
      assert Project(rows[0], at) in table;
      if added == {} {
        assert forall e: Entry :: extra + e == e;
        assert Widen(table, extra) == table;
      }
    }
  }

  lemma DropIsProjection(rows: seq<Row>, at: set<nat>, gone: set<nat>)
    requires Within(rows, at)
    ensures Within(rows, at - gone)
    ensures Drop(Projections(rows, at), gone) == Projections(rows, at - gone)
  {
    forall r | r in rows
      ensures Project(r, at) - gone == Project(r, at - gone)
    {
    }
    var left, right := Drop(Projections(rows, at), gone), Projections(rows, at - gone);
    forall e | e in left ensures e in right {
      var d :| d in Projections(rows, at) && e == d - gone;
      var r :| r in rows && d == Project(r, at);
      assert e == Project(r, at - gone);
    }
    forall e | e in right ensures e in left {
      var r :| r in rows && e == Project(r, at - gone);
      assert Project(r, at) in Projections(rows, at);
      assert e == Project(r, at) - gone;
    }
  }

  // ----------------------------------------------------------- token statistics

  /** The distinct tokens of a table at a position. */
  function TokensAt(table: Table, p: nat): set<string> {
    set e | e in table && p in e :: e[p]
  }

  /** The distinct tokens of the rows at a position. */
  ghost function SeenAt(rows: seq<Row>, p: nat): set<string> {
    set r | r in rows && p < |r| :: r[p]
  }

  lemma TokensOfProjections(rows: seq<Row>, at: set<nat>, p: nat)
    requires Within(rows, at) && p in at
    ensures TokensAt(Projections(rows, at), p) == SeenAt(rows, p)
  {
    var left, right := TokensAt(Projections(rows, at), p), SeenAt(rows, p);
    forall t | t in left ensures t in right {
      var e :| e in Projections(rows, at) && p in e && t == e[p];
      var r :| r in rows && e == Project(r, at);
      assert t == r[p];
    }
    forall t | t in right ensures t in left {
      var r :| r in rows && p < |r| && t == r[p];
      assert Project(r, at) in Projections(rows, at);
      assert Project(r, at)[p] == t;
    }
  }

  // ---------------------------------------------------------------- reduction

  /** The tracked positions with at least `cut` distinct tokens. */
  function Crowded(table: Table, at: set<nat>, cut: nat): set<nat> {
    set p | p in at && |TokensAt(table, p)| >= cut
  }

  /** What the reduction does: a table that fits is kept. From one that does not,
      the positions with the most distinct tokens go, group by group, until it
      fits; the cut is the first one that makes it fit. */
  ghost predicate Reduced(before: Table, at: set<nat>, after: Table, gone: set<nat>) {
    if |before| <= MAX_ENTRIES then after == before && gone == {}
    else exists cut: nat :: ReducedAt(before, at, after, gone, cut)
  }

  ghost predicate ReducedAt(before: Table, at: set<nat>, after: Table, gone: set<nat>, cut: nat) {
    && gone == Crowded(before, at, cut)
    && after == Drop(before, gone)
    && |after| <= MAX_ENTRIES < |Drop(before, Crowded(before, at, cut + 1))|
  }

  ghost function Image<A(!new), B>(f: A -> B, s: set<A>): set<B> {
    set a | a in s :: f(a)
  }

  lemma {:induction false} ImageSize<A(!new), B>(f: A -> B, s: set<A>)
    ensures |Image(f, s)| <= |s|
    decreases |s|
  {
    if s != {} {
      var x :| x in s;
      ImageSize(f, s - {x});
      assert Image(f, s) == Image(f, s - {x}) + {f(x)};
    }
  }

  lemma DropMore(table: Table, fewer: set<nat>, more: set<nat>)
    requires fewer <= more
    ensures |Drop(table, more)| <= |Drop(table, fewer)|
  {
    var f := (e: Entry) => e - more;
    ImageSize(f, Drop(table, fewer));
    forall d | d in Drop(table, more) ensures d in Image(f, Drop(table, fewer)) {
      var e :| e in table && d == e - more;
      assert e - fewer in Drop(table, fewer) && (e - fewer) - more == e - more;
    }
    forall d | d in Image(f, Drop(table, fewer)) ensures d in Drop(table, more) {
      var g :| g in Drop(table, fewer) && d == g - more;
      var e :| e in table && g == e - fewer;
      assert (e - fewer) - more == e - more;
    }
    assert Image(f, Drop(table, fewer)) == Drop(table, more);
  }

  /** The reduction leaves no choice: table and forgotten positions are determined. */
  lemma ReducedIsUnique(before: Table, at: set<nat>, a1: Table, g1: set<nat>, a2: Table, g2: set<nat>)
    requires Reduced(before, at, a1, g1) && Reduced(before, at, a2, g2)
    ensures a1 == a2 && g1 == g2
  {
    if |before| > MAX_ENTRIES {
      var c1: nat :| ReducedAt(before, at, a1, g1, c1);
      var c2: nat :| ReducedAt(before, at, a2, g2, c2);
      if c1 < c2 {
        DropMore(before, Crowded(before, at, c2), Crowded(before, at, c1 + 1));
      } else if c2 < c1 {
        DropMore(before, Crowded(before, at, c1), Crowded(before, at, c2 + 1));
      }
    }
  }

  lemma DropTwice(table: Table, once: Table, g1: set<nat>, g2: set<nat>)
    requires once == Drop(table, g1)
    ensures Drop(once, g2) == Drop(table, g1 + g2)
  {
    assert forall e: Entry :: (e - g1) - g2 == e - (g1 + g2);
    forall d | d in Drop(table, g1 + g2) ensures d in Drop(once, g2) {
      var e :| e in table && d == e - (g1 + g2);
      assert e - g1 in once;
    }
  }

  lemma DropAll(table: Table, at: set<nat>)
    requires Over(table, at)
    ensures |Drop(table, at)| <= 1
  {
    var none: Entry := map[];
    forall e | e in table ensures e - at == none { }
    FewerElements(Drop(table, at), {none});
  }

  /** The tokens of a single entry at a position. */
  function TokenAt(e: Entry, p: nat): set<string> {
    if p in e then {e[p]} else {}
  }

  function Lookup(uniq: map<nat, set<string>>, p: nat): set<string> {
    if p in uniq then uniq[p] else {}
  }

  lemma TokensAtInsert(table: Table, e: Entry, p: nat)
    ensures TokensAt(table + {e}, p) == TokensAt(table, p) + TokenAt(e, p)
  {
  }

  lemma TrackedHaveTokens(table: Table, at: set<nat>, p: nat)
    requires Over(table, at) && table != {}
    ensures TokensAt(table, p) != {} <==> p in at
  {
    var e :| e in table;
    if p in at { assert e[p] in TokensAt(table, p); }
  }

  method InsertTokens(before: map<nat, set<string>>, e: Entry) returns (uniq: map<nat, set<string>>)
    requires forall p :: p in before ==> before[p] != {}
    ensures forall p :: p in uniq ==> uniq[p] != {}
    ensures forall p :: Lookup(uniq, p) == Lookup(before, p) + TokenAt(e, p)
  {
    uniq := before;
    var positions := e.Keys;
    while positions != {}
      invariant positions <= e.Keys
      invariant forall p :: p in uniq ==> uniq[p] != {}
      invariant forall p :: Lookup(uniq, p) == Lookup(before, p) + if p in positions then {} else TokenAt(e, p)
    {
      var p :| p in positions;
      uniq := uniq[p := Lookup(uniq, p) + {e[p]}];
      positions := positions - {p};
    }
  }

  /** Distinct tokens at each position that occurs. */
  method UniqueTokens(table: Table) returns (uniq: map<nat, set<string>>)
    ensures forall p :: p in uniq ==> uniq[p] != {}
    ensures forall p :: Lookup(uniq, p) == TokensAt(table, p)
  {
    uniq := map[];
    var todo := table;
    ghost var done: Table := {};
    while todo != {}
      invariant done + todo == table
      invariant forall p :: p in uniq ==> uniq[p] != {}
      invariant forall p :: Lookup(uniq, p) == TokensAt(done, p)
    {
      var e :| e in todo;
      uniq := InsertTokens(uniq, e);
      forall p ensures Lookup(uniq, p) == TokensAt(done + {e}, p) {
        TokensAtInsert(done, e, p);
      }
      todo, done := todo - {e}, done + {e};
    }
    assert done == table;
  }

  function OfSize(uniq: map<nat, set<string>>, n: nat): set<nat> {
    set p | p in uniq && |uniq[p]| == n
  }

  /** Positions grouped by their number of distinct tokens. */
  method GroupBySize(uniq: map<nat, set<string>>) returns (groups: map<nat, set<nat>>)
    ensures forall p :: p in uniq ==> |uniq[p]| in groups
    ensures forall n :: n in groups ==> groups[n] != {} && groups[n] == OfSize(uniq, n)
  {
    groups := map[];
    var todo := uniq.Keys;
    while todo != {}
      invariant todo <= uniq.Keys
      invariant forall p :: p in uniq && p !in todo ==> |uniq[p]| in groups
      invariant forall n :: n in groups ==>
        groups[n] != {} && groups[n] == set p | p in uniq && p !in todo && |uniq[p]| == n
    {
      var p :| p in todo;
      var n := |uniq[p]|;
      groups := groups[n := (if n in groups then groups[n] else {}) + {p}];
      todo := todo - {p};
    }
  }

  /** Every group of the positions at `at` is listed, up to a bound on its size. */
  ghost predicate GroupsBelow(groups: map<nat, set<nat>>, table: Table, at: set<nat>, cut: nat) {
    && (forall n :: n in groups ==> n < cut && groups[n] == set p | p in at && |TokensAt(table, p)| == n)
    && (forall p :: p in at && |TokensAt(table, p)| < cut ==> |TokensAt(table, p)| in groups)
  }

  /** Giving up the largest group lowers the cut to its size. */
  lemma NextCut(groups: map<nat, set<nat>>, table: Table, at: set<nat>, cut: nat, largest: nat)
    requires GroupsBelow(groups, table, at, cut)
    requires largest in groups && forall n :: n in groups ==> n <= largest
    ensures Crowded(table, at, largest + 1) == Crowded(table, at, cut)
    ensures Crowded(table, at, largest) == Crowded(table, at, cut) + groups[largest]
    ensures GroupsBelow(groups - {largest}, table, at, largest)
  {
  }

  /** A cut above all groups. */
  ghost function CutAbove(groups: map<nat, set<nat>>): (cut: nat)
    ensures forall n :: n in groups ==> n < cut
  {
    Bound(groups.Keys)
  }

  ghost function Bound(s: set<nat>): (b: nat)
    ensures forall n :: n in s ==> n < b
  {
    if s == {} then 0
    else
      var n :| n in s;
      var rest := Bound(s - {n});
      assert forall k :: k in s ==> k == n || k in s - {n};
      if n < rest then rest else n + 1
  }

  /** The positions of a table, grouped by their number of distinct tokens. */
  method GroupPositions(table: Table, ghost at: set<nat>) returns (groups: map<nat, set<nat>>, ghost cut: nat)
    requires Over(table, at) && table != {}
    ensures GroupsBelow(groups, table, at, cut) && Crowded(table, at, cut) == {}
  {
    var uniq := UniqueTokens(table);
    UniqueIsTracked(uniq, table, at);
    groups := GroupBySize(uniq);
    cut := CutAbove(groups);
    GroupsAreBelow(groups, uniq, table, at, cut);
  }

  lemma UniqueIsTracked(uniq: map<nat, set<string>>, table: Table, at: set<nat>)
    requires Over(table, at) && table != {}
    requires forall p :: p in uniq ==> uniq[p] != {}
    requires forall p :: Lookup(uniq, p) == TokensAt(table, p)
    ensures forall p :: p in uniq <==> p in at
    ensures forall p :: p in uniq ==> uniq[p] == TokensAt(table, p)
  {
    forall p: nat
      ensures p in uniq <==> p in at
    {
      TrackedHaveTokens(table, at, p);
      assert Lookup(uniq, p) == TokensAt(table, p);
    }
    assert forall p :: p in uniq ==> uniq[p] == Lookup(uniq, p);
  }

  lemma GroupsAreBelow(groups: map<nat, set<nat>>, uniq: map<nat, set<string>>, table: Table, at: set<nat>, cut: nat)
    requires forall p :: p in uniq <==> p in at
    requires forall p :: p in uniq ==> uniq[p] == TokensAt(table, p)
    requires forall p :: p in uniq ==> |uniq[p]| in groups
    requires forall n :: n in groups ==> n < cut && groups[n] == OfSize(uniq, n)
    ensures GroupsBelow(groups, table, at, cut) && Crowded(table, at, cut) == {}
  {
  }

  /** While the table does not fit there is a group to give up. */
  lemma GroupsLeft(groups: map<nat, set<nat>>, table: Table, at: set<nat>, cut: nat)
    requires GroupsBelow(groups, table, at, cut) && Over(table, at)
    requires |Drop(table, Crowded(table, at, cut))| > MAX_ENTRIES
    ensures groups != map[]
  {
    if groups == map[] {
      assert Crowded(table, at, cut) == at;
      DropAll(table, at);
    }
  }

  method LargestKey<V>(m: map<nat, V>) returns (largest: nat)
    requires m != map[]
    ensures largest in m && forall k :: k in m ==> k <= largest
  {
    var todo := m.Keys;
    largest :| largest in todo;
    while todo != {}
      invariant todo <= m.Keys && largest in m
      invariant forall k :: k in m && k !in todo ==> k <= largest
    {
      var k :| k in todo;
      if k > largest { largest := k; }
      todo := todo - {k};
    }
  }

  method DropPositions(table: Table, gone: set<nat>) returns (reduced: Table)
    ensures reduced == Drop(table, gone)
  {
    reduced := {};
    var todo := table;
    while todo != {}
      invariant todo <= table
      invariant reduced == Drop(table - todo, gone)
    {
      var e :| e in todo;
      ghost var done := table - todo;
      reduced := reduced + {e - gone};
      todo := todo - {e};
      assert table - todo == done + {e};
    }
    assert table - todo == table;
  }

  method WidenEntries(table: Table, extra: Entry) returns (widened: Table)
    ensures widened == Widen(table, extra)
  {
    widened := {};
    var todo := table;
    while todo != {}
      invariant todo <= table
      invariant widened == Widen(table - todo, extra)
    {
      var e :| e in todo;
      ghost var done := table - todo;
      widened := widened + {extra + e};
      todo := todo - {e};
      assert table - todo == done + {e};
    }
    assert table - todo == table;
  }

  lemma GrownIs(table: Table, templParams: Entry, lineParams: Entry)
    ensures Grown(table, templParams, lineParams)
         == (if templParams == map[] then table
             else if table == {} then {templParams} else Widen(table, templParams)) + {lineParams}
  {
  }

  lemma CrowdedWithin(table: Table, at: set<nat>, cut: nat)
    ensures Crowded(table, at, cut) <= at
  {
  }

  lemma ReducedBy(before: Table, at: set<nat>, after: Table, gone: set<nat>, cut: nat)
    requires ReducedAt(before, at, after, gone, cut) && |before| > MAX_ENTRIES
    ensures Reduced(before, at, after, gone)
  {
  }

  lemma ReducedByNothing(table: Table, at: set<nat>)
    requires |table| <= MAX_ENTRIES
    ensures Reduced(table, at, table, {})
  {
  }

  // ---------------------------------------------------------------- bijections

  /** Equal tokens at `p` always come with equal tokens at `q`. */
  predicate Determines(table: Table, p: nat, q: nat)
    requires forall e :: e in table ==> p in e && q in e
  {
    forall e, e' :: e in table && e' in table && e[p] == e'[p] ==> e[q] == e'[q]
  }

  ghost predicate Bijective(table: Table, p: nat, q: nat)
    requires forall e :: e in table ==> p in e && q in e
  {
    Determines(table, p, q) && Determines(table, q, p)
  }

  /** Counting distinct tokens turns a functional pairing into a bijection. */
  lemma PigeonholeBijection(table: Table, p: nat, q: nat)
    requires forall e :: e in table ==> p in e && q in e
    requires Determines(table, p, q)
    requires |TokensAt(table, p)| == |TokensAt(table, q)|
    ensures Bijective(table, p, q)
  {
    forall d, e | d in table && e in table && d[q] == e[q]
      ensures d[p] == e[p]
    {
      var others := TokensAt(table, p) - {d[p]};
      if d[p] != e[p] {
        var f := (t: string) =>
          if exists x :: x in table && x[p] == t then (var x :| x in table && x[p] == t; x[q]) else t;
        assert d[p] in TokensAt(table, p) && d[p] !in others;
        ImageSize(f, others);
        forall t | t in TokensAt(table, q)
          ensures t in Image(f, others)
        {
          var x :| x in table && q in x && x[q] == t;
          var y := if x[p] == d[p] then e else x;
          assert y[p] in others && f(y[p]) == t;
        }
        FewerElements(TokensAt(table, q), Image(f, others));
      }
    }
  }

  lemma {:induction false} FewerElements<A>(small: set<A>, large: set<A>)
    requires small <= large
    ensures |small| <= |large|
  {
    assert large == small + (large - small);
  }

  // ----------------------------------------------------- what a template knows

  /** Template and table against the rows they were learned from. The table is what
      the rows look like at the tracked positions: the wildcards not given up.
      Before the second row there is no table. The first row, which became the template,
      does not have the wildcard as a word; later rows may. */
  ghost predicate Learned(templ: Row, rows: seq<Row>, exceeded: set<nat>, table: Table) {
    && Generalises(templ, rows)
    && WILDCARD !in rows[0]
    && exceeded <= Wild(templ)
    && |table| <= MAX_ENTRIES
    && Within(rows, Wild(templ) - exceeded)
    && (if |rows| == 1 then table == {} && exceeded == {}
        else table == Projections(rows, Wild(templ) - exceeded))
  }

  lemma LearnedMatches(templ: Row, rows: seq<Row>, exceeded: set<nat>, table: Table, row: Row)
    requires Learned(templ, rows, exceeded, table) && row in rows
    ensures Matches(templ, row)
  {
    LeastGeneral(templ, rows);
  }

  lemma FirstRow(row: Row)
    requires WILDCARD !in row
    ensures Learned(row, [row], {}, {}) && Wild(row) == {}
  {
    assert forall p :: 0 <= p < |row| ==> row[p] in row;
    assert forall r :: r in [row] ==> r == row;
  }

  lemma SingleRowHasNoWildcard(templ: Row, rows: seq<Row>)
    requires Generalises(templ, rows) && |rows| == 1 && WILDCARD !in rows[0]
    ensures Wild(templ) == {}
  {
    assert forall r :: r in rows <==> r == rows[0];
    forall p | 0 <= p < |templ| ensures templ[p] != WILDCARD {
      assert Agree(rows, p);
      assert rows[0][p] in rows[0];
    }
  }

  /** Before it is reduced, the grown table is the projection of the longer history. */
  lemma GrownTable(templ: Row, rows: seq<Row>, exceeded: set<nat>, table: Table, row: Row)
    requires Learned(templ, rows, exceeded, table) && |row| == |templ|
    ensures var m := Merge(templ, row);
      && Within(rows + [row], Wild(m) - exceeded)
      && Grown(table, Project(templ, NewWild(templ, row) - exceeded), Project(row, Wild(m) - exceeded))
         == Projections(rows + [row], Wild(m) - exceeded)
      && Over(Projections(rows + [row], Wild(m) - exceeded), Wild(m) - exceeded)
  {
    var at, added := Wild(templ) - exceeded, NewWild(templ, row);
    assert forall r :: r in rows + [row] ==> |r| == |templ|;
    assert added - exceeded == added && Wild(Merge(templ, row)) - exceeded == at + added;
    LeastGeneral(templ, rows);
    assert forall r, p :: r in rows && p in added ==> Matches(templ, r) && r[p] == templ[p];
    if |rows| == 1 { SingleRowHasNoWildcard(templ, rows); }
    GrownIsProjection(table, rows, row, templ, at, added);
  }

  lemma ReducedDrops(before: Table, at: set<nat>, after: Table, gone: set<nat>)
    requires Reduced(before, at, after, gone)
    ensures gone <= at && after == Drop(before, gone) && |after| <= MAX_ENTRIES
  {
    if |before| <= MAX_ENTRIES { DropNothing(before); }
  }

  /** What one update does to a template and its table: the template is merged with
      the row, the table grows and is reduced if it has become too large. */
  ghost predicate LearnedMore(templ: Row, rows: seq<Row>, exceeded: set<nat>, row: Row,
                              templ': Row, exceeded': set<nat>, table': Table)
    requires |row| == |templ|
  {
    var grown := Wild(templ') - exceeded;
    && templ' == Merge(templ, row)
    && Within(rows + [row], grown)
    && exceeded <= exceeded'
    && Reduced(Projections(rows + [row], grown), grown, table', exceeded' - exceeded)
  }

  /** One update keeps what the template knows. */
  lemma LearnStep(templ: Row, rows: seq<Row>, exceeded: set<nat>, table: Table, row: Row,
                  templ': Row, exceeded': set<nat>, table': Table)
    requires Learned(templ, rows, exceeded, table) && |row| == |templ|
    requires LearnedMore(templ, rows, exceeded, row, templ', exceeded', table')
    ensures Learned(templ', rows + [row], exceeded', table')
  {
    var rows', grown, gone := rows + [row], Wild(templ') - exceeded, exceeded' - exceeded;
    ReducedDrops(Projections(rows', grown), grown, table', gone);
    DropIsProjection(rows', grown, gone);
    assert grown - gone == Wild(templ') - exceeded';
    assert forall r :: r in rows' ==> r in rows || r == row;
    MergeGeneralises(templ, rows, row);
  }

  // ------------------------------------------------ when the table is the history

  /** One update, in terms of the fields alone. */
  ghost predicate Stepped(templ: Row, exceeded: set<nat>, table: Table, row: Row,
                          templ': Row, exceeded': set<nat>, table': Table)
    requires |row| == |templ|
  {
    && templ' == Merge(templ, row) && exceeded <= exceeded'
    && var at := Wild(templ') - exceeded;
       Reduced(Grown(table, Project(templ, NewWild(templ, row) - exceeded), Project(row, at)), at,
               table', exceeded' - exceeded)
  }

  /** What the fields can be after these rows, whatever words the rows have. */
  ghost predicate Reached(rows: seq<Row>, templ: Row, exceeded: set<nat>, table: Table)
    decreases |rows|
  {
    && rows != []
    && var n := |rows| - 1;
       if n == 0 then templ == rows[0] && exceeded == {} && table == {}
       else
         exists t, x, d :: |t| == |rows[n]| && Reached(rows[..n], t, x, d)
                           && Stepped(t, x, d, rows[n], templ, exceeded, table)
  }

  ghost predicate TableIsHistory(rows: seq<Row>, templ: Row, exceeded: set<nat>, table: Table) {
    |rows| > 1 ==>
      Within(rows, Wild(templ) - exceeded) && table == Projections(rows, Wild(templ) - exceeded)
  }

  /** The step before the last. */
  lemma ReachedBefore(rows: seq<Row>, templ: Row, exceeded: set<nat>, table: Table)
    returns (t: Row, x: set<nat>, d: Table)
    requires Reached(rows, templ, exceeded, table) && |rows| > 1
    ensures |t| == |rows[|rows| - 1]| && Reached(rows[..|rows| - 1], t, x, d)
    ensures Stepped(t, x, d, rows[|rows| - 1], templ, exceeded, table)
  {
    hide Stepped;
    var n := |rows| - 1;
    t, x, d :| |t| == |rows[n]| && Reached(rows[..n], t, x, d) && Stepped(t, x, d, rows[n], templ, exceeded, table);
  }

  lemma SteppedIsLearned(rows: seq<Row>, templ: Row, exceeded: set<nat>, table: Table, row: Row,
                         templ': Row, exceeded': set<nat>, table': Table)
    requires Learned(templ, rows, exceeded, table) && |row| == |templ|
    requires Stepped(templ, exceeded, table, row, templ', exceeded', table')
    ensures Learned(templ', rows + [row], exceeded', table')
  {
    GrownTable(templ, rows, exceeded, table, row);
    assert LearnedMore(templ, rows, exceeded, row, templ', exceeded', table') by {
      hide Learned, Grown, Projections, Reduced, Merge;
    }
    hide *;
    LearnStep(templ, rows, exceeded, table, row, templ', exceeded', table');
  }

  lemma OneRowReached(rows: seq<Row>, templ: Row, exceeded: set<nat>, table: Table)
    requires Reached(rows, templ, exceeded, table) && |rows| == 1 && WILDCARD !in rows[0]
    ensures Learned(templ, rows, exceeded, table)
  {
    FirstRow(rows[0]);
    assert rows == [rows[0]];
    hide Learned;
  }

  lemma {:induction false} FoundedIsLearned(rows: seq<Row>, templ: Row, exceeded: set<nat>, table: Table)
    requires Reached(rows, templ, exceeded, table) && rows != [] && WILDCARD !in rows[0]
    ensures Learned(templ, rows, exceeded, table)
    decreases |rows|
  {
    hide *;
    if |rows| == 1 {
      OneRowReached(rows, templ, exceeded, table);
    } else {
      var t, x, d := ReachedBefore(rows, templ, exceeded, table);
      var before, row := rows[..|rows| - 1], rows[|rows| - 1];
      FoundedIsLearned(before, t, x, d);
      SteppedIsLearned(before, t, x, d, row, templ, exceeded, table);
      assert rows == before + [row];
    }
  }

  lemma LearnedIsHistory(templ: Row, rows: seq<Row>, exceeded: set<nat>, table: Table)
    requires Learned(templ, rows, exceeded, table)
    ensures TableIsHistory(rows, templ, exceeded, table)
  {
  }

  lemma NothingNew(first: Row, p: nat)
    requires p < |first| && first[p] == WILDCARD
    ensures Merge(first, first[p := "a"]) == first && NewWild(first, first[p := "a"]) == {}
  {
  }

  lemma NothingWidened(first: Row, e: Entry)
    ensures Project(first, {}) == map[] && Grown({}, Project(first, {}), e) == {e}
  {
    assert Project(first, {}) == map[];
  }

  /** The second row with another word in the place of the wildcard. */
  lemma SecondRowAlone(first: Row, p: nat)
    requires p < |first| && first[p] == WILDCARD
    ensures Stepped(first, {}, {}, first[p := "a"], first, {}, {Project(first[p := "a"], Wild(first))})
  {
    hide Merge, NewWild, Grown, Project, Crowded, Drop;
    var second, at := first[p := "a"], Wild(first);
    NothingNew(first, p);
    NothingWidened(first, Project(second, at));
    assert at - {} == at && {} - {} == NewWild(first, second);
    assert |{Project(second, at)}| == 1;
  }

  lemma TwoRowsReached(first: Row, second: Row, templ: Row, table: Table)
    requires |first| == |second| && Stepped(first, {}, {}, second, templ, {}, table)
    ensures Reached([first, second], templ, {}, table)
  {
    hide Stepped;
    assert [first, second][..1] == [first] && Reached([first], first, {}, {});
  }

  /** A wildcard in the first row never comes into the table: already a second row with
      another word there shows it. */
  lemma UnfoundedLosesFirstRow(first: Row, p: nat) returns (rows: seq<Row>, table: Table)
    requires p < |first| && first[p] == WILDCARD
    ensures rows != [] && rows[0] == first
    ensures Reached(rows, first, {}, table) && !TableIsHistory(rows, first, {}, table)
  {
    var second, at := first[p := "a"], Wild(first);
    rows, table := [first, second], {Project(second, at)};
    SecondRowAlone(first, p);
    TwoRowsReached(first, second, first, table);
    hide Reached;
    assert Project(first, at)[p] != Project(second, at)[p];
    assert rows[0] in rows && at - {} == at;
    assert Within(rows, at) ==> Project(first, at) in Projections(rows, at);
  }

  /** The table is the projection of all rows in every continuation exactly if the row
      that founded the template does not have the wildcard as a word. */
  lemma TableIsHistoryIffFounded(first: Row)
    ensures WILDCARD !in first <==>
      forall rows: seq<Row>, templ, exceeded, table ::
        Reached(rows, templ, exceeded, table) && rows != [] && rows[0] == first
        ==> TableIsHistory(rows, templ, exceeded, table)
  {
    hide Reached, Learned;
    if WILDCARD !in first {
      forall rows, templ, exceeded, table | Reached(rows, templ, exceeded, table) && rows != [] && rows[0] == first
        ensures TableIsHistory(rows, templ, exceeded, table)
      {
        FoundedIsLearned(rows, templ, exceeded, table);
        LearnedIsHistory(templ, rows, exceeded, table);
      }
    } else {
      var p :| 0 <= p < |first| && first[p] == WILDCARD;
      var rows, table := UnfoundedLosesFirstRow(first, p);
    }
  }
}

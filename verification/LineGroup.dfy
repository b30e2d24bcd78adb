/**
 Lines by where they are filed, and what is written for them: the whole output of
 flt/templating/online_templater.hpp as a function of the lines alone.
*/
module LineGroups {
  import opened WordIterators
  import opened ParamTables
  import opened Similarities
  import opened TemplSequences
  import opened TemplNodes
  import opened Outputs
  import opened TemplHistories
  import opened Accounts
  import opened Routing

  function WordCount(line: string): nat {
    |Words(line)|
  }

  /** The lines with as many words as this one and the same route. */
  ghost function PeersOf(lines: seq<string>, line: string): seq<string> {
    Select(Select(lines, WordCount, WordCount(line)), RouteKey, RouteKey(line))
  }

  /** Where a line is filed: its number of words and its route. */
  datatype Group = Group(count: nat, route: Route)

  function GroupOf(line: string): Group {
    Group(WordCount(line), RouteKey(line))
  }

  ghost function LinesOf(lines: seq<string>, g: Group): seq<string> {
    Select(Select(lines, WordCount, g.count), RouteKey, g.route)
  }

  function GroupsOf(n: nat, routes: seq<Route>): (groups: seq<Group>)
    ensures |groups| == |routes| && forall i :: 0 <= i < |groups| ==> groups[i] == Group(n, routes[i])
  {
    seq(|routes|, i requires 0 <= i < |routes| => Group(n, routes[i]))
  }

  /** What is written for the lines of these groups: for each template that their lines
      lead to, its output. */
  ghost function OutputOfGroups(order: seq<Group>, lines: seq<string>, threshold: real): multiset<string> {
    if order == [] then multiset{}
    else
      OutputOfGroups(order[..|order| - 1], lines, threshold)
      + OutputOfAll(HistoriesAfter(LinesOf(lines, order[|order| - 1]), threshold))
  }

  /** The groups of the lines, in some order, each once. */
  ghost predicate GroupsOfLines(order: seq<Group>, lines: seq<string>) {
    && (forall i, j :: 0 <= i < j < |order| ==> order[i] != order[j])
    && (forall g :: g in order <==> exists l :: l in lines && GroupOf(l) == g)
  }

  /** Lines that one template was learned from. */
  ghost predicate IsHistory(order: seq<Group>, lines: seq<string>, threshold: real, h: seq<string>) {
    exists g :: g in order && h in HistoriesAfter(LinesOf(lines, g), threshold)
  }

  lemma {:induction false} InOutputOfGroups(order: seq<Group>, lines: seq<string>, threshold: real, w: string)
    ensures w in OutputOfGroups(order, lines, threshold) <==>
      exists h :: IsHistory(order, lines, threshold, h) && h != [] && w in Output(h)
  {
    hide Output, HistoriesAfter, LinesOf;
    if order != [] {
      var before, g := order[..|order| - 1], order[|order| - 1];
      assert order == before + [g];
      InOutputOfGroups(before, lines, threshold, w);
      InOutputOfAll(HistoriesAfter(LinesOf(lines, g), threshold), w);
      assert forall h :: IsHistory(order, lines, threshold, h) <==>
        IsHistory(before, lines, threshold, h) || h in HistoriesAfter(LinesOf(lines, g), threshold);
    }
  }

  /** The lines of a history are of one width, and among the lines. */
  lemma HistoryIsOfGroup(order: seq<Group>, lines: seq<string>, threshold: real, h: seq<string>)
    requires IsHistory(order, lines, threshold, h)
    ensures h != [] && forall l :: l in h ==> l in lines && GroupOf(l) == GroupOf(h[0])
  {
    hide HistoriesAfter, Select, WordCount, RouteKey;
    var g :| g in order && h in HistoriesAfter(LinesOf(lines, g), threshold);
    HistoriesArePart(LinesOf(lines, g), threshold);
    forall l | l in h ensures l in lines && GroupOf(l) == g {
      InSelect(Select(lines, WordCount, g.count), RouteKey, g.route, l);
      InSelect(lines, WordCount, g.count, l);
    }
    assert h[0] in h;
  }

  /** Whatever is written, is written for the lines of one template, and has lost exactly
      those wildcards of it that these lines have in a bijection. */
  ghost predicate WrittenForLines(order: seq<Group>, lines: seq<string>, threshold: real, w: string) {
    exists h :: IsHistory(order, lines, threshold, h) && h != [] && w in Output(h) && LosesRightWildcards(h, w)
  }

  lemma OutputIsForLines(order: seq<Group>, lines: seq<string>, threshold: real, w: string)
    requires NoWildcards(lines) && w in OutputOfGroups(order, lines, threshold)
    ensures WrittenForLines(order, lines, threshold, w)
  {
    hide OutputOfGroups, Output, LosesRightWildcards, IsHistory, Words, RouteKey;
    InOutputOfGroups(order, lines, threshold, w);
    var h :| IsHistory(order, lines, threshold, h) && h != [] && w in Output(h);
    HistoryIsOfGroup(order, lines, threshold, h);
    assert h[0] in h;
    assert Founded(h) by {
      forall l | l in h ensures |Words(l)| == |Words(h[0])| {
        assert GroupOf(l) == GroupOf(h[0]);
      }
    }
    OutputLosesRightWildcards(h, w);
  }

  /** With its routes, one width contributes what its lines lead to. */
  lemma {:induction false} OutputOfWidth(order: seq<Group>, n: nat, routes: seq<Route>, lines: seq<string>,
      threshold: real)
    ensures OutputOfGroups(order + GroupsOf(n, routes), lines, threshold)
         == OutputOfGroups(order, lines, threshold)
            + OutputOfRoutes(routes, Select(lines, WordCount, n), threshold)
  {
    hide HistoriesAfter, OutputOfAll, Select, WordCount, RouteKey;
    if routes == [] {
      assert order + GroupsOf(n, routes) == order;
    } else {
      var last := |routes| - 1;
      var all := order + GroupsOf(n, routes);
      assert all[..|all| - 1] == order + GroupsOf(n, routes[..last]);
      assert all[|all| - 1] == Group(n, routes[last]);
      OutputOfWidth(order, n, routes[..last], lines, threshold);
    }
  }

  ghost predicate PartOf(some: seq<string>, lines: seq<string>) {
    forall l :: l in some ==> l in lines
  }

  /** A line may follow these lines: a line with the wildcard as a word must be similar
      enough to a template of the lines that have as many words and the same route. Which
      templates those are, the lines alone determine. */
  ghost predicate AdmitsNext(lines: seq<string>, line: string, threshold: real) {
    Admits(PeersOf(lines, line), line, threshold)
  }

  function NonEmpty(lines: seq<string>): seq<string> {
    if lines == [] then []
    else NonEmpty(lines[..|lines| - 1]) + if lines[|lines| - 1] == "" then [] else [lines[|lines| - 1]]
  }

  /** No line with the wildcard as a word founds a template. */
  ghost predicate AllAdmitted(lines: seq<string>, threshold: real) {
    forall i :: 0 <= i < |lines| && lines[i] != "" ==> AdmitsNext(NonEmpty(lines[..i]), lines[i], threshold)
  }

  /** So it is if no line has it at all. */
  lemma NoWildcardsAdmitted(lines: seq<string>, threshold: real)
    requires NoWildcards(lines)
    ensures AllAdmitted(lines, threshold)
  {
    hide Words, Joins, Select;
    forall i | 0 <= i < |lines| && lines[i] != "" ensures AdmitsNext(NonEmpty(lines[..i]), lines[i], threshold) {
      assert lines[i] in lines;
    }
  }

  lemma NoGroups(lines: seq<string>, threshold: real)
    ensures OutputOfGroups([], lines, threshold) == multiset{}
  {
  }

  lemma {:induction false} NonEmptyIsPart(lines: seq<string>)
    ensures forall l :: l in NonEmpty(lines) <==> l in lines && l != ""
  {
    if lines != [] {
      NonEmptyIsPart(lines[..|lines| - 1]);
      assert lines == lines[..|lines| - 1] + [lines[|lines| - 1]];
    }
  }
}

/**
 Routing of lines with the same number of words to templates, by first or last word
 (`token_layer` of flt/templating/online_templater.hpp).
*/
module Routing {
  import opened WordIterators
  import opened ParamTables
  import opened Splitting
  import opened Similarities
  import opened TemplSequences
  import opened TemplNodes
  import opened Outputs
  import opened TemplHistories
  import opened TemplLayers
  import opened Accounts

  /** Where lines go that both start and end with a possible parameter. */
  const ANY := "*"

  datatype Route = ByFirst(key: string) | ByLast(key: string)

  /** A line without words is routed by the empty word. */
  function RouteOf(ws: Row): Route {
    var first := if ws == [] then "" else ws[0];
    if !IsPossibleParam(first) then ByFirst(first)
    else if IsPossibleParam(ws[|ws| - 1]) then ByFirst(ANY)
    else ByLast(ws[|ws| - 1])
  }

  function RouteKey(line: string): Route {
    RouteOf(Words(line))
  }

  /** Routing keys do not mix: a line goes by a word it really has in that place, or
      under "*", which is itself no word to route by. */
  lemma RouteSays(ws: Row)
    requires ws != []
    ensures RouteOf(ws) == ByFirst(ANY) <==> IsPossibleParam(ws[0]) && IsPossibleParam(ws[|ws| - 1])
    ensures forall w :: w != ANY ==> (RouteOf(ws) == ByFirst(w) <==> ws[0] == w && !IsPossibleParam(w))
    ensures forall w :: RouteOf(ws) == ByLast(w) <==> IsPossibleParam(ws[0]) && ws[|ws| - 1] == w && !IsPossibleParam(w)
  {
    assert !IsPlainChar(ANY[0]);
  }

  /** A template written for lines of one route with a word to route by has that word
      in its place: the wildcard never takes it. */
  lemma RoutedWordIsLiteral(lines: seq<string>, w: string, route: Route)
    requires KeepsAgreed(lines, w) && lines != [] && Words(w) != []
    requires forall l :: l in lines ==> |Words(l)| == |Words(w)| && RouteKey(l) == route
    requires route != ByFirst(ANY)
    ensures if route.ByFirst? then Words(w)[0] == route.key else Words(w)[|Words(w)| - 1] == route.key
  {
    hide *;
    var p := if route.ByFirst? then 0 else |Words(w)| - 1;
    forall l | l in lines ensures Words(l)[p] == route.key {
      RoutedWord(l, route);
    }
    AgreedWord(lines, w, p, route.key);
  }

  lemma RoutedWord(l: string, route: Route)
    requires Words(l) != [] && RouteKey(l) == route != ByFirst(ANY)
    ensures Words(l)[if route.ByFirst? then 0 else |Words(l)| - 1] == route.key
  {
    hide RouteOf, Words;
    RouteSays(Words(l));
  }

  lemma AgreedWord(lines: seq<string>, w: string, p: nat, t: string)
    requires KeepsAgreed(lines, w) && lines != [] && p < |Words(w)|
    requires forall l :: l in lines ==> |Words(l)| == |Words(w)| && Words(l)[p] == t
    ensures Words(w)[p] == t
  {
    hide Words;
    assert AllHave(lines, p, t);
  }

  /** What is written for the lines of these routes. */
  ghost function OutputOfRoutes(order: seq<Route>, lines: seq<string>, threshold: real): multiset<string> {
    if order == [] then multiset{}
    else
      OutputOfRoutes(order[..|order| - 1], lines, threshold)
      + OutputOfAll(HistoriesAfter(Select(lines, RouteKey, order[|order| - 1]), threshold))
  }

  lemma NothingRouted(lines: seq<string>, threshold: real)
    ensures OutputOfRoutes([], lines, threshold) == multiset{}
  {
  }

  lemma OneMoreRoute(order: seq<Route>, r: Route, lines: seq<string>, threshold: real)
    ensures OutputOfRoutes(order + [r], lines, threshold)
         == OutputOfRoutes(order, lines, threshold) + OutputOfAll(HistoriesAfter(Select(lines, RouteKey, r), threshold))
  {
    assert (order + [r])[..|order|] == order;
  }

  lemma RouteOfTokens(line: string)
    ensures var toks := Parse(line, SpecialSeps).toks;
      var first := if toks == [] then "" else toks[0].word;
      && |toks| == |Words(line)| && (IsPossibleParam(first) ==> toks != [])
      && RouteKey(line) ==
         if !IsPossibleParam(first) then ByFirst(first)
         else if IsPossibleParam(toks[|toks| - 1].word) then ByFirst(ANY)
         else ByLast(toks[|toks| - 1].word)
  {
    hide TokensOf;
  }

  // ------------------------------------------------------------------ token layer

  /** The maps by first and by last word are one map here, the side being part of the key. */
  class TokenLayer {
    var layers: map<Route, TemplLayer>
    const config: Configuration

    /** Number of words of the lines of this layer. */
    ghost const width: nat
    ghost var account: Account<Route>
    ghost var Repr: set<object>

    ghost predicate LayerOk(layer: TemplLayer, lines: seq<string>)
      reads layer, layer.Repr
    {
      && layer.Valid() && layer.config == config && layer.width == width
      && layer in layer.Repr && layer.fed == lines
    }

    ghost predicate Valid()
      reads this, Repr
    {
      && Balanced(account, RouteKey, layers.Keys, this, Repr)
      && forall r :: r in layers ==>
           && layers[r] in account.reprs[r] && account.reprs[r] <= Repr && layers[r].Repr == account.reprs[r]
           && LayerOk(layers[r], account.feds[r])
    }

    constructor (config: Configuration, ghost width: nat)
      ensures Valid() && fresh(Repr) && this.config == config && this.width == width
      ensures this in Repr && account.fed == [] && layers == map[] && Whole()
    {
      this.config := config;
      this.width := width;
      layers, account := map[], Account([], map[], map[]);
      Repr := {this};
      new;
      NothingBalanced(RouteKey, this);
    }

    /** A line that is matched by what would be written. */
    ghost predicate Kept(l: string)
      reads this, layers.Values
    {
      RouteKey(l) in layers && layers[RouteKey(l)].Kept(l)
    }

    /** No template counts as split. */
    ghost predicate Whole()
      reads this, layers.Values
    {
      forall r :: r in layers ==> layers[r].Whole()
    }

    /** The lines a template was learned from, or one it was split into. */
    ghost predicate LearnedFrom(w: string, some: seq<string>)
      reads *
    {
      exists r :: r in layers && layers[r].LearnedFrom(w, some)
    }

    /** The route of a line, found by walking to its last word if the first one may be
        a parameter. */
    method FindRoute(line: string) returns (route: Route)
      ensures route == RouteKey(line)
    {
      hide *;
      RouteOfTokens(line);
      var it := new WordIterator.Special(line);
      var first := it.View();
      if !IsPossibleParam(first) {
        return ByFirst(first);
      }
      var n := CountTokens(line);
      var i := 1;
      while i < n
        invariant it.Valid() && 1 <= i <= n == |Words(line)| && it.index == i - 1
      {
        it.Advance();
        i := i + 1;
      }
      var last := it.View();
      route := if IsPossibleParam(last) then ByFirst(ANY) else ByLast(last);
    }

    /** The layer of a route has been looked up, and perhaps added, in a valid state. */
    ghost predicate LookedUp(route: Route, keys: set<Route>)
      reads *
    {
      && Balanced(account, RouteKey, keys, this, Repr) && layers.Keys == keys + {route}
      && (forall q :: q in keys && q != route ==> PartOk(q, account))
      && LayerOk(layers[route], FedOf(account.feds, route))
      && if route in keys then route in account.reprs && layers[route].Repr == account.reprs[route]
         else layers[route].Repr !! Repr
    }

    /** The template layer of a route, made when it is first needed. */
    method GetTemplNodes(line: string) returns (layer: TemplLayer, route: Route)
      requires Valid()
      modifies this`layers
      ensures route == RouteKey(line) && layers == old(layers)[route := layer]
      ensures LookedUp(route, old(layers.Keys))
      ensures if route in old(layers) then layer == old(layers)[route] else fresh(layer.Repr) && layer.Whole()
    {
      hide RouteKey, RouteOf, Words, Balanced, LayerOk, TemplLayer.Valid, LookedUp, PartOk;
      ValidSays();
      route := FindRoute(line);
      FoundIsLookedUp(route);
      if route in layers {
        layer := layers[route];
      } else {
        layer := AddLayer(route);
      }
    }

    lemma FoundIsLookedUp(route: Route)
      requires Valid()
      ensures route in layers ==> LookedUp(route, layers.Keys)
    {
      hide LayerOk, Separate, Partition;
      if route in layers {
        assert layers.Keys + {route} == layers.Keys;
      }
    }

    method AddLayer(route: Route) returns (layer: TemplLayer)
      requires Valid() && route !in layers
      modifies this`layers
      ensures fresh(layer.Repr) && layer.Whole() && layers == old(layers)[route := layer]
      ensures LookedUp(route, old(layers.Keys))
    {
      hide Balanced, LayerOk, TemplLayer.Valid;
      BalancedSays(account, RouteKey, layers.Keys, this, Repr);
      ValidParts();
      layer := new TemplLayer(config, width);
      LayerIsOk(layer, []);
      layers := layers[route := layer];
      forall q | q in old(layers) ensures PartOk(q, account) {
        assert old(PartOk(q, account)) && layers[q] == old(layers)[q];
      }
    }

    lemma ValidParts()
      requires Valid()
      ensures forall q :: q in layers ==> PartOk(q, account)
    {
      hide LayerOk, Separate, Partition;
    }

    /** Routes one line to its template layer. */
    method Update(line: string)
      requires Valid() && |Words(line)| == width
      requires Admits(Select(account.fed, RouteKey, RouteKey(line)), line, config.threshold)
      modifies Repr
      ensures Valid() && fresh(Repr - old(Repr)) && account.fed == old(account.fed) + [line]
      ensures layers.Keys == old(layers.Keys) + {RouteKey(line)}
      ensures forall r :: r in old(layers) ==> layers[r] == old(layers)[r]
      ensures forall l :: old(Kept(l)) ==> Kept(l)
      ensures old(Whole()) ==> Whole() && Kept(line)
    {
      hide *;
      ValidSays();
      BalancedLines(account, RouteKey, layers.Keys, this, Repr);
      ghost var keys := layers.Keys;
      var layer, route := LookUp(line);
      FeedPart(layer, route, line, keys);
    }

    /** Looking up a layer changes nothing about the lines that are kept. */
    method LookUp(line: string) returns (layer: TemplLayer, route: Route)
      requires Valid()
      modifies this`layers
      ensures route == RouteKey(line) && layers == old(layers)[route := layer]
      ensures LookedUp(route, old(layers.Keys))
      ensures if route in old(layers) then layer == old(layers)[route] else fresh(layer.Repr)
      ensures forall l :: old(Kept(l)) ==> Kept(l)
      ensures old(Whole()) ==> Whole()
    {
      hide Valid, RouteKey, LookedUp, TemplLayer.Kept, TemplLayer.Whole;
      layer, route := GetTemplNodes(line);
    }

    lemma ValidSays()
      requires Valid()
      ensures Balanced(account, RouteKey, layers.Keys, this, Repr) && this in Repr
      ensures forall r :: r in layers ==> layers[r].Repr <= Repr
    {
      hide LayerOk;
    }

    /** The layer that has been looked up takes a line, and the others keep what they had. */
    method FeedPart(layer: TemplLayer, route: Route, line: string, ghost keys: set<Route>)
      requires LookedUp(route, keys) && route in layers && layers[route] == layer && route == RouteKey(line)
      requires |Words(line)| == width && Admits(FedOf(account.feds, route), line, config.threshold)
      modifies this`account, this`Repr, layer.Repr
      ensures Valid() && fresh(Repr - old(Repr) - old(layer.Repr)) && account.fed == old(account.fed) + [line]
      ensures layers == old(layers)
      ensures forall l :: old(Kept(l)) ==> Kept(l)
      ensures old(Whole()) ==> Whole() && Kept(line)
    {
      hide Valid, RouteKey, LookedUp, Words, Admits, FedOf, TemplLayer.Kept, TemplLayer.Whole;
      Feed(layer, route, line, keys);
    }

    method Feed(layer: TemplLayer, route: Route, line: string, ghost keys: set<Route>)
      requires LookedUp(route, keys) && route in layers && layers[route] == layer && route == RouteKey(line)
      requires |Words(line)| == width && Admits(FedOf(account.feds, route), line, config.threshold)
      modifies this`account, this`Repr, layer.Repr
      ensures Valid() && fresh(Repr - old(Repr) - old(layer.Repr)) && account.fed == old(account.fed) + [line]
      ensures layers == old(layers)
      ensures forall q, l :: q in layers && q != route && old(layers[q].Kept(l)) ==> layers[q].Kept(l)
      ensures forall q :: q in layers && q != route && old(layers[q].Whole()) ==> layers[q].Whole()
      ensures forall l :: old(layer.Kept(l)) ==> layer.Kept(l)
      ensures old(layer.Whole()) ==> layer.Whole() && layer.Kept(line)
    {
      hide RouteKey, Words, Balanced, LayerOk, PartOk, FedOf, Admits, TemplLayer.Kept, TemplLayer.Whole;
      PassOn(layer, route, line, keys);
      Note(layer, route, line, keys);
    }

    method PassOn(layer: TemplLayer, route: Route, line: string, ghost keys: set<Route>)
      requires LookedUp(route, keys) && route in layers && layers[route] == layer && route == RouteKey(line)
      requires |Words(line)| == width && Admits(FedOf(account.feds, route), line, config.threshold)
      modifies layer.Repr
      ensures this !in old(layer.Repr) && layer.Repr * Repr <= if route in keys then account.reprs[route] else {}
      ensures fresh(layer.Repr - old(layer.Repr)) && LayerOk(layer, FedOf(account.feds, route) + [line])
      ensures forall q :: q in keys && q != route ==> PartOk(q, account)
      ensures forall q, l :: q in layers && q != route && old(layers[q].Kept(l)) ==> layers[q].Kept(l)
      ensures forall q :: q in layers && q != route && old(layers[q].Whole()) ==> layers[q].Whole()
      ensures forall l :: old(layer.Kept(l)) ==> layer.Kept(l)
      ensures old(layer.Whole()) ==> layer.Whole() && layer.Kept(line)
    {
      hide RouteKey, Words, Balanced, LayerOk, FedOf, Admits, TemplLayer.Kept, TemplLayer.Whole;
      BalancedSays(account, RouteKey, keys, this, Repr);
      LayerSays(layer, FedOf(account.feds, route));
      OthersApart(route, keys);
      assert this !in layer.Repr;
      Pass(layer, FedOf(account.feds, route), line);
    }

    /** The parts that are not fed share nothing with the one that is. */
    lemma OthersApart(route: Route, keys: set<Route>)
      requires LookedUp(route, keys) && route in layers
      ensures forall q :: q in layers && q != route ==> layers[q] !in layers[route].Repr
    {
      hide Balanced, TemplLayer.Valid;
      BalancedSays(account, RouteKey, keys, this, Repr);
      forall q | q in layers && q != route ensures layers[q] !in layers[route].Repr {
        assert PartOk(q, account);
      }
    }

    /** The account of the line that a part has taken. */
    ghost method Note(layer: TemplLayer, route: Route, line: string, keys: set<Route>)
      requires Balanced(account, RouteKey, keys, this, Repr) && layers.Keys == keys + {route}
      requires layers[route] == layer && route == RouteKey(line)
      requires layer.Repr * Repr <= if route in keys then account.reprs[route] else {}
      requires forall q :: q in keys && q != route ==> PartOk(q, account)
      requires LayerOk(layer, FedOf(account.feds, route) + [line])
      modifies this`account, this`Repr
      ensures Valid() && Repr == old(Repr) + layer.Repr && account.fed == old(account.fed) + [line]
    {
      hide RouteOf, Words, Balanced, LayerOk, TemplLayer.Valid, Fed, FedOf;
      ghost var a, repr0 := account, Repr;
      BalancedSays(a, RouteKey, keys, this, Repr);
      LayerSays(layer, FedOf(a.feds, route) + [line]);
      BalancedMore(a, RouteKey, keys, this, repr0, route, line, layer.Repr);
      ghost var b := Fed(a, route, line, layer.Repr);
      BalancedSays(b, RouteKey, layers.Keys, this, repr0 + layer.Repr);
      PartsAfter(a, b, keys, repr0 + layer.Repr, route);
      Record(b, repr0 + layer.Repr);
    }

    /** One part of the layer is as the account says. */
    ghost predicate PartOk(route: Route, a: Account<Route>)
      requires route in layers
      reads this, layers[route], layers[route].Repr
    {
      && route in a.reprs && route in a.feds
      && layers[route] in a.reprs[route] && layers[route].Repr == a.reprs[route]
      && LayerOk(layers[route], a.feds[route])
    }

    lemma PartsAfter(a: Account<Route>, b: Account<Route>, keys: set<Route>, all: set<object>, route: Route)
      requires layers.Keys == keys + {route} && Balanced(b, RouteKey, layers.Keys, this, all) && PartOk(route, b)
      requires forall q :: q in keys && q != route ==> PartOk(q, a)
      requires forall q :: q in keys && q != route ==> q in a.feds && q in b.feds && q in a.reprs && q in b.reprs
      requires forall q :: q in keys && q != route ==> b.feds[q] == a.feds[q] && b.reprs[q] == a.reprs[q]
      ensures forall q :: q in layers ==> PartOk(q, b)
    {
      hide LayerOk, Balanced;
    }

    ghost method Record(b: Account<Route>, all: set<object>)
      requires Balanced(b, RouteKey, layers.Keys, this, all)
      requires forall q :: q in layers ==> PartOk(q, b)
      modifies this`account, this`Repr
      ensures Valid() && account == b && Repr == all
    {
      hide Balanced, LayerOk;
      BalancedSays(b, RouteKey, layers.Keys, this, all);
      account := b;
      Repr := all;
    }

    method Pass(layer: TemplLayer, ghost lines: seq<string>, line: string)
      requires LayerOk(layer, lines) && |Words(line)| == width && Admits(lines, line, config.threshold)
      modifies layer.Repr
      ensures LayerOk(layer, lines + [line]) && layer in layer.Repr && fresh(layer.Repr - old(layer.Repr))
      ensures forall l :: old(layer.Kept(l)) ==> layer.Kept(l)
      ensures old(layer.Whole()) ==> layer.Whole() && layer.Kept(line)
    {
      hide Words, Admits, TemplLayer.Valid, TemplLayer.Kept, TemplLayer.Whole;
      layer.OwnsItself();
      layer.Update(line);
      LayerIsOk(layer, lines + [line]);
    }

    lemma LayerSays(layer: TemplLayer, lines: seq<string>)
      requires LayerOk(layer, lines)
      ensures layer.Valid() && layer.config == config && layer.width == width
      ensures layer in layer.Repr && layer.fed == lines
    {
    }

    lemma LayerIsOk(layer: TemplLayer, lines: seq<string>)
      requires layer.Valid() && layer.config == config && layer.width == width && layer.fed == lines
      ensures LayerOk(layer, lines) && layer in layer.Repr
    {
      hide TemplLayer.NodeOk, TemplLayer.TemplsAre, TemplLayer.SplitNodesOk, Total;
    }

    lemma OwnsParts()
      requires Valid()
      ensures forall part :: part in layers.Values ==> part in Repr
    {
      hide LayerOk;
    }

    /** All template layers have been split since the last line. */
    ghost predicate JustSplit()
      reads this, Repr
    {
      Valid() && forall r :: r in layers ==> layers[r].JustSplit()
    }

    method SplitTempls()
      requires Valid()
      modifies Repr
      ensures Valid() && JustSplit() && fresh(Repr - old(Repr))
      ensures account.fed == old(account.fed) && layers == old(layers)
    {
      hide *;
      var todo := layers.Keys;
      while todo != {}
        invariant Valid() && fresh(Repr - old(Repr)) && todo <= layers.Keys
        invariant account.fed == old(account.fed) && layers == old(layers)
        invariant forall r :: r in layers && r !in todo ==> layers[r].JustSplit()
      {
        var r :| r in todo;
        OwnsItself();
        SplitLayer(r);
        todo := todo - {r};
      }
      AllSplit();
    }

    lemma OwnsItself()
      requires Valid()
      ensures this in Repr
    {
    }

    lemma AllSplit()
      requires Valid() && forall r :: r in layers ==> layers[r].JustSplit()
      ensures JustSplit()
    {
    }

    method SplitLayer(r: Route)
      requires Valid() && r in layers
      modifies Repr
      ensures Valid() && fresh(Repr - old(Repr))
      ensures account.fed == old(account.fed) && layers == old(layers)
      ensures layers[r].JustSplit()
      ensures forall q :: q in layers && old(layers[q].JustSplit()) ==> layers[q].JustSplit()
    {
      hide RouteOf, Words, Balanced, LayerOk, TemplLayer.Valid, TemplLayer.JustSplit;
      ghost var a, repr0 := account, Repr;
      BalancedSays(a, RouteKey, layers.Keys, this, Repr);
      var layer := layers[r];
      LayerSays(layer, a.feds[r]);
      layer.SplitTempls();
      assert forall q :: q in layers && q != r ==> layers[q].Repr == a.reprs[q] && LayerOk(layers[q], a.feds[q]);
      LayerIsOk(layer, a.feds[r]);
      BalancedRefit(a, RouteKey, layers.Keys, this, repr0, r, layer.Repr);
      Record(Account(a.fed, a.feds, a.reprs[r := layer.Repr]), repr0 + layer.Repr);
    }

    /** What the template layers of these routes write, one after the other. */
    ghost function SavedIn(order: seq<Route>): seq<string>
      reads *
    {
      if order == [] then []
      else
        var last := order[|order| - 1];
        SavedIn(order[..|order| - 1]) + if last in layers then layers[last].Saved() else []
    }

    lemma SavedInMore(order: seq<Route>, r: Route)
      requires r in layers
      ensures SavedIn([]) == [] && SavedIn(order + [r]) == SavedIn(order) + layers[r].Saved()
    {
      assert (order + [r])[..|order|] == order;
    }

    lemma {:induction false} InSavedIn(order: seq<Route>, w: string)
      requires forall r :: r in order ==> r in layers
      ensures w in SavedIn(order) <==> exists r :: r in order && w in layers[r].Saved()
    {
      hide TemplLayer.Saved;
      if order != [] {
        InSavedIn(order[..|order| - 1], w);
        assert order == order[..|order| - 1] + [order[|order| - 1]];
      }
    }

    /** Writes what the template layers write, each of them once. */
    method SaveTempls() returns (written: seq<string>, ghost order: seq<Route>)
      ensures EachOnce(order, layers.Keys) && written == SavedIn(order)
      ensures forall w :: w in written <==> exists r :: r in layers && w in layers[r].Saved()
    {
      hide *;
      written, order := [], [];
      var todo := layers.Keys;
      NothingOrdered(layers.Keys);
      while todo != {}
        invariant todo <= layers.Keys
        invariant EachOnce(order, layers.Keys - todo) && written == SavedIn(order)
      {
        var r :| r in todo;
        var more := layers[r].SaveTempls();
        SavedInMore(order, r);
        OneMoreOrdered(order, layers.Keys - todo, r);
        assert layers.Keys - todo + {r} == layers.Keys - (todo - {r});
        written, order := written + more, order + [r];
        todo := todo - {r};
      }
      assert layers.Keys - todo == layers.Keys;
      OrderSays(order, layers.Keys);
      forall w ensures w in written <==> exists r :: r in layers && w in layers[r].Saved() {
        InSavedIn(order, w);
      }
    }

    lemma NothingOrdered(keys: set<Route>)
      ensures EachOnce([], keys - keys) && SavedIn([]) == []
    {
    }

    lemma RouteHasLines(r: Route)
      requires Valid()
      ensures r in layers <==> exists l :: l in account.fed && RouteKey(l) == r
    {
      hide LayerOk, RouteKey;
      BalancedLines(account, RouteKey, layers.Keys, this, Repr);
    }

    /** After a split, the lines alone determine what is written for these routes. */
    lemma {:induction false} SavedAfterSplit(order: seq<Route>)
      requires JustSplit() && forall r :: r in order ==> r in layers
      ensures multiset(SavedIn(order)) == OutputOfRoutes(order, account.fed, config.threshold)
    {
      hide *;
      if order == [] {
        NothingRouted(account.fed, config.threshold);
        NothingOrdered({});
      } else {
        var before, r := order[..|order| - 1], order[|order| - 1];
        assert order == before + [r] && r in order && forall q :: q in before ==> q in order;
        SavedAfterSplit(before);
        SavedInMore(before, r);
        JustSplitIsValid();
        PartIs(r);
        layers[r].SavedAfterSplit();
        OneMoreRoute(before, r, account.fed, config.threshold);
      }
    }

    /** What one route was fed. */
    lemma PartIs(r: Route)
      requires Valid() && r in layers
      ensures layers[r].Valid() && layers[r].config == config && layers[r].width == width
      ensures layers[r].fed == Select(account.fed, RouteKey, r)
      ensures forall l :: l in layers[r].fed <==> l in account.fed && RouteKey(l) == r
    {
      hide TemplLayer.Valid, RouteKey, Balanced, Select;
      BalancedSays(account, RouteKey, layers.Keys, this, Repr);
      BalancedLines(account, RouteKey, layers.Keys, this, Repr);
      assert LayerOk(layers[r], account.feds[r]);
      forall l | l in account.fed && RouteKey(l) == r ensures l in layers[r].fed {
        assert l in account.feds[RouteKey(l)];
      }
    }

    /** In every reachable state, a written template is one of the lines it was learned
        from, and so one of the lines of its route. */
    lemma SavedFits(r: Route, w: string) returns (some: seq<string>, l: string)
      requires Valid() && r in layers && w in layers[r].Saved()
      ensures LearnedFrom(w, some) && TemplateOf(some, w, config.threshold)
      ensures forall x :: x in some ==> x in account.fed && |Words(x)| == width && RouteKey(x) == r
      ensures l in account.fed && |Words(l)| == width && RouteKey(l) == r && Matches(Words(w), Words(l))
      ensures TemplateOf(Select(account.fed, RouteKey, r), w, config.threshold)
    {
      hide *;
      PartIs(r);
      some := layers[r].SavedIsLearned(w);
      LearnedHere(r, w, some);
      layers[r].LearnedFits(w, some);
      layers[r].SavedFits(w);
      layers[r].FedWidths();
      l := layers[r].FittingLine(layers[r].fed, w);
      FitsSays(layers[r], some, w);
      FitsSays(layers[r], layers[r].fed, w);
    }

    lemma LearnedHere(r: Route, w: string, some: seq<string>)
      requires r in layers && layers[r].LearnedFrom(w, some)
      ensures LearnedFrom(w, some)
    {
    }

    lemma FitsSays(layer: TemplLayer, lines: seq<string>, w: string)
      requires layer.Fits(lines, w)
      ensures TemplateOf(lines, w, layer.config.threshold)
    {
    }

    /** After a split all lines are kept, and as long as no template was split as well. */
    lemma FedIsKept(l: string)
      requires Valid() && l in account.fed && (JustSplit() || Whole())
      ensures Kept(l)
    {
      hide RouteKey, TemplLayer.Kept, TemplLayer.Valid, LayerOk, Balanced, Select;
      RouteInLayers(l);
      PartIs(RouteKey(l));
      layers[RouteKey(l)].FedIsKept(l);
    }

    /** After a split, what is written covers all lines of this layer. */
    lemma SavedCovers(written: seq<string>)
      requires JustSplit()
      requires forall w :: w in written <==> exists r :: r in layers && w in layers[r].Saved()
      ensures Covered(written, account.fed)
    {
      hide *;
      JustSplitIsValid();
      forall l | l in account.fed ensures exists w :: w in written && Matches(Words(w), Words(l)) {
        FedIsKept(l);
        var r, w := LineIsCovered(l);
      }
      forall w | w in written ensures exists l :: l in account.fed && Matches(Words(w), Words(l)) {
        var r :| r in layers && w in layers[r].Saved();
        var some, l := SavedFits(r, w);
      }
      CoveredIs(written, account.fed);
    }

    lemma JustSplitIsValid()
      requires JustSplit()
      ensures Valid() && forall r :: r in layers ==> layers[r].JustSplit()
    {
    }

    lemma RouteInLayers(l: string)
      requires Valid() && l in account.fed
      ensures RouteKey(l) in layers
    {
      hide LayerOk, RouteKey;
      BalancedLines(account, RouteKey, layers.Keys, this, Repr);
    }

    /** In every reachable state, what is written matches the lines that are kept. */
    lemma LineIsCovered(l: string) returns (r: Route, w: string)
      requires Valid() && Kept(l)
      ensures r in layers && w in layers[r].Saved() && Matches(Words(w), Words(l))
    {
      hide *;
      r := RouteKey(l);
      KeptSays(l);
      PartIs(r);
      w := layers[r].LineIsWritten(l);
    }

    lemma KeptSays(l: string)
      requires Kept(l)
      ensures RouteKey(l) in layers && layers[RouteKey(l)].Kept(l)
    {
      hide TemplLayer.Kept;
    }

    /** In every reachable state, the templates of a routing word have that word in its
        place, and so has whatever would be written for them. */
    lemma RouteIsKept(r: Route, w: string)
      requires Valid() && r in layers && width > 0 && r != ByFirst(ANY)
      requires w in layers[r].Saved() || exists i :: 0 <= i < |layers[r].nodes| && layers[r].nodes[i].templ == w
      ensures |Words(w)| == width
      ensures if r.ByFirst? then Words(w)[0] == r.key else Words(w)[width - 1] == r.key
    {
      hide *;
      PartIs(r);
      if w in layers[r].Saved() {
        layers[r].SavedFits(w);
      } else {
        var i :| 0 <= i < |layers[r].nodes| && layers[r].nodes[i].templ == w;
        layers[r].NodeFits(i);
      }
      var l := layers[r].FittingLine(layers[r].fed, w);
      layers[r].FedWidths();
      RoutedWordIsLiteral(layers[r].fed, w, r);
    }
  }
}

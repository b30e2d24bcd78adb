/**
 The online templater: `length_layer` and `online_templater` of
 flt/templating/online_templater.hpp, and the loop of tools/online_templater.cpp
 around it.
*/
module OnlineTemplaters {
  import opened WordIterators
  import opened ParamTables
  import opened Similarities
  import opened TemplSequences
  import opened TemplNodes
  import opened Outputs
  import opened TemplHistories
  import opened TemplLayers
  import opened Accounts
  import opened Routing
  import opened LineGroups

  class LengthLayer {
    var layers: map<nat, TokenLayer>
    const config: Configuration

    ghost var account: Account<nat>
    ghost var Repr: set<object>

    ghost predicate LayerOk(layer: TokenLayer, n: nat, lines: seq<string>)
      reads layer, layer.Repr
    {
      && layer.Valid() && layer.config == config && layer.width == n
      && layer in layer.Repr && layer.account.fed == lines
    }

    ghost predicate Valid()
      reads this, Repr
    {
      && Balanced(account, WordCount, layers.Keys, this, Repr)
      && forall n :: n in layers ==>
           && layers[n] in account.reprs[n] && account.reprs[n] <= Repr && layers[n].Repr == account.reprs[n]
           && LayerOk(layers[n], n, account.feds[n])
    }

    constructor (config: Configuration)
      ensures Valid() && fresh(Repr) && this.config == config
      ensures account.fed == [] && layers == map[] && Whole()
    {
      this.config := config;
      layers, account := map[], Account([], map[], map[]);
      Repr := {this};
      new;
      NothingBalanced(WordCount, this);
    }

    /** A line that is matched by what would be written. */
    ghost predicate Kept(l: string)
      reads *
    {
      WordCount(l) in layers && layers[WordCount(l)].Kept(l)
    }

    /** No template counts as split. */
    ghost predicate Whole()
      reads *
    {
      forall n :: n in layers ==> layers[n].Whole()
    }

    /** The lines a template was learned from, or one it was split into. */
    ghost predicate LearnedFrom(w: string, some: seq<string>)
      reads *
    {
      exists n :: n in layers && layers[n].LearnedFrom(w, some)
    }

    /** The layer for lines of `n` words has been looked up, and perhaps added, in a valid
        state. */
    ghost predicate LookedUp(n: nat, keys: set<nat>)
      reads *
    {
      && Balanced(account, WordCount, keys, this, Repr) && layers.Keys == keys + {n}
      && (forall q :: q in keys && q != n ==> PartOk(q, account))
      && LayerOk(layers[n], n, FedOf(account.feds, n))
      && if n in keys then n in account.reprs && layers[n].Repr == account.reprs[n]
         else layers[n].Repr !! Repr
    }

    /** The token layer for lines of `n` words, made when it is first needed. */
    method GetTokenLayer(n: nat) returns (layer: TokenLayer)
      requires Valid()
      modifies this`layers
      ensures layers == old(layers)[n := layer]
      ensures LookedUp(n, old(layers.Keys))
      ensures if n in old(layers) then layer == old(layers)[n] else fresh(layer.Repr) && layer.Whole()
    {
      hide Balanced, LayerOk, TokenLayer.Valid, LookedUp, PartOk;
      ValidSays();
      FoundIsLookedUp(n);
      if n in layers {
        layer := layers[n];
      } else {
        layer := AddLayer(n);
      }
    }

    lemma FoundIsLookedUp(n: nat)
      requires Valid()
      ensures n in layers ==> LookedUp(n, layers.Keys)
    {
      hide LayerOk, Separate, Partition;
      if n in layers {
        assert layers.Keys + {n} == layers.Keys;
      }
    }

    method AddLayer(n: nat) returns (layer: TokenLayer)
      requires Valid() && n !in layers
      modifies this`layers
      ensures fresh(layer.Repr) && layer.Whole() && layers == old(layers)[n := layer]
      ensures LookedUp(n, old(layers.Keys))
    {
      hide Balanced, LayerOk, TokenLayer.Valid;
      BalancedSays(account, WordCount, layers.Keys, this, Repr);
      ValidParts();
      layer := new TokenLayer(config, n);
      LayerIsOk(layer, n, []);
      layers := layers[n := layer];
      forall q | q in old(layers) ensures PartOk(q, account) {
        assert old(PartOk(q, account)) && layers[q] == old(layers)[q];
      }
    }

    lemma ValidParts()
      requires Valid()
      ensures forall q :: q in layers ==> PartOk(q, account)
    {
      hide LayerOk, Separate, Partition;
    }

    lemma ValidSays()
      requires Valid()
      ensures Balanced(account, WordCount, layers.Keys, this, Repr) && this in Repr
      ensures forall n :: n in layers ==> layers[n].Repr <= Repr
    {
      hide LayerOk;
    }

    /** The lines that a line of this many words and this route is compared with. */
    ghost function Peers(line: string): seq<string>
      reads this
    {
      PeersOf(account.fed, line)
    }

    /** Routes one line by its number of words. */
    method Update(line: string)
      requires Valid() && Admits(Peers(line), line, config.threshold)
      modifies Repr
      ensures Valid() && fresh(Repr - old(Repr)) && account.fed == old(account.fed) + [line]
      ensures layers.Keys == old(layers.Keys) + {WordCount(line)}
      ensures forall n :: n in old(layers) ==> layers[n] == old(layers)[n]
      ensures forall l :: old(Kept(l)) ==> Kept(l)
      ensures old(Whole()) ==> Whole() && Kept(line)
    {
      hide *;
      ValidSays();
      PeersAre(line);
      ghost var keys := layers.Keys;
      var n := CountTokens(line);
      var layer := LookUp(n);
      WordCountIs(line);
      FeedPart(layer, n, line, keys);
    }

    /** Looking up a layer changes nothing about the lines that are kept. */
    method LookUp(n: nat) returns (layer: TokenLayer)
      requires Valid()
      modifies this`layers
      ensures layers == old(layers)[n := layer]
      ensures LookedUp(n, old(layers.Keys))
      ensures if n in old(layers) then layer == old(layers)[n] else fresh(layer.Repr)
      ensures forall l :: old(Kept(l)) ==> Kept(l)
      ensures old(Whole()) ==> Whole()
    {
      hide Valid, WordCount, LookedUp, TokenLayer.Kept, TokenLayer.Whole;
      layer := GetTokenLayer(n);
    }

    lemma WordCountIs(line: string)
      ensures WordCount(line) == |Words(line)|
    {
    }

    lemma PeersAre(line: string)
      requires Balanced(account, WordCount, layers.Keys, this, Repr)
      ensures Peers(line) == Select(FedOf(account.feds, WordCount(line)), RouteKey, RouteKey(line))
    {
      BalancedLines(account, WordCount, layers.Keys, this, Repr);
      hide Balanced, FedOf, Select, RouteKey, Words;
    }

    /** The layer that has been looked up takes a line, and the others keep what they had. */
    method FeedPart(layer: TokenLayer, n: nat, line: string, ghost keys: set<nat>)
      requires LookedUp(n, keys) && n in layers && layers[n] == layer && n == WordCount(line)
      requires Admits(Select(FedOf(account.feds, n), RouteKey, RouteKey(line)), line, config.threshold)
      modifies this`account, this`Repr, layer.Repr
      ensures Valid() && fresh(Repr - old(Repr) - old(layer.Repr)) && account.fed == old(account.fed) + [line]
      ensures layers == old(layers)
      ensures forall l :: old(Kept(l)) ==> Kept(l)
      ensures old(Whole()) ==> Whole() && Kept(line)
    {
      hide Valid, RouteKey, WordCount, LookedUp, Select, Admits, FedOf, TokenLayer.Kept, TokenLayer.Whole;
      Feed(layer, n, line, keys);
    }

    /** The layer that has been looked up takes a line. */
    method Feed(layer: TokenLayer, n: nat, line: string, ghost keys: set<nat>)
      requires LookedUp(n, keys) && n in layers && layers[n] == layer && n == WordCount(line)
      requires Admits(Select(FedOf(account.feds, n), RouteKey, RouteKey(line)), line, config.threshold)
      modifies this`account, this`Repr, layer.Repr
      ensures Valid() && fresh(Repr - old(Repr) - old(layer.Repr)) && account.fed == old(account.fed) + [line]
      ensures layers == old(layers)
      ensures forall q, l :: q in layers && q != n && old(layers[q].Kept(l)) ==> layers[q].Kept(l)
      ensures forall q :: q in layers && q != n && old(layers[q].Whole()) ==> layers[q].Whole()
      ensures forall l :: old(layer.Kept(l)) ==> layer.Kept(l)
      ensures old(layer.Whole()) ==> layer.Whole() && layer.Kept(line)
    {
      hide RouteKey, WordCount, Words, Balanced, LayerOk, TokenLayer.Valid, FedOf, Select, Admits;
      hide TokenLayer.Kept, TokenLayer.Whole;
      BalancedSays(account, WordCount, keys, this, Repr);
      LayerSays(layer, n, FedOf(account.feds, n));
      OthersApart(n, keys);
      assert this !in layer.Repr;
      Pass(layer, n, FedOf(account.feds, n), line);
      Note(layer, n, line, keys);
    }

    /** The parts that are not fed share nothing with the one that is. */
    lemma OthersApart(n: nat, keys: set<nat>)
      requires LookedUp(n, keys) && n in layers
      ensures forall q :: q in layers && q != n ==>
        layers[q] !in layers[n].Repr && forall part :: part in layers[q].layers.Values ==> part !in layers[n].Repr
    {
      hide Balanced, TokenLayer.Valid;
      BalancedSays(account, WordCount, keys, this, Repr);
      forall q | q in layers && q != n
        ensures layers[q] !in layers[n].Repr
        ensures forall part :: part in layers[q].layers.Values ==> part !in layers[n].Repr
      {
        assert PartOk(q, account);
        layers[q].OwnsParts();
      }
    }

    /** The account of the line that a part has taken. */
    ghost method Note(layer: TokenLayer, n: nat, line: string, keys: set<nat>)
      requires Balanced(account, WordCount, keys, this, Repr) && layers.Keys == keys + {n}
      requires layers[n] == layer && n == WordCount(line)
      requires layer.Repr * Repr <= if n in keys then account.reprs[n] else {}
      requires forall q :: q in keys && q != n ==> PartOk(q, account)
      requires LayerOk(layer, n, FedOf(account.feds, n) + [line])
      modifies this`account, this`Repr
      ensures Valid() && Repr == old(Repr) + layer.Repr && account.fed == old(account.fed) + [line]
    {
      hide WordCount, Words, Balanced, LayerOk, TokenLayer.Valid, Fed, FedOf;
      ghost var a, repr0 := account, Repr;
      BalancedSays(a, WordCount, keys, this, Repr);
      LayerSays(layer, n, FedOf(a.feds, n) + [line]);
      BalancedMore(a, WordCount, keys, this, repr0, n, line, layer.Repr);
      ghost var b := Fed(a, n, line, layer.Repr);
      BalancedSays(b, WordCount, layers.Keys, this, repr0 + layer.Repr);
      PartsAfter(a, b, keys, repr0 + layer.Repr, n);
      Record(b, repr0 + layer.Repr);
    }

    /** One part of the layer is as the account says. */
    ghost predicate PartOk(n: nat, a: Account<nat>)
      requires n in layers
      reads this, layers[n], layers[n].Repr
    {
      && n in a.reprs && n in a.feds
      && layers[n] in a.reprs[n] && layers[n].Repr == a.reprs[n] && LayerOk(layers[n], n, a.feds[n])
    }

    lemma PartsAfter(a: Account<nat>, b: Account<nat>, keys: set<nat>, all: set<object>, n: nat)
      requires layers.Keys == keys + {n} && Balanced(b, WordCount, layers.Keys, this, all) && PartOk(n, b)
      requires forall q :: q in keys && q != n ==> PartOk(q, a)
      requires forall q :: q in keys && q != n ==> q in a.feds && q in b.feds && q in a.reprs && q in b.reprs
      requires forall q :: q in keys && q != n ==> b.feds[q] == a.feds[q] && b.reprs[q] == a.reprs[q]
      ensures forall q :: q in layers ==> PartOk(q, b)
    {
      hide LayerOk, Balanced;
    }

    ghost method Record(b: Account<nat>, all: set<object>)
      requires Balanced(b, WordCount, layers.Keys, this, all)
      requires forall q :: q in layers ==> PartOk(q, b)
      modifies this`account, this`Repr
      ensures Valid() && account == b && Repr == all
    {
      hide Balanced, LayerOk;
      BalancedSays(b, WordCount, layers.Keys, this, all);
      account := b;
      Repr := all;
    }

    method Pass(layer: TokenLayer, ghost n: nat, ghost lines: seq<string>, line: string)
      requires LayerOk(layer, n, lines) && n == WordCount(line)
      requires Admits(Select(lines, RouteKey, RouteKey(line)), line, config.threshold)
      modifies layer.Repr
      ensures LayerOk(layer, n, lines + [line]) && layer in layer.Repr && fresh(layer.Repr - old(layer.Repr))
      ensures forall l :: old(layer.Kept(l)) ==> layer.Kept(l)
      ensures old(layer.Whole()) ==> layer.Whole() && layer.Kept(line)
    {
      hide Words, TokenLayer.Valid, TokenLayer.Kept, TokenLayer.Whole, Select, RouteKey, Admits;
      layer.Update(line);
      LayerIsOk(layer, n, lines + [line]);
    }

    lemma LayerSays(layer: TokenLayer, n: nat, lines: seq<string>)
      requires LayerOk(layer, n, lines)
      ensures layer.Valid() && layer.config == config && layer.width == n
      ensures layer in layer.Repr && layer.account.fed == lines
    {
      hide TokenLayer.Valid;
    }

    lemma LayerIsOk(layer: TokenLayer, n: nat, lines: seq<string>)
      requires layer.Valid() && layer.config == config && layer.width == n && layer.account.fed == lines
      ensures LayerOk(layer, n, lines) && layer in layer.Repr
    {
      layer.OwnsItself();
      hide TokenLayer.Valid;
    }

    /** All token layers have been split since the last line. */
    ghost predicate JustSplit()
      reads this, Repr
    {
      Valid() && forall n :: n in layers ==> layers[n].JustSplit()
    }

    method SplitTempls()
      requires Valid()
      modifies Repr
      ensures Valid() && JustSplit() && fresh(Repr - old(Repr))
      ensures account.fed == old(account.fed) && layers == old(layers)
    {
      hide *;
      var todo := layers.Keys;
      while todo != {}
        invariant Valid() && fresh(Repr - old(Repr)) && todo <= layers.Keys
        invariant account.fed == old(account.fed) && layers == old(layers)
        invariant forall n :: n in layers && n !in todo ==> layers[n].JustSplit()
      {
        var n :| n in todo;
        OwnsItself();
        SplitLayer(n);
        todo := todo - {n};
      }
      AllSplit();
    }

    lemma OwnsItself()
      requires Valid()
      ensures this in Repr
    {
    }

    lemma AllSplit()
      requires Valid() && forall n :: n in layers ==> layers[n].JustSplit()
      ensures JustSplit()
    {
    }

    method SplitLayer(n: nat)
      requires Valid() && n in layers
      modifies Repr
      ensures Valid() && fresh(Repr - old(Repr))
      ensures account.fed == old(account.fed) && layers == old(layers)
      ensures layers[n].JustSplit()
      ensures forall q :: q in layers && old(layers[q].JustSplit()) ==> layers[q].JustSplit()
    {
      hide Words, Balanced, LayerOk, TokenLayer.Valid, TokenLayer.JustSplit;
      ghost var a, repr0 := account, Repr;
      BalancedSays(a, WordCount, layers.Keys, this, Repr);
      var layer := layers[n];
      LayerSays(layer, n, a.feds[n]);
      layer.SplitTempls();
      assert forall q :: q in layers && q != n ==> layers[q].Repr == a.reprs[q] && LayerOk(layers[q], q, a.feds[q]);
      LayerIsOk(layer, n, a.feds[n]);
      BalancedRefit(a, WordCount, layers.Keys, this, repr0, n, layer.Repr);
      Record(Account(a.fed, a.feds, a.reprs[n := layer.Repr]), repr0 + layer.Repr);
    }

    /** What the template layers of these groups write, one after the other. */
    ghost function SavedIn(order: seq<Group>): seq<string>
      reads *
    {
      if order == [] then []
      else
        SavedIn(order[..|order| - 1]) + SavedOf(order[|order| - 1])
    }

    ghost function SavedOf(g: Group): seq<string>
      reads *
    {
      if HasGroup(g) then layers[g.count].layers[g.route].Saved() else []
    }

    ghost predicate HasGroup(g: Group)
      reads *
    {
      g.count in layers && g.route in layers[g.count].layers
    }

    /** The groups of all widths but these, in some order, each once. */
    ghost predicate InOrder(order: seq<Group>, todo: set<nat>)
      reads *
    {
      && (forall i, j :: 0 <= i < j < |order| ==> order[i] != order[j])
      && (forall g :: g in order <==> HasGroup(g) && g.count !in todo)
    }

    lemma {:induction false} SavedInMore(order: seq<Group>, n: nat, routes: seq<Route>)
      requires n in layers && forall r :: r in routes ==> r in layers[n].layers
      ensures SavedIn(order + GroupsOf(n, routes)) == SavedIn(order) + layers[n].SavedIn(routes)
    {
      hide TemplLayer.Saved;
      if routes == [] {
        assert order + GroupsOf(n, routes) == order;
      } else {
        var last := |routes| - 1;
        var all := order + GroupsOf(n, routes);
        assert all[..|all| - 1] == order + GroupsOf(n, routes[..last]);
        assert all[|all| - 1] == Group(n, routes[last]);
        SavedInMore(order, n, routes[..last]);
      }
    }

    lemma {:induction false} InSavedIn(order: seq<Group>, w: string)
      ensures w in SavedIn(order) <==> exists g :: g in order && w in SavedOf(g)
    {
      hide SavedOf;
      if order != [] {
        InSavedIn(order[..|order| - 1], w);
        assert order == order[..|order| - 1] + [order[|order| - 1]];
      }
    }

    lemma OrderMore(order: seq<Group>, todo: set<nat>, n: nat, routes: seq<Route>)
      requires InOrder(order, todo) && n in todo && n in layers && EachOnce(routes, layers[n].layers.Keys)
      ensures InOrder(order + GroupsOf(n, routes), todo - {n})
    {
      var more := GroupsOf(n, routes);
      forall g ensures g in more <==> g.count == n && g.route in routes {
        if g.count == n && g.route in routes {
          var i :| 0 <= i < |routes| && routes[i] == g.route;
          assert more[i] == g;
        }
      }
      forall i, j | 0 <= i < j < |order + more| ensures (order + more)[i] != (order + more)[j] {
        assert i < |order| <= j ==> order[i] in order && more[j - |order|] in more;
      }
    }

    /** Writes what the token layers write, each of them once: templates of the lines, which
        match all lines that are kept; after a split these are all lines, and they alone
        determine what is written. */
    method SaveTempls() returns (written: seq<string>, ghost order: seq<Group>)
      ensures InOrder(order, {}) && written == SavedIn(order)
      ensures Valid() ==> GroupsOfLines(order, account.fed)
      ensures Valid() ==> forall w :: w in written ==> Fits(w)
      ensures Valid() ==> forall l :: Kept(l) ==> exists w :: w in written && Matches(Words(w), Words(l))
      ensures JustSplit() ==> Covered(written, account.fed)
      ensures JustSplit() ==> multiset(written) == OutputOfGroups(order, account.fed, config.threshold)
    {
      hide *;
      written, order := [], [];
      var todo := layers.Keys;
      NothingInOrder();
      while todo != {}
        invariant todo <= layers.Keys
        invariant InOrder(order, todo) && written == SavedIn(order)
      {
        var n :| n in todo;
        var more, routes := layers[n].SaveTempls();
        OrderMore(order, todo, n, routes);
        OrderSays(routes, layers[n].layers.Keys);
        SavedInMore(order, n, routes);
        written, order := written + more, order + GroupsOf(n, routes);
        todo := todo - {n};
      }
      if Valid() {
        OrderIsOfLines(order);
        AllFit(written, order);
        KeptAreCovered(written, order);
        if JustSplit() {
          AllCovered(written);
          SavedAfterSplit(order);
        }
      }
      JustSplitIsValid();
    }

    lemma NothingInOrder()
      ensures InOrder([], layers.Keys) && SavedIn([]) == []
    {
    }

    lemma OrderIsOfLines(order: seq<Group>)
      requires Valid() && InOrder(order, {})
      ensures GroupsOfLines(order, account.fed)
    {
      hide WordCount, RouteKey, TokenLayer.Valid, Balanced, Select, HasGroup;
      forall g ensures HasGroup(g) <==> exists l :: l in account.fed && GroupOf(l) == g {
        GroupHasLines(g);
      }
    }

    /** There is a layer for a group exactly if there are lines of it. */
    lemma GroupHasLines(g: Group)
      requires Valid()
      ensures HasGroup(g) <==> exists l :: l in account.fed && GroupOf(l) == g
    {
      hide WordCount, RouteKey, TokenLayer.Valid, Balanced, Select, LayerOk;
      BalancedLines(account, WordCount, layers.Keys, this, Repr);
      if g.count in layers {
        PartIs(g.count);
        layers[g.count].RouteHasLines(g.route);
      }
    }

    lemma SavedAfterSplit(order: seq<Group>)
      requires JustSplit() && InOrder(order, {})
      ensures multiset(SavedIn(order)) == OutputOfGroups(order, account.fed, config.threshold)
    {
      OrderHasGroups(order);
      SavedUpTo(order);
    }

    lemma OrderHasGroups(order: seq<Group>)
      requires InOrder(order, {})
      ensures forall g :: g in order ==> HasGroup(g)
    {
      hide HasGroup;
    }

    lemma {:induction false} SavedUpTo(order: seq<Group>)
      requires JustSplit() && forall g :: g in order ==> HasGroup(g)
      ensures multiset(SavedIn(order)) == OutputOfGroups(order, account.fed, config.threshold)
    {
      hide *;
      if order == [] {
        NothingInOrder();
        NoGroups(account.fed, config.threshold);
      } else {
        var before, g := order[..|order| - 1], order[|order| - 1];
        assert order == before + [g] && g in order && forall q :: q in before ==> q in order;
        SavedUpTo(before);
        GroupSays(g);
        SavedInMore(before, g.count, [g.route]);
        assert GroupsOf(g.count, [g.route]) == [g];
        OutputOfWidth(before, g.count, [g.route], account.fed, config.threshold);
        JustSplitSays();
        PartIs(g.count);
        layers[g.count].SavedAfterSplit([g.route]);
      }
    }

    lemma GroupSays(g: Group)
      requires HasGroup(g)
      ensures g.count in layers && g.route in layers[g.count].layers
    {
    }

    lemma JustSplitSays()
      requires JustSplit()
      ensures Valid() && forall n :: n in layers ==> layers[n].JustSplit()
    {
    }

    /** A written template is one of the lines it was learned from, which decide its share
        of literal words, and so one of all lines with as many words and the same route. */
    ghost predicate Fits(w: string)
      reads *
    {
      && (exists some :: LearnedHere(w, some))
      && (exists l :: l in account.fed && MatchesOfPeers(w, l))
    }

    ghost predicate LearnedHere(w: string, some: seq<string>)
      reads *
    {
      && LearnedFrom(w, some) && TemplateOf(some, w, config.threshold)
      && PartOf(some, account.fed)
    }

    ghost predicate MatchesOfPeers(w: string, l: string)
      reads this
    {
      Matches(Words(w), Words(l)) && TemplateOf(Peers(l), w, config.threshold)
    }

    lemma AllFit(written: seq<string>, order: seq<Group>)
      requires Valid() && InOrder(order, {}) && written == SavedIn(order)
      ensures forall w :: w in written ==> Fits(w)
    {
      hide *;
      OrderHasGroups(order);
      forall w | w in written ensures Fits(w) {
        InSavedIn(order, w);
        var g :| g in order && w in SavedOf(g);
        PartFits(g, w);
      }
    }

    lemma PartFits(g: Group, w: string)
      requires Valid() && HasGroup(g) && w in SavedOf(g)
      ensures Fits(w)
    {
      hide *;
      GroupSays(g);
      SavedOfSays(g);
      PartIs(g.count);
      var some, l := layers[g.count].SavedFits(g.route, w);
      FitsHere(g.count, g.route, w, some, l);
    }

    lemma SavedOfSays(g: Group)
      requires HasGroup(g)
      ensures g.count in layers && g.route in layers[g.count].layers
      ensures SavedOf(g) == layers[g.count].layers[g.route].Saved()
    {
      hide TemplLayer.Saved;
    }

    lemma FitsHere(n: nat, r: Route, w: string, some: seq<string>, l: string)
      requires n in layers && layers[n].LearnedFrom(w, some) && TemplateOf(some, w, config.threshold)
      requires layers[n].account.fed == Select(account.fed, WordCount, n)
      requires forall x :: x in layers[n].account.fed ==> x in account.fed
      requires forall x :: x in some ==> x in layers[n].account.fed
      requires l in account.fed && |Words(l)| == n && RouteKey(l) == r && Matches(Words(w), Words(l))
      requires TemplateOf(Select(layers[n].account.fed, RouteKey, r), w, config.threshold)
      ensures Fits(w)
    {
      hide Words, Matches, TemplateOf, Select, RouteKey, TokenLayer.LearnedFrom;
      assert LearnedHere(w, some);
      assert MatchesOfPeers(w, l);
    }

    /** What the layer for `n` words was fed. */
    lemma PartIs(n: nat)
      requires Valid() && n in layers
      ensures layers[n].Valid() && layers[n].config == config && layers[n].width == n
      ensures layers[n].account.fed == Select(account.fed, WordCount, n)
      ensures forall l :: l in layers[n].account.fed <==> l in account.fed && WordCount(l) == n
    {
      hide TokenLayer.Valid, WordCount, Balanced, Select;
      BalancedSays(account, WordCount, layers.Keys, this, Repr);
      BalancedLines(account, WordCount, layers.Keys, this, Repr);
      assert LayerOk(layers[n], n, account.feds[n]);
      forall l | l in account.fed && WordCount(l) == n ensures l in layers[n].account.fed {
        assert l in account.feds[WordCount(l)];
      }
    }

    lemma AllCovered(written: seq<string>)
      requires Valid() && JustSplit() && forall w :: w in written ==> Fits(w)
      requires forall l :: Kept(l) ==> exists w :: w in written && Matches(Words(w), Words(l))
      ensures Covered(written, account.fed)
    {
      hide *;
      forall l | l in account.fed ensures exists w :: w in written && Matches(Words(w), Words(l)) {
        FedIsKept(l);
      }
      forall w | w in written ensures exists l :: l in account.fed && Matches(Words(w), Words(l)) {
        var l := LineOf(w);
      }
      CoveredIs(written, account.fed);
    }

    lemma JustSplitIsValid()
      ensures JustSplit() ==> Valid()
    {
    }

    lemma LineOf(w: string) returns (l: string)
      requires Fits(w)
      ensures l in account.fed && Matches(Words(w), Words(l))
    {
      hide Words, Matches, TemplateOf;
      l :| l in account.fed && MatchesOfPeers(w, l);
    }

    lemma CountOf(l: string) returns (n: nat)
      requires Valid() && l in account.fed
      ensures n == WordCount(l) && n in layers && l in layers[n].account.fed
    {
      hide LayerOk, WordCount;
      BalancedLines(account, WordCount, layers.Keys, this, Repr);
      n := WordCount(l);
      PartIs(n);
    }

    /** After a split all lines are kept, and as long as no template was split as well. */
    lemma FedIsKept(l: string)
      requires Valid() && l in account.fed && (JustSplit() || Whole())
      ensures Kept(l)
    {
      hide WordCount, TokenLayer.Kept, TokenLayer.Valid, LayerOk, Balanced, Select;
      var n := CountOf(l);
      PartIs(n);
      layers[n].FedIsKept(l);
    }

    /** In every reachable state, what is written matches the lines that are kept. */
    lemma KeptAreCovered(written: seq<string>, order: seq<Group>)
      requires Valid() && InOrder(order, {}) && written == SavedIn(order)
      ensures forall l :: Kept(l) ==> exists w :: w in written && Matches(Words(w), Words(l))
    {
      hide *;
      forall l | Kept(l) ensures exists w :: w in written && Matches(Words(w), Words(l)) {
        KeptSays(l);
        var n := WordCount(l);
        PartIs(n);
        var r, w := layers[n].LineIsCovered(l);
        SavedHere(order, n, r, w);
      }
    }

    lemma SavedHere(order: seq<Group>, n: nat, r: Route, w: string)
      requires InOrder(order, {}) && n in layers && r in layers[n].layers && w in layers[n].layers[r].Saved()
      ensures w in SavedIn(order)
    {
      hide TemplLayer.Saved, SavedIn;
      assert Group(n, r) in order && w in SavedOf(Group(n, r));
      InSavedIn(order, w);
    }

    lemma KeptSays(l: string)
      requires Kept(l)
      ensures WordCount(l) in layers && layers[WordCount(l)].Kept(l)
    {
      hide TokenLayer.Kept, WordCount;
    }
  }

  class OnlineTemplater {
    const config: Configuration
    var lengthNodes: LengthLayer
    ghost var Repr: set<object>

    ghost predicate Valid()
      reads this, Repr
    {
      && this in Repr && lengthNodes in Repr && lengthNodes.Repr <= Repr && this !in lengthNodes.Repr
      && lengthNodes.Valid() && lengthNodes.config == config
    }

    /** The lines learned so far. */
    ghost function Fed(): seq<string>
      reads this, lengthNodes
    {
      lengthNodes.account.fed
    }

    constructor (threshold: real := 0.5, storeParams: bool := false)
      ensures Valid() && fresh(Repr) && Fed() == [] && lengthNodes.Whole()
      ensures config == Configuration(threshold, storeParams)
    {
      config := Configuration(threshold, storeParams);
      lengthNodes := new LengthLayer(Configuration(threshold, storeParams));
      new;
      Repr := {this} + lengthNodes.Repr;
      lengthNodes.OwnsItself();
    }

    /** The call operator: empty lines are ignored. */
    method Feed(line: string)
      requires Valid() && (line != "" ==> AdmitsNext(Fed(), line, config.threshold))
      modifies Repr
      ensures Valid() && fresh(Repr - old(Repr))
      ensures Fed() == if line == "" then old(Fed()) else old(Fed()) + [line]
      ensures forall l :: old(lengthNodes.Kept(l)) ==> lengthNodes.Kept(l)
      ensures old(lengthNodes.Whole()) ==> lengthNodes.Whole() && (line != "" ==> lengthNodes.Kept(line))
    {
      hide PeersOf, Admits, LengthLayer.Valid, LengthLayer.Kept, LengthLayer.Whole;
      lengthNodes.OwnsItself();
      if line != "" {
        lengthNodes.Update(line);
        Own();
      }
    }

    method SplitTempls()
      requires Valid()
      modifies Repr
      ensures Valid() && lengthNodes.JustSplit() && fresh(Repr - old(Repr)) && Fed() == old(Fed())
      ensures forall l :: l in Fed() ==> lengthNodes.Kept(l)
    {
      hide LengthLayer.Valid, LengthLayer.JustSplit, LengthLayer.Kept, LengthLayer.Whole;
      lengthNodes.OwnsItself();
      lengthNodes.SplitTempls();
      Own();
      forall l | l in Fed() ensures lengthNodes.Kept(l) {
        lengthNodes.FedIsKept(l);
      }
    }

    /** Takes possession of what the layers have added. */
    ghost method Own()
      requires this in Repr && lengthNodes.Valid() && lengthNodes.config == config && this !in lengthNodes.Repr
      modifies this`Repr
      ensures Valid() && Repr == old(Repr) + lengthNodes.Repr
      ensures lengthNodes.JustSplit() == old(lengthNodes.JustSplit())
      ensures forall l :: lengthNodes.Kept(l) == old(lengthNodes.Kept(l))
      ensures lengthNodes.Whole() == old(lengthNodes.Whole())
    {
      hide LengthLayer.Valid, LengthLayer.JustSplit, TokenLayer.Kept, TokenLayer.Whole;
      lengthNodes.OwnsItself();
      Repr := Repr + lengthNodes.Repr;
    }

    /** Whatever is written is a template of the lines it was learned from, which decide its
        share of literal words, and matches a line, whose peers decide it at the latest. It
        matches all lines that are kept, and after a split all lines. */
    method SaveTempls() returns (written: seq<string>, ghost order: seq<Group>)
      requires Valid()
      ensures GroupsOfLines(order, Fed()) && written == lengthNodes.SavedIn(order)
      ensures lengthNodes.JustSplit() ==> multiset(written) == OutputOfGroups(order, Fed(), config.threshold)
      ensures lengthNodes.JustSplit() && NoWildcards(Fed()) ==>
        forall w :: w in written ==> WrittenForLines(order, Fed(), config.threshold, w)
      ensures forall w :: w in written ==> exists some ::
        lengthNodes.LearnedFrom(w, some) && PartOf(some, Fed()) && TemplateOf(some, w, config.threshold)
      ensures forall w :: w in written ==> exists l ::
        l in Fed() && Matches(Words(w), Words(l)) && TemplateOf(PeersOf(Fed(), l), w, config.threshold)
      ensures config.threshold < 1.0 && NoWildcards(Fed()) ==>
        forall w :: w in written ==> MostlyLiteral(Words(w), config.threshold)
      ensures forall l :: lengthNodes.Kept(l) ==> exists w :: w in written && Matches(Words(w), Words(l))
      ensures lengthNodes.JustSplit() ==> Covered(written, Fed())
    {
      hide *;
      LayerIsValid();
      written, order := lengthNodes.SaveTempls();
      forall w | w in written
        ensures exists some ::
          lengthNodes.LearnedFrom(w, some) && PartOf(some, Fed()) && TemplateOf(some, w, config.threshold)
        ensures exists l ::
          l in Fed() && Matches(Words(w), Words(l)) && TemplateOf(PeersOf(Fed(), l), w, config.threshold)
        ensures config.threshold < 1.0 && NoWildcards(Fed()) ==> MostlyLiteral(Words(w), config.threshold)
      {
        FitsSays(w);
      }
      if lengthNodes.JustSplit() && NoWildcards(Fed()) {
        forall w | w in written ensures WrittenForLines(order, Fed(), config.threshold, w) {
          assert w in multiset(written);
          OutputIsForLines(order, Fed(), config.threshold, w);
        }
      }
    }

    lemma LayerIsValid()
      requires Valid()
      ensures lengthNodes.Valid() && lengthNodes.config == config && Fed() == lengthNodes.account.fed
    {
    }

    lemma FitsSays(w: string)
      requires lengthNodes.config == config && lengthNodes.Fits(w)
      ensures exists some ::
        lengthNodes.LearnedFrom(w, some) && PartOf(some, Fed()) && TemplateOf(some, w, config.threshold)
      ensures exists l ::
        l in Fed() && Matches(Words(w), Words(l)) && TemplateOf(PeersOf(Fed(), l), w, config.threshold)
      ensures config.threshold < 1.0 && NoWildcards(Fed()) ==> MostlyLiteral(Words(w), config.threshold)
    {
      hide Words, Matches, TemplateOf, LengthLayer.LearnedFrom, NoWildcards, MostlyLiteral, PeersOf;
      var some :| lengthNodes.LearnedHere(w, some);
      var l :| l in lengthNodes.account.fed && lengthNodes.MatchesOfPeers(w, l);
      if NoWildcards(Fed()) {
        LiteralIfPlain(some, w);
      }
    }

    lemma LiteralIfPlain(some: seq<string>, w: string)
      requires TemplateOf(some, w, config.threshold) && NoWildcards(Fed()) && forall l :: l in some ==> l in Fed()
      ensures config.threshold < 1.0 ==> MostlyLiteral(Words(w), config.threshold)
    {
      hide Words, Matches, MostlyLiteral, KeepsAgreed;
    }
  }

  /** The loop of the command line tool: feed all lines, split, write. Every line is
      matched, word by word, by a template that is written, and what is written is, template
      by template, the output of the lines it was learned from, corrected where these show
      bijections. Every template that is written matches a line, keeps the words shared by
      all lines with as many words and the same route as that one and, without wildcards in
      these, has more than its share of literal words. */
  method TemplateLog(lines: seq<string>, threshold: real, storeParams: bool)
    returns (written: seq<string>, ghost order: seq<Group>)
    requires AllAdmitted(lines, threshold)
    ensures GroupsOfLines(order, NonEmpty(lines))
    ensures multiset(written) == OutputOfGroups(order, NonEmpty(lines), threshold)
    ensures NoWildcards(lines) ==> forall w :: w in written ==> WrittenForLines(order, NonEmpty(lines), threshold, w)
    ensures Covered(written, NonEmpty(lines))
    ensures forall w :: w in written ==> exists l ::
      l in NonEmpty(lines) && Matches(Words(w), Words(l)) && TemplateOf(PeersOf(NonEmpty(lines), l), w, threshold)
    ensures threshold < 1.0 && NoWildcards(lines) ==> forall w :: w in written ==> MostlyLiteral(Words(w), threshold)
  {
    hide *;
    var templater := new OnlineTemplater(threshold, storeParams);
    FeedAll(templater, lines);
    NonEmptyIsPart(lines);
    NoWildcardsLeft(lines, NonEmpty(lines));
    templater.SplitTempls();
    written, order := templater.SaveTempls();
  }

  method FeedAll(templater: OnlineTemplater, lines: seq<string>)
    requires templater.Valid() && templater.Fed() == [] && AllAdmitted(lines, templater.config.threshold)
    modifies templater.Repr
    ensures templater.Valid() && fresh(templater.Repr - old(templater.Repr)) && templater.Fed() == NonEmpty(lines)
  {
    hide OnlineTemplater.Valid, AdmitsNext;
    var i := 0;
    while i < |lines|
      invariant i <= |lines| && templater.Valid() && fresh(templater.Repr - old(templater.Repr))
      invariant templater.Fed() == NonEmpty(lines[..i])
    {
      assert lines[..i + 1][..i] == lines[..i];
      templater.Feed(lines[i]);
      i := i + 1;
    }
    assert lines[..i] == lines;
  }

  lemma NoWildcardsLeft(lines: seq<string>, some: seq<string>)
    requires forall l :: l in some ==> l in lines
    ensures NoWildcards(lines) ==> NoWildcards(some)
  {
    hide Words;
  }
}

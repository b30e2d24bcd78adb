/**
 Bookkeeping for objects that keep parts in a map: which lines each part was fed,
 and that the footprints of the parts do not overlap.
*/
module Accounts {

  /** The footprints of the parts of an object do not overlap. */
  ghost predicate Separate<K(!new)>(reprs: map<K, set<object>>, owner: object, all: set<object>) {
    && owner in all
    && (forall k :: k in reprs ==> reprs[k] <= all && owner !in reprs[k])
    && (forall k, q :: k in reprs && q in reprs && k != q ==> reprs[k] !! reprs[q])
  }

  lemma SeparateGrows<K(!new)>(reprs: map<K, set<object>>, owner: object, all: set<object>, k: K, more: set<object>)
    requires Separate(reprs, owner, all)
    requires more * all <= if k in reprs then reprs[k] else {}
    ensures Separate(reprs[k := more], owner, all + more)
  {
    var reprs', mine := reprs[k := more], if k in reprs then reprs[k] else {};
    assert owner !in more by {
      assert owner in more ==> owner in more * all;
    }
    forall q | q in reprs && q != k ensures more !! reprs[q] {
      Apart(more, all, mine, reprs[q]);
    }
    forall p, q | p in reprs' && q in reprs' && p != q ensures reprs'[p] !! reprs'[q] {
    }
  }

  /** What shares nothing new with a part shares nothing with the other parts. */
  lemma Apart(more: set<object>, all: set<object>, mine: set<object>, other: set<object>)
    requires more * all <= mine && other <= all && mine !! other
    ensures more !! other
  {
    assert more * other <= more * all;
    assert more * other <= mine * other;
  }

  // ------------------------------------------------------------------- lines by a key

  /** The lines with this key, in order. */
  ghost function Select<K>(lines: seq<string>, key: string -> K, k: K): seq<string> {
    if lines == [] then []
    else
      Select(lines[..|lines| - 1], key, k) + if key(lines[|lines| - 1]) == k then [lines[|lines| - 1]] else []
  }

  lemma SelectMore<K>(lines: seq<string>, line: string, key: string -> K, k: K)
    ensures Select(lines + [line], key, k) == Select(lines, key, k) + if key(line) == k then [line] else []
  {
    assert (lines + [line])[..|lines|] == lines;
  }

  lemma {:induction false} InSelect<K>(lines: seq<string>, key: string -> K, k: K, l: string)
    ensures l in Select(lines, key, k) <==> l in lines && key(l) == k
  {
    if lines != [] {
      InSelect(lines[..|lines| - 1], key, k, l);
      assert lines == lines[..|lines| - 1] + [lines[|lines| - 1]];
    }
  }

  /** The keys in some order, each once. */
  ghost predicate EachOnce<K(!new)>(order: seq<K>, keys: set<K>) {
    && (forall i, j :: 0 <= i < j < |order| ==> order[i] != order[j])
    && (forall k :: k in order <==> k in keys)
  }

  lemma OneMoreOrdered<K(!new)>(order: seq<K>, keys: set<K>, k: K)
    requires EachOnce(order, keys) && k !in keys
    ensures EachOnce(order + [k], keys + {k})
  {
    assert forall q :: q in order + [k] <==> q in order || q == k;
  }

  lemma OrderSays<K(!new)>(order: seq<K>, keys: set<K>)
    requires EachOnce(order, keys)
    ensures forall k :: k in order <==> k in keys
  {
  }

  /** Every part was fed the lines with its key, in order, and every line has a part. */
  ghost predicate Partition<K(!new)>(feds: map<K, seq<string>>, fed: seq<string>, key: string -> K) {
    && (forall k :: k in feds ==> feds[k] == Select(fed, key, k))
    && (forall l :: l in fed ==> key(l) in feds)
    && (forall k :: k in feds ==> feds[k] != [])
  }

  ghost function FedOf<K>(feds: map<K, seq<string>>, k: K): seq<string> {
    if k in feds then feds[k] else []
  }

  lemma {:induction false} NothingSelected<K(!new)>(lines: seq<string>, key: string -> K, k: K)
    requires forall l :: l in lines ==> key(l) != k
    ensures Select(lines, key, k) == []
  {
    if lines != [] {
      NothingSelected(lines[..|lines| - 1], key, k);
      assert lines[|lines| - 1] in lines;
    }
  }

  lemma FedOfIsSelect<K(!new)>(feds: map<K, seq<string>>, fed: seq<string>, key: string -> K, k: K)
    requires Partition(feds, fed, key)
    ensures FedOf(feds, k) == Select(fed, key, k)
  {
    hide Select;
    if k !in feds {
      NothingSelected(fed, key, k);
    }
  }

  lemma PartitionGrows<K(!new)>(feds: map<K, seq<string>>, fed: seq<string>, key: string -> K, k: K, line: string)
    requires Partition(feds, fed, key) && key(line) == k
    ensures Partition(feds[k := FedOf(feds, k) + [line]], fed + [line], key)
  {
    hide Select, FedOf;
    var feds' := feds[k := FedOf(feds, k) + [line]];
    FedOfIsSelect(feds, fed, key, k);
    forall q | q in feds' ensures feds'[q] == Select(fed + [line], key, q) {
      SelectMore(fed, line, key, q);
    }
  }

  /** What a keyed layer accounts for: the lines it was fed, the lines each part was
      fed, and the footprints of the parts. */
  datatype Account<K> = Account(fed: seq<string>, feds: map<K, seq<string>>, reprs: map<K, set<object>>)

  ghost predicate Balanced<K(!new)>(a: Account<K>, key: string -> K, keys: set<K>, owner: object, all: set<object>) {
    && keys == a.feds.Keys == a.reprs.Keys
    && Separate(a.reprs, owner, all)
    && Partition(a.feds, a.fed, key)
  }

  /** The account after part `k` was fed a line and has footprint `more`. */
  ghost function Fed<K>(a: Account<K>, k: K, line: string, more: set<object>): Account<K> {
    Account(a.fed + [line], a.feds[k := FedOf(a.feds, k) + [line]], a.reprs[k := more])
  }

  lemma BalancedMore<K(!new)>(a: Account<K>, key: string -> K, keys: set<K>, owner: object, all: set<object>,
                              k: K, line: string, more: set<object>)
    requires Balanced(a, key, keys, owner, all) && key(line) == k
    requires more * all <= if k in keys then a.reprs[k] else {}
    ensures var b := Fed(a, k, line, more);
      && Balanced(b, key, keys + {k}, owner, all + more)
      && b.fed == a.fed + [line] && b.feds[k] == FedOf(a.feds, k) + [line] && b.reprs[k] == more
      && forall q :: q in keys && q != k ==> b.feds[q] == a.feds[q] && b.reprs[q] == a.reprs[q]
  {
    hide Select;
    SeparateGrows(a.reprs, owner, all, k, more);
    PartitionGrows(a.feds, a.fed, key, k, line);
  }

  /** The same lines, with a changed footprint of part `k`. */
  lemma BalancedRefit<K(!new)>(a: Account<K>, key: string -> K, keys: set<K>, owner: object, all: set<object>,
                               k: K, more: set<object>)
    requires Balanced(a, key, keys, owner, all) && k in keys && more * all <= a.reprs[k]
    ensures Balanced(Account(a.fed, a.feds, a.reprs[k := more]), key, keys, owner, all + more)
  {
    hide Select;
    SeparateGrows(a.reprs, owner, all, k, more);
  }

  lemma BalancedSays<K(!new)>(a: Account<K>, key: string -> K, keys: set<K>, owner: object, all: set<object>)
    requires Balanced(a, key, keys, owner, all)
    ensures keys == a.feds.Keys == a.reprs.Keys && owner in all
    ensures forall q :: q in keys ==> a.reprs[q] <= all && owner !in a.reprs[q]
    ensures forall q, k :: q in keys && k in keys && q != k ==> a.reprs[q] !! a.reprs[k]
  {
    hide Select;
  }

  /** Where a line went, and what a part was fed. */
  lemma BalancedLines<K(!new)>(a: Account<K>, key: string -> K, keys: set<K>, owner: object, all: set<object>)
    requires Balanced(a, key, keys, owner, all)
    ensures keys == a.feds.Keys
    ensures forall l :: l in a.fed ==> key(l) in a.feds && l in a.feds[key(l)]
    ensures forall k, l :: k in a.feds && l in a.feds[k] ==> l in a.fed && key(l) == k
    ensures forall k :: FedOf(a.feds, k) == Select(a.fed, key, k)
    ensures forall k :: k in keys <==> exists l :: l in a.fed && key(l) == k
  {
    hide Select, FedOf;
    forall k, l | k in a.feds ensures l in a.feds[k] <==> l in a.fed && key(l) == k {
      InSelect(a.fed, key, k, l);
    }
    forall k ensures FedOf(a.feds, k) == Select(a.fed, key, k) {
      FedOfIsSelect(a.feds, a.fed, key, k);
    }
    forall k | k in keys ensures exists l :: l in a.fed && key(l) == k {
      var l := a.feds[k][0];
      assert l in a.feds[k];
      InSelect(a.fed, key, k, l);
    }
  }

  lemma NothingBalanced<K(!new)>(key: string -> K, owner: object)
    ensures Balanced(Account([], map[], map[]), key, {}, owner, {owner})
  {
  }
}

/**
 Clusters as the connected components of an edge relation, found by batches of
 breadth-first searches whose repeated results are dropped
 (flt/clustering/agglomerative.hpp).
*/
module Agglomerative {

  type Edge<!T> = (T, T) -> bool

  // ------------------------------------------------------------------- reachability

  /** A walk along edges within `nodes`. */
  ghost predicate IsPath<T(!new)>(nodes: set<T>, edge: Edge<T>, path: seq<T>, x: T, y: T) {
    && path != [] && path[0] == x && path[|path| - 1] == y
    && (forall i :: 0 <= i < |path| ==> path[i] in nodes)
    && (forall i :: 0 < i < |path| ==> edge(path[i - 1], path[i]))
  }

  ghost predicate Reaches<T(!new)>(nodes: set<T>, edge: Edge<T>, x: T, y: T) {
    exists path :: IsPath(nodes, edge, path, x, y)
  }

  /** All nodes that `x` reaches. */
  ghost function Component<T(!new)>(nodes: set<T>, edge: Edge<T>, x: T): set<T> {
    set y | y in nodes && Reaches(nodes, edge, x, y)
  }

  ghost function Components<T(!new)>(nodes: set<T>, edge: Edge<T>): set<set<T>> {
    set x | x in nodes :: Component(nodes, edge, x)
  }

  ghost predicate SymmetricOn<T(!new)>(nodes: set<T>, edge: Edge<T>) {
    forall x, y :: x in nodes && y in nodes ==> edge(x, y) == edge(y, x)
  }

  /** No edge leads out of `s`. */
  ghost predicate Closed<T(!new)>(nodes: set<T>, edge: Edge<T>, s: set<T>) {
    forall x, y :: x in s && y in nodes && edge(x, y) ==> y in s
  }

  lemma ReachesItself<T(!new)>(nodes: set<T>, edge: Edge<T>, x: T)
    requires x in nodes
    ensures x in Component(nodes, edge, x)
  {
    assert IsPath(nodes, edge, [x], x, x);
  }

  lemma ReachesFurther<T(!new)>(nodes: set<T>, edge: Edge<T>, x: T, y: T, z: T)
    requires y in Component(nodes, edge, x) && z in nodes && edge(y, z)
    ensures z in Component(nodes, edge, x)
  {
    var path :| IsPath(nodes, edge, path, x, y);
    assert IsPath(nodes, edge, path + [z], x, z);
  }

  lemma ComponentIsClosed<T(!new)>(nodes: set<T>, edge: Edge<T>, x: T)
    ensures Closed(nodes, edge, Component(nodes, edge, x))
  {
    forall y, z | y in Component(nodes, edge, x) && z in nodes && edge(y, z) ensures z in Component(nodes, edge, x) {
      ReachesFurther(nodes, edge, x, y, z);
    }
  }

  lemma {:induction false} PathStaysInside<T(!new)>(nodes: set<T>, edge: Edge<T>, s: set<T>, path: seq<T>, x: T, y: T)
    requires Closed(nodes, edge, s) && x in s && IsPath(nodes, edge, path, x, y)
    ensures y in s
    decreases |path|
  {
    if |path| > 1 {
      var shorter := path[..|path| - 1];
      assert IsPath(nodes, edge, shorter, x, shorter[|shorter| - 1]);
      PathStaysInside(nodes, edge, s, shorter, x, shorter[|shorter| - 1]);
    }
  }

  /** A component is the smallest set without an edge leading out. */
  lemma ComponentIsLeast<T(!new)>(nodes: set<T>, edge: Edge<T>, s: set<T>, x: T)
    requires Closed(nodes, edge, s) && x in s
    ensures Component(nodes, edge, x) <= s
  {
    forall y | y in Component(nodes, edge, x) ensures y in s {
      var path :| IsPath(nodes, edge, path, x, y);
      PathStaysInside(nodes, edge, s, path, x, y);
    }
  }

  /** The complement of a component is closed as well. */
  lemma NothingLeadsIn<T(!new)>(nodes: set<T>, edge: Edge<T>, x: T)
    requires SymmetricOn(nodes, edge)
    ensures Closed(nodes, edge, nodes - Component(nodes, edge, x))
  {
    ComponentIsClosed(nodes, edge, x);
    hide Component;
    var c := Component(nodes, edge, x);
    forall y, z | y in nodes - c && z in nodes && edge(y, z) ensures z in nodes - c {
      assert edge(y, z) == edge(z, y);
    }
  }

  /** Whoever is reached reaches back. */
  ghost predicate Mutual<T(!new)>(nodes: set<T>, edge: Edge<T>) {
    forall x, y :: x in nodes && y in Component(nodes, edge, x) ==> x in Component(nodes, edge, y)
  }

  /** Symmetric edges are enough for that. */
  lemma SymmetricIsMutual<T(!new)>(nodes: set<T>, edge: Edge<T>)
    requires SymmetricOn(nodes, edge)
    ensures Mutual(nodes, edge)
  {
    forall x, y | x in nodes && y in Component(nodes, edge, x) ensures x in Component(nodes, edge, y) {
      NothingLeadsIn(nodes, edge, y);
      ReachesItself(nodes, edge, y);
      if x !in Component(nodes, edge, y) {
        ComponentIsLeast(nodes, edge, nodes - Component(nodes, edge, y), x);
      }
    }
  }

  /** Nodes of one component have the same component. */
  lemma SameComponent<T(!new)>(nodes: set<T>, edge: Edge<T>, x: T, y: T)
    requires Mutual(nodes, edge) && x in nodes && y in Component(nodes, edge, x)
    ensures Component(nodes, edge, y) == Component(nodes, edge, x)
  {
    ComponentIsClosed(nodes, edge, x);
    ComponentIsClosed(nodes, edge, y);
    ComponentIsLeast(nodes, edge, Component(nodes, edge, x), y);
    ComponentIsLeast(nodes, edge, Component(nodes, edge, y), x);
  }

  /** Components that are not the same have no node in common. */
  lemma DistinctComponents<T(!new)>(nodes: set<T>, edge: Edge<T>, x: T, y: T)
    requires Mutual(nodes, edge) && x in nodes && y in nodes
    ensures y in Component(nodes, edge, x) || Component(nodes, edge, x) !! Component(nodes, edge, y)
  {
    forall z | z in Component(nodes, edge, x) && z in Component(nodes, edge, y) ensures y in Component(nodes, edge, x) {
      SameComponent(nodes, edge, x, z);
      SameComponent(nodes, edge, y, z);
      ReachesItself(nodes, edge, y);
    }
  }

  /** The output lists every component, once. */
  ghost predicate IsClustering<T(!new)>(nodes: set<T>, edge: Edge<T>, output: seq<set<T>>) {
    && (forall c :: c in output <==> c in Components(nodes, edge))
    && (forall i, j :: 0 <= i < j < |output| ==> output[i] !! output[j])
  }

  lemma {:induction false} ListComponents<T(!new)>(nodes: set<T>, edge: Edge<T>, cs: set<set<T>>)
    returns (list: seq<set<T>>)
    requires Mutual(nodes, edge) && cs <= Components(nodes, edge)
    ensures forall c :: c in list <==> c in cs
    ensures forall i, j :: 0 <= i < j < |list| ==> list[i] !! list[j]
    decreases cs
  {
    if cs == {} {
      list := [];
    } else {
      var c :| c in cs;
      var rest := ListComponents(nodes, edge, cs - {c});
      list := rest + [c];
      forall i, j | 0 <= i < j < |list| ensures list[i] !! list[j] {
        assert list[i] == rest[i] && rest[i] in rest;
        if j == |rest| {
          TwoComponents(nodes, edge, rest[i], c);
        }
      }
    }
  }

  lemma TwoComponents<T(!new)>(nodes: set<T>, edge: Edge<T>, c: set<T>, d: set<T>)
    requires Mutual(nodes, edge) && c in Components(nodes, edge) && d in Components(nodes, edge)
    ensures c == d || c !! d
  {
    hide Component;
    var x :| x in nodes && c == Component(nodes, edge, x);
    var y :| y in nodes && d == Component(nodes, edge, y);
    DistinctComponents(nodes, edge, x, y);
    if y in c {
      SameComponent(nodes, edge, x, y);
    }
  }

  /** What the clustering promises can be had at all exactly if whoever is reached reaches
      back: otherwise two components differ and yet have nodes in common. */
  lemma ClusteringExistsIffMutual<T(!new)>(nodes: set<T>, edge: Edge<T>)
    ensures (exists output :: IsClustering(nodes, edge, output)) <==> Mutual(nodes, edge)
  {
    hide Component;
    if Mutual(nodes, edge) {
      var output := ListComponents(nodes, edge, Components(nodes, edge));
      assert IsClustering(nodes, edge, output);
    }
    if output :| IsClustering(nodes, edge, output) {
      forall x, y | x in nodes && y in Component(nodes, edge, x) ensures x in Component(nodes, edge, y) {
        ReachesItself(nodes, edge, x);
        InNodes(nodes, edge, x, y);
        ReachesItself(nodes, edge, y);
        assert Component(nodes, edge, x) in Components(nodes, edge);
        assert Component(nodes, edge, y) in Components(nodes, edge);
        assert Component(nodes, edge, x) in output && Component(nodes, edge, y) in output;
        var i :| 0 <= i < |output| && output[i] == Component(nodes, edge, x);
        var j :| 0 <= j < |output| && output[j] == Component(nodes, edge, y);
        assert i == j;
      }
    }
  }

  lemma InNodes<T(!new)>(nodes: set<T>, edge: Edge<T>, x: T, y: T)
    requires y in Component(nodes, edge, x)
    ensures y in nodes
  {
  }

  // ------------------------------------------------------------ breadth-first search

  /** The nodes the search has found; those in the queue, and `front` with respect to
      `rest`, may still lead on. */
  ghost predicate Searched<T(!new)>(nodes: set<T>, edge: Edge<T>, first: T, found: set<T>, queue: seq<T>) {
    && first in found && found <= Component(nodes, edge, first)
    && (forall x :: x in queue ==> x in found)
    && (forall x, y :: x in found && x !in queue && y in nodes && edge(x, y) ==> y in found)
  }

  ghost predicate Searching<T(!new)>(nodes: set<T>, edge: Edge<T>, first: T, found: set<T>, queue: seq<T>,
      front: T, rest: set<T>) {
    && first in found && found <= Component(nodes, edge, first) && front in found
    && (forall x :: x in queue ==> x in found)
    && (forall x, y :: x in found && x !in queue && x != front && y in nodes && edge(x, y) ==> y in found)
    && (forall y :: y in nodes && y !in rest && edge(front, y) ==> y in found)
  }

  lemma FrontTaken<T(!new)>(nodes: set<T>, edge: Edge<T>, first: T, found: set<T>, queue: seq<T>)
    requires queue != [] && Searched(nodes, edge, first, found, queue)
    ensures Searching(nodes, edge, first, found, queue[1..], queue[0], nodes - {first})
    ensures first in nodes ==> Searching(nodes, edge, first, found, queue[1..], queue[0], nodes)
  {
    forall x | x in queue[1..] ensures x in found {
      assert x in queue;
    }
    forall x | x in queue && x != queue[0] ensures x in queue[1..] {
      var i :| 0 <= i < |queue| && queue[i] == x;
      assert queue[1..][i - 1] == x;
    }
  }

  lemma NodeFound<T(!new)>(nodes: set<T>, edge: Edge<T>, first: T, found: set<T>, queue: seq<T>, front: T,
      rest: set<T>, node: T)
    requires Searching(nodes, edge, first, found, queue, front, rest) && node in nodes && node !in found
    requires edge(front, node)
    ensures Searching(nodes, edge, first, found + {node}, queue + [node], front, rest - {node})
  {
    ReachesFurther(nodes, edge, first, front, node);
    hide Component;
    forall x, y | x in found + {node} && x !in queue + [node] && x != front && y in nodes && edge(x, y)
      ensures y in found + {node}
    {
      assert (queue + [node])[|queue|] == node;
    }
  }

  lemma SearchComplete<T(!new)>(nodes: set<T>, edge: Edge<T>, first: T, found: set<T>)
    requires Searched(nodes, edge, first, found, [])
    ensures found == Component(nodes, edge, first)
  {
    ComponentIsLeast(nodes, edge, found, first);
  }

  /** The search finds exactly what the first node reaches, in whatever order it runs
      through the nodes; the first node need not be one of them. */
  method Bfs<T(!new, ==)>(first: T, nodes: set<T>, edge: Edge<T>) returns (connected: set<T>)
    ensures connected == Component(nodes + {first}, edge, first)
  {
    hide Component, Searched, Searching;
    ghost var all := nodes + {first};
    connected := {first};
    var queue := [first];
    SearchStarts(all, edge, first);
    while queue != []
      invariant Searched(all, edge, first, connected, queue) && connected <= all
      decreases |all - connected|, |queue|
    {
      FrontTaken(all, edge, first, connected, queue);
      assert first !in nodes ==> all - {first} == nodes;
      assert first in nodes ==> all == nodes;
      var front := queue[0];
      queue := queue[1..];
      var rest := nodes;
      ghost var before := connected;
      ghost var length := |queue|;
      while rest != {}
        invariant rest <= nodes && connected <= all
        invariant Searching(all, edge, first, connected, queue, front, rest)
        invariant before <= connected && (before == connected ==> |queue| == length)
        decreases |rest|
      {
        var node :| node in rest;
        if node !in connected && edge(front, node) {
          NodeFound(all, edge, first, connected, queue, front, rest, node);
          connected := connected + {node};
          queue := queue + [node];
        } else {
          NodePassed(all, edge, first, connected, queue, front, rest, node);
        }
        rest := rest - {node};
      }
      FrontDone(all, edge, first, connected, queue, front);
      FewerLeft(all, before, connected);
    }
    SearchComplete(all, edge, first, connected);
  }

  lemma SearchStarts<T(!new)>(nodes: set<T>, edge: Edge<T>, first: T)
    requires first in nodes
    ensures Searched(nodes, edge, first, {first}, [first])
  {
    ReachesItself(nodes, edge, first);
    assert [first][0] == first;
  }

  lemma NodePassed<T(!new)>(nodes: set<T>, edge: Edge<T>, first: T, found: set<T>, queue: seq<T>, front: T,
      rest: set<T>, node: T)
    requires Searching(nodes, edge, first, found, queue, front, rest) && (node in found || !edge(front, node))
    ensures Searching(nodes, edge, first, found, queue, front, rest - {node})
  {
  }

  lemma FrontDone<T(!new)>(nodes: set<T>, edge: Edge<T>, first: T, found: set<T>, queue: seq<T>, front: T)
    requires Searching(nodes, edge, first, found, queue, front, {})
    ensures Searched(nodes, edge, first, found, queue)
  {
  }

  lemma FewerLeft<T>(nodes: set<T>, before: set<T>, after: set<T>)
    requires before <= after <= nodes
    ensures before != after ==> |nodes - after| < |nodes - before|
  {
    if before != after {
      assert nodes - after < nodes - before;
      SmallerSet(nodes - after, nodes - before);
    }
  }

  lemma {:induction false} SmallerSet<T>(s: set<T>, t: set<T>)
    requires s < t
    ensures |s| < |t|
    decreases s
  {
    if s == {} {
    } else {
      var x :| x in s;
      SmallerSet(s - {x}, t - {x});
    }
  }

  // --------------------------------------------------------------------- clustering

  /** What remains of the nodes holds each component wholly or not at all. */
  ghost predicate Whole<T(!new)>(nodes: set<T>, edge: Edge<T>, remaining: set<T>) {
    && remaining <= nodes
    && forall x :: x in remaining ==> Component(nodes, edge, x) <= remaining
  }

  /** Searching only the remaining nodes finds the same components. */
  lemma RemainingComponent<T(!new)>(nodes: set<T>, edge: Edge<T>, remaining: set<T>, x: T)
    requires Whole(nodes, edge, remaining) && x in remaining
    ensures Component(remaining, edge, x) == Component(nodes, edge, x)
  {
    ComponentIsClosed(nodes, edge, x);
    ComponentIsClosed(remaining, edge, x);
    ReachesItself(nodes, edge, x);
    ReachesItself(remaining, edge, x);
    ComponentIsLeast(remaining, edge, Component(nodes, edge, x), x);
    var c := Component(remaining, edge, x);
    forall y, z | y in c && z in nodes && edge(y, z) ensures z in c {
      ReachesItself(nodes, edge, y);
      ReachesFurther(nodes, edge, y, y, z);
      assert Component(nodes, edge, y) <= remaining;
    }
    ComponentIsLeast(nodes, edge, c, x);
  }

  /** Some remaining node of a component: all of it remains, and the rest stays whole
      without it; if one node is gone, all are. */
  lemma WholeOrGone<T(!new)>(nodes: set<T>, edge: Edge<T>, remaining: set<T>, x: T, sample: T)
    requires Mutual(nodes, edge) && Whole(nodes, edge, remaining) && x in nodes && sample in Component(nodes, edge, x)
    ensures sample in remaining ==>
      Component(nodes, edge, x) <= remaining && Whole(nodes, edge, remaining - Component(nodes, edge, x))
    ensures sample !in remaining ==> Component(nodes, edge, x) !! remaining
  {
    var c := Component(nodes, edge, x);
    SameComponent(nodes, edge, x, sample);
    forall y | y in remaining && y in c ensures c <= remaining {
      SameComponent(nodes, edge, x, y);
    }
    forall y | y in remaining - c ensures Component(nodes, edge, y) <= remaining - c {
      DistinctComponents(nodes, edge, x, y);
    }
  }

  /** The clusters written so far: the components of the nodes that no longer remain,
      each once. */
  ghost predicate Clustered<T(!new)>(nodes: set<T>, edge: Edge<T>, output: seq<set<T>>, remaining: set<T>) {
    && Whole(nodes, edge, remaining)
    && (forall i, j :: 0 <= i < j < |output| ==> output[i] !! output[j])
    && (forall c :: c in output ==> c in Components(nodes, edge) && c !! remaining)
    && (forall x :: x in nodes - remaining ==> Component(nodes, edge, x) in output)
  }

  lemma ClusterWritten<T(!new)>(nodes: set<T>, edge: Edge<T>, output: seq<set<T>>, remaining: set<T>, x: T)
    requires Mutual(nodes, edge) && Clustered(nodes, edge, output, remaining)
    requires x in nodes && Component(nodes, edge, x) <= remaining
    requires Whole(nodes, edge, remaining - Component(nodes, edge, x))
    ensures Clustered(nodes, edge, output + [Component(nodes, edge, x)], remaining - Component(nodes, edge, x))
  {
    var c := Component(nodes, edge, x);
    var more := output + [c];
    assert more[|output|] == c;
    forall y | y in nodes - (remaining - c) ensures Component(nodes, edge, y) in more {
      if y in c {
        SameComponent(nodes, edge, x, y);
      }
    }
    forall i, j | 0 <= i < j < |more| ensures more[i] !! more[j] {
      assert more[i] == output[i] && output[i] in output;
      if j < |output| { assert more[j] == output[j]; }
    }
  }

  /** Starts a search at as many remaining nodes as there are threads. */
  method SearchBatch<T(!new, ==)>(remaining: set<T>, edge: Edge<T>, maxThreads: nat)
    returns (batch: seq<set<T>>, ghost picked: seq<T>)
    requires remaining != {} && maxThreads >= 1
    ensures 0 < |batch| == |picked| <= maxThreads
    ensures forall c :: c in batch ==> c in Components(remaining, edge)
    ensures forall i :: 0 <= i < |batch| ==> picked[i] in remaining && batch[i] == Component(remaining, edge, picked[i])
  {
    hide Component;
    batch, picked := [], [];
    var unvisited := remaining;
    var i := 0;
    while i < maxThreads && unvisited != {}
      invariant i == |batch| == |picked| <= maxThreads && unvisited <= remaining && (i == 0 ==> unvisited == remaining)
      invariant forall k :: 0 <= k < |batch| ==>
        picked[k] in remaining && batch[k] == Component(remaining, edge, picked[k])
      decreases maxThreads - i
    {
      var node :| node in unvisited;
      unvisited := unvisited - {node};
      var cluster := Bfs(node, remaining, edge);
      assert remaining + {node} == remaining;
      batch, picked := batch + [cluster], picked + [node];
      i := i + 1;
    }
  }

  /** Removes a cluster node by node; each is there to be removed. */
  method Erase<T(==)>(remaining: set<T>, cluster: set<T>) returns (left: set<T>)
    requires cluster <= remaining
    ensures left == remaining - cluster
  {
    left := remaining;
    var rest := cluster;
    while rest != {}
      invariant rest <= cluster && left == remaining - (cluster - rest)
      decreases |rest|
    {
      var node :| node in rest;
      assert node in left;
      left := left - {node};
      rest := rest - {node};
    }
  }

  /** Whatever the number of threads and whatever nodes the searches start from, the
      output lists every connected component once. The edges need not be symmetric, as
      long as whoever is reached reaches back. */
  method AgglomerativeClustering<T(!new, ==)>(nodes: set<T>, edge: Edge<T>, hardwareConcurrency: nat)
    returns (output: seq<set<T>>)
    requires Mutual(nodes, edge)
    ensures IsClustering(nodes, edge, output)
    ensures forall x :: x in nodes ==> exists c :: c in output && x in c
  {
    hide Component, Components, Mutual, Whole, Clustered, IsClustering;
    var maxThreads := if hardwareConcurrency < 1 then 1 else hardwareConcurrency;
    output := [];
    var remaining := nodes;
    NothingClustered(nodes, edge);
    while remaining != {}
      invariant Clustered(nodes, edge, output, remaining)
      decreases |remaining|
    {
      var batch, picked := SearchBatch(remaining, edge, maxThreads);
      ghost var before := remaining;
      BatchOfComponents(nodes, edge, output, before, batch, picked);
      var i := 0;
      while i < |batch|
        invariant i <= |batch| && remaining <= before && (i > 0 ==> remaining != before)
        invariant Clustered(nodes, edge, output, remaining)
      {
        ClusteredIsWhole(nodes, edge, output, remaining);
        assert picked[i] in batch[i];
        var sample :| sample in batch[i];
        WholeOrGone(nodes, edge, remaining, picked[i], sample);
        if sample in remaining {
          ClusterWritten(nodes, edge, output, remaining, picked[i]);
          remaining := Erase(remaining, batch[i]);
          output := output + [batch[i]];
        } else {
          assert forall node :: node in batch[i] ==> node !in remaining;
        }
        i := i + 1;
      }
      SmallerSet(remaining, before);
    }
    AllClustered(nodes, edge, output);
  }

  lemma NothingClustered<T(!new)>(nodes: set<T>, edge: Edge<T>)
    ensures Clustered(nodes, edge, [], nodes)
  {
  }

  lemma ClusteredIsWhole<T(!new)>(nodes: set<T>, edge: Edge<T>, output: seq<set<T>>, remaining: set<T>)
    requires Clustered(nodes, edge, output, remaining)
    ensures Whole(nodes, edge, remaining)
  {
  }

  lemma BatchOfComponents<T(!new)>(nodes: set<T>, edge: Edge<T>, output: seq<set<T>>, remaining: set<T>,
      batch: seq<set<T>>, picked: seq<T>)
    requires Clustered(nodes, edge, output, remaining) && |batch| == |picked|
    requires forall i :: 0 <= i < |batch| ==>
      picked[i] in remaining && batch[i] == Component(remaining, edge, picked[i])
    ensures forall i :: 0 <= i < |batch| ==>
      picked[i] in nodes && picked[i] in batch[i] && batch[i] == Component(nodes, edge, picked[i])
  {
    hide Component;
    forall i | 0 <= i < |batch|
      ensures picked[i] in nodes && picked[i] in batch[i] && batch[i] == Component(nodes, edge, picked[i])
    {
      RemainingComponent(nodes, edge, remaining, picked[i]);
      ReachesItself(nodes, edge, picked[i]);
    }
  }

  lemma AllClustered<T(!new)>(nodes: set<T>, edge: Edge<T>, output: seq<set<T>>)
    requires Clustered(nodes, edge, output, {})
    ensures IsClustering(nodes, edge, output)
    ensures forall x :: x in nodes ==> exists c :: c in output && x in c
  {
    hide Component;
    forall x | x in nodes ensures exists c :: c in output && x in c {
      ReachesItself(nodes, edge, x);
      assert Component(nodes, edge, x) in output;
    }
  }
}

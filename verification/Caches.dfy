/**
 Caches for the results of a function, in tables looked up by hash and by a comparison
 of keys (flt/util/cache_adaptors.hpp).
*/
module Caches {
  import opened HashCombine

  datatype Option<T> = None | Some(value: T)

  /** The cached function, the hash of its arguments and when arguments count as equal. */
  datatype Config<!K, R> = Config(f: K -> R, hash: K -> nat, eq: (K, K) -> bool)

  ghost predicate IsEquivalence<K(!new)>(eq: (K, K) -> bool) {
    && (forall k :: eq(k, k))
    && (forall k, l :: eq(k, l) ==> eq(l, k))
    && (forall k, l, m :: eq(k, l) && eq(l, m) ==> eq(k, m))
  }

  ghost predicate HashAgrees<K(!new)>(hash: K -> nat, eq: (K, K) -> bool) {
    forall k, l :: eq(k, l) ==> hash(k) == hash(l)
  }

  /** What the table asks of hash and comparison. */
  ghost predicate Sound<K(!new), R>(cfg: Config<K, R>) {
    IsEquivalence(cfg.eq) && HashAgrees(cfg.hash, cfg.eq)
  }

  /** The function does not tell equal arguments apart. */
  ghost predicate Respects<K(!new), R>(cfg: Config<K, R>) {
    forall k, l :: cfg.eq(k, l) ==> cfg.f(k) == cfg.f(l)
  }

  // -------------------------------------------------------------------- hash buckets

  type Bucket<K, R> = seq<(K, R)>

  type Buckets<K, R> = b: seq<Bucket<K, R>> | b != [] witness [[]]

  function BucketOf<K, R>(cfg: Config<K, R>, buckets: Buckets<K, R>, k: K): (i: nat)
    ensures i < |buckets|
  {
    cfg.hash(k) % |buckets|
  }

  function LookupIn<K, R>(cfg: Config<K, R>, bucket: Bucket<K, R>, k: K): Option<R> {
    if bucket == [] then None
    else if cfg.eq(bucket[0].0, k) then Some(bucket[0].1)
    else LookupIn(cfg, bucket[1..], k)
  }

  /** Only one bucket is searched. */
  function Lookup<K, R>(cfg: Config<K, R>, buckets: Buckets<K, R>, k: K): Option<R> {
    LookupIn(cfg, buckets[BucketOf(cfg, buckets, k)], k)
  }

  function Emplace<K, R>(cfg: Config<K, R>, buckets: Buckets<K, R>, k: K, r: R): (b: Buckets<K, R>)
    ensures |b| == |buckets|
  {
    var i := BucketOf(cfg, buckets, k);
    buckets[i := [(k, r)] + buckets[i]]
  }

  function EmptyBuckets<K, R>(n: nat): Buckets<K, R>
    requires n > 0
  {
    seq(n, i => [])
  }

  lemma LookupEmplaced<K(!new), R>(cfg: Config<K, R>, buckets: Buckets<K, R>, k: K, r: R, l: K)
    requires HashAgrees(cfg.hash, cfg.eq)
    ensures Lookup(cfg, Emplace(cfg, buckets, k, r), l) == if cfg.eq(k, l) then Some(r) else Lookup(cfg, buckets, l)
  {
    var i := BucketOf(cfg, buckets, k);
    assert ([(k, r)] + buckets[i])[1..] == buckets[i];
  }

  /** What is stored under a key is found under all keys equal to it, however many buckets
      there are, exactly if equal keys have equal hashes. */
  lemma BucketsSoundIffHashAgrees<K(!new), R>(cfg: Config<K, R>, r: R)
    ensures HashAgrees(cfg.hash, cfg.eq) <==>
      forall n: nat, k, l :: n > 0 && cfg.eq(k, l) ==> Lookup(cfg, Emplace(cfg, EmptyBuckets(n), k, r), l) == Some(r)
  {
    hide Lookup, Emplace, BucketOf, LookupIn;
    if HashAgrees(cfg.hash, cfg.eq) {
      forall n: nat, k, l | n > 0 && cfg.eq(k, l)
        ensures Lookup(cfg, Emplace(cfg, EmptyBuckets(n), k, r), l) == Some(r)
      {
        LookupEmplaced(cfg, EmptyBuckets(n), k, r, l);
      }
    } else {
      var k, l :| cfg.eq(k, l) && cfg.hash(k) != cfg.hash(l);
      LookupElsewhere(cfg, k, r, l);
    }
  }

  lemma LookupElsewhere<K, R>(cfg: Config<K, R>, k: K, r: R, l: K)
    requires cfg.hash(k) != cfg.hash(l)
    ensures var n := cfg.hash(k) + cfg.hash(l) + 1;
      Lookup(cfg, Emplace(cfg, EmptyBuckets(n), k, r), l) == None
  {
    var n := cfg.hash(k) + cfg.hash(l) + 1;
    EnoughBuckets(cfg, n, k);
    EnoughBuckets(cfg, n, l);
    hide BucketOf;
  }

  lemma EnoughBuckets<K, R>(cfg: Config<K, R>, n: nat, k: K)
    requires cfg.hash(k) < n
    ensures BucketOf(cfg, EmptyBuckets(n), k) == cfg.hash(k)
  {
  }

  // ------------------------------------------------------------------- what is cached

  /** The first of the keys equal to `k`. */
  function FirstEqual<K>(ks: seq<K>, k: K, eq: (K, K) -> bool): (o: Option<K>)
    ensures o.None? <==> forall l :: l in ks ==> !eq(l, k)
    ensures o.Some? ==> o.value in ks && eq(o.value, k)
  {
    if ks == [] then None
    else if eq(ks[0], k) then Some(ks[0])
    else FirstEqual(ks[1..], k, eq)
  }

  /** The calls that find nothing equal before them. */
  function Firsts<K>(history: seq<K>, eq: (K, K) -> bool): seq<K> {
    if history == [] then []
    else
      var last, before := history[|history| - 1], Firsts(history[..|history| - 1], eq);
      if FirstEqual(before, last, eq).Some? then before else before + [last]
  }

  /** The value remembered for `k` after the calls of `history`, or its own. */
  function Answer<K, R>(history: seq<K>, k: K, f: K -> R, eq: (K, K) -> bool): R {
    match FirstEqual(Firsts(history, eq), k, eq)
    case Some(first) => f(first)
    case None => f(k)
  }

  /** The answers to a run of calls: every call gets the value of the first call equal to
      it. */
  function Answers<K, R>(history: seq<K>, f: K -> R, eq: (K, K) -> bool): (rs: seq<R>)
    ensures |rs| == |history|
  {
    if history == [] then []
    else
      var n := |history| - 1;
      Answers(history[..n], f, eq) + [Answer(history[..n], history[n], f, eq)]
  }

  lemma AnswersStep<K, R>(history: seq<K>, k: K, f: K -> R, eq: (K, K) -> bool)
    ensures Answers(history + [k], f, eq) == Answers(history, f, eq) + [Answer(history, k, f, eq)]
    ensures Firsts(history + [k], eq) ==
      if FirstEqual(Firsts(history, eq), k, eq).Some? then Firsts(history, eq) else Firsts(history, eq) + [k]
  {
    assert (history + [k])[..|history|] == history;
  }

  /** No two of the keys evaluated are equal. */
  lemma {:induction false} FirstsDiffer<K(!new)>(history: seq<K>, eq: (K, K) -> bool)
    requires IsEquivalence(eq)
    ensures forall i, j :: 0 <= i < j < |Firsts(history, eq)| ==> !eq(Firsts(history, eq)[i], Firsts(history, eq)[j])
  {
    if history != [] {
      FirstsDiffer(history[..|history| - 1], eq);
    }
  }

  lemma {:induction false} AnswerAt<K, R>(history: seq<K>, f: K -> R, eq: (K, K) -> bool, i: nat)
    requires i < |history|
    ensures Answers(history, f, eq)[i] == Answer(history[..i], history[i], f, eq)
  {
    var n := |history| - 1;
    if i < n {
      AnswerAt(history[..n], f, eq, i);
      assert history[..n][..i] == history[..i];
    }
  }

  ghost predicate AnswersAreExact<K(!new), R>(history: seq<K>, f: K -> R, eq: (K, K) -> bool) {
    forall i :: 0 <= i < |history| ==> Answers(history, f, eq)[i] == f(history[i])
  }

  /** Every run of calls gets the results of the function itself exactly if the function
      does not tell equal arguments apart. */
  lemma ExactIffRespects<K(!new), R>(cfg: Config<K, R>)
    requires IsEquivalence(cfg.eq)
    ensures Respects(cfg) <==> forall history :: AnswersAreExact(history, cfg.f, cfg.eq)
  {
    if Respects(cfg) {
      forall history ensures AnswersAreExact(history, cfg.f, cfg.eq) {
        RespectedAnswers(cfg, history);
      }
    } else {
      var k, l :| cfg.eq(k, l) && cfg.f(k) != cfg.f(l);
      SecondAnswer(cfg, k, l);
      assert !AnswersAreExact([k] + [l], cfg.f, cfg.eq);
    }
  }

  lemma RespectedAnswers<K(!new), R>(cfg: Config<K, R>, history: seq<K>)
    requires Respects(cfg)
    ensures AnswersAreExact(history, cfg.f, cfg.eq)
  {
    hide Firsts, Answers;
    forall i | 0 <= i < |history| ensures Answers(history, cfg.f, cfg.eq)[i] == cfg.f(history[i]) {
      AnswerAt(history, cfg.f, cfg.eq, i);
    }
  }

  /** The second of two equal calls gets the result of the first. */
  lemma SecondAnswer<K, R>(cfg: Config<K, R>, k: K, l: K)
    requires cfg.eq(k, l)
    ensures Answers([k] + [l], cfg.f, cfg.eq)[1] == cfg.f(k)
  {
    AnswersStep([], k, cfg.f, cfg.eq);
    AnswersStep([k], l, cfg.f, cfg.eq);
    assert [] + [k] == [k];
    assert FirstEqual([k], l, cfg.eq) == Some(k);
  }

  // ------------------------------------------------------------------ table and calls

  /** The table holds the results of the calls evaluated, and nothing else is found. */
  ghost predicate Holds<K(!new), R>(cfg: Config<K, R>, buckets: Buckets<K, R>, evaluated: seq<K>) {
    forall k :: Lookup(cfg, buckets, k) == Stored(cfg, evaluated, k)
  }

  function Stored<K, R>(cfg: Config<K, R>, evaluated: seq<K>, k: K): Option<R> {
    match FirstEqual(evaluated, k, cfg.eq)
    case Some(first) => Some(cfg.f(first))
    case None => None
  }

  lemma {:induction false} FirstEqualAppended<K>(ks: seq<K>, l: K, k: K, eq: (K, K) -> bool)
    ensures FirstEqual(ks + [l], k, eq) ==
      if FirstEqual(ks, k, eq).Some? then FirstEqual(ks, k, eq) else if eq(l, k) then Some(l) else None
  {
    if ks == [] {
      assert [] + [l] == [l];
    } else {
      FirstEqualAppended(ks[1..], l, k, eq);
      assert (ks + [l])[1..] == ks[1..] + [l];
    }
  }

  lemma NothingHeld<K(!new), R>(cfg: Config<K, R>, n: nat)
    requires n > 0
    ensures Holds(cfg, EmptyBuckets(n), [])
  {
  }

  /** Storing the result of a call that found nothing. */
  lemma HoldsMore<K(!new), R>(cfg: Config<K, R>, buckets: Buckets<K, R>, evaluated: seq<K>, k: K)
    requires Sound(cfg) && Holds(cfg, buckets, evaluated) && Lookup(cfg, buckets, k) == None
    ensures Holds(cfg, Emplace(cfg, buckets, k, cfg.f(k)), evaluated + [k])
  {
    assert Stored(cfg, evaluated, k) == None;
    hide Lookup, Emplace;
    forall l ensures Lookup(cfg, Emplace(cfg, buckets, k, cfg.f(k)), l) == Stored(cfg, evaluated + [k], l) {
      LookupEmplaced(cfg, buckets, k, cfg.f(k), l);
      FirstEqualAppended(evaluated, k, l, cfg.eq);
      if cfg.eq(k, l) {
        forall m | m in evaluated ensures !cfg.eq(m, l) {
          assert cfg.eq(m, l) ==> cfg.eq(m, k);
        }
      }
    }
  }

  /** A table, a function and the calls made so far. */
  class CacheAdaptor<!K(!new), R> {
    const cfg: Config<K, R>
    var resultCache: Buckets<K, R>
    ghost var history: seq<K>
    ghost var evaluated: seq<K>

    ghost predicate Valid()
      reads this
    {
      && Sound(cfg)
      && evaluated == Firsts(history, cfg.eq)
      && Holds(cfg, resultCache, evaluated)
    }

    constructor (cfg: Config<K, R>, bucketCount: nat)
      requires Sound(cfg) && bucketCount > 0
      ensures Valid() && history == []
      ensures this.cfg == cfg
    {
      this.cfg := cfg;
      resultCache := EmptyBuckets(bucketCount);
      history, evaluated := [], [];
      NothingHeld(cfg, bucketCount);
    }

    /** Answers a call; the function is evaluated only if no equal call was made. */
    method Call(pars: K) returns (result: R)
      requires Valid()
      modifies this
      ensures Valid() && history == old(history) + [pars]
      ensures Answers(history, cfg.f, cfg.eq) == Answers(old(history), cfg.f, cfg.eq) + [result]
      ensures evaluated == old(evaluated) || evaluated == old(evaluated) + [pars]
      ensures evaluated != old(evaluated) ==> FirstEqual(old(evaluated), pars, cfg.eq) == None
    {
      hide Sound, Lookup, Emplace, Firsts, Answers;
      AnswersStep(history, pars, cfg.f, cfg.eq);
      history := history + [pars];
      match Lookup(cfg, resultCache, pars) {
        case Some(found) =>
          result := found;
        case None =>
          result := cfg.f(pars);
          HoldsMore(cfg, resultCache, evaluated, pars);
          evaluated := evaluated + [pars];
          resultCache := Emplace(cfg, resultCache, pars, result);
      }
    }
  }

  // ---------------------------------------------------------------- the symmetric cache

  ghost predicate Commutes<T(!new), R>(f: ((T, T)) -> R) {
    forall a, b :: f((a, b)) == f((b, a))
  }

  /** The cache of a function of two arguments in any order. */
  function SymmetricConfig<T(==), R>(f: ((T, T)) -> R, hash: T -> Hash): Config<(T, T), R> {
    Config(f, pair => SymmetricTupleHash(pair, hash), (p, q) => SymmetricTupleCompare(p, q))
  }

  /** Hash and comparison of the symmetric cache fit together, and its function respects
      the comparison exactly if it is symmetric. */
  lemma SymmetricCacheIsSound<T(!new), R>(f: ((T, T)) -> R, hash: T -> Hash)
    ensures Sound(SymmetricConfig(f, hash))
    ensures Respects(SymmetricConfig(f, hash)) <==> Commutes(f)
  {
    var cfg := SymmetricConfig(f, hash);
    hide SymmetricTupleHash;
    forall k, l | cfg.eq(k, l) ensures cfg.hash(k) == cfg.hash(l) {
      SymmetricHashAgrees(k, l, hash);
    }
    if Respects(cfg) {
      forall a, b ensures f((a, b)) == f((b, a)) {
        assert cfg.eq((a, b), (b, a));
      }
    }
    if Commutes(f) {
      forall k, l | cfg.eq(k, l) ensures f(k) == f(l) {
        assert f((k.0, k.1)) == f((k.1, k.0));
      }
    }
  }
}

/**
 The cache shared by threads, as the interleaved steps of any number of callers: look up
 under the shared lock, look up again under the exclusive lock, and only then evaluate
 and store (flt/util/cache_adaptors.hpp).
*/
module SynchronizedCaches {
  import opened Caches

  /** Where a thread is in a call. */
  datatype Thread<K, R> =
    | Idle
    | Entering(key: K)               // waits for the shared lock
    | Reading(key: K)                // holds the shared lock
    | Missed(key: K)                 // waits for the exclusive lock
    | Writing(key: K)                // holds the exclusive lock
    | Absent(key: K)                 // has looked up again in vain
    | Evaluated(key: K, result: R)
    | Returned(key: K, result: R)

  /** `history`, `answers` and `callers` log the calls in the order in which they take
      effect, `evaluated` the evaluations of the function. `since` says for each thread
      how long the log was when its last call began. */
  datatype State<K, R> = State(
    threads: seq<Thread<K, R>>,
    readers: set<nat>,
    writer: Option<nat>,
    cache: Buckets<K, R>,
    evaluated: seq<K>,
    history: seq<K>,
    answers: seq<R>,
    callers: seq<nat>,
    since: seq<nat>)

  function Start<K, R>(threadCount: nat, bucketCount: nat): State<K, R>
    requires bucketCount > 0
  {
    State(seq(threadCount, i => Idle), {}, None, EmptyBuckets(bucketCount), [], [], [], [],
          seq(threadCount, i => 0))
  }

  function At<K, R>(s: State<K, R>, t: nat, thread: Thread<K, R>): State<K, R>
    requires t < |s.threads|
  {
    s.(threads := s.threads[t := thread])
  }

  /** A call takes effect and returns. */
  function Answered<K, R>(s: State<K, R>, t: nat, key: K, result: R): State<K, R>
    requires t < |s.threads|
  {
    At(s, t, Returned(key, result)).(
      history := s.history + [key], answers := s.answers + [result], callers := s.callers + [t])
  }

  /** Thread `t` begins a call. */
  function Called<K, R>(s: State<K, R>, t: nat, key: K): State<K, R>
    requires t < |s.threads|
  {
    At(s, t, Entering(key)).(since := if t < |s.since| then s.since[t := |s.history|] else s.since)
  }

  /** The next step of thread `t`, or nothing if it has to wait; an idle thread calls
      with `key`. */
  function Advance<K, R>(cfg: Config<K, R>, s: State<K, R>, t: nat, key: K): Option<State<K, R>>
    requires t < |s.threads|
  {
    match s.threads[t]
    case Idle => Some(Called(s, t, key))
    case Entering(k) =>
      if s.writer != None then None
      else Some(At(s, t, Reading(k)).(readers := s.readers + {t}))
    case Reading(k) =>
      var unlocked := s.(readers := s.readers - {t});
      (match Lookup(cfg, s.cache, k)
       case Some(r) => Some(Answered(unlocked, t, k, r))
       case None => Some(At(unlocked, t, Missed(k))))
    case Missed(k) =>
      if s.writer != None || s.readers != {} then None
      else Some(At(s, t, Writing(k)).(writer := Some(t)))
    case Writing(k) =>
      (match Lookup(cfg, s.cache, k)
       case Some(r) => Some(Answered(s.(writer := None), t, k, r))
       case None => Some(At(s, t, Absent(k))))
    case Absent(k) => Some(At(s, t, Evaluated(k, cfg.f(k))).(evaluated := s.evaluated + [k]))
    case Evaluated(k, r) => Some(Answered(s.(writer := None, cache := Emplace(cfg, s.cache, k, r)), t, k, r))
    case Returned(_, _) => Some(At(s, t, Idle))
  }

  ghost predicate Step<K(!new), R>(cfg: Config<K, R>, s: State<K, R>, s': State<K, R>) {
    exists t: nat, key :: t < |s.threads| && Advance(cfg, s, t, key) == Some(s')
  }

  ghost predicate IsRun<K(!new), R>(cfg: Config<K, R>, run: seq<State<K, R>>) {
    && run != []
    && (exists n: nat, b: nat :: b > 0 && run[0] == Start(n, b))
    && (forall i :: 0 < i < |run| ==> Step(cfg, run[i - 1], run[i]))
  }

  // ---------------------------------------------------------------------- invariants

  predicate HoldsExclusive<K, R>(thread: Thread<K, R>) {
    thread.Writing? || thread.Absent? || thread.Evaluated?
  }

  /** The lock knows who holds it, and a writer is alone. */
  ghost predicate LockIsRight<K, R>(s: State<K, R>) {
    && (forall t: nat :: t in s.readers ==> t < |s.threads|)
    && (s.writer.Some? ==> s.writer.value < |s.threads| && s.readers == {})
    && (forall t: nat :: t < |s.threads| ==> (t in s.readers <==> s.threads[t].Reading?))
    && (forall t: nat :: t < |s.threads| ==> (s.writer == Some(t) <==> HoldsExclusive(s.threads[t])))
  }

  /** Entry `i` of the log was made by the last call of thread `t`. */
  predicate OwnEntry<K, R>(s: State<K, R>, t: nat, i: nat) {
    t < |s.since| && s.since[t] <= i < |s.callers| && s.callers[i] == t
  }

  /** The last call of thread `t` has made exactly one entry, with this key and result. */
  ghost predicate Logged<K, R>(s: State<K, R>, t: nat, k: K, r: R) {
    exists i: nat ::
      && OwnEntry(s, t, i) && (forall j: nat :: OwnEntry(s, t, j) ==> j == i)
      && i < |s.history| && i < |s.answers| && s.history[i] == k && s.answers[i] == r
  }

  /** The last call of thread `t` has not taken effect yet. */
  ghost predicate NotLogged<K, R>(s: State<K, R>, t: nat) {
    forall i: nat :: !OwnEntry(s, t, i)
  }

  /** What a thread knows in the middle of a call. */
  ghost predicate Knows<K(!new), R>(cfg: Config<K, R>, s: State<K, R>, t: nat)
    requires t < |s.threads|
  {
    match s.threads[t]
    case Idle => true
    case Absent(k) => NotLogged(s, t) && Lookup(cfg, s.cache, k) == None
    case Evaluated(k, r) => NotLogged(s, t) && Lookup(cfg, s.cache, k) == None && r == cfg.f(k)
    case Returned(k, r) => Logged(s, t, k, r)
    case _ => NotLogged(s, t)
  }

  ghost predicate ThreadsKnow<K(!new), R>(cfg: Config<K, R>, s: State<K, R>) {
    forall t :: 0 <= t < |s.threads| ==> Knows(cfg, s, t)
  }

  /** The log is kept entry by entry. */
  predicate LogIsWhole<K, R>(s: State<K, R>) {
    && |s.callers| == |s.history| == |s.answers| && |s.since| == |s.threads|
    && (forall t :: 0 <= t < |s.since| ==> s.since[t] <= |s.history|)
  }

  /** The result that is evaluated but not yet stored. */
  function Pending<K, R>(s: State<K, R>): seq<K> {
    if s.writer.Some? && s.writer.value < |s.threads| && s.threads[s.writer.value].Evaluated?
    then [s.threads[s.writer.value].key] else []
  }

  /** Table and logs are those of the calls made one after the other. */
  ghost predicate DataIsRight<K(!new), R>(cfg: Config<K, R>, s: State<K, R>) {
    && Holds(cfg, s.cache, Firsts(s.history, cfg.eq))
    && s.answers == Answers(s.history, cfg.f, cfg.eq)
    && s.evaluated == Firsts(s.history, cfg.eq) + Pending(s)
  }

  ghost predicate Safe<K(!new), R>(cfg: Config<K, R>, s: State<K, R>) {
    LockIsRight(s) && LogIsWhole(s) && ThreadsKnow(cfg, s) && DataIsRight(cfg, s)
  }

  lemma StartIsSafe<K(!new), R>(cfg: Config<K, R>, threadCount: nat, bucketCount: nat)
    requires bucketCount > 0
    ensures Safe(cfg, Start(threadCount, bucketCount))
  {
    NothingHeld(cfg, bucketCount);
  }

  lemma LockStaysRight<K(!new), R>(cfg: Config<K, R>, s: State<K, R>, t: nat, key: K, s': State<K, R>)
    requires LockIsRight(s) && t < |s.threads| && Advance(cfg, s, t, key) == Some(s')
    ensures LockIsRight(s')
  {
    hide Lookup, Emplace;
  }

  lemma LogStaysWhole<K(!new), R>(cfg: Config<K, R>, s: State<K, R>, t: nat, key: K, s': State<K, R>)
    requires LogIsWhole(s) && t < |s.threads| && Advance(cfg, s, t, key) == Some(s')
    ensures LogIsWhole(s')
  {
    hide Lookup, Emplace;
  }

  /** A step of one thread leaves the entries of another's call alone, and the table if
      the other one holds the exclusive lock. */
  lemma OthersEntries<K(!new), R>(cfg: Config<K, R>, s: State<K, R>, t: nat, key: K, s': State<K, R>, u: nat)
    requires LogIsWhole(s) && t < |s.threads| && Advance(cfg, s, t, key) == Some(s')
    requires u < |s.threads| && u != t
    ensures |s'.threads| == |s.threads| && s'.threads[u] == s.threads[u]
    ensures s.history <= s'.history && s.answers <= s'.answers
    ensures forall i: nat :: OwnEntry(s', u, i) <==> OwnEntry(s, u, i)
    ensures s'.cache == s.cache || HoldsExclusive(s.threads[t])
  {
    hide Lookup, Emplace;
  }

  lemma OthersStillKnow<K(!new), R>(cfg: Config<K, R>, s: State<K, R>, t: nat, key: K, s': State<K, R>, u: nat)
    requires LockIsRight(s) && LogIsWhole(s) && t < |s.threads| && Advance(cfg, s, t, key) == Some(s')
    requires u < |s.threads| && u != t && Knows(cfg, s, u)
    ensures u < |s'.threads| && Knows(cfg, s', u)
  {
    hide Lookup, Emplace, Advance, OwnEntry;
    assert HoldsExclusive(s.threads[u]) && HoldsExclusive(s.threads[t]) ==> Some(u) == Some(t);
    OthersEntries(cfg, s, t, key, s', u);
    match s.threads[u] {
      case Returned(k, r) =>
        var i: nat :| && OwnEntry(s, u, i) && (forall j: nat :: OwnEntry(s, u, j) ==> j == i)
          && i < |s.history| && i < |s.answers| && s.history[i] == k && s.answers[i] == r;
        assert s'.history[i] == k && s'.answers[i] == r;
      case _ =>
    }
  }

  /** The thread's own entries after its step. */
  lemma OwnEntries<K(!new), R>(cfg: Config<K, R>, s: State<K, R>, t: nat, key: K, s': State<K, R>)
    requires LogIsWhole(s) && t < |s.threads| && Advance(cfg, s, t, key) == Some(s')
    requires NotLogged(s, t) || s.threads[t].Idle? || s.threads[t].Returned?
    ensures |s'.threads| == |s.threads|
    ensures s'.threads[t].Returned? ==> Logged(s', t, s'.threads[t].key, s'.threads[t].result)
    ensures s'.threads[t].Idle? || s'.threads[t].Returned? || NotLogged(s', t)
  {
    hide Lookup, Emplace;
    if s'.threads[t].Returned? {
      var i := |s.history|;
      assert forall j: nat :: OwnEntry(s', t, j) && j != i ==> OwnEntry(s, t, j);
      assert OwnEntry(s', t, i) && s'.history[i] == s'.threads[t].key && s'.answers[i] == s'.threads[t].result;
    } else if NotLogged(s, t) {
      assert forall j: nat :: OwnEntry(s', t, j) ==> OwnEntry(s, t, j);
    }
  }

  lemma TheThreadKnows<K(!new), R>(cfg: Config<K, R>, s: State<K, R>, t: nat, key: K, s': State<K, R>)
    requires LogIsWhole(s) && t < |s.threads| && Knows(cfg, s, t) && Advance(cfg, s, t, key) == Some(s')
    ensures |s'.threads| == |s.threads| && Knows(cfg, s', t)
  {
    hide Lookup, Emplace, Logged, NotLogged;
    OwnEntries(cfg, s, t, key, s');
  }

  lemma ThreadsStillKnow<K(!new), R>(cfg: Config<K, R>, s: State<K, R>, t: nat, key: K, s': State<K, R>)
    requires LockIsRight(s) && LogIsWhole(s) && ThreadsKnow(cfg, s)
    requires t < |s.threads| && Advance(cfg, s, t, key) == Some(s')
    ensures ThreadsKnow(cfg, s')
  {
    hide Advance, LockIsRight, LogIsWhole, Knows;
    assert Knows(cfg, s, t);
    TheThreadKnows(cfg, s, t, key, s');
    forall u | 0 <= u < |s'.threads| ensures Knows(cfg, s', u) {
      if u != t {
        assert Knows(cfg, s, u);
        OthersStillKnow(cfg, s, t, key, s', u);
      }
    }
  }

  /** A call that finds a result gets the answer of the sequential cache. */
  lemma FoundIsAnswer<K(!new), R>(cfg: Config<K, R>, buckets: Buckets<K, R>, history: seq<K>, k: K)
    requires Holds(cfg, buckets, Firsts(history, cfg.eq))
    ensures match Lookup(cfg, buckets, k)
      case Some(r) =>
        && Answers(history + [k], cfg.f, cfg.eq) == Answers(history, cfg.f, cfg.eq) + [r]
        && Firsts(history + [k], cfg.eq) == Firsts(history, cfg.eq)
      case None =>
        && Answers(history + [k], cfg.f, cfg.eq) == Answers(history, cfg.f, cfg.eq) + [cfg.f(k)]
        && Firsts(history + [k], cfg.eq) == Firsts(history, cfg.eq) + [k]
  {
    hide Lookup, Firsts, Answers;
    AnswersStep(history, k, cfg.f, cfg.eq);
    assert Lookup(cfg, buckets, k) == Stored(cfg, Firsts(history, cfg.eq), k);
  }

  lemma DataStaysRight<K(!new), R>(cfg: Config<K, R>, s: State<K, R>, t: nat, key: K, s': State<K, R>)
    requires Sound(cfg) && LockIsRight(s) && DataIsRight(cfg, s) && t < |s.threads| && Knows(cfg, s, t)
    requires Advance(cfg, s, t, key) == Some(s')
    ensures DataIsRight(cfg, s')
  {
    hide Sound, Holds, Lookup, Emplace, Firsts, Answers, Logged, NotLogged;
    assert s.writer == Some(t) <==> HoldsExclusive(s.threads[t]);
    match s.threads[t] {
      case Reading(k) => FoundIsAnswer(cfg, s.cache, s.history, k);
      case Writing(k) => FoundIsAnswer(cfg, s.cache, s.history, k);
      case Evaluated(k, r) =>
        FoundIsAnswer(cfg, s.cache, s.history, k);
        HoldsMore(cfg, s.cache, Firsts(s.history, cfg.eq), k);
      case _ =>
    }
  }

  lemma StepIsSafe<K(!new), R>(cfg: Config<K, R>, s: State<K, R>, s': State<K, R>)
    requires Sound(cfg) && Safe(cfg, s) && Step(cfg, s, s')
    ensures Safe(cfg, s')
  {
    hide Advance, Knows, LockIsRight, LogIsWhole, Holds, Firsts, Answers, Sound;
    var t: nat, key :| t < |s.threads| && Advance(cfg, s, t, key) == Some(s');
    assert Knows(cfg, s, t);
    LockStaysRight(cfg, s, t, key, s');
    LogStaysWhole(cfg, s, t, key, s');
    ThreadsStillKnow(cfg, s, t, key, s');
    DataStaysRight(cfg, s, t, key, s');
  }

  lemma {:induction false} RunsAreSafe<K(!new), R>(cfg: Config<K, R>, run: seq<State<K, R>>, i: nat)
    requires Sound(cfg) && IsRun(cfg, run) && i < |run|
    ensures Safe(cfg, run[i])
  {
    hide Safe, Step, Sound;
    if i == 0 {
      var n: nat, b: nat :| b > 0 && run[0] == Start(n, b);
      StartIsSafe(cfg, n, b);
    } else {
      RunsAreSafe(cfg, run, i - 1);
      StepIsSafe(cfg, run[i - 1], run[i]);
    }
  }

  // ------------------------------------------------------------------------ theorems

  /** In no state of any run is a thread writing beside one that reads or writes. */
  lemma WritersAreAlone<K(!new), R>(cfg: Config<K, R>, run: seq<State<K, R>>, i: nat, t: nat, u: nat)
    requires Sound(cfg) && IsRun(cfg, run) && i < |run| && t < |run[i].threads| && u < |run[i].threads| && t != u
    requires HoldsExclusive(run[i].threads[t])
    ensures !HoldsExclusive(run[i].threads[u]) && !run[i].threads[u].Reading?
  {
    RunsAreSafe(cfg, run, i);
    hide IsRun, Sound, ThreadsKnow, DataIsRight;
    var s := run[i];
    assert s.writer == Some(t);
    assert u !in s.readers;
  }

  /** In no state of any run has the function been evaluated for two equal arguments. */
  lemma EvaluatedOnce<K(!new), R>(cfg: Config<K, R>, run: seq<State<K, R>>, i: nat, p: nat, q: nat)
    requires Sound(cfg) && IsRun(cfg, run) && i < |run| && p < q < |run[i].evaluated|
    ensures !cfg.eq(run[i].evaluated[p], run[i].evaluated[q])
  {
    RunsAreSafe(cfg, run, i);
    hide IsRun, Firsts, Answers, LockIsRight, Lookup;
    var s := run[i];
    var firsts := Firsts(s.history, cfg.eq);
    FirstsDiffer(s.history, cfg.eq);
    if q == |firsts| {
      var k := s.threads[s.writer.value].key;
      assert Knows(cfg, s, s.writer.value);
      assert Lookup(cfg, s.cache, k) == Stored(cfg, firsts, k);
      assert s.evaluated[q] == k && s.evaluated[p] == firsts[p];
    }
  }

  /** Every interleaving answers as the sequential cache would, the calls taken in the
      order in which they take effect, which is within the call: each call returns what
      is logged in the one entry made since it began by its thread. */
  lemma RunsAreSequential<K(!new), R>(cfg: Config<K, R>, run: seq<State<K, R>>, i: nat)
    requires Sound(cfg) && IsRun(cfg, run) && i < |run|
    ensures run[i].answers == Answers(run[i].history, cfg.f, cfg.eq)
    ensures forall t: nat :: t < |run[i].threads| && run[i].threads[t].Returned? ==>
      Logged(run[i], t, run[i].threads[t].key, run[i].threads[t].result)
  {
    RunsAreSafe(cfg, run, i);
    hide IsRun, Sound, LockIsRight, Answers, Logged, Lookup;
    var s := run[i];
    forall t: nat | t < |s.threads| && s.threads[t].Returned?
      ensures Logged(s, t, s.threads[t].key, s.threads[t].result)
    {
      assert Knows(cfg, s, t);
    }
  }

  /** As long as some thread is in a call, one of those in a call can go on. */
  lemma NeverStuck<K(!new), R>(cfg: Config<K, R>, run: seq<State<K, R>>, i: nat, t: nat, key: K) returns (u: nat)
    requires Sound(cfg) && IsRun(cfg, run) && i < |run| && t < |run[i].threads| && !run[i].threads[t].Idle?
    ensures u < |run[i].threads| && !run[i].threads[u].Idle? && Advance(cfg, run[i], u, key).Some?
  {
    RunsAreSafe(cfg, run, i);
    hide IsRun, Sound, ThreadsKnow, DataIsRight, Lookup, Emplace;
    var s := run[i];
    if s.writer.Some? {
      u := s.writer.value;
      assert s.writer == Some(u) ==> HoldsExclusive(s.threads[u]);
    } else if s.readers != {} {
      u :| u in s.readers;
    } else {
      u := t;
    }
  }

  // ------------------------------------------------- when the answers are the function's

  function Last<K, R>(run: seq<State<K, R>>): State<K, R>
    requires run != []
  {
    run[|run| - 1]
  }

  lemma RunGoesOn<K(!new), R>(cfg: Config<K, R>, run: seq<State<K, R>>, t: nat, key: K)
    returns (longer: seq<State<K, R>>)
    requires IsRun(cfg, run) && t < |Last(run).threads| && Advance(cfg, Last(run), t, key).Some?
    ensures IsRun(cfg, longer) && longer != [] && Last(longer) == Advance(cfg, Last(run), t, key).value
  {
    hide Advance;
    longer := run + [Advance(cfg, Last(run), t, key).value];
    forall i | 0 < i < |longer| ensures Step(cfg, longer[i - 1], longer[i]) {
      if i < |run| {
        assert longer[i - 1] == run[i - 1] && longer[i] == run[i];
      }
    }
  }

  ghost predicate Unlocked<K, R>(s: State<K, R>) {
    |s.threads| == 1 && s.readers == {} && s.writer == None
  }

  /** The call of `k` from `s` has taken effect in `s'`. */
  ghost predicate AnsweredAlone<K, R>(s: State<K, R>, s': State<K, R>, k: K) {
    && Unlocked(s') && s'.history == s.history + [k]
    && s'.threads[0].Returned? && s'.threads[0].key == k
    && s'.answers == s.answers + [s'.threads[0].result]
  }

  /** The only thread calls and looks the key up. */
  lemma LookUpAlone<K(!new), R>(cfg: Config<K, R>, run: seq<State<K, R>>, k: K) returns (longer: seq<State<K, R>>)
    requires IsRun(cfg, run) && run != [] && Unlocked(Last(run)) && Last(run).threads[0] == Idle
    ensures IsRun(cfg, longer) && longer != []
    ensures AnsweredAlone(Last(run), Last(longer), k) || Last(longer) == At(Called(Last(run), 0, k), 0, Missed(k))
  {
    hide IsRun, Lookup, Emplace;
    longer := RunGoesOn(cfg, run, 0, k);
    longer := RunGoesOn(cfg, longer, 0, k);
    longer := RunGoesOn(cfg, longer, 0, k);
  }

  /** It has not found the key and stores its result. */
  lemma StoreAlone<K(!new), R>(cfg: Config<K, R>, run: seq<State<K, R>>, k: K) returns (longer: seq<State<K, R>>)
    requires IsRun(cfg, run) && run != [] && Unlocked(Last(run)) && Last(run).threads[0] == Missed(k)
    ensures IsRun(cfg, longer) && longer != [] && AnsweredAlone(Last(run), Last(longer), k)
  {
    hide IsRun, Lookup, Emplace;
    longer := RunGoesOn(cfg, run, 0, k);
    longer := RunGoesOn(cfg, longer, 0, k);
    if Last(longer).threads[0].Absent? {
      longer := RunGoesOn(cfg, longer, 0, k);
      longer := RunGoesOn(cfg, longer, 0, k);
    }
  }

  lemma CallAlone<K(!new), R>(cfg: Config<K, R>, run: seq<State<K, R>>, k: K) returns (longer: seq<State<K, R>>)
    requires IsRun(cfg, run) && run != [] && Unlocked(Last(run)) && Last(run).threads[0] == Idle
    ensures IsRun(cfg, longer) && longer != [] && AnsweredAlone(Last(run), Last(longer), k)
  {
    hide IsRun;
    longer := LookUpAlone(cfg, run, k);
    if Last(longer).threads[0].Missed? {
      longer := StoreAlone(cfg, longer, k);
    }
  }

  /** Two calls one after the other. */
  lemma CallTwice<K(!new), R>(cfg: Config<K, R>, k: K, l: K) returns (run: seq<State<K, R>>)
    ensures IsRun(cfg, run) && run != [] && Unlocked(Last(run)) && Last(run).history == [k] + [l]
    ensures Last(run).threads[0].Returned? && Last(run).threads[0].key == l
    ensures |Last(run).answers| > 0 && Last(run).answers[|Last(run).answers| - 1] == Last(run).threads[0].result
  {
    hide Lookup, Emplace, EmptyBuckets;
    run := [Start(1, 1)];
    assert IsRun(cfg, run);
    hide IsRun;
    run := CallAlone(cfg, run, k);
    run := RunGoesOn(cfg, run, 0, k);
    run := CallAlone(cfg, run, l);
  }

  /** Two equal arguments one after the other: the second call gets the first's result. */
  lemma SecondCallReturnsFirst<K(!new), R>(cfg: Config<K, R>, k: K, l: K) returns (run: seq<State<K, R>>)
    requires Sound(cfg) && cfg.eq(k, l)
    ensures IsRun(cfg, run) && run != [] && |Last(run).threads| == 1 && Last(run).threads[0] == Returned(l, cfg.f(k))
  {
    hide IsRun, Sound, Answers, Logged;
    run := CallTwice(cfg, k, l);
    RunsAreSequential(cfg, run, |run| - 1);
    SecondAnswer(cfg, k, l);
  }

  ghost predicate ReturnsExact<K(!new), R>(cfg: Config<K, R>, s: State<K, R>) {
    forall t :: 0 <= t < |s.threads| && s.threads[t].Returned? ==> s.threads[t].result == cfg.f(s.threads[t].key)
  }

  lemma RespectedIsExact<K(!new), R>(cfg: Config<K, R>, run: seq<State<K, R>>, i: nat)
    requires Sound(cfg) && Respects(cfg) && IsRun(cfg, run) && i < |run|
    ensures ReturnsExact(cfg, run[i])
  {
    hide IsRun, Sound, Respects, Answers;
    RunsAreSequential(cfg, run, i);
    RespectedAnswers(cfg, run[i].history);
  }

  /** Every call in every interleaving returns the function's own result exactly if the
      function does not tell equal arguments apart. */
  lemma ExactInAllRunsIffRespects<K(!new), R>(cfg: Config<K, R>)
    requires Sound(cfg)
    ensures Respects(cfg) <==> forall run, i :: IsRun(cfg, run) && 0 <= i < |run| ==> ReturnsExact(cfg, run[i])
  {
    hide IsRun, Sound;
    if Respects(cfg) {
      forall run, i | IsRun(cfg, run) && 0 <= i < |run| ensures ReturnsExact(cfg, run[i]) {
        RespectedIsExact(cfg, run, i);
      }
    } else {
      var k, l :| cfg.eq(k, l) && cfg.f(k) != cfg.f(l);
      var run := SecondCallReturnsFirst(cfg, k, l);
      assert !ReturnsExact(cfg, run[|run| - 1]);
    }
  }
}

/**
 Several workers computing the same pair of standards: each looks into the cache, competes for one
 lock, computes while holding it, and retries after transient errors. The steps of the workers may
 interleave in any order.
 */
module GapLock {

  /** How a worker goes on once it has released the lock. */
  datatype Exit = Retry | Return | Raise

  datatype Pc =
    | FastCheck
    | LoopTop
    | TryLock
    | Waiting
    | Computing
    | Releasing(exit: Exit)
    | Done
    | Raised

  datatype Worker = Worker(pc: Pc, attempts: nat, computations: nat)

  datatype State = State(lock: bool, cached: bool, workers: seq<Worker>)

  /** What a computation may do: end with or without a usable cache entry, or fail. */
  datatype Outcome = Computed(cached: bool) | Failed(transient: bool, cached: bool)

  /** One step of one worker; the outcome matters only while it computes. */
  datatype Event = Event(worker: nat, outcome: Outcome)

  function Initial(n: nat): State {
    State(false, false, seq(n, _ => Worker(FastCheck, 0, 0)))
  }

  function AfterFailure(w: Worker, transient: bool, maxRetries: nat): Worker {
    w.(attempts := w.attempts + 1,
       pc := Releasing(if transient && w.attempts + 1 <= maxRetries then Retry else Raise))
  }

  /** The lock is released on every way out of a computation, a retry included. */
  function StepWorker(lock: bool, cached: bool, w: Worker, outcome: Outcome, maxRetries: nat): (bool, bool, Worker) {
    match w.pc
    case FastCheck => (lock, cached, w.(pc := if cached then Done else LoopTop))
    case LoopTop => (lock, cached, w.(pc := if cached then Done else TryLock))
    case TryLock =>
      if lock then (lock, cached, w.(pc := Waiting))
      else (true, cached, w.(pc := Computing, computations := w.computations + 1))
    case Waiting => (lock, cached, w.(pc := LoopTop))
    case Computing =>
      (match outcome
       case Computed(c) => (lock, c, w.(pc := Releasing(Return)))
       case Failed(transient, c) => (lock, c, AfterFailure(w, transient, maxRetries)))
    case Releasing(exit) =>
      (false, cached, w.(pc := match exit case Retry => LoopTop case Return => Done case Raise => Raised))
    case Done => (lock, cached, w)
    case Raised => (lock, cached, w)
  }

  function Exec(s: State, e: Event, maxRetries: nat): State {
    if e.worker >= |s.workers| then s
    else
      var (lock, cached, w) := StepWorker(s.lock, s.cached, s.workers[e.worker], e.outcome, maxRetries);
      State(lock, cached, s.workers[e.worker := w])
  }

  function Run(s: State, events: seq<Event>, maxRetries: nat): State {
    if events == [] then s
    else Exec(Run(s, events[..|events| - 1], maxRetries), events[|events| - 1], maxRetries)
  }

  predicate InCriticalSection(w: Worker) {
    w.pc.Computing? || w.pc.Releasing?
  }

  ghost predicate MutualExclusion(s: State) {
    forall i, j | 0 <= i < j < |s.workers| :: !(InCriticalSection(s.workers[i]) && InCriticalSection(s.workers[j]))
  }

  ghost predicate LockHeld(s: State) {
    exists i :: 0 <= i < |s.workers| && InCriticalSection(s.workers[i])
  }

  /** How often a worker has computed, by where it is; a failure is counted before the lock is released. */
  ghost predicate CountsAreRight(w: Worker, maxRetries: nat) {
    match w.pc
    case Computing => w.computations == w.attempts + 1 && w.attempts <= maxRetries
    case Releasing(Return) => w.computations == w.attempts + 1 && w.attempts <= maxRetries
    case Releasing(Raise) => w.computations == w.attempts && 1 <= w.attempts <= maxRetries + 1
    case Raised => w.computations == w.attempts && 1 <= w.attempts <= maxRetries + 1
    case Done => w.attempts <= w.computations <= w.attempts + 1 && w.attempts <= maxRetries
    case _ => w.computations == w.attempts && w.attempts <= maxRetries
  }

  ghost predicate Inv(s: State, maxRetries: nat) {
    && MutualExclusion(s)
    && (s.lock <==> LockHeld(s))
    && forall w | w in s.workers :: CountsAreRight(w, maxRetries)
  }

  lemma StepKeepsInv(s: State, e: Event, maxRetries: nat)
    requires Inv(s, maxRetries)
    ensures Inv(Exec(s, e, maxRetries), maxRetries)
  {
    if e.worker < |s.workers| {
      var k, after := e.worker, Exec(s, e, maxRetries);
      var w, w' := s.workers[k], after.workers[k];
      assert s.workers[k] in s.workers;
      assert forall i | 0 <= i < |s.workers| && i != k :: after.workers[i] == s.workers[i];
      hide CountsAreRight, StepWorker, InCriticalSection;
      if InCriticalSection(w') && !InCriticalSection(w) {
        assert !LockHeld(s);
      }
      if after.lock && !InCriticalSection(w') {
        var i :| 0 <= i < |s.workers| && InCriticalSection(s.workers[i]);
        assert InCriticalSection(after.workers[i]);
      }
    }
  }

  /**
   A failed computation, once the worker has released the lock, is tried again exactly if the failure
   was transient and the worker has not failed more often than it may; otherwise the worker raises. A
   computation that did not fail returns.
   */
  lemma AfterComputation(s: State, k: nat, outcome: Outcome, any: Outcome, maxRetries: nat)
    requires Inv(s, maxRetries) && k < |s.workers| && s.workers[k].pc == Computing
    ensures
      var w, after := s.workers[k], Exec(Exec(s, Event(k, outcome), maxRetries), Event(k, any), maxRetries);
      && !after.lock && after.workers[k].computations == w.computations
      && after.workers[k].pc == (
           if outcome.Computed? then Done
           else if outcome.transient && w.computations <= maxRetries then LoopTop
           else Raised)
      && forall i | 0 <= i < |s.workers| && i != k :: after.workers[i] == s.workers[i]
  {
    assert s.workers[k] in s.workers;
  }

  /**
   In every state that any number of workers can reach, at most one of them computes, the lock is set
   exactly while one is between taking and releasing it, and none has computed more than
   maxRetries + 1 times.
   */
  lemma {:induction false} ReachableStatesAreSafe(n: nat, events: seq<Event>, maxRetries: nat)
    ensures Inv(Run(Initial(n), events, maxRetries), maxRetries)
    ensures forall w | w in Run(Initial(n), events, maxRetries).workers :: w.computations <= maxRetries + 1
  {
    if events != [] {
      ReachableStatesAreSafe(n, events[..|events| - 1], maxRetries);
      StepKeepsInv(Run(Initial(n), events[..|events| - 1], maxRetries), events[|events| - 1], maxRetries);
    }
    var s := Run(Initial(n), events, maxRetries);
    hide Run;
    forall w | w in s.workers ensures w.computations <= maxRetries + 1 {
      assert CountsAreRight(w, maxRetries);
    }
  }

  /** When all workers have ended, by a result or an error, the lock is free. */
  lemma NoLockLeftBehind(n: nat, events: seq<Event>, maxRetries: nat)
    requires forall w | w in Run(Initial(n), events, maxRetries).workers :: w.pc.Done? || w.pc.Raised?
    ensures !Run(Initial(n), events, maxRetries).lock
  {
    ReachableStatesAreSafe(n, events, maxRetries);
    var s := Run(Initial(n), events, maxRetries);
    hide Run;
    forall i | 0 <= i < |s.workers| ensures !InCriticalSection(s.workers[i]) {
      assert s.workers[i] in s.workers;
    }
  }

  /** Whoever holds the lock frees it by at most two steps of its own. */
  lemma HolderFreesLock(s: State, maxRetries: nat, outcome: Outcome)
    requires Inv(s, maxRetries) && s.lock
    ensures exists k ::
      && 0 <= k < |s.workers| && InCriticalSection(s.workers[k])
      && !Exec(Exec(s, Event(k, outcome), maxRetries), Event(k, outcome), maxRetries).lock
  {
    var k :| 0 <= k < |s.workers| && InCriticalSection(s.workers[k]);
    var once := Exec(s, Event(k, outcome), maxRetries);
    assert once.workers[k] == StepWorker(s.lock, s.cached, s.workers[k], outcome, maxRetries).2;
    if s.workers[k].pc.Releasing? {
      assert !once.lock;
      assert !InCriticalSection(once.workers[k]) && !once.workers[k].pc.TryLock?;
    }
  }

  /** The state after some steps of one worker alone. */
  function OwnSteps(s: State, k: nat, steps: nat, any: Outcome, maxRetries: nat): State {
    if steps == 0 then s else Exec(OwnSteps(s, k, steps - 1, any, maxRetries), Event(k, any), maxRetries)
  }

  predicate OutsideLock(w: Worker) {
    w.pc.FastCheck? || w.pc.LoopTop? || w.pc.TryLock? || w.pc.Waiting?
  }

  /**
   A worker without the lock is not stuck. Of a cached pair it returns the result within three steps of
   its own, without computing, unless it stands before a free lock; of one that is not cached it is
   computing within three steps of its own if the lock is free.
   */
  lemma WorkerGoesOn(s: State, k: nat, any: Outcome, maxRetries: nat)
    requires k < |s.workers| && OutsideLock(s.workers[k])
    ensures s.cached && (s.workers[k].pc.TryLock? ==> s.lock) ==>
      exists n | 0 <= n <= 3 ::
        OwnSteps(s, k, n, any, maxRetries) == s.(workers := s.workers[k := s.workers[k].(pc := Done)])
    ensures !s.cached && !s.lock ==>
      exists n | 0 <= n <= 3 ::
        OwnSteps(s, k, n, any, maxRetries) == s.(lock := true,
          workers := s.workers[k := s.workers[k].(pc := Computing, computations := s.workers[k].computations + 1)])
  {
    var one, two := OwnSteps(s, k, 1, any, maxRetries), OwnSteps(s, k, 2, any, maxRetries);
    var three := OwnSteps(s, k, 3, any, maxRetries);
    assert OwnSteps(s, k, 0, any, maxRetries) == s;
    assert one == Exec(s, Event(k, any), maxRetries);
    assert two == Exec(one, Event(k, any), maxRetries);
    assert three == Exec(two, Event(k, any), maxRetries);
  }

  /** A worker that has returned has computed without failing, or the pair was cached at some time. */
  lemma {:induction false} ResultWasThere(n: nat, events: seq<Event>, maxRetries: nat, k: nat)
    requires k < |Run(Initial(n), events, maxRetries).workers|
    ensures var w := Run(Initial(n), events, maxRetries).workers[k];
      w.pc == Done || w.pc == Releasing(Return) ==>
        w.computations == w.attempts + 1 || exists j | 0 <= j <= |events| :: Run(Initial(n), events[..j], maxRetries).cached
  {
    if events != [] {
      var front := events[..|events| - 1];
      var before := Run(Initial(n), front, maxRetries);
      ReachableStatesAreSafe(n, front, maxRetries);
      assert k < |before.workers| && before.workers[k] in before.workers;
      ResultWasThere(n, front, maxRetries, k);
      assert forall j | 0 <= j <= |front| :: events[..j] == front[..j];
      assert front[..|front|] == front;
    }
  }

  // ---------------------------------------------------------------- computing a cached pair again

  /** The pair is cached, and nobody is past the look into the cache and before the end of a computation. */
  ghost predicate Quiet(s: State) {
    s.cached && forall w | w in s.workers :: !w.pc.TryLock? && !w.pc.Computing?
  }

  ghost predicate SameComputations(s: State, t: State) {
    |s.workers| == |t.workers| && forall i | 0 <= i < |s.workers| :: t.workers[i].computations == s.workers[i].computations
  }

  /** From a quiet state no worker ever computes again. */
  lemma {:induction false} QuietStays(s: State, events: seq<Event>, maxRetries: nat)
    requires Quiet(s)
    ensures Quiet(Run(s, events, maxRetries)) && SameComputations(s, Run(s, events, maxRetries))
  {
    if events != [] {
      QuietStays(s, events[..|events| - 1], maxRetries);
    }
  }

  /** A worker that stands before the lock computes after at most two steps, the first of them the holder's. */
  lemma LateComputes(s: State, k: nat, maxRetries: nat) returns (events: seq<Event>)
    requires Inv(s, maxRetries) && (forall w | w in s.workers :: !w.pc.Computing?)
    requires k < |s.workers| && s.workers[k].pc.TryLock?
    ensures |events| <= 2 && |Run(s, events, maxRetries).workers| == |s.workers|
    ensures Run(s, events, maxRetries).workers[k].computations == s.workers[k].computations + 1
  {
    var outcome := Computed(true);
    RunNothing(s, maxRetries);
    if !s.lock {
      events := [] + [Event(k, outcome)];
      OneMore(s, [], Event(k, outcome), maxRetries);
    } else {
      var i :| 0 <= i < |s.workers| && InCriticalSection(s.workers[i]);
      assert s.workers[i] in s.workers;
      var released := Exec(s, Event(i, outcome), maxRetries);
      OneMore(s, [], Event(i, outcome), maxRetries);
      assert !released.lock && released.workers[k] == s.workers[k];
      events := [] + [Event(i, outcome)] + [Event(k, outcome)];
      OneMore(s, [] + [Event(i, outcome)], Event(k, outcome), maxRetries);
    }
  }

  /**
   Looking into the cache and taking the lock are two steps. While a pair is cached and nobody is
   computing it, it can be computed again exactly if some worker stands between the two.
   */
  lemma ComputedAgainIff(s: State, maxRetries: nat)
    requires Inv(s, maxRetries) && s.cached && forall w | w in s.workers :: !w.pc.Computing?
    ensures (exists events :: !SameComputations(s, Run(s, events, maxRetries))) <==> exists w :: w in s.workers && w.pc.TryLock?
  {
    hide Run, Inv, InCriticalSection;
    if w :| w in s.workers && w.pc.TryLock? {
      var k :| 0 <= k < |s.workers| && s.workers[k] == w;
      var events := LateComputes(s, k, maxRetries);
      assert !SameComputations(s, Run(s, events, maxRetries));
    } else {
      assert Quiet(s);
      forall events ensures SameComputations(s, Run(s, events, maxRetries)) {
        QuietStays(s, events, maxRetries);
      }
    }
  }

  function FirstAndRest(n: nat, k: nat, done: Worker, waiting: Worker): seq<Worker> {
    seq(n, i => if i < k then done else waiting)
  }

  /** The first k workers have found nothing in the cache and stand before the lock. */
  lemma {:induction false} AllStandBeforeLock(n: nat, k: nat, maxRetries: nat) returns (events: seq<Event>)
    requires k <= n
    ensures Run(Initial(n), events, maxRetries)
      == State(false, false, FirstAndRest(n, k, Worker(TryLock, 0, 0), Worker(FastCheck, 0, 0)))
  {
    hide Run;
    if k == 0 {
      events := [];
      RunNothing(Initial(n), maxRetries);
      assert FirstAndRest(n, 0, Worker(TryLock, 0, 0), Worker(FastCheck, 0, 0)) == Initial(n).workers;
    } else {
      var front := AllStandBeforeLock(n, k - 1, maxRetries);
      var step := Event(k - 1, Computed(true));
      OneMore(Initial(n), front, step, maxRetries);
      OneMore(Initial(n), front + [step], step, maxRetries);
      events := front + [step] + [step];
    }
  }

  /**
   Any number of workers that have all missed the cache compute one after the other, although the pair
   is cached from the first computation on.
   */
  lemma CachedPairMayBeComputedAgain(n: nat, maxRetries: nat) returns (events: seq<Event>)
    ensures Run(Initial(n), events, maxRetries) == State(false, n > 0, seq(n, _ => Worker(Done, 0, 1)))
  {
    events := ComputeOneByOne(n, n, maxRetries);
    assert FirstAndRest(n, n, Worker(Done, 0, 1), Worker(TryLock, 0, 0)) == seq(n, _ => Worker(Done, 0, 1));
  }

  lemma {:induction false} ComputeOneByOne(n: nat, k: nat, maxRetries: nat) returns (events: seq<Event>)
    requires k <= n
    ensures Run(Initial(n), events, maxRetries)
      == State(false, k > 0, FirstAndRest(n, k, Worker(Done, 0, 1), Worker(TryLock, 0, 0)))
  {
    hide Run;
    if k == 0 {
      events := AllStandBeforeLock(n, n, maxRetries);
      var ready := Worker(TryLock, 0, 0);
      assert FirstAndRest(n, n, ready, Worker(FastCheck, 0, 0)) == FirstAndRest(n, 0, Worker(Done, 0, 1), ready);
    } else {
      var front := ComputeOneByOne(n, k - 1, maxRetries);
      var step := Event(k - 1, Computed(true));
      OneMore(Initial(n), front, step, maxRetries);
      OneMore(Initial(n), front + [step], step, maxRetries);
      OneMore(Initial(n), front + [step] + [step], step, maxRetries);
      events := front + [step] + [step] + [step];
    }
  }

  lemma RunNothing(s: State, maxRetries: nat)
    ensures Run(s, [], maxRetries) == s
  {
  }

  lemma OneMore(s: State, events: seq<Event>, e: Event, maxRetries: nat)
    ensures Run(s, events + [e], maxRetries) == Exec(Run(s, events, maxRetries), e, maxRetries)
  {
    assert (events + [e])[..|events + [e]| - 1] == events;
  }
}

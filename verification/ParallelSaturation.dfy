/** The bound on the reported maximum in flight is attained. */
module ParallelSaturation {
  import opened Sequences
  import opened ParallelRun
  import opened ParallelControl
  import opened ParallelMeter

  function Min(a: int, b: int): int {
    if a < b then a else b
  }

  /** In wave `w`, with no worker of a really fetched lock past its counted add. */
  ghost predicate Gathering(c: Config, s: State, w: nat) {
    && Control(c, s) && s.wave == w
    && forall t :: 0 <= t < |s.threads| ==>
         var pc := s.threads[t];
         Fetches(c)(c.waves[w][t]) ==> pc.Unspawned? || pc.Acquiring? || pc.Entering? || pc.Beginning? || pc.Loading?
  }

  /** A step that opens no barrier and moves no worker past its add. */
  ghost predicate Eager(c: Config, s: State, a: Actor)
    requires Typed(c, s)
  {
    Enabled(c, s, a) &&
    match a
    case Main => !s.main.Waiting?
    case Worker(t) => Fetches(c)(IdOf(c, s, t)) ==> !s.threads[t].Loading?
  }

  lemma EagerKeeps(c: Config, s: State, w: nat, a: Actor)
    requires Gathering(c, s, w) && Eager(c, s, a)
    ensures Gathering(c, Step(c, s, a), w)
  {
    ControlStep(c, s, a);
    match a
    case Main =>
    case Worker(t) => MoveKeepsShape(c, s, t);
  }

  /** When the main goroutine has no eager step left, everyone is started. */
  lemma StuckIsStarted(c: Config, s: State, w: nat)
    requires Gathering(c, s, w) && !Eager(c, s, Main)
    ensures forall t :: 0 <= t < |s.threads| ==> !s.threads[t].Unspawned?
  {
  }

  /** A started worker that has no eager step waits for a full semaphore, has passed it
      again, or belongs to a really fetched lock and is counted. */
  lemma StuckWorker(c: Config, s: State, w: nat, t: nat)
    requires Gathering(c, s, w) && t < |s.threads| && !s.threads[t].Unspawned? && !Eager(c, s, Worker(t))
    ensures s.threads[t].Acquiring? ==> s.semaphore == c.bound
    ensures Holding(s.threads[t]) ==> Metered(s.threads[t])
    ensures Fetches(c)(c.waves[w][t]) ==> s.threads[t].Acquiring? || Metered(s.threads[t])
  {
    CountPositive(s.threads, Holding);
    assert Holding(s.threads[t]) ==> s.semaphore > 0;
  }

  lemma StuckIsFull(c: Config, s: State, w: nat)
    requires Gathering(c, s, w) && forall a :: !Eager(c, s, a)
    ensures s.current >= Min(c.bound, Count(c.waves[w], Fetches(c)))
  {
    StuckIsStarted(c, s, w);
    forall t | 0 <= t < |s.threads|
      ensures s.threads[t].Acquiring? ==> s.semaphore == c.bound
      ensures Holding(s.threads[t]) ==> Metered(s.threads[t])
      ensures Fetches(c)(c.waves[w][t]) ==> s.threads[t].Acquiring? || Metered(s.threads[t])
    {
      StuckWorker(c, s, w, t);
    }
    CountMonotone(s.threads, Holding, s.threads, Metered);
    if forall t :: 0 <= t < |s.threads| ==> !s.threads[t].Acquiring? {
      CountMonotone(c.waves[w], Fetches(c), s.threads, Metered);
    }
  }

  /** Eager steps alone bring a wave to as many requests at once as it can have. */
  lemma {:induction false} Gather(c: Config, trace: seq<State>, w: nat) returns (full: seq<State>)
    requires Execution(c, trace) && Gathering(c, Last(trace), w)
    ensures Execution(c, full) && Last(full).current >= Min(c.bound, Count(c.waves[w], Fetches(c)))
    decreases Measure(c, Last(trace))
  {
    if a :| Eager(c, Last(trace), a) {
      EagerKeeps(c, Last(trace), w, a);
      ExtendExecution(c, trace, a);
      MeasureNonNegative(c, Last(trace));
      full := Gather(c, trace + [Step(c, Last(trace), a)], w);
    } else {
      StuckIsFull(c, Last(trace), w);
      full := trace;
    }
  }

  ghost predicate Opens(c: Config, s: State, w: nat) {
    w < |c.waves| && s.wave == w && s.threads == Fresh(|c.waves[w]|)
  }

  lemma NextWave(c: Config, s: State, w: nat, a: Actor)
    requires Control(c, s) && Enabled(c, s, a) && s.wave < w < |c.waves|
    ensures Step(c, s, a).wave < w || Opens(c, Step(c, s, a), w)
  {
  }

  lemma {:induction false} ReachWave(c: Config, trace: seq<State>, w: nat) returns (full: seq<State>)
    requires Execution(c, trace) && w < |c.waves| && (Last(trace).wave < w || Opens(c, Last(trace), w))
    ensures Execution(c, full) && Opens(c, Last(full), w)
    decreases Measure(c, Last(trace))
  {
    if Opens(c, Last(trace), w) {
      full := trace;
    } else {
      ControlHolds(c, trace);
      var a := SomeoneCanMove(c, Last(trace));
      NextWave(c, Last(trace), w, a);
      ExtendExecution(c, trace, a);
      MeasureNonNegative(c, Last(trace));
      full := ReachWave(c, trace + [Step(c, Last(trace), a)], w);
    }
  }

  lemma {:induction false} WidestWave(c: Config, k: nat) returns (w: nat)
    requires 0 < k <= |c.waves|
    ensures w < k && Count(c.waves[w], Fetches(c)) == WidestFetch(c, k)
  {
    if k == 1 || WidestFetch(c, k - 1) < Count(c.waves[k - 1], Fetches(c)) {
      w := k - 1;
    } else {
      w := WidestWave(c, k - 1);
    }
  }

  /** Some complete interleaving reports as many requests in flight as the concurrency and
      the widest wave of really fetched locks allow. */
  lemma Saturated(c: Config) returns (full: seq<State>)
    requires WellFormed(c)
    ensures Complete(c, full) && Last(full).peak == Min(c.bound, WidestFetch(c, |c.waves|))
  {
    var w := WidestWave(c, |c.waves|);
    assert Execution(c, [Init(c)]);
    var trace := ReachWave(c, [Init(c)], w);
    ControlHolds(c, trace);
    trace := Gather(c, trace, w);
    full := Completes(c, trace);
    assert full[|trace| - 1] == Last(trace);
    MaxCurrentMeaning(full);
    PeakIsMaximum(c, full);
    MaxInFlightBounded(c, full);
  }
}

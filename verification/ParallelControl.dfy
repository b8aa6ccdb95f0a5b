/** The semaphore, the wait group and the meter's counter: bounds, deadlock freedom, termination. */
module ParallelControl {
  import opened Model
  import opened Sequences
  import opened Fetch
  import opened ParallelRun

  /** Between a successful send on the semaphore and the receive that undoes it. */
  predicate Holding(pc: Pc) {
    !(pc.Unspawned? || pc.Acquiring? || pc.Leaving? || pc.Finished?)
  }

  /** Started and not yet past `group.Done`. */
  predicate Active(pc: Pc) {
    !(pc.Unspawned? || pc.Finished?)
  }

  /** Between the add of `begin` and the subtraction of `end`. */
  predicate Metered(pc: Pc) {
    pc.Loading? || pc.Swapping? || pc.InFlight? || pc.Ending?
  }

  /** What a worker's position says about its lock and the shared counters. */
  ghost predicate Consistent(c: Config, peak: int, id: string, pc: Pc) {
    var lock := LockOf(c.locks, id);
    match pc
    case Beginning(a) => !Reused(lock) && 1 <= a <= MaxAttempts(c.retry)
    case Loading(a, mine) => !Reused(lock) && 1 <= a <= MaxAttempts(c.retry) && 1 <= mine <= c.bound
    case Swapping(a, mine, loaded) =>
      !Reused(lock) && 1 <= a <= MaxAttempts(c.retry) && 1 <= mine <= c.bound && 0 <= loaded <= peak
    case InFlight(a) => !Reused(lock) && 1 <= a <= MaxAttempts(c.retry)
    case Ending(a) => !Reused(lock) && 1 <= a <= MaxAttempts(c.retry)
    case Deciding(a) => !Reused(lock) && 1 <= a <= MaxAttempts(c.retry)
    case BackingOff(a) =>
      !Reused(lock) && 1 <= a < MaxAttempts(c.retry) && Transient(c.oracle(lock.id, a), c.retry)
    case _ => true
  }

  ghost predicate SpawnedSoFar(s: State) {
    match s.main
    case Spawning(n) => n <= |s.threads| && forall i :: 0 <= i < |s.threads| ==> (s.threads[i].Unspawned? <==> n <= i)
    case Launching(n) => n < |s.threads| && forall i :: 0 <= i < |s.threads| ==> (s.threads[i].Unspawned? <==> n <= i)
    case Waiting => forall i :: 0 <= i < |s.threads| ==> !s.threads[i].Unspawned?
    case Returned => forall i :: 0 <= i < |s.threads| ==> s.threads[i].Finished?
  }

  ghost predicate Control(c: Config, s: State) {
    && Typed(c, s)
    && s.semaphore == Count(s.threads, Holding) <= c.bound
    && s.group == Count(s.threads, Active) + (if s.main.Launching? then 1 else 0)
    && s.current == Count(s.threads, Metered)
    && 0 <= s.peak
    && SpawnedSoFar(s)
    && (s.main.Returned? ==> s.wave == |c.waves| - 1)
    && forall i :: 0 <= i < |s.threads| ==> Consistent(c, s.peak, IdOf(c, s, i), s.threads[i])
  }

  lemma {:induction false} FreshCounts(n: nat)
    ensures Count(Fresh(n), Holding) == Count(Fresh(n), Active) == Count(Fresh(n), Metered) == 0
  {
    if n > 0 {
      assert Fresh(n)[..n - 1] == Fresh(n - 1);
      FreshCounts(n - 1);
    }
  }

  lemma ControlInit(c: Config)
    requires WellFormed(c)
    ensures Control(c, Init(c))
  {
    FreshCounts(|c.waves[0]|);
  }

  lemma ControlLaunch(c: Config, s: State)
    requires Control(c, s) && s.main.Launching? && Enabled(c, s, Main)
    ensures Control(c, StepMain(c, s))
  {
    MoveCounts(s.threads, s.main.next, Acquiring);
  }

  /** Opening the barrier starts the next wave afresh, or ends the run. */
  lemma ControlAdvance(c: Config, s: State)
    requires Control(c, s) && s.main.Waiting? && Enabled(c, s, Main)
    ensures Control(c, StepMain(c, s))
  {
    if s.wave + 1 < |c.waves| { FreshCounts(|c.waves[s.wave + 1]|); }
    AllFinished(s);
    Quiet(s);
  }

  lemma ControlMain(c: Config, s: State)
    requires Control(c, s) && Enabled(c, s, Main)
    ensures Control(c, StepMain(c, s))
  {
    match s.main
    case Spawning(n) =>
    case Launching(n) => ControlLaunch(c, s);
    case Waiting => ControlAdvance(c, s);
  }

  lemma AllFinished(s: State)
    requires s.main.Waiting? && SpawnedSoFar(s) && Count(s.threads, Active) == 0
    ensures forall i :: 0 <= i < |s.threads| ==> s.threads[i].Finished?
  {
    CountPositive(s.threads, Active);
    forall i | 0 <= i < |s.threads| ensures s.threads[i].Finished? {
      assert !Active(s.threads[i]);
    }
  }

  lemma Quiet(s: State)
    requires forall i :: 0 <= i < |s.threads| ==> s.threads[i].Finished?
    ensures Count(s.threads, Holding) == Count(s.threads, Metered) == Count(s.threads, Active) == 0
  {
    CountPositive(s.threads, Holding);
    CountPositive(s.threads, Metered);
    CountPositive(s.threads, Active);
  }

  /** A worker's move changes each count by what its own position changes. */
  lemma MoveCounts(threads: seq<Pc>, t: nat, pc: Pc)
    requires t < |threads|
    ensures Count(threads[t := pc], Holding) ==
            Count(threads, Holding) - (if Holding(threads[t]) then 1 else 0) + (if Holding(pc) then 1 else 0)
    ensures Count(threads[t := pc], Active) ==
            Count(threads, Active) - (if Active(threads[t]) then 1 else 0) + (if Active(pc) then 1 else 0)
    ensures Count(threads[t := pc], Metered) ==
            Count(threads, Metered) - (if Metered(threads[t]) then 1 else 0) + (if Metered(pc) then 1 else 0)
    ensures Count(threads[t := pc], Metered) <= Count(threads[t := pc], Holding)
  {
    CountUpdate(threads, Holding, t, pc);
    CountUpdate(threads, Active, t, pc);
    CountUpdate(threads, Metered, t, pc);
    CountMonotone(threads[t := pc], Metered, threads[t := pc], Holding);
  }

  lemma MoveConsistent(c: Config, s: State, t: nat)
    requires Control(c, s) && Enabled(c, s, Worker(t))
    ensures Consistent(c, StepWorker(c, s, t).peak, IdOf(c, s, t), NextPc(c, s, t))
    ensures StepWorker(c, s, t).peak >= s.peak
  {
    assert Consistent(c, s.peak, IdOf(c, s, t), s.threads[t]);
    MoveCounts(s.threads, t, NextPc(c, s, t));
  }

  lemma MoveKeepsSemaphore(c: Config, s: State, t: nat)
    requires Control(c, s) && Enabled(c, s, Worker(t))
    ensures StepWorker(c, s, t).semaphore == Count(s.threads[t := NextPc(c, s, t)], Holding) <= c.bound
  {
    MoveCounts(s.threads, t, NextPc(c, s, t));
  }

  lemma MoveKeepsCounters(c: Config, s: State, t: nat)
    requires Control(c, s) && Enabled(c, s, Worker(t))
    ensures StepWorker(c, s, t).group ==
            Count(s.threads[t := NextPc(c, s, t)], Active) + (if s.main.Launching? then 1 else 0)
    ensures StepWorker(c, s, t).current == Count(s.threads[t := NextPc(c, s, t)], Metered)
  {
    MoveCounts(s.threads, t, NextPc(c, s, t));
  }

  lemma MoveKeepsShape(c: Config, s: State, t: nat)
    requires Control(c, s) && Enabled(c, s, Worker(t))
    ensures Typed(c, StepWorker(c, s, t)) && SpawnedSoFar(StepWorker(c, s, t))
    ensures StepWorker(c, s, t).main == s.main && StepWorker(c, s, t).wave == s.wave
    ensures StepWorker(c, s, t).threads == s.threads[t := NextPc(c, s, t)]
  {
  }

  lemma ControlWorker(c: Config, s: State, t: nat)
    requires Control(c, s) && Enabled(c, s, Worker(t))
    ensures Control(c, StepWorker(c, s, t))
    ensures StepWorker(c, s, t).peak >= s.peak
  {
    var s' := StepWorker(c, s, t);
    MoveConsistent(c, s, t);
    MoveKeepsSemaphore(c, s, t);
    MoveKeepsCounters(c, s, t);
    MoveKeepsShape(c, s, t);
    forall i | 0 <= i < |s'.threads| ensures Consistent(c, s'.peak, IdOf(c, s', i), s'.threads[i]) {
      if i != t { assert Consistent(c, s.peak, IdOf(c, s, i), s.threads[i]); }
    }
  }

  lemma ControlStep(c: Config, s: State, a: Actor)
    requires Control(c, s) && Enabled(c, s, a)
    ensures Control(c, Step(c, s, a))
  {
    match a
    case Main => ControlMain(c, s);
    case Worker(t) => ControlWorker(c, s, t);
  }

  lemma {:induction false} ControlHolds(c: Config, trace: seq<State>)
    requires Execution(c, trace)
    ensures Control(c, Last(trace))
  {
    if |trace| == 1 {
      ControlInit(c);
    } else {
      var front := trace[..|trace| - 1];
      ControlHolds(c, front);
      var s, a := LastStep(c, trace);
      ControlStep(c, s, a);
    }
  }

  predicate Requesting(pc: Pc) { pc.InFlight? }

  /** In every reachable state at most `bound` workers hold the semaphore, whose count is
      exact, every request in flight is a holder's, and the meter counts the workers
      between `begin` and `end`. */
  lemma HoldersBounded(c: Config, trace: seq<State>)
    requires Execution(c, trace)
    ensures var s := Last(trace);
            && s.semaphore == Count(s.threads, Holding)
            && Count(s.threads, Requesting) <= s.current ==
               Count(s.threads, Metered) <= Count(s.threads, Holding) <= c.bound
            && forall t :: 0 <= t < |s.threads| && s.threads[t].InFlight? ==> Holding(s.threads[t])
  {
    ControlHolds(c, trace);
    var s := Last(trace);
    CountMonotone(s.threads, Requesting, s.threads, Metered);
    CountMonotone(s.threads, Metered, s.threads, Holding);
  }

  /** When the barrier opens, all workers of the wave are done and the semaphore is empty. */
  lemma BarrierIsQuiet(c: Config, trace: seq<State>)
    requires Execution(c, trace) && Last(trace).main.Waiting? && Enabled(c, Last(trace), Main)
    ensures forall t :: 0 <= t < |Last(trace).threads| ==> Last(trace).threads[t].Finished?
    ensures Last(trace).semaphore == 0 && Last(trace).current == 0
  {
    ControlHolds(c, trace);
    AllFinished(Last(trace));
    Quiet(Last(trace));
  }

  // ---- Deadlock freedom ----

  lemma SomeoneCanMove(c: Config, s: State) returns (a: Actor)
    requires Control(c, s) && !s.main.Returned?
    ensures Enabled(c, s, a)
  {
    a := Main;
    if !Enabled(c, s, Main) {
      CountPositive(s.threads, Active);
      var t :| 0 <= t < |s.threads| && Active(s.threads[t]);
      if !Enabled(c, s, Worker(t)) {
        // `t` waits for the semaphore: full, so someone holds it (a receiver never finds it empty).
        CountPositive(s.threads, Holding);
        t :| 0 <= t < |s.threads| && Holding(s.threads[t]);
      }
      a := Worker(t);
    }
  }

  lemma DeadlockFree(c: Config, trace: seq<State>)
    requires Execution(c, trace) && !Last(trace).main.Returned?
    ensures exists a :: Enabled(c, Last(trace), a)
  {
    ControlHolds(c, trace);
    var a := SomeoneCanMove(c, Last(trace));
  }

  // ---- Termination ----

  function AttemptCost(c: Config): nat { 2 * c.bound + 7 }

  function Remaining(c: Config, attempt: int): nat {
    if attempt >= MaxAttempts(c.retry) then 0 else (MaxAttempts(c.retry) - attempt) * AttemptCost(c)
  }

  lemma RemainingStep(c: Config, attempt: nat)
    requires attempt < MaxAttempts(c.retry)
    ensures Remaining(c, attempt) == Remaining(c, attempt + 1) + AttemptCost(c)
  {
    var k := MaxAttempts(c.retry) - attempt - 1;
    assert (k + 1) * AttemptCost(c) == k * AttemptCost(c) + AttemptCost(c);
  }

  function Above(a: int, b: int): nat { if a > b then a - b else 0 }

  /** The most steps a worker at `pc` can still take; a failed swap costs the rise of the peak. */
  function Cost(c: Config, peak: int, pc: Pc): nat {
    match pc
    case Unspawned => Remaining(c, 0) + 8
    case Acquiring => Remaining(c, 0) + 6
    case Entering => Remaining(c, 0) + 5
    case Beginning(a) => Remaining(c, a) + 2 * c.bound + 10
    case Loading(a, mine) => Remaining(c, a) + 2 * Above(mine, peak) + 9
    case Swapping(a, mine, loaded) => Remaining(c, a) + 2 * Above(mine, loaded) + 8
    case InFlight(a) => Remaining(c, a) + 7
    case Ending(a) => Remaining(c, a) + 6
    case Deciding(a) => Remaining(c, a) + 5
    case BackingOff(a) => Remaining(c, a) + 4
    case Writing(_) => 3
    case Releasing => 2
    case Leaving => 1
    case Finished => 0
  }

  function Costs(c: Config, peak: int, threads: seq<Pc>): seq<int> {
    seq(|threads|, i requires 0 <= i < |threads| => Cost(c, peak, threads[i]))
  }

  function MainCost(s: State): nat {
    match s.main
    case Spawning(n) => 2 * Above(|s.threads|, n) + 2
    case Launching(n) => 2 * Above(|s.threads|, n) + 1
    case Waiting => 1
    case Returned => 0
  }

  function WaveCost(c: Config, width: nat): int {
    2 * width + 2 + Sum(Costs(c, 0, Fresh(width)))
  }

  function FutureCost(c: Config, w: nat): int
    decreases |c.waves| - w
  {
    if w < |c.waves| then WaveCost(c, |c.waves[w]|) + FutureCost(c, w + 1) else 0
  }

  function Measure(c: Config, s: State): int {
    MainCost(s) + Sum(Costs(c, s.peak, s.threads)) + FutureCost(c, s.wave + 1)
  }

  lemma WorkerCheaper(c: Config, s: State, t: nat)
    requires Control(c, s) && Enabled(c, s, Worker(t))
    ensures Cost(c, StepWorker(c, s, t).peak, NextPc(c, s, t)) < Cost(c, s.peak, s.threads[t])
  {
    assert Consistent(c, s.peak, IdOf(c, s, t), s.threads[t]);
    match s.threads[t]
    case Entering => RemainingStep(c, 0);
    case Beginning(a) => MoveConsistent(c, s, t);
    case BackingOff(a) => RemainingStep(c, a);
    case _ =>
  }

  lemma CostsFall(c: Config, peak: int, threads: seq<Pc>, peak': int, t: nat, pc: Pc)
    requires t < |threads| && peak <= peak' && Cost(c, peak', pc) < Cost(c, peak, threads[t])
    ensures Sum(Costs(c, peak', threads[t := pc])) < Sum(Costs(c, peak, threads))
  {
    var before, after := Costs(c, peak, threads), Costs(c, peak', threads[t := pc]);
    forall i | 0 <= i < |after| ensures after[i] <= before[i] {
      if i != t { assert Cost(c, peak', threads[i]) <= Cost(c, peak, threads[i]); }
    }
    assert after[t] < before[t];
    SumBelow(after, before);
  }

  lemma WorkerMeasure(c: Config, s: State, t: nat)
    requires Control(c, s) && Enabled(c, s, Worker(t))
    ensures Measure(c, StepWorker(c, s, t)) < Measure(c, s)
  {
    MoveConsistent(c, s, t);
    MoveKeepsShape(c, s, t);
    WorkerCheaper(c, s, t);
    CostsFall(c, s.peak, s.threads, StepWorker(c, s, t).peak, t, NextPc(c, s, t));
  }

  lemma FreshCosts(c: Config, peak: int, width: nat)
    ensures Costs(c, peak, Fresh(width)) == Costs(c, 0, Fresh(width))
  {
  }

  lemma {:induction false} SumNonNegative(s: seq<int>)
    requires forall i :: 0 <= i < |s| ==> s[i] >= 0
    ensures Sum(s) >= 0
  {
    if s != [] { SumNonNegative(s[..|s| - 1]); }
  }

  lemma MainMeasure(c: Config, s: State)
    requires Control(c, s) && Enabled(c, s, Main)
    ensures Measure(c, StepMain(c, s)) < Measure(c, s)
  {
    var s' := StepMain(c, s);
    match s.main
    case Spawning(n) =>
    case Launching(n) => CostsFall(c, s.peak, s.threads, s.peak, n, Acquiring);
    case Waiting =>
      SumNonNegative(Costs(c, s.peak, s.threads));
      if s.wave + 1 < |c.waves| {
        FreshCosts(c, s.peak, |c.waves[s.wave + 1]|);
      }
  }

  lemma StepMeasure(c: Config, s: State, a: Actor)
    requires Control(c, s) && Enabled(c, s, a)
    ensures Measure(c, Step(c, s, a)) < Measure(c, s)
  {
    match a
    case Main => MainMeasure(c, s);
    case Worker(t) => WorkerMeasure(c, s, t);
  }

  lemma {:induction false} FutureNonNegative(c: Config, w: nat)
    ensures FutureCost(c, w) >= 0
    decreases |c.waves| - w
  {
    if w < |c.waves| {
      SumNonNegative(Costs(c, 0, Fresh(|c.waves[w]|)));
      FutureNonNegative(c, w + 1);
    }
  }

  lemma MeasureNonNegative(c: Config, s: State)
    ensures Measure(c, s) >= 0
  {
    SumNonNegative(Costs(c, s.peak, s.threads));
    FutureNonNegative(c, s.wave + 1);
  }

  /** No interleaving is longer than the initial measure: every run terminates. */
  lemma {:induction false} ExecutionsBounded(c: Config, trace: seq<State>)
    requires Execution(c, trace)
    ensures |trace| - 1 + Measure(c, Last(trace)) <= Measure(c, Init(c))
    ensures |trace| - 1 <= Measure(c, Init(c))
  {
    MeasureNonNegative(c, Last(trace));
    if |trace| > 1 {
      var front := trace[..|trace| - 1];
      ExecutionsBounded(c, front);
      ControlHolds(c, front);
      var s, a := LastStep(c, trace);
      StepMeasure(c, s, a);
    }
  }

  lemma ExtendExecution(c: Config, trace: seq<State>, a: Actor)
    requires Execution(c, trace) && Control(c, Last(trace)) && Enabled(c, Last(trace), a)
    ensures Execution(c, trace + [Step(c, Last(trace), a)])
    ensures Measure(c, Step(c, Last(trace), a)) < Measure(c, Last(trace))
  {
    assert (trace + [Step(c, Last(trace), a)])[..|trace|] == trace;
    StepMeasure(c, Last(trace), a);
  }

  /** Any interleaving can be continued to a complete one. */
  lemma {:induction false} Completes(c: Config, trace: seq<State>) returns (full: seq<State>)
    requires Execution(c, trace)
    ensures Complete(c, full) && trace <= full
    decreases Measure(c, Last(trace))
  {
    ControlHolds(c, trace);
    if Last(trace).main.Returned? {
      full := trace;
    } else {
      var a := SomeoneCanMove(c, Last(trace));
      ExtendExecution(c, trace, a);
      MeasureNonNegative(c, Last(trace));
      full := Completes(c, trace + [Step(c, Last(trace), a)]);
    }
  }
}

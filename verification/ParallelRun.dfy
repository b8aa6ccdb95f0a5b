/** The bounded-parallel branch of `run` as a step system. Each atomic action of the main
    goroutine and of every worker is one step; which one moves next is arbitrary. */
module ParallelRun {
  import opened Model
  import opened Fetch

  /** Where a worker goroutine is. `attempt` is the retry loop's counter, `mine` the value
      its add returned, `loaded` the peak it read last. */
  datatype Pc =
    | Unspawned
    | Acquiring
    | Entering
    | Beginning(attempt: nat)
    | Loading(attempt: nat, mine: int)
    | Swapping(attempt: nat, mine: int, loaded: int)
    | InFlight(attempt: nat)
    | Ending(attempt: nat)
    | Deciding(attempt: nat)
    | BackingOff(attempt: nat)
    | Writing(value: LockEvidence)
    | Releasing
    | Leaving
    | Finished

  /** The main goroutine: `group.Add` for the next worker, its `go`, `group.Wait`, return. */
  datatype MainPc = Spawning(next: nat) | Launching(next: nat) | Waiting | Returned

  datatype Config = Config(order: seq<string>, waves: seq<seq<string>>, indices: map<string, nat>,
                           locks: map<string, Lock>, retry: RetryPolicy, oracle: Oracle, bound: nat)

  /** `writes` counts the stores to each slot and `issued` the requests sent; the program
      keeps neither. */
  datatype State = State(wave: nat, main: MainPc, threads: seq<Pc>, semaphore: int, group: int,
                         current: int, peak: int, evidence: seq<LockEvidence>, writes: seq<nat>, issued: nat)

  datatype Actor = Main | Worker(t: nat)

  ghost predicate WellFormed(c: Config) {
    && c.waves != []
    && c.bound >= 1
    && forall w, t :: 0 <= w < |c.waves| && 0 <= t < |c.waves[w]| ==>
         && c.waves[w][t] in c.indices
         && c.indices[c.waves[w][t]] < |c.order|
         && c.order[c.indices[c.waves[w][t]]] == c.waves[w][t]
  }

  ghost predicate Typed(c: Config, s: State) {
    && WellFormed(c)
    && s.wave < |c.waves|
    && |s.threads| == |c.waves[s.wave]|
    && |s.evidence| == |s.writes| == |c.order|
  }

  function Fresh(n: nat): seq<Pc> {
    seq(n, _ => Unspawned)
  }

  ghost function Init(c: Config): State
    requires WellFormed(c)
  {
    State(0, Spawning(0), Fresh(|c.waves[0]|), 0, 0, 0, 0,
          seq(|c.order|, _ => ZERO_EVIDENCE), seq(|c.order|, _ => 0), 0)
  }

  ghost function IdOf(c: Config, s: State, t: nat): string
    requires Typed(c, s) && t < |s.threads|
  {
    c.waves[s.wave][t]
  }

  ghost function SlotOf(c: Config, s: State, t: nat): nat
    requires Typed(c, s) && t < |s.threads|
    ensures SlotOf(c, s, t) < |c.order|
  {
    c.indices[IdOf(c, s, t)]
  }

  ghost predicate Enabled(c: Config, s: State, a: Actor)
    requires Typed(c, s)
  {
    match a
    case Main =>
      (match s.main
       case Spawning(_) => true
       case Launching(n) => n < |s.threads|
       case Waiting => s.group == 0
       case Returned => false)
    case Worker(t) =>
      t < |s.threads| &&
      match s.threads[t]
      case Unspawned => false
      case Acquiring => s.semaphore < c.bound
      case Releasing => s.semaphore > 0
      case Finished => false
      case _ => true
  }

  ghost function StepMain(c: Config, s: State): State
    requires Typed(c, s) && Enabled(c, s, Main)
  {
    match s.main
    case Spawning(n) =>
      if n < |s.threads| then s.(group := s.group + 1, main := Launching(n)) else s.(main := Waiting)
    case Launching(n) => s.(threads := s.threads[n := Acquiring], main := Spawning(n + 1))
    case Waiting =>
      if s.wave + 1 < |c.waves| then
        s.(wave := s.wave + 1, main := Spawning(0), threads := Fresh(|c.waves[s.wave + 1]|), semaphore := 0, group := 0)
      else s.(main := Returned)
  }

  /** The next position of worker `t`, given what it reads. */
  ghost function NextPc(c: Config, s: State, t: nat): Pc
    requires Typed(c, s) && Enabled(c, s, Worker(t))
  {
    var lock := LockOf(c.locks, IdOf(c, s, t));
    match s.threads[t]
    case Acquiring => Entering
    case Entering => if Reused(lock) then Writing(ReusedEvidence(lock)) else Beginning(1)
    case Beginning(a) => Loading(a, s.current + 1)
    case Loading(a, mine) => Swapping(a, mine, s.peak)
    case Swapping(a, mine, loaded) =>
      if mine <= loaded || s.peak == loaded then InFlight(a) else Loading(a, mine)
    case InFlight(a) => Ending(a)
    case Ending(a) => Deciding(a)
    case Deciding(a) =>
      var response := c.oracle(lock.id, a);
      if Transient(response, c.retry) && a < MaxAttempts(c.retry) then BackingOff(a)
      else Writing(Classify(lock, response, a))
    case BackingOff(a) => Beginning(a + 1)
    case Writing(_) => Releasing
    case Releasing => Leaving
    case Leaving => Finished
  }

  ghost function StepWorker(c: Config, s: State, t: nat): State
    requires Typed(c, s) && Enabled(c, s, Worker(t))
  {
    var moved := s.(threads := s.threads[t := NextPc(c, s, t)]);
    match s.threads[t]
    case Acquiring => moved.(semaphore := s.semaphore + 1)
    case Beginning(_) => moved.(current := s.current + 1)
    case Swapping(_, mine, loaded) =>
      if mine <= loaded then moved else if s.peak == loaded then moved.(peak := mine) else moved
    case InFlight(_) => moved.(issued := s.issued + 1)
    case Ending(_) => moved.(current := s.current - 1)
    case Writing(value) =>
      var slot := SlotOf(c, s, t);
      moved.(evidence := s.evidence[slot := value], writes := s.writes[slot := s.writes[slot] + 1])
    case Releasing => moved.(semaphore := s.semaphore - 1)
    case Leaving => moved.(group := s.group - 1)
    case _ => moved
  }

  ghost function Step(c: Config, s: State, a: Actor): State
    requires Typed(c, s) && Enabled(c, s, a)
  {
    match a
    case Main => StepMain(c, s)
    case Worker(t) => StepWorker(c, s, t)
  }

  ghost predicate Next(c: Config, s: State, s': State) {
    Typed(c, s) && exists a :: Enabled(c, s, a) && s' == Step(c, s, a)
  }

  /** The states of one interleaving, from the start of the run. */
  ghost predicate Execution(c: Config, trace: seq<State>) {
    WellFormed(c) && trace != [] &&
    if |trace| == 1 then trace[0] == Init(c)
    else Execution(c, trace[..|trace| - 1]) && Next(c, trace[|trace| - 2], trace[|trace| - 1])
  }

  ghost function Last(trace: seq<State>): State
    requires trace != []
  {
    trace[|trace| - 1]
  }

  ghost predicate Complete(c: Config, trace: seq<State>) {
    Execution(c, trace) && Last(trace).main == Returned
  }

  /** The step that led to the last state. */
  lemma LastStep(c: Config, trace: seq<State>) returns (s: State, a: Actor)
    requires Execution(c, trace) && |trace| > 1
    ensures Execution(c, trace[..|trace| - 1]) && s == trace[|trace| - 2] == Last(trace[..|trace| - 1])
    ensures Typed(c, s) && Enabled(c, s, a) && Last(trace) == Step(c, s, a)
  {
    s := trace[|trace| - 2];
    a :| Enabled(c, s, a) && Last(trace) == Step(c, s, a);
  }
}

/** The lock-free maximum of the in-flight meter under every interleaving of add, load and swap. */
module ParallelMeter {
  import opened Model
  import opened Sequences
  import opened Fetch
  import opened ParallelRun
  import opened ParallelControl

  /** The highest value the counter has had. */
  ghost function MaxCurrent(trace: seq<State>): int {
    if trace == [] then 0 else Max(MaxCurrent(trace[..|trace| - 1]), trace[|trace| - 1].current)
  }

  predicate InBegin(pc: Pc) {
    pc.Loading? || pc.Swapping?
  }

  /** `high` is the maximum of the peak and of the values still held inside `begin`. */
  ghost predicate Accounted(s: State, high: int) {
    && s.peak <= high
    && (forall i :: 0 <= i < |s.threads| && InBegin(s.threads[i]) ==> s.threads[i].mine <= high)
    && (s.peak == high || exists i :: 0 <= i < |s.threads| && InBegin(s.threads[i]) && s.threads[i].mine == high)
  }

  lemma AccountedWorker(c: Config, s: State, t: nat, high: int)
    requires Control(c, s) && Enabled(c, s, Worker(t)) && Accounted(s, high) && s.current <= high
    ensures Accounted(StepWorker(c, s, t), Max(high, StepWorker(c, s, t).current))
  {
    var s' := StepWorker(c, s, t);
    var high' := Max(high, s'.current);
    var pc := s.threads[t];
    assert Consistent(c, s.peak, IdOf(c, s, t), pc);
    forall i | 0 <= i < |s'.threads| && InBegin(s'.threads[i]) ensures s'.threads[i].mine <= high' {
      if i != t { assert s'.threads[i] == s.threads[i]; }
    }
    if pc.Beginning? && s.current + 1 >= high {
      assert s'.threads[t].mine == high';
    } else if s.peak == high {
    } else {
      var i :| 0 <= i < |s.threads| && InBegin(s.threads[i]) && s.threads[i].mine == high;
      if i != t {
        assert s'.threads[i] == s.threads[i];
      } else {
        assert InBegin(s'.threads[t]) || s'.peak == high;
      }
    }
  }

  lemma AccountedMain(c: Config, s: State, high: int)
    requires Control(c, s) && Enabled(c, s, Main) && Accounted(s, high) && s.current <= high
    ensures Accounted(StepMain(c, s), high) && StepMain(c, s).current == s.current
  {
    var s' := StepMain(c, s);
    if s.main.Waiting? {
      AllFinished(s);
      assert s.peak == high;
    } else if s.peak < high {
      var i :| 0 <= i < |s.threads| && InBegin(s.threads[i]) && s.threads[i].mine == high;
      assert s'.threads[i] == s.threads[i];
    }
  }

  lemma AccountedStep(c: Config, s: State, a: Actor, high: int)
    requires Control(c, s) && Enabled(c, s, a) && Accounted(s, high) && s.current <= high
    ensures Accounted(Step(c, s, a), Max(high, Step(c, s, a).current))
  {
    match a
    case Main => AccountedMain(c, s, high);
    case Worker(t) => AccountedWorker(c, s, t, high);
  }

  /** In every reachable state, the highest counter value so far is the maximum of the
      peak and of the values that workers inside `begin` have not yet published. */
  lemma {:induction false} HistoryAccounted(c: Config, trace: seq<State>)
    requires Execution(c, trace)
    ensures Accounted(Last(trace), MaxCurrent(trace)) && Last(trace).current <= MaxCurrent(trace)
  {
    if |trace| == 1 {
      assert trace[..0] == [];
    } else {
      var front := trace[..|trace| - 1];
      HistoryAccounted(c, front);
      ControlHolds(c, front);
      var s, a := LastStep(c, trace);
      AccountedStep(c, s, a, MaxCurrent(front));
    }
  }

  lemma {:induction false} MaxCurrentMeaning(trace: seq<State>)
    ensures forall k :: 0 <= k < |trace| ==> trace[k].current <= MaxCurrent(trace)
    ensures MaxCurrent(trace) == 0 || exists k :: 0 <= k < |trace| && trace[k].current == MaxCurrent(trace)
  {
    if trace != [] {
      var n := |trace| - 1;
      MaxCurrentMeaning(trace[..n]);
      assert forall k :: 0 <= k < n ==> trace[..n][k] == trace[k];
    }
  }

  /** With nobody inside `begin`, the peak is exactly the historical maximum; so it is at the end. */
  lemma PeakIsMaximum(c: Config, trace: seq<State>)
    requires Execution(c, trace)
    requires Last(trace).main.Returned? || forall i :: 0 <= i < |Last(trace).threads| ==>
             !InBegin(Last(trace).threads[i])
    ensures Last(trace).peak == MaxCurrent(trace)
  {
    HistoryAccounted(c, trace);
    ControlHolds(c, trace);
  }

  lemma PeakStep(c: Config, s: State, a: Actor)
    requires Control(c, s) && Enabled(c, s, a)
    ensures s.peak <= Step(c, s, a).peak
  {
    match a
    case Main =>
    case Worker(t) => ControlWorker(c, s, t);
  }

  /** The peak never decreases. */
  lemma {:induction false} PeakMonotone(c: Config, trace: seq<State>, k: nat)
    requires Execution(c, trace) && k < |trace|
    ensures trace[k].peak <= Last(trace).peak
  {
    if k < |trace| - 1 {
      var front := trace[..|trace| - 1];
      PeakMonotone(c, front, k);
      ControlHolds(c, front);
      var s, a := LastStep(c, trace);
      PeakStep(c, s, a);
    }
  }

  // ---- Retries of the compare-and-swap ----

  /** How far the value being published still exceeds the peak the worker knows of. */
  function Gap(pc: Pc, peak: int): nat {
    match pc
    case Loading(_, mine) => Above(mine, peak)
    case Swapping(_, mine, loaded) => Above(mine, loaded)
    case _ => 0
  }

  /** A stretch of an interleaving, from any state on, through which worker `t` stays inside one `begin`. */
  ghost predicate Publishing(c: Config, path: seq<State>, t: nat) {
    && path != []
    && (forall k :: 0 <= k < |path| ==> Control(c, path[k]) && t < |path[k].threads| && InBegin(path[k].threads[t]))
    && (forall k :: 0 <= k < |path| - 1 ==> Next(c, path[k], path[k + 1]))
  }

  ghost predicate FailedSwap(path: seq<State>, t: nat, k: nat)
    requires k + 1 < |path| && t < |path[k].threads| && t < |path[k + 1].threads|
  {
    path[k].threads[t].Swapping? && path[k + 1].threads[t].Loading?
  }

  ghost function FailedSwaps(c: Config, path: seq<State>, t: nat): nat
    requires Publishing(c, path, t)
  {
    if |path| == 1 then 0
    else
      var n := |path| - 2;
      FailedSwaps(c, path[..n + 1], t) + if FailedSwap(path, t, n) then 1 else 0
  }

  /** A swap fails only after the peak strictly rose, and then less is left to publish. */
  lemma SwapFailsAfterRise(c: Config, s: State, a: Actor, t: nat)
    requires Control(c, s) && Enabled(c, s, a) && t < |s.threads| && InBegin(s.threads[t])
    requires t < |Step(c, s, a).threads| && InBegin(Step(c, s, a).threads[t])
    ensures var s' := Step(c, s, a);
            && Gap(s'.threads[t], s'.peak) <= Gap(s.threads[t], s.peak)
            && (s.threads[t].Swapping? && s'.threads[t].Loading? ==>
                s.threads[t].loaded < s.peak && Gap(s'.threads[t], s'.peak) < Gap(s.threads[t], s.peak))
  {
    assert Consistent(c, s.peak, IdOf(c, s, t), s.threads[t]);
    PeakStep(c, s, a);
  }

  /** The excess of a worker's value over the peak bounds how often its swap can fail. */
  lemma {:induction false} RetriesBounded(c: Config, path: seq<State>, t: nat)
    requires Publishing(c, path, t)
    ensures FailedSwaps(c, path, t) + Gap(Last(path).threads[t], Last(path).peak) <=
            Gap(path[0].threads[t], path[0].peak)
  {
    if |path| > 1 {
      var n := |path| - 2;
      var s, s' := path[n], path[n + 1];
      RetriesBounded(c, path[..n + 1], t);
      SwapInPath(c, s, s', t);
    }
  }

  lemma SwapInPath(c: Config, s: State, s': State, t: nat)
    requires Control(c, s) && Next(c, s, s') && t < |s.threads| && InBegin(s.threads[t])
    requires t < |s'.threads| && InBegin(s'.threads[t])
    ensures Gap(s'.threads[t], s'.peak) + (if s.threads[t].Swapping? && s'.threads[t].Loading? then 1 else 0)
            <= Gap(s.threads[t], s.peak)
  {
    var a :| Enabled(c, s, a) && s' == Step(c, s, a);
    SwapFailsAfterRise(c, s, a, t);
  }

  // ---- What bounds the reported maximum ----

  function Fetches(c: Config): string -> bool {
    id => !Reused(LockOf(c.locks, id))
  }

  /** The most locks of one wave that are really fetched. */
  function WidestFetch(c: Config, k: nat): nat
    requires k <= |c.waves|
  {
    if k == 0 then 0 else
      var width := Count(c.waves[k - 1], Fetches(c));
      if WidestFetch(c, k - 1) < width then width else WidestFetch(c, k - 1)
  }

  lemma {:induction false} WidestFetchBound(c: Config, k: nat, w: nat)
    requires w < k <= |c.waves|
    ensures Count(c.waves[w], Fetches(c)) <= WidestFetch(c, k)
  {
    if w < k - 1 { WidestFetchBound(c, k - 1, w); }
  }

  lemma CurrentBounded(c: Config, s: State)
    requires Control(c, s)
    ensures s.current <= c.bound && s.current <= WidestFetch(c, |c.waves|)
  {
    CountMonotone(s.threads, Metered, s.threads, Holding);
    forall i | 0 <= i < |s.threads| && Metered(s.threads[i]) ensures Fetches(c)(c.waves[s.wave][i]) {
      assert Consistent(c, s.peak, IdOf(c, s, i), s.threads[i]);
    }
    CountMonotone(s.threads, Metered, c.waves[s.wave], Fetches(c));
    WidestFetchBound(c, |c.waves|, s.wave);
  }

  lemma {:induction false} MaxInFlightBounded(c: Config, trace: seq<State>)
    requires Execution(c, trace)
    ensures MaxCurrent(trace) <= c.bound && MaxCurrent(trace) <= WidestFetch(c, |c.waves|)
    ensures Last(trace).peak <= c.bound && Last(trace).peak <= WidestFetch(c, |c.waves|)
  {
    ControlHolds(c, trace);
    CurrentBounded(c, Last(trace));
    if |trace| > 1 {
      MaxInFlightBounded(c, trace[..|trace| - 1]);
    } else {
      assert trace[..0] == [];
    }
    HistoryAccounted(c, trace);
  }
}

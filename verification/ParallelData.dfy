/** What the workers write: every interleaving ends in the same evidence. */
module ParallelData {
  import opened Model
  import opened Sequences
  import opened Fetch
  import opened Layering
  import opened ParallelRun
  import opened ParallelControl

  ghost function FetchId(c: Config, id: string): LockEvidence {
    FetchEvidence(LockOf(c.locks, id), c.retry, c.oracle)
  }

  /** The slot of the canonical order that the last occurrence of its ID owns. */
  ghost predicate Owned(c: Config, j: nat)
    requires j < |c.order|
  {
    c.order[j] in c.indices && c.indices[c.order[j]] == j
  }

  /** What a complete parallel run leaves behind: owned slots fetched, the others untouched. */
  ghost function ParallelEvidence(c: Config): seq<LockEvidence> {
    seq(|c.order|, j requires 0 <= j < |c.order| => if Owned(c, j) then FetchId(c, c.order[j]) else ZERO_EVIDENCE)
  }

  predicate Settled(pc: Pc) {
    pc.Releasing? || pc.Leaving? || pc.Finished?
  }

  /** A worker inside the retry loop is on its way to its lock's evidence. */
  ghost predicate OnCourse(c: Config, id: string, pc: Pc) {
    var lock := LockOf(c.locks, id);
    match pc
    case Beginning(a) => Settle(lock, c.retry, c.oracle, a) == FetchId(c, id)
    case Loading(a, _) => Settle(lock, c.retry, c.oracle, a) == FetchId(c, id)
    case Swapping(a, _, _) => Settle(lock, c.retry, c.oracle, a) == FetchId(c, id)
    case InFlight(a) => Settle(lock, c.retry, c.oracle, a) == FetchId(c, id)
    case Ending(a) => Settle(lock, c.retry, c.oracle, a) == FetchId(c, id)
    case Deciding(a) => Settle(lock, c.retry, c.oracle, a) == FetchId(c, id)
    case BackingOff(a) => Settle(lock, c.retry, c.oracle, a + 1) == FetchId(c, id)
    case Writing(value) => value == FetchId(c, id)
    case _ => true
  }

  ghost predicate SlotHolds(c: Config, evidence: seq<LockEvidence>, id: string) {
    id in c.indices && c.indices[id] < |evidence| && evidence[c.indices[id]] == FetchId(c, id)
  }

  ghost predicate SlotsClean(c: Config, evidence: seq<LockEvidence>) {
    |evidence| == |c.order| &&
    forall j :: 0 <= j < |c.order| ==>
      evidence[j] == ZERO_EVIDENCE || (Owned(c, j) && evidence[j] == FetchId(c, c.order[j]))
  }

  ghost predicate EarlierWavesWritten(c: Config, s: State)
    requires Typed(c, s)
  {
    forall w, t :: 0 <= w < s.wave && 0 <= t < |c.waves[w]| ==> SlotHolds(c, s.evidence, c.waves[w][t])
  }

  ghost predicate Data(c: Config, s: State) {
    && Control(c, s)
    && SlotsClean(c, s.evidence)
    && EarlierWavesWritten(c, s)
    && (forall t :: 0 <= t < |s.threads| && Settled(s.threads[t]) ==> SlotHolds(c, s.evidence, c.waves[s.wave][t]))
    && (forall t :: 0 <= t < |s.threads| ==> OnCourse(c, c.waves[s.wave][t], s.threads[t]))
  }

  lemma CourseKept(c: Config, s: State, t: nat)
    requires Control(c, s) && Enabled(c, s, Worker(t)) && OnCourse(c, IdOf(c, s, t), s.threads[t])
    ensures OnCourse(c, IdOf(c, s, t), NextPc(c, s, t))
  {
    assert Consistent(c, s.peak, IdOf(c, s, t), s.threads[t]);
  }

  /** Storing a lock's evidence in its slot disturbs no slot already written. */
  lemma StoreKeeps(c: Config, evidence: seq<LockEvidence>, id: string, other: string)
    requires WellFormed(c) && |evidence| == |c.order|
    requires id in c.indices && c.indices[id] < |c.order| && c.order[c.indices[id]] == id
    requires other in c.indices && c.indices[other] < |c.order| && c.order[c.indices[other]] == other
    ensures SlotHolds(c, evidence, other) ==> SlotHolds(c, evidence[c.indices[id] := FetchId(c, id)], other)
  {
  }

  lemma StoreClean(c: Config, evidence: seq<LockEvidence>, id: string)
    requires SlotsClean(c, evidence)
    requires id in c.indices && c.indices[id] < |c.order| && c.order[c.indices[id]] == id
    ensures SlotsClean(c, evidence[c.indices[id] := FetchId(c, id)])
  {
  }

  /** A worker's step stores nothing, or its own lock's evidence in its own slot. */
  lemma WorkerStore(c: Config, s: State, t: nat)
    requires Data(c, s) && Enabled(c, s, Worker(t))
    ensures StepWorker(c, s, t).evidence ==
            if s.threads[t].Writing? then s.evidence[SlotOf(c, s, t) := FetchId(c, IdOf(c, s, t))] else s.evidence
    ensures StepWorker(c, s, t).writes ==
            if s.threads[t].Writing? then s.writes[SlotOf(c, s, t) := s.writes[SlotOf(c, s, t)] + 1] else s.writes
  {
    assert OnCourse(c, c.waves[s.wave][t], s.threads[t]);
  }

  lemma SlotsKept(c: Config, s: State, t: nat, w: nat, k: nat)
    requires Data(c, s) && Enabled(c, s, Worker(t))
    requires w < |c.waves| && k < |c.waves[w]| && SlotHolds(c, s.evidence, c.waves[w][k])
    ensures SlotHolds(c, StepWorker(c, s, t).evidence, c.waves[w][k])
  {
    WorkerStore(c, s, t);
    StoreKeeps(c, s.evidence, IdOf(c, s, t), c.waves[w][k]);
  }

  lemma EarlierKept(c: Config, s: State, t: nat)
    requires Data(c, s) && Enabled(c, s, Worker(t)) && Typed(c, StepWorker(c, s, t))
    ensures EarlierWavesWritten(c, StepWorker(c, s, t))
  {
    var s' := StepWorker(c, s, t);
    forall w, k | 0 <= w < s'.wave && 0 <= k < |c.waves[w]| ensures SlotHolds(c, s'.evidence, c.waves[w][k]) {
      SlotsKept(c, s, t, w, k);
    }
  }

  lemma DataWorker(c: Config, s: State, t: nat)
    requires Data(c, s) && Enabled(c, s, Worker(t))
    ensures Data(c, StepWorker(c, s, t))
  {
    var s' := StepWorker(c, s, t);
    ControlWorker(c, s, t);
    MoveKeepsShape(c, s, t);
    WorkerStore(c, s, t);
    StoreClean(c, s.evidence, IdOf(c, s, t));
    EarlierKept(c, s, t);
    forall k | 0 <= k < |s'.threads| && Settled(s'.threads[k]) ensures SlotHolds(c, s'.evidence, c.waves[s'.wave][k]) {
      if k != t || Settled(s.threads[t]) { SlotsKept(c, s, t, s.wave, k); }
    }
    forall k | 0 <= k < |s'.threads| ensures OnCourse(c, c.waves[s'.wave][k], s'.threads[k]) {
      if k == t { CourseKept(c, s, t); }
    }
  }

  lemma DataMain(c: Config, s: State)
    requires Data(c, s) && Enabled(c, s, Main)
    ensures Data(c, StepMain(c, s))
  {
    ControlMain(c, s);
    if s.main.Waiting? { WaveWritten(c, s); }
  }

  lemma WaveWritten(c: Config, s: State)
    requires Data(c, s) && s.main.Waiting? && s.group == 0
    ensures forall w, k :: 0 <= w <= s.wave && 0 <= k < |c.waves[w]| ==> SlotHolds(c, s.evidence, c.waves[w][k])
  {
    AllFinished(s);
    forall w, k | 0 <= w <= s.wave && 0 <= k < |c.waves[w]| ensures SlotHolds(c, s.evidence, c.waves[w][k]) {
      if w == s.wave { assert Settled(s.threads[k]); }
    }
  }

  lemma {:induction false} DataHolds(c: Config, trace: seq<State>)
    requires Execution(c, trace)
    ensures Data(c, Last(trace))
  {
    if |trace| == 1 {
      ControlInit(c);
    } else {
      var front := trace[..|trace| - 1];
      DataHolds(c, front);
      var s, a := LastStep(c, trace);
      match a
      case Main => DataMain(c, s);
      case Worker(t) => DataWorker(c, s, t);
    }
  }

  /** Every ID of the order is in some wave. */
  ghost predicate Covers(c: Config) {
    forall j :: 0 <= j < |c.order| ==>
      exists w, t :: 0 <= w < |c.waves| && 0 <= t < |c.waves[w]| && c.waves[w][t] == c.order[j]
  }

  /** Every complete interleaving, for any bound, ends with the same evidence array. */
  lemma Deterministic(c: Config, trace: seq<State>)
    requires Complete(c, trace) && Covers(c)
    ensures Last(trace).evidence == ParallelEvidence(c)
  {
    DataHolds(c, trace);
    var s := Last(trace);
    forall j | 0 <= j < |c.order| ensures s.evidence[j] == ParallelEvidence(c)[j] {
      if Owned(c, j) {
        var w, t :| 0 <= w < |c.waves| && 0 <= t < |c.waves[w]| && c.waves[w][t] == c.order[j];
        if w == s.wave { assert Settled(s.threads[t]); }
        assert SlotHolds(c, s.evidence, c.waves[w][t]);
      }
    }
  }

  // ---- How often each slot is written ----

  /** How many settled workers of a wave have the lock `id`. */
  ghost function Stores(ids: seq<string>, threads: seq<Pc>, id: string): nat
    requires |ids| == |threads|
  {
    if ids == [] then 0
    else
      var n := |ids| - 1;
      Stores(ids[..n], threads[..n], id) + if ids[n] == id && Settled(threads[n]) then 1 else 0
  }

  lemma {:induction false} StoresMove(ids: seq<string>, threads: seq<Pc>, id: string, t: nat, pc: Pc)
    requires |ids| == |threads| && t < |ids| && (Settled(threads[t]) ==> Settled(pc))
    ensures Stores(ids, threads[t := pc], id) ==
            Stores(ids, threads, id) + if ids[t] == id && Settled(pc) && !Settled(threads[t]) then 1 else 0
  {
    var n := |ids| - 1;
    if t == n {
      assert threads[t := pc][..n] == threads[..n];
    } else {
      assert threads[t := pc][..n] == threads[..n][t := pc];
      StoresMove(ids[..n], threads[..n], id, t, pc);
    }
  }

  lemma {:induction false} StoresMeaning(ids: seq<string>, threads: seq<Pc>, id: string)
    requires |ids| == |threads|
    ensures Stores(ids, threads, id) <= multiset(ids)[id]
    ensures (forall i :: 0 <= i < |threads| ==> Settled(threads[i])) ==> Stores(ids, threads, id) == multiset(ids)[id]
    ensures (forall i :: 0 <= i < |threads| ==> !Settled(threads[i])) ==> Stores(ids, threads, id) == 0
  {
    if ids != [] {
      var n := |ids| - 1;
      StoresMeaning(ids[..n], threads[..n], id);
      SplitLast(ids);
    }
  }

  /** The stores that the workers of `id` have made: all of those in earlier waves, and the
      settled ones of the current wave. */
  ghost function StoresMade(c: Config, s: State, id: string): nat
    requires Typed(c, s)
  {
    multiset(Concat(c.waves[..s.wave]))[id] + Stores(c.waves[s.wave], s.threads, id)
  }

  /** An owned slot has taken all stores of its ID, the others none. */
  ghost predicate StoresCounted(c: Config, s: State) {
    && Typed(c, s)
    && forall j :: 0 <= j < |c.order| ==>
         && s.writes[j] == (if Owned(c, j) then StoresMade(c, s, c.order[j]) else 0)
         && s.evidence[j] == if s.writes[j] > 0 then FetchId(c, c.order[j]) else ZERO_EVIDENCE
  }

  lemma MadeByWorker(c: Config, s: State, t: nat, id: string)
    requires Control(c, s) && Enabled(c, s, Worker(t)) && Typed(c, StepWorker(c, s, t))
    ensures StoresMade(c, StepWorker(c, s, t), id) ==
            StoresMade(c, s, id) + if s.threads[t].Writing? && IdOf(c, s, t) == id then 1 else 0
  {
    StoresMove(c.waves[s.wave], s.threads, id, t, NextPc(c, s, t));
  }

  /** The stores of a finished wave are those of its list. */
  lemma WaveClosed(waves: seq<seq<string>>, w: nat, threads: seq<Pc>, id: string)
    requires w + 1 < |waves| && |threads| == |waves[w]| && forall i :: 0 <= i < |threads| ==> Settled(threads[i])
    ensures multiset(Concat(waves[..w + 1]))[id] + Stores(waves[w + 1], Fresh(|waves[w + 1]|), id) ==
            multiset(Concat(waves[..w]))[id] + Stores(waves[w], threads, id)
  {
    StoresMeaning(waves[w], threads, id);
    StoresMeaning(waves[w + 1], Fresh(|waves[w + 1]|), id);
    ConcatNext(waves, w);
  }

  lemma MadeByBarrier(c: Config, s: State, id: string)
    requires Control(c, s) && s.main.Waiting? && Enabled(c, s, Main) && Typed(c, StepMain(c, s))
    ensures StoresMade(c, StepMain(c, s), id) == StoresMade(c, s, id)
  {
    if s.wave + 1 < |c.waves| {
      AllFinished(s);
      WaveClosed(c.waves, s.wave, s.threads, id);
    }
  }

  lemma MadeByMain(c: Config, s: State, id: string)
    requires Control(c, s) && Enabled(c, s, Main) && Typed(c, StepMain(c, s))
    ensures StoresMade(c, StepMain(c, s), id) == StoresMade(c, s, id)
  {
    match s.main
    case Spawning(_) =>
    case Launching(n) => StoresMove(c.waves[s.wave], s.threads, id, n, Acquiring);
    case Waiting => MadeByBarrier(c, s, id);
  }

  /** A worker's lock has one owned slot, and that is where the worker stores. */
  lemma OwnSlot(c: Config, s: State, t: nat, j: nat)
    requires Typed(c, s) && t < |s.threads| && j < |c.order|
    ensures j == SlotOf(c, s, t) <==> Owned(c, j) && IdOf(c, s, t) == c.order[j]
  {
  }

  lemma CountedWorker(c: Config, s: State, t: nat)
    requires Data(c, s) && StoresCounted(c, s) && Enabled(c, s, Worker(t)) && Typed(c, StepWorker(c, s, t))
    ensures StoresCounted(c, StepWorker(c, s, t))
  {
    var s' := StepWorker(c, s, t);
    WorkerStore(c, s, t);
    forall j | 0 <= j < |c.order|
      ensures s'.writes[j] == (if Owned(c, j) then StoresMade(c, s', c.order[j]) else 0)
      ensures s'.evidence[j] == if s'.writes[j] > 0 then FetchId(c, c.order[j]) else ZERO_EVIDENCE
    {
      MadeByWorker(c, s, t, c.order[j]);
      OwnSlot(c, s, t, j);
    }
  }

  lemma CountedMain(c: Config, s: State)
    requires Data(c, s) && StoresCounted(c, s) && Enabled(c, s, Main) && Typed(c, StepMain(c, s))
    ensures StoresCounted(c, StepMain(c, s))
  {
    var s' := StepMain(c, s);
    forall j | 0 <= j < |c.order|
      ensures s'.writes[j] == (if Owned(c, j) then StoresMade(c, s', c.order[j]) else 0)
      ensures s'.evidence[j] == if s'.writes[j] > 0 then FetchId(c, c.order[j]) else ZERO_EVIDENCE
    {
      MadeByMain(c, s, c.order[j]);
    }
  }

  lemma CountedInit(c: Config)
    requires WellFormed(c)
    ensures StoresCounted(c, Init(c))
  {
    forall j | 0 <= j < |c.order| ensures StoresMade(c, Init(c), c.order[j]) == 0 {
      StoresMeaning(c.waves[0], Fresh(|c.waves[0]|), c.order[j]);
    }
  }

  lemma {:induction false} StoresCountedHolds(c: Config, trace: seq<State>)
    requires Execution(c, trace)
    ensures StoresCounted(c, Last(trace))
  {
    if |trace| == 1 {
      CountedInit(c);
    } else {
      var front := trace[..|trace| - 1];
      StoresCountedHolds(c, front);
      DataHolds(c, front);
      DataHolds(c, trace);
      var s, a := LastStep(c, trace);
      match a
      case Main => CountedMain(c, s);
      case Worker(t) => CountedWorker(c, s, t);
    }
  }

  lemma {:induction false} ConcatBound(waves: seq<seq<string>>, k: nat, id: string)
    requires k < |waves|
    ensures multiset(Concat(waves[..k]))[id] + multiset(waves[k])[id] <= multiset(Concat(waves))[id]
    ensures k == |waves| - 1 ==>
              multiset(Concat(waves[..k]))[id] + multiset(waves[k])[id] == multiset(Concat(waves))[id]
  {
    if k < |waves| - 1 {
      ConcatBound(waves[..|waves| - 1], k, id);
      assert waves[..|waves| - 1][..k] == waves[..k];
    }
  }

  /** A slot that owns its ID is stored to at most as often as the waves list that ID, and
      exactly so often by the end; the other slots never. What was stored is the lock's evidence. */
  lemma WritesCounted(c: Config, trace: seq<State>, j: nat)
    requires Execution(c, trace) && j < |c.order|
    ensures Typed(c, Last(trace))
    ensures var writes, listed := Last(trace).writes[j], multiset(Concat(c.waves))[c.order[j]];
            && (!Owned(c, j) ==> writes == 0)
            && (Owned(c, j) ==> writes <= listed && (Last(trace).main.Returned? ==> writes == listed))
            && Last(trace).evidence[j] == if writes > 0 then FetchId(c, c.order[j]) else ZERO_EVIDENCE
  {
    var s := Last(trace);
    StoresCountedHolds(c, trace);
    ControlHolds(c, trace);
    StoresMeaning(c.waves[s.wave], s.threads, c.order[j]);
    ConcatBound(c.waves, s.wave, c.order[j]);
  }

  // ---- Who writes ----

  lemma MainWritesNothing(c: Config, s: State)
    requires Typed(c, s) && Enabled(c, s, Main)
    ensures Typed(c, StepMain(c, s)) && StepMain(c, s).evidence == s.evidence && StepMain(c, s).writes == s.writes
  {
  }

  lemma WorkerWritesOwn(c: Config, s: State, t: nat, j: nat)
    requires Data(c, s) && Enabled(c, s, Worker(t)) && j < |c.order|
    ensures var s' := StepWorker(c, s, t);
            && Typed(c, s')
            && (s'.evidence[j] != s.evidence[j] || s'.writes[j] != s.writes[j] ==>
                && s.threads[t].Writing?
                && IdOf(c, s, t) == c.order[j]
                && s'.evidence[j] == FetchId(c, c.order[j])
                && s'.writes[j] == s.writes[j] + 1)
  {
    MoveKeepsShape(c, s, t);
    WorkerStore(c, s, t);
    OwnSlot(c, s, t, j);
  }

  /** A slot changes only in a step of the worker of its own lock, and to that lock's evidence. */
  lemma OnlyOwnerWrites(c: Config, trace: seq<State>, a: Actor, j: nat)
    requires Execution(c, trace) && j < |c.order|
    ensures Typed(c, Last(trace))
    ensures Enabled(c, Last(trace), a) ==>
              var s, s' := Last(trace), Step(c, Last(trace), a);
              && Typed(c, s')
              && (s'.evidence[j] != s.evidence[j] || s'.writes[j] != s.writes[j] ==>
                  && a.Worker? && a.t < |s.threads| && s.threads[a.t].Writing?
                  && IdOf(c, s, a.t) == c.order[j]
                  && s'.evidence[j] == FetchId(c, c.order[j])
                  && s'.writes[j] == s.writes[j] + 1)
  {
    DataHolds(c, trace);
    if Enabled(c, Last(trace), a) {
      match a
      case Main => MainWritesNothing(c, Last(trace));
      case Worker(t) => WorkerWritesOwn(c, Last(trace), t, j);
    }
  }

  // ---- Dependencies are written before a request ----

  /** Each dependency of a lock sits in an earlier wave. */
  ghost predicate Layered(c: Config) {
    forall w, t, d :: 0 <= w < |c.waves| && 0 <= t < |c.waves[w]| && d in Deps(c.locks, c.waves[w][t]) ==>
      exists v, u :: 0 <= v < w && 0 <= u < |c.waves[v]| && c.waves[v][u] == d
  }

  ghost predicate DependenciesInPlace(c: Config, s: State) {
    && Typed(c, s)
    && forall t, d :: 0 <= t < |s.threads| && !s.threads[t].Unspawned? && d in Deps(c.locks, c.waves[s.wave][t]) ==>
         SlotHolds(c, s.evidence, d)
  }

  /** Whatever the interleaving, a started worker finds the evidence of all its dependencies in place. */
  lemma DependenciesFirst(c: Config, trace: seq<State>)
    requires Execution(c, trace) && Layered(c)
    ensures DependenciesInPlace(c, Last(trace))
  {
    DataHolds(c, trace);
    var s := Last(trace);
    forall t, d | 0 <= t < |s.threads| && !s.threads[t].Unspawned? && d in Deps(c.locks, c.waves[s.wave][t])
      ensures SlotHolds(c, s.evidence, d)
    {
      var v, u :| 0 <= v < s.wave && 0 <= u < |c.waves[v]| && c.waves[v][u] == d;
      assert SlotHolds(c, s.evidence, c.waves[v][u]);
    }
  }
}

/** Both branches of `run`, their agreement, and what follows for `RunPair` and `ReplayPair`. */
module Runs {
  import opened Model
  import opened Sequences
  import opened Fetch
  import opened Evidence
  import opened Comparison
  import opened Layering
  import opened ParallelRun
  import opened ParallelControl
  import opened ParallelData
  import opened ParallelMeter
  import opened ParallelRequests
  import opened ParallelSaturation
  import opened Graph
  import Ordering

  // ---- The sequential branch ----

  function SequentialEvidence(source: Source, oracle: Oracle): (evidence: seq<LockEvidence>)
    ensures |evidence| == |source.canonicalOrder|
  {
    seq(|source.canonicalOrder|, i requires 0 <= i < |source.canonicalOrder| =>
      FetchEvidence(LockOf(LockMap(source.locks), source.canonicalOrder[i]), source.retry, oracle))
  }

  predicate FetchesAny(source: Source, n: nat)
    requires n <= |source.canonicalOrder|
  {
    exists i :: 0 <= i < n && !Reused(LockOf(LockMap(source.locks), source.canonicalOrder[i]))
  }

  function SequentialPeak(source: Source): int {
    if FetchesAny(source, |source.canonicalOrder|) then 1 else 0
  }

  /** One request at a time, if there is any. */
  lemma SequentialPeakMeaning(source: Source)
    ensures 0 <= SequentialPeak(source) <= 1
    ensures SequentialPeak(source) == 1 <==> exists id ::
              id in source.canonicalOrder && LockOf(LockMap(source.locks), id).behavior != "reused"
  {
    if id :| id in source.canonicalOrder && LockOf(LockMap(source.locks), id).behavior != "reused" {
      var i :| 0 <= i < |source.canonicalOrder| && source.canonicalOrder[i] == id;
      assert !Reused(LockOf(LockMap(source.locks), source.canonicalOrder[i]));
    }
  }

  /** One lock after the other, through one shared meter. */
  method RunSequential(source: Source, oracle: Oracle) returns (evidence: array<LockEvidence>, maxInFlight: int)
    ensures fresh(evidence)
    ensures evidence[..] == SequentialEvidence(source, oracle)
    ensures maxInFlight == SequentialPeak(source)
    ensures 0 <= maxInFlight <= 1
    ensures maxInFlight == 1 <==> exists id ::
              id in source.canonicalOrder && LockOf(LockMap(source.locks), id).behavior != "reused"
  {
    var order, locks := source.canonicalOrder, LockMap(source.locks);
    evidence := new LockEvidence[|order|](_ => ZERO_EVIDENCE);
    var meter := new InflightMeter();
    for index := 0 to |order|
      modifies evidence, meter
      invariant evidence[..index] == SequentialEvidence(source, oracle)[..index]
      invariant meter.current == 0
      invariant meter.peak == if FetchesAny(source, index) then 1 else 0
    {
      var slot := FetchLock(oracle, LockOf(locks, order[index]), source.retry, meter);
      evidence[index] := slot;
      assert evidence[..index + 1] == evidence[..index] + [slot];
    }
    maxInFlight := meter.peak;
    SequentialPeakMeaning(source);
  }

  // ---- The parallel branch ----

  /** Where each ID goes; of several occurrences the last one counts. */
  function IndexMap(order: seq<string>): (m: map<string, nat>)
  {
    if order == [] then map[] else IndexMap(order[..|order| - 1])[order[|order| - 1] := |order| - 1]
  }

  method BuildIndices(order: seq<string>) returns (indices: map<string, nat>)
    ensures indices == IndexMap(order)
  {
    indices := map[];
    for index := 0 to |order|
      invariant indices == IndexMap(order[..index])
    {
      assert order[..index + 1][..index] == order[..index];
      indices := indices[order[index] := index];
    }
    assert order[..|order|] == order;
  }

  lemma {:induction false} IndexMapMeaning(order: seq<string>, id: string)
    ensures id in IndexMap(order) <==> id in order
    ensures id in order ==> IndexMap(order)[id] < |order| && order[IndexMap(order)[id]] == id
    ensures id in order ==> forall k :: IndexMap(order)[id] < k < |order| ==> order[k] != id
  {
    if order != [] {
      IndexMapMeaning(order[..|order| - 1], id);
      assert order == order[..|order| - 1] + [order[|order| - 1]];
    }
  }

  ghost function ConfigOf(source: Source, oracle: Oracle, bound: nat): Config
    requires Waves(LockMap(source.locks), source.canonicalOrder).Some?
  {
    Config(source.canonicalOrder, Waves(LockMap(source.locks), source.canonicalOrder).value,
           IndexMap(source.canonicalOrder), LockMap(source.locks), source.retry, oracle, bound)
  }

  ghost predicate Schedulable(source: Source, bound: nat) {
    bound >= 1 && Waves(LockMap(source.locks), source.canonicalOrder).Some?
  }

  /** The layering's facts in the form the step system uses. */
  lemma WavesFacts(source: Source)
    requires Waves(LockMap(source.locks), source.canonicalOrder).Some?
    ensures var waves := Waves(LockMap(source.locks), source.canonicalOrder).value;
            && waves != []
            && (forall w, t :: 0 <= w < |waves| && 0 <= t < |waves[w]| ==> waves[w][t] in source.canonicalOrder)
            && (forall id :: id in source.canonicalOrder ==>
                exists w, t :: 0 <= w < |waves| && 0 <= t < |waves[w]| && waves[w][t] == id)
  {
    var order := source.canonicalOrder;
    LayersTight(LockMap(source.locks), order);
    var m := Layers(LockMap(source.locks), order).value;
    var waves := WavesOf(m, order);
    forall w, t | 0 <= w < |waves| && 0 <= t < |waves[w]| ensures waves[w][t] in order {
      WaveMembers(m, order, w, waves[w][t]);
    }
    forall id | id in order ensures exists w, t :: 0 <= w < |waves| && 0 <= t < |waves[w]| && waves[w][t] == id {
      PlacedInWave(m, order, id);
    }
  }

  lemma ConfigWellFormed(source: Source, oracle: Oracle, bound: nat)
    requires Schedulable(source, bound)
    ensures WellFormed(ConfigOf(source, oracle, bound)) && Covers(ConfigOf(source, oracle, bound))
  {
    var c := ConfigOf(source, oracle, bound);
    WavesFacts(source);
    forall w, t | 0 <= w < |c.waves| && 0 <= t < |c.waves[w]|
      ensures c.waves[w][t] in c.indices && c.indices[c.waves[w][t]] < |c.order| &&
              c.order[c.indices[c.waves[w][t]]] == c.waves[w][t]
    {
      IndexMapMeaning(c.order, c.waves[w][t]);
    }
    forall j | 0 <= j < |c.order|
      ensures exists w, t :: 0 <= w < |c.waves| && 0 <= t < |c.waves[w]| && c.waves[w][t] == c.order[j]
    {
      assert c.order[j] in c.order;
    }
  }

  lemma ConfigLayered(source: Source, oracle: Oracle, bound: nat)
    requires Schedulable(source, bound)
    ensures Layered(ConfigOf(source, oracle, bound))
  {
    var c := ConfigOf(source, oracle, bound);
    LayersTight(c.locks, c.order);
    var m := Layers(c.locks, c.order).value;
    forall w, t, d | 0 <= w < |c.waves| && 0 <= t < |c.waves[w]| && d in Deps(c.locks, c.waves[w][t])
      ensures exists v, u :: 0 <= v < w && 0 <= u < |c.waves[v]| && c.waves[v][u] == d
    {
      WaveMembers(m, c.order, w, c.waves[w][t]);
      WaveAfterMeaning(m, Deps(c.locks, c.waves[w][t]));
      PlacedInWave(m, c.order, d);
    }
  }

  /** The ID of slot `j` occurs again later: the parallel run stores it elsewhere. */
  ghost predicate Repeated(order: seq<string>, j: nat) {
    j < |order| && exists k :: j < k < |order| && order[k] == order[j]
  }

  lemma OwnedMeaning(source: Source, oracle: Oracle, bound: nat, j: nat)
    requires Schedulable(source, bound) && j < |source.canonicalOrder|
    ensures Owned(ConfigOf(source, oracle, bound), j) <==> !Repeated(source.canonicalOrder, j)
  {
    IndexMapMeaning(source.canonicalOrder, source.canonicalOrder[j]);
  }

  lemma ParallelIsSequential(source: Source, oracle: Oracle, bound: nat)
    requires Schedulable(source, bound)
    ensures ParallelEvidence(ConfigOf(source, oracle, bound)) == SequentialEvidence(source, oracle) <==>
            Distinct(source.canonicalOrder)
  {
    var c := ConfigOf(source, oracle, bound);
    var p, q := ParallelEvidence(c), SequentialEvidence(source, oracle);
    forall j | 0 <= j < |c.order| ensures p[j] == q[j] <==> Owned(c, j) {
      FetchKeepsInvariant(LockOf(c.locks, c.order[j]), c.retry, oracle);
      assert q[j].status != ZERO_EVIDENCE.status;
    }
    forall j | 0 <= j < |c.order| ensures Owned(c, j) <==> !Repeated(c.order, j) {
      OwnedMeaning(source, oracle, bound, j);
    }
    if Distinct(c.order) {
      assert p == q;
    } else {
      var j, k :| 0 <= j < k < |c.order| && c.order[j] == c.order[k];
      assert Repeated(c.order, j);
      assert !Owned(c, j);
    }
  }

  /** The central refinement: every complete interleaving of the parallel run, under any
      bound, ends with the evidence of the sequential loop, slot by slot. */
  lemma ParallelRefinesSequential(source: Source, oracle: Oracle, bound: nat, trace: seq<State>)
    requires Schedulable(source, bound) && Distinct(source.canonicalOrder)
    requires Complete(ConfigOf(source, oracle, bound), trace)
    ensures Last(trace).evidence == SequentialEvidence(source, oracle)
  {
    ConfigWellFormed(source, oracle, bound);
    Deterministic(ConfigOf(source, oracle, bound), trace);
    ParallelIsSequential(source, oracle, bound);
  }

  /** Exactly a canonical order without repeated IDs makes the two modes agree: with a
      repeated one, every complete interleaving differs, and there is one. */
  lemma RefinementCondition(source: Source, oracle: Oracle, bound: nat)
    requires Schedulable(source, bound)
    ensures exists trace :: Complete(ConfigOf(source, oracle, bound), trace)
    ensures (forall trace :: Complete(ConfigOf(source, oracle, bound), trace) ==>
               Last(trace).evidence == SequentialEvidence(source, oracle))
            <==> Distinct(source.canonicalOrder)
    ensures !Distinct(source.canonicalOrder) ==>
              forall trace :: Complete(ConfigOf(source, oracle, bound), trace) ==>
                Last(trace).evidence != SequentialEvidence(source, oracle)
  {
    ParallelIsSequential(source, oracle, bound);
    var full := SomeComplete(source, oracle, bound);
    forall trace | Complete(ConfigOf(source, oracle, bound), trace)
      ensures Last(trace).evidence == ParallelEvidence(ConfigOf(source, oracle, bound))
    {
      CompleteEvidence(source, oracle, bound, trace);
    }
  }

  lemma SomeComplete(source: Source, oracle: Oracle, bound: nat) returns (trace: seq<State>)
    requires Schedulable(source, bound)
    ensures Complete(ConfigOf(source, oracle, bound), trace)
  {
    var c := ConfigOf(source, oracle, bound);
    ConfigWellFormed(source, oracle, bound);
    assert Execution(c, [Init(c)]);
    trace := Completes(c, [Init(c)]);
  }

  /** No lock asks before its dependencies have answered: in every reachable state of a
      parallel run, the slots of a started lock's dependencies hold their evidence. */
  lemma DependenciesWritten(source: Source, oracle: Oracle, bound: nat, trace: seq<State>)
    requires Schedulable(source, bound) && Execution(ConfigOf(source, oracle, bound), trace)
    ensures DependenciesInPlace(ConfigOf(source, oracle, bound), Last(trace))
  {
    ConfigLayered(source, oracle, bound);
    DependenciesFirst(ConfigOf(source, oracle, bound), trace);
  }

  /** At most as many stores go to a slot as the order lists its ID, and exactly so many in
      the end; the earlier slots of a repeated ID get none. So with distinct IDs each slot is
      stored to once, and with repeated ones some slot is fought over. */
  lemma SlotWrites(source: Source, oracle: Oracle, bound: nat, trace: seq<State>, j: nat)
    requires Schedulable(source, bound) && j < |source.canonicalOrder|
    requires Execution(ConfigOf(source, oracle, bound), trace)
    ensures |Last(trace).writes| == |source.canonicalOrder|
    ensures var order, writes := source.canonicalOrder, Last(trace).writes[j];
            if Repeated(order, j) then writes == 0
            else && writes <= multiset(order)[order[j]]
                 && (Last(trace).main == Returned ==> writes == multiset(order)[order[j]])
    ensures Distinct(source.canonicalOrder) ==>
            Last(trace).writes[j] <= 1 && (Last(trace).main == Returned ==> Last(trace).writes[j] == 1)
  {
    var order := source.canonicalOrder;
    WavesPartition(LockMap(source.locks), order);
    OwnedMeaning(source, oracle, bound, j);
    WritesCounted(ConfigOf(source, oracle, bound), trace, j);
    DistinctMultiset(order);
    assert order[j] in multiset(order);
  }

  // ---- Run results ----

  datatype Mode = Sequential | BoundedParallel

  ghost predicate Starts(source: Source, mode: Mode, concurrency: int) {
    && 1 <= concurrency <= source.concurrencyBound
    && (mode == BoundedParallel ==> DependencyRespecting(LockMap(source.locks), source.canonicalOrder))
  }

  /** `run` up to its first request: the concurrency must be within the bound and, in
      parallel mode, the order must be a layering order. The sequential mode has no waves. */
  method StartRun(source: Source, mode: Mode, concurrency: int) returns (waves: Option<seq<seq<string>>>)
    ensures waves.Some? <==> Starts(source, mode, concurrency)
    ensures waves.Some? <==>
            && 1 <= concurrency <= source.concurrencyBound
            && (mode == Sequential || DependencyRespecting(LockMap(source.locks), source.canonicalOrder))
    ensures waves.Some? ==> waves == if mode == Sequential then Some([])
            else Waves(LockMap(source.locks), source.canonicalOrder)
  {
    if concurrency < 1 || concurrency > source.concurrencyBound {
      return None;
    }
    if mode == Sequential {
      return Some([]);
    }
    LayersAccept(LockMap(source.locks), source.canonicalOrder);
    waves := BuildWaves(source);
  }

  /** Each run of the pair fails only before its own first request, for reasons visible in
      the source; the baseline has then made all of its requests before the candidate is refused. */
  lemma RunPairStarts(source: Source)
    ensures Starts(source, Sequential, 1) && Starts(source, BoundedParallel, source.concurrencyBound) <==>
            source.concurrencyBound >= 1 && Waves(LockMap(source.locks), source.canonicalOrder).Some?
  {
    LayersAccept(LockMap(source.locks), source.canonicalOrder);
  }

  function SequentialResult(source: Source, oracle: Oracle, enc: Encoding, wallMs: int): RunResult {
    Report(enc, SequentialEvidence(source, oracle), wallMs, SequentialPeak(source))
  }

  /** The baseline reports what its loop gathered, and one request at a time if there is any. */
  lemma BaselineMeaning(source: Source, oracle: Oracle, enc: Encoding, wallMs: int)
    ensures var result := SequentialResult(source, oracle, enc, wallMs);
            && result.evidence == SequentialEvidence(source, oracle)
            && result.metrics.wallMs == wallMs
            && 0 <= result.metrics.maxInFlight <= 1
            && (result.metrics.maxInFlight == 1 <==>
                exists id :: id in source.canonicalOrder && LockOf(LockMap(source.locks), id).behavior != "reused")
  {
    SequentialPeakMeaning(source);
  }

  /** Each slot names the lock it is listed under; an ID that is not declared is asked for
      under the empty ID and coordinate. */
  lemma SlotNames(source: Source, oracle: Oracle, j: nat)
    requires j < |source.canonicalOrder|
    ensures var id, e := source.canonicalOrder[j], SequentialEvidence(source, oracle)[j];
            if id in Ids(source.locks) then
              && e.lockId == id
              && exists lock :: lock in source.locks && lock.id == id && e.coordinate == lock.coordinate
            else
              e.lockId == "" && e.coordinate == "" && !e.reused
  {
    var id := source.canonicalOrder[j];
    KeysAreIds(source.locks);
    FetchKeepsInvariant(LockOf(LockMap(source.locks), id), source.retry, oracle);
    if id in Ids(source.locks) { var k := LockMapSource(source.locks, id); }
  }

  method RunBaseline(source: Source, oracle: Oracle, enc: Encoding, wallMs: int) returns (result: RunResult)
    ensures result == SequentialResult(source, oracle, enc, wallMs)
    ensures Balanced(|source.canonicalOrder|, MaxAttempts(source.retry), result.metrics)
    ensures FinalVerdict(result.evidence) == VerdictOfCounters(result.metrics)
  {
    var evidence, maxInFlight := RunSequential(source, oracle);
    result := FinishRun(enc, evidence[..], wallMs, maxInFlight);
    SequentialConservation(source, oracle, enc, wallMs);
  }

  /** What a parallel run reports after one complete interleaving. */
  ghost function ParallelResult(enc: Encoding, trace: seq<State>, wallMs: int): RunResult
    requires trace != []
  {
    Report(enc, Last(trace).evidence, wallMs, Last(trace).peak)
  }

  lemma CompleteEvidence(source: Source, oracle: Oracle, bound: nat, trace: seq<State>)
    requires Schedulable(source, bound) && Complete(ConfigOf(source, oracle, bound), trace)
    ensures Last(trace).evidence == ParallelEvidence(ConfigOf(source, oracle, bound))
  {
    ConfigWellFormed(source, oracle, bound);
    Deterministic(ConfigOf(source, oracle, bound), trace);
  }

  /** The reported maximum in flight is what really was the maximum, and is bounded by the
      concurrency and by the widest wave of really fetched locks. */
  lemma ReportedMaximum(source: Source, oracle: Oracle, bound: nat, enc: Encoding, trace: seq<State>, wallMs: int)
    requires Schedulable(source, bound) && Complete(ConfigOf(source, oracle, bound), trace)
    ensures var c, high := ConfigOf(source, oracle, bound), ParallelResult(enc, trace, wallMs).metrics.maxInFlight;
            high == MaxCurrent(trace) && high <= bound && high <= WidestFetch(c, |c.waves|)
  {
    PeakIsMaximum(ConfigOf(source, oracle, bound), trace);
    MaxInFlightBounded(ConfigOf(source, oracle, bound), trace);
  }

  /** Neither bound on the reported maximum can be lowered: some interleaving attains their minimum. */
  lemma ReportedMaximumAttained(source: Source, oracle: Oracle, bound: nat, enc: Encoding, wallMs: int)
    returns (trace: seq<State>)
    requires Schedulable(source, bound)
    ensures Complete(ConfigOf(source, oracle, bound), trace)
    ensures var c := ConfigOf(source, oracle, bound);
            ParallelResult(enc, trace, wallMs).metrics.maxInFlight == Min(bound, WidestFetch(c, |c.waves|))
  {
    ConfigWellFormed(source, oracle, bound);
    trace := Saturated(ConfigOf(source, oracle, bound));
  }

  /** `RunPair`: whatever the interleaving, the pair is refuted exactly when the canonical
      order repeats an ID; otherwise it is CLOSED exactly when the candidate was faster. */
  lemma RunPairVerdict(source: Source, oracle: Oracle, bound: nat, enc: Encoding, trace: seq<State>, wallB: int,
                       wallC: int)
    requires Schedulable(source, bound) && Complete(ConfigOf(source, oracle, bound), trace)
    ensures PairVerdict(enc, SequentialResult(source, oracle, enc, wallB), ParallelResult(enc, trace, wallC)) ==
            if !Distinct(source.canonicalOrder) then REFUTED else if wallC < wallB then CLOSED else UNKNOWN
  {
    CompleteEvidence(source, oracle, bound, trace);
    ParallelIsSequential(source, oracle, bound);
    if !Distinct(source.canonicalOrder) {
      UnownedStatus(source, oracle, bound);
    }
  }

  /** A repeated ID leaves a slot whose status no fetched evidence has. */
  lemma UnownedStatus(source: Source, oracle: Oracle, bound: nat)
    requires Schedulable(source, bound) && !Distinct(source.canonicalOrder)
    ensures !SameStatus(SequentialEvidence(source, oracle), ParallelEvidence(ConfigOf(source, oracle, bound)))
  {
    var order := source.canonicalOrder;
    var j, k :| 0 <= j < k < |order| && order[j] == order[k];
    SlotDifference(source, oracle, bound, j);
  }

  /** The two modes differ in a slot exactly when its ID occurs again later, and then in the status. */
  lemma SlotDifference(source: Source, oracle: Oracle, bound: nat, j: nat)
    requires Schedulable(source, bound) && j < |source.canonicalOrder|
    ensures var b, p := SequentialEvidence(source, oracle)[j], ParallelEvidence(ConfigOf(source, oracle, bound))[j];
            if Repeated(source.canonicalOrder, j)
            then Differs(b, p) && b.status != ""
                 && Difference(b, p) == Counterexample("PER_LOCK_STATUS_DIFFERENCE", "status", b.status, "")
            else !Differs(b, p)
  {
    OwnedMeaning(source, oracle, bound, j);
    FetchKeepsInvariant(LockOf(LockMap(source.locks), source.canonicalOrder[j]), source.retry, oracle);
  }

  /** `j` is the first slot whose ID occurs again later. */
  ghost predicate FirstRepeated(order: seq<string>, j: nat) {
    Repeated(order, j) && forall i :: 0 <= i < j ==> !Repeated(order, i)
  }

  lemma FirstRepeatedFrom(order: seq<string>, j: nat) returns (first: nat)
    requires Repeated(order, j)
    ensures FirstRepeated(order, first)
  {
    if i: nat :| i < j && Repeated(order, i) {
      first := FirstRepeatedFrom(order, i);
    } else {
      first := j;
    }
  }

  lemma FirstRepeatedDiffers(source: Source, oracle: Oracle, bound: nat, j: nat)
    requires Schedulable(source, bound) && FirstRepeated(source.canonicalOrder, j)
    ensures var b, p := SequentialEvidence(source, oracle), ParallelEvidence(ConfigOf(source, oracle, bound));
            b[j].status != "" && FirstDifference(b, p) ==
              Some(Counterexample("PER_LOCK_STATUS_DIFFERENCE", "status", b[j].status, ""))
  {
    var b, p := SequentialEvidence(source, oracle), ParallelEvidence(ConfigOf(source, oracle, bound));
    forall i | 0 <= i < j ensures !Differs(b[i], p[i]) {
      assert !Repeated(source.canonicalOrder, i);
      SlotDifference(source, oracle, bound, i);
    }
    SlotDifference(source, oracle, bound, j);
    FirstDifferenceUnique(b, p, Some(Difference(b[j], p[j])));
  }

  /** The status fetched for the first repeated ID against the empty slot. */
  ghost predicate ShowsEmptySlot(order: seq<string>, fetched: seq<LockEvidence>, c: Option<Counterexample>)
    requires |fetched| == |order|
  {
    exists j: nat :: FirstRepeated(order, j) && fetched[j].status != ""
      && c == Some(Counterexample("PER_LOCK_STATUS_DIFFERENCE", "status", fetched[j].status, ""))
  }

  lemma EmptySlotShown(source: Source, oracle: Oracle, bound: nat, enc: Encoding, b: RunResult, c: RunResult)
    requires Schedulable(source, bound) && !Distinct(source.canonicalOrder)
    requires b.evidence == SequentialEvidence(source, oracle) &&
             c.evidence == ParallelEvidence(ConfigOf(source, oracle, bound))
    ensures ShowsEmptySlot(source.canonicalOrder, b.evidence, PairCounterexample(enc, b, c))
  {
    UnownedStatus(source, oracle, bound);
    var i, k :| 0 <= i < k < |source.canonicalOrder| && source.canonicalOrder[i] == source.canonicalOrder[k];
    assert Repeated(source.canonicalOrder, i);
    var j := FirstRepeatedFrom(source.canonicalOrder, i);
    FirstRepeatedDiffers(source, oracle, bound, j);
  }

  /** Every refutation that `RunPair` can produce is genuine, whatever the interleaving. */
  lemma RunPairRefutation(source: Source, oracle: Oracle, bound: nat, enc: Encoding, trace: seq<State>, wallB: int,
                          wallC: int)
    requires Schedulable(source, bound) && Complete(ConfigOf(source, oracle, bound), trace)
    ensures var b, c := SequentialResult(source, oracle, enc, wallB), ParallelResult(enc, trace, wallC);
            PairVerdict(enc, b, c) == REFUTED ==>
              && ShowsEmptySlot(source.canonicalOrder, b.evidence, PairCounterexample(enc, b, c))
              && PairCounterexample(enc, b, c).value.expected != PairCounterexample(enc, b, c).value.observed
  {
    var b, c := SequentialResult(source, oracle, enc, wallB), ParallelResult(enc, trace, wallC);
    RunPairVerdict(source, oracle, bound, enc, trace, wallB, wallC);
    CompleteEvidence(source, oracle, bound, trace);
    if !Distinct(source.canonicalOrder) {
      EmptySlotShown(source, oracle, bound, enc, b, c);
    }
  }

  datatype ReplayReceipt = ReplayReceipt(firstRoot: string, secondRoot: string, deterministic: bool, decision: string,
                                         reason: string)

  function ReceiptOf(first: RunResult, second: RunResult): ReplayReceipt {
    if first.semanticRoot == second.semanticRoot then
      ReplayReceipt(first.semanticRoot, second.semanticRoot, true, CLOSED, "CANONICAL_EVIDENCE_REPLAY_EXACT")
    else
      ReplayReceipt(first.semanticRoot, second.semanticRoot, false, UNKNOWN, "REPLAY_ROOT_MISMATCH")
  }

  method Replay(first: RunResult, second: RunResult) returns (receipt: ReplayReceipt)
    ensures receipt == ReceiptOf(first, second)
  {
    var deterministic := first.semanticRoot == second.semanticRoot;
    var decision, reason := UNKNOWN, "REPLAY_ROOT_MISMATCH";
    if deterministic {
      decision, reason := CLOSED, "CANONICAL_EVIDENCE_REPLAY_EXACT";
    }
    return ReplayReceipt(first.semanticRoot, second.semanticRoot, deterministic, decision, reason);
  }

  /** The receipt compares the roots of any two results, and decides by that alone; with an
      injective digest it thereby tells whether both hold the same evidence under each lock ID. */
  lemma ReceiptMeaning(first: RunResult, second: RunResult)
    ensures var receipt := ReceiptOf(first, second);
            && (receipt.deterministic <==> first.semanticRoot == second.semanticRoot)
            && receipt.firstRoot == first.semanticRoot && receipt.secondRoot == second.semanticRoot
            && (receipt.decision == if receipt.deterministic then "CLOSED" else "UNKNOWN")
            && (receipt.reason ==
                if receipt.deterministic then "CANONICAL_EVIDENCE_REPLAY_EXACT" else "REPLAY_ROOT_MISMATCH")
  {
  }

  lemma ReceiptIdentifiesEvidence(enc: Encoding, s: seq<LockEvidence>, t: seq<LockEvidence>,
                                  wallS: int, peakS: int, wallT: int, peakT: int)
    requires Injective(enc.root)
    ensures ReceiptOf(Report(enc, s, wallS, peakS), Report(enc, t, wallT, peakT)).deterministic <==>
            forall id :: WithId(s, id) == WithId(t, id)
  {
    RootIdentifiesEvidence(enc, s, t, wallS, peakS);
    assert Report(enc, t, wallT, peakT).semanticRoot == Report(enc, t, wallS, peakS).semanticRoot;
  }

  /** `ReplayPair`: any two complete interleavings report the same evidence, and the receipt
      is deterministic and CLOSED, repeated IDs or not, even under different bounds. */
  lemma ReplayDeterministic(source: Source, oracle: Oracle, enc: Encoding, boundA: nat, a: seq<State>, boundB: nat,
                            b: seq<State>, wallA: int, wallB: int)
    requires Schedulable(source, boundA) && Complete(ConfigOf(source, oracle, boundA), a)
    requires Schedulable(source, boundB) && Complete(ConfigOf(source, oracle, boundB), b)
    ensures ParallelResult(enc, a, wallA).evidence == ParallelResult(enc, b, wallB).evidence
    ensures var receipt := ReceiptOf(ParallelResult(enc, a, wallA), ParallelResult(enc, b, wallB));
            receipt.deterministic && receipt.decision == CLOSED && receipt.firstRoot == receipt.secondRoot
  {
    CompleteEvidence(source, oracle, boundA, a);
    CompleteEvidence(source, oracle, boundB, b);
    var p, q := ParallelEvidence(ConfigOf(source, oracle, boundA)), ParallelEvidence(ConfigOf(source, oracle, boundB));
    forall j | 0 <= j < |source.canonicalOrder| ensures p[j] == q[j] {
      OwnedMeaning(source, oracle, boundA, j);
      OwnedMeaning(source, oracle, boundB, j);
    }
    assert p == q;
  }

  // ---- Invariants lifted to whole runs ----

  lemma SequentialInvariant(source: Source, oracle: Oracle)
    ensures forall j :: 0 <= j < |source.canonicalOrder| ==>
              EvidenceInvariant(LockOf(LockMap(source.locks), source.canonicalOrder[j]), source.retry,
                                SequentialEvidence(source, oracle)[j])
    ensures forall e :: e in SequentialEvidence(source, oracle) ==> Fetched(e, source.retry)
  {
    var evidence := SequentialEvidence(source, oracle);
    forall j | 0 <= j < |source.canonicalOrder|
      ensures EvidenceInvariant(LockOf(LockMap(source.locks), source.canonicalOrder[j]), source.retry, evidence[j])
    {
      FetchKeepsInvariant(LockOf(LockMap(source.locks), source.canonicalOrder[j]), source.retry, oracle);
    }
  }

  /** In every complete interleaving each slot satisfies the evidence invariant of its own
      lock, except that the earlier slots of a repeated ID stay as they were made. */
  lemma ParallelInvariant(source: Source, oracle: Oracle, bound: nat, trace: seq<State>, j: nat)
    requires Schedulable(source, bound) && Complete(ConfigOf(source, oracle, bound), trace)
    requires j < |source.canonicalOrder|
    ensures |Last(trace).evidence| == |source.canonicalOrder|
    ensures var order, slot := source.canonicalOrder, Last(trace).evidence[j];
            if Repeated(order, j) then slot == LockEvidence("", "", "", None, 0, 0, false, None, None)
            else EvidenceInvariant(LockOf(LockMap(source.locks), order[j]), source.retry, slot)
  {
    CompleteEvidence(source, oracle, bound, trace);
    OwnedMeaning(source, oracle, bound, j);
    FetchKeepsInvariant(LockOf(LockMap(source.locks), source.canonicalOrder[j]), source.retry, oracle);
  }

  /** The metrics of a sequential run count every listed lock once, keep the requests within
      the retry policy, and agree with the final verdict; repeated IDs count repeatedly. */
  lemma SequentialConservation(source: Source, oracle: Oracle, enc: Encoding, wallMs: int)
    ensures Balanced(|source.canonicalOrder|, MaxAttempts(source.retry),
                     SequentialResult(source, oracle, enc, wallMs).metrics)
    ensures FinalVerdict(SequentialEvidence(source, oracle)) ==
            VerdictOfCounters(SequentialResult(source, oracle, enc, wallMs).metrics)
  {
    var evidence, peak := SequentialEvidence(source, oracle), SequentialPeak(source);
    SequentialInvariant(source, oracle);
    Conservation(evidence, source.retry, wallMs, peak);
    AllStored(evidence, source.retry);
    VerdictAgreesWithMetrics(evidence, source.retry, wallMs, peak);
  }

  /** In every complete interleaving the counters add up to the number of different IDs, which
      is the number of slots exactly when none repeats; requests stay within the retry policy;
      and the counters give the final verdict, unless an empty slot has taken it over. */
  lemma ParallelConservation(source: Source, oracle: Oracle, bound: nat, enc: Encoding, trace: seq<State>, wallMs: int)
    requires Schedulable(source, bound) && Complete(ConfigOf(source, oracle, bound), trace)
    ensures Balanced(|Elements(source.canonicalOrder)|, MaxAttempts(source.retry),
                     ParallelResult(enc, trace, wallMs).metrics)
    ensures |Elements(source.canonicalOrder)| == |source.canonicalOrder| <==> Distinct(source.canonicalOrder)
    ensures FinalVerdict(Last(trace).evidence) ==
            if Distinct(source.canonicalOrder)
            then VerdictOfCounters(ParallelResult(enc, trace, wallMs).metrics) else ""
  {
    var order, evidence := source.canonicalOrder, Last(trace).evidence;
    ParallelSlots(source, oracle, bound, trace);
    Conservation(evidence, source.retry, wallMs, Last(trace).peak);
    CountLastOccurrences(order, evidence, IsStored);
    ElementsBound(order);
    if Distinct(order) {
      DistinctSize(order);
      ParallelRefinesSequential(source, oracle, bound, trace);
      SequentialInvariant(source, oracle);
      VerdictAgreesWithMetrics(evidence, source.retry, wallMs, Last(trace).peak);
    } else {
      var j, k :| 0 <= j < k < |order| && order[j] == order[k];
      assert evidence[j] == ZERO_EVIDENCE;
      EmptySlotVerdict(evidence, source.retry);
    }
  }

  /** Every complete interleaving sends exactly as many requests as the sequential loop. It
      reports no more than it sent, and exactly so many if and only if every repeated ID is
      that of a reused lock: the requests of overwritten slots are lost from the metric. */
  lemma RequestsIssued(source: Source, oracle: Oracle, bound: nat, enc: Encoding, trace: seq<State>, wallB: int,
                       wallC: int)
    requires Schedulable(source, bound) && Complete(ConfigOf(source, oracle, bound), trace)
    ensures Last(trace).issued == SequentialResult(source, oracle, enc, wallB).metrics.requests
    ensures ParallelResult(enc, trace, wallC).metrics.requests <= Last(trace).issued
    ensures ParallelResult(enc, trace, wallC).metrics.requests == Last(trace).issued <==>
            forall j :: 0 <= j < |source.canonicalOrder| && Repeated(source.canonicalOrder, j) ==>
              Reused(LockOf(LockMap(source.locks), source.canonicalOrder[j]))
  {
    var c := ConfigOf(source, oracle, bound);
    RequestsSent(c, trace);
    WavesPartition(c.locks, c.order);
    RecordedPermutes(c, Concat(c.waves), c.order);
    RecordedBound(c, c.order, SequentialEvidence(source, oracle));
    CompleteEvidence(source, oracle, bound, trace);
    ReportedRequests(source, oracle, bound);
  }

  lemma ReportedRequests(source: Source, oracle: Oracle, bound: nat)
    requires Schedulable(source, bound)
    ensures var c := ConfigOf(source, oracle, bound);
            && Total(ParallelEvidence(c), RequestsOf) <= Recorded(c, c.order)
            && (Total(ParallelEvidence(c), RequestsOf) == Recorded(c, c.order) <==>
                forall j :: 0 <= j < |c.order| && Repeated(c.order, j) ==> Reused(LockOf(c.locks, c.order[j])))
  {
    var c := ConfigOf(source, oracle, bound);
    forall j | 0 <= j < |c.order|
      ensures ParallelEvidence(c)[j].requestCount <= RequestsFor(c, c.order[j])
      ensures ParallelEvidence(c)[j].requestCount == RequestsFor(c, c.order[j]) <==>
              (Repeated(c.order, j) ==> Reused(LockOf(c.locks, c.order[j])))
    {
      SlotRequests(source, oracle, bound, j);
    }
    RecordedBound(c, c.order, ParallelEvidence(c));
  }

  lemma SlotRequests(source: Source, oracle: Oracle, bound: nat, j: nat)
    requires Schedulable(source, bound) && j < |source.canonicalOrder|
    ensures var c := ConfigOf(source, oracle, bound);
            && ParallelEvidence(c)[j].requestCount <= RequestsFor(c, c.order[j])
            && (ParallelEvidence(c)[j].requestCount == RequestsFor(c, c.order[j]) <==>
                (Repeated(c.order, j) ==> Reused(LockOf(c.locks, c.order[j]))))
  {
    OwnedMeaning(source, oracle, bound, j);
    FetchKeepsInvariant(LockOf(LockMap(source.locks), source.canonicalOrder[j]), source.retry, oracle);
  }

  lemma ParallelSlots(source: Source, oracle: Oracle, bound: nat, trace: seq<State>)
    requires Schedulable(source, bound) && Complete(ConfigOf(source, oracle, bound), trace)
    ensures |Last(trace).evidence| == |source.canonicalOrder|
    ensures forall e :: e in Last(trace).evidence ==> Fetched(e, source.retry) || e == ZERO_EVIDENCE
    ensures forall j :: 0 <= j < |source.canonicalOrder| ==>
              (IsStored(Last(trace).evidence[j]) <==>
               forall k :: j < k < |source.canonicalOrder| ==> source.canonicalOrder[k] != source.canonicalOrder[j])
    ensures forall j :: 0 <= j < |source.canonicalOrder| && !IsStored(Last(trace).evidence[j]) ==>
            Last(trace).evidence[j] == ZERO_EVIDENCE
  {
    CompleteEvidence(source, oracle, bound, trace);
    forall j | 0 <= j < |source.canonicalOrder|
      ensures var e := Last(trace).evidence[j];
              && (Fetched(e, source.retry) || e == ZERO_EVIDENCE)
              && (IsStored(e) <==> forall k :: j < k < |source.canonicalOrder| ==>
                  source.canonicalOrder[k] != source.canonicalOrder[j])
              && (!IsStored(e) ==> e == ZERO_EVIDENCE)
    {
      ParallelInvariant(source, oracle, bound, trace, j);
    }
  }

  /** With a sorted order of declared IDs, run output already is its own canonical form. */
  lemma SortedRunIsCanonical(source: Source, oracle: Oracle)
    requires Ordering.Sorted(source.canonicalOrder)
    requires forall id :: id in source.canonicalOrder ==> id in LockMap(source.locks)
    ensures StableSort(SequentialEvidence(source, oracle)) == SequentialEvidence(source, oracle)
    ensures LockIds(SequentialEvidence(source, oracle)) == source.canonicalOrder
  {
    var evidence := SequentialEvidence(source, oracle);
    SequentialInvariant(source, oracle);
    forall j | 0 <= j < |evidence| ensures evidence[j].lockId == source.canonicalOrder[j] {
      assert source.canonicalOrder[j] in source.canonicalOrder;
      assert LockMap(source.locks)[source.canonicalOrder[j]].id == source.canonicalOrder[j];
    }
    StableSortIdentity(evidence);
  }
}

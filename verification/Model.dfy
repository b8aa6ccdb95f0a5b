/** The values of internal/scheduler/model.go that the scheduler computes with. */
module Model {
  import opened Declarations

  datatype Option<+T> = None | Some(value: T)

  const CLOSED := "CLOSED"
  const UNKNOWN := "UNKNOWN"
  const REFUTED := "REFUTED"

  datatype Lock = Lock(id: string, coordinate: string, digest: string, dependencies: seq<string>,
                       behavior: string, latencyMs: int)

  /** A Go map yields the zero value for a missing key. */
  const ZERO_LOCK := Lock("", "", "", [], "", 0)

  datatype RetryPolicy = RetryPolicy(maxAttempts: int, retryableStatuses: seq<int>)

  datatype Source = Source(concurrencyBound: int, retry: RetryPolicy, canonicalOrder: seq<string>, locks: seq<Lock>)

  datatype Unknown = Unknown(stage: string, step: string, reason: string, unknownClass: string,
                             nextOperation: string, blockedBy: seq<string>)
  {
    predicate Complete() {
      && stage != "" && step != "" && reason != "" && unknownClass != ""
      && nextOperation != "" && |blockedBy| > 0
    }
  }

  datatype Counterexample = Counterexample(kind: string, field: string, expected: string, observed: string)

  datatype LockEvidence = LockEvidence(
    lockId: string, coordinate: string, status: string, digest: Option<string>,
    attempts: int, requestCount: int, reused: bool,
    unknown: Option<Unknown>, counterexample: Option<Counterexample>)

  /** What a freshly made evidence slice holds in every slot. */
  const ZERO_EVIDENCE := LockEvidence("", "", "", None, 0, 0, false, None, None)

  datatype Metrics = Metrics(wallMs: int, requests: int, maxInFlight: int,
                             completed: int, reused: int, unknown: int, refuted: int)

  datatype ScheduleItem = ScheduleItem(ordinal: int, lockId: string, dependencies: seq<string>, wave: int)

  datatype RunResult = RunResult(evidence: seq<LockEvidence>, metrics: Metrics, semanticRoot: string)

  datatype PairComparison = PairComparison(
    baseline: Metrics, candidate: Metrics,
    baselineFinalVerdict: string, candidateFinalVerdict: string, finalVerdictExact: bool,
    verdict: string, reason: string,
    perLockStatusExact: bool, digestExact: bool, unknownFieldsExact: bool, counterexamplesExact: bool,
    finalSemanticRootExact: bool, allCriticalFieldsExact: bool, wallReductionActual: bool,
    baselineSemanticRoot: string, candidateSemanticRoot: string,
    counterexample: Option<Counterexample>, unknown: Option<Unknown>)

  function Precedence(status: string): int {
    if status == REFUTED then 3
    else if status == UNKNOWN then 2
    else if status == CLOSED then 1
    else 4
  }

  function LockId(lock: Lock): string { lock.id }

  /** The map that `lockMap` fills: the last lock declared under an ID wins. */
  function LockMap(locks: seq<Lock>): (m: map<string, Lock>)
    ensures forall id {:trigger m[id]} :: id in m ==> m[id].id == id
  {
    ByNameKeyed(locks, LockId);
    ByName(locks, LockId)
  }

  function LockOf(locks: map<string, Lock>, id: string): Lock {
    if id in locks then locks[id] else ZERO_LOCK
  }

  function Deps(locks: map<string, Lock>, id: string): seq<string> {
    LockOf(locks, id).dependencies
  }

  function Ids(locks: seq<Lock>): (ids: seq<string>)
    ensures |ids| == |locks| && forall i :: 0 <= i < |locks| ==> ids[i] == locks[i].id
  {
    Names(locks, LockId)
  }
}

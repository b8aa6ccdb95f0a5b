/** `ComparePair`: is the candidate's evidence the baseline's, and is it faster? */
module Comparison {
  import opened Model
  import opened Sequences
  import opened Ordering
  import opened Fetch
  import opened Evidence

  /** The JSON encodings that are compared, and the digest of the canonical evidence. */
  datatype Encoding = Encoding(unknown: Option<Unknown> -> string,
                               counterexample: Option<Counterexample> -> string,
                               root: seq<LockEvidence> -> string)

  ghost predicate Injective<S(!new), T>(f: S -> T) {
    forall x, y :: f(x) == f(y) ==> x == y
  }

  function PointerValue(value: Option<string>): string {
    match value
    case None => "<null>"
    case Some(v) => v
  }

  function EqualStringPointer(left: Option<string>, right: Option<string>): bool {
    PointerValue(left) == PointerValue(right)
  }

  /** The one confusion: a missing digest against the digest `<null>`. */
  lemma PointerMeaning(left: Option<string>, right: Option<string>)
    ensures EqualStringPointer(left, right) <==>
            left == right || (left == None && right == Some("<null>")) || (left == Some("<null>") && right == None)
  {
  }

  /** `run` ends by summarizing its evidence and rooting the canonical form of it. */
  function Report(enc: Encoding, evidence: seq<LockEvidence>, wallMs: int, maxInFlight: int): RunResult {
    RunResult(evidence, MetricsOf(evidence, wallMs, maxInFlight), enc.root(StableSort(evidence)))
  }

  method FinishRun(enc: Encoding, evidence: seq<LockEvidence>, wallMs: int, maxInFlight: int)
    returns (result: RunResult)
    ensures result == Report(enc, evidence, wallMs, maxInFlight)
  {
    var metrics := SummarizeMetrics(evidence, wallMs, maxInFlight);
    return RunResult(evidence, metrics, enc.root(StableSort(evidence)));
  }

  /** What a report tells: equal roots mean the same evidence under each lock ID, hence the
      same metrics and, unless foreign statuses compete, the same final verdict; where no run names a lock
      twice, they mean the same evidence in whatever order it was gathered. */
  lemma RootIdentifiesEvidence(enc: Encoding, s: seq<LockEvidence>, t: seq<LockEvidence>, wallMs: int, maxInFlight: int)
    requires Injective(enc.root)
    ensures var a, b := Report(enc, s, wallMs, maxInFlight), Report(enc, t, wallMs, maxInFlight);
            && (a.semanticRoot == b.semanticRoot <==> forall id :: WithId(s, id) == WithId(t, id))
            && (a.semanticRoot == b.semanticRoot ==> a.metrics == b.metrics)
            && (a.semanticRoot == b.semanticRoot && OneForeignStatus(s) ==> FinalVerdict(s) == FinalVerdict(t))
            && (Distinct(LockIds(s)) && Distinct(LockIds(t)) ==>
                (a.semanticRoot == b.semanticRoot <==> multiset(s) == multiset(t)))
  {
    CanonicalMeaning(s, t);
    if StableSort(s) == StableSort(t) {
      MetricsArrangement(s, t, wallMs, maxInFlight);
      if OneForeignStatus(s) { VerdictArrangement(s, t); }
    }
  }

  lemma CanonicalMeaning(s: seq<LockEvidence>, t: seq<LockEvidence>)
    ensures StableSort(s) == StableSort(t) <==> forall id :: WithId(s, id) == WithId(t, id)
    ensures StableSort(s) == StableSort(t) ==> multiset(s) == multiset(t)
    ensures Distinct(LockIds(s)) && Distinct(LockIds(t)) && multiset(s) == multiset(t) ==>
            StableSort(s) == StableSort(t)
  {
    StableSortKeeps(s);
    StableSortKeeps(t);
    if StableSort(s) == StableSort(t) {
      forall id ensures WithId(s, id) == WithId(t, id) {
        assert WithId(StableSort(s), id) == WithId(s, id) && WithId(StableSort(t), id) == WithId(t, id);
      }
    }
    if forall id :: WithId(s, id) == WithId(t, id) {
      StableSortUnique(t, StableSort(s));
    }
    if Distinct(LockIds(s)) && Distinct(LockIds(t)) && multiset(s) == multiset(t) {
      ArrangementIrrelevant(s, t);
    }
  }

  /** A report roots the one arrangement of its evidence that is ordered by lock ID and keeps
      the entries of each lock in their order. */
  lemma RootMeaning(enc: Encoding, evidence: seq<LockEvidence>, wallMs: int, maxInFlight: int,
                    canonical: seq<LockEvidence>)
    requires forall i, j :: 0 <= i < j < |canonical| ==> Leq(canonical[i].lockId, canonical[j].lockId)
    requires forall id :: WithId(canonical, id) == WithId(evidence, id)
    ensures Report(enc, evidence, wallMs, maxInFlight).semanticRoot == enc.root(canonical)
  {
    StableSortUnique(evidence, canonical);
  }

  // ---- compareEvidence ----

  ghost predicate SameStatus(l: seq<LockEvidence>, r: seq<LockEvidence>) {
    |l| == |r| && forall i :: 0 <= i < |l| ==> l[i].lockId == r[i].lockId && l[i].status == r[i].status
  }

  ghost predicate SameDigest(l: seq<LockEvidence>, r: seq<LockEvidence>) {
    |l| == |r| && forall i :: 0 <= i < |l| ==> EqualStringPointer(l[i].digest, r[i].digest)
  }

  ghost predicate SameUnknown(enc: Encoding, l: seq<LockEvidence>, r: seq<LockEvidence>) {
    |l| == |r| && forall i :: 0 <= i < |l| ==> enc.unknown(l[i].unknown) == enc.unknown(r[i].unknown)
  }

  ghost predicate SameCounterexample(enc: Encoding, l: seq<LockEvidence>, r: seq<LockEvidence>) {
    |l| == |r| && forall i :: 0 <= i < |l| ==>
      enc.counterexample(l[i].counterexample) == enc.counterexample(r[i].counterexample)
  }

  method CompareEvidence(enc: Encoding, left: seq<LockEvidence>, right: seq<LockEvidence>)
    returns (statusExact: bool, digestExact: bool, unknownExact: bool, counterexampleExact: bool)
    ensures statusExact <==> SameStatus(left, right)
    ensures digestExact <==> SameDigest(left, right)
    ensures unknownExact <==> SameUnknown(enc, left, right)
    ensures counterexampleExact <==> SameCounterexample(enc, left, right)
  {
    if |left| != |right| {
      return false, false, false, false;
    }
    statusExact, digestExact, unknownExact, counterexampleExact := true, true, true, true;
    for index := 0 to |left|
      invariant statusExact <==> forall i :: 0 <= i < index ==>
                left[i].lockId == right[i].lockId && left[i].status == right[i].status
      invariant digestExact <==> forall i :: 0 <= i < index ==> EqualStringPointer(left[i].digest, right[i].digest)
      invariant unknownExact <==> forall i :: 0 <= i < index ==>
                enc.unknown(left[i].unknown) == enc.unknown(right[i].unknown)
      invariant counterexampleExact <==>
                forall i :: 0 <= i < index ==>
                  enc.counterexample(left[i].counterexample) == enc.counterexample(right[i].counterexample)
    {
      if left[index].lockId != right[index].lockId || left[index].status != right[index].status {
        statusExact := false;
      }
      if !EqualStringPointer(left[index].digest, right[index].digest) {
        digestExact := false;
      }
      if enc.unknown(left[index].unknown) != enc.unknown(right[index].unknown) {
        unknownExact := false;
      }
      if enc.counterexample(left[index].counterexample) != enc.counterexample(right[index].counterexample) {
        counterexampleExact := false;
      }
    }
  }

  // ---- firstEvidenceDifference ----

  ghost predicate Differs(l: LockEvidence, r: LockEvidence) {
    l.status != r.status || !EqualStringPointer(l.digest, r.digest)
  }

  function Difference(l: LockEvidence, r: LockEvidence): Counterexample {
    if l.status != r.status then
      Counterexample("PER_LOCK_STATUS_DIFFERENCE", "status", l.status, r.status)
    else
      Counterexample("PER_LOCK_DIGEST_DIFFERENCE", "digest", PointerValue(l.digest), PointerValue(r.digest))
  }

  /** The first index in both lists whose status or digest differs, if any. */
  ghost predicate IsFirstDifference(left: seq<LockEvidence>, right: seq<LockEvidence>, c: Option<Counterexample>) {
    match c
    case None => forall i :: 0 <= i < |left| && i < |right| ==> !Differs(left[i], right[i])
    case Some(v) =>
      exists k :: 0 <= k < |left| && k < |right| && Differs(left[k], right[k]) && v == Difference(left[k], right[k])
                  && forall i :: 0 <= i < k ==> !Differs(left[i], right[i])
  }

  function FirstDifference(left: seq<LockEvidence>, right: seq<LockEvidence>): (c: Option<Counterexample>)
    ensures IsFirstDifference(left, right, c)
  {
    if left == [] || right == [] then None
    else if left[0].status != right[0].status || !EqualStringPointer(left[0].digest, right[0].digest) then
      assert Differs(left[0], right[0]);
      Some(Difference(left[0], right[0]))
    else
      var rest := FirstDifference(left[1..], right[1..]);
      ShiftDifference(left, right, rest);
      rest
  }

  lemma ShiftDifference(left: seq<LockEvidence>, right: seq<LockEvidence>, c: Option<Counterexample>)
    requires left != [] && right != [] && !Differs(left[0], right[0])
    requires IsFirstDifference(left[1..], right[1..], c)
    ensures IsFirstDifference(left, right, c)
  {
    var l, r := left[1..], right[1..];
    if c.Some? {
      var k :| 0 <= k < |l| && k < |r| && Differs(l[k], r[k]) && c.value == Difference(l[k], r[k])
               && forall i :: 0 <= i < k ==> !Differs(l[i], r[i]);
      forall i | 0 <= i < k + 1 ensures !Differs(left[i], right[i]) {
        if i > 0 { assert !Differs(l[i - 1], r[i - 1]); }
      }
      assert Differs(left[k + 1], right[k + 1]);
    } else {
      forall i | 0 <= i < |left| && i < |right| ensures !Differs(left[i], right[i]) {
        if i > 0 { assert !Differs(l[i - 1], r[i - 1]); }
      }
    }
  }

  lemma FirstDifferenceUnique(left: seq<LockEvidence>, right: seq<LockEvidence>, c: Option<Counterexample>)
    requires IsFirstDifference(left, right, c)
    ensures c == FirstDifference(left, right)
  {
    var d := FirstDifference(left, right);
    if c.Some? && d.Some? {
      var k :| 0 <= k < |left| && k < |right| && Differs(left[k], right[k]) && c.value == Difference(left[k], right[k])
               && forall i :: 0 <= i < k ==> !Differs(left[i], right[i]);
      var j :| 0 <= j < |left| && j < |right| && Differs(left[j], right[j]) && d.value == Difference(left[j], right[j])
               && forall i :: 0 <= i < j ==> !Differs(left[i], right[i]);
      assert !(k < j) && !(j < k);
    }
  }

  method FindFirstDifference(left: seq<LockEvidence>, right: seq<LockEvidence>) returns (c: Option<Counterexample>)
    ensures c == FirstDifference(left, right)
  {
    var limit := |left|;
    if |right| < limit {
      limit := |right|;
    }
    for index := 0 to limit
      invariant forall i :: 0 <= i < index ==> !Differs(left[i], right[i])
    {
      if left[index].status != right[index].status {
        c := Some(Counterexample("PER_LOCK_STATUS_DIFFERENCE", "status", left[index].status, right[index].status));
        assert Differs(left[index], right[index]);
        FirstDifferenceUnique(left, right, c);
        return;
      }
      if !EqualStringPointer(left[index].digest, right[index].digest) {
        c := Some(Counterexample("PER_LOCK_DIGEST_DIFFERENCE", "digest",
                                 PointerValue(left[index].digest), PointerValue(right[index].digest)));
        assert Differs(left[index], right[index]);
        FirstDifferenceUnique(left, right, c);
        return;
      }
    }
    c := None;
    FirstDifferenceUnique(left, right, c);
  }

  // ---- ComparePair ----

  /** Everything that must agree for the pair not to be refuted. */
  ghost predicate AllExact(enc: Encoding, b: RunResult, c: RunResult) {
    && SameStatus(b.evidence, c.evidence)
    && SameDigest(b.evidence, c.evidence)
    && SameUnknown(enc, b.evidence, c.evidence)
    && SameCounterexample(enc, b.evidence, c.evidence)
    && FinalVerdict(b.evidence) == FinalVerdict(c.evidence)
    && b.semanticRoot == c.semanticRoot
  }

  ghost function PairVerdict(enc: Encoding, b: RunResult, c: RunResult): string {
    if !AllExact(enc, b, c) then REFUTED
    else if c.metrics.wallMs < b.metrics.wallMs then CLOSED
    else UNKNOWN
  }

  ghost function PairCounterexample(enc: Encoding, b: RunResult, c: RunResult): Option<Counterexample> {
    if AllExact(enc, b, c) then None
    else
      var d := FirstDifference(b.evidence, c.evidence);
      if d.Some? then d
      else Some(Counterexample("SEMANTIC_ROOT_MISMATCH", "semantic_root", b.semanticRoot, c.semanticRoot))
  }

  function PairUnknown(verdict: string): Option<Unknown> {
    if verdict != UNKNOWN then None
    else Some(Unknown("MEASURE", "COMPARE_EXACT_PAIR", PairReason(UNKNOWN),
                      "INSUFFICIENT_PERFORMANCE_EVIDENCE", "REPEAT_SAME_CI_JOB_PAIR", ["wall_ms"]))
  }

  function PairReason(verdict: string): string {
    if verdict == REFUTED then "CONCURRENCY_CHANGED_CANONICAL_EVIDENCE"
    else if verdict == UNKNOWN then "ACTUAL_WALL_REDUCTION_NOT_DEMONSTRATED"
    else "EXACT_CANONICAL_PAIR_AND_ACTUAL_WALL_REDUCTION"
  }

  method JudgePair(enc: Encoding, baseline: RunResult, candidate: RunResult, allExact: bool)
    returns (verdict: string, reason: string, counterexample: Option<Counterexample>, unknown: Option<Unknown>)
    requires allExact <==> AllExact(enc, baseline, candidate)
    ensures verdict == PairVerdict(enc, baseline, candidate)
    ensures reason == PairReason(verdict)
    ensures counterexample == PairCounterexample(enc, baseline, candidate)
    ensures unknown == PairUnknown(verdict)
  {
    counterexample, unknown := None, None;
    if !allExact {
      verdict, reason := REFUTED, "CONCURRENCY_CHANGED_CANONICAL_EVIDENCE";
      counterexample := FindFirstDifference(baseline.evidence, candidate.evidence);
      if counterexample == None {
        counterexample := Some(Counterexample("SEMANTIC_ROOT_MISMATCH", "semantic_root", baseline.semanticRoot,
                                              candidate.semanticRoot));
      }
    } else if !(candidate.metrics.wallMs < baseline.metrics.wallMs) {
      verdict, reason := UNKNOWN, "ACTUAL_WALL_REDUCTION_NOT_DEMONSTRATED";
      unknown := Some(Unknown("MEASURE", "COMPARE_EXACT_PAIR", reason, "INSUFFICIENT_PERFORMANCE_EVIDENCE",
                              "REPEAT_SAME_CI_JOB_PAIR", ["wall_ms"]));
    } else {
      verdict, reason := CLOSED, "EXACT_CANONICAL_PAIR_AND_ACTUAL_WALL_REDUCTION";
    }
  }

  method ComparePair(enc: Encoding, baseline: RunResult, candidate: RunResult) returns (comparison: PairComparison)
    ensures comparison.verdict == PairVerdict(enc, baseline, candidate)
    ensures comparison.reason == PairReason(comparison.verdict)
    ensures comparison.counterexample == PairCounterexample(enc, baseline, candidate)
    ensures comparison.unknown == PairUnknown(comparison.verdict)
    ensures comparison.allCriticalFieldsExact <==> AllExact(enc, baseline, candidate)
    ensures comparison.perLockStatusExact <==> SameStatus(baseline.evidence, candidate.evidence)
    ensures comparison.digestExact <==> SameDigest(baseline.evidence, candidate.evidence)
    ensures comparison.unknownFieldsExact <==> SameUnknown(enc, baseline.evidence, candidate.evidence)
    ensures comparison.counterexamplesExact <==> SameCounterexample(enc, baseline.evidence, candidate.evidence)
    ensures comparison.wallReductionActual <==> candidate.metrics.wallMs < baseline.metrics.wallMs
    ensures comparison.baseline == baseline.metrics && comparison.candidate == candidate.metrics
    ensures comparison.baselineFinalVerdict == FinalVerdict(baseline.evidence)
    ensures comparison.candidateFinalVerdict == FinalVerdict(candidate.evidence)
    ensures comparison.finalVerdictExact <==> FinalVerdict(baseline.evidence) == FinalVerdict(candidate.evidence)
    ensures comparison.baselineSemanticRoot == baseline.semanticRoot &&
            comparison.candidateSemanticRoot == candidate.semanticRoot
    ensures comparison.finalSemanticRootExact <==> baseline.semanticRoot == candidate.semanticRoot
  {
    var baselineVerdict := AggregateEvidence(baseline.evidence);
    var candidateVerdict := AggregateEvidence(candidate.evidence);
    var status, digest, unknownFields, counterexamples := CompareEvidence(enc, baseline.evidence, candidate.evidence);
    var finalVerdict := baselineVerdict == candidateVerdict;
    var root := baseline.semanticRoot == candidate.semanticRoot;
    var all := status && digest && unknownFields && counterexamples && finalVerdict && root;
    assert all <==> AllExact(enc, baseline, candidate);
    var verdict, reason, counterexample, unknown := JudgePair(enc, baseline, candidate, all);
    return PairComparison(
      baseline.metrics, candidate.metrics, baselineVerdict, candidateVerdict, finalVerdict, verdict, reason,
      status, digest, unknownFields, counterexamples, root, all, candidate.metrics.wallMs < baseline.metrics.wallMs,
      baseline.semanticRoot, candidate.semanticRoot, counterexample, unknown);
  }

  // ---- What a comparison says ----

  /** Both digests shown alike: equal, or one missing and the other spelled `<null>`. */
  ghost predicate ShownAlike(l: Option<string>, r: Option<string>) {
    l == r || (l == None && r == Some("<null>")) || (l == Some("<null>") && r == None)
  }

  ghost predicate Shows(text: string, digest: Option<string>) {
    digest == Some(text) || (digest == None && text == "<null>")
  }

  /** The entry of each list at one index agrees in everything that the flags compare. */
  ghost predicate Agree(enc: Encoding, l: LockEvidence, r: LockEvidence) {
    && l.lockId == r.lockId && l.status == r.status && ShownAlike(l.digest, r.digest)
    && enc.unknown(l.unknown) == enc.unknown(r.unknown)
    && enc.counterexample(l.counterexample) == enc.counterexample(r.counterexample)
  }

  ghost predicate Exact(enc: Encoding, b: RunResult, c: RunResult) {
    && |b.evidence| == |c.evidence|
    && (forall i :: 0 <= i < |b.evidence| ==> Agree(enc, b.evidence[i], c.evidence[i]))
    && b.semanticRoot == c.semanticRoot
  }

  /** The final verdicts follow from the statuses, so entries and roots decide alone. */
  lemma ExactMeaning(enc: Encoding, b: RunResult, c: RunResult)
    ensures AllExact(enc, b, c) <==> Exact(enc, b, c)
  {
    if Exact(enc, b, c) { VerdictOfStatuses(b.evidence, c.evidence); }
  }

  /** Refuted exactly if something differs, otherwise closed exactly if the candidate was
      strictly faster; each verdict has its reason, and only UNKNOWN has a tuple. */
  lemma PairMeaning(enc: Encoding, b: RunResult, c: RunResult)
    ensures var verdict := PairVerdict(enc, b, c);
            && (verdict == "REFUTED" <==> !Exact(enc, b, c))
            && (verdict == "CLOSED" <==> Exact(enc, b, c) && c.metrics.wallMs < b.metrics.wallMs)
            && (verdict == "UNKNOWN" <==> Exact(enc, b, c) && c.metrics.wallMs >= b.metrics.wallMs)
            && (PairCounterexample(enc, b, c).Some? <==> verdict == "REFUTED")
            && (PairUnknown(verdict).Some? <==> verdict == "UNKNOWN")
    ensures PairReason("REFUTED") == "CONCURRENCY_CHANGED_CANONICAL_EVIDENCE"
    ensures PairReason("CLOSED") == "EXACT_CANONICAL_PAIR_AND_ACTUAL_WALL_REDUCTION"
    ensures PairReason("UNKNOWN") == "ACTUAL_WALL_REDUCTION_NOT_DEMONSTRATED"
    ensures PairUnknown("UNKNOWN") ==
            Some(Unknown("MEASURE", "COMPARE_EXACT_PAIR", "ACTUAL_WALL_REDUCTION_NOT_DEMONSTRATED",
                         "INSUFFICIENT_PERFORMANCE_EVIDENCE", "REPEAT_SAME_CI_JOB_PAIR", ["wall_ms"]))
  {
    ExactMeaning(enc, b, c);
  }

  ghost predicate ShownDifferently(l: LockEvidence, r: LockEvidence) {
    l.status != r.status || !ShownAlike(l.digest, r.digest)
  }

  ghost predicate FirstShown(l: seq<LockEvidence>, r: seq<LockEvidence>, k: nat) {
    && k < |l| && k < |r| && ShownDifferently(l[k], r[k])
    && forall i :: 0 <= i < k ==> !ShownDifferently(l[i], r[i])
  }

  /** The status of each side if they differ, else the digests. */
  ghost predicate ShowsEntries(c: Counterexample, l: LockEvidence, r: LockEvidence) {
    if l.status != r.status then
      && c.kind == "PER_LOCK_STATUS_DIFFERENCE" && c.field == "status"
      && c.expected == l.status && c.observed == r.status
    else
      && c.kind == "PER_LOCK_DIGEST_DIFFERENCE" && c.field == "digest"
      && Shows(c.expected, l.digest) && Shows(c.observed, r.digest)
  }

  lemma DifferenceMeaning(l: LockEvidence, r: LockEvidence)
    ensures ShowsEntries(Difference(l, r), l, r)
    ensures Differs(l, r) <==> ShownDifferently(l, r)
  {
    PointerMeaning(l.digest, r.digest);
  }

  lemma ShownIsFirst(l: seq<LockEvidence>, r: seq<LockEvidence>, k: nat)
    requires FirstShown(l, r, k)
    ensures FirstDifference(l, r) == Some(Difference(l[k], r[k]))
  {
    forall i | 0 <= i <= k ensures Differs(l[i], r[i]) <==> ShownDifferently(l[i], r[i]) {
      DifferenceMeaning(l[i], r[i]);
    }
    FirstDifferenceUnique(l, r, Some(Difference(l[k], r[k])));
  }

  lemma FirstIsShown(l: seq<LockEvidence>, r: seq<LockEvidence>) returns (k: nat)
    requires FirstDifference(l, r).Some?
    ensures FirstShown(l, r, k)
  {
    k :| 0 <= k < |l| && k < |r| && Differs(l[k], r[k]) && forall i :: 0 <= i < k ==> !Differs(l[i], r[i]);
    forall i | 0 <= i <= k ensures Differs(l[i], r[i]) <==> ShownDifferently(l[i], r[i]) {
      DifferenceMeaning(l[i], r[i]);
    }
  }

  /** What a refuted pair shows, the baseline's side as expected and the candidate's as
      observed: the entries at the first index that differs in status or digest, and the
      roots when there is no such index. */
  lemma CounterexampleMeaning(enc: Encoding, b: RunResult, c: RunResult)
    requires PairVerdict(enc, b, c) == "REFUTED"
    ensures PairCounterexample(enc, b, c).Some?
    ensures forall k: nat :: FirstShown(b.evidence, c.evidence, k) ==>
              ShowsEntries(PairCounterexample(enc, b, c).value, b.evidence[k], c.evidence[k])
    ensures (forall k: nat :: !FirstShown(b.evidence, c.evidence, k)) ==>
              PairCounterexample(enc, b, c).value ==
              Counterexample("SEMANTIC_ROOT_MISMATCH", "semantic_root", b.semanticRoot, c.semanticRoot)
  {
    forall k: nat | FirstShown(b.evidence, c.evidence, k)
      ensures ShowsEntries(PairCounterexample(enc, b, c).value, b.evidence[k], c.evidence[k])
    {
      ShownIsFirst(b.evidence, c.evidence, k);
      DifferenceMeaning(b.evidence[k], c.evidence[k]);
    }
    if FirstDifference(b.evidence, c.evidence).Some? {
      var k := FirstIsShown(b.evidence, c.evidence);
    }
  }

  // ---- What a comparison is worth ----

  ghost predicate TrulyEqual(l: LockEvidence, r: LockEvidence) {
    l.lockId == r.lockId && l.status == r.status && l.digest == r.digest && l.unknown == r.unknown &&
      l.counterexample == r.counterexample
  }

  lemma ExactIsEqual(l: LockEvidence, r: LockEvidence, retry: RetryPolicy)
    requires Fetched(l, retry) && Fetched(r, retry) && l.status == r.status
    ensures EqualStringPointer(l.digest, r.digest) <==> l.digest == r.digest
  {
    var x :| EvidenceInvariant(x, retry, l);
    var y :| EvidenceInvariant(y, retry, r);
  }

  /** For fetched evidence, a pair is not refuted exactly when every index really agrees
      (a missing digest included, despite `<null>`) and the roots agree. */
  lemma NotRefutedMeansEqual(enc: Encoding, b: RunResult, c: RunResult, retry: RetryPolicy)
    requires Injective(enc.unknown) && Injective(enc.counterexample)
    requires (forall e :: e in b.evidence ==> Fetched(e, retry)) && (forall e :: e in c.evidence ==> Fetched(e, retry))
    ensures PairVerdict(enc, b, c) != REFUTED <==>
            && |b.evidence| == |c.evidence|
            && (forall i :: 0 <= i < |b.evidence| ==> TrulyEqual(b.evidence[i], c.evidence[i]))
            && b.semanticRoot == c.semanticRoot
  {
    var l, r := b.evidence, c.evidence;
    if |l| == |r| {
      forall i | 0 <= i < |l| && l[i].status == r[i].status
        ensures EqualStringPointer(l[i].digest, r[i].digest) <==> l[i].digest == r[i].digest
      {
        assert l[i] in l && r[i] in r;
        ExactIsEqual(l[i], r[i], retry);
      }
      if forall i :: 0 <= i < |l| ==> TrulyEqual(l[i], r[i]) {
        VerdictOfStatuses(l, r);
      }
    }
  }

  /** For rooted evidence and an injective digest, not being refuted is being the same
      evidence, in every field: the root covers those that no flag compares. */
  lemma NotRefutedMeansSame(enc: Encoding, b: RunResult, c: RunResult)
    requires Injective(enc.root)
    requires b.semanticRoot == enc.root(StableSort(b.evidence)) && c.semanticRoot == enc.root(StableSort(c.evidence))
    ensures PairVerdict(enc, b, c) != REFUTED <==> b.evidence == c.evidence
  {
    if AllExact(enc, b, c) {
      assert SameIds(b.evidence, c.evidence);
      StableSortInjective(b.evidence, c.evidence);
    }
  }

  /** A refutation carries a counterexample, whose sides are equal exactly when the roots
      are and no index differs in status or digest. */
  lemma RefutationSides(enc: Encoding, b: RunResult, c: RunResult)
    requires PairVerdict(enc, b, c) == REFUTED
    ensures PairCounterexample(enc, b, c).Some?
    ensures var v := PairCounterexample(enc, b, c).value;
            v.expected == v.observed <==>
            b.semanticRoot == c.semanticRoot && forall i :: 0 <= i < |b.evidence| && i < |c.evidence| ==>
              !Differs(b.evidence[i], c.evidence[i])
  {
    assert IsFirstDifference(b.evidence, c.evidence, FirstDifference(b.evidence, c.evidence));
  }

  /** For rooted evidence: a refutation shows no difference exactly when the two lists have
      one canonical form, name the locks at different places, and differ nowhere in status
      or digest. Every other refutation shows a difference, the root fallback included. */
  lemma RefutationIsGenuine(enc: Encoding, b: RunResult, c: RunResult)
    requires Injective(enc.root)
    requires b.semanticRoot == enc.root(StableSort(b.evidence)) && c.semanticRoot == enc.root(StableSort(c.evidence))
    requires PairVerdict(enc, b, c) == REFUTED
    ensures PairCounterexample(enc, b, c).Some?
    ensures var v := PairCounterexample(enc, b, c).value;
            v.expected == v.observed <==>
            && StableSort(b.evidence) == StableSort(c.evidence)
            && !SameIds(b.evidence, c.evidence)
            && forall i :: 0 <= i < |b.evidence| && i < |c.evidence| ==> !Differs(b.evidence[i], c.evidence[i])
  {
    var l, r := b.evidence, c.evidence;
    RefutationSides(enc, b, c);
    if StableSort(l) == StableSort(r) && SameIds(l, r) {
      StableSortInjective(l, r);
      assert AllExact(enc, b, c);
    }
  }

  /** That case occurs: two swapped locks of equal status and digest. */
  lemma SwappedPairShowsNothing(enc: Encoding, x: LockEvidence, y: LockEvidence, wallMs: int, maxInFlight: int)
    requires x.lockId != y.lockId && x.status == y.status && x.digest == y.digest
    ensures var b, c := Report(enc, [x, y], wallMs, maxInFlight), Report(enc, [y, x], wallMs, maxInFlight);
            && PairVerdict(enc, b, c) == REFUTED
            && PairCounterexample(enc, b, c).Some?
            && PairCounterexample(enc, b, c).value.expected == PairCounterexample(enc, b, c).value.observed
  {
    var l, r := [x, y], [y, x];
    var b, c := Report(enc, l, wallMs, maxInFlight), Report(enc, r, wallMs, maxInFlight);
    assert multiset(l) == multiset(r);
    assert LockIds(l) == [x.lockId, y.lockId] && LockIds(r) == [y.lockId, x.lockId];
    ArrangementIrrelevant(l, r);
    assert l[0].lockId != r[0].lockId;
    forall i | 0 <= i < 2 ensures !Differs(l[i], r[i]) {}
    FirstDifferenceUnique(l, r, None);
  }
}

/** The retry loop and the classification of one lock's HTTP evidence (`fetchLock`). */
module Fetch {
  import opened Model

  datatype Body = Unparsable | Parsed(lockId: string, coordinate: string, digest: string)

  /** What one `client.Get` and the reading of its body can come to. */
  datatype Response = TransportError | BodyError | Reply(status: int, body: Body)

  /** The answer depends on the lock requested and on the attempt, never on timing. */
  type Oracle = (string, nat) -> Response

  const OK := 200

  function MaxAttempts(retry: RetryPolicy): nat {
    if retry.maxAttempts < 1 then 1 else retry.maxAttempts
  }

  predicate IsRetryable(status: int, retry: RetryPolicy) {
    status in retry.retryableStatuses
  }

  function UnknownFor(lockId: string, reason: string, unknownClass: string, next: string, blocked: string): Unknown {
    Unknown("FETCH", "READ_HTTP_EVIDENCE", reason, unknownClass, next, ["lock:" + lockId, blocked])
  }

  function UnknownForStatus(lockId: string, status: int): Unknown {
    if status == 404 then
      UnknownFor(lockId, "HTTP_404_MISSING", "DIRECT_MISSING", "RESTORE_MISSING_LOCK_EVIDENCE", "missing")
    else if status == 408 || status == 504 then
      UnknownFor(lockId, "HTTP_TIMEOUT", "TRANSIENT_TIMEOUT", "RETRY_LOCK_FETCH", "timeout")
    else if status == 429 then
      UnknownFor(lockId, "HTTP_429_RATE_LIMIT", "RATE_LIMIT", "RETRY_AFTER_RATE_LIMIT", "rate-limit")
    else if status == 300 then
      UnknownFor(lockId, "HTTP_3XX_AMBIGUOUS", "AMBIGUOUS_HTTP", "DISAMBIGUATE_HTTP_RESPONSE", "ambiguous-http")
    else
      UnknownFor(lockId, "HTTP_STATUS_UNKNOWN", "AMBIGUOUS_HTTP", "RESTORE_LOCK_EVIDENCE", "http-status")
  }

  /** A response worth another attempt: no response at all, or a fully read retryable status. */
  predicate Transient(response: Response, retry: RetryPolicy) {
    match response
    case TransportError => true
    case BodyError => false
    case Reply(status, _) => status != OK && IsRetryable(status, retry)
  }

  predicate Reused(lock: Lock) {
    lock.behavior == "reused"
  }

  function ReusedEvidence(lock: Lock): LockEvidence {
    LockEvidence(lock.id, lock.coordinate, CLOSED, Some(lock.digest), 0, 0, true, None, None)
  }

  function UnknownEvidence(lock: Lock, attempt: nat, unknown: Unknown): LockEvidence {
    LockEvidence(lock.id, lock.coordinate, UNKNOWN, None, attempt, attempt, false, Some(unknown), None)
  }

  function RefutedEvidence(lock: Lock, attempt: nat, digest: string, c: Counterexample): LockEvidence {
    LockEvidence(lock.id, lock.coordinate, REFUTED, Some(digest), attempt, attempt, false, None, Some(c))
  }

  predicate Answers(lock: Lock, body: Body) {
    body.Parsed? && body.lockId == lock.id && body.coordinate != "" && body.digest != ""
  }

  /** The evidence that an attempt's response stands for once no attempt follows it. */
  function Classify(lock: Lock, response: Response, attempt: nat): LockEvidence {
    match response
    case TransportError =>
      UnknownEvidence(lock, attempt,
                      UnknownFor(lock.id, "HTTP_TIMEOUT", "TRANSIENT_TIMEOUT", "RETRY_LOCK_FETCH", "timeout"))
    case BodyError =>
      UnknownEvidence(lock, attempt,
                      UnknownFor(lock.id, "HTTP_BODY_READ_FAILED", "AMBIGUOUS_HTTP", "RESTORE_LOCK_EVIDENCE", "body"))
    case Reply(status, body) =>
      if status != OK then
        UnknownEvidence(lock, attempt, UnknownForStatus(lock.id, status))
      else if !Answers(lock, body) then
        UnknownEvidence(lock, attempt,
                        UnknownFor(lock.id, "HTTP_BODY_AMBIGUOUS", "AMBIGUOUS_HTTP", "RESTORE_LOCK_EVIDENCE", "body"))
      else if body.coordinate != lock.coordinate then
        RefutedEvidence(lock, attempt, body.digest,
                        Counterexample("COORDINATE_CONTRADICTION", "coordinate", lock.coordinate, body.coordinate))
      else if body.digest != lock.digest then
        RefutedEvidence(lock, attempt, body.digest,
                        Counterexample("KNOWN_DIGEST_MISMATCH", "digest", lock.digest, body.digest))
      else
        LockEvidence(lock.id, lock.coordinate, CLOSED, Some(body.digest), attempt, attempt, false, None, None)
  }

  /** The evidence reached when `attempt` is about to be made. */
  function Settle(lock: Lock, retry: RetryPolicy, oracle: Oracle, attempt: nat): LockEvidence
    decreases MaxAttempts(retry) - attempt
  {
    var response := oracle(lock.id, attempt);
    if Transient(response, retry) && attempt < MaxAttempts(retry)
    then Settle(lock, retry, oracle, attempt + 1)
    else Classify(lock, response, attempt)
  }

  function FetchEvidence(lock: Lock, retry: RetryPolicy, oracle: Oracle): LockEvidence {
    if Reused(lock) then ReusedEvidence(lock) else Settle(lock, retry, oracle, 1)
  }

  /** No response at all, or a listed status other than 200. */
  ghost predicate CallsForRetry(response: Response, statuses: seq<int>) {
    response == TransportError || (response.Reply? && response.status != 200 && response.status in statuses)
  }

  /** The attempt whose response decides: the first one from `from` on that calls for no
      retry, or the last one that the policy allows, which always allows one. */
  ghost predicate Decisive(lock: Lock, retry: RetryPolicy, oracle: Oracle, from: nat, attempt: nat) {
    && from <= attempt
    && (attempt <= 1 || attempt <= retry.maxAttempts)
    && (forall b: nat :: from <= b < attempt ==> CallsForRetry(oracle(lock.id, b), retry.retryableStatuses))
    && (attempt >= retry.maxAttempts || !CallsForRetry(oracle(lock.id, attempt), retry.retryableStatuses))
  }

  lemma {:induction false} SettleMeaning(lock: Lock, retry: RetryPolicy, oracle: Oracle, from: nat)
    returns (attempt: nat)
    requires 1 <= from <= MaxAttempts(retry)
    ensures Decisive(lock, retry, oracle, from, attempt)
    ensures Settle(lock, retry, oracle, from) == Classify(lock, oracle(lock.id, attempt), attempt)
    decreases MaxAttempts(retry) - from
  {
    if Transient(oracle(lock.id, from), retry) && from < MaxAttempts(retry) {
      attempt := SettleMeaning(lock, retry, oracle, from + 1);
    } else {
      attempt := from;
    }
  }

  lemma DecisiveUnique(lock: Lock, retry: RetryPolicy, oracle: Oracle, a: nat, b: nat)
    requires Decisive(lock, retry, oracle, 1, a) && Decisive(lock, retry, oracle, 1, b)
    ensures a == b
  {
  }

  /** A fetched lock's evidence classifies the decisive attempt's response; that attempt
      is unique, and it is the number of attempts and of requests recorded. */
  lemma RetryMeaning(lock: Lock, retry: RetryPolicy, oracle: Oracle) returns (attempt: nat)
    requires !Reused(lock)
    ensures attempt >= 1 && Decisive(lock, retry, oracle, 1, attempt)
    ensures forall other: nat :: Decisive(lock, retry, oracle, 1, other) ==> other == attempt
    ensures FetchEvidence(lock, retry, oracle) == Classify(lock, oracle(lock.id, attempt), attempt)
    ensures FetchEvidence(lock, retry, oracle).attempts == attempt
    ensures FetchEvidence(lock, retry, oracle).requestCount == attempt
  {
    attempt := SettleMeaning(lock, retry, oracle, 1);
    forall other: nat | Decisive(lock, retry, oracle, 1, other) ensures other == attempt {
      DecisiveUnique(lock, retry, oracle, attempt, other);
    }
  }

  /** A tuple of the fetch stage for one lock. */
  ghost predicate Tells(u: Option<Unknown>, lockId: string, reason: string, unknownClass: string, next: string,
                        blocker: string) {
    u == Some(Unknown("FETCH", "READ_HTTP_EVIDENCE", reason, unknownClass, next, ["lock:" + lockId, blocker]))
  }

  /** Which tuple a status other than 200 ends in. */
  lemma StatusMeaning(lockId: string, status: int)
    ensures var u := Some(UnknownForStatus(lockId, status));
            && (status == 404 <==> Tells(u, lockId, "HTTP_404_MISSING", "DIRECT_MISSING",
                                         "RESTORE_MISSING_LOCK_EVIDENCE", "missing"))
            && (status in {408, 504} <==> Tells(u, lockId, "HTTP_TIMEOUT", "TRANSIENT_TIMEOUT", "RETRY_LOCK_FETCH",
                                                "timeout"))
            && (status == 429 <==> Tells(u, lockId, "HTTP_429_RATE_LIMIT", "RATE_LIMIT", "RETRY_AFTER_RATE_LIMIT",
                                         "rate-limit"))
            && (status == 300 <==> Tells(u, lockId, "HTTP_3XX_AMBIGUOUS", "AMBIGUOUS_HTTP",
                                         "DISAMBIGUATE_HTTP_RESPONSE", "ambiguous-http"))
            && (status !in {300, 404, 408, 429, 504} <==>
                Tells(u, lockId, "HTTP_STATUS_UNKNOWN", "AMBIGUOUS_HTTP", "RESTORE_LOCK_EVIDENCE", "http-status"))
  {
  }

  /** The readable answer that the evidence of a decisive 200 response is judged by. */
  ghost predicate Readable(lock: Lock, body: Body) {
    body.Parsed? && body.lockId == lock.id && body.coordinate != "" && body.digest != ""
  }

  ghost predicate Undecided(e: LockEvidence) {
    e.status == "UNKNOWN" && e.digest == None && e.counterexample == None
  }

  ghost predicate Contradicts(c: Option<Counterexample>, kind: string, field: string, expected: string,
                              observed: string) {
    c == Some(Counterexample(kind, field, expected, observed))
  }

  /** Fetched evidence in full, from the response to the decisive attempt alone: UNKNOWN and
      its tuple without a readable answer, REFUTED with the declared value as expected and
      the answered one as observed (the coordinate before the digest), else CLOSED. */
  lemma FetchMeaning(lock: Lock, retry: RetryPolicy, oracle: Oracle, attempt: nat)
    requires lock.behavior != "reused" && Decisive(lock, retry, oracle, 1, attempt)
    ensures var e := FetchEvidence(lock, retry, oracle);
            && e.lockId == lock.id && e.coordinate == lock.coordinate && !e.reused
            && e.attempts == e.requestCount == attempt
            && match oracle(lock.id, attempt)
               case TransportError =>
                 && Undecided(e)
                 && Tells(e.unknown, lock.id, "HTTP_TIMEOUT", "TRANSIENT_TIMEOUT", "RETRY_LOCK_FETCH", "timeout")
               case BodyError =>
                 && Undecided(e)
                 && Tells(e.unknown, lock.id, "HTTP_BODY_READ_FAILED", "AMBIGUOUS_HTTP", "RESTORE_LOCK_EVIDENCE",
                          "body")
               case Reply(status, body) =>
                 if status != 200 then
                   && Undecided(e)
                   && e.unknown == Some(UnknownForStatus(lock.id, status))
                 else if !Readable(lock, body) then
                   && Undecided(e)
                   && Tells(e.unknown, lock.id, "HTTP_BODY_AMBIGUOUS", "AMBIGUOUS_HTTP", "RESTORE_LOCK_EVIDENCE",
                            "body")
                 else
                   && e.digest == Some(body.digest) && e.unknown == None
                   && (e.status == "REFUTED" <==> body.coordinate != lock.coordinate || body.digest != lock.digest)
                   && (e.status == "CLOSED" <==> e.counterexample == None)
                   && (e.status == "CLOSED" || e.status == "REFUTED")
                   && (body.coordinate != lock.coordinate ==>
                         Contradicts(e.counterexample, "COORDINATE_CONTRADICTION", "coordinate", lock.coordinate,
                                     body.coordinate))
                   && (body.coordinate == lock.coordinate && body.digest != lock.digest ==>
                         Contradicts(e.counterexample, "KNOWN_DIGEST_MISMATCH", "digest", lock.digest, body.digest))
  {
    var a := RetryMeaning(lock, retry, oracle);
    assert a == attempt;
  }

  /** A reused lock is closed on its declaration, without a request. */
  lemma ReusedMeaning(lock: Lock, retry: RetryPolicy, oracle: Oracle)
    requires lock.behavior == "reused"
    ensures FetchEvidence(lock, retry, oracle) ==
            LockEvidence(lock.id, lock.coordinate, "CLOSED", Some(lock.digest), 0, 0, true, None, None)
  {
  }

  /** What every piece of fetched evidence satisfies, whatever the server did. */
  ghost predicate EvidenceInvariant(lock: Lock, retry: RetryPolicy, e: LockEvidence) {
    && e.lockId == lock.id && e.coordinate == lock.coordinate
    && e.reused == Reused(lock)
    && e.attempts == e.requestCount
    && (if e.reused then e.requestCount == 0 && e.status == CLOSED
        else 1 <= e.requestCount <= MaxAttempts(retry))
    && (|| (e.status == CLOSED && e.digest == Some(lock.digest) && e.unknown == None && e.counterexample == None)
        || (e.status == UNKNOWN && e.digest == None && e.counterexample == None && e.unknown.Some? &&
            e.unknown.value.Complete())
        || (e.status == REFUTED && e.digest.Some? && e.unknown == None && e.counterexample.Some?
            && e.counterexample.value.expected != e.counterexample.value.observed))
  }

  lemma StatusTupleComplete(lockId: string, status: int)
    ensures UnknownForStatus(lockId, status).Complete()
  {
  }

  lemma ClassifyKeepsInvariant(lock: Lock, retry: RetryPolicy, response: Response, attempt: nat)
    requires !Reused(lock) && 1 <= attempt <= MaxAttempts(retry)
    ensures EvidenceInvariant(lock, retry, Classify(lock, response, attempt))
  {
    var e := Classify(lock, response, attempt);
    if response.Reply? && response.status != OK {
      StatusTupleComplete(lock.id, response.status);
    } else if e.unknown.Some? {
      assert e.unknown.value.Complete();
    }
  }

  lemma FetchKeepsInvariant(lock: Lock, retry: RetryPolicy, oracle: Oracle)
    ensures EvidenceInvariant(lock, retry, FetchEvidence(lock, retry, oracle))
  {
    if !Reused(lock) {
      var attempt := RetryMeaning(lock, retry, oracle);
      ClassifyKeepsInvariant(lock, retry, oracle(lock.id, attempt), attempt);
    }
  }

  /** A fetch closes exactly on a decisive 200 response that repeats the declared
      coordinate and digest, and refutes exactly on a readable one that contradicts them. */
  lemma VerdictMeaning(lock: Lock, retry: RetryPolicy, oracle: Oracle, attempt: nat)
    requires !Reused(lock) && Decisive(lock, retry, oracle, 1, attempt)
    ensures var e, r := FetchEvidence(lock, retry, oracle), oracle(lock.id, attempt);
            && (e.status == CLOSED <==>
                lock.coordinate != "" && lock.digest != "" &&
                  r == Reply(OK, Parsed(lock.id, lock.coordinate, lock.digest)))
            && (e.status == REFUTED <==>
                r.Reply? && r.status == OK && Answers(lock, r.body)
                && (r.body.coordinate != lock.coordinate || r.body.digest != lock.digest))
  {
    var a := RetryMeaning(lock, retry, oracle);
    assert a == attempt;
  }

  /** The atomic pair behind `inflightMeter`; here one goroutine uses it at a time. */
  class InflightMeter {
    var current: int
    var peak: int

    constructor ()
      ensures current == 0 && peak == 0
    {
      current, peak := 0, 0;
    }

    method CompareAndSwapPeak(expected: int, replacement: int) returns (swapped: bool)
      modifies this`peak
      ensures swapped == (old(peak) == expected)
      ensures peak == if swapped then replacement else old(peak)
    {
      swapped := peak == expected;
      if swapped { peak := replacement; }
    }

    method Begin()
      modifies this
      ensures current == old(current) + 1
      ensures peak == if old(peak) < current then current else old(peak)
    {
      current := current + 1;
      var mine := current;
      var done := false;
      while !done
        invariant current == mine == old(current) + 1
        invariant peak == if done && old(peak) < mine then mine else old(peak)
        decreases !done
      {
        var loaded := peak;
        if mine <= loaded {
          done := true;
        } else {
          done := CompareAndSwapPeak(loaded, mine);
        }
      }
    }

    method End()
      modifies this`current
      ensures current == old(current) - 1
    {
      current := current - 1;
    }
  }

  /** `fetchLock` branch by branch, against the decisive-attempt reading of it. */
  method FetchLock(oracle: Oracle, lock: Lock, retry: RetryPolicy, meter: InflightMeter)
    returns (evidence: LockEvidence)
    modifies meter
    ensures evidence == FetchEvidence(lock, retry, oracle)
    ensures meter.current == old(meter.current)
    ensures meter.peak == if !Reused(lock) && old(meter.peak) <= old(meter.current)
                          then old(meter.current) + 1 else old(meter.peak)
  {
    if lock.behavior == "reused" {
      return LockEvidence(lock.id, lock.coordinate, CLOSED, Some(lock.digest), 0, 0, true, None, None);
    }
    var maxAttempts := retry.maxAttempts;
    if maxAttempts < 1 {
      maxAttempts := 1;
    }
    var lastUnknown: Option<Unknown> := None;
    var requestCount := 0;
    var attempt: nat := 1;
    while attempt <= maxAttempts
      invariant 1 <= attempt <= maxAttempts == MaxAttempts(retry)
      invariant requestCount == attempt - 1
      invariant FetchEvidence(lock, retry, oracle) == Settle(lock, retry, oracle, attempt)
      invariant meter.current == old(meter.current)
      invariant meter.peak == if attempt > 1 && old(meter.peak) <= old(meter.current)
                              then old(meter.current) + 1 else old(meter.peak)
      decreases maxAttempts - attempt
    {
      requestCount := requestCount + 1;
      meter.Begin();
      var response := oracle(lock.id, attempt);
      meter.End();
      if response.TransportError? {
        lastUnknown := Some(UnknownFor(lock.id, "HTTP_TIMEOUT", "TRANSIENT_TIMEOUT", "RETRY_LOCK_FETCH", "timeout"));
        if attempt < maxAttempts {
          attempt := attempt + 1;
          continue;
        }
        return LockEvidence(lock.id, lock.coordinate, UNKNOWN, None, attempt, requestCount, false, lastUnknown, None);
      }
      if response.BodyError? {
        lastUnknown := Some(UnknownFor(lock.id, "HTTP_BODY_READ_FAILED", "AMBIGUOUS_HTTP", "RESTORE_LOCK_EVIDENCE",
                                       "body"));
        return LockEvidence(lock.id, lock.coordinate, UNKNOWN, None, attempt, requestCount, false, lastUnknown, None);
      }
      if response.status != OK {
        var unknown := UnknownForStatus(lock.id, response.status);
        if IsRetryable(response.status, retry) && attempt < maxAttempts {
          lastUnknown := Some(unknown);
          attempt := attempt + 1;
          continue;
        }
        return LockEvidence(lock.id, lock.coordinate, UNKNOWN, None, attempt, requestCount, false, Some(unknown), None);
      }
      var body := response.body;
      if body.Unparsable? || body.lockId != lock.id || body.coordinate == "" || body.digest == "" {
        var unknown := UnknownFor(lock.id, "HTTP_BODY_AMBIGUOUS", "AMBIGUOUS_HTTP", "RESTORE_LOCK_EVIDENCE", "body");
        return LockEvidence(lock.id, lock.coordinate, UNKNOWN, None, attempt, requestCount, false, Some(unknown), None);
      }
      if body.coordinate != lock.coordinate {
        var c := Counterexample("COORDINATE_CONTRADICTION", "coordinate", lock.coordinate, body.coordinate);
        return LockEvidence(lock.id, lock.coordinate, REFUTED, Some(body.digest), attempt, requestCount, false, None,
                            Some(c));
      }
      if body.digest != lock.digest {
        var c := Counterexample("KNOWN_DIGEST_MISMATCH", "digest", lock.digest, body.digest);
        return LockEvidence(lock.id, lock.coordinate, REFUTED, Some(body.digest), attempt, requestCount, false, None,
                            Some(c));
      }
      return LockEvidence(lock.id, lock.coordinate, CLOSED, Some(body.digest), attempt, requestCount, false, None,
                          None);
    }
    // The loop only leaves by returning: its invariant contradicts the negated guard.
    assert false;
  }
}

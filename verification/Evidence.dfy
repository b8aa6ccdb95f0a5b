/** What is computed from a run's evidence: canonical order, final verdict and metrics. */
module Evidence {
  import opened Model
  import opened Declarations
  import opened Sequences
  import opened Ordering
  import opened Fetch

  // ---- Canonical order (`canonicalEvidence`) ----

  ghost predicate InOrder(s: seq<LockEvidence>) {
    forall i, j :: 0 <= i < j < |s| ==> Leq(s[i].lockId, s[j].lockId)
  }

  function LockIds(s: seq<LockEvidence>): (ids: seq<string>)
    ensures |ids| == |s| && forall i :: 0 <= i < |s| ==> ids[i] == s[i].lockId
  {
    Names(s, (e: LockEvidence) => e.lockId)
  }

  function HasId(id: string): LockEvidence -> bool {
    (e: LockEvidence) => e.lockId == id
  }

  /** The evidence recorded under one lock ID, in its order of occurrence. */
  function WithId(s: seq<LockEvidence>, id: string): seq<LockEvidence> {
    Filter(s, HasId(id))
  }

  /** Puts `x` behind everything that does not follow it. */
  function Place(x: LockEvidence, s: seq<LockEvidence>): (r: seq<LockEvidence>)
    ensures |r| == |s| + 1
  {
    if s != [] && Leq(s[0].lockId, x.lockId) then [s[0]] + Place(x, s[1..]) else [x] + s
  }

  /** `sort.SliceStable` by lock ID: by `StableSortUnique` the only stable ordering of `s`. */
  function StableSort(s: seq<LockEvidence>): (r: seq<LockEvidence>)
    ensures |r| == |s|
  {
    if s == [] then [] else Place(s[|s| - 1], StableSort(s[..|s| - 1]))
  }

  lemma {:induction false} PlaceMultiset(x: LockEvidence, s: seq<LockEvidence>)
    ensures multiset(Place(x, s)) == multiset(s) + multiset{x}
  {
    if s != [] && Leq(s[0].lockId, x.lockId) {
      PlaceMultiset(x, s[1..]);
      assert s == [s[0]] + s[1..];
    }
  }

  lemma {:induction false} PlaceOrdered(x: LockEvidence, s: seq<LockEvidence>)
    requires InOrder(s)
    ensures InOrder(Place(x, s))
  {
    if s != [] && Leq(s[0].lockId, x.lockId) {
      PlaceOrdered(x, s[1..]);
      forall e | e in Place(x, s[1..]) ensures Leq(s[0].lockId, e.lockId) {
        PlaceMultiset(x, s[1..]);
        assert e in multiset(Place(x, s[1..]));
        assert e == x || e in s[1..];
      }
    } else {
      forall j | 0 <= j < |s| ensures Leq(x.lockId, s[j].lockId) { PlacedBefore(x, s, j); }
    }
  }

  lemma PlacedBefore(x: LockEvidence, s: seq<LockEvidence>, j: nat)
    requires InOrder(s) && j < |s| && !Leq(s[0].lockId, x.lockId)
    ensures Leq(x.lockId, s[j].lockId) && s[j].lockId != x.lockId
  {
    LeqTotal(s[0].lockId, x.lockId);
    LeqTotal(s[0].lockId, s[0].lockId);
    LeqTransitive(x.lockId, s[0].lockId, s[j].lockId);
  }

  lemma {:induction false} PlaceStable(x: LockEvidence, s: seq<LockEvidence>, id: string)
    requires InOrder(s)
    ensures WithId(Place(x, s), id) == WithId(s + [x], id)
  {
    if s != [] && Leq(s[0].lockId, x.lockId) {
      PlaceStable(x, s[1..], id);
      assert (s + [x])[1..] == s[1..] + [x];
      assert ([s[0]] + Place(x, s[1..]))[1..] == Place(x, s[1..]);
    } else {
      FilterAppend(s, x, HasId(id));
      assert ([x] + s)[1..] == s;
      if id == x.lockId {
        forall j | 0 <= j < |s| ensures s[j].lockId != id { PlacedBefore(x, s, j); }
        FilterNone(s, HasId(id));
      }
    }
  }

  lemma {:induction false} StableSortOrdered(s: seq<LockEvidence>)
    ensures InOrder(StableSort(s))
  {
    if s != [] {
      StableSortOrdered(s[..|s| - 1]);
      PlaceOrdered(s[|s| - 1], StableSort(s[..|s| - 1]));
    }
  }

  lemma {:induction false} StableSortPermutes(s: seq<LockEvidence>)
    ensures multiset(StableSort(s)) == multiset(s)
  {
    if s != [] {
      var front, x := s[..|s| - 1], s[|s| - 1];
      StableSortPermutes(front);
      PlaceMultiset(x, StableSort(front));
      SplitLast(s);
    }
  }

  lemma {:induction false} StableSortStable(s: seq<LockEvidence>, id: string)
    ensures WithId(StableSort(s), id) == WithId(s, id)
  {
    if s != [] {
      var front, x := s[..|s| - 1], s[|s| - 1];
      StableSortStable(front, id);
      StableSortOrdered(front);
      PlaceStable(x, StableSort(front), id);
      FilterAppend(StableSort(front), x, HasId(id));
      FilterAppend(front, x, HasId(id));
      SplitLast(s);
    }
  }

  /** `StableSort` is an ordered, stable rearrangement of its argument. */
  lemma StableSortKeeps(s: seq<LockEvidence>)
    ensures InOrder(StableSort(s))
    ensures multiset(StableSort(s)) == multiset(s)
    ensures forall id :: WithId(StableSort(s), id) == WithId(s, id)
  {
    StableSortOrdered(s);
    StableSortPermutes(s);
    forall id ensures WithId(StableSort(s), id) == WithId(s, id) { StableSortStable(s, id); }
  }

  lemma {:induction false} WithIdFirst(s: seq<LockEvidence>, id: string)
    requires WithId(s, id) != []
    ensures exists i :: 0 <= i < |s| && s[i].lockId == id
  {
    if s[0].lockId != id {
      WithIdFirst(s[1..], id);
      var i :| 0 <= i < |s[1..]| && s[1..][i].lockId == id;
      assert s[i + 1].lockId == id;
    }
  }

  lemma NoEvidence(s: seq<LockEvidence>)
    ensures s == [] <==> forall id :: WithId(s, id) == []
  {
    if s != [] { assert WithId(s, s[0].lockId) != []; }
  }

  lemma HeadFirst(s: seq<LockEvidence>, t: seq<LockEvidence>)
    requires InOrder(s) && s != [] && t != []
    requires forall id :: WithId(s, id) == WithId(t, id)
    ensures Leq(s[0].lockId, t[0].lockId)
  {
    assert WithId(t, t[0].lockId) != [];
    WithIdFirst(s, t[0].lockId);
    LeqTotal(s[0].lockId, s[0].lockId);
  }

  /** Two ordered lists that agree lock ID by lock ID are the same list. */
  lemma {:induction false} InOrderUnique(s: seq<LockEvidence>, t: seq<LockEvidence>)
    requires InOrder(s) && InOrder(t)
    requires forall id :: WithId(s, id) == WithId(t, id)
    ensures s == t
  {
    NoEvidence(s);
    NoEvidence(t);
    if s != [] {
      HeadFirst(s, t);
      HeadFirst(t, s);
      LeqTotal(s[0].lockId, t[0].lockId);
      var h := s[0].lockId;
      assert WithId(s, h)[0] == s[0] && WithId(t, h)[0] == t[0];
      forall id ensures WithId(s[1..], id) == WithId(t[1..], id) {
        var front := if h == id then [s[0]] else [];
        assert WithId(s, id) == front + WithId(s[1..], id);
        assert WithId(t, id) == front + WithId(t[1..], id);
        assert (front + WithId(s[1..], id))[|front|..] == WithId(s[1..], id);
        assert (front + WithId(t[1..], id))[|front|..] == WithId(t[1..], id);
      }
      InOrderUnique(s[1..], t[1..]);
      assert s == [s[0]] + s[1..] == [t[0]] + t[1..] == t;
    }
  }

  lemma StableSortUnique(s: seq<LockEvidence>, r: seq<LockEvidence>)
    requires InOrder(r) && forall id :: WithId(r, id) == WithId(s, id)
    ensures r == StableSort(s)
  {
    StableSortKeeps(s);
    InOrderUnique(r, StableSort(s));
  }

  lemma StableSortIdentity(s: seq<LockEvidence>)
    ensures StableSort(s) == s <==> InOrder(s)
    ensures StableSort(StableSort(s)) == StableSort(s)
  {
    StableSortKeeps(s);
    if InOrder(s) { StableSortUnique(s, s); }
    StableSortUnique(StableSort(s), StableSort(s));
  }

  lemma {:induction false} WithIdOnly(s: seq<LockEvidence>, i: nat)
    requires i < |s| && Distinct(LockIds(s))
    ensures WithId(s, s[i].lockId) == [s[i]]
  {
    var ids := LockIds(s);
    if i == 0 {
      forall j | 0 <= j < |s[1..]| ensures s[1..][j].lockId != s[0].lockId {
        assert ids[0] != ids[j + 1];
      }
      FilterNone(s[1..], HasId(s[0].lockId));
    } else {
      assert ids[0] != ids[i];
      forall a, b | 0 <= a < b < |s[1..]| ensures LockIds(s[1..])[a] != LockIds(s[1..])[b] {
        assert ids[a + 1] != ids[b + 1];
      }
      WithIdOnly(s[1..], i - 1);
    }
  }

  /** Completion order cannot matter: any two arrangements of the same evidence, one
      entry a lock, have the same canonical form. */
  lemma ArrangementIrrelevant(s: seq<LockEvidence>, t: seq<LockEvidence>)
    requires multiset(s) == multiset(t)
    requires Distinct(LockIds(s)) && Distinct(LockIds(t))
    ensures StableSort(s) == StableSort(t)
  {
    StableSortKeeps(s);
    forall id ensures WithId(StableSort(s), id) == WithId(t, id) {
      if i :| 0 <= i < |s| && s[i].lockId == id {
        assert s[i] in multiset(t);
        var j :| 0 <= j < |t| && t[j] == s[i];
        WithIdOnly(s, i);
        WithIdOnly(t, j);
      } else {
        FilterNone(s, HasId(id));
        forall j | 0 <= j < |t| ensures t[j].lockId != id {
          assert t[j] in multiset(s);
        }
        FilterNone(t, HasId(id));
      }
    }
    StableSortUnique(t, StableSort(s));
  }

  ghost predicate SameIds(s: seq<LockEvidence>, t: seq<LockEvidence>) {
    |s| == |t| && forall i :: 0 <= i < |s| ==> s[i].lockId == t[i].lockId
  }

  lemma {:induction false} PlaceInjective(x: LockEvidence, s: seq<LockEvidence>, y: LockEvidence, t: seq<LockEvidence>)
    requires x.lockId == y.lockId && SameIds(s, t)
    ensures SameIds(Place(x, s), Place(y, t))
    ensures Place(x, s) == Place(y, t) ==> x == y && s == t
  {
    if s != [] && Leq(s[0].lockId, x.lockId) {
      var p, q := Place(x, s[1..]), Place(y, t[1..]);
      PlaceInjective(x, s[1..], y, t[1..]);
      if [s[0]] + p == [t[0]] + q {
        HeadTail(s[0], p, t[0], q);
        assert s == [s[0]] + s[1..] && t == [t[0]] + t[1..];
      }
    } else if [x] + s == [y] + t {
      HeadTail(x, s, y, t);
    }
  }

  lemma HeadTail<T>(x: T, s: seq<T>, y: T, t: seq<T>)
    requires [x] + s == [y] + t
    ensures x == y && s == t
  {
    assert ([x] + s)[0] == x && ([y] + t)[0] == y;
    assert ([x] + s)[1..] == s && ([y] + t)[1..] == t;
  }

  /** Lists naming the same locks in the same places are told apart by their canonical forms. */
  lemma {:induction false} StableSortInjective(s: seq<LockEvidence>, t: seq<LockEvidence>)
    requires SameIds(s, t)
    ensures SameIds(StableSort(s), StableSort(t))
    ensures StableSort(s) == StableSort(t) ==> s == t
  {
    if s != [] {
      var n := |s| - 1;
      StableSortInjective(s[..n], t[..n]);
      PlaceInjective(s[n], StableSort(s[..n]), t[n], StableSort(t[..n]));
      SameSplit(s, t);
    }
  }

  // ---- Final verdict (`aggregateEvidence`) ----

  function FinalVerdict(evidence: seq<LockEvidence>): string {
    if evidence == [] then CLOSED
    else
      var decision, status := FinalVerdict(evidence[..|evidence| - 1]), evidence[|evidence| - 1].status;
      if Precedence(status) > Precedence(decision) then status else decision
  }

  method AggregateEvidence(evidence: seq<LockEvidence>) returns (decision: string)
    ensures decision == FinalVerdict(evidence)
  {
    decision := CLOSED;
    for i := 0 to |evidence|
      invariant decision == FinalVerdict(evidence[..i])
    {
      assert evidence[..i + 1][..i] == evidence[..i];
      if Precedence(evidence[i].status) > Precedence(decision) {
        decision := evidence[i].status;
      }
    }
    assert evidence[..|evidence|] == evidence;
  }

  lemma {:induction false} NoneAbove(evidence: seq<LockEvidence>, i: nat)
    requires i < |evidence|
    ensures Precedence(evidence[i].status) <= Precedence(FinalVerdict(evidence))
  {
    if i < |evidence| - 1 { NoneAbove(evidence[..|evidence| - 1], i); }
  }

  lemma {:induction false} VerdictOccurs(evidence: seq<LockEvidence>) returns (i: nat)
    requires FinalVerdict(evidence) != CLOSED
    ensures i < |evidence| && evidence[i].status == FinalVerdict(evidence)
  {
    var n := |evidence| - 1;
    if evidence[n].status == FinalVerdict(evidence) {
      i := n;
    } else {
      i := VerdictOccurs(evidence[..n]);
    }
  }

  /** The verdict is CLOSED or some entry's status, and none takes precedence over it. */
  lemma VerdictDominates(evidence: seq<LockEvidence>)
    ensures forall i :: 0 <= i < |evidence| ==> Precedence(evidence[i].status) <= Precedence(FinalVerdict(evidence))
    ensures FinalVerdict(evidence) == CLOSED ||
            exists i :: 0 <= i < |evidence| && evidence[i].status == FinalVerdict(evidence)
  {
    forall i | 0 <= i < |evidence| ensures Precedence(evidence[i].status) <= Precedence(FinalVerdict(evidence)) {
      NoneAbove(evidence, i);
    }
    if FinalVerdict(evidence) != CLOSED {
      var i := VerdictOccurs(evidence);
    }
  }

  ghost predicate KnownStatus(e: LockEvidence) {
    e.status == CLOSED || e.status == UNKNOWN || e.status == REFUTED
  }

  /** REFUTED > UNKNOWN > CLOSED, whatever the length and order of the evidence. */
  lemma {:induction false} VerdictPrecedence(evidence: seq<LockEvidence>)
    requires forall e :: e in evidence ==> KnownStatus(e)
    ensures FinalVerdict(evidence) ==
            if exists e :: e in evidence && e.status == REFUTED then REFUTED
            else if exists e :: e in evidence && e.status == UNKNOWN then UNKNOWN
            else CLOSED
  {
    if evidence != [] {
      var front, last := evidence[..|evidence| - 1], evidence[|evidence| - 1];
      assert evidence == front + [last];
      VerdictPrecedence(front);
      assert last in evidence;
      assert forall e :: e in front ==> e in evidence;
      assert forall e :: e in evidence ==> e in front || e == last;
    }
  }

  /** All statuses besides the three known ones are the same: none, or for instance empty slots. */
  ghost predicate OneForeignStatus(s: seq<LockEvidence>) {
    forall e, f :: e in s && f in s && !KnownStatus(e) && !KnownStatus(f) ==> e.status == f.status
  }

  lemma SameEntries(s: seq<LockEvidence>, t: seq<LockEvidence>)
    requires multiset(s) == multiset(t)
    ensures forall e :: e in s <==> e in t
  {
    forall e ensures e in s <==> e in t {
      assert e in s <==> e in multiset(s);
      assert e in t <==> e in multiset(t);
    }
  }

  lemma NoHigherVerdict(s: seq<LockEvidence>, t: seq<LockEvidence>)
    requires forall e :: e in s ==> e in t
    ensures Precedence(FinalVerdict(s)) <= Precedence(FinalVerdict(t))
  {
    if FinalVerdict(s) != CLOSED {
      var i := VerdictOccurs(s);
      assert s[i] in t;
      var j :| 0 <= j < |t| && t[j] == s[i];
      NoneAbove(t, j);
    }
  }

  /** Rearranging the evidence keeps the verdict if no two foreign statuses compete. */
  lemma VerdictArrangement(s: seq<LockEvidence>, t: seq<LockEvidence>)
    requires multiset(s) == multiset(t)
    requires OneForeignStatus(s)
    ensures FinalVerdict(s) == FinalVerdict(t)
  {
    SameEntries(s, t);
    NoHigherVerdict(s, t);
    NoHigherVerdict(t, s);
    if FinalVerdict(s) != CLOSED && FinalVerdict(t) != CLOSED {
      var i := VerdictOccurs(s);
      var j := VerdictOccurs(t);
      assert s[i] in s && t[j] in s;
    }
  }

  lemma {:induction false} ForeignFirstWins(e: LockEvidence, rest: seq<LockEvidence>)
    requires !KnownStatus(e)
    ensures FinalVerdict([e] + rest) == e.status
  {
    var s := [e] + rest;
    if rest == [] {
      assert s[..0] == [];
    } else {
      assert s[..|s| - 1] == [e] + rest[..|rest| - 1];
      ForeignFirstWins(e, rest[..|rest| - 1]);
    }
  }

  lemma ForeignToFront(s: seq<LockEvidence>, e: LockEvidence) returns (t: seq<LockEvidence>)
    requires e in s && !KnownStatus(e)
    ensures multiset(t) == multiset(s) && FinalVerdict(t) == e.status
  {
    var i :| 0 <= i < |s| && s[i] == e;
    MultisetWithout(s, i);
    t := [e] + (s[..i] + s[i + 1..]);
    ForeignFirstWins(e, s[..i] + s[i + 1..]);
  }

  /** The verdict is free of arrangement exactly when no two foreign statuses compete. */
  lemma VerdictArrangementFree(s: seq<LockEvidence>)
    ensures (forall t :: multiset(t) == multiset(s) ==> FinalVerdict(t) == FinalVerdict(s)) <==> OneForeignStatus(s)
  {
    if OneForeignStatus(s) {
      forall t | multiset(t) == multiset(s) ensures FinalVerdict(t) == FinalVerdict(s) { VerdictArrangement(s, t); }
    } else {
      var e, f :| e in s && f in s && !KnownStatus(e) && !KnownStatus(f) && e.status != f.status;
      var t := ForeignToFront(s, e);
      var u := ForeignToFront(s, f);
    }
  }

  /** The verdict depends on the statuses alone. */
  lemma {:induction false} VerdictOfStatuses(s: seq<LockEvidence>, t: seq<LockEvidence>)
    requires |s| == |t| && forall i :: 0 <= i < |s| ==> s[i].status == t[i].status
    ensures FinalVerdict(s) == FinalVerdict(t)
  {
    if s != [] { VerdictOfStatuses(s[..|s| - 1], t[..|t| - 1]); }
  }

  // ---- Metrics (`summarizeMetrics`) ----

  predicate IsReused(e: LockEvidence) { e.reused }
  predicate IsCompleted(e: LockEvidence) { e.status == CLOSED && !e.reused }
  predicate IsUnknown(e: LockEvidence) { e.status == UNKNOWN }
  predicate IsRefuted(e: LockEvidence) { e.status == REFUTED }

  function RequestsOf(e: LockEvidence): int { e.requestCount }

  function MetricsOf(evidence: seq<LockEvidence>, wallMs: int, maxInFlight: int): Metrics {
    Metrics(wallMs, Total(evidence, RequestsOf), maxInFlight,
            Count(evidence, IsCompleted), Count(evidence, IsReused),
            Count(evidence, IsUnknown), Count(evidence, IsRefuted))
  }

  /** Metrics add up over the parts of a list, and each entry counts for its requests and for
      at most one of the four kinds by its status and reuse. */
  lemma MetricsMeaning(s: seq<LockEvidence>, e: LockEvidence, wallMs: int, maxInFlight: int)
    ensures MetricsOf([], wallMs, maxInFlight) == Metrics(wallMs, 0, maxInFlight, 0, 0, 0, 0)
    ensures var before, after := MetricsOf(s, wallMs, maxInFlight), MetricsOf(s + [e], wallMs, maxInFlight);
            && after.wallMs == wallMs && after.maxInFlight == maxInFlight
            && after.requests - before.requests == e.requestCount
            && after.completed - before.completed == (if e.status == "CLOSED" && !e.reused then 1 else 0)
            && after.reused - before.reused == (if e.reused then 1 else 0)
            && after.unknown - before.unknown == (if e.status == "UNKNOWN" then 1 else 0)
            && after.refuted - before.refuted == (if e.status == "REFUTED" then 1 else 0)
  {
    assert (s + [e])[..|s|] == s;
  }

  method SummarizeMetrics(evidence: seq<LockEvidence>, elapsedMs: int, maxInFlight: int) returns (metrics: Metrics)
    ensures metrics == MetricsOf(evidence, elapsedMs, maxInFlight)
  {
    metrics := Metrics(elapsedMs, 0, maxInFlight, 0, 0, 0, 0);
    for i := 0 to |evidence|
      invariant metrics == MetricsOf(evidence[..i], elapsedMs, maxInFlight)
    {
      var item := evidence[i];
      assert evidence[..i + 1][..i] == evidence[..i];
      metrics := metrics.(requests := metrics.requests + item.requestCount);
      if item.reused {
        metrics := metrics.(reused := metrics.reused + 1);
      }
      if item.status == CLOSED {
        if !item.reused {
          metrics := metrics.(completed := metrics.completed + 1);
        }
      } else if item.status == UNKNOWN {
        metrics := metrics.(unknown := metrics.unknown + 1);
      } else if item.status == REFUTED {
        metrics := metrics.(refuted := metrics.refuted + 1);
      }
    }
    assert evidence[..|evidence|] == evidence;
  }

  ghost predicate Fetched(e: LockEvidence, retry: RetryPolicy) {
    exists lock :: EvidenceInvariant(lock, retry, e)
  }

  /** Every one of `n` locks is counted once, and requests stay within the attempts allowed. */
  ghost predicate Balanced(n: nat, attempts: nat, m: Metrics) {
    && m.completed + m.reused + m.unknown + m.refuted == n
    && n - m.reused <= m.requests <= attempts * (n - m.reused)
  }

  predicate IsStored(e: LockEvidence) { e.status != "" }

  /** Slots that nothing was stored to count nowhere. */
  lemma {:induction false} Conservation(evidence: seq<LockEvidence>, retry: RetryPolicy, wallMs: int, maxInFlight: int)
    requires forall e :: e in evidence ==> Fetched(e, retry) || e == ZERO_EVIDENCE
    ensures Balanced(Count(evidence, IsStored), MaxAttempts(retry), MetricsOf(evidence, wallMs, maxInFlight))
  {
    if evidence != [] {
      var front, last := evidence[..|evidence| - 1], evidence[|evidence| - 1];
      Conservation(front, retry, wallMs, maxInFlight);
      assert last in evidence;
      var f := Count(front, IsStored) - Count(front, IsReused);
      assert MaxAttempts(retry) * (f + 1) == MaxAttempts(retry) * f + MaxAttempts(retry);
    }
  }

  lemma AllStored(evidence: seq<LockEvidence>, retry: RetryPolicy)
    requires forall e :: e in evidence ==> Fetched(e, retry)
    ensures Count(evidence, IsStored) == |evidence|
  {
    CountAll(evidence, IsStored);
  }

  /** One slot never stored to takes the verdict over: no known status beats it. */
  lemma EmptySlotVerdict(evidence: seq<LockEvidence>, retry: RetryPolicy)
    requires forall e :: e in evidence ==> Fetched(e, retry) || e == ZERO_EVIDENCE
    requires ZERO_EVIDENCE in evidence
    ensures FinalVerdict(evidence) == ""
  {
    var j :| 0 <= j < |evidence| && evidence[j] == ZERO_EVIDENCE;
    NoneAbove(evidence, j);
    var i := VerdictOccurs(evidence);
    assert evidence[i] in evidence;
  }

  /** Arranging the evidence differently changes no metric. */
  lemma MetricsArrangement(s: seq<LockEvidence>, t: seq<LockEvidence>, wallMs: int, maxInFlight: int)
    requires multiset(s) == multiset(t)
    ensures MetricsOf(s, wallMs, maxInFlight) == MetricsOf(t, wallMs, maxInFlight)
  {
    TotalPermutes(s, t, RequestsOf);
    CountPermutes(s, t, IsCompleted);
    CountPermutes(s, t, IsReused);
    CountPermutes(s, t, IsUnknown);
    CountPermutes(s, t, IsRefuted);
  }

  function VerdictOfCounters(m: Metrics): string {
    if m.refuted > 0 then REFUTED else if m.unknown > 0 then UNKNOWN else CLOSED
  }

  /** The counters and the final verdict tell the same story. */
  lemma VerdictAgreesWithMetrics(evidence: seq<LockEvidence>, retry: RetryPolicy, wallMs: int, maxInFlight: int)
    requires forall e :: e in evidence ==> Fetched(e, retry)
    ensures FinalVerdict(evidence) == VerdictOfCounters(MetricsOf(evidence, wallMs, maxInFlight))
  {
    VerdictPrecedence(evidence);
    CountPositive(evidence, IsRefuted);
    CountPositive(evidence, IsUnknown);
    assert (exists e :: e in evidence && e.status == REFUTED) <==>
           exists i :: 0 <= i < |evidence| && IsRefuted(evidence[i]);
    assert (exists e :: e in evidence && e.status == UNKNOWN) <==>
           exists i :: 0 <= i < |evidence| && IsUnknown(evidence[i]);
  }
}

/** The checks of `LoadFixture` and `LoadCasesFixture` make the fixture maps total. */
module Fixtures {
  import opened Model
  import opened Declarations
  import opened Sequences
  import opened Graph
  import opened Fetch
  import opened Comparison

  datatype FixtureRecord = FixtureRecord(lockId: string, httpStatus: int, observedCoordinate: Option<string>,
                                         observedDigest: Option<string>, bodyMode: string)

  datatype CaseDecl = CaseDecl(ordinal: int, id: string, kind: string, expected: string)

  datatype CaseFixture = CaseFixture(
    id: string, kind: string, httpStatus: int,
    expectedCoordinate: string, observedCoordinate: Option<string>,
    expectedDigest: string, observedDigest: Option<string>,
    raceField: string, raceBaseline: string, raceCandidate: string)

  datatype CaseResult = CaseResult(ordinal: int, caseId: string, expected: string, decision: string, reason: string,
                                   unknown: Option<Unknown>, counterexample: Option<Counterexample>)

  /** Both lists name the same things, each once. */
  ghost predicate OneToOne(names: seq<string>, declared: seq<string>) {
    Distinct(names) && Distinct(declared) && forall x :: x in names <==> x in declared
  }

  function RecordId(r: FixtureRecord): string { r.lockId }
  function DeclId(d: CaseDecl): string { d.id }
  function CaseId(c: CaseFixture): string { c.id }

  ghost predicate CompleteRecord(r: FixtureRecord) {
    && (r.httpStatus == 200 ==> r.observedCoordinate.Some? && r.observedDigest.Some?)
    && r.bodyMode != ""
  }

  ghost predicate FixtureAccepted(records: seq<FixtureRecord>, locks: seq<Lock>) {
    && OneToOne(Names(records, RecordId), Ids(locks))
    && (forall i :: 0 <= i < |records| ==> CompleteRecord(records[i]))
    && (forall i :: 0 <= i < |locks| ==> locks[i].behavior != "")
  }

  lemma OneToOneSize(names: seq<string>, declared: seq<string>)
    requires OneToOne(names, declared)
    ensures |names| == |declared|
  {
    DistinctSize(names);
    DistinctSize(declared);
    assert Elements(names) == Elements(declared);
  }

  /** As many different record IDs as locks, all declared with a behavior: every lock is met. */
  lemma RecordsCover(ids: seq<string>, locks: seq<Lock>)
    requires |ids| == |locks| && Distinct(ids)
    requires forall k :: 0 <= k < |ids| ==> ids[k] in LockMap(locks) && LockMap(locks)[ids[k]].behavior != ""
    ensures OneToOne(ids, Ids(locks))
    ensures forall i :: 0 <= i < |locks| ==> locks[i].behavior != ""
  {
    KeysAreIds(locks);
    Pigeonhole(ids, Ids(locks));
    forall k | 0 <= k < |locks| ensures locks[k].behavior != "" {
      LockMapFinds(locks, k);
      assert Ids(locks)[k] in ids;
      var i :| 0 <= i < |ids| && ids[i] == Ids(locks)[k];
    }
  }

  method CheckFixture(records: seq<FixtureRecord>, locks: seq<Lock>) returns (ok: bool)
    ensures ok <==> FixtureAccepted(records, locks)
  {
    var ids := Names(records, RecordId);
    KeysAreIds(locks);
    if |records| != |locks| {
      if OneToOne(ids, Ids(locks)) { OneToOneSize(ids, Ids(locks)); }
      return false;
    }
    var known := LockMap(locks);
    var seen: set<string> := {};
    for i := 0 to |records|
      invariant seen == Elements(ids[..i])
      invariant Distinct(ids[..i])
      invariant forall k :: 0 <= k < i ==> ids[k] in known && known[ids[k]].behavior != "" && CompleteRecord(records[k])
    {
      var record := records[i];
      assert ids[..i + 1] == ids[..i] + [record.lockId];
      DistinctAppend(ids[..i], record.lockId);
      assert ids[i] in ids;
      if record.lockId !in known || record.lockId in seen {
        if Distinct(ids) { PrefixDistinct(ids, i + 1); }
        return false;
      }
      seen := seen + {record.lockId};
      if record.httpStatus == 200 && (record.observedCoordinate == None || record.observedDigest == None) {
        return false;
      }
      if record.bodyMode == "" {
        return false;
      }
      if known[record.lockId].behavior == "" {
        var k := LockMapSource(locks, record.lockId);
        return false;
      }
    }
    assert ids[..|records|] == ids;
    RecordsCover(ids, locks);
    return true;
  }

  lemma PrefixDistinct(ids: seq<string>, n: nat)
    requires n <= |ids| && Distinct(ids)
    ensures Distinct(ids[..n])
  {
  }

  /** After an accepted load each lock has a record, its own, and no other lock has it. */
  lemma FixtureTotal(records: seq<FixtureRecord>, locks: seq<Lock>, k: nat)
    requires FixtureAccepted(records, locks) && k < |locks|
    ensures locks[k].id in ByName(records, RecordId)
    ensures ByName(records, RecordId)[locks[k].id].lockId == locks[k].id &&
            ByName(records, RecordId)[locks[k].id] in records
    ensures exists i :: 0 <= i < |records| && records[i].lockId == locks[k].id
                        && forall j :: 0 <= j < |records| && records[j].lockId == locks[k].id ==> j == i
  {
    assert Ids(locks)[k] in Ids(locks);
    var i := UniqueOccurrence(Names(records, RecordId), locks[k].id);
    ByNameFinds(records, RecordId, i);
  }

  // ---- Canonical cases ----

  ghost predicate CasesAccepted(cases: seq<CaseFixture>, decls: seq<CaseDecl>) {
    OneToOne(Names(cases, CaseId), Names(decls, DeclId)) && forall i :: 0 <= i < |decls| ==> decls[i].expected != ""
  }

  lemma CasesCover(ids: seq<string>, decls: seq<CaseDecl>)
    requires |ids| == |decls| && Distinct(ids)
    requires forall k :: 0 <= k < |ids| ==>
             ids[k] in ByName(decls, DeclId) && ByName(decls, DeclId)[ids[k]].expected != ""
    ensures OneToOne(ids, Names(decls, DeclId))
    ensures forall i :: 0 <= i < |decls| ==> decls[i].expected != ""
  {
    forall k | 0 <= k < |ids| ensures ids[k] in Names(decls, DeclId) { ByNameKeys(decls, DeclId, ids[k]); }
    Pigeonhole(ids, Names(decls, DeclId));
    forall k | 0 <= k < |decls| ensures decls[k].expected != "" {
      ByNameFinds(decls, DeclId, k);
      assert Names(decls, DeclId)[k] in ids;
      var i :| 0 <= i < |ids| && ids[i] == Names(decls, DeclId)[k];
    }
  }

  method CheckCases(cases: seq<CaseFixture>, decls: seq<CaseDecl>) returns (ok: bool)
    ensures ok <==> CasesAccepted(cases, decls)
  {
    var ids := Names(cases, CaseId);
    if |cases| != |decls| {
      if OneToOne(ids, Names(decls, DeclId)) { OneToOneSize(ids, Names(decls, DeclId)); }
      return false;
    }
    var declared := ByName(decls, DeclId);
    forall id ensures id in declared <==> id in Names(decls, DeclId) { ByNameKeys(decls, DeclId, id); }
    var seen: set<string> := {};
    for i := 0 to |cases|
      invariant seen == Elements(ids[..i])
      invariant Distinct(ids[..i])
      invariant forall k :: 0 <= k < i ==> ids[k] in declared && declared[ids[k]].expected != ""
    {
      var item := cases[i];
      assert ids[..i + 1] == ids[..i] + [item.id];
      DistinctAppend(ids[..i], item.id);
      assert ids[i] in ids;
      if item.id !in declared || item.id in seen {
        if Distinct(ids) { PrefixDistinct(ids, i + 1); }
        return false;
      }
      if declared[item.id].expected == "" {
        var k := ByNameSource(decls, DeclId, item.id);
        return false;
      }
      seen := seen + {item.id};
    }
    assert ids[..|cases|] == ids;
    CasesCover(ids, decls);
    return true;
  }

  // ---- Evaluation of the cases ----

  const RACE := "race-divergence"

  predicate Unreadable(item: CaseFixture) {
    || item.httpStatus != OK
    || item.kind == "missing" || item.kind == "timeout" || item.kind == "rate-limit" || item.kind == "ambiguous"
  }

  /** `evaluateCase`; `caps` is the spelling of a kind in capitals with underscores. */
  function EvaluateCase(caps: string -> string, declaration: CaseDecl, item: CaseFixture): CaseResult {
    var open := CaseResult(declaration.ordinal, declaration.id, declaration.expected, UNKNOWN, "CASE_NOT_EVALUATED",
                           None, None);
    if item.kind == RACE then
      open.(decision := REFUTED, reason := "CONCURRENCY_RACE_CHANGED_RESULT",
            counterexample := Some(Counterexample("RACE_DIVERGENCE", item.raceField, item.raceBaseline,
                                                  item.raceCandidate)))
    else if Unreadable(item) then
      var reason := caps(item.kind) + "_HTTP_EVIDENCE";
      open.(reason := reason,
            unknown := Some(Unknown("CASE", "READ_HTTP_EVIDENCE", reason, caps(item.kind), "RESTORE_CASE_EVIDENCE",
                                    ["case:" + declaration.id])))
    else if item.observedCoordinate != Some(item.expectedCoordinate) then
      open.(decision := REFUTED, reason := "COORDINATE_CONTRADICTION",
            counterexample := Some(Counterexample("COORDINATE_CONTRADICTION", "coordinate", item.expectedCoordinate,
                                                  PointerValue(item.observedCoordinate))))
    else if item.observedDigest != Some(item.expectedDigest) then
      open.(decision := REFUTED, reason := "KNOWN_DIGEST_MISMATCH",
            counterexample := Some(Counterexample("KNOWN_DIGEST_MISMATCH", "digest", item.expectedDigest,
                                                  PointerValue(item.observedDigest))))
    else
      open.(decision := CLOSED, reason := "CASE_EVIDENCE_EXACT")
  }

  /** Evidence to judge a case by: a 200 answer of none of the kinds that stand for its absence. */
  ghost predicate Judged(item: CaseFixture) {
    item.httpStatus == 200 && item.kind !in {"missing", "timeout", "rate-limit", "ambiguous"}
  }

  /** A case closes exactly on evidence that repeats what is expected; a race is refuted
      whatever was observed; only UNKNOWN carries a tuple, only REFUTED a counterexample. */
  lemma CaseMeaning(caps: string -> string, declaration: CaseDecl, item: CaseFixture)
    ensures var r := EvaluateCase(caps, declaration, item);
            var race := item.kind == "race-divergence";
            var exact := item.observedCoordinate == Some(item.expectedCoordinate) &&
              item.observedDigest == Some(item.expectedDigest);
            && r.ordinal == declaration.ordinal && r.caseId == declaration.id && r.expected == declaration.expected
            && (r.decision == "CLOSED" <==> !race && Judged(item) && exact)
            && (r.decision == "REFUTED" <==> race || (Judged(item) && !exact))
            && (r.decision == "UNKNOWN" <==> !race && !Judged(item))
            && (r.unknown.Some? <==> r.decision == "UNKNOWN")
            && (r.counterexample.Some? <==> r.decision == "REFUTED")
  {
  }

  /** Reason, tuple and counterexample of a case. A counterexample shows the expected value as
      expected and the observed one, or `<null>`, as observed: the coordinate before the digest. */
  lemma CaseReasons(caps: string -> string, declaration: CaseDecl, item: CaseFixture)
    ensures var r := EvaluateCase(caps, declaration, item);
            var race, same := item.kind == "race-divergence", item.observedCoordinate == Some(item.expectedCoordinate);
            && (r.decision == "CLOSED" ==> r.reason == "CASE_EVIDENCE_EXACT")
            && (r.decision == "UNKNOWN" ==>
                  && r.reason == caps(item.kind) + "_HTTP_EVIDENCE"
                  && r.unknown == Some(Unknown("CASE", "READ_HTTP_EVIDENCE", r.reason, caps(item.kind),
                                               "RESTORE_CASE_EVIDENCE", ["case:" + declaration.id])))
            && (r.decision == "REFUTED" && race ==>
                  && r.reason == "CONCURRENCY_RACE_CHANGED_RESULT"
                  && Contradicts(r.counterexample, "RACE_DIVERGENCE", item.raceField, item.raceBaseline,
                                 item.raceCandidate))
            && (r.decision == "REFUTED" && !race ==>
                  && r.reason == (if !same then "COORDINATE_CONTRADICTION" else "KNOWN_DIGEST_MISMATCH")
                  && r.counterexample.Some? && r.counterexample.value.kind == r.reason
                  && r.counterexample.value.field == (if !same then "coordinate" else "digest")
                  && r.counterexample.value.expected == (if !same then item.expectedCoordinate else item.expectedDigest)
                  && Shows(r.counterexample.value.observed, if !same then item.observedCoordinate
                    else item.observedDigest))
  {
  }

  /** What an accepted fixture does not guarantee: the tuple of an UNKNOWN case is complete
      exactly when its kind is named, and a REFUTED case shows a difference except for a race
      between equal sides or a missing value where `<null>` is expected. */
  lemma CaseEvidence(caps: string -> string, declaration: CaseDecl, item: CaseFixture)
    requires forall s :: caps(s) == "" <==> s == ""
    ensures var r := EvaluateCase(caps, declaration, item);
            && (r.decision == UNKNOWN ==> r.unknown.Some? && (r.unknown.value.Complete() <==> item.kind != ""))
            && (r.decision == REFUTED ==>
                  r.counterexample.Some? &&
                  (r.counterexample.value.expected == r.counterexample.value.observed <==>
                   if item.kind == RACE then item.raceBaseline == item.raceCandidate
                   else if item.observedCoordinate != Some(item.expectedCoordinate) then
                     item.observedCoordinate == None && item.expectedCoordinate == "<null>"
                   else item.observedDigest == None && item.expectedDigest == "<null>"))
  {
  }

  datatype Evaluation = Missing(id: string) | Unexpected(id: string) | Evaluated(results: seq<CaseResult>)

  ghost predicate AsDeclared(caps: string -> string, items: map<string, CaseFixture>, declaration: CaseDecl) {
    declaration.id in items && EvaluateCase(caps, declaration, items[declaration.id]).decision == declaration.expected
  }

  ghost predicate FirstFailure(caps: string -> string, items: map<string, CaseFixture>, decls: seq<CaseDecl>, i: nat) {
    && i < |decls| && !AsDeclared(caps, items, decls[i])
    && forall k :: 0 <= k < i ==> AsDeclared(caps, items, decls[k])
  }

  /** `EvaluateCanonicalCases` reports the first case that fails, if any. After an accepted load
      the missing-fixture error cannot occur, so it succeeds exactly when every case decides
      as declared. */
  method EvaluateCases(caps: string -> string, decls: seq<CaseDecl>, cases: seq<CaseFixture>) returns (r: Evaluation)
    ensures r.Evaluated? <==> forall i :: 0 <= i < |decls| ==> AsDeclared(caps, ByName(cases, CaseId), decls[i])
    ensures r.Evaluated? ==> |r.results| == |decls| && forall i :: 0 <= i < |decls| ==>
              r.results[i].decision == decls[i].expected &&
                r.results[i] == EvaluateCase(caps, decls[i], ByName(cases, CaseId)[decls[i].id])
    ensures !r.Evaluated? ==>
              exists i: nat :: FirstFailure(caps, ByName(cases, CaseId), decls, i) && decls[i].id == r.id
    ensures !r.Evaluated? ==> (r.Missing? <==> r.id !in ByName(cases, CaseId))
    ensures CasesAccepted(cases, decls) ==> !r.Missing?
  {
    var items := ByName(cases, CaseId);
    var results: seq<CaseResult> := [];
    for i := 0 to |decls|
      invariant |results| == i
      invariant forall k :: 0 <= k < i ==> AsDeclared(caps, items, decls[k])
      invariant forall k :: 0 <= k < i ==> results[k] == EvaluateCase(caps, decls[k], items[decls[k].id])
    {
      var declaration := decls[i];
      assert Names(decls, DeclId)[i] in Names(decls, DeclId);
      if declaration.id !in items {
        ByNameKeys(cases, CaseId, declaration.id);
        assert FirstFailure(caps, items, decls, i);
        return Missing(declaration.id);
      }
      var result := EvaluateCase(caps, declaration, items[declaration.id]);
      if result.decision != declaration.expected {
        assert FirstFailure(caps, items, decls, i);
        return Unexpected(declaration.id);
      }
      results := results + [result];
    }
    return Evaluated(results);
  }
}

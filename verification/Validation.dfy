/** `validateSource`, and what it leaves open. */
module Validation {
  import opened Model
  import opened Sequences
  import opened Ordering
  import opened Graph
  import opened Layering
  import opened Kahn

  ghost predicate CompleteLock(lock: Lock) {
    lock.id != "" && lock.coordinate != "" && lock.digest != "" && lock.latencyMs >= 0
  }

  ghost predicate Accepted(source: Source) {
    && 1 <= source.concurrencyBound <= 64
    && 1 <= source.retry.maxAttempts <= 3
    && |source.canonicalOrder| == |source.locks|
    && Distinct(Ids(source.locks))
    && (forall i :: 0 <= i < |source.locks| ==> CompleteLock(source.locks[i]))
    && (forall id :: id in source.canonicalOrder ==> id in LockMap(source.locks))
  }

  method CheckLocks(locks: seq<Lock>) returns (ok: bool, seen: set<string>)
    ensures ok <==> Distinct(Ids(locks)) && forall i :: 0 <= i < |locks| ==> CompleteLock(locks[i])
    ensures ok ==> seen == LockMap(locks).Keys
  {
    seen := {};
    for i := 0 to |locks|
      invariant seen == LockMap(locks[..i]).Keys
      invariant Distinct(Ids(locks[..i]))
      invariant forall k :: 0 <= k < i ==> CompleteLock(locks[k])
    {
      var lock := locks[i];
      var next := locks[..i + 1];
      assert next[..i] == locks[..i];
      assert Ids(next) == Ids(locks[..i]) + [lock.id];
      KeysAreIds(locks[..i]);
      DistinctAppend(Ids(locks[..i]), lock.id);
      if lock.id in seen {
        PrefixRepeats(locks, i + 1);
        return false, seen;
      }
      seen := seen + {lock.id};
      if lock.id == "" || lock.coordinate == "" || lock.digest == "" || lock.latencyMs < 0 {
        return false, seen;
      }
    }
    assert locks[..|locks|] == locks;
    return true, seen;
  }

  lemma PrefixRepeats(locks: seq<Lock>, i: nat)
    requires i <= |locks| && !Distinct(Ids(locks[..i]))
    ensures !Distinct(Ids(locks))
  {
    var a, b :| 0 <= a < b < i && Ids(locks[..i])[a] == Ids(locks[..i])[b];
    assert Ids(locks)[a] == Ids(locks)[b];
  }

  const SCHEMA := "gooo/deterministic-proof-fetch-scheduler/v1"
  const CONTRACT_ID := "deterministic-proof-fetch-scheduler-v1"

  datatype Contract = Contract(schema: string, contractId: string, version: string, fixedLockCount: int,
                               fixedCaseCount: int)

  /** What `validateSource` reads of a source beyond its locks and order. The authority
      counters are the nine of the source, in their order. */
  datatype Header = Header(schema: string, version: string, caseCount: nat, authority: seq<int>,
                           operationalRefuted: bool, failureDeletesForbidden: bool)

  ghost predicate HeaderAccepted(header: Header, contract: Contract, lockCount: nat) {
    && header.schema == contract.schema == "gooo/deterministic-proof-fetch-scheduler/v1"
    && header.version == contract.version == "v1"
    && contract.contractId == "deterministic-proof-fetch-scheduler-v1"
    && lockCount == contract.fixedLockCount == 53
    && header.caseCount == contract.fixedCaseCount == 9
    && (forall i :: 0 <= i < |header.authority| ==> header.authority[i] == 0)
    && header.operationalRefuted && header.failureDeletesForbidden
  }

  method CheckSource(source: Source, header: Header, contract: Contract) returns (ok: bool)
    ensures ok <==> Accepted(source) && HeaderAccepted(header, contract, |source.locks|)
  {
    if header.schema != SCHEMA || header.version != "v1" {
      return false;
    }
    if contract.schema != SCHEMA || contract.contractId != CONTRACT_ID || contract.version != "v1" {
      return false;
    }
    if |source.locks| != contract.fixedLockCount || |source.locks| != 53 {
      return false;
    }
    if header.caseCount != contract.fixedCaseCount || header.caseCount != 9 {
      return false;
    }
    var accepted := CheckLocksAndOrder(source);
    if !accepted {
      return false;
    }
    if exists i :: 0 <= i < |header.authority| && header.authority[i] != 0 {
      return false;
    }
    return header.operationalRefuted && header.failureDeletesForbidden;
  }

  method CheckLocksAndOrder(source: Source) returns (ok: bool)
    ensures ok <==> Accepted(source)
  {
    if source.concurrencyBound < 1 || source.concurrencyBound > 64 {
      return false;
    }
    if source.retry.maxAttempts < 1 || source.retry.maxAttempts > 3 {
      return false;
    }
    if |source.canonicalOrder| != |source.locks| {
      return false;
    }
    var complete, seen := CheckLocks(source.locks);
    if !complete {
      return false;
    }
    for i := 0 to |source.canonicalOrder|
      invariant forall k :: 0 <= k < i ==> source.canonicalOrder[k] in LockMap(source.locks)
    {
      if source.canonicalOrder[i] !in seen {
        assert source.canonicalOrder[i] in source.canonicalOrder;
        return false;
      }
    }
    return true;
  }

  // ---- "Every lock exactly once" ----

  lemma SameDistinct(a: seq<string>, b: seq<string>)
    requires Distinct(a) && Distinct(b) && forall x :: x in a <==> x in b
    ensures multiset(a) == multiset(b)
  {
    DistinctMultiset(a);
    DistinctMultiset(b);
    forall x ensures multiset(a)[x] == multiset(b)[x] {
      assert x in a <==> multiset(a)[x] > 0;
      assert x in b <==> multiset(b)[x] > 0;
    }
  }

  lemma CoveringIsDistinct(order: seq<string>, pool: set<string>)
    requires |order| == |pool| && forall x :: x in order <==> x in pool
    ensures Distinct(order)
  {
    ElementsBound(order);
    assert Elements(order) == pool;
  }

  /** An accepted order holds every lock exactly once exactly when it repeats no ID,
      equivalently when it leaves no lock out. */
  lemma ExactlyOnce(source: Source)
    requires Accepted(source)
    ensures Distinct(source.canonicalOrder) <==>
            forall id :: id in LockMap(source.locks) ==> id in source.canonicalOrder
    ensures Distinct(source.canonicalOrder) <==> multiset(source.canonicalOrder) == multiset(Ids(source.locks))
  {
    var order, ids := source.canonicalOrder, Ids(source.locks);
    KeyCount(source.locks);
    KeysAreIds(source.locks);
    if Distinct(order) {
      FullWhenEqual(order, LockMap(source.locks).Keys);
      SameDistinct(order, ids);
    }
    if forall id :: id in LockMap(source.locks) ==> id in order {
      CoveringIsDistinct(order, LockMap(source.locks).Keys);
    }
    if multiset(order) == multiset(ids) {
      DistinctMultiset(order);
      DistinctMultiset(ids);
    }
  }

  /** The order with its last entry replaced by the one before. */
  function RepeatLast(order: seq<string>): (r: seq<string>)
    requires |order| >= 2
    ensures |r| == |order|
  {
    order[|order| - 1 := order[|order| - 2]]
  }

  /** The checks let a repeated ID through: any source that they accept and that layers
      keeps both when the last entry is overwritten, and then leaves a lock out. */
  lemma RepeatedOrderPasses(source: Source)
    requires Accepted(source) && ValidDag(source) && Distinct(source.canonicalOrder) && |source.locks| >= 2
    requires DependencyRespecting(LockMap(source.locks), source.canonicalOrder)
    ensures var order, other := source.canonicalOrder, source.(canonicalOrder := RepeatLast(source.canonicalOrder));
            && Accepted(other) && ValidDag(other)
            && DependencyRespecting(LockMap(other.locks), other.canonicalOrder)
            && !Distinct(other.canonicalOrder)
            && order[|order| - 1] in LockMap(other.locks) && order[|order| - 1] !in other.canonicalOrder
  {
    var graph, order, r := LockMap(source.locks), source.canonicalOrder, RepeatLast(source.canonicalOrder);
    var n := |order| - 1;
    assert r[n] == r[n - 1] == order[n - 1];
    assert order[n] in order && order[n - 1] in order;
    forall id | id in r ensures id in graph { assert id in order; }
    RepeatSorted(order);
    forall i, d | 0 <= i < |r| && d in Deps(graph, r[i]) ensures d in r[..i] {
      if i < n {
        assert r[..i] == order[..i];
      } else {
        assert d in order[..n - 1] && order[..n - 1] == r[..n - 1];
        assert r[..n] == r[..n - 1] + [r[n - 1]];
      }
    }
  }

  lemma RepeatSorted(order: seq<string>)
    requires Sorted(order) && |order| >= 2
    ensures Sorted(RepeatLast(order))
  {
    var n := |order| - 1;
    LeqTotal(order[n - 1], order[n - 1]);
  }

  // ---- What the layering makes of a validated order ----

  /** Every dependency of a listed lock is listed, and its ID sorts strictly before the lock's. */
  ghost predicate DependenciesSortFirst(locks: map<string, Lock>, order: seq<string>) {
    forall id, d :: id in order && d in Deps(locks, id) ==> d in order && Leq(d, id) && d != id
  }

  /** On a sorted order, which `validateDAG` insists on, the layering succeeds exactly when
      every dependency is listed and sorts before its dependant; repeated IDs included. */
  lemma LayeringOfSorted(locks: map<string, Lock>, order: seq<string>)
    requires Sorted(order)
    ensures Waves(locks, order).Some? <==> DependenciesSortFirst(locks, order)
  {
    LayersAccept(locks, order);
    if DependencyRespecting(locks, order) {
      forall id, d | id in order && d in Deps(locks, id) ensures d in order && Leq(d, id) && d != id {
        EarlierIsSmaller(locks, order, id, d);
      }
    }
    if DependenciesSortFirst(locks, order) {
      forall i, d | 0 <= i < |order| && d in Deps(locks, order[i]) ensures d in order[..i] {
        assert order[i] in order;
        SmallerIsEarlier(order, i, d);
      }
    }
  }

  /** The first occurrence of a lock comes after an occurrence of each dependency. */
  lemma EarlierIsSmaller(locks: map<string, Lock>, order: seq<string>, id: string, d: string)
    requires DependencyRespecting(locks, order) && Sorted(order)
    requires id in order && d in Deps(locks, id)
    ensures d in order && Leq(d, id) && d != id
  {
    var i := FirstOccurrence(order, id);
    assert d in order[..i];
    var k :| 0 <= k < i && order[k] == d;
  }

  lemma SmallerIsEarlier(order: seq<string>, i: nat, d: string)
    requires Sorted(order) && i < |order| && d in order && Leq(d, order[i]) && d != order[i]
    ensures d in order[..i]
  {
    var k :| 0 <= k < |order| && order[k] == d;
    LeqTotal(d, order[i]);
    if k < i { assert order[..i][k] == d; }
  }

  // ---- Sources of every size ----

  /** Names in ascending order. */
  function Name(k: nat): string {
    seq(k + 1, _ => 'a')
  }

  lemma {:induction false} NamesAscend(i: nat, j: nat)
    requires i <= j
    ensures Leq(Name(i), Name(j)) && (i < j ==> Name(i) != Name(j))
  {
    assert |Name(i)| == i + 1 && |Name(j)| == j + 1;
    if i > 0 {
      NamesAscend(i - 1, j - 1);
      assert Name(i)[1..] == Name(i - 1) && Name(j)[1..] == Name(j - 1);
    }
  }

  /** `n` locks listed in order; the first one depends on the second if `inverted`, else none depends on any. */
  function Numbered(n: nat, inverted: bool): (source: Source)
    ensures |source.canonicalOrder| == |source.locks| == n
    ensures forall i :: 0 <= i < n ==>
            source.canonicalOrder[i] == Name(i) && source.locks[i] == NumberedLock(i, inverted)
  {
    Source(1, RetryPolicy(1, []),
           seq(n, i requires 0 <= i < n => Name(i)), seq(n, i requires 0 <= i < n => NumberedLock(i, inverted)))
  }

  function NumberedLock(i: nat, inverted: bool): Lock {
    Lock(Name(i), "c", "d", if inverted && i == 0 then [Name(1)] else [], "success", 0)
  }

  lemma NumberedIds(n: nat, inverted: bool)
    ensures Ids(Numbered(n, inverted).locks) == Numbered(n, inverted).canonicalOrder
    ensures Distinct(Numbered(n, inverted).canonicalOrder) && Sorted(Numbered(n, inverted).canonicalOrder)
  {
    var order := Numbered(n, inverted).canonicalOrder;
    forall i, j | 0 <= i < j < n ensures Leq(order[i], order[j]) && order[i] != order[j] {
      NamesAscend(i, j);
    }
  }

  lemma NumberedDeps(n: nat, inverted: bool, k: nat)
    requires k < n
    ensures Name(k) in LockMap(Numbered(n, inverted).locks)
    ensures Deps(LockMap(Numbered(n, inverted).locks), Name(k)) == if inverted && k == 0 then [Name(1)] else []
  {
    NumberedIds(n, inverted);
    LockMapFinds(Numbered(n, inverted).locks, k);
  }

  lemma NumberedRanks(n: nat, inverted: bool)
    requires n >= 2
    ensures Acyclic(LockMap(Numbered(n, inverted).locks))
  {
    var locks := Numbered(n, inverted).locks;
    var graph := LockMap(locks);
    var rank: map<string, nat> := map id | id in graph :: if id == Name(0) then 1 else 0;
    forall id | id in graph ensures forall d :: d in Deps(graph, id) ==> d in rank && rank[d] < rank[id] {
      var k := LockMapSource(locks, id);
      NumberedDeps(n, inverted, k);
      NumberedDeps(n, inverted, 1);
      NamesAscend(0, 1);
    }
    AcyclicByRank(graph, rank);
  }

  lemma NumberedAccepted(n: nat, inverted: bool)
    requires n >= 2
    ensures Accepted(Numbered(n, inverted)) && ValidDag(Numbered(n, inverted))
    ensures Distinct(Numbered(n, inverted).canonicalOrder)
  {
    var source := Numbered(n, inverted);
    NumberedIds(n, inverted);
    NumberedRanks(n, inverted);
    NumberedDeps(n, inverted, 1);
    KeysAreIds(source.locks);
    forall i, d | 0 <= i < n && d in source.locks[i].dependencies ensures d in LockMap(source.locks) {
      assert d == Name(1);
    }
  }

  /** For every number of locks a validated order with a repetition exists that both modes run. */
  lemma RepetitionForEverySize(n: nat) returns (source: Source)
    requires n >= 2
    ensures |source.locks| == n && Accepted(source) && ValidDag(source)
    ensures Waves(LockMap(source.locks), source.canonicalOrder).Some? && !Distinct(source.canonicalOrder)
  {
    var plain := Numbered(n, false);
    NumberedAccepted(n, false);
    forall i | 0 <= i < n ensures Deps(LockMap(plain.locks), plain.canonicalOrder[i]) == [] {
      NumberedDeps(n, false, i);
    }
    RepeatedOrderPasses(plain);
    source := plain.(canonicalOrder := RepeatLast(plain.canonicalOrder));
    LayersAccept(LockMap(source.locks), source.canonicalOrder);
  }

  /** For every number of locks there is a validated source without repetition that the
      parallel mode refuses: the sorted order is not a layering order. */
  lemma ValidatedButNotLayered(n: nat) returns (source: Source)
    requires n >= 2
    ensures |source.locks| == n && Accepted(source) && ValidDag(source) && Distinct(source.canonicalOrder)
    ensures Waves(LockMap(source.locks), source.canonicalOrder) == None
  {
    source := Numbered(n, true);
    NumberedAccepted(n, true);
    NumberedDeps(n, true, 0);
    NamesAscend(0, 1);
    LeqTotal(Name(0), Name(1));
    LayeringOfSorted(LockMap(source.locks), source.canonicalOrder);
    assert source.canonicalOrder[0] == Name(0);
    assert Name(1) in Deps(LockMap(source.locks), Name(0));
  }
}

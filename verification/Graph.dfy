/** Dependency chains and cycles, independent of any algorithm that looks for them. */
module Graph {
  import opened Model
  import opened Declarations
  import opened Sequences

  /** Each entry is a dependency of the next one. */
  ghost predicate Chain(locks: map<string, Lock>, p: seq<string>) {
    forall i :: 0 <= i < |p| - 1 ==> p[i] in Deps(locks, p[i + 1])
  }

  ghost predicate Cycle(locks: map<string, Lock>, p: seq<string>) {
    |p| >= 2 && Chain(locks, p) && p[0] == p[|p| - 1]
  }

  ghost predicate Acyclic(locks: map<string, Lock>) {
    forall p :: !Cycle(locks, p)
  }

  /** Every lock ranks strictly above each of its dependencies. */
  ghost predicate Ranked(locks: map<string, Lock>, rank: map<string, nat>) {
    forall id :: id in locks ==>
      id in rank && forall d :: d in Deps(locks, id) ==> d in rank && rank[d] < rank[id]
  }

  lemma {:induction false} RankGrows(locks: map<string, Lock>, rank: map<string, nat>, p: seq<string>)
    requires Ranked(locks, rank) && Chain(locks, p) && |p| >= 2
    ensures p[|p| - 1] in locks && p[0] in rank && p[|p| - 1] in rank
    ensures rank[p[0]] + |p| - 1 <= rank[p[|p| - 1]]
  {
    var n := |p| - 1;
    assert p[n - 1] in Deps(locks, p[n - 1 + 1]);
    if n >= 2 {
      var q := p[..n];
      assert Chain(locks, q) by {
        forall i | 0 <= i < |q| - 1 ensures q[i] in Deps(locks, q[i + 1]) {
          assert p[i] in Deps(locks, p[i + 1]);
        }
      }
      RankGrows(locks, rank, q);
    }
  }

  lemma AcyclicByRank(locks: map<string, Lock>, rank: map<string, nat>)
    requires Ranked(locks, rank)
    ensures Acyclic(locks)
  {
    forall p ensures !Cycle(locks, p) {
      if Cycle(locks, p) { RankGrows(locks, rank, p); }
    }
  }

  /** Every lock of `stuck` waits for a lock of `stuck`, the one that `blocker` names. */
  ghost predicate Stuck(locks: map<string, Lock>, stuck: set<string>, blocker: string -> string) {
    forall id {:trigger blocker(id)} :: id in stuck ==> blocker(id) in stuck && blocker(id) in Deps(locks, id)
  }

  ghost function WalkBack(blocker: string -> string, from: string, steps: nat): (p: seq<string>)
    ensures |p| == steps + 1
  {
    if steps == 0 then [from]
    else
      var q := WalkBack(blocker, from, steps - 1);
      [blocker(q[0])] + q
  }

  lemma {:induction false} WalkIsChain(locks: map<string, Lock>, stuck: set<string>, blocker: string -> string,
                                       from: string, steps: nat)
    requires from in stuck && Stuck(locks, stuck, blocker)
    ensures Chain(locks, WalkBack(blocker, from, steps))
    ensures forall x :: x in WalkBack(blocker, from, steps) ==> x in stuck
  {
    if steps > 0 {
      var q := WalkBack(blocker, from, steps - 1);
      WalkIsChain(locks, stuck, blocker, from, steps - 1);
      assert q[0] in q;
      ChainPrepend(locks, blocker(q[0]), q);
    }
  }

  lemma ChainPrepend(locks: map<string, Lock>, d: string, p: seq<string>)
    requires Chain(locks, p) && p != [] && d in Deps(locks, p[0])
    ensures Chain(locks, [d] + p)
  {
    var q := [d] + p;
    forall i | 0 <= i < |q| - 1 ensures q[i] in Deps(locks, q[i + 1]) {
      if i > 0 { assert p[i - 1] in Deps(locks, p[i - 1 + 1]); }
    }
  }

  lemma ChainAppend(locks: map<string, Lock>, p: seq<string>, id: string)
    requires Chain(locks, p) && p != [] && p[|p| - 1] in Deps(locks, id)
    ensures Chain(locks, p + [id])
  {
    var q := p + [id];
    forall i | 0 <= i < |q| - 1 ensures q[i] in Deps(locks, q[i + 1]) {
      if i < |p| - 1 { assert p[i] in Deps(locks, p[i + 1]); }
    }
  }

  lemma ChainSlice(locks: map<string, Lock>, p: seq<string>, i: nat, j: nat)
    requires Chain(locks, p) && i <= j <= |p|
    ensures Chain(locks, p[i..j])
  {
    var q := p[i..j];
    forall k | 0 <= k < |q| - 1 ensures q[k] in Deps(locks, q[k + 1]) {
      assert p[i + k] in Deps(locks, p[i + k + 1]);
    }
  }

  lemma RepetitionIsCycle(locks: map<string, Lock>, p: seq<string>, i: nat, j: nat)
    requires Chain(locks, p) && i < j < |p| && p[i] == p[j]
    ensures !Acyclic(locks)
  {
    ChainSlice(locks, p, i, j + 1);
    assert Cycle(locks, p[i..j + 1]);
  }

  /** Where every lock waits for another one of the same finite set, there is a cycle. */
  lemma StuckHasCycle(locks: map<string, Lock>, stuck: set<string>, blocker: string -> string, from: string)
    requires from in stuck && Stuck(locks, stuck, blocker)
    ensures !Acyclic(locks)
  {
    var p := WalkBack(blocker, from, |stuck|);
    WalkIsChain(locks, stuck, blocker, from, |stuck|);
    var i, j := Repetition(p, stuck);
    RepetitionIsCycle(locks, p, i, j);
  }

  ghost predicate AllDeclared(locks: seq<Lock>) {
    forall i, d :: 0 <= i < |locks| && d in locks[i].dependencies ==> d in LockMap(locks)
  }

  lemma KeysAreIds(locks: seq<Lock>)
    ensures forall id :: id in LockMap(locks) <==> id in Ids(locks)
  {
    forall id ensures id in LockMap(locks) <==> id in Ids(locks) { ByNameKeys(locks, LockId, id); }
  }

  /** There are as many keys as declarations exactly when the IDs are distinct. */
  lemma KeyCount(locks: seq<Lock>)
    ensures |LockMap(locks).Keys| <= |locks|
    ensures |LockMap(locks).Keys| == |locks| <==> Distinct(Ids(locks))
  {
    KeysAreIds(locks);
    assert LockMap(locks).Keys == Elements(Ids(locks));
    ElementsBound(Ids(locks));
    if Distinct(Ids(locks)) { DistinctSize(Ids(locks)); }
  }

  lemma LockMapSource(locks: seq<Lock>, id: string) returns (i: nat)
    requires id in LockMap(locks)
    ensures i < |locks| && locks[i] == LockMap(locks)[id] && locks[i].id == id
  {
    i := ByNameSource(locks, LockId, id);
  }

  /** With distinct IDs the lock map finds each declaration. */
  lemma LockMapFinds(locks: seq<Lock>, i: nat)
    requires Distinct(Ids(locks)) && i < |locks|
    ensures locks[i].id in LockMap(locks) && LockMap(locks)[locks[i].id] == locks[i]
  {
    ByNameFinds(locks, LockId, i);
  }
}

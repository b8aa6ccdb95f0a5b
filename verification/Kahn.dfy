/** `validateDAG`: declared dependencies, no cycle (Kahn's algorithm), sorted canonical order. */
module Kahn {
  import opened Model
  import opened Sequences
  import opened Ordering
  import opened Graph
  import opened Layering

  datatype Verdict = Valid | Undeclared(lockId: string, dependency: string) | Cyclic | Unsorted(index: nat)

  function Kids(children: map<string, seq<string>>, id: string): seq<string> {
    if id in children then children[id] else []
  }

  /** How often `locks` names `d` as a dependency of `c`. */
  ghost function Edges(locks: seq<Lock>, c: string, d: string): nat {
    if locks == [] then 0
    else
      var last := locks[|locks| - 1];
      Edges(locks[..|locks| - 1], c, d) + if last.id == c then multiset(last.dependencies)[d] else 0
  }

  // ---- The graph ----

  ghost predicate EdgesRecorded(children: map<string, seq<string>>, locks: seq<Lock>) {
    forall c, d :: multiset(Kids(children, d))[c] == Edges(locks, c, d)
  }

  lemma AddChild(children: map<string, seq<string>>, id: string, dep: string)
    ensures var after := children[dep := Kids(children, dep) + [id]];
            forall c, d :: multiset(Kids(after, d))[c] ==
                           multiset(Kids(children, d))[c] + if c == id && d == dep then 1 else 0
  {
  }

  /** Appends `id` to the children of each of its dependencies, repeated ones repeatedly. */
  method AddChildren(children: map<string, seq<string>>, id: string, deps: seq<string>)
    returns (result: map<string, seq<string>>)
    ensures forall c, d :: multiset(Kids(result, d))[c] ==
                           multiset(Kids(children, d))[c] + if c == id then multiset(deps)[d] else 0
  {
    result := children;
    for k := 0 to |deps|
      invariant forall c, d :: multiset(Kids(result, d))[c] ==
                               multiset(Kids(children, d))[c] + if c == id then multiset(deps[..k])[d] else 0
    {
      PrefixMultiset(deps, k);
      AddChild(result, id, deps[k]);
      result := result[deps[k] := Kids(result, deps[k]) + [id]];
    }
    assert deps[..|deps|] == deps;
  }

  method BuildGraph(locks: seq<Lock>)
    returns (known: set<string>, indegree: map<string, int>, children: map<string, seq<string>>)
    ensures known == indegree.Keys == LockMap(locks).Keys
    ensures forall id :: id in indegree ==> indegree[id] == |LockMap(locks)[id].dependencies|
    ensures EdgesRecorded(children, locks)
  {
    known, indegree, children := {}, map[], map[];
    for i := 0 to |locks|
      invariant known == indegree.Keys == LockMap(locks[..i]).Keys
      invariant forall id :: id in indegree ==> indegree[id] == |LockMap(locks[..i])[id].dependencies|
      invariant EdgesRecorded(children, locks[..i])
    {
      var lock := locks[i];
      assert locks[..i + 1][..i] == locks[..i];
      known := known + {lock.id};
      indegree := indegree[lock.id := |lock.dependencies|];
      children := AddChildren(children, lock.id, lock.dependencies);
    }
    assert locks[..|locks|] == locks;
  }

  // ---- The queue ----

  function Seen(done: seq<string>, queue: seq<string>, id: string): nat {
    multiset(done)[id] + multiset(queue)[id]
  }

  /** A lock is processed or queued at most once, and is exactly when its indegree ran out. */
  ghost predicate QueueInvariant(indegree: map<string, int>, done: seq<string>, queue: seq<string>) {
    && (forall id :: Seen(done, queue, id) <= 1)
    && (forall id :: Seen(done, queue, id) == 1 ==> id in indegree && indegree[id] <= 0)
    && (forall id :: id in indegree && Seen(done, queue, id) == 0 ==> indegree[id] > 0)
  }

  /** The map is ranged over in any order. */
  method InitialQueue(indegree: map<string, int>) returns (queue: seq<string>)
    requires forall id :: id in indegree ==> indegree[id] >= 0
    ensures QueueInvariant(indegree, [], queue)
  {
    queue := [];
    var left := indegree.Keys;
    while left != {}
      invariant left <= indegree.Keys
      invariant forall id :: multiset(queue)[id] ==
                             if id in indegree && id !in left && indegree[id] == 0 then 1 else 0
      decreases left
    {
      var id :| id in left;
      left := left - {id};
      if indegree[id] == 0 {
        queue := queue + [id];
      }
    }
  }

  /** One dependency fewer; the last one queues the lock. */
  method LowerChild(start: map<string, int>, waiting: seq<string>, ghost done: seq<string>, child: string)
    returns (indegree: map<string, int>, queue: seq<string>)
    requires QueueInvariant(start, done, waiting) && child in start
    ensures QueueInvariant(indegree, done, queue)
    ensures indegree == start[child := start[child] - 1]
  {
    assert forall id :: Seen(done, waiting + [child], id) == Seen(done, waiting, id) + if id == child then 1 else 0;
    indegree, queue := start[child := start[child] - 1], waiting;
    if indegree[child] == 0 {
      queue := queue + [child];
    }
  }

  method Relax(start: map<string, int>, kids: seq<string>, waiting: seq<string>, ghost done: seq<string>)
    returns (indegree: map<string, int>, queue: seq<string>)
    requires QueueInvariant(start, done, waiting)
    requires forall c :: c in kids ==> c in start
    ensures QueueInvariant(indegree, done, queue)
    ensures indegree.Keys == start.Keys
    ensures forall id :: id in start ==> indegree[id] == start[id] - multiset(kids)[id]
  {
    indegree, queue := start, waiting;
    for k := 0 to |kids|
      invariant QueueInvariant(indegree, done, queue)
      invariant indegree.Keys == start.Keys
      invariant forall id :: id in start ==> indegree[id] == start[id] - multiset(kids[..k])[id]
    {
      PrefixMultiset(kids, k);
      indegree, queue := LowerChild(indegree, queue, done, kids[k]);
    }
    assert kids[..|kids|] == kids;
  }

  /** How much of the indegree of `id` the processed locks have used up. */
  ghost function Spent(children: map<string, seq<string>>, done: seq<string>, id: string): nat {
    if done == [] then 0
    else Spent(children, done[..|done| - 1], id) + multiset(Kids(children, done[|done| - 1]))[id]
  }

  ghost predicate ProcessedWhenDue(start: map<string, int>, children: map<string, seq<string>>, done: seq<string>) {
    forall i :: 0 <= i < |done| ==> done[i] in start && start[done[i]] <= Spent(children, done[..i], done[i])
  }

  ghost predicate DrainInvariant(start: map<string, int>, children: map<string, seq<string>>,
                                 indegree: map<string, int>, done: seq<string>, queue: seq<string>) {
    && QueueInvariant(indegree, done, queue)
    && indegree.Keys == start.Keys
    && (forall id :: id in start ==> indegree[id] == start[id] - Spent(children, done, id))
    && ProcessedWhenDue(start, children, done)
  }

  /** Kahn's loop: what comes out was due when processed, what stays is still waiting. */
  method Drain(start: map<string, int>, children: map<string, seq<string>>)
    returns (processed: nat, ghost done: seq<string>)
    requires forall id :: id in start ==> start[id] >= 0
    requires forall d, c :: c in Kids(children, d) ==> c in start
    ensures processed == |done| && Distinct(done)
    ensures ProcessedWhenDue(start, children, done)
    ensures forall id :: id in start && id !in done ==> Spent(children, done, id) < start[id]
  {
    var indegree := start;
    var queue := InitialQueue(start);
    processed, done := 0, [];
    while |queue| > 0
      invariant processed == |done|
      invariant DrainInvariant(start, children, indegree, done, queue)
      decreases |start.Keys| - |done|
    {
      SortKeeps(indegree, done, queue);
      queue := Sort(queue);
      var id := queue[0];
      Pop(start, children, indegree, done, queue);
      queue := queue[1..];
      processed := processed + 1;
      ghost var before := indegree;
      indegree, queue := Relax(indegree, Kids(children, id), queue, done + [id]);
      Relaxed(start, children, before, indegree, done, id);
      DoneFits(indegree, done + [id], queue);
      done := done + [id];
    }
    DoneFits(indegree, done, queue);
  }

  lemma Relaxed(start: map<string, int>, children: map<string, seq<string>>,
                before: map<string, int>, after: map<string, int>, done: seq<string>, next: string)
    requires start.Keys == before.Keys == after.Keys
    requires forall id :: id in start ==> before[id] == start[id] - Spent(children, done, id)
    requires forall id :: id in before ==> after[id] == before[id] - multiset(Kids(children, next))[id]
    ensures forall id :: id in start ==> after[id] == start[id] - Spent(children, done + [next], id)
  {
    assert (done + [next])[..|done|] == done;
  }

  lemma SortKeeps(indegree: map<string, int>, done: seq<string>, queue: seq<string>)
    requires QueueInvariant(indegree, done, queue)
    ensures QueueInvariant(indegree, done, Sort(queue))
  {
    SortPermutes(queue);
    assert forall id :: Seen(done, Sort(queue), id) == Seen(done, queue, id);
  }

  lemma Pop(start: map<string, int>, children: map<string, seq<string>>,
            indegree: map<string, int>, done: seq<string>, queue: seq<string>)
    requires DrainInvariant(start, children, indegree, done, queue) && queue != []
    ensures QueueInvariant(indegree, done + [queue[0]], queue[1..])
    ensures ProcessedWhenDue(start, children, done + [queue[0]])
  {
    SeenAlike(done, queue);
    assert Seen(done, queue, queue[0]) == 1;
    PopDue(start, children, done, queue[0]);
  }

  lemma SeenAlike(done: seq<string>, queue: seq<string>)
    requires queue != []
    ensures forall id :: Seen(done + [queue[0]], queue[1..], id) == Seen(done, queue, id)
  {
    assert queue == [queue[0]] + queue[1..];
  }

  lemma PopDue(start: map<string, int>, children: map<string, seq<string>>, done: seq<string>, id: string)
    requires ProcessedWhenDue(start, children, done)
    requires id in start && start[id] <= Spent(children, done, id)
    ensures ProcessedWhenDue(start, children, done + [id])
  {
    var next := done + [id];
    forall i | 0 <= i < |next| ensures next[i] in start && start[next[i]] <= Spent(children, next[..i], next[i]) {
      assert next[..i] == done[..i];
      if i == |done| { assert done[..i] == done; }
    }
  }

  lemma DoneFits(indegree: map<string, int>, done: seq<string>, queue: seq<string>)
    requires QueueInvariant(indegree, done, queue)
    ensures Distinct(done) && |done| <= |indegree.Keys|
    ensures queue == [] ==> forall id :: id in indegree && id !in done ==> indegree[id] > 0
  {
    forall id ensures multiset(done)[id] <= 1 {
      assert Seen(done, queue, id) <= 1;
    }
    DistinctMultiset(done);
    DistinctSize(done);
    assert Elements(done) <= indegree.Keys by {
      forall id | id in done ensures id in indegree { assert Seen(done, queue, id) == 1; }
    }
    SubsetSize(Elements(done), indegree.Keys);
  }

  // ---- What the processed sequence means ----

  function IsIn(done: seq<string>): string -> bool {
    d => d in done
  }

  lemma {:induction false} CountOneMore(deps: seq<string>, done: seq<string>, d: string)
    requires d !in done
    ensures Count(deps, IsIn(done + [d])) == Count(deps, IsIn(done)) + multiset(deps)[d]
  {
    if deps != [] {
      var front := deps[..|deps| - 1];
      assert deps == front + [deps[|deps| - 1]];
      CountOneMore(front, done, d);
    }
  }

  lemma {:induction false} CountNone(deps: seq<string>)
    ensures Count(deps, IsIn([])) == 0
  {
    if deps != [] { CountNone(deps[..|deps| - 1]); }
  }

  /** Spending counts the dependencies that are processed, repeated ones repeatedly. */
  lemma {:induction false} SpentMeaning(children: map<string, seq<string>>, done: seq<string>, id: string,
                                        deps: seq<string>)
    requires Distinct(done)
    requires forall d :: multiset(Kids(children, d))[id] == multiset(deps)[d]
    ensures Spent(children, done, id) == Count(deps, IsIn(done))
  {
    if done == [] {
      CountNone(deps);
    } else {
      var front, d := done[..|done| - 1], done[|done| - 1];
      SpentMeaning(children, front, id, deps);
      assert done == front + [d];
      CountOneMore(deps, front, d);
    }
  }

  lemma {:induction false} EdgesElsewhere(locks: seq<Lock>, c: string, d: string)
    requires forall i :: 0 <= i < |locks| ==> locks[i].id != c
    ensures Edges(locks, c, d) == 0
  {
    if locks != [] { EdgesElsewhere(locks[..|locks| - 1], c, d); }
  }

  lemma {:induction false} EdgesMeaning(locks: seq<Lock>, i: nat, d: string)
    requires Distinct(Ids(locks)) && i < |locks|
    ensures Edges(locks, locks[i].id, d) == multiset(locks[i].dependencies)[d]
  {
    var n := |locks| - 1;
    var ids := Ids(locks);
    if i == n {
      forall k | 0 <= k < n ensures locks[k].id != locks[n].id { assert ids[k] != ids[n]; }
      EdgesElsewhere(locks[..n], locks[n].id, d);
    } else {
      assert ids[i] != ids[n];
      forall a, b | 0 <= a < b < n ensures Ids(locks[..n])[a] != Ids(locks[..n])[b] { assert ids[a] != ids[b]; }
      EdgesMeaning(locks[..n], i, d);
    }
  }

  lemma {:induction false} KidsDeclared(locks: seq<Lock>, children: map<string, seq<string>>, c: string, d: string)
    requires EdgesRecorded(children, locks) && c in Kids(children, d)
    ensures c in LockMap(locks)
  {
    assert multiset(Kids(children, d))[c] > 0;
    if c !in LockMap(locks) {
      KeysAreIds(locks);
      forall i | 0 <= i < |locks| ensures locks[i].id != c { assert Ids(locks)[i] in Ids(locks); }
      EdgesElsewhere(locks, c, d);
    }
  }

  ghost predicate Drained(locks: seq<Lock>, children: map<string, seq<string>>, start: map<string, int>,
                          done: seq<string>) {
    && EdgesRecorded(children, locks)
    && start.Keys == LockMap(locks).Keys
    && (forall id :: id in start ==> start[id] == |LockMap(locks)[id].dependencies|)
    && Distinct(done)
    && ProcessedWhenDue(start, children, done)
    && (forall id :: id in start && id !in done ==> Spent(children, done, id) < start[id])
  }

  lemma KidsOfLock(locks: seq<Lock>, children: map<string, seq<string>>, id: string, done: seq<string>)
    requires EdgesRecorded(children, locks) && Distinct(Ids(locks)) && id in LockMap(locks) && Distinct(done)
    ensures Spent(children, done, id) == Count(Deps(LockMap(locks), id), IsIn(done))
  {
    var i := LockMapSource(locks, id);
    LockMapFinds(locks, i);
    forall d ensures multiset(Kids(children, d))[id] == multiset(locks[i].dependencies)[d] {
      EdgesMeaning(locks, i, d);
    }
    SpentMeaning(children, done, id, locks[i].dependencies);
  }

  lemma DependencyProcessedEarlier(locks: seq<Lock>, children: map<string, seq<string>>, start: map<string, int>,
                                   done: seq<string>, i: nat)
    requires Drained(locks, children, start, done) && Distinct(Ids(locks)) && i < |done|
    ensures forall d :: d in Deps(LockMap(locks), done[i]) ==> d in done[..i]
  {
    KidsOfLock(locks, children, done[i], done[..i]);
    CountAll(Deps(LockMap(locks), done[i]), IsIn(done[..i]));
  }

  lemma DoneKeys(locks: seq<Lock>, done: seq<string>)
    requires Distinct(done) && forall id :: id in done ==> id in LockMap(locks)
    ensures |done| == |locks| ==> Distinct(Ids(locks)) && forall id :: id in LockMap(locks) ==> id in done
    ensures |done| != |locks| && Distinct(Ids(locks)) ==> exists id :: id in LockMap(locks) && id !in done
  {
    KeyCount(locks);
    FullWhenEqual(done, LockMap(locks).Keys);
  }

  lemma DrainedKeys(locks: seq<Lock>, children: map<string, seq<string>>, start: map<string, int>, done: seq<string>)
    requires Drained(locks, children, start, done)
    ensures |done| == |locks| ==> Distinct(Ids(locks)) && forall id :: id in LockMap(locks) ==> id in done
    ensures |done| != |locks| && Distinct(Ids(locks)) ==> exists id :: id in LockMap(locks) && id !in done
  {
    forall id | id in done ensures id in LockMap(locks) {
      var i :| 0 <= i < |done| && done[i] == id;
    }
    DoneKeys(locks, done);
  }

  /** All locks processed: nothing is declared twice, and the processing order respects
      the dependencies, so nothing is on a cycle. */
  lemma AllProcessed(locks: seq<Lock>, children: map<string, seq<string>>, start: map<string, int>, done: seq<string>)
    requires Drained(locks, children, start, done) && |done| == |locks|
    ensures Distinct(Ids(locks)) && Acyclic(LockMap(locks))
  {
    DrainedKeys(locks, children, start, done);
    forall i, d | 0 <= i < |done| && d in Deps(LockMap(locks), done[i]) ensures d in done[..i] {
      DependencyProcessedEarlier(locks, children, start, done, i);
    }
    AcyclicByOrder(LockMap(locks), done);
  }

  ghost function Blocker(deps: seq<string>, done: seq<string>): (d: string)
    requires Count(deps, IsIn(done)) < |deps|
    ensures d in deps && d !in done
  {
    CountAll(deps, IsIn(done));
    var d :| d in deps && d !in done;
    d
  }

  lemma StillWaiting(locks: seq<Lock>, children: map<string, seq<string>>, start: map<string, int>, done: seq<string>,
                     id: string)
    requires Drained(locks, children, start, done) && Distinct(Ids(locks)) && AllDeclared(locks)
    ensures id in LockMap(locks) && id !in done ==>
              && Count(Deps(LockMap(locks), id), IsIn(done)) < |Deps(LockMap(locks), id)|
              && Blocker(Deps(LockMap(locks), id), done) in LockMap(locks)
  {
    if id in LockMap(locks) && id !in done {
      KidsOfLock(locks, children, id, done);
      var i := LockMapSource(locks, id);
      assert Blocker(Deps(LockMap(locks), id), done) in locks[i].dependencies;
    }
  }

  lemma BlockersClose(graph: map<string, Lock>, stuck: set<string>, done: seq<string>, left: string)
    requires left in stuck
    requires forall id {:trigger Deps(graph, id)} :: id in stuck ==>
               Count(Deps(graph, id), IsIn(done)) < |Deps(graph, id)| && Blocker(Deps(graph, id), done) in stuck
    ensures !Acyclic(graph)
  {
    var blocker := (id: string) => if id in stuck then Blocker(Deps(graph, id), done) else id;
    StuckHasCycle(graph, stuck, blocker, left);
  }

  /** A lock left over waits for one that is left over. */
  lemma LeftOver(locks: seq<Lock>, children: map<string, seq<string>>, start: map<string, int>, done: seq<string>)
    requires Drained(locks, children, start, done) && |done| != |locks|
    requires Distinct(Ids(locks)) && AllDeclared(locks)
    ensures !Acyclic(LockMap(locks))
  {
    var graph := LockMap(locks);
    DrainedKeys(locks, children, start, done);
    var stuck := set id | id in graph && id !in done;
    var left :| left in graph && left !in done;
    forall id | id in stuck
      ensures Count(Deps(graph, id), IsIn(done)) < |Deps(graph, id)| && Blocker(Deps(graph, id), done) in stuck
    {
      StillWaiting(locks, children, start, done, id);
    }
    BlockersClose(graph, stuck, done, left);
  }

  // ---- validateDAG ----

  ghost predicate NamesUndeclared(locks: seq<Lock>, lockId: string, dependency: string) {
    dependency !in LockMap(locks) &&
    exists i :: 0 <= i < |locks| && locks[i].id == lockId && dependency in locks[i].dependencies
  }

  method CheckDeclared(locks: seq<Lock>, known: set<string>) returns (verdict: Verdict)
    requires known == LockMap(locks).Keys
    ensures verdict == Valid <==> AllDeclared(locks)
    ensures verdict.Valid? || (verdict.Undeclared? && NamesUndeclared(locks, verdict.lockId, verdict.dependency))
  {
    for i := 0 to |locks|
      invariant forall k, d :: 0 <= k < i && d in locks[k].dependencies ==> d in known
    {
      var deps := locks[i].dependencies;
      for j := 0 to |deps|
        invariant forall k :: 0 <= k < j ==> deps[k] in known
      {
        if deps[j] !in known {
          return Undeclared(locks[i].id, deps[j]);
        }
      }
    }
    return Valid;
  }

  ghost predicate FirstUnsorted(canonical: seq<string>, sorted: seq<string>, index: nat) {
    index < |canonical| && index < |sorted| && canonical[index] != sorted[index] &&
      canonical[..index] == sorted[..index]
  }

  method Compare(canonical: seq<string>, sorted: seq<string>) returns (verdict: Verdict)
    requires |canonical| == |sorted|
    ensures verdict == Valid <==> canonical == sorted
    ensures verdict.Valid? || (verdict.Unsorted? && FirstUnsorted(canonical, sorted, verdict.index))
  {
    for index := 0 to |canonical|
      invariant forall k :: 0 <= k < index ==> canonical[k] == sorted[k]
    {
      if canonical[index] != sorted[index] {
        return Unsorted(index);
      }
    }
    return Valid;
  }

  ghost predicate ValidDag(source: Source) {
    && Distinct(Ids(source.locks))
    && AllDeclared(source.locks)
    && Acyclic(LockMap(source.locks))
    && Sorted(source.canonicalOrder)
  }

  /** Accepts exactly the distinct, closed, acyclic lock sets with a sorted canonical order.
      Repeated lock IDs need no precondition: they always end in `Cyclic` (or `Undeclared`). */
  method ValidateDAG(source: Source) returns (verdict: Verdict)
    ensures verdict == Valid <==> ValidDag(source)
    ensures verdict.Undeclared? <==> !AllDeclared(source.locks)
    ensures verdict.Cyclic? <==>
            AllDeclared(source.locks) && !(Distinct(Ids(source.locks)) && Acyclic(LockMap(source.locks)))
    ensures verdict.Undeclared? ==> NamesUndeclared(source.locks, verdict.lockId, verdict.dependency)
    ensures verdict.Unsorted? ==> FirstUnsorted(source.canonicalOrder, Sort(source.canonicalOrder), verdict.index)
  {
    var locks := source.locks;
    var known, indegree, children := BuildGraph(locks);
    verdict := CheckDeclared(locks, known);
    if verdict != Valid {
      return;
    }
    forall c, d | c in Kids(children, d) ensures c in indegree { KidsDeclared(locks, children, c, d); }
    var processed, done := Drain(indegree, children);
    assert Drained(locks, children, indegree, done);
    if processed != |locks| {
      if Distinct(Ids(locks)) { LeftOver(locks, children, indegree, done); }
      return Cyclic;
    }
    AllProcessed(locks, children, indegree, done);
    SortedFixpoint(source.canonicalOrder);
    verdict := Compare(source.canonicalOrder, Sort(source.canonicalOrder));
  }
}

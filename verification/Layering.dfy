/** `buildWaves` and `buildSchedule`: longest-path layering of the lock graph in one pass. */
module Layering {
  import opened Model
  import opened Sequences
  import opened Ordering
  import opened Graph

  type WaveMap = map<string, nat>

  /** The first wave after all of `deps`, if all of them have one. */
  function WaveAfter(m: WaveMap, deps: seq<string>): Option<nat> {
    if deps == [] then Some(0)
    else
      var d := deps[|deps| - 1];
      match WaveAfter(m, deps[..|deps| - 1])
      case None => None
      case Some(w) => if d in m then Some(Max(w, m[d] + 1)) else None
  }

  /** The wave numbers after one pass over `order`; none once a dependency is not yet placed. */
  function Layers(locks: map<string, Lock>, order: seq<string>): Option<WaveMap> {
    if order == [] then Some(map[])
    else
      var id := order[|order| - 1];
      match Layers(locks, order[..|order| - 1])
      case None => None
      case Some(m) =>
        match WaveAfter(m, Deps(locks, id))
        case None => None
        case Some(w) => Some(m[id := w])
  }

  function HighestWave(m: WaveMap, order: seq<string>): nat
    requires forall id :: id in order ==> id in m
  {
    if order == [] then 0
    else Max(HighestWave(m, order[..|order| - 1]), m[order[|order| - 1]])
  }

  function OfWave(m: WaveMap, order: seq<string>, w: int): seq<string>
    requires forall id :: id in order ==> id in m
  {
    if order == [] then []
    else
      var id := order[|order| - 1];
      OfWave(m, order[..|order| - 1], w) + if m[id] == w then [id] else []
  }

  function WavesOf(m: WaveMap, order: seq<string>): (waves: seq<seq<string>>)
    requires forall id :: id in order ==> id in m
    ensures |waves| == HighestWave(m, order) + 1
  {
    seq(HighestWave(m, order) + 1, w => Sort(OfWave(m, order, w)))
  }

  // ---- What the pass computes ----

  lemma {:induction false} WaveAfterMeaning(m: WaveMap, deps: seq<string>)
    ensures WaveAfter(m, deps).Some? <==> forall d :: d in deps ==> d in m
    ensures WaveAfter(m, deps).Some? ==>
              && (forall d :: d in deps ==> m[d] < WaveAfter(m, deps).value)
              && (WaveAfter(m, deps).value > 0 ==> exists d :: d in deps && m[d] + 1 == WaveAfter(m, deps).value)
  {
    if deps != [] {
      var front, d := deps[..|deps| - 1], deps[|deps| - 1];
      WaveAfterMeaning(m, front);
      assert deps == front + [d];
      assert d in deps;
      assert forall e :: e in front ==> e in deps;
    }
  }

  ghost predicate Extends(m: WaveMap, larger: WaveMap) {
    forall id :: id in m ==> id in larger && larger[id] == m[id]
  }

  lemma {:induction false} WaveAfterExtends(m: WaveMap, larger: WaveMap, deps: seq<string>)
    requires Extends(m, larger) && WaveAfter(m, deps).Some?
    ensures WaveAfter(larger, deps) == WaveAfter(m, deps)
  {
    if deps != [] { WaveAfterExtends(m, larger, deps[..|deps| - 1]); }
  }

  /** Each wave number is the first one after all dependencies. */
  ghost predicate Tight(locks: map<string, Lock>, m: WaveMap) {
    forall id :: id in m ==> WaveAfter(m, Deps(locks, id)) == Some(m[id])
  }

  lemma {:induction false} LayersTight(locks: map<string, Lock>, order: seq<string>)
    requires Layers(locks, order).Some?
    ensures Tight(locks, Layers(locks, order).value)
    ensures forall id :: id in Layers(locks, order).value <==> id in order
    ensures order != [] ==> Extends(Layers(locks, order[..|order| - 1]).value, Layers(locks, order).value)
  {
    if order != [] {
      var front, id := order[..|order| - 1], order[|order| - 1];
      LayersTight(locks, front);
      assert order == front + [id];
      var m, larger := Layers(locks, front).value, Layers(locks, order).value;
      // Placing an ID again gives it the wave it has: its dependencies have not moved.
      assert Extends(m, larger);
      forall x | x in larger ensures WaveAfter(larger, Deps(locks, x)) == Some(larger[x]) {
        WaveAfterExtends(m, larger, Deps(locks, x));
      }
    }
  }

  ghost predicate DependencyRespecting(locks: map<string, Lock>, order: seq<string>) {
    forall i, d :: 0 <= i < |order| && d in Deps(locks, order[i]) ==> d in order[..i]
  }

  lemma RespectingNext(locks: map<string, Lock>, front: seq<string>, id: string)
    ensures DependencyRespecting(locks, front + [id]) <==>
            DependencyRespecting(locks, front) && forall d :: d in Deps(locks, id) ==> d in front
  {
    var order := front + [id];
    assert order[..|front|] == front;
    if DependencyRespecting(locks, order) {
      forall i, d | 0 <= i < |front| && d in Deps(locks, front[i]) ensures d in front[..i] {
        assert d in Deps(locks, order[i]);
        assert front[..i] == order[..i];
      }
      forall d | d in Deps(locks, id) ensures d in front {
        assert d in Deps(locks, order[|front|]);
      }
    }
    if DependencyRespecting(locks, front) && forall d :: d in Deps(locks, id) ==> d in front {
      forall i, d | 0 <= i < |order| && d in Deps(locks, order[i]) ensures d in order[..i] {
        if i < |front| {
          assert d in Deps(locks, front[i]);
          assert front[..i] == order[..i];
        }
      }
    }
  }

  /** The pass succeeds exactly when every dependency occurs strictly earlier. */
  lemma {:induction false} LayersAccept(locks: map<string, Lock>, order: seq<string>)
    ensures Layers(locks, order).Some? <==> DependencyRespecting(locks, order)
  {
    if order != [] {
      var front, id := order[..|order| - 1], order[|order| - 1];
      LayersAccept(locks, front);
      RespectingNext(locks, front, id);
      assert order == front + [id];
      if Layers(locks, front).Some? {
        LayersTight(locks, front);
        WaveAfterMeaning(Layers(locks, front).value, Deps(locks, id));
      }
    }
  }

  // ---- Longest chains and optimality ----

  ghost predicate ChainTo(locks: map<string, Lock>, p: seq<string>, id: string) {
    Chain(locks, p) && p != [] && p[|p| - 1] == id
  }

  lemma TightStep(locks: map<string, Lock>, m: WaveMap, id: string)
    requires Tight(locks, m) && id in m
    ensures forall d :: d in Deps(locks, id) ==> d in m && m[d] < m[id]
    ensures m[id] > 0 ==> exists d :: d in Deps(locks, id) && d in m && m[d] + 1 == m[id]
  {
    WaveAfterMeaning(m, Deps(locks, id));
  }

  /** Along a chain that ends in a placed lock the wave numbers rise at every link. */
  lemma {:induction false} ChainRises(locks: map<string, Lock>, m: WaveMap, p: seq<string>, k: nat)
    requires Tight(locks, m) && Chain(locks, p) && k < |p| && p[|p| - 1] in m
    ensures p[k] in m && m[p[k]] + (|p| - 1 - k) <= m[p[|p| - 1]]
    decreases |p| - k
  {
    if k < |p| - 1 {
      ChainRises(locks, m, p, k + 1);
      WaveAfterMeaning(m, Deps(locks, p[k + 1]));
      assert p[k] in Deps(locks, p[k + 1]);
    }
  }

  lemma ChainBound(locks: map<string, Lock>, m: WaveMap, p: seq<string>, id: string)
    requires Tight(locks, m) && ChainTo(locks, p, id) && id in m
    ensures |p| <= m[id] + 1
  {
    ChainRises(locks, m, p, 0);
  }

  lemma {:induction false} LongestChain(locks: map<string, Lock>, m: WaveMap, id: string) returns (p: seq<string>)
    requires Tight(locks, m) && id in m
    ensures ChainTo(locks, p, id) && |p| == m[id] + 1
    decreases m[id]
  {
    if m[id] == 0 {
      p := [id];
    } else {
      TightStep(locks, m, id);
      var d :| d in Deps(locks, id) && d in m && m[d] + 1 == m[id];
      var q := LongestChain(locks, m, d);
      p := q + [id];
      ChainAppend(locks, q, id);
    }
  }

  /** A lock's wave is the length of its longest dependency chain: one chain attains it, none exceeds it. */
  lemma WaveIsLongestChain(locks: map<string, Lock>, order: seq<string>, id: string)
    requires Layers(locks, order).Some? && id in order
    ensures id in Layers(locks, order).value
    ensures exists p :: ChainTo(locks, p, id) && |p| - 1 == Layers(locks, order).value[id]
    ensures forall p :: ChainTo(locks, p, id) ==> |p| - 1 <= Layers(locks, order).value[id]
  {
    LayersTight(locks, order);
    var m := Layers(locks, order).value;
    var p := LongestChain(locks, m, id);
    forall q | ChainTo(locks, q, id) ensures |q| - 1 <= m[id] { ChainBound(locks, m, q, id); }
  }

  /** No assignment that puts every lock after its dependencies uses a smaller number anywhere. */
  lemma {:induction false} WaveIsMinimal(locks: map<string, Lock>, order: seq<string>, other: WaveMap, id: string)
    requires Layers(locks, order).Some? && id in order
    requires forall x :: x in order ==>
               x in other && forall d :: d in Deps(locks, x) ==> d in other && other[d] < other[x]
    ensures id in Layers(locks, order).value && Layers(locks, order).value[id] <= other[id]
    decreases other[id]
  {
    LayersTight(locks, order);
    var m := Layers(locks, order).value;
    TightStep(locks, m, id);
    if m[id] > 0 {
      var d :| d in Deps(locks, id) && d in m && m[d] + 1 == m[id];
      WaveIsMinimal(locks, order, other, d);
    }
  }

  lemma LayersOrderFree(locks: map<string, Lock>, a: seq<string>, b: seq<string>)
    requires Layers(locks, a).Some? && Layers(locks, b).Some?
    requires forall id :: id in a <==> id in b
    ensures Layers(locks, a) == Layers(locks, b)
  {
    LayersTight(locks, a);
    LayersTight(locks, b);
    var m, n := Layers(locks, a).value, Layers(locks, b).value;
    forall id | id in m ensures m[id] == n[id] {
      var p := LongestChain(locks, m, id);
      var q := LongestChain(locks, n, id);
      ChainBound(locks, m, q, id);
      ChainBound(locks, n, p, id);
    }
    assert m.Keys == n.Keys;
    assert m == n;
  }

  // ---- The waves ----

  lemma {:induction false} BelowHighestWave(m: WaveMap, order: seq<string>, i: nat)
    requires i < |order| && forall id :: id in order ==> id in m
    ensures m[order[i]] <= HighestWave(m, order)
  {
    if i < |order| - 1 { BelowHighestWave(m, order[..|order| - 1], i); }
  }

  lemma {:induction false} HighestWaveAttained(m: WaveMap, order: seq<string>) returns (i: nat)
    requires order != [] && forall id :: id in order ==> id in m
    ensures i < |order| && m[order[i]] == HighestWave(m, order)
  {
    var n := |order| - 1;
    if n == 0 || HighestWave(m, order[..n]) <= m[order[n]] {
      i := n;
    } else {
      i := HighestWaveAttained(m, order[..n]);
    }
  }

  lemma HighestWaveMeaning(m: WaveMap, order: seq<string>)
    requires forall id :: id in order ==> id in m
    ensures forall id :: id in order ==> m[id] <= HighestWave(m, order)
    ensures order != [] ==> exists id :: id in order && m[id] == HighestWave(m, order)
  {
    forall id | id in order ensures m[id] <= HighestWave(m, order) {
      var i :| 0 <= i < |order| && order[i] == id;
      BelowHighestWave(m, order, i);
    }
    if order != [] {
      var i := HighestWaveAttained(m, order);
      assert order[i] in order;
    }
  }

  lemma {:induction false} WaveMultiplicity(m: WaveMap, order: seq<string>, w: int, id: string)
    requires forall x :: x in order ==> x in m
    ensures multiset(OfWave(m, order, w))[id] == if id in order && m[id] == w then multiset(order)[id] else 0
  {
    if order != [] {
      var front, x := order[..|order| - 1], order[|order| - 1];
      assert order == front + [x];
      WaveMultiplicity(m, front, w, id);
      if id !in front { assert multiset(front)[id] == 0; }
    }
  }

  lemma WaveMembers(m: WaveMap, order: seq<string>, w: nat, id: string)
    requires forall x :: x in order ==> x in m
    requires w < |WavesOf(m, order)|
    ensures id in WavesOf(m, order)[w] <==> id in order && m[id] == w
    ensures multiset(WavesOf(m, order)[w])[id] == if id in order && m[id] == w then multiset(order)[id] else 0
  {
    var wave := WavesOf(m, order)[w];
    WaveMultiplicity(m, order, w, id);
    SortPermutes(OfWave(m, order, w));
    assert id in wave <==> multiset(wave)[id] > 0;
    assert id in order <==> multiset(order)[id] > 0;
  }

  lemma {:induction false} WaveMultiset(m: WaveMap, a: seq<string>, b: seq<string>, w: int)
    requires multiset(a) == multiset(b)
    requires (forall x :: x in a ==> x in m) && (forall x :: x in b ==> x in m)
    ensures multiset(OfWave(m, a, w)) == multiset(OfWave(m, b, w))
  {
    forall id ensures multiset(OfWave(m, a, w))[id] == multiset(OfWave(m, b, w))[id] {
      WaveMultiplicity(m, a, w, id);
      WaveMultiplicity(m, b, w, id);
      assert id in a <==> multiset(a)[id] > 0;
      assert id in b <==> multiset(b)[id] > 0;
    }
  }

  lemma HighestWaveSame(m: WaveMap, a: seq<string>, b: seq<string>)
    requires forall x :: x in a <==> x in b
    requires (forall x :: x in a ==> x in m) && (forall x :: x in b ==> x in m)
    ensures HighestWave(m, a) == HighestWave(m, b)
  {
    HighestWaveMeaning(m, a);
    HighestWaveMeaning(m, b);
    assert a != [] ==> a[0] in b;
    assert b != [] ==> b[0] in a;
  }

  lemma WaveSame(m: WaveMap, a: seq<string>, b: seq<string>, w: nat)
    requires multiset(a) == multiset(b)
    requires (forall x :: x in a ==> x in m) && (forall x :: x in b ==> x in m)
    ensures Sort(OfWave(m, a, w)) == Sort(OfWave(m, b, w))
  {
    WaveMultiset(m, a, b, w);
    SortCanonical(OfWave(m, a, w), OfWave(m, b, w));
  }

  lemma WavesOfSame(m: WaveMap, a: seq<string>, b: seq<string>)
    requires multiset(a) == multiset(b)
    requires (forall x :: x in a ==> x in m) && (forall x :: x in b ==> x in m)
    ensures WavesOf(m, a) == WavesOf(m, b)
  {
    SameMembers(a, b);
    HighestWaveSame(m, a, b);
    forall w | 0 <= w < |WavesOf(m, a)| ensures WavesOf(m, a)[w] == WavesOf(m, b)[w] { WaveSame(m, a, b, w); }
  }

  /** Any two dependency-respecting arrangements of the same IDs give the same waves. */
  lemma WavesOrderFree(locks: map<string, Lock>, a: seq<string>, b: seq<string>)
    requires multiset(a) == multiset(b)
    requires DependencyRespecting(locks, a) && DependencyRespecting(locks, b)
    ensures Waves(locks, a).Some? && Waves(locks, a) == Waves(locks, b)
  {
    LayersAccept(locks, a);
    LayersAccept(locks, b);
    SameMembers(a, b);
    LayersOrderFree(locks, a, b);
    LayersTight(locks, a);
    LayersTight(locks, b);
    WavesOfSame(Layers(locks, a).value, a, b);
  }

  lemma SameMembers(a: seq<string>, b: seq<string>)
    requires multiset(a) == multiset(b)
    ensures forall id :: id in a <==> id in b
  {
    forall id ensures id in a <==> id in b {
      assert id in a <==> id in multiset(a);
      assert id in b <==> id in multiset(b);
    }
  }

  function Concat(waves: seq<seq<string>>): seq<string> {
    if waves == [] then [] else Concat(waves[..|waves| - 1]) + waves[|waves| - 1]
  }

  lemma {:induction false} ConcatMultiplicity(m: WaveMap, order: seq<string>, k: nat, id: string)
    requires forall x :: x in order ==> x in m
    requires k <= |WavesOf(m, order)|
    ensures multiset(Concat(WavesOf(m, order)[..k]))[id] == if id in order && m[id] < k then multiset(order)[id] else 0
  {
    if k > 0 {
      ConcatNext(WavesOf(m, order), k - 1);
      ConcatMultiplicity(m, order, k - 1, id);
      WaveMembers(m, order, k - 1, id);
    }
  }

  lemma ConcatNext(waves: seq<seq<string>>, k: nat)
    requires k < |waves|
    ensures Concat(waves[..k + 1]) == Concat(waves[..k]) + waves[k]
  {
    assert waves[..k + 1][..k] == waves[..k];
  }

  lemma ConcatAll(m: WaveMap, order: seq<string>)
    requires forall x :: x in order ==> x in m
    ensures multiset(Concat(WavesOf(m, order))) == multiset(order)
  {
    var waves := WavesOf(m, order);
    HighestWaveMeaning(m, order);
    forall id ensures multiset(Concat(waves))[id] == multiset(order)[id] {
      ConcatMultiplicity(m, order, |waves|, id);
      assert waves[..|waves|] == waves;
      assert id in order <==> multiset(order)[id] > 0;
    }
  }

  /** The waves lay out the canonical order, repeated IDs repeatedly; each is sorted. */
  lemma WavesPartition(locks: map<string, Lock>, order: seq<string>)
    requires Waves(locks, order).Some?
    ensures multiset(Concat(Waves(locks, order).value)) == multiset(order)
    ensures forall w :: 0 <= w < |Waves(locks, order).value| ==> Sorted(Waves(locks, order).value[w])
  {
    LayersTight(locks, order);
    var m := Layers(locks, order).value;
    ConcatAll(m, order);
    forall w | 0 <= w < |WavesOf(m, order)| ensures Sorted(WavesOf(m, order)[w]) { SortMeaning(OfWave(m, order, w)); }
  }

  lemma {:induction false} WaveBelow(locks: map<string, Lock>, m: WaveMap, order: seq<string>, id: string, w: nat)
    returns (x: string)
    requires Tight(locks, m) && (forall y :: y in m <==> y in order) && id in order && w <= m[id]
    ensures x in order && m[x] == w
    decreases m[id]
  {
    if m[id] == w {
      x := id;
    } else {
      TightStep(locks, m, id);
      var d :| d in Deps(locks, id) && d in m && m[d] + 1 == m[id];
      x := WaveBelow(locks, m, order, d, w);
    }
  }

  lemma WavesNonEmpty(locks: map<string, Lock>, order: seq<string>, w: nat)
    requires Waves(locks, order).Some? && order != [] && w < |Waves(locks, order).value|
    ensures Waves(locks, order).value[w] != []
  {
    LayersTight(locks, order);
    var m := Layers(locks, order).value;
    HighestWaveMeaning(m, order);
    var top :| top in order && m[top] == HighestWave(m, order);
    var x := WaveBelow(locks, m, order, top, w);
    WaveMembers(m, order, w, x);
  }

  /** A lock graph with a dependency-respecting arrangement has no cycle. */
  lemma AcyclicByOrder(graph: map<string, Lock>, order: seq<string>)
    requires DependencyRespecting(graph, order) && forall id :: id in graph ==> id in order
    ensures Acyclic(graph)
  {
    LayersAccept(graph, order);
    LayersTight(graph, order);
    var m := Layers(graph, order).value;
    forall id | id in graph ensures id in m && forall d :: d in Deps(graph, id) ==> d in m && m[d] < m[id] {
      TightStep(graph, m, id);
    }
    AcyclicByRank(graph, m);
  }

  lemma DeclaredByOrder(locks: seq<Lock>, order: seq<string>, i: nat, d: string)
    requires DependencyRespecting(LockMap(locks), order)
    requires forall id :: id in order <==> id in LockMap(locks)
    requires Distinct(Ids(locks)) && i < |locks| && d in locks[i].dependencies
    ensures d in LockMap(locks)
  {
    LockMapFinds(locks, i);
    var k :| 0 <= k < |order| && order[k] == locks[i].id;
    assert d in Deps(LockMap(locks), order[k]);
    assert d in order[..k];
    assert d in order;
  }

  /** Success on an arrangement of the declared locks settles what the Kahn pass asks. */
  lemma LayeredIsAcyclic(locks: seq<Lock>, order: seq<string>)
    requires multiset(order) == multiset(Ids(locks))
    requires DependencyRespecting(LockMap(locks), order)
    ensures Acyclic(LockMap(locks))
    ensures Distinct(Ids(locks)) ==> AllDeclared(locks)
  {
    SameMembers(order, Ids(locks));
    KeysAreIds(locks);
    AcyclicByOrder(LockMap(locks), order);
    if Distinct(Ids(locks)) {
      forall i, d | 0 <= i < |locks| && d in locks[i].dependencies ensures d in LockMap(locks) {
        DeclaredByOrder(locks, order, i, d);
      }
    }
  }

  // ---- The methods ----

  function Waves(locks: map<string, Lock>, order: seq<string>): Option<seq<seq<string>>> {
    match Layers(locks, order)
    case None => None
    case Some(m) =>
      LayersTight(locks, order);
      Some(WavesOf(m, order))
  }

  method PlaceLock(m: WaveMap, deps: seq<string>) returns (wave: Option<nat>)
    ensures wave == WaveAfter(m, deps)
  {
    var w: nat := 0;
    for j := 0 to |deps|
      invariant WaveAfter(m, deps[..j]) == Some(w)
    {
      assert deps[..j + 1][..j] == deps[..j];
      var dependency := deps[j];
      if dependency !in m {
        WaveAfterMeaning(m, deps);
        return None;
      }
      if m[dependency] + 1 > w {
        w := m[dependency] + 1;
      }
    }
    assert deps[..|deps|] == deps;
    return Some(w);
  }

  lemma {:induction false} HighestWaveExtends(m: WaveMap, larger: WaveMap, order: seq<string>)
    requires Extends(m, larger) && forall id :: id in order ==> id in m
    ensures HighestWave(larger, order) == HighestWave(m, order)
  {
    if order != [] { HighestWaveExtends(m, larger, order[..|order| - 1]); }
  }

  lemma {:induction false} LayersPrefix(locks: map<string, Lock>, order: seq<string>, i: nat)
    requires i <= |order| && Layers(locks, order[..i]) == None
    ensures Layers(locks, order) == None
  {
    if i < |order| {
      assert order[..|order| - 1][..i] == order[..i];
      LayersPrefix(locks, order[..|order| - 1], i);
    } else {
      assert order[..i] == order;
    }
  }

  lemma LayersNext(locks: map<string, Lock>, next: seq<string>, m: WaveMap)
    requires next != [] && Layers(locks, next[..|next| - 1]) == Some(m) && Layers(locks, next).Some?
    ensures forall id :: id in next[..|next| - 1] ==> id in m
    ensures forall id :: id in next ==> id in Layers(locks, next).value
    ensures HighestWave(Layers(locks, next).value, next[..|next| - 1]) == HighestWave(m, next[..|next| - 1])
  {
    LayersTight(locks, next[..|next| - 1]);
    LayersTight(locks, next);
    HighestWaveExtends(m, Layers(locks, next).value, next[..|next| - 1]);
  }

  method AssignWaves(locks: map<string, Lock>, order: seq<string>) returns (waveById: Option<WaveMap>, maxWave: nat)
    ensures waveById == Layers(locks, order)
    ensures waveById.Some? ==>
              (forall id :: id in order ==> id in waveById.value) && maxWave == HighestWave(waveById.value, order)
  {
    var m: WaveMap := map[];
    maxWave := 0;
    for i := 0 to |order|
      invariant Layers(locks, order[..i]) == Some(m)
      invariant forall id :: id in order[..i] ==> id in m
      invariant maxWave == HighestWave(m, order[..i])
    {
      var id := order[i];
      var next := order[..i + 1];
      assert next[..i] == order[..i];
      var wave := PlaceLock(m, Deps(locks, id));
      if wave == None {
        LayersPrefix(locks, order, i + 1);
        return None, 0;
      }
      LayersNext(locks, next, m);
      m := m[id := wave.value];
      if wave.value > maxWave {
        maxWave := wave.value;
      }
    }
    assert order[..|order|] == order;
    return Some(m), maxWave;
  }

  method FillWaves(m: WaveMap, order: seq<string>, maxWave: nat) returns (waves: seq<seq<string>>)
    requires forall id :: id in order ==> id in m && m[id] <= maxWave
    ensures |waves| == maxWave + 1
    ensures forall w :: 0 <= w < |waves| ==> waves[w] == OfWave(m, order, w)
  {
    waves := seq(maxWave + 1, w => []);
    for i := 0 to |order|
      invariant |waves| == maxWave + 1
      invariant forall w :: 0 <= w < |waves| ==> waves[w] == OfWave(m, order[..i], w)
    {
      assert order[..i + 1][..i] == order[..i];
      var id := order[i];
      assert id in order;
      waves := waves[m[id] := waves[m[id]] + [id]];
    }
    assert order[..|order|] == order;
  }

  method SortWaves(unsorted: seq<seq<string>>) returns (waves: seq<seq<string>>)
    ensures |waves| == |unsorted|
    ensures forall w :: 0 <= w < |waves| ==> waves[w] == Sort(unsorted[w])
  {
    waves := unsorted;
    for index := 0 to |waves|
      invariant |waves| == |unsorted|
      invariant forall w :: 0 <= w < index ==> waves[w] == Sort(unsorted[w])
      invariant forall w :: index <= w < |waves| ==> waves[w] == unsorted[w]
    {
      waves := waves[index := Sort(waves[index])];
    }
  }

  method BuildWaves(source: Source) returns (result: Option<seq<seq<string>>>)
    ensures result == Waves(LockMap(source.locks), source.canonicalOrder)
  {
    var order := source.canonicalOrder;
    var waveById, maxWave := AssignWaves(LockMap(source.locks), order);
    if waveById == None {
      return None;
    }
    HighestWaveMeaning(waveById.value, order);
    var waves := FillWaves(waveById.value, order, maxWave);
    waves := SortWaves(waves);
    assert waves == WavesOf(waveById.value, order);
    return Some(waves);
  }

  /** The wave a lock is scheduled in, counted from 0; a failed layering leaves all at 0. */
  function ScheduledWave(source: Source, id: string): nat {
    match Layers(LockMap(source.locks), source.canonicalOrder)
    case None => 0
    case Some(m) => if id in m then m[id] else 0
  }

  /** The schedule lists the canonical order and recovers each lock's wave, counted from 1. */
  method BuildSchedule(source: Source) returns (items: seq<ScheduleItem>)
    ensures |items| == |source.canonicalOrder|
    ensures forall i :: 0 <= i < |items| ==>
              items[i] == ScheduleItem(i + 1, source.canonicalOrder[i],
                                       Deps(LockMap(source.locks), source.canonicalOrder[i]),
                                       ScheduledWave(source, source.canonicalOrder[i]) + 1)
  {
    var order, locks := source.canonicalOrder, LockMap(source.locks);
    var waveById := ScheduledWaves(source);
    items := [];
    for index := 0 to |order|
      invariant |items| == index
      invariant forall i :: 0 <= i < index ==>
                  items[i] == ScheduleItem(i + 1, order[i], Deps(locks, order[i]), ScheduledWave(source, order[i]) + 1)
    {
      var id := order[index];
      assert id in order;
      var wave := if id in waveById then waveById[id] else 0;
      items := items + [ScheduleItem(index + 1, id, Deps(locks, id), wave + 1)];
    }
  }

  /** A listed lock is scheduled in the wave of its longest dependency chain, counted from 0;
      every lock is in wave 0 when the layering fails. */
  lemma ScheduleMeaning(source: Source, id: string)
    requires id in source.canonicalOrder
    ensures DependencyRespecting(LockMap(source.locks), source.canonicalOrder) ==>
              && (exists p :: ChainTo(LockMap(source.locks), p, id) && |p| - 1 == ScheduledWave(source, id))
              && (forall p :: ChainTo(LockMap(source.locks), p, id) ==> |p| - 1 <= ScheduledWave(source, id))
    ensures !DependencyRespecting(LockMap(source.locks), source.canonicalOrder) ==> ScheduledWave(source, id) == 0
  {
    LayersAccept(LockMap(source.locks), source.canonicalOrder);
    if DependencyRespecting(LockMap(source.locks), source.canonicalOrder) {
      WaveIsLongestChain(LockMap(source.locks), source.canonicalOrder, id);
    }
  }

  method RecordWave(waveById: WaveMap, ids: seq<string>, wave: nat) returns (result: WaveMap)
    ensures forall id :: id in result <==> id in waveById || id in ids
    ensures forall id :: id in result ==> result[id] == if id in ids then wave else waveById[id]
  {
    result := waveById;
    for k := 0 to |ids|
      invariant forall id :: id in result <==> id in waveById || id in ids[..k]
      invariant forall id :: id in result ==> result[id] == if id in ids[..k] then wave else waveById[id]
    {
      assert ids[..k + 1] == ids[..k] + [ids[k]];
      result := result[ids[k] := wave];
    }
    assert ids[..|ids|] == ids;
  }

  lemma MembersPlaced(m: WaveMap, order: seq<string>)
    requires forall x :: x in order ==> x in m
    ensures forall w, id :: 0 <= w < |WavesOf(m, order)| && id in WavesOf(m, order)[w] ==> id in m && m[id] == w
  {
    forall w, id | 0 <= w < |WavesOf(m, order)| && id in WavesOf(m, order)[w] ensures id in m && m[id] == w {
      WaveMembers(m, order, w, id);
    }
  }

  lemma PlacedInWave(m: WaveMap, order: seq<string>, id: string)
    requires id in order && forall x :: x in order ==> x in m
    ensures 0 <= m[id] < |WavesOf(m, order)| && id in WavesOf(m, order)[m[id]]
  {
    HighestWaveMeaning(m, order);
    WaveMembers(m, order, m[id], id);
  }

  method RecoverWaves(waves: seq<seq<string>>, ghost m: WaveMap) returns (waveById: WaveMap)
    requires forall w, id :: 0 <= w < |waves| && id in waves[w] ==> id in m && m[id] == w
    ensures forall id :: id in waveById ==> id in m && waveById[id] == m[id]
    ensures forall w, id :: 0 <= w < |waves| && id in waves[w] ==> id in waveById
  {
    waveById := map[];
    for wave := 0 to |waves|
      invariant forall id :: id in waveById ==> id in m && waveById[id] == m[id]
      invariant forall w, id :: 0 <= w < wave && id in waves[w] ==> id in waveById
    {
      waveById := RecordWave(waveById, waves[wave], wave);
    }
  }

  lemma Recovered(source: Source, waves: seq<seq<string>>, m: WaveMap, waveById: WaveMap, id: string)
    requires Layers(LockMap(source.locks), source.canonicalOrder) == Some(m)
    requires Waves(LockMap(source.locks), source.canonicalOrder) == Some(waves)
    requires forall x :: x in waveById ==> x in m && waveById[x] == m[x]
    requires forall w, x :: 0 <= w < |waves| && x in waves[w] ==> x in waveById
    requires id in source.canonicalOrder
    ensures id in waveById && waveById[id] == ScheduledWave(source, id)
  {
    LayersTight(LockMap(source.locks), source.canonicalOrder);
    PlacedInWave(m, source.canonicalOrder, id);
  }

  method ScheduledWaves(source: Source) returns (waveById: WaveMap)
    ensures forall id :: id in source.canonicalOrder ==>
              ScheduledWave(source, id) == if id in waveById then waveById[id] else 0
  {
    var built := BuildWaves(source);
    if built == None {
      return map[];
    }
    ghost var m := Layers(LockMap(source.locks), source.canonicalOrder).value;
    LayersTight(LockMap(source.locks), source.canonicalOrder);
    MembersPlaced(m, source.canonicalOrder);
    waveById := RecoverWaves(built.value, m);
    forall id | id in source.canonicalOrder ensures id in waveById && waveById[id] == ScheduledWave(source, id) {
      Recovered(source, built.value, m, waveById, id);
    }
  }
}

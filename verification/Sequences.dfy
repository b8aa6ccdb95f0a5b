/** Counting, summing and pigeonhole facts about sequences. */
module Sequences {
  function Max(a: int, b: int): int {
    if a < b then b else a
  }

  ghost predicate Distinct<T>(s: seq<T>) {
    forall i, j :: 0 <= i < j < |s| ==> s[i] != s[j]
  }

  ghost function Elements<T>(s: seq<T>): set<T> {
    set x | x in s
  }

  lemma {:induction false} DistinctSize<T>(s: seq<T>)
    requires Distinct(s)
    ensures |Elements(s)| == |s|
  {
    if s != [] {
      var front, x := s[..|s| - 1], s[|s| - 1];
      DistinctSize(front);
      assert Elements(s) == Elements(front) + {x};
      assert x !in Elements(front);
    }
  }

  lemma {:induction false} ElementsBound<T>(s: seq<T>)
    ensures |Elements(s)| <= |s|
    ensures |Elements(s)| == |s| ==> Distinct(s)
  {
    if s != [] {
      var front, x := s[..|s| - 1], s[|s| - 1];
      ElementsBound(front);
      assert Elements(s) == Elements(front) + {x};
      if x in Elements(front) {
        assert Elements(s) == Elements(front);
      }
    }
  }

  lemma SubsetSize<T>(a: set<T>, b: set<T>)
    requires a <= b
    ensures |a| <= |b|
    ensures |a| == |b| ==> a == b
  {
    assert b == a + (b - a);
    assert |b| == |a| + |b - a|;
  }

  lemma DistinctAppend<T>(s: seq<T>, x: T)
    ensures Distinct(s + [x]) <==> Distinct(s) && x !in s
  {
    var t := s + [x];
    if Distinct(t) {
      forall i, j | 0 <= i < j < |s| ensures s[i] != s[j] { assert t[i] != t[j]; }
      forall i | 0 <= i < |s| ensures s[i] != x { assert t[i] != t[|s|]; }
    }
  }

  lemma FullWhenEqual<T>(names: seq<T>, pool: set<T>)
    requires Distinct(names) && forall x :: x in names ==> x in pool
    ensures |names| <= |pool|
    ensures |names| == |pool| ==> forall x :: x in pool ==> x in names
    ensures |names| < |pool| ==> exists x :: x in pool && x !in names
  {
    DistinctSize(names);
    SubsetSize(Elements(names), pool);
    if forall x :: x in pool ==> x in names {
      assert pool == Elements(names);
    }
  }

  /** More entries than elements of `pool`: two positions hold the same entry. */
  lemma Repetition<T>(s: seq<T>, pool: set<T>) returns (i: nat, j: nat)
    requires |s| > |pool| && forall x :: x in s ==> x in pool
    ensures i < j < |s| && s[i] == s[j]
  {
    if Distinct(s) {
      FullWhenEqual(s, pool);
      assert false;
    }
    i, j :| 0 <= i < j < |s| && s[i] == s[j];
  }

  /** Distinct names, as many as the declarations, every one declared: then the
      declarations are distinct too and both name the same things. */
  lemma Pigeonhole<T>(names: seq<T>, declared: seq<T>)
    requires |names| == |declared|
    requires Distinct(names) && forall x :: x in names ==> x in declared
    ensures Distinct(declared)
    ensures forall x :: x in declared <==> x in names
  {
    DistinctSize(names);
    ElementsBound(declared);
    assert Elements(names) <= Elements(declared);
    SubsetSize(Elements(names), Elements(declared));
    forall x ensures x in declared <==> x in names {
      assert x in declared <==> x in Elements(declared);
      assert x in names <==> x in Elements(names);
    }
  }

  lemma {:induction false} DistinctMultiset<T>(s: seq<T>)
    ensures Distinct(s) <==> forall x :: multiset(s)[x] <= 1
  {
    if s != [] {
      var front, x := s[..|s| - 1], s[|s| - 1];
      DistinctMultiset(front);
      assert s == front + [x];
      if Distinct(s) {
        assert x !in front;
        assert forall y :: multiset(s)[y] <= 1;
      } else if Distinct(front) {
        assert x in front;
        assert multiset(s)[x] > 1;
      } else {
        var y :| multiset(front)[y] > 1;
        assert multiset(s)[y] > 1;
      }
    }
  }

  function Count<T>(s: seq<T>, f: T -> bool): (n: nat)
    ensures n <= |s|
  {
    if s == [] then 0
    else Count(s[..|s| - 1], f) + if f(s[|s| - 1]) then 1 else 0
  }

  lemma {:induction false} CountUpdate<T>(s: seq<T>, f: T -> bool, i: nat, x: T)
    requires i < |s|
    ensures Count(s[i := x], f) == Count(s, f) - (if f(s[i]) then 1 else 0) + (if f(x) then 1 else 0)
  {
    var n := |s| - 1;
    if i == n {
      assert s[i := x][..n] == s[..n];
    } else {
      assert s[i := x][..n] == s[..n][i := x];
      CountUpdate(s[..n], f, i, x);
    }
  }

  lemma {:induction false} CountPositive<T>(s: seq<T>, f: T -> bool)
    ensures Count(s, f) > 0 <==> exists i :: 0 <= i < |s| && f(s[i])
  {
    if s != [] {
      CountPositive(s[..|s| - 1], f);
    }
  }

  lemma {:induction false} CountAll<T>(s: seq<T>, f: T -> bool)
    ensures Count(s, f) == |s| <==> forall x :: x in s ==> f(x)
  {
    if s != [] {
      CountAll(s[..|s| - 1], f);
      assert s == s[..|s| - 1] + [s[|s| - 1]];
    }
  }

  lemma {:induction false} CountFirst<T>(s: seq<T>, f: T -> bool)
    requires s != []
    ensures Count(s, f) == Count(s[1..], f) + if f(s[0]) then 1 else 0
  {
    var n := |s| - 1;
    if n > 0 {
      CountFirst(s[..n], f);
      assert s[..n][1..] == s[1..][..n - 1];
    }
  }

  /** Flagging exactly the last occurrences counts the different entries. */
  lemma {:induction false} CountLastOccurrences<S, T>(s: seq<S>, t: seq<T>, f: T -> bool)
    requires |s| == |t|
    requires forall j :: 0 <= j < |s| ==> (f(t[j]) <==> forall k :: j < k < |s| ==> s[k] != s[j])
    ensures Count(t, f) == |Elements(s)|
  {
    if s != [] {
      var rest, others := s[1..], t[1..];
      forall j | 0 <= j < |rest| ensures f(others[j]) <==> forall k :: j < k < |rest| ==> rest[k] != rest[j] {
        LaterInTail(s, j);
      }
      CountLastOccurrences(rest, others, f);
      CountFirst(t, f);
      ElementsFirst(s);
      assert s[0] in rest <==> exists k :: 0 < k < |s| && s[k] == s[0] by {
        forall k | 0 < k < |s| ensures s[k] in rest { assert rest[k - 1] == s[k]; }
      }
    }
  }

  lemma LaterInTail<S>(s: seq<S>, j: nat)
    requires j + 1 < |s|
    ensures (forall k :: j < k < |s[1..]| ==> s[1..][k] != s[1..][j]) <==>
            forall k :: j + 1 < k < |s| ==> s[k] != s[j + 1]
  {
    forall k | j + 1 < k < |s| ensures s[k] == s[1..][k - 1] {}
  }

  lemma ElementsFirst<T>(s: seq<T>)
    requires s != []
    ensures |Elements(s)| == |Elements(s[1..])| + if s[0] in s[1..] then 0 else 1
  {
    assert Elements(s) == Elements(s[1..]) + {s[0]};
    if s[0] in s[1..] { assert Elements(s) == Elements(s[1..]); }
  }

  /** Pointwise implication between two aligned sequences. */
  lemma {:induction false} CountMonotone<S, T>(s: seq<S>, f: S -> bool, t: seq<T>, g: T -> bool)
    requires |s| == |t|
    requires forall i :: 0 <= i < |s| && f(s[i]) ==> g(t[i])
    ensures Count(s, f) <= Count(t, g)
  {
    if s != [] {
      CountMonotone(s[..|s| - 1], f, t[..|t| - 1], g);
    }
  }

  /** The entries that satisfy `f`, in their order. */
  function Filter<T>(s: seq<T>, f: T -> bool): seq<T> {
    if s == [] then [] else (if f(s[0]) then [s[0]] else []) + Filter(s[1..], f)
  }

  lemma {:induction false} FilterAppend<T>(s: seq<T>, x: T, f: T -> bool)
    ensures Filter(s + [x], f) == Filter(s, f) + if f(x) then [x] else []
  {
    var t := s + [x];
    if s == [] {
      assert t == [x] && t[1..] == [];
    } else {
      var head := if f(s[0]) then [s[0]] else [];
      var tail := if f(x) then [x] else [];
      FilterAppend(s[1..], x, f);
      assert t[0] == s[0] && t[1..] == s[1..] + [x];
      assert head + (Filter(s[1..], f) + tail) == (head + Filter(s[1..], f)) + tail;
    }
  }

  lemma {:induction false} FilterNone<T>(s: seq<T>, f: T -> bool)
    requires forall i :: 0 <= i < |s| ==> !f(s[i])
    ensures Filter(s, f) == []
  {
    if s != [] { FilterNone(s[1..], f); }
  }

  lemma UniqueOccurrence<T>(s: seq<T>, x: T) returns (i: nat)
    requires Distinct(s) && x in s
    ensures i < |s| && forall j :: 0 <= j < |s| ==> (s[j] == x <==> j == i)
  {
    i :| 0 <= i < |s| && s[i] == x;
  }

  lemma FirstOccurrence<T>(s: seq<T>, x: T) returns (i: nat)
    requires x in s
    ensures i < |s| && s[i] == x && x !in s[..i]
  {
    if |s| > 1 && x in s[..|s| - 1] {
      i := FirstOccurrence(s[..|s| - 1], x);
      assert s[..|s| - 1][..i] == s[..i];
    } else {
      i := |s| - 1;
    }
  }

  lemma SplitLast<T>(s: seq<T>)
    requires s != []
    ensures s == s[..|s| - 1] + [s[|s| - 1]]
    ensures multiset(s) == multiset(s[..|s| - 1]) + multiset{s[|s| - 1]}
  {
    assert s == s[..|s| - 1] + [s[|s| - 1]];
  }

  lemma SameSplit<T>(s: seq<T>, t: seq<T>)
    requires s != [] && t != []
    ensures s == t <==> s[..|s| - 1] == t[..|t| - 1] && s[|s| - 1] == t[|t| - 1]
  {
    SplitLast(s);
    SplitLast(t);
  }

  lemma PrefixMultiset<T>(s: seq<T>, k: nat)
    requires k < |s|
    ensures forall x :: multiset(s[..k + 1])[x] == multiset(s[..k])[x] + if x == s[k] then 1 else 0
  {
    assert s[..k + 1] == s[..k] + [s[k]];
  }

  function Total<T>(s: seq<T>, f: T -> int): int {
    if s == [] then 0 else Total(s[..|s| - 1], f) + f(s[|s| - 1])
  }

  lemma {:induction false} TotalWithout<T>(s: seq<T>, i: nat, f: T -> int)
    requires i < |s|
    ensures Total(s, f) == Total(s[..i] + s[i + 1..], f) + f(s[i])
  {
    var n := |s| - 1;
    if i == n {
      assert s[..i] + s[i + 1..] == s[..n];
    } else {
      TotalWithout(s[..n], i, f);
      var less := s[..i] + s[i + 1..];
      assert less[..n - 1] == s[..n][..i] + s[..n][i + 1..];
      assert less[n - 1] == s[n];
    }
  }

  /** A total does not depend on the arrangement. */
  lemma {:induction false} TotalPermutes<T>(s: seq<T>, t: seq<T>, f: T -> int)
    requires multiset(s) == multiset(t)
    ensures Total(s, f) == Total(t, f)
  {
    assert |s| == |multiset(s)| == |multiset(t)| == |t|;
    if s != [] {
      var n := |s| - 1;
      SplitLast(s);
      assert s[n] in multiset(t);
      var i :| 0 <= i < |t| && t[i] == s[n];
      MultisetWithout(t, i);
      TotalPermutes(s[..n], t[..i] + t[i + 1..], f);
      TotalWithout(t, i, f);
    }
  }

  lemma MultisetWithout<T>(s: seq<T>, i: nat)
    requires i < |s|
    ensures multiset(s[..i] + s[i + 1..]) == multiset(s) - multiset{s[i]}
  {
    assert s == s[..i] + [s[i]] + s[i + 1..];
  }

  lemma {:induction false} TotalOfCount<T>(s: seq<T>, f: T -> bool, g: T -> int)
    requires forall x :: g(x) == if f(x) then 1 else 0
    ensures Count(s, f) == Total(s, g)
  {
    if s != [] { TotalOfCount(s[..|s| - 1], f, g); }
  }

  lemma CountPermutes<T>(s: seq<T>, t: seq<T>, f: T -> bool)
    requires multiset(s) == multiset(t)
    ensures Count(s, f) == Count(t, f)
  {
    var g := x => if f(x) then 1 else 0;
    TotalPermutes(s, t, g);
    TotalOfCount(s, f, g);
    TotalOfCount(t, f, g);
  }

  function Sum(s: seq<int>): int {
    if s == [] then 0 else Sum(s[..|s| - 1]) + s[|s| - 1]
  }

  lemma {:induction false} SumBelow(s: seq<int>, t: seq<int>)
    requires |s| == |t| && forall i :: 0 <= i < |s| ==> s[i] <= t[i]
    ensures Sum(s) <= Sum(t)
    ensures (exists i :: 0 <= i < |s| && s[i] < t[i]) ==> Sum(s) < Sum(t)
  {
    if s != [] {
      SumBelow(s[..|s| - 1], t[..|t| - 1]);
    }
  }
}

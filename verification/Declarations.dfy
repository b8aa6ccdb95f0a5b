/** Lists of declarations that carry an ID: their IDs and the maps filled from them. */
module Declarations {
  import opened Sequences

  /** The IDs of a list of declarations, read off by `key`. */
  function Names<T>(items: seq<T>, key: T -> string): (ids: seq<string>)
    ensures |ids| == |items| && forall i :: 0 <= i < |items| ==> ids[i] == key(items[i])
  {
    seq(|items|, i requires 0 <= i < |items| => key(items[i]))
  }

  /** The map that a loop over `items` fills: the last entry of an ID wins. */
  function ByName<T>(items: seq<T>, key: T -> string): map<string, T> {
    if items == [] then map[]
    else ByName(items[..|items| - 1], key)[key(items[|items| - 1]) := items[|items| - 1]]
  }

  lemma {:induction false} ByNameSource<T>(items: seq<T>, key: T -> string, id: string) returns (i: nat)
    requires id in ByName(items, key)
    ensures i < |items| && key(items[i]) == id && items[i] == ByName(items, key)[id]
  {
    var n := |items| - 1;
    if key(items[n]) == id {
      i := n;
    } else {
      i := ByNameSource(items[..n], key, id);
    }
  }

  lemma ByNameKeyed<T>(items: seq<T>, key: T -> string)
    ensures forall id :: id in ByName(items, key) ==> key(ByName(items, key)[id]) == id
  {
    forall id | id in ByName(items, key) ensures key(ByName(items, key)[id]) == id {
      var i := ByNameSource(items, key, id);
    }
  }

  lemma {:induction false} ByNameKeys<T>(items: seq<T>, key: T -> string, id: string)
    ensures id in ByName(items, key) <==> id in Names(items, key)
  {
    if items != [] {
      var n := |items| - 1;
      ByNameKeys(items[..n], key, id);
      assert Names(items, key) == Names(items[..n], key) + [key(items[n])];
    }
  }

  /** The map holds the last entry of each ID. */
  lemma {:induction false} ByNameLast<T>(items: seq<T>, key: T -> string, i: nat)
    requires i < |items| && forall j :: i < j < |items| ==> key(items[j]) != key(items[i])
    ensures key(items[i]) in ByName(items, key) && ByName(items, key)[key(items[i])] == items[i]
  {
    if i < |items| - 1 { ByNameLast(items[..|items| - 1], key, i); }
  }

  lemma ByNameFinds<T>(items: seq<T>, key: T -> string, i: nat)
    requires i < |items| && Distinct(Names(items, key))
    ensures key(items[i]) in ByName(items, key) && ByName(items, key)[key(items[i])] == items[i]
  {
    forall j | i < j < |items| ensures key(items[j]) != key(items[i]) {
      assert Names(items, key)[i] != Names(items, key)[j];
    }
    ByNameLast(items, key, i);
  }
}

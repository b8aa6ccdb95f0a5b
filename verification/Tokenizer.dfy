/** The `.gooo` tokenizer: blank-separated fields, key/value pairs and comma lists. */
module Tokenizer {
  import opened Model
  import opened Sequences

  predicate IsBlank(c: char) { c == ' ' || c == '\t' }

  // ---- Fields ----

  /** How far a field reaches: up to a blank outside quotes. */
  function FieldLength(s: string, quoted: bool): (n: nat)
    ensures n <= |s|
  {
    if s == "" then 0
    else if s[0] == '"' then 1 + FieldLength(s[1..], !quoted)
    else if IsBlank(s[0]) && !quoted then 0
    else 1 + FieldLength(s[1..], quoted)
  }

  // ---- Trimming ----

  function TrimStart(s: string, drop: char -> bool): (r: string)
    ensures |r| <= |s|
  {
    if s != "" && drop(s[0]) then TrimStart(s[1..], drop) else s
  }

  function TrimEnd(s: string, drop: char -> bool): (r: string)
    ensures |r| <= |s|
  {
    if s != "" && drop(s[|s| - 1]) then TrimEnd(s[..|s| - 1], drop) else s
  }

  predicate IsQuote(c: char) { c == '"' }

  /** `strings.Trim(s, "\"")`. */
  function TrimQuotes(s: string): string {
    TrimEnd(TrimStart(s, IsQuote), IsQuote)
  }

  ghost predicate Only(s: string, drop: char -> bool) {
    forall c :: c in s ==> drop(c)
  }

  /** `r` is `s` without the dropped characters before and behind it, and no shorter. */
  ghost predicate Trims(s: string, r: string, drop: char -> bool) {
    && (exists p, q :: s == p + r + q && Only(p, drop) && Only(q, drop))
    && (r != "" ==> !drop(r[0]) && !drop(r[|r| - 1]))
  }

  lemma {:induction false} StartSplit(s: string, drop: char -> bool) returns (p: string)
    ensures s == p + TrimStart(s, drop) && Only(p, drop)
    ensures TrimStart(s, drop) != "" ==> !drop(TrimStart(s, drop)[0])
  {
    if s != "" && drop(s[0]) {
      var q := StartSplit(s[1..], drop);
      p := [s[0]] + q;
      assert s == [s[0]] + s[1..];
    } else {
      p := "";
    }
  }

  lemma {:induction false} EndSplit(s: string, drop: char -> bool) returns (q: string)
    ensures s == TrimEnd(s, drop) + q && Only(q, drop)
    ensures TrimEnd(s, drop) != "" ==> !drop(TrimEnd(s, drop)[|TrimEnd(s, drop)| - 1])
  {
    if s != "" && drop(s[|s| - 1]) {
      var p := EndSplit(s[..|s| - 1], drop);
      q := p + [s[|s| - 1]];
      assert s == s[..|s| - 1] + [s[|s| - 1]];
    } else {
      q := "";
    }
  }

  lemma {:induction false} StartDropped(p: string, s: string, drop: char -> bool)
    requires Only(p, drop)
    ensures TrimStart(p + s, drop) == TrimStart(s, drop)
  {
    if p == "" {
      assert p + s == s;
    } else {
      assert p[0] in p && (p + s)[1..] == p[1..] + s;
      StartDropped(p[1..], s, drop);
    }
  }

  lemma {:induction false} EndDropped(s: string, q: string, drop: char -> bool)
    requires Only(q, drop)
    ensures TrimEnd(s + q, drop) == TrimEnd(s, drop)
  {
    if q == "" {
      assert s + q == s;
    } else {
      var n := |q| - 1;
      assert q[n] in q && (s + q)[..|s + q| - 1] == s + q[..n];
      EndDropped(s, q[..n], drop);
    }
  }

  lemma TrimKeeps(s: string, drop: char -> bool)
    ensures Trims(s, TrimEnd(TrimStart(s, drop), drop), drop)
  {
    var l := TrimStart(s, drop);
    var r := TrimEnd(l, drop);
    var p := StartSplit(s, drop);
    var q := EndSplit(l, drop);
    assert s == p + r + q;
    if r != "" { assert r[0] == l[0]; }
  }

  lemma TrimDropped(p: string, r: string, q: string, drop: char -> bool)
    requires Only(p, drop) && Only(q, drop) && (r != "" ==> !drop(r[0]) && !drop(r[|r| - 1]))
    ensures TrimEnd(TrimStart(p + r + q, drop), drop) == r
  {
    assert p + r + q == p + (r + q);
    StartDropped(p, r + q, drop);
    TrimBehind(r, q, drop);
  }

  lemma TrimBehind(r: string, q: string, drop: char -> bool)
    requires Only(q, drop) && (r != "" ==> !drop(r[0]) && !drop(r[|r| - 1]))
    ensures TrimEnd(TrimStart(r + q, drop), drop) == r
  {
    if r == "" {
      assert r + q == q + "";
      StartDropped(q, "", drop);
    } else {
      assert (r + q)[0] == r[0];
      EndDropped(r, q, drop);
    }
  }

  /** Trimming both ends gives the one string that `Trims` allows. */
  lemma TrimMeaning(s: string, r: string, drop: char -> bool)
    ensures r == TrimEnd(TrimStart(s, drop), drop) <==> Trims(s, r, drop)
  {
    TrimKeeps(s, drop);
    if Trims(s, r, drop) {
      var p, q :| s == p + r + q && Only(p, drop) && Only(q, drop);
      TrimDropped(p, r, q, drop);
    }
  }

  /** Removes the quotes at both ends, all of them and nothing else. */
  lemma TrimQuotesMeaning(s: string, r: string)
    ensures r == TrimQuotes(s) <==>
            && (exists p, q :: s == p + r + q && (forall c :: c in p ==> c == '"') && (forall c :: c in q ==> c == '"'))
            && (r != "" ==> r[0] != '"' && r[|r| - 1] != '"')
  {
    TrimMeaning(s, r, IsQuote);
    if Trims(s, r, IsQuote) {
      var p, q :| s == p + r + q && Only(p, IsQuote) && Only(q, IsQuote);
      assert (forall c :: c in p ==> c == '"') && (forall c :: c in q ==> c == '"');
    }
    if exists p, q :: s == p + r + q && (forall c :: c in p ==> c == '"') && (forall c :: c in q ==> c == '"') {
      var p, q :| s == p + r + q && (forall c :: c in p ==> c == '"') && (forall c :: c in q ==> c == '"');
      assert Only(p, IsQuote) && Only(q, IsQuote);
    }
  }

  // ---- The fields of a line ----

  function Fields(s: string): Option<seq<string>> {
    if s == "" then Some([])
    else if IsBlank(s[0]) then Fields(s[1..])
    else
      var n := FieldLength(s, false);
      assert n > 0;
      var value := TrimQuotes(s[..n]);
      if value == "" then None
      else
        match Fields(s[n..])
        case None => None
        case Some(rest) => Some([value] + rest)
  }

  function Prepend(front: seq<string>, rest: Option<seq<string>>): Option<seq<string>> {
    match rest
    case None => None
    case Some(r) => Some(front + r)
  }

  lemma PrependMore(front: seq<string>, value: string, rest: Option<seq<string>>)
    ensures Prepend(front, Prepend([value], rest)) == Prepend(front + [value], rest)
  {
    if rest.Some? {
      assert front + ([value] + rest.value) == (front + [value]) + rest.value;
    }
  }

  method ScanField(line: string, start: nat) returns (index: nat)
    requires start < |line| && !IsBlank(line[start])
    ensures start < index <= |line| && index == start + FieldLength(line[start..], false)
  {
    index := start;
    var quoted := false;
    while index < |line|
      invariant start <= index <= |line|
      invariant FieldLength(line[start..], false) == index - start + FieldLength(line[index..], quoted)
      decreases |line| - index
    {
      assert line[index..][1..] == line[index + 1..];
      if line[index] == '"' {
        quoted := !quoted;
      } else if IsBlank(line[index]) && !quoted {
        break;
      }
      index := index + 1;
    }
  }

  method SkipBlanks(line: string, start: nat) returns (index: nat)
    requires start <= |line|
    ensures start <= index <= |line| && (index < |line| ==> !IsBlank(line[index]))
    ensures Fields(line[index..]) == Fields(line[start..])
  {
    index := start;
    while index < |line| && IsBlank(line[index])
      invariant start <= index <= |line|
      invariant Fields(line[index..]) == Fields(line[start..])
      decreases |line| - index
    {
      assert line[index..][1..] == line[index + 1..];
      index := index + 1;
    }
  }

  lemma FieldAt(line: string, start: nat, index: nat)
    requires start < |line| && !IsBlank(line[start]) && index == start + FieldLength(line[start..], false)
    requires start < index <= |line|
    ensures Fields(line[start..]) ==
            if TrimQuotes(line[start..index]) == "" then None
            else Prepend([TrimQuotes(line[start..index])], Fields(line[index..]))
  {
    assert line[start..][..index - start] == line[start..index];
    assert line[start..][index - start..] == line[index..];
  }

  /** `parseFields`; `None` is the empty-field error. */
  method ParseFields(line: string) returns (result: Option<seq<string>>)
    ensures result == Fields(line)
  {
    var fields: seq<string> := [];
    var index: nat := 0;
    assert line[0..] == line;
    PrependNothing(Fields(line));
    while index < |line|
      invariant index <= |line|
      invariant Fields(line) == Prepend(fields, Fields(line[index..]))
      decreases |line| - index
    {
      index := SkipBlanks(line, index);
      if index == |line| {
        break;
      }
      var start := index;
      index := ScanField(line, start);
      FieldAt(line, start, index);
      var value := TrimQuotes(line[start..index]);
      if value == "" {
        return None;
      }
      PrependMore(fields, value, Fields(line[index..]));
      fields := fields + [value];
    }
    assert line[index..] == "";
    assert fields + [] == fields;
    return Some(fields);
  }

  lemma PrependNothing(rest: Option<seq<string>>)
    ensures Prepend([], rest) == rest
  {
    if rest.Some? { assert [] + rest.value == rest.value; }
  }

  // ---- Key/value pairs ----

  /** The position of the first `=`, or the length when there is none. */
  function EqualsAt(s: string): (n: nat)
    ensures n <= |s|
    ensures n < |s| ==> s[n] == '='
  {
    if s == "" || s[0] == '=' then 0 else 1 + EqualsAt(s[1..])
  }

  function KeyValue(field: string): Option<(string, string)> {
    var n := EqualsAt(field);
    if n == |field| || n == 0 then None
    else
      var value := TrimQuotes(field[n + 1..]);
      if value == "" then None else Some((field[..n], value))
  }

  /** All pairs of a list in one map, if all are there; of a repeated key the last value stays. */
  function Merge<K, V>(pairs: seq<Option<(K, V)>>): Option<map<K, V>> {
    if pairs == [] then Some(map[])
    else
      match (Merge(pairs[..|pairs| - 1]), pairs[|pairs| - 1])
      case (Some(m), Some(p)) => Some(m[p.0 := p.1])
      case _ => None
  }

  lemma {:induction false} MergeFails<K, V>(pairs: seq<Option<(K, V)>>, i: nat)
    requires i < |pairs| && pairs[i] == None
    ensures Merge(pairs) == None
  {
    if i < |pairs| - 1 { MergeFails(pairs[..|pairs| - 1], i); }
  }

  lemma MergeNext<K, V>(pairs: seq<Option<(K, V)>>, p: (K, V))
    requires Merge(pairs).Some?
    ensures Merge(pairs + [Some(p)]) == Some(Merge(pairs).value[p.0 := p.1])
  {
    assert (pairs + [Some(p)])[..|pairs|] == pairs;
  }

  function PairsOf(fields: seq<string>): (pairs: seq<Option<(string, string)>>)
    ensures |pairs| == |fields| && forall i :: 0 <= i < |fields| ==> pairs[i] == KeyValue(fields[i])
  {
    seq(|fields|, i requires 0 <= i < |fields| => KeyValue(fields[i]))
  }

  function KeyValues(fields: seq<string>): Option<map<string, string>> {
    Merge(PairsOf(fields))
  }

  /** `parseKeyValues`; of a repeated key the last value stays. */
  method ParseKeyValues(fields: seq<string>) returns (result: Option<map<string, string>>)
    ensures result == KeyValues(fields)
  {
    var values: map<string, string> := map[];
    for i := 0 to |fields|
      invariant KeyValues(fields[..i]) == Some(values)
    {
      var field := fields[i];
      var n := EqualsAt(field);
      if n == |field| || n == 0 {
        MergeFails(PairsOf(fields), i);
        return None;
      }
      var value := TrimQuotes(field[n + 1..]);
      if value == "" {
        MergeFails(PairsOf(fields), i);
        return None;
      }
      assert PairsOf(fields[..i + 1]) == PairsOf(fields[..i]) + [Some((field[..n], value))];
      MergeNext(PairsOf(fields[..i]), (field[..n], value));
      values := values[field[..n] := value];
    }
    assert fields[..|fields|] == fields;
    return Some(values);
  }

  // ---- What a line's fields are ----

  /** Whether position `k` is inside quotes: whether an odd number of them precedes it. */
  ghost predicate Inside(s: string, k: nat)
    requires k <= |s|
  {
    k > 0 && (s[k - 1] == '"' <==> !Inside(s, k - 1))
  }

  lemma {:induction false} InsideAlike(s: string, t: string, k: nat)
    requires k <= |s| && k <= |t| && forall i :: 0 <= i < k ==> s[i] == t[i]
    ensures Inside(s, k) == Inside(t, k)
  {
    if k > 0 { InsideAlike(s, t, k - 1); }
  }

  lemma {:induction false} InsideKept(s: string, i: nat, k: nat)
    requires i <= k <= |s| && forall j :: i <= j < k ==> s[j] != '"'
    ensures Inside(s, k) == Inside(s, i)
  {
    if i < k { InsideKept(s, i, k - 1); }
  }

  ghost predicate Blank(s: string) {
    forall i :: 0 <= i < |s| ==> IsBlank(s[i])
  }

  /** Starts with no blank, and has blanks only inside quotes. */
  ghost predicate IsField(f: string) {
    && f != "" && !IsBlank(f[0])
    && forall k :: 0 <= k < |f| && IsBlank(f[k]) ==> Inside(f, k)
  }

  /** `FieldLength` from position `k` of `s` on, given whether that position is inside quotes. */
  lemma {:induction false} FieldLengthMeaning(s: string, k: nat)
    requires k <= |s|
    ensures var n := k + FieldLength(s[k..], Inside(s, k));
            && n <= |s|
            && (forall i :: k <= i < n && IsBlank(s[i]) ==> Inside(s, i))
            && (n < |s| ==> IsBlank(s[n]) && !Inside(s, n))
    decreases |s| - k
  {
    if k < |s| {
      assert s[k..][1..] == s[k + 1..];
      FieldLengthMeaning(s, k + 1);
    }
  }

  /** A field ends where the line does, or at the first blank outside quotes. */
  lemma FieldEnds(f: string, rest: string)
    requires IsField(f)
    requires rest != "" ==> IsBlank(rest[0]) && !Inside(f, |f|)
    ensures FieldLength(f + rest, false) == |f|
  {
    var s := f + rest;
    FieldLengthMeaning(s, 0);
    assert s[0..] == s;
    forall k: nat | k <= |f| ensures Inside(s, k) == Inside(f, k) { InsideAlike(s, f, k); }
  }

  function Compose(gaps: seq<string>, raws: seq<string>): string
    requires |gaps| == |raws| + 1
  {
    if raws == [] then gaps[0] else gaps[0] + raws[0] + Compose(gaps[1..], raws[1..])
  }

  /** Blank gaps around fields: none is missing between two fields, and quotes are only
      left open by a field that ends the line. */
  ghost predicate Layout(gaps: seq<string>, raws: seq<string>) {
    && |gaps| == |raws| + 1
    && (forall i :: 0 <= i < |gaps| ==> Blank(gaps[i]))
    && (forall i :: 0 <= i < |raws| ==> IsField(raws[i]) && (gaps[i + 1] != "" ==> !Inside(raws[i], |raws[i]|)))
    && (forall i :: 0 < i < |raws| ==> gaps[i] != "")
  }

  lemma LayoutTail(gaps: seq<string>, raws: seq<string>)
    requires Layout(gaps, raws) && raws != []
    ensures Layout(gaps[1..], raws[1..])
  {
    forall i | 0 < i < |raws[1..]| ensures gaps[1..][i] != "" { assert gaps[i + 1] != ""; }
  }

  function Unquoted(raws: seq<string>): (r: seq<string>)
    ensures |r| == |raws| && forall i :: 0 <= i < |raws| ==> r[i] == TrimQuotes(raws[i])
  {
    seq(|raws|, i requires 0 <= i < |raws| => TrimQuotes(raws[i]))
  }

  lemma {:induction false} SkipGap(gap: string, s: string)
    requires Blank(gap)
    ensures Fields(gap + s) == Fields(s)
  {
    if gap == "" {
      assert gap + s == s;
    } else {
      assert (gap + s)[1..] == gap[1..] + s;
      SkipGap(gap[1..], s);
    }
  }

  lemma FieldThenRest(f: string, rest: string)
    requires IsField(f)
    requires rest != "" ==> IsBlank(rest[0]) && !Inside(f, |f|)
    ensures Fields(f + rest) == if TrimQuotes(f) == "" then None else Prepend([TrimQuotes(f)], Fields(rest))
  {
    var s := f + rest;
    FieldEnds(f, rest);
    assert s[0] == f[0];
    assert s[..|f|] == f && s[|f|..] == rest;
  }

  lemma ComposeStart(gaps: seq<string>, raws: seq<string>)
    requires Layout(gaps, raws)
    ensures Compose(gaps, raws) == "" ==> gaps[0] == "" && raws == []
    ensures Compose(gaps, raws) != "" && gaps[0] == "" ==> raws != [] && Compose(gaps, raws)[0] == raws[0][0]
    ensures gaps[0] != "" ==> Compose(gaps, raws) != "" && Compose(gaps, raws)[0] == gaps[0][0]
  {
    if raws != [] { assert IsField(raws[0]); }
  }

  /** The fields of a line laid out that way are its parts without their outer quotes; a
      part of nothing but quotes is the empty-field error. */
  lemma {:induction false} FieldsMeaning(gaps: seq<string>, raws: seq<string>)
    requires Layout(gaps, raws)
    ensures Fields(Compose(gaps, raws)) ==
            if exists i :: 0 <= i < |raws| && TrimQuotes(raws[i]) == "" then None else Some(Unquoted(raws))
  {
    if raws == [] {
      assert gaps[0] + "" == gaps[0];
      SkipGap(gaps[0], "");
      assert Unquoted(raws) == [];
    } else {
      var rest := Compose(gaps[1..], raws[1..]);
      assert Compose(gaps, raws) == gaps[0] + (raws[0] + rest);
      SkipGap(gaps[0], raws[0] + rest);
      LayoutTail(gaps, raws);
      ComposeStart(gaps[1..], raws[1..]);
      RestIsBlank(gaps, raws);
      FieldThenRest(raws[0], rest);
      FieldsMeaning(gaps[1..], raws[1..]);
      UnquotedTail(raws);
    }
  }

  lemma RestIsBlank(gaps: seq<string>, raws: seq<string>)
    requires Layout(gaps, raws) && raws != []
    ensures var rest := Compose(gaps[1..], raws[1..]); rest != "" ==> IsBlank(rest[0]) && !Inside(raws[0], |raws[0]|)
  {
    LayoutTail(gaps, raws);
    ComposeStart(gaps[1..], raws[1..]);
    if |raws| > 1 { assert gaps[1] != ""; }
  }

  lemma UnquotedTail(raws: seq<string>)
    requires raws != []
    ensures Unquoted(raws) == [TrimQuotes(raws[0])] + Unquoted(raws[1..])
    ensures (exists i :: 0 <= i < |raws| && TrimQuotes(raws[i]) == "") <==>
            TrimQuotes(raws[0]) == "" || exists i :: 0 <= i < |raws[1..]| && TrimQuotes(raws[1..][i]) == ""
  {
    if i :| 0 < i < |raws| && TrimQuotes(raws[i]) == "" { assert raws[1..][i - 1] == raws[i]; }
  }

  /** Every line is laid out in one such way. */
  lemma {:induction false} LayoutOf(line: string) returns (gaps: seq<string>, raws: seq<string>)
    ensures Layout(gaps, raws) && Compose(gaps, raws) == line
    decreases |line|
  {
    if line == "" {
      gaps, raws := [""], [];
    } else if IsBlank(line[0]) {
      var g, r := LayoutOf(line[1..]);
      gaps, raws := [[line[0]] + g[0]] + g[1..], r;
      WidenGap(line[0], g, r);
    } else {
      FieldLengthMeaning(line, 0);
      assert line[0..] == line;
      var n := FieldLength(line, false);
      var g, r := LayoutOf(line[n..]);
      gaps, raws := [""] + g, [line[..n]] + r;
      AddField(line, n, g, r);
    }
  }

  lemma WidenGap(c: char, g: seq<string>, r: seq<string>)
    requires Layout(g, r) && IsBlank(c)
    ensures Layout([[c] + g[0]] + g[1..], r) && Compose([[c] + g[0]] + g[1..], r) == [c] + Compose(g, r)
  {
    var gaps := [[c] + g[0]] + g[1..];
    assert gaps[1..] == g[1..];
    if r != [] {
      var rest := Compose(g[1..], r[1..]);
      assert ([c] + g[0]) + r[0] + rest == [c] + (g[0] + r[0] + rest);
    }
  }

  lemma AddField(line: string, n: nat, g: seq<string>, r: seq<string>)
    requires 0 < n <= |line| && !IsBlank(line[0])
    requires forall i :: 0 <= i < n && IsBlank(line[i]) ==> Inside(line, i)
    requires n < |line| ==> IsBlank(line[n]) && !Inside(line, n)
    requires Layout(g, r) && Compose(g, r) == line[n..]
    ensures Layout([""] + g, [line[..n]] + r) && Compose([""] + g, [line[..n]] + r) == line
  {
    var gaps, raws := [""] + g, [line[..n]] + r;
    var f := line[..n];
    ComposeStart(g, r);
    forall k: nat | k <= n ensures Inside(f, k) == Inside(line, k) { InsideAlike(f, line, k); }
    assert IsField(f);
    if n < |line| { assert line[n..][0] == line[n]; }
    if r != [] { assert IsField(r[0]); }
    forall i | 0 < i < |raws| ensures gaps[i] != "" {
      if i > 1 { assert g[i - 1] != ""; }
    }
    assert gaps[1..] == g && raws[1..] == r;
    assert "" + f + line[n..] == line;
  }

  // ---- What a key/value list is ----

  lemma {:induction false} EqualsAfterKey(key: string, rest: string)
    requires '=' !in key
    ensures EqualsAt(key + ['='] + rest) == |key|
  {
    var s := key + ['='] + rest;
    if key == "" {
      assert s[0] == '=';
    } else {
      assert s[0] == key[0] && key[0] in key;
      assert s[1..] == key[1..] + ['='] + rest;
      EqualsAfterKey(key[1..], rest);
    }
  }

  lemma {:induction false} NoEqualsBefore(s: string)
    ensures '=' !in s[..EqualsAt(s)]
  {
    if s != "" && s[0] != '=' {
      NoEqualsBefore(s[1..]);
      assert s[..EqualsAt(s)] == [s[0]] + s[1..][..EqualsAt(s[1..])];
    }
  }

  /** A field is a pair exactly when it splits at its first `=` into a key and a value, and
      neither is empty once the value has lost its outer quotes. */
  lemma KeyValueMeaning(field: string, key: string, value: string)
    ensures KeyValue(field) == Some((key, value)) <==>
            && key != "" && '=' !in key && value != ""
            && exists raw :: field == key + ['='] + raw && value == TrimQuotes(raw)
  {
    if KeyValue(field) == Some((key, value)) {
      var n := EqualsAt(field);
      NoEqualsBefore(field);
      assert field == key + ['='] + field[n + 1..];
    }
    if key != "" && '=' !in key && exists raw :: field == key + ['='] + raw && value == TrimQuotes(raw) {
      var raw :| field == key + ['='] + raw && value == TrimQuotes(raw);
      EqualsAfterKey(key, raw);
      assert field[..|key|] == key && field[|key| + 1..] == raw;
    }
  }

  ghost predicate LastOfKey<K(!new), V(!new)>(pairs: seq<Option<(K, V)>>, i: nat) {
    && i < |pairs| && pairs[i].Some?
    && forall j :: i < j < |pairs| && pairs[j].Some? ==> pairs[j].value.0 != pairs[i].value.0
  }

  lemma {:induction false} MergeAll<K, V>(pairs: seq<Option<(K, V)>>)
    ensures Merge(pairs).Some? <==> forall i :: 0 <= i < |pairs| ==> pairs[i].Some?
  {
    if pairs != [] {
      var n := |pairs| - 1;
      MergeAll(pairs[..n]);
      assert forall i :: 0 <= i < n ==> pairs[..n][i] == pairs[i];
    }
  }

  lemma {:induction false} MergeLast<K(!new), V(!new)>(pairs: seq<Option<(K, V)>>, i: nat)
    requires Merge(pairs).Some? && LastOfKey(pairs, i)
    ensures pairs[i].value.0 in Merge(pairs).value && Merge(pairs).value[pairs[i].value.0] == pairs[i].value.1
  {
    var n := |pairs| - 1;
    if i < n {
      assert forall j :: 0 <= j < n ==> pairs[..n][j] == pairs[j];
      MergeLast(pairs[..n], i);
    }
  }

  lemma {:induction false} MergeSource<K(!new), V(!new)>(pairs: seq<Option<(K, V)>>, k: K) returns (i: nat)
    requires Merge(pairs).Some? && k in Merge(pairs).value
    ensures LastOfKey(pairs, i) && pairs[i].value.0 == k
  {
    var n := |pairs| - 1;
    if k == pairs[n].value.0 {
      i := n;
    } else {
      i := MergeSource(pairs[..n], k);
      assert forall j :: 0 <= j < n ==> pairs[..n][j] == pairs[j];
    }
  }

  /** Pairs with different keys merge to the map of which they are the entries. */
  lemma MergeOfEntries<K(!new), V(!new)>(pairs: seq<Option<(K, V)>>, m: map<K, V>)
    requires forall i :: 0 <= i < |pairs| ==> pairs[i].Some?
    requires forall i, j :: 0 <= i < j < |pairs| ==> pairs[i].value.0 != pairs[j].value.0
    requires forall i :: 0 <= i < |pairs| ==> pairs[i].value.0 in m && m[pairs[i].value.0] == pairs[i].value.1
    requires forall k :: k in m ==> exists i :: 0 <= i < |pairs| && pairs[i].value.0 == k
    ensures Merge(pairs) == Some(m)
  {
    MergeAll(pairs);
    var r := Merge(pairs).value;
    forall k | k in m ensures k in r && r[k] == m[k] {
      var i :| 0 <= i < |pairs| && pairs[i].value.0 == k;
      MergeLast(pairs, i);
    }
    forall k | k in r ensures k in m { var i := MergeSource(pairs, k); }
    assert r == m;
  }

  /** `parseKeyValues` succeeds exactly when every field is a pair; each key then has the
      value of the last field with that key. */
  lemma KeyValuesMeaning(fields: seq<string>)
    ensures KeyValues(fields).Some? <==> forall i :: 0 <= i < |fields| ==> KeyValue(fields[i]).Some?
    ensures KeyValues(fields).Some? ==> forall i :: 0 <= i < |fields| && LastOfKey(PairsOf(fields), i) ==>
              var p := KeyValue(fields[i]).value; p.0 in KeyValues(fields).value && KeyValues(fields).value[p.0] == p.1
    ensures KeyValues(fields).Some? ==> forall k :: k in KeyValues(fields).value ==>
              exists i :: 0 <= i < |fields| && LastOfKey(PairsOf(fields), i) && PairsOf(fields)[i].value.0 == k
  {
    var pairs := PairsOf(fields);
    MergeAll(pairs);
    if KeyValues(fields).Some? {
      forall i | 0 <= i < |fields| && LastOfKey(pairs, i)
        ensures pairs[i].value.0 in Merge(pairs).value && Merge(pairs).value[pairs[i].value.0] == pairs[i].value.1
      {
        MergeLast(pairs, i);
      }
      forall k | k in Merge(pairs).value
        ensures exists i :: 0 <= i < |fields| && LastOfKey(pairs, i) && pairs[i].value.0 == k
      {
        var i := MergeSource(pairs, k);
      }
    }
  }

  // ---- Round trip ----

  datatype Entry = Entry(key: string, value: string, quoted: bool)

  /** A directive word, or a part of a field outside quotes. */
  ghost predicate Plain(s: string) {
    s != "" && forall c :: c in s ==> c != '"' && c != ' ' && c != '\t'
  }

  ghost predicate Printable(e: Entry) {
    && Plain(e.key) && '=' !in e.key
    && e.value != "" && '"' !in e.value && (!e.quoted ==> Plain(e.value))
  }

  function PrintEntry(e: Entry): string {
    if e.quoted then e.key + ['=', '"'] + e.value + ['"'] else e.key + ['='] + e.value
  }

  function Token(e: Entry): string {
    if e.quoted then e.key + ['=', '"'] + e.value else e.key + ['='] + e.value
  }

  lemma PlainIsField(s: string)
    requires Plain(s)
    ensures IsField(s) && !Inside(s, |s|) && TrimQuotes(s) == s
  {
    forall k | 0 <= k < |s| ensures !IsBlank(s[k]) && s[k] != '"' { assert s[k] in s; }
    InsideKept(s, 0, |s|);
    assert s == "" + s + "";
    EndsUnquoted(s);
    TrimOnce("", s, "");
  }

  lemma QuotedLayout(e: Entry)
    requires Printable(e) && e.quoted
    ensures var f, j := PrintEntry(e), |e.key| + 1;
            && |f| == j + |e.value| + 2 && f[j] == '"' && f[|f| - 1] == '"'
            && (forall i :: 0 <= i < j ==> f[i] != '"' && !IsBlank(f[i]))
            && (forall i :: j < i < |f| - 1 ==> f[i] != '"')
  {
    var f, j := PrintEntry(e), |e.key| + 1;
    forall i | 0 <= i < |e.key| ensures f[i] != '"' && !IsBlank(f[i]) { assert f[i] == e.key[i] && e.key[i] in e.key; }
    forall i | j < i < |f| - 1 ensures f[i] != '"' {
      assert f[i] == e.value[i - j - 1] && e.value[i - j - 1] in e.value;
    }
  }

  /** A quoted entry is one field, blanks and `=` inside its quotes included. */
  lemma QuotedIsField(e: Entry)
    requires Printable(e) && e.quoted
    ensures IsField(PrintEntry(e)) && !Inside(PrintEntry(e), |PrintEntry(e)|)
  {
    var f, j := PrintEntry(e), |e.key| + 1;
    QuotedLayout(e);
    InsideKept(f, 0, j);
    forall k: nat | j < k < |f| ensures Inside(f, k) { InsideKept(f, j + 1, k); }
  }

  lemma TrimOnce(p: string, r: string, q: string)
    requires Only(p, IsQuote) && Only(q, IsQuote) && r != "" && r[0] != '"' && r[|r| - 1] != '"'
    ensures TrimQuotes(p + r + q) == r
  {
    TrimMeaning(p + r + q, r, IsQuote);
  }

  lemma EndsUnquoted(s: string)
    requires s != "" && '"' !in s
    ensures s[0] != '"' && s[|s| - 1] != '"'
  {
    assert s[0] in s && s[|s| - 1] in s;
  }

  lemma QuotedToken(e: Entry)
    requires Printable(e) && e.quoted
    ensures TrimQuotes(PrintEntry(e)) == Token(e)
  {
    var r := Token(e);
    EndsUnquoted(e.key);
    EndsUnquoted(e.value);
    assert r[0] == e.key[0] && r[|r| - 1] == e.value[|e.value| - 1];
    TrimOnce("", r, ['"']);
    assert "" + r + ['"'] == PrintEntry(e);
  }

  lemma QuotedPair(e: Entry)
    requires Printable(e) && e.quoted
    ensures KeyValue(Token(e)) == Some((e.key, e.value))
  {
    var raw := ['"'] + e.value + "";
    EndsUnquoted(e.value);
    TrimOnce(['"'], e.value, "");
    assert Token(e) == e.key + ['='] + raw;
    KeyValueMeaning(Token(e), e.key, e.value);
  }

  lemma EntryIsField(e: Entry)
    requires Printable(e)
    ensures IsField(PrintEntry(e)) && !Inside(PrintEntry(e), |PrintEntry(e)|) &&
            TrimQuotes(PrintEntry(e)) == Token(e) && Token(e) != ""
    ensures KeyValue(Token(e)) == Some((e.key, e.value))
  {
    if e.quoted {
      QuotedIsField(e);
      QuotedToken(e);
      QuotedPair(e);
    } else {
      PlainIsField(e.value);
      PlainIsField(PrintEntry(e));
      KeyValueMeaning(Token(e), e.key, e.value);
    }
  }

  /** The parts of a line: directive words, then entries. */
  function Parts(words: seq<string>, entries: seq<Entry>): (parts: seq<string>)
    ensures |parts| == |words| + |entries|
    ensures forall i :: 0 <= i < |words| ==> parts[i] == words[i]
    ensures forall i :: 0 <= i < |entries| ==> parts[|words| + i] == PrintEntry(entries[i])
  {
    words + seq(|entries|, i requires 0 <= i < |entries| => PrintEntry(entries[i]))
  }

  function Tokens(entries: seq<Entry>): (t: seq<string>)
    ensures |t| == |entries| && forall i :: 0 <= i < |entries| ==> t[i] == Token(entries[i])
  {
    seq(|entries|, i requires 0 <= i < |entries| => Token(entries[i]))
  }

  /** Gaps of blanks, none missing between two parts. */
  ghost predicate Spacing(gaps: seq<string>, n: nat) {
    && |gaps| == n + 1
    && (forall i, c :: 0 <= i <= n && c in gaps[i] ==> c == ' ' || c == '\t')
    && (forall i :: 0 < i < n ==> gaps[i] != "")
  }

  lemma PartsAreFields(words: seq<string>, entries: seq<Entry>)
    requires forall w :: w in words ==> Plain(w)
    requires forall e :: e in entries ==> Printable(e)
    ensures forall i :: 0 <= i < |words| + |entries| ==>
              && IsField(Parts(words, entries)[i]) && !Inside(Parts(words, entries)[i], |Parts(words, entries)[i]|)
              && TrimQuotes(Parts(words, entries)[i]) == (words + Tokens(entries))[i] != ""
  {
    var parts := Parts(words, entries);
    forall i | 0 <= i < |parts|
      ensures IsField(parts[i]) && !Inside(parts[i], |parts[i]|) &&
              TrimQuotes(parts[i]) == (words + Tokens(entries))[i] != ""
    {
      if i < |words| {
        assert words[i] in words;
        PlainIsField(words[i]);
      } else {
        var e := entries[i - |words|];
        assert e in entries && parts[|words| + (i - |words|)] == PrintEntry(e);
        EntryIsField(e);
      }
    }
  }

  lemma FieldsOfLine(words: seq<string>, entries: seq<Entry>, gaps: seq<string>)
    requires forall w :: w in words ==> Plain(w)
    requires forall e :: e in entries ==> Printable(e)
    requires Spacing(gaps, |words| + |entries|)
    ensures Fields(Compose(gaps, Parts(words, entries))) == Some(words + Tokens(entries))
  {
    var parts := Parts(words, entries);
    PartsAreFields(words, entries);
    forall i | 0 <= i < |gaps| ensures Blank(gaps[i]) {
      forall k | 0 <= k < |gaps[i]| ensures IsBlank(gaps[i][k]) { assert gaps[i][k] in gaps[i]; }
    }
    FieldsMeaning(gaps, parts);
    assert Unquoted(parts) == words + Tokens(entries);
  }

  lemma MapOfTokens(m: map<string, string>, entries: seq<Entry>)
    requires forall e :: e in entries ==> Printable(e)
    requires forall i, j :: 0 <= i < j < |entries| ==> entries[i].key != entries[j].key
    requires forall i :: 0 <= i < |entries| ==> entries[i].key in m && m[entries[i].key] == entries[i].value
    requires forall k :: k in m ==> exists i :: 0 <= i < |entries| && entries[i].key == k
    ensures KeyValues(Tokens(entries)) == Some(m)
  {
    var pairs := PairsOf(Tokens(entries));
    forall i | 0 <= i < |entries| ensures pairs[i] == Some((entries[i].key, entries[i].value)) {
      assert entries[i] in entries;
      EntryIsField(entries[i]);
    }
    MergeOfEntries(pairs, m);
  }

  /** Printing directive words and a map's entries, quoted or not, in any order and with any
      blanks around them, and parsing the line returns the words and the map. */
  lemma RoundTrip(words: seq<string>, m: map<string, string>, entries: seq<Entry>, gaps: seq<string>)
    requires forall w :: w in words ==> Plain(w)
    requires forall e :: e in entries ==> Printable(e)
    requires Spacing(gaps, |words| + |entries|)
    requires forall i, j :: 0 <= i < j < |entries| ==> entries[i].key != entries[j].key
    requires forall i :: 0 <= i < |entries| ==> entries[i].key in m && m[entries[i].key] == entries[i].value
    requires forall k :: k in m ==> exists i :: 0 <= i < |entries| && entries[i].key == k
    ensures Fields(Compose(gaps, Parts(words, entries))).Some?
    ensures var fields := Fields(Compose(gaps, Parts(words, entries))).value;
            |fields| >= |words| && fields[..|words|] == words && KeyValues(fields[|words|..]) == Some(m)
  {
    FieldsOfLine(words, entries, gaps);
    MapOfTokens(m, entries);
    assert (words + Tokens(entries))[|words|..] == Tokens(entries);
  }

  // ---- Comma lists ----

  predicate IsSpace(c: char) {
    || '\t' <= c <= '\r' || c == ' ' || c == '\U{85}' || c == '\U{A0}' || c == '\U{1680}'
    || '\U{2000}' <= c <= '\U{200A}' || c == '\U{2028}' || c == '\U{2029}' || c == '\U{202F}'
    || c == '\U{205F}' || c == '\U{3000}'
  }

  lemma SpaceCodes(c: char)
    ensures IsSpace(c) <==>
            c as int in {9, 10, 11, 12, 13, 32, 133, 160, 5760, 8232, 8233, 8239, 8287, 12288} ||
              8192 <= c as int <= 8202
  {
  }

  /** `strings.TrimSpace`. */
  function TrimSpace(s: string): string {
    TrimEnd(TrimStart(s, IsSpace), IsSpace)
  }

  /** `strings.Split(s, ",")`. */
  function Split(s: string): (parts: seq<string>)
    ensures |parts| >= 1
  {
    if s == "" then [""]
    else
      var rest := Split(s[1..]);
      if s[0] == ',' then [""] + rest else [[s[0]] + rest[0]] + rest[1..]
  }

  predicate Kept(part: string) { part != "" && part != "-" }

  function Keep(parts: seq<string>): seq<string> {
    if parts == [] then []
    else
      var part := TrimSpace(parts[|parts| - 1]);
      Keep(parts[..|parts| - 1]) + if Kept(part) then [part] else []
  }

  function List(value: string): seq<string> {
    if value == "" || value == "-" then [] else Keep(Split(value))
  }

  method SplitList(value: string) returns (result: seq<string>)
    ensures result == List(value)
  {
    if value == "" || value == "-" {
      return [];
    }
    var parts := Split(value);
    result := [];
    for i := 0 to |parts|
      invariant result == Keep(parts[..i])
    {
      assert parts[..i + 1][..i] == parts[..i];
      var part := TrimSpace(parts[i]);
      if part != "" && part != "-" {
        result := result + [part];
      }
    }
    assert parts[..|parts|] == parts;
  }

  function Join(parts: seq<string>): string {
    if parts == [] then "" else if |parts| == 1 then parts[0] else parts[0] + "," + Join(parts[1..])
  }

  ghost predicate Clean(part: string) {
    Kept(part) && ',' !in part && TrimSpace(part) == part
  }

  /** Removes the white space at both ends, all of it and nothing else. */
  lemma TrimSpaceMeaning(s: string, r: string)
    ensures r == TrimSpace(s) <==> Trims(s, r, IsSpace)
  {
    TrimMeaning(s, r, IsSpace);
  }

  lemma TrimSpaceAgain(s: string)
    ensures TrimSpace(TrimSpace(s)) == TrimSpace(s)
    ensures forall c :: c in TrimSpace(s) ==> c in s
  {
    var r := TrimSpace(s);
    TrimSpaceMeaning(s, r);
    assert r == "" + r + "" && Only("", IsSpace);
    TrimSpaceMeaning(r, r);
    var p, q :| s == p + r + q && Only(p, IsSpace) && Only(q, IsSpace);
  }

  lemma {:induction false} SplitHasNoComma(s: string)
    ensures forall i :: 0 <= i < |Split(s)| ==> ',' !in Split(s)[i]
  {
    if s != "" { SplitHasNoComma(s[1..]); }
  }

  lemma {:induction false} KeepIsClean(parts: seq<string>)
    requires forall i :: 0 <= i < |parts| ==> ',' !in parts[i]
    ensures forall i :: 0 <= i < |Keep(parts)| ==> Clean(Keep(parts)[i])
  {
    if parts != [] {
      KeepIsClean(parts[..|parts| - 1]);
      TrimSpaceAgain(parts[|parts| - 1]);
    }
  }

  lemma {:induction false} KeepOfClean(parts: seq<string>)
    requires forall i :: 0 <= i < |parts| ==> Clean(parts[i])
    ensures Keep(parts) == parts
  {
    if parts != [] {
      KeepOfClean(parts[..|parts| - 1]);
      assert parts == parts[..|parts| - 1] + [parts[|parts| - 1]];
    }
  }

  lemma {:induction false} SplitPrefix(part: string, rest: string)
    requires ',' !in part
    ensures Split(part + "," + rest) == [part] + Split(rest)
  {
    var s := part + "," + rest;
    if part == "" {
      assert s[0] == ',' && s[1..] == rest;
    } else {
      assert s[0] == part[0] && part[0] in part;
      assert s[1..] == part[1..] + "," + rest;
      SplitPrefix(part[1..], rest);
      assert [part[0]] + part[1..] == part;
      assert Split(s[1..])[1..] == Split(rest);
    }
  }

  lemma {:induction false} SplitWhole(part: string)
    requires ',' !in part
    ensures Split(part) == [part]
  {
    if part != "" {
      assert part[0] in part;
      SplitWhole(part[1..]);
      assert [part[0]] + part[1..] == part;
    }
  }

  lemma {:induction false} SplitOfJoin(parts: seq<string>)
    requires parts != [] && forall i :: 0 <= i < |parts| ==> ',' !in parts[i]
    ensures Split(Join(parts)) == parts
  {
    if |parts| == 1 {
      SplitWhole(parts[0]);
    } else {
      SplitPrefix(parts[0], Join(parts[1..]));
      SplitOfJoin(parts[1..]);
      assert parts == [parts[0]] + parts[1..];
    }
  }

  lemma JoinIsNoDash(parts: seq<string>)
    requires parts != [] && forall i :: 0 <= i < |parts| ==> Clean(parts[i])
    ensures Join(parts) != "" && Join(parts) != "-"
  {
    assert Clean(parts[0]);
    if |parts| > 1 { assert Join(parts)[|parts[0]|] == ','; }
  }

  /** A parsed list, written back with commas, parses to itself. */
  lemma ListRoundTrip(value: string)
    ensures List(Join(List(value))) == List(value)
    ensures forall i :: 0 <= i < |List(value)| ==> Clean(List(value)[i])
  {
    var parts := List(value);
    if parts != [] {
      SplitHasNoComma(value);
      KeepIsClean(Split(value));
      SplitOfJoin(parts);
      KeepOfClean(parts);
      JoinIsNoDash(parts);
    }
  }

  lemma {:induction false} JoinOfSplit(s: string)
    ensures Join(Split(s)) == s
  {
    if s != "" {
      JoinOfSplit(s[1..]);
      var rest := Split(s[1..]);
      JoinFirst(rest);
      if s[0] == ',' {
        assert ([""] + rest)[1..] == rest;
        assert s == "" + "," + s[1..];
      } else {
        JoinFirst(Split(s));
        assert Split(s)[1..] == rest[1..];
        assert s == [s[0]] + s[1..];
      }
    }
  }

  lemma JoinFirst(parts: seq<string>)
    requires parts != []
    ensures Join(parts) == parts[0] + if |parts| == 1 then "" else "," + Join(parts[1..])
  {
  }

  function Trimmed(parts: seq<string>): (r: seq<string>)
    ensures |r| == |parts| && forall i :: 0 <= i < |parts| ==> r[i] == TrimSpace(parts[i])
  {
    seq(|parts|, i requires 0 <= i < |parts| => TrimSpace(parts[i]))
  }

  lemma {:induction false} KeepMeaning(parts: seq<string>, item: string -> bool)
    requires forall p :: item(p) <==> p != "" && p != "-"
    ensures Keep(parts) == Filter(Trimmed(parts), item)
  {
    if parts != [] {
      var n := |parts| - 1;
      KeepMeaning(parts[..n], item);
      assert Trimmed(parts) == Trimmed(parts[..n]) + [TrimSpace(parts[n])];
      FilterAppend(Trimmed(parts[..n]), TrimSpace(parts[n]), item);
    } else {
      assert Trimmed(parts) == [];
    }
  }

  ghost predicate CommaFree(parts: seq<string>) {
    parts != [] && forall i :: 0 <= i < |parts| ==> ',' !in parts[i]
  }

  /** Every value is the join of just one list of parts without commas; the parsed list is
      what is left of them once trimmed, without the empty ones and the dashes. */
  lemma ListMeaning(value: string, item: string -> bool)
    requires forall p :: item(p) <==> p != "" && p != "-"
    ensures exists parts :: CommaFree(parts) && Join(parts) == value
    ensures forall parts :: CommaFree(parts) && Join(parts) == value ==> List(value) == Filter(Trimmed(parts), item)
  {
    JoinOfSplit(value);
    SplitHasNoComma(value);
    assert CommaFree(Split(value));
    forall parts | CommaFree(parts) && Join(parts) == value
      ensures List(value) == Filter(Trimmed(parts), item)
    {
      SplitOfJoin(parts);
      KeepMeaning(parts, item);
      if value == "" || value == "-" { NothingKept(value, item); }
    }
  }

  lemma NothingKept(value: string, item: string -> bool)
    requires value == "" || value == "-"
    requires forall p :: item(p) <==> p != "" && p != "-"
    ensures Filter(Trimmed(Split(value)), item) == []
  {
    SplitWhole(value);
    assert value == "" + value + "" && Only("", IsSpace);
    TrimSpaceMeaning(value, value);
    FilterNone(Trimmed(Split(value)), item);
  }
}

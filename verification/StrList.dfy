/** `parse_str_list` of caller_config.c: tokenise, sort, and clear duplicates in place. */
module StrList {
  import opened Bytes
  import opened GrowArray
  import Tokens

  const DELIMITERS := {' ', '\t', ','}

  // ------------------------------------------------------------ the ordering

  /** `strcmp(a, b) <= 0`. */
  predicate Leq(a: string, b: string) {
    a == "" || (b != "" && (a[0] < b[0] || (a[0] == b[0] && Leq(a[1..], b[1..]))))
  }

  lemma {:induction false} LeqTotal(a: string, b: string)
    ensures Leq(a, b) || Leq(b, a)
    ensures Leq(a, b) && Leq(b, a) ==> a == b
  {
    if a != "" && b != "" {
      LeqTotal(a[1..], b[1..]);
    }
  }

  lemma {:induction false} LeqTransitive(a: string, b: string, c: string)
    requires Leq(a, b) && Leq(b, c)
    ensures Leq(a, c)
  {
    if a != "" && a[0] == b[0] == c[0] {
      LeqTransitive(a[1..], b[1..], c[1..]);
    }
  }

  lemma {:induction false} PrefixLeq(a: string, b: string)
    requires a <= b
    ensures Leq(a, b)
  {
    if a != "" {
      PrefixLeq(a[1..], b[1..]);
    }
  }

  // ----------------------------------------------------------------- sorting

  predicate IsSorted(s: seq<string>) {
    forall i, j | 0 <= i < j < |s| :: Leq(s[i], s[j])
  }

  function Insert(x: string, s: seq<string>): seq<string> {
    if s == [] || Leq(x, s[0]) then [x] + s else [s[0]] + Insert(x, s[1..])
  }

  /** The result of `qsort` with `strp_cmp`; by SortIsUnique there is no other. */
  function Sort(s: seq<string>): seq<string> {
    if s == [] then [] else Insert(s[0], Sort(s[1..]))
  }

  lemma {:induction false} InsertSorts(x: string, s: seq<string>)
    requires IsSorted(s)
    ensures IsSorted(Insert(x, s)) && multiset(Insert(x, s)) == multiset(s) + multiset{x}
  {
    hide Leq;
    if s == [] {
      LeqTotal(x, x);
    } else if Leq(x, s[0]) {
      forall j | 0 <= j < |s|
        ensures Leq(x, s[j])
      {
        if j > 0 {
          LeqTransitive(x, s[0], s[j]);
        }
      }
    } else {
      var rest := s[1..];
      assert s == [s[0]] + rest;
      InsertSorts(x, rest);
      LeqTotal(x, s[0]);
      var r := Insert(x, rest);
      forall j | 0 <= j < |r|
        ensures Leq(s[0], r[j])
      {
        assert r[j] in multiset(r);
        if r[j] != x {
          assert r[j] in multiset(rest) && multiset(s) == multiset{s[0]} + multiset(rest);
          FirstIsLeast(s, r[j]);
        }
      }
    }
  }

  lemma {:induction false} SortSorts(s: seq<string>)
    ensures IsSorted(Sort(s)) && multiset(Sort(s)) == multiset(s)
  {
    if s != [] {
      SortSorts(s[1..]);
      InsertSorts(s[0], Sort(s[1..]));
      assert s == [s[0]] + s[1..];
    }
  }

  /** The first of a sorted arrangement is below every member. */
  lemma FirstIsLeast(s: seq<string>, x: string)
    requires IsSorted(s) && s != [] && x in multiset(s)
    ensures Leq(s[0], x)
  {
    var j :| 0 <= j < |s| && s[j] == x;
    LeqTotal(x, x);
    assert j == 0 || Leq(s[0], s[j]);
  }

  lemma WithoutFirst(s: seq<string>)
    requires IsSorted(s) && s != []
    ensures IsSorted(s[1..]) && multiset(s[1..]) == multiset(s) - multiset{s[0]}
  {
    assert s == [s[0]] + s[1..];
  }

  /** Sorting is determined: two sorted arrangements of the same strings are equal. */
  lemma {:induction false} SortIsUnique(s: seq<string>, t: seq<string>)
    requires IsSorted(s) && IsSorted(t) && multiset(s) == multiset(t)
    ensures s == t
  {
    hide Leq, IsSorted;
    assert |t| == |multiset(t)| == |multiset(s)| == |s|;
    if s != [] {
      assert s[0] in multiset(s) && t[0] in multiset(t);
      FirstIsLeast(t, s[0]);
      FirstIsLeast(s, t[0]);
      LeqTotal(s[0], t[0]);
      WithoutFirst(s);
      WithoutFirst(t);
      SortIsUnique(s[1..], t[1..]);
      assert s == [s[0]] + s[1..] && t == [t[0]] + t[1..];
    }
  }

  // ------------------------------------------------------------- duplicates

  /** A sorted list with every entry that equals its successor replaced by a null pointer. */
  function Deduped(s: seq<string>): (r: seq<Option<string>>)
    ensures |r| == |s|
  {
    seq(|s|, i requires 0 <= i < |s| => if i + 1 < |s| && s[i] == s[i + 1] then None else Some(s[i]))
  }

  /** The entries that are not null, in order: what every user of the list sees. */
  function Kept(list: seq<Option<string>>): seq<string> {
    if list == [] then []
    else
      Kept(list[..|list| - 1]) + (if list[|list| - 1].Some? then [list[|list| - 1].value] else [])
  }

  /** The whole list for an option value. */
  function ParsedEntries(value: string): seq<Option<string>> {
    Deduped(Sort(Tokens.All(value, DELIMITERS)))
  }

  predicate StrictlySorted(s: seq<string>) {
    forall i, j | 0 <= i < j < |s| :: Leq(s[i], s[j]) && s[i] != s[j]
  }

  lemma {:induction false} KeptMembers(list: seq<Option<string>>)
    ensures forall x :: x in Kept(list) <==> Some(x) in list
  {
    if list != [] {
      var front, last := list[..|list| - 1], list[|list| - 1];
      KeptMembers(front);
      assert list == front + [last];
    }
  }

  /** In a sorted list, an entry equal to a later one equals its successor. */
  lemma SortedRuns(s: seq<string>, i: nat, j: nat)
    requires IsSorted(s) && i < j < |s| && s[i] == s[j]
    ensures s[i] == s[i + 1]
  {
    if i + 1 < j {
      assert Leq(s[i], s[i + 1]) && Leq(s[i + 1], s[j]);
      LeqTotal(s[i], s[i + 1]);
    }
  }

  /** The entries kept from the first n are exactly those not repeated later, in strict order. */
  lemma {:induction false} KeptPrefix(s: seq<string>, n: nat)
    requires IsSorted(s) && n <= |s|
    ensures var k := Kept(Deduped(s)[..n]);
            && StrictlySorted(k)
            && forall x :: x in k ==> exists i | 0 <= i < n :: s[i] == x && forall j | i < j < |s| :: s[j] != x
  {
    if n > 0 {
      KeptPrefix(s, n - 1);
      var d := Deduped(s);
      assert d[..n][..n - 1] == d[..n - 1];
      var k := Kept(d[..n - 1]);
      if d[n - 1].Some? {
        var x := s[n - 1];
        forall j | n - 1 < j < |s|
          ensures s[j] != x
        {
          if s[j] == x {
            SortedRuns(s, n - 1, j);
          }
        }
        forall i | 0 <= i < |k|
          ensures Leq(k[i], x) && k[i] != x
        {
          assert k[i] in k;
        }
      }
    }
  }

  lemma {:induction false} LastIsKept(s: seq<string>, i: nat)
    requires IsSorted(s) && i < |s|
    ensures Some(s[i]) in Deduped(s)
    decreases |s| - i
  {
    if i + 1 < |s| && s[i] == s[i + 1] {
      LastIsKept(s, i + 1);
    } else {
      assert Deduped(s)[i] == Some(s[i]);
    }
  }

  /** The parsed list holds exactly the distinct tokens of the value, in strictly increasing order. */
  lemma ParsedIsSortedSet(value: string)
    ensures var k := Kept(ParsedEntries(value));
            StrictlySorted(k) && forall x :: x in k <==> x in Tokens.All(value, DELIMITERS)
  {
    var ts := Tokens.All(value, DELIMITERS);
    var s := Sort(ts);
    SortSorts(ts);
    var d := Deduped(s);
    KeptPrefix(s, |s|);
    assert d[..|s|] == d;
    KeptMembers(d);
    forall x
      ensures x in Kept(d) <==> x in ts
    {
      assert x in ts <==> x in multiset(ts);
      assert x in s <==> x in multiset(s);
      if x in s {
        var i :| 0 <= i < |s| && s[i] == x;
        LastIsKept(s, i);
      }
    }
  }

  /** A value that is one token is kept as it is. */
  lemma SingleEntry(x: string)
    requires Tokens.IsToken(x, DELIMITERS)
    ensures Kept(ParsedEntries(x)) == [x]
  {
    ParsedIsSortedSet(x);
    Tokens.SpanIs(x, DELIMITERS, |x|);
    assert x[..|x|] == x && x[|x|..] == "";
    assert Tokens.All(x, DELIMITERS) == [x] + Tokens.All("", DELIMITERS) == [x];
    OnlyMember(Kept(ParsedEntries(x)), x);
  }

  lemma OnlyMember(k: seq<string>, x: string)
    requires StrictlySorted(k) && forall y :: y in k <==> y == x
    ensures k == [x]
  {
    assert x in k;
    forall i | 0 <= i < |k|
      ensures k[i] == x
    {
      assert k[i] in k;
    }
    if |k| > 1 {
      FirstTwoDiffer(k);
    }
  }

  lemma FirstTwoDiffer(k: seq<string>)
    requires StrictlySorted(k) && |k| > 1
    ensures k[0] != k[1]
  {
  }

  // ---------------------------------------------------------------- the code

  /** The strings of a list none of whose entries has been cleared yet. */
  function Strings(list: seq<Option<string>>): (r: seq<string>)
    requires forall i | 0 <= i < |list| :: list[i].Some?
    ensures |r| == |list|
  {
    seq(|list|, i requires 0 <= i < |list| => list[i].value)
  }

  /** `qsort(list, len, sizeof(*list), strp_cmp)`. */
  method Qsort(list: array<Option<string>>, len: nat)
    requires len <= list.Length && forall i | 0 <= i < len :: list[i].Some?
    modifies list
    ensures forall i | 0 <= i < len :: list[i].Some?
    ensures Strings(list[..len]) == Sort(old(Strings(list[..len])))
  {
    var sorted := Sort(Strings(list[..len]));
    SortSorts(Strings(list[..len]));
    assert |sorted| == |multiset(sorted)| == len;
    forall i | 0 <= i < len {
      list[i] := Some(sorted[i]);
    }
  }

  /** The loop that clears duplicate entries. */
  method ClearDuplicates(list: array<Option<string>>, len: nat)
    requires len <= list.Length && forall i | 0 <= i < len :: list[i].Some?
    modifies list
    ensures list[..len] == Deduped(old(Strings(list[..len])))
  {
    ghost var s := Strings(list[..len]);
    ghost var d := Deduped(s);
    var i := 1;
    while i < len
      invariant 1 <= i && (len == 0 || i <= len)
      invariant forall k | 0 <= k < i - 1 && k < len :: list[k] == d[k]
      invariant forall k | i - 1 <= k < len :: list[k] == Some(s[k])
    {
      if list[i - 1] == list[i] {
        list[i - 1] := None;
      }
      i := i + 1;
    }
  }

  /** The entries of a list none of which is null. */
  function Somes(s: seq<string>): (r: seq<Option<string>>)
    ensures |r| == |s|
  {
    seq(|s|, i requires 0 <= i < |s| => Some(s[i]))
  }

  lemma SomesStep(ts: seq<string>, n: nat, token: string, more: seq<string>)
    requires n <= |ts| && ts[n..] == [token] + more
    ensures n < |ts| && ts[n + 1..] == more && Somes(ts[..n + 1]) == Somes(ts[..n]) + [Some(token)]
  {
    assert ts[n] == ts[n..][0] && ts[n + 1..] == ts[n..][1..];
  }

  /** Its first part: clear the list and append a pointer to each token. */
  method AppendTokens(items: Vector<Option<string>>, value: string) returns (died: bool)
    requires items.Valid()
    modifies items, items.list
    ensures items.Valid() && (items.list == old(items.list) || fresh(items.list))
    ensures !died ==> items.Contents() == Somes(Tokens.All(value, DELIMITERS))
  {
    hide Somes, Vector.Valid, Vector.Contents, Tokens.All, Tokens.Next;
    ghost var ts := Tokens.All(value, DELIMITERS);
    ghost var n := 0;
    died := false;
    assert Somes([]) == [] && ts[..0] == [];
    items.Clear();
    var item := Tokens.Next(value, DELIMITERS);
    Tokens.FirstOfAll(value, DELIMITERS);
    while item.Some?
      invariant items.Valid() && (items.list == old(items.list) || fresh(items.list))
      invariant n <= |ts| && items.Contents() == Somes(ts[..n])
      invariant ts[n..] == if item.None? then [] else [item.value.0] + Tokens.All(item.value.1, DELIMITERS)
      decreases if item.None? then 0 else |item.value.1| + 1
    {
      var (token, rest) := item.value;
      SomesStep(ts, n, token, Tokens.All(rest, DELIMITERS));
      died := items.Append(Some(token));
      if died {
        return;
      }
      n := n + 1;
      Tokens.FirstOfAll(rest, DELIMITERS);
      item := Tokens.Next(rest, DELIMITERS);
    }
    assert ts[..n] == ts;
  }

  lemma SomesStrings(list: seq<Option<string>>, ts: seq<string>)
    requires list == Somes(ts)
    ensures (forall i | 0 <= i < |list| :: list[i].Some?) && Strings(list) == ts
  {
  }

  /** `parse_str_list`, on a list that may hold an earlier value. */
  method ParseStrList(items: Vector<Option<string>>, value: string) returns (died: bool)
    requires items.Valid()
    modifies items, items.list
    ensures items.Valid() && (items.list == old(items.list) || fresh(items.list))
    ensures !died ==> items.Contents() == ParsedEntries(value)
  {
    died := AppendTokens(items, value);
    if died {
      return;
    }
    ghost var ts := Tokens.All(value, DELIMITERS);
    if items.len > 0 {
      SomesStrings(items.list[..items.len], ts);
      assert forall i | 0 <= i < items.len :: items.list[i] == items.list[..items.len][i];
      Qsort(items.list, items.len);
      ClearDuplicates(items.list, items.len);
    } else {
      assert ts == [];
    }
  }
}

/** The tokeniser `strtok`/`strtok_r` of the C library, which several parsers step through. */
module Tokens {
  import opened Bytes

  /** Length of the longest prefix without a delimiter. */
  function Span(s: string, delims: set<char>): (n: nat)
    ensures n <= |s| && (forall i | 0 <= i < n :: s[i] !in delims)
    ensures n < |s| ==> s[n] in delims
  {
    if s == "" || s[0] in delims then 0
    else
      var n := Span(s[1..], delims);
      assert forall i | 1 <= i < n + 1 :: s[i] == s[1..][i - 1];
      n + 1
  }

  /** One call of the tokeniser: the next token and what remains after it. */
  function Next(s: string, delims: set<char>): (r: Option<(string, string)>)
    ensures r.Some? ==> |r.value.1| < |s|
  {
    if s == "" then None
    else if s[0] in delims then Next(s[1..], delims)
    else Some((s[..Span(s, delims)], s[Span(s, delims)..]))
  }

  /** All the tokens. */
  function All(s: string, delims: set<char>): seq<string>
    decreases |s|
  {
    match Next(s, delims)
    case None => []
    case Some((token, rest)) => [token] + All(rest, delims)
  }

  lemma FirstOfAll(s: string, delims: set<char>)
    ensures var next := Next(s, delims);
            All(s, delims) == if next.None? then [] else [next.value.0] + All(next.value.1, delims)
  {
  }

  predicate IsToken(t: string, delims: set<char>) {
    t != "" && forall i | 0 <= i < |t| :: t[i] !in delims
  }

  lemma {:induction false} NextIsToken(s: string, delims: set<char>)
    requires Next(s, delims).Some?
    ensures IsToken(Next(s, delims).value.0, delims)
  {
    if s[0] in delims {
      NextIsToken(s[1..], delims);
    }
  }

  /** Tokens are not empty and hold no delimiter. */
  lemma {:induction false} AllAreTokens(s: string, delims: set<char>)
    ensures forall t | t in All(s, delims) :: IsToken(t, delims)
    decreases |s|
  {
    if Next(s, delims).Some? {
      NextIsToken(s, delims);
      AllAreTokens(Next(s, delims).value.1, delims);
    }
  }

  function Join(ts: seq<string>, sep: char): string {
    if ts == [] then ""
    else if |ts| == 1 then ts[0]
    else Join(ts[..|ts| - 1], sep) + [sep] + ts[|ts| - 1]
  }

  lemma {:induction false} SpanIs(s: string, delims: set<char>, k: nat)
    requires k <= |s| && (forall i | 0 <= i < k :: s[i] !in delims)
    requires k == |s| || s[k] in delims
    ensures Span(s, delims) == k
  {
    if k > 0 {
      SpanIs(s[1..], delims, k - 1);
    }
  }

  lemma SpanOfToken(t: string, rest: string, sep: char)
    requires IsToken(t, {sep}) && (rest == "" || rest[0] == sep)
    ensures Next(t + rest, {sep}) == Some((t, rest))
  {
    var s := t + rest;
    SpanIs(s, {sep}, |t|);
    assert s[..|t|] == t && s[|t|..] == rest;
  }

  lemma {:induction false} AllAppend(s: string, t: string, sep: char)
    requires IsToken(t, {sep})
    ensures All(s + [sep] + t, {sep}) == All(s, {sep}) + [t]
    decreases |s|
  {
    var d := {sep};
    var whole := s + [sep] + t;
    if s == "" {
      assert whole[1..] == t + "";
      SpanOfToken(t, "", sep);
      assert Next(whole, d) == Next(whole[1..], d);
    } else if s[0] == sep {
      assert whole[1..] == s[1..] + [sep] + t;
      AllAppend(s[1..], t, sep);
      SameTokens(whole, whole[1..], d);
      SameTokens(s, s[1..], d);
    } else {
      var n := Span(s, d);
      assert s == s[..n] + s[n..];
      SpanOfToken(s[..n], s[n..], sep);
      assert whole == s[..n] + (s[n..] + [sep] + t);
      SpanOfToken(s[..n], s[n..] + [sep] + t, sep);
      AllAppend(s[n..], t, sep);
      assert [s[..n]] + (All(s[n..], d) + [t]) == [s[..n]] + All(s[n..], d) + [t];
    }
  }

  lemma SameTokens(s: string, t: string, d: set<char>)
    requires Next(s, d) == Next(t, d)
    ensures All(s, d) == All(t, d)
  {
  }

  /** Splitting a joined list of tokens gives the list back. */
  lemma {:induction false} SplitJoin(ts: seq<string>, sep: char)
    requires forall t | t in ts :: IsToken(t, {sep})
    ensures All(Join(ts, sep), {sep}) == ts
  {
    if ts == [] {
    } else if |ts| == 1 {
      assert ts[0] in ts;
      assert ts[0] == ts[0] + "";
      SpanOfToken(ts[0], "", sep);
    } else {
      var front, last := ts[..|ts| - 1], ts[|ts| - 1];
      SplitJoin(front, sep);
      AllAppend(Join(front, sep), last, sep);
      assert ts == front + [last];
    }
  }
}

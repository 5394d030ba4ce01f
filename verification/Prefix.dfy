/**
 The chroot prefix policy: `parse_prefix` and `parse_prefix_list` of
 caller_config.c, `is_prefix` and `check_cwd` of chdiruid.c.
 */
module Prefix {
  import opened Bytes
  import Tokens

  /** `is_prefix`: a string test. */
  predicate IsPrefix(prefix: string, sample: string) {
    && prefix <= sample
    && (|sample| == |prefix| || sample[|prefix|] == '/')
  }

  /** The components of a path: what lies between its slashes. */
  function Split(s: string): (r: seq<string>)
    ensures r != []
  {
    if s == "" then [""]
    else if s[0] == '/' then [""] + Split(s[1..])
    else
      var r := Split(s[1..]);
      [[s[0]] + r[0]] + r[1..]
  }

  /** The string test is the list-prefix test on components. */
  lemma {:induction false} PrefixIsByComponent(p: string, s: string)
    ensures IsPrefix(p, s) <==> Split(p) <= Split(s)
  {
    if p == "" {
      assert Split(p) == [""];
      if s != "" && s[0] != '/' {
        assert Split(s)[0] != "";
      }
    } else if s == "" {
      assert Split(s) == [""];
      if p[0] == '/' {
        assert |Split(p)| >= 2;
      } else {
        assert Split(p)[0] != "";
      }
    } else {
      PrefixIsByComponent(p[1..], s[1..]);
      assert p[0] == s[0] ==> (p <= s <==> p[1..] <= s[1..]) by {
        assert p == [p[0]] + p[1..] && s == [s[0]] + s[1..];
      }
      var rp, rs := Split(p[1..]), Split(s[1..]);
      if p[0] == '/' && s[0] == '/' {
        ConsPrefix("", rp, "", rs);
      } else if p[0] != '/' && s[0] != '/' {
        ConsPrefix([p[0]] + rp[0], rp[1..], [s[0]] + rs[0], rs[1..]);
        ConsPrefix(rp[0], rp[1..], rs[0], rs[1..]);
        assert rp == [rp[0]] + rp[1..] && rs == [rs[0]] + rs[1..];
        assert ([p[0]] + rp[0])[1..] == rp[0] && ([s[0]] + rs[0])[1..] == rs[0];
      } else {
        assert Split(p)[0] != Split(s)[0];
      }
    }
  }

  lemma ConsPrefix<T>(a: T, r: seq<T>, b: T, s: seq<T>)
    ensures [a] + r <= [b] + s <==> a == b && r <= s
  {
    var x, y := [a] + r, [b] + s;
    if x <= y {
      assert x[0] == y[0];
      assert forall i | 0 <= i < |r| :: r[i] == x[i + 1] == y[i + 1] == s[i];
    }
    if a == b && r <= s {
      assert y == x + s[|r|..];
    }
  }

  // ------------------------------------------------------------ parse_prefix

  /** A prefix value without its trailing slashes. */
  function Stripped(s: string): string {
    if s != "" && s[|s| - 1] == '/' then Stripped(s[..|s| - 1]) else s
  }

  /** The prefix stored for a configured value, or none if the program dies. */
  function ParsedPrefix(value: string, home: string): Option<string> {
    var prefix := Stripped(if value == "~" then home else value);
    if prefix == "" || prefix[0] == '/' then Some(prefix) else None
  }

  /** `parse_prefix`: the string is cut short from its end, in place. */
  method ParsePrefix(value: string, home: string) returns (r: Option<string>)
    ensures r == ParsedPrefix(value, home)
  {
    var source := if value != "~" then value else home;
    var prefix := new char[|source|](i requires 0 <= i < |source| => source[i]);
    var n := |source|;
    while n > 0
      invariant 0 <= n <= prefix.Length == |source|
      invariant prefix[..n] == source[..n]
      invariant Stripped(source[..n]) == Stripped(source[..|source|])
    {
      if prefix[n - 1] == '/' {
        assert prefix[..n][n - 1] == source[..n][n - 1];
        assert source[..n][..n - 1] == source[..n - 1];
        prefix[n - 1] := '\0';
      } else {
        break;
      }
      n := n - 1;
    }
    assert source[..|source|] == source;
    assert n > 0 ==> source[..n][n - 1] == prefix[..n][n - 1];
    if n == 0 || prefix[0] == '/' {
      r := Some(prefix[..n]);
    } else {
      r := None;
    }
  }

  /** The list for a colon-separated option value; none if one of its items is invalid. */
  function ParsedList(items: seq<string>, home: string): Option<seq<string>> {
    if items == [] then Some([])
    else
      match (ParsedList(items[..|items| - 1], home), ParsedPrefix(items[|items| - 1], home))
      case (Some(front), Some(last)) => Some(front + [last])
      case _ => None
  }

  /** The list, or `None` inside for the null list that an option without items leaves. */
  datatype PrefixList = Invalid | Unrestricted | Restricted(list: seq<string>)

  function PrefixListOf(value: string, home: string): PrefixList {
    match ParsedList(Tokens.All(value, {':'}), home)
    case None => Invalid
    case Some(list) => if list == [] then Unrestricted else Restricted(list)
  }

  lemma {:induction false} ParsedListPrefix(items: seq<string>, n: nat, home: string)
    requires n <= |items| && ParsedList(items, home).Some?
    ensures ParsedList(items[..n], home).Some?
  {
    if n < |items| {
      ParsedListPrefix(items[..|items| - 1], n, home);
      assert items[..|items| - 1][..n] == items[..n];
    } else {
      assert items[..n] == items;
    }
  }

  /** `parse_prefix_list`: step through the items and append to a growing list. */
  method ParsePrefixList(value: string, home: string) returns (r: PrefixList)
    ensures r == PrefixListOf(value, home)
  {
    hide Tokens.All, Tokens.Next, ParsedPrefix;
    ghost var items := Tokens.All(value, {':'});
    Tokens.FirstOfAll(value, {':'});
    var list: seq<string> := [];
    var path := Tokens.Next(value, {':'});
    while path.Some?
      invariant |list| <= |items| && ParsedList(items[..|list|], home) == Some(list)
      invariant items[|list|..] == if path.None? then [] else [path.value.0] + Tokens.All(path.value.1, {':'})
      decreases if path.None? then 0 else |path.value.1| + 1
    {
      var (item, rest) := path.value;
      var n := |list|;
      assert items[n] == items[n..][0] == item;
      assert items[..n + 1][..n] == items[..n];
      var prefix := ParsePrefix(item, home);
      match prefix {
        case None =>
          if ParsedList(items, home).Some? {
            ParsedListPrefix(items, n + 1, home);
          }
          return Invalid;
        case Some(p) =>
          list := list + [p];
      }
      assert items[n + 1..] == items[n..][1..];
      Tokens.FirstOfAll(rest, {':'});
      path := Tokens.Next(rest, {':'});
    }
    assert items[..|list|] == items;
    r := if |list| > 0 then Restricted(list) else Unrestricted;
  }

  // --------------------------------------------------------------- check_cwd

  /** `check_cwd`: whether the program goes on. */
  method CheckCwd(prefixes: PrefixList, cwd: string) returns (passed: bool)
    requires !prefixes.Invalid?
    ensures passed <==> prefixes.Unrestricted? || exists p | p in prefixes.list :: IsPrefix(p, cwd)
  {
    var invalid := prefixes.Restricted?;
    if prefixes.Restricted? {
      for i := 0 to |prefixes.list|
        invariant invalid
        invariant forall j | 0 <= j < i :: !IsPrefix(prefixes.list[j], cwd)
      {
        if IsPrefix(prefixes.list[i], cwd) {
          invalid := false;
          break;
        }
      }
    }
    passed := !invalid;
  }

  // ------------------------------------------------------------- correctness

  /** Components of a prefix with trailing empty ones dropped; the root and the empty prefix both become the single empty component. */
  function Trimmed(cs: seq<string>): seq<string> {
    if |cs| > 1 && cs[|cs| - 1] == "" then Trimmed(cs[..|cs| - 1]) else cs
  }

  lemma {:induction false} SplitSlash(s: string)
    ensures Split(s + "/") == Split(s) + [""]
  {
    if s == "" {
      assert (s + "/")[1..] == "";
    } else {
      assert (s + "/")[1..] == s[1..] + "/";
      SplitSlash(s[1..]);
      if s[0] == '/' {
        assert [""] + (Split(s[1..]) + [""]) == [""] + Split(s[1..]) + [""];
      } else {
        var r := Split(s[1..]);
        assert (r + [""])[1..] == r[1..] + [""];
        assert [[s[0]] + r[0]] + (r[1..] + [""]) == [[s[0]] + r[0]] + r[1..] + [""];
      }
    }
  }

  lemma {:induction false} SplitLast(s: string)
    ensures Split(s)[|Split(s)| - 1] == "" <==> s == "" || s[|s| - 1] == '/'
    ensures |Split(s)| == 1 ==> s == Split(s)[0]
  {
    if s != "" {
      SplitLast(s[1..]);
    }
  }

  /** Stripping trailing slashes drops the trailing empty components. */
  lemma {:induction false} StrippedComponents(s: string)
    ensures Split(Stripped(s)) == Trimmed(Split(s))
  {
    SplitLast(s);
    if s != "" && s[|s| - 1] == '/' {
      var front := s[..|s| - 1];
      assert s == front + "/";
      SplitSlash(front);
      StrippedComponents(front);
      assert Split(s)[..|Split(s)| - 1] == Split(front);
    }
  }

  /** `list` holds one parsed prefix per item, in order. */
  lemma {:induction false} ParsedListItems(items: seq<string>, home: string)
    requires ParsedList(items, home).Some?
    ensures var list := ParsedList(items, home).value;
            |list| == |items| && forall i | 0 <= i < |items| :: ParsedPrefix(items[i], home) == Some(list[i])
  {
    if items != [] {
      ParsedListItems(items[..|items| - 1], home);
    }
  }

  /** A working directory lies at or beneath a configured item, component by component, without the item's trailing slashes. */
  predicate Beneath(cwd: string, item: string, home: string) {
    Trimmed(Split(if item == "~" then home else item)) <= Split(cwd)
  }

  lemma PrefixOfItem(item: string, home: string, cwd: string)
    requires ParsedPrefix(item, home).Some?
    ensures IsPrefix(ParsedPrefix(item, home).value, cwd) <==> Beneath(cwd, item, home)
  {
    PrefixIsByComponent(ParsedPrefix(item, home).value, cwd);
    StrippedComponents(if item == "~" then home else item);
  }

  /**
   The whole policy, in terms of components: a working directory passes when
   no prefix is configured, or when it lies beneath some configured item.
   */
  lemma PolicyByComponent(value: string, home: string, cwd: string)
    requires !PrefixListOf(value, home).Invalid?
    ensures var list := PrefixListOf(value, home);
            var items := Tokens.All(value, {':'});
            (list.Unrestricted? || exists p | p in list.list :: IsPrefix(p, cwd)) <==>
            (items == [] || exists item | item in items :: Beneath(cwd, item, home))
  {
    hide IsPrefix, Beneath, ParsedPrefix, ParsedList;
    var items := Tokens.All(value, {':'});
    ParsedListItems(items, home);
    var list := ParsedList(items, home).value;
    forall i | 0 <= i < |items|
      ensures IsPrefix(list[i], cwd) <==> Beneath(cwd, items[i], home)
      ensures list[i] in list && items[i] in items
    {
      PrefixOfItem(items[i], home, cwd);
    }
    if exists p | p in list :: IsPrefix(p, cwd) {
      var i :| 0 <= i < |list| && IsPrefix(list[i], cwd);
      assert Beneath(cwd, items[i], home);
    }
    if exists item | item in items :: Beneath(cwd, item, home) {
      var i :| 0 <= i < |items| && Beneath(cwd, items[i], home);
      assert IsPrefix(list[i], cwd);
    }
  }

  lemma {:induction false} StrippedStart(s: string)
    ensures Stripped(s) <= s && (Stripped(s) == "" <==> forall i | 0 <= i < |s| :: s[i] == '/')
  {
    if s != "" && s[|s| - 1] == '/' {
      StrippedStart(s[..|s| - 1]);
      assert s == s[..|s| - 1] + "/";
    }
  }

  /** The item, or the home directory it stands for, is not empty and not absolute. */
  predicate Relative(item: string, home: string) {
    var path := if item == "~" then home else item;
    path != "" && path[0] != '/'
  }

  /** Exactly such an item is refused. */
  lemma ItemRefusedExactly(item: string, home: string)
    ensures ParsedPrefix(item, home).None? <==> Relative(item, home)
  {
    StrippedStart(if item == "~" then home else item);
  }

  /** The whole option is refused exactly if one of its items is, and unrestricted exactly if it has none. */
  lemma OptionRefusedExactly(value: string, home: string)
    ensures var items := Tokens.All(value, {':'});
            && (PrefixListOf(value, home).Invalid? <==> exists item | item in items :: Relative(item, home))
            && (PrefixListOf(value, home).Unrestricted? <==> items == [])
  {
    var items := Tokens.All(value, {':'});
    ListRefusedExactly(items, home);
    if ParsedList(items, home).Some? {
      ParsedListItems(items, home);
    }
  }

  lemma {:induction false} ListRefusedExactly(items: seq<string>, home: string)
    ensures ParsedList(items, home).None? <==> exists item | item in items :: Relative(item, home)
  {
    if items != [] {
      var front, last := items[..|items| - 1], items[|items| - 1];
      ListRefusedExactly(front, home);
      ItemRefusedExactly(last, home);
      assert items == front + [last];
      if ParsedList(front, home).None? {
        var item :| item in front && Relative(item, home);
        assert item in items;
      } else if ParsedPrefix(last, home).None? {
        assert last in items;
      } else {
        forall item | item in items
          ensures !Relative(item, home)
        {
          assert item in front || item == last;
        }
      }
    }
  }
}

/**
 The string block codec: `send_strings` of hasher-priv.c writes it and
 `recv_strings_from_client` of caller_job.c cuts it up in two passes.
 */
module Strings {
  import opened Bytes

  /** The contents of a C string, without its terminator. */
  type CString = seq<byte>

  /** `MAX_ARGS_SIZE`. */
  const MAX_ARGS_SIZE := 0x20000

  predicate NulFree(s: CString) {
    forall i | 0 <= i < |s| :: s[i] != 0
  }

  predicate AllNulFree(strs: seq<CString>) {
    forall s | s in strs :: NulFree(s)
  }

  /** What the client puts on the wire for a list of strings: each with its terminator. */
  function Block(strs: seq<CString>): seq<byte> {
    if strs == [] then [] else strs[0] + [0] + Block(strs[1..])
  }

  /** `strlen(b + p)`, where the end of the buffer also terminates. */
  function StrLen(b: seq<byte>, p: nat): (n: nat)
    requires p <= |b|
    ensures p + n <= |b| && forall i | p <= i < p + n :: b[i] != 0
    ensures p + n < |b| ==> b[p + n] == 0
    decreases |b| - p
  {
    if p == |b| || b[p] == 0 then 0 else StrLen(b, p + 1) + 1
  }

  /** Where the strings of a block start, from offset p on. */
  function Starts(b: seq<byte>, p: nat): (r: seq<int>)
    ensures forall i | 0 <= i < |r| :: p <= r[i] < |b|
    decreases |b| - p
  {
    if p >= |b| then [] else [p] + Starts(b, p + StrLen(b, p) + 1)
  }

  /** The string at an offset. */
  function StringAt(b: seq<byte>, p: nat): CString
    requires p <= |b|
  {
    b[p..p + StrLen(b, p)]
  }

  /** The strings of a block, from offset p on. */
  function SplitFrom(b: seq<byte>, p: nat): seq<CString>
    decreases |b| - p
  {
    if p >= |b| then [] else [StringAt(b, p)] + SplitFrom(b, p + StrLen(b, p) + 1)
  }

  function Split(b: seq<byte>): seq<CString> {
    SplitFrom(b, 0)
  }

  // ---------------------------------------------------------------- the code

  /** The first loop of `send_strings`. */
  method BlockSize(strs: seq<CString>) returns (size: nat)
    ensures size == |Block(strs)|
  {
    size := 0;
    var i := 0;
    while i < |strs|
      invariant 0 <= i <= |strs| && size + |Block(strs[i..])| == |Block(strs)|
    {
      assert strs[i..][1..] == strs[i + 1..];
      size := size + |strs[i]| + 1;
      i := i + 1;
    }
  }

  /** Sending each string with its terminator sends the block. */
  method SendStrings(strs: seq<CString>) returns (wire: seq<byte>)
    ensures wire == Block(strs)
  {
    wire := [];
    var i := 0;
    while i < |strs|
      invariant 0 <= i <= |strs| && wire + Block(strs[i..]) == Block(strs)
    {
      assert strs[i..][1..] == strs[i + 1..];
      assert wire + (strs[i] + [0] + Block(strs[i + 1..])) == wire + strs[i] + [0] + Block(strs[i + 1..]);
      wire := wire + strs[i] + [0];
      i := i + 1;
    }
    assert strs[i..] == [];
  }

  /** `rawmemchr(p, '\0')` on a buffer that ends with a terminator. */
  method RawMemchr(args: array<byte>, p: nat) returns (q: nat)
    requires p < args.Length && args[args.Length - 1] == 0
    ensures q == p + StrLen(args[..args.Length - 1], p) < args.Length && args[q] == 0
  {
    ghost var b := args[..args.Length - 1];
    q := p;
    while args[q] != 0
      invariant p <= q < args.Length
      invariant q + StrLen(b, q) == p + StrLen(b, p)
      decreases args.Length - q
    {
      assert args[q] == b[q];
      q := q + 1;
    }
    assert q < |b| ==> args[q] == b[q];
  }

  /** The first pass: count the strings. */
  method CountStrings(args: array<byte>, len: nat) returns (n: nat)
    requires args.Length == len + 1 && args[len] == 0
    ensures n == |Starts(args[..len], 0)|
  {
    ghost var data := args[..len];
    n := 0;
    var p := 0;
    while p < len
      invariant 0 <= p <= len + 1 && n + |Starts(data, p)| == |Starts(data, 0)|
      decreases len + 1 - p
    {
      n := n + 1;
      var q := RawMemchr(args, p);
      p := q + 1;
    }
  }

  lemma NextStart(data: seq<byte>, starts: seq<int>, p: nat, n: nat)
    requires p < |data| && n <= |starts| && Starts(data, p) == starts[n..]
    ensures n < |starts| && starts[n] == p && Starts(data, p + StrLen(data, p) + 1) == starts[n + 1..]
  {
    assert Starts(data, p) == [p] + Starts(data, p + StrLen(data, p) + 1);
    assert starts[n..][1..] == starts[n + 1..];
  }

  /** The second pass: store a pointer to each string. */
  method FillPointers(args: array<byte>, len: nat, av: array<int>)
    requires args.Length == len + 1 && args[len] == 0
    requires av.Length == |Starts(args[..len], 0)| + 1
    modifies av
    ensures av[..av.Length - 1] == Starts(args[..len], 0) && av[av.Length - 1] == old(av[av.Length - 1])
  {
    ghost var data := args[..len];
    hide StrLen, Starts;
    ghost var starts := Starts(data, 0);
    var n := 0;
    var p := 0;
    while p < len
      invariant 0 <= p <= len + 1 && 0 <= n <= |starts| == av.Length - 1
      invariant Starts(data, p) == starts[n..] && av[|starts|] == old(av[|starts|])
      invariant forall i | 0 <= i < n :: av[i] == starts[i]
      decreases len + 1 - p
    {
      var q := RawMemchr(args, p);
      NextStart(data, starts, p, n);
      av[n] := p;
      n := n + 1;
      p := q + 1;
    }
  }

  /**
   `recv_strings_from_client` once `len` octets have arrived: a terminated
   buffer, and a null-terminated vector of pointers into it (offsets, -1 for
   the null pointer).
   */
  method CutStrings(data: seq<byte>) returns (args: array<byte>, av: array<int>)
    ensures args[..] == data + [0]
    ensures av[..] == Starts(data, 0) + [-1]
  {
    var len := |data|;
    args := new byte[len + 1](i requires 0 <= i <= len => if i < len then data[i] else 0);
    assert args[..len] == data;
    var n := CountStrings(args, len);
    av := new int[n + 1](_ => -1);
    FillPointers(args, len, av);
    assert av[..] == av[..n] + [av[n]];
  }

  // ------------------------------------------------------------- correctness

  /** The strings are those the pointers point to. */
  lemma {:induction false} SplitAtStarts(b: seq<byte>, p: nat)
    ensures |SplitFrom(b, p)| == |Starts(b, p)|
    ensures forall i | 0 <= i < |Starts(b, p)| :: SplitFrom(b, p)[i] == StringAt(b, Starts(b, p)[i])
    decreases |b| - p
  {
    if p < |b| {
      SplitAtStarts(b, p + StrLen(b, p) + 1);
    }
  }

  /** Splitting does not depend on what comes before. */
  lemma {:induction false} StrLenShift(a: seq<byte>, b: seq<byte>, p: nat)
    requires p <= |b|
    ensures StrLen(a + b, |a| + p) == StrLen(b, p)
    decreases |b| - p
  {
    if p < |b| && b[p] != 0 {
      StrLenShift(a, b, p + 1);
    }
  }

  lemma {:induction false} SplitShift(a: seq<byte>, b: seq<byte>, p: nat)
    ensures SplitFrom(a + b, |a| + p) == SplitFrom(b, p)
    decreases |b| - p
  {
    hide StrLen;
    if p < |b| {
      StrLenShift(a, b, p);
      var n := StrLen(b, p);
      var x := a + b;
      SplitShift(a, b, p + n + 1);
      assert StringAt(x, |a| + p) == StringAt(b, p);
      assert SplitFrom(x, |a| + p) == [StringAt(b, p)] + SplitFrom(x, |a| + (p + n + 1));
    }
  }

  lemma {:induction false} StrLenOfString(s: CString, rest: seq<byte>, p: nat)
    requires NulFree(s) && p <= |s| && (rest == [] || rest[0] == 0)
    ensures StrLen(s + rest, p) == |s| - p
    decreases |s| - p
  {
    if p < |s| {
      StrLenOfString(s, rest, p + 1);
    }
  }

  /** Every list of strings, empty strings and the empty list included, survives the wire. */
  lemma {:induction false} SplitBlock(strs: seq<CString>)
    requires AllNulFree(strs)
    ensures Split(Block(strs)) == strs
  {
    if strs != [] {
      var s, rest := strs[0], Block(strs[1..]);
      assert s in strs;
      var b := Block(strs);
      assert b == s + ([0] + rest);
      StrLenOfString(s, [0] + rest, 0);
      assert b[..|s|] == s;
      assert b == (s + [0]) + rest;
      SplitShift(s + [0], rest, 0);
      SplitBlock(strs[1..]);
    }
  }

  lemma ConsString(first: CString, rest: seq<CString>)
    ensures Block([first] + rest) == first + [0] + Block(rest)
  {
    assert ([first] + rest)[1..] == rest;
  }

  /** The block that a buffer stands for from an offset on: what is there, with a final terminator if it lacks one. */
  function Terminated(b: seq<byte>, p: nat): seq<byte>
    requires p <= |b|
  {
    if p == |b| || b[|b| - 1] == 0 then b[p..] else b[p..] + [0]
  }

  lemma TerminatedInside(b: seq<byte>, p: nat, q: nat)
    requires p <= q < |b| && b[q] == 0
    ensures Terminated(b, p) == b[p..q] + [0] + Terminated(b, q + 1)
  {
    var s, t := b[p..q] + [0], b[q + 1..];
    assert b[p..] == s + t;
    assert s + (t + [0]) == s + t + [0];
  }

  lemma {:induction false} SplitIsNulFree(b: seq<byte>, p: nat)
    ensures forall i | 0 <= i < |SplitFrom(b, p)| :: NulFree(SplitFrom(b, p)[i])
    decreases |b| - p
  {
    if p < |b| {
      SplitIsNulFree(b, p + StrLen(b, p) + 1);
    }
  }

  /** A last string that lacks its terminator is given one. */
  lemma LastString(b: seq<byte>, p: nat)
    requires p < |b| && p + StrLen(b, p) == |b|
    ensures Terminated(b, p) == StringAt(b, p) + [0]
  {
    hide StrLen;
    assert b[|b| - 1] != 0;
  }

  lemma SplitStep(b: seq<byte>, p: nat)
    requires p < |b|
    ensures Block(SplitFrom(b, p)) == StringAt(b, p) + [0] + Block(SplitFrom(b, p + StrLen(b, p) + 1))
  {
    hide StrLen, StringAt, Block;
    ConsString(StringAt(b, p), SplitFrom(b, p + StrLen(b, p) + 1));
  }

  /** Whatever arrives, the strings cut out of it join to it, but for one missing final terminator. */
  lemma {:induction false} BlockSplitFrom(b: seq<byte>, p: nat)
    requires p <= |b|
    ensures Block(SplitFrom(b, p)) == Terminated(b, p)
    decreases |b| - p
  {
    if p == |b| {
      AfterLast(b, p);
    } else {
      hide StrLen, SplitFrom, Block, Terminated;
      var q := p + StrLen(b, p);
      SplitStep(b, p);
      if q < |b| {
        BlockSplitFrom(b, q + 1);
        TerminatedInside(b, p, q);
      } else {
        LastString(b, p);
        AfterLast(b, q + 1);
      }
    }
  }

  lemma AfterLast(b: seq<byte>, p: nat)
    requires p >= |b|
    ensures Block(SplitFrom(b, p)) == []
  {
  }

  lemma BlockSplit(b: seq<byte>)
    ensures AllNulFree(Split(b))
    ensures Block(Split(b)) == if b == [] || b[|b| - 1] == 0 then b else b + [0]
  {
    BlockSplitFrom(b, 0);
    SplitIsNulFree(b, 0);
    assert b[0..] == b;
  }
}

/** The CPU-affinity sampler of child.c. */
module Affinity {

  const CPU_SETSIZE := 1024

  /** `CPU_COUNT`. */
  function Count(s: seq<bool>): (n: nat)
    ensures n <= |s|
  {
    if s == [] then 0
    else Count(s[..|s| - 1]) + (if s[|s| - 1] then 1 else 0)
  }

  /** Number of set bits below i. */
  function Rank(s: seq<bool>, i: nat): (n: nat)
    requires i <= |s|
    ensures n <= i
  {
    Count(s[..i])
  }

  function Swapped(s: seq<bool>, x: nat, y: nat): (t: seq<bool>)
    requires x < |s| && y < |s|
    ensures |t| == |s|
  {
    s[y := s[x]][x := s[y]]
  }

  function FirstBits(n: nat, size: nat): seq<bool> {
    seq(size, i => i < n)
  }

  /** The mask after k rounds of swapping bit i with bit `random[i] % cpucount`. */
  function Shuffled(s: seq<bool>, random: seq<nat>, cpucount: nat, k: nat): (t: seq<bool>)
    requires 0 < cpucount <= |s| && k <= |random| && k <= |s|
    ensures |t| == |s|
  {
    if k == 0 then s
    else Swapped(Shuffled(s, random, cpucount, k - 1), k - 1, random[k - 1] % cpucount)
  }

  /** Keep the set bits of `mask` whose rank is set in `picks`. */
  function Expand(mask: seq<bool>, picks: seq<bool>): (r: seq<bool>)
    requires |picks| == |mask|
    ensures |r| == |mask|
    ensures forall i | 0 <= i < |mask| :: r[i] <==> mask[i] && picks[Rank(mask, i)]
  {
    seq(|mask|, i requires 0 <= i < |mask| => mask[i] && picks[Rank(mask, i)])
  }

  /** The affinity mask that `set_affinity_nproc` installs. */
  function NewMask(mask: seq<bool>, nproc: nat, random: seq<nat>): seq<bool>
    requires nproc <= |random|
  {
    if nproc == 0 || Count(mask) <= nproc then mask
    else Expand(mask, Shuffled(FirstBits(nproc, |mask|), random, Count(mask), nproc))
  }

  // ---------------------------------------------------------------- the code

  /** `cpu_set_swap_bits`. */
  method SwapBits(x: nat, y: nat, s: array<bool>)
    requires x < s.Length && y < s.Length
    modifies s
    ensures s[..] == Swapped(old(s[..]), x, y)
  {
    var a, b := s[x], s[y];
    if a {
      s[y] := true;
    } else {
      s[y] := false;
    }
    if b {
      s[x] := true;
    } else {
      s[x] := false;
    }
  }

  /** `set_affinity_nproc`, from a mask read with `sched_getaffinity` to the mask handed to `sched_setaffinity`. */
  method SetAffinityNproc(mask: array<bool>, nproc: nat, random: seq<nat>)
    requires mask.Length == CPU_SETSIZE && nproc <= |random|
    modifies mask
    ensures mask[..] == NewMask(old(mask[..]), nproc, random)
  {
    ghost var was := mask[..];
    if nproc == 0 {
      return;
    }
    var cpucount := Count(mask[..]);
    if cpucount <= nproc {
      return;
    }
    var tmp := new bool[CPU_SETSIZE](i => false);
    for i := 0 to nproc
      invariant tmp[..] == FirstBits(i, CPU_SETSIZE)
      invariant mask[..] == was
    {
      tmp[i] := true;
    }
    for i := 0 to nproc
      invariant tmp[..] == Shuffled(FirstBits(nproc, CPU_SETSIZE), random, cpucount, i)
      invariant mask[..] == was
    {
      SwapBits(i, random[i] % cpucount, tmp);
    }
    KeepPicked(mask, cpucount, tmp);
  }

  /** Its second half: walk the set bits of `mask` and clear those whose rank is not picked. */
  method KeepPicked(mask: array<bool>, cpucount: nat, picks: array<bool>)
    requires mask.Length == picks.Length == CPU_SETSIZE && mask != picks && cpucount == Count(mask[..])
    modifies mask
    ensures mask[..] == Expand(old(mask[..]), picks[..])
  {
    ghost var was := mask[..];
    ghost var goal := Expand(was, picks[..]);
    var i, j := 0, 0;
    while i < CPU_SETSIZE && j < cpucount
      invariant i <= CPU_SETSIZE && j == Rank(was, i) <= cpucount
      invariant forall k | 0 <= k < i :: mask[k] == goal[k]
      invariant forall k | i <= k < CPU_SETSIZE :: mask[k] == was[k]
    {
      RankStep(was, i);
      assert goal[i] == (was[i] && picks[Rank(was, i)]);
      if mask[i] {
        if !picks[j] {
          mask[i] := false;
        }
        j := j + 1;
      }
      i := i + 1;
    }
    assert was[..CPU_SETSIZE] == was;
    NoBitsAbove(was, i);
    assert forall k | 0 <= k < CPU_SETSIZE :: mask[k] == goal[k];
  }

  lemma RankStep(s: seq<bool>, i: nat)
    requires i < |s|
    ensures Rank(s, i + 1) == Rank(s, i) + (if s[i] then 1 else 0)
  {
    assert s[..i + 1][..i] == s[..i];
  }

  // ---------------------------------------------------------------- counting

  lemma {:induction false} CountSplit(s: seq<bool>, t: seq<bool>)
    ensures Count(s + t) == Count(s) + Count(t)
  {
    if t == [] {
      assert s + t == s;
    } else {
      assert (s + t)[..|s + t| - 1] == s + t[..|t| - 1];
      CountSplit(s, t[..|t| - 1]);
    }
  }

  lemma {:induction false} CountFalse(s: seq<bool>)
    ensures Count(s) == 0 <==> forall i | 0 <= i < |s| :: !s[i]
  {
    if s != [] {
      CountFalse(s[..|s| - 1]);
      assert forall i | 0 <= i < |s| - 1 :: s[..|s| - 1][i] == s[i];
    }
  }

  lemma {:induction false} RankBelow(s: seq<bool>, i: nat)
    requires i <= |s|
    ensures Rank(s, i) <= Count(s)
  {
    if i == |s| {
      assert s[..i] == s;
    } else {
      RankBelow(s[..|s| - 1], i);
      assert s[..|s| - 1][..i] == s[..i];
    }
  }

  /** A set bit at or above i pushes the count past the rank of i. */
  lemma {:induction false} BitAbove(s: seq<bool>, i: nat, k: nat)
    requires i <= k < |s| && s[k]
    ensures Rank(s, i) < Count(s)
  {
    var front := s[..|s| - 1];
    assert front[..i] == s[..i];
    if k == |s| - 1 {
      RankBelow(front, i);
    } else {
      BitAbove(front, i, k);
    }
  }

  lemma NoBitsAbove(s: seq<bool>, i: nat)
    requires i <= |s| && Rank(s, i) >= Count(s)
    ensures forall k | i <= k < |s| :: !s[k]
  {
    forall k | i <= k < |s|
      ensures !s[k]
    {
      if s[k] {
        BitAbove(s, i, k);
      }
    }
  }

  lemma {:induction false} CountUpdate(s: seq<bool>, i: nat, v: bool)
    requires i < |s|
    ensures Count(s[i := v]) == Count(s) - (if s[i] then 1 else 0) + (if v then 1 else 0)
  {
    var n := |s| - 1;
    if i == n {
      assert s[i := v][..n] == s[..n];
    } else {
      assert s[i := v][..n] == s[..n][i := v];
      CountUpdate(s[..n], i, v);
    }
  }

  /** Swapping bits keeps their number. */
  lemma SwapKeepsCount(s: seq<bool>, x: nat, y: nat)
    requires x < |s| && y < |s|
    ensures Count(Swapped(s, x, y)) == Count(s)
  {
    CountUpdate(s, y, s[x]);
    CountUpdate(s[y := s[x]], x, s[y]);
  }

  lemma {:induction false} CountFirstBits(n: nat, size: nat)
    requires n <= size
    ensures Count(FirstBits(n, size)) == n
  {
    if size == n {
      if n > 0 {
        assert FirstBits(n, size)[..size - 1] == FirstBits(n - 1, size - 1);
        CountFirstBits(n - 1, size - 1);
      }
    } else {
      assert FirstBits(n, size)[..size - 1] == FirstBits(n, size - 1);
      CountFirstBits(n, size - 1);
    }
  }

  /** The shuffle keeps the number of bits and never leaves the first `cpucount` positions. */
  lemma {:induction false} ShuffleKeeps(s: seq<bool>, random: seq<nat>, cpucount: nat, k: nat)
    requires 0 < cpucount <= |s| && k <= |random| && k <= cpucount
    requires forall i | cpucount <= i < |s| :: !s[i]
    ensures var t := Shuffled(s, random, cpucount, k);
            Count(t) == Count(s) && forall i | cpucount <= i < |s| :: !t[i]
  {
    if k > 0 {
      ShuffleKeeps(s, random, cpucount, k - 1);
      SwapKeepsCount(Shuffled(s, random, cpucount, k - 1), k - 1, random[k - 1] % cpucount);
    }
  }

  /** Expanding visits the first |mask| ranks in order. */
  lemma {:induction false} ExpandCount(mask: seq<bool>, picks: seq<bool>, i: nat)
    requires |picks| == |mask| && i <= |mask|
    ensures Count(Expand(mask, picks)[..i]) == Count(picks[..Rank(mask, i)])
  {
    if i > 0 {
      ExpandCount(mask, picks, i - 1);
      var r := Expand(mask, picks);
      assert r[..i][..i - 1] == r[..i - 1] && mask[..i][..i - 1] == mask[..i - 1];
      var j := Rank(mask, i - 1);
      if mask[i - 1] {
        assert picks[..j + 1][..j] == picks[..j];
      }
    }
  }

  // ------------------------------------------------------------- correctness

  /**
   For every random sequence the new mask is a subset of the old one with
   exactly `nproc` bits: those whose rank the shuffle picked.
   */
  lemma SampleIsSubset(mask: seq<bool>, nproc: nat, random: seq<nat>)
    requires 0 < nproc < Count(mask) && nproc <= |random|
    ensures var r := NewMask(mask, nproc, random);
            var picks := Shuffled(FirstBits(nproc, |mask|), random, Count(mask), nproc);
            && |r| == |mask| && Count(r) == nproc == Count(picks)
            && forall i | 0 <= i < |mask| :: r[i] <==> mask[i] && picks[Rank(mask, i)]
  {
    var c := Count(mask);
    var first := FirstBits(nproc, |mask|);
    var picks := Shuffled(first, random, c, nproc);
    CountFirstBits(nproc, |mask|);
    ShuffleKeeps(first, random, c, nproc);
    ExpandCount(mask, picks, |mask|);
    assert mask[..|mask|] == mask;
    assert Expand(mask, picks)[..|mask|] == Expand(mask, picks);
    CountSplit(picks[..c], picks[c..]);
    CountFalse(picks[c..]);
    assert picks == picks[..c] + picks[c..];
  }

  lemma {:induction false} StrictSubsetCounts(a: seq<bool>, b: seq<bool>)
    requires |a| == |b| && forall i | 0 <= i < |a| :: a[i] ==> b[i]
    ensures Count(a) <= Count(b)
    ensures a != b ==> Count(a) < Count(b)
  {
    if a != [] {
      var n := |a| - 1;
      StrictSubsetCounts(a[..n], b[..n]);
      assert a == a[..n] + [a[n]] && b == b[..n] + [b[n]];
    }
  }

  /** What the shuffle has built after k rounds on its way to `goal`. */
  ghost predicate Approaches(s: seq<bool>, goal: seq<bool>, nproc: nat, k: nat) {
    && |s| == |goal| && k <= nproc <= |s| && Count(s) == Count(goal)
    && (forall i | 0 <= i < k :: s[i] == goal[i])
    && (forall i | k <= i < nproc :: s[i])
    && (forall i | nproc <= i < |s| :: s[i] ==> goal[i])
  }

  /** One round can always move one step closer to the goal. */
  lemma NextPick(s: seq<bool>, goal: seq<bool>, nproc: nat, k: nat, cpucount: nat) returns (t: nat)
    requires Approaches(s, goal, nproc, k) && k < nproc <= cpucount <= |s|
    requires forall i | cpucount <= i < |s| :: !goal[i]
    ensures t < cpucount && Approaches(Swapped(s, k, t), goal, nproc, k + 1)
  {
    if goal[k] {
      t := k;
      SwapKeepsCount(s, k, k);
    } else {
      if forall i | nproc <= i < |s| :: goal[i] ==> s[i] {
        StrictSubsetCounts(goal, s);
        assert false;
      }
      t :| nproc <= t < |s| && goal[t] && !s[t];
      SwapKeepsCount(s, k, t);
    }
  }

  lemma {:induction false} ShuffledPrefix(s: seq<bool>, random: seq<nat>, more: seq<nat>, cpucount: nat, k: nat)
    requires 0 < cpucount <= |s| && k <= |random| && k <= |s|
    ensures Shuffled(s, random + more, cpucount, k) == Shuffled(s, random, cpucount, k)
  {
    if k > 0 {
      ShuffledPrefix(s, random, more, cpucount, k - 1);
    }
  }

  lemma SmallRemainder(t: nat, m: nat)
    requires t < m
    ensures t % m == t
  {
  }

  lemma ShuffledStep(s: seq<bool>, random: seq<nat>, t: nat, cpucount: nat)
    requires 0 < cpucount <= |s| && |random| < |s| && t < cpucount
    ensures Shuffled(s, random + [t], cpucount, |random| + 1)
         == Swapped(Shuffled(s, random, cpucount, |random|), |random|, t)
  {
    var longer := random + [t];
    var k := |random|;
    ShuffledPrefix(s, random, [t], cpucount, k);
    SmallRemainder(t, cpucount);
    assert longer[k] == t;
    assert Shuffled(s, longer, cpucount, k + 1) == Swapped(Shuffled(s, longer, cpucount, k), k, longer[k] % cpucount);
  }

  /** Some random sequence shuffles the first `nproc` bits into any goal of that many bits. */
  lemma {:induction false} ShuffleReaches(goal: seq<bool>, nproc: nat, cpucount: nat, k: nat) returns (random: seq<nat>)
    requires k <= nproc <= cpucount <= |goal| && 0 < cpucount && Count(goal) == nproc
    requires forall i | cpucount <= i < |goal| :: !goal[i]
    ensures |random| == k && forall i | 0 <= i < k :: random[i] < cpucount
    ensures Approaches(Shuffled(FirstBits(nproc, |goal|), random, cpucount, k), goal, nproc, k)
  {
    var first := FirstBits(nproc, |goal|);
    if k == 0 {
      random := [];
      CountFirstBits(nproc, |goal|);
    } else {
      var before := ShuffleReaches(goal, nproc, cpucount, k - 1);
      var s := Shuffled(first, before, cpucount, k - 1);
      var t := NextPick(s, goal, nproc, k - 1, cpucount);
      random := before + [t];
      ShuffledStep(first, before, t, cpucount);
    }
  }

  /** The bits of `target` at the set positions of `mask`, in order. */
  function Ranked(mask: seq<bool>, target: seq<bool>): (r: seq<bool>)
    requires |mask| == |target|
    ensures |r| == Count(mask)
  {
    if mask == [] then []
    else
      var n := |mask| - 1;
      Ranked(mask[..n], target[..n]) + (if mask[n] then [target[n]] else [])
  }

  lemma {:induction false} RankedAt(mask: seq<bool>, target: seq<bool>, i: nat)
    requires |mask| == |target| && i < |mask| && mask[i]
    ensures Rank(mask, i) < Count(mask) && Ranked(mask, target)[Rank(mask, i)] == target[i]
  {
    var n := |mask| - 1;
    if i < n {
      RankedAt(mask[..n], target[..n], i);
      assert mask[..n][..i] == mask[..i];
    }
  }

  lemma {:induction false} RankedCount(mask: seq<bool>, target: seq<bool>)
    requires |mask| == |target| && forall i | 0 <= i < |mask| :: target[i] ==> mask[i]
    ensures Count(Ranked(mask, target)) == Count(target)
  {
    if mask != [] {
      var n := |mask| - 1;
      RankedCount(mask[..n], target[..n]);
      if mask[n] {
        CountSplit(Ranked(mask[..n], target[..n]), [target[n]]);
        assert [target[n]][..0] == [];
      } else {
        assert Ranked(mask, target) == Ranked(mask[..n], target[..n]);
      }
    }
  }

  /** Every subset of `nproc` bits of the mask comes out of some random sequence. */
  lemma EverySubsetIsSampled(mask: seq<bool>, nproc: nat, target: seq<bool>) returns (random: seq<nat>)
    requires 0 < nproc < Count(mask) && |target| == |mask| && Count(target) == nproc
    requires forall i | 0 <= i < |mask| :: target[i] ==> mask[i]
    ensures |random| == nproc && forall i | 0 <= i < nproc :: random[i] < Count(mask)
    ensures NewMask(mask, nproc, random) == target
  {
    var c := Count(mask);
    var ranked := Ranked(mask, target);
    var pad := seq(|mask| - c, i => false);
    var goal := ranked + pad;
    CountSplit(ranked, pad);
    CountFalse(pad);
    RankedCount(mask, target);
    random := ShuffleReaches(goal, nproc, c, nproc);
    var picks := Shuffled(FirstBits(nproc, |mask|), random, c, nproc);
    StrictSubsetCounts(picks, goal);
    assert picks == goal;
    forall i | 0 <= i < |mask|
      ensures Expand(mask, picks)[i] == target[i]
    {
      if mask[i] {
        RankedAt(mask, target, i);
      }
    }
  }

  /** Without a number, or with no more CPUs than asked for, the mask is left alone. */
  lemma NoSampling(mask: seq<bool>, nproc: nat, random: seq<nat>)
    requires nproc <= |random|
    ensures nproc == 0 || |set i | 0 <= i < |mask| && mask[i]| <= nproc ==> NewMask(mask, nproc, random) == mask
  {
    CountIsCardinality(mask);
  }

  lemma {:induction false} CountIsCardinality(s: seq<bool>)
    ensures Count(s) == |set i | 0 <= i < |s| && s[i]|
  {
    var all := set i | 0 <= i < |s| && s[i];
    if s != [] {
      var n := |s| - 1;
      var front := set i | 0 <= i < n && s[..n][i];
      CountIsCardinality(s[..n]);
      assert all == front + (if s[n] then {n} else {});
      assert n !in front;
    } else {
      assert all == {};
    }
  }
}

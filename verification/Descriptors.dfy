/** The descriptor sanitiser of fds.c and the descriptor moves of `job_executor`. */
module Descriptors {
  import opened Bytes

  /** An open file, and a descriptor table. */
  type File = int
  type Table = map<int, File>

  const NR_OPEN := 1024
  const INT_MAX := 0x7FFF_FFFF

  /** `get_open_max`, from the value of `sysconf(_SC_OPEN_MAX)`. */
  function OpenMax(configured: int): int {
    var i := if configured < NR_OPEN then NR_OPEN else configured;
    if i > INT_MAX then INT_MAX else i
  }

  /** Every descriptor number is a natural number. */
  predicate Proper(t: Table) {
    forall fd | fd in t :: fd >= 0
  }

  predicate StandardOpen(t: Table) {
    0 in t && 1 in t && 2 in t
  }

  // ------------------------------------------------------------ specification

  /** The table, the next free slot, and the variable being moved down to it. */
  datatype Slot = Slot(table: Table, start: int, target: int)

  /** `reorder_fd`; none where `dup2` fails and the program dies. */
  function Reordered(s: Slot): Option<Slot> {
    if s.target < s.start then Some(s)
    else if s.target == s.start then Some(s.(start := s.start + 1))
    else if s.target !in s.table then None
    else Some(Slot(s.table[s.start := s.table[s.target]], s.start + 1, s.start))
  }

  datatype Kept = Kept(table: Table, start: int, logFd: int, chrootFd: int)

  /** `reorder_fds`: the lower of the two kept descriptors moves first. */
  function ReorderedBoth(t: Table, start: int, logFd: int, chrootFd: int): Option<Kept> {
    var (low, high) := if logFd < chrootFd then (logFd, chrootFd) else (chrootFd, logFd);
    match Reordered(Slot(t, start, low))
    case None => None
    case Some(first) =>
      match Reordered(Slot(first.table, first.start, high))
      case None => None
      case Some(second) =>
        if logFd < chrootFd then Some(Kept(second.table, second.start, first.target, second.target))
        else Some(Kept(second.table, second.start, second.target, first.target))
  }

  /** `close_range(from, -1U, 0)`. */
  function ClosedFrom(t: Table, from: int): Table {
    map fd | fd in t && fd < from :: t[fd]
  }

  /** `close_range_brutely(from, to)`. */
  function ClosedBetween(t: Table, from: int, to: int): Table {
    map fd | fd in t && !(from <= fd < to) :: t[fd]
  }

  /** `sanitize_fds`; none where it dies. `openMax` is none when `close_range` works. */
  function Sanitized(t: Table, logFd: int, chrootFd: int, openMax: Option<int>): Option<Kept> {
    if !StandardOpen(t) then None
    else
      match ReorderedBoth(t, 3, logFd, chrootFd)
      case None => None
      case Some(k) =>
        Some(k.(table := match openMax case None => ClosedFrom(k.table, k.start)
                         case Some(max) => ClosedBetween(k.table, k.start, max)))
  }

  /** `move_fd`; none where it dies. */
  function Moved(t: Table, oldFd: int, newFd: int): Option<Table> {
    if oldFd < 0 || oldFd == newFd then Some(t)
    else if oldFd !in t then None
    else Some(t[newFd := t[oldFd]] - {oldFd})
  }

  /** The loop of `job_executor` over the first n standard descriptors. */
  function MovedAll(t: Table, std: seq<int>, n: nat): Option<Table>
    requires n <= |std|
  {
    if n == 0 then Some(t)
    else
      match MovedAll(t, std, n - 1)
      case None => None
      case Some(u) => Moved(u, std[n - 1], n - 1)
  }

  // ---------------------------------------------------------------- the code

  /** A process: its descriptor table and the two global variables of fds.c. */
  class Process {
    var table: Table
    var logFd: int
    var chrootFd: int

    constructor (table: Table)
      ensures this.table == table && logFd == -1 && chrootFd == -1
    {
      this.table, logFd, chrootFd := table, -1, -1;
    }

    method Dup2(oldFd: int, newFd: int) returns (r: int)
      modifies this`table
      ensures if oldFd in old(table) then r == newFd && table == old(table)[newFd := old(table)[oldFd]]
              else r == -1 && table == old(table)
    {
      if oldFd !in table {
        return -1;
      }
      table := table[newFd := table[oldFd]];
      r := newFd;
    }

    method Close(fd: int) returns (ok: bool)
      modifies this`table
      ensures ok <==> fd in old(table)
      ensures table == old(table) - {fd}
    {
      ok := fd in table;
      table := table - {fd};
    }

    /** `xclose`, returning the new value of the variable. */
    method XClose(fd: int) returns (ok: bool, fd': int)
      modifies this`table
      ensures table == if fd < 0 then old(table) else old(table) - {fd}
      ensures ok <==> fd < 0 || fd in old(table)
      ensures fd' == if fd >= 0 && ok then -1 else fd
    {
      if fd < 0 {
        return true, fd;
      }
      ok := Close(fd);
      fd' := if ok then -1 else fd;
    }

    /** `reorder_fd`. */
    method ReorderFd(start: int, target: int) returns (died: bool, start': int, target': int)
      requires start >= 0
      modifies this`table
      ensures var r := Reordered(Slot(old(table), start, target));
              && died == r.None?
              && (r.Some? ==> table == r.value.table && start' == r.value.start && target' == r.value.target)
    {
      died, start', target' := false, start, target;
      if target < start {
        return;
      }
      if target > start {
        var r := Dup2(target, start);
        if r != start {
          return true, start, target;
        }
        target' := start;
      }
      start' := start + 1;
    }

    /** `reorder_fds`. */
    method ReorderFds(startFd: int) returns (died: bool, start: int)
      requires startFd >= 0
      modifies this
      ensures var r := ReorderedBoth(old(table), startFd, old(logFd), old(chrootFd));
              && died == r.None?
              && (r.Some? ==> Kept(table, start, logFd, chrootFd) == r.value)
    {
      start := startFd;
      if logFd < chrootFd {
        died, start, logFd := ReorderFd(start, logFd);
        if died {
          return;
        }
        died, start, chrootFd := ReorderFd(start, chrootFd);
      } else {
        died, start, chrootFd := ReorderFd(start, chrootFd);
        if died {
          return;
        }
        died, start, logFd := ReorderFd(start, logFd);
      }
    }

    /** `close_range_brutely`. */
    method CloseRangeBrutely(from: int, to: int)
      modifies this`table
      ensures table == ClosedBetween(old(table), from, to)
    {
      var fd := from;
      while fd < to
        invariant fd <= to || fd == from
        invariant table == ClosedBetween(old(table), from, fd)
      {
        var _ := Close(fd);
        fd := fd + 1;
      }
    }

    /** `sanitize_fds`. */
    method SanitizeFds(openMax: Option<int>) returns (died: bool)
      modifies this
      ensures var r := Sanitized(old(table), old(logFd), old(chrootFd), openMax);
              && died == r.None?
              && (r.Some? ==> table == r.value.table && logFd == r.value.logFd && chrootFd == r.value.chrootFd)
    {
      var fd := 0;
      while fd <= 2
        invariant 0 <= fd <= 3 && forall k | 0 <= k < fd :: k in table
      {
        if fd !in table {
          return true;
        }
        fd := fd + 1;
      }
      died, fd := ReorderFds(fd);
      if died {
        return;
      }
      match openMax {
        case None => table := ClosedFrom(table, fd);
        case Some(max) => CloseRangeBrutely(fd, max);
      }
    }

    /** `move_fd`, returning the new value of the variable. */
    method MoveFd(oldFd: int, newFd: int) returns (died: bool, fd: int)
      modifies this`table
      ensures var r := Moved(old(table), oldFd, newFd);
              && died == r.None?
              && (r.Some? ==> table == r.value && fd == if oldFd < 0 || oldFd == newFd then oldFd else -1)
    {
      died, fd := false, oldFd;
      if oldFd < 0 || oldFd == newFd {
        return;
      }
      var r := Dup2(oldFd, newFd);
      if r != newFd {
        return true, oldFd;
      }
      var ok;
      ok, fd := XClose(oldFd);
      died := !ok;
    }

    /** The descriptor part of `job_executor`. */
    method AdoptDescriptors(std: array<int>, jobChrootFd: int, openMax: Option<int>) returns (died: bool)
      requires std.Length == 3
      modifies this, std
      ensures var r := ExecutorTable(old(table), old(std[..]), old(logFd), jobChrootFd, openMax);
              && died == r.None?
              && (r.Some? ==> table == r.value.table && logFd == r.value.logFd && chrootFd == r.value.chrootFd)
    {
      ghost var std0 := std[..];
      for i := 0 to 3
        invariant MovedAll(old(table), std0, i) == Some(table)
        invariant logFd == old(logFd) && std[i..] == std0[i..]
      {
        assert std[i] == std[i..][0] == std0[i..][0];
        assert std0[i + 1..] == std0[i..][1..];
        died, std[i] := MoveFd(std[i], i);
        if died {
          NoneStays(old(table), std0, i + 1, 3);
          return;
        }
        assert std[i + 1..] == std0[i + 1..];
      }
      chrootFd := jobChrootFd;
      died := SanitizeFds(openMax);
    }
  }

  lemma {:induction false} NoneStays(t: Table, std: seq<int>, n: nat, m: nat)
    requires n <= m <= |std| && MovedAll(t, std, n).None?
    ensures MovedAll(t, std, m).None?
  {
    if n < m {
      NoneStays(t, std, n, m - 1);
    }
  }

  /** What `job_executor` makes of the table it inherits. */
  function ExecutorTable(t: Table, std: seq<int>, logFd: int, chrootFd: int, openMax: Option<int>): Option<Kept>
    requires |std| == 3
  {
    match MovedAll(t, std, 3)
    case None => None
    case Some(u) => Sanitized(u, logFd, chrootFd, openMax)
  }

  // ------------------------------------------------------------- correctness

  /** A kept variable is unset, or names an open descriptor. */
  predicate UnsetOrOpen(t: Table, fd: int) {
    fd == -1 || fd in t
  }

  /** The kept variable denotes the file it denoted before. */
  predicate StillDenotes(t: Table, fd: int, u: Table, fd': int) {
    if fd < 0 then fd' == fd else fd in t && fd' in u && u[fd'] == t[fd]
  }

  /** The open descriptors are exactly 0 .. n-1. */
  ghost predicate Contiguous(t: Table, n: int) {
    forall fd :: fd in t <==> 0 <= fd < n
  }

  /** Reordering clobbers neither of the two kept descriptors nor the standard ones. */
  lemma ReorderKeeps(t: Table, logFd: int, chrootFd: int)
    requires Proper(t) && StandardOpen(t) && UnsetOrOpen(t, logFd) && UnsetOrOpen(t, chrootFd)
    ensures var r := ReorderedBoth(t, 3, logFd, chrootFd);
            && r.Some?
            && var k := r.value;
               && 3 <= k.start <= 5
               && StillDenotes(t, logFd, k.table, k.logFd) && StillDenotes(t, chrootFd, k.table, k.chrootFd)
               && k.logFd < k.start && k.chrootFd < k.start
               && (forall fd | 0 <= fd < 3 :: fd in k.table && k.table[fd] == t[fd])
               && (forall fd | 3 <= fd < k.start :: fd in k.table && (fd == k.logFd || fd == k.chrootFd))
               && (forall fd | fd in k.table && fd >= k.start :: fd in t)
               && Proper(k.table)
  {
  }

  /**
   For any table with the standard descriptors open and any two kept
   variables, unset or open, equal values included: afterwards the open
   descriptors are a range from 0, the first three are untouched, both
   variables still denote their files, and nothing else is left open.
   */
  lemma SanitizeIsExact(t: Table, logFd: int, chrootFd: int)
    requires Proper(t) && StandardOpen(t) && UnsetOrOpen(t, logFd) && UnsetOrOpen(t, chrootFd)
    ensures var r := Sanitized(t, logFd, chrootFd, None);
            && r.Some?
            && var k := r.value;
               && 3 <= k.start <= 5 && Contiguous(k.table, k.start)
               && k.table[0] == t[0] && k.table[1] == t[1] && k.table[2] == t[2]
               && StillDenotes(t, logFd, k.table, k.logFd) && StillDenotes(t, chrootFd, k.table, k.chrootFd)
               && forall fd | fd in k.table && fd >= 3 :: fd == k.logFd || fd == k.chrootFd
  {
    ReorderKeeps(t, logFd, chrootFd);
  }

  /**
   The brute-force loop closes the same descriptors as `close_range` exactly
   when no descriptor at or above both the start and the table limit is open.
   */
  lemma BruteForceAgrees(t: Table, from: int, openMax: int)
    ensures ClosedBetween(t, from, openMax) == ClosedFrom(t, from)
            <==> forall fd | fd in t && fd >= from :: fd < openMax
  {
    var brute, range := ClosedBetween(t, from, openMax), ClosedFrom(t, from);
    if exists fd :: fd in t && fd >= from && fd >= openMax {
      var fd :| fd in t && fd >= from && fd >= openMax;
      assert fd in brute && fd !in range;
    }
  }

  /** With the limit that `get_open_max` computes they agree as long as nothing at or above it is open; below 1024 nothing need be configured. */
  lemma BruteForceAgreesBelowOpenMax(t: Table, from: int, configured: int)
    ensures ClosedBetween(t, from, OpenMax(configured)) == ClosedFrom(t, from)
            <==> forall fd | fd in t && fd >= from :: fd < OpenMax(configured)
    ensures (forall fd | fd in t :: fd < NR_OPEN) ==> ClosedBetween(t, from, OpenMax(configured)) == ClosedFrom(t, from)
  {
    BruteForceAgrees(t, from, OpenMax(configured));
  }

  /**
   An executor that received a fresh triple of standard descriptors and a
   fresh root directory ends with exactly those four, at 0 to 3.
   */
  lemma ExecutorTableIsClientTable(t: Table, std: seq<int>, chrootFd: int)
    requires Proper(t) && StandardOpen(t) && |std| == 3
    requires forall i | 0 <= i < 3 :: std[i] in t && std[i] >= 3 && std[i] != chrootFd
    requires std[0] != std[1] && std[0] != std[2] && std[1] != std[2]
    requires chrootFd in t && chrootFd >= 3
    ensures var r := ExecutorTable(t, std, -1, chrootFd, None);
            && r.Some? && r.value.chrootFd == 3 && r.value.logFd == -1
            && r.value.table == map[0 := t[std[0]], 1 := t[std[1]], 2 := t[std[2]], 3 := t[chrootFd]]
  {
    assert MovedAll(t, std, 0) == Some(t);
    var u1 := MovedAll(t, std, 1);
    var u2 := MovedAll(t, std, 2);
    var u3 := MovedAll(t, std, 3);
    assert u1 == Some(t[0 := t[std[0]]] - {std[0]});
    assert u2 == Some(u1.value[1 := t[std[1]]] - {std[1]});
    assert u3 == Some(u2.value[2 := t[std[2]]] - {std[2]});
    SanitizeIsExact(u3.value, -1, chrootFd);
    var k := Sanitized(u3.value, -1, chrootFd, None).value;
    assert k.chrootFd == 3 && k.start == 4;
  }

  /** Without received standard descriptors the executor keeps the server's own. */
  lemma ExecutorKeepsServerStdio(t: Table, chrootFd: int)
    requires Proper(t) && StandardOpen(t) && UnsetOrOpen(t, chrootFd)
    ensures var r := ExecutorTable(t, [-1, -1, -1], -1, chrootFd, None);
            && r.Some? && (forall i | 0 <= i < 3 :: i in r.value.table && r.value.table[i] == t[i])
            && StillDenotes(t, chrootFd, r.value.table, r.value.chrootFd)
  {
    assert MovedAll(t, [-1, -1, -1], 1) == Some(t);
    assert MovedAll(t, [-1, -1, -1], 2) == Some(t);
    assert MovedAll(t, [-1, -1, -1], 3) == Some(t);
    SanitizeIsExact(t, -1, chrootFd);
  }

  /** `get_open_max` gives the configured limit, brought between 1024 and the largest `int`. */
  lemma OpenMaxIs(configured: int)
    ensures 1024 <= OpenMax(configured) <= 0x7FFF_FFFF
    ensures 1024 <= configured <= 0x7FFF_FFFF ==> OpenMax(configured) == configured
    ensures configured < 1024 ==> OpenMax(configured) == 1024
    ensures configured > 0x7FFF_FFFF ==> OpenMax(configured) == 0x7FFF_FFFF
  {
  }
}

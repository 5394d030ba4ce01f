/** The log connections: io_log.c. */
module LogRelay {
  import opened Bytes
  import opened Kernel
  import opened Select
  import opened Output

  const NUL: byte := 0
  const NEWLINE: byte := 10
  const RETURN: byte := 13

  /** `strlen`: the length up to the first NUL, or the whole. */
  function Strlen(s: seq<byte>): (n: nat)
    ensures n <= |s|
    ensures forall i | 0 <= i < n :: s[i] != NUL
    ensures n < |s| ==> s[n] == NUL
  {
    if s == [] || s[0] == NUL then 0 else 1 + Strlen(s[1..])
  }

  /** What of one chunk read from a log connection reaches the standard error. */
  function LogLine(chunk: seq<byte>): seq<byte> {
    var text := chunk[..Strlen(chunk)];
    if text == [] || text[|text| - 1] == NEWLINE then text else text + [RETURN, NEWLINE]
  }

  /** It is NUL-free, whole lines, at most two octets longer than the chunk, and the chunk's own text up to its first NUL. */
  lemma LogLineIsText(chunk: seq<byte>)
    ensures var line := LogLine(chunk);
            && |line| <= |chunk| + 2 && NUL !in line
            && (line == [] || line[|line| - 1] == NEWLINE)
            && (line == [] <==> chunk == [] || chunk[0] == NUL)
            && chunk[..Strlen(chunk)] <= line
  {
  }

  /** In full: the text before the first NUL at n, with a carriage return and a newline added exactly if it is not empty and does not end in a newline. */
  lemma LogLineExactly(chunk: seq<byte>, n: nat)
    requires n <= |chunk| && (forall i | 0 <= i < n :: chunk[i] != 0) && (n < |chunk| ==> chunk[n] == 0)
    ensures LogLine(chunk) == chunk[..n] + (if n > 0 && chunk[n - 1] != 10 then [13, 10] else [])
  {
    StrlenIs(chunk, n);
  }

  /** The text of the chunks, one per slot, in slot order. */
  function AllLines(chunks: seq<seq<byte>>): seq<byte> {
    if chunks == [] then [] else AllLines(chunks[..|chunks| - 1]) + LogLine(chunks[|chunks| - 1])
  }

  lemma AllLinesStep(before: seq<byte>, chunks: seq<seq<byte>>, chunk: seq<byte>)
    ensures AllLines(chunks + [chunk]) == AllLines(chunks) + LogLine(chunk)
    ensures before + AllLines(chunks) + LogLine(chunk) == before + AllLines(chunks + [chunk])
  {
    assert (chunks + [chunk])[..|chunks|] == chunks;
  }

  /** Only log connections were read or closed, and only `err` was written. */
  ghost predicate OnlyLoggers(a: Snapshot, b: Snapshot, err: File) {
    && b.owner == a.owner && b.received.Keys == a.received.Keys && b.sent.Keys == a.sent.Keys
    && (forall fd | fd in b.table :: fd in a.table && b.table[fd] == a.table[fd])
    && (forall fd | fd in a.table && a.table[fd] in a.owner && a.owner[a.table[fd]] != Logger :: fd in b.table)
    && (forall f | f in a.received && f in a.owner && a.owner[f] != Logger :: b.received[f] == a.received[f])
    && (forall f | f in a.sent && f != err :: b.sent[f] == a.sent[f])
  }

  /** What becomes of one slot: a ready connection is read once and closed if that gave nothing; any other is left alone. */
  ghost predicate SlotServed(a: Snapshot, b: Snapshot, reading: set<int>, was: int, fd: int, chunk: seq<byte>) {
    if was < 0 then fd == was && chunk == []
    else
      && was in a.table && a.table[was] in a.received && a.table[was] in b.received
      && b.received[a.table[was]] == a.received[a.table[was]] + chunk
      && (chunk != [] ==> was in reading)
      && if was in reading && chunk == [] then fd == -1 && was !in b.table
         else fd == was && was in b.table && b.table[was] == a.table[was]
  }

  /** Live entries denote different files. */
  ghost predicate Distinct(table: map<int, File>, fds: seq<int>) {
    forall i, j | 0 <= i < j < |fds| && fds[i] >= 0 && fds[j] >= 0 ::
      fds[i] in table && fds[j] in table ==> table[fds[i]] != table[fds[j]]
  }

  /** Live entries are open on distinct log connections. */
  ghost predicate Listed(table: map<int, File>, owner: map<File, Owner>, fds: seq<int>) {
    && (forall i | 0 <= i < |fds| && fds[i] >= 0 ::
          fds[i] in table && table[fds[i]] in owner && owner[table[fds[i]]] == Logger)
    && Distinct(table, fds)
  }

  lemma DistinctPut(table: map<int, File>, fds: seq<int>, fd: int, i: nat)
    requires Distinct(table, fds + [fd]) && i <= |fds| && fd >= 0
    ensures i < |fds| ==> Distinct(table, fds[i := fd])
  {
    if i < |fds| {
      var all, put := fds + [fd], fds[i := fd];
      forall a, b | 0 <= a < b < |put| && put[a] >= 0 && put[b] >= 0
        ensures put[a] in table && put[b] in table ==> table[put[a]] != table[put[b]]
      {
        assert all[a] == fds[a] && all[b] == fds[b] && all[|fds|] == fd;
      }
    }
  }

  /** A slot not yet come to. */
  ghost predicate Waiting(a: Snapshot, b: Snapshot, fd: int) {
    fd >= 0 ==>
      && fd in a.table && fd in b.table && b.table[fd] == a.table[fd]
      && a.table[fd] in a.received && a.table[fd] in b.received && b.received[a.table[fd]] == a.received[a.table[fd]]
  }

  /** Only the connection at `fd` was read or closed, and only `err` was written. */
  ghost predicate OneSlot(b: Snapshot, c: Snapshot, fd: int, err: File) {
    && c.owner == b.owner && c.received.Keys == b.received.Keys && c.sent.Keys == b.sent.Keys
    && (c.table == b.table || c.table == b.table - {fd})
    && (forall f | f in b.received && (fd in b.table ==> f != b.table[fd]) :: c.received[f] == b.received[f])
    && (forall f | f in b.sent && f != err :: c.sent[f] == b.sent[f])
  }

  lemma OneSlotIsALogger(b: Snapshot, c: Snapshot, fd: int, err: File)
    requires OneSlot(b, c, fd, err) && fd in b.table && b.table[fd] in b.owner && b.owner[b.table[fd]] == Logger
    ensures OnlyLoggers(b, c, err)
  {
  }

  /** Work on one slot leaves what is known of another as it was. */
  lemma OtherSlotKept(
    a: Snapshot, b: Snapshot, c: Snapshot, reading: set<int>, fd: int, err: File, was: int, now: int,
    chunk: seq<byte>)
    requires OneSlot(b, c, fd, err) && Waiting(a, b, fd) && fd >= 0
    requires was >= 0 ==> was in a.table && a.table[was] != a.table[fd]
    ensures SlotServed(a, b, reading, was, now, chunk) ==> SlotServed(a, c, reading, was, now, chunk)
    ensures Waiting(a, b, was) ==> Waiting(a, c, was)
  {
  }

  lemma OnlyLoggersStart(a: Snapshot, err: File)
    ensures OnlyLoggers(a, a, err)
  {
  }

  lemma OnlyLoggersCompose(a: Snapshot, b: Snapshot, c: Snapshot, err: File)
    requires OnlyLoggers(a, b, err) && OnlyLoggers(b, c, err)
    ensures OnlyLoggers(a, c, err)
  {
  }

  /** `fd_list`; a free slot holds -1. */
  class LogTable {
    var fdList: seq<int>

    ghost predicate Valid(k: System)
      reads this, k`table, k`owner
    {
      Listed(k.table, k.owner, fdList)
    }

    constructor ()
      ensures fdList == []
    {
      fdList := [];
    }

    /** `fd_new`: the first free slot, or a new one. */
    method FdNew(k: System, fd: int) returns (ghost at: nat)
      requires k.Valid() && Valid(k)
      requires fd >= 0 ==> k.Owned(fd, Logger) && Distinct(k.table, fdList + [fd])
      modifies this`fdList
      ensures Valid(k)
      ensures fd < 0 ==> fdList == old(fdList)
      ensures fd >= 0 ==> at <= |old(fdList)| && (at < |old(fdList)| ==> old(fdList[at]) < 0)
      ensures fd >= 0 ==> forall j | 0 <= j < at :: old(fdList[j]) >= 0
      ensures fd >= 0 ==> fdList == if at < |old(fdList)| then old(fdList)[at := fd] else old(fdList) + [fd]
    {
      at := 0;
      if fd < 0 {
        return;
      }
      var i := 0;
      while i < |fdList| && fdList[i] >= 0
        invariant 0 <= i <= |fdList|
        invariant forall j | 0 <= j < i :: fdList[j] >= 0
      {
        i := i + 1;
      }
      at := i;
      DistinctPut(k.table, fdList, fd, i);
      if i == |fdList| {
        fdList := fdList + [fd];
      } else {
        fdList := fdList[i := fd];
      }
    }

    /** `fd_free`: the descriptor is always found, and only its slot is cleared. */
    method FdFree(k: System, fd: int, ghost at: nat)
      requires k.Valid() && Valid(k) && at < |fdList| && fdList[at] == fd >= 0
      modifies this`fdList, k`table
      ensures k.Valid() && Valid(k)
      ensures fdList == old(fdList)[at := -1]
      ensures k.table == old(k.table) - {fd}
    {
      var i := 0;
      while fdList[i] != fd
        invariant 0 <= i <= at
        decreases at - i
      {
        i := i + 1;
      }
      k.Close(fdList[i]);
      fdList := fdList[i := -1];
    }

    /** `fds_add_log`: every live entry, and nothing else. */
    method AddTo(k: System, sel: FdSets)
      requires k.Valid() && Valid(k) && sel.Registrable(k)
      modifies sel`readFds, sel`maxFd
      ensures sel.Registrable(k) && sel.maxFd >= old(sel.maxFd)
      ensures forall fd :: fd in sel.readFds <==> fd in old(sel.readFds) || (fd >= 0 && fd in fdList)
    {
      var i := 0;
      while i < |fdList|
        invariant 0 <= i <= |fdList|
        invariant sel.Registrable(k) && sel.maxFd >= old(sel.maxFd)
        invariant forall fd :: fd in sel.readFds <==> fd in old(sel.readFds) || (fd >= 0 && fd in fdList[..i])
      {
        assert fdList[..i + 1] == fdList[..i] + [fdList[i]];
        assert fdList[i] >= 0 ==> k.Owned(fdList[i], Logger);
        sel.AddRead(fdList[i]);
        i := i + 1;
      }
      assert fdList[..i] == fdList;
    }

    /**
     `copy_log`: one chunk of a connection goes to the standard error as text;
     an error or the end of the file closes the connection. False when the
     program dies writing.
     */
    method CopyLog(k: System, totals: Totals, fd: int, ghost at: nat) returns (ok: bool, ghost chunk: seq<byte>)
      requires k.Valid() && Valid(k) && at < |fdList| && fdList[at] == fd >= 0 && k.Owned(fd, Logger)
      modifies this`fdList, k`table, k`received, k`sent, k`console, k`broken, totals`bytesWritten
      ensures k.Valid() && Valid(k)
      ensures fdList == if chunk == [] then old(fdList)[at := -1] else old(fdList)
      ensures k.table == if chunk == [] then old(k.table) - {fd} else old(k.table)
      ensures |chunk| <= BUFSIZ - 2
      ensures var f := old(k.table[fd]); k.received == old(k.received)[f := old(k.received[f]) + chunk]
      ensures var e := old(k.table[STDERR]); k.sent == old(k.sent)[e := k.sent[e]]
      ensures ok ==> k.sent[old(k.table[STDERR])] == old(k.sent[k.table[STDERR]]) + LogLine(chunk)
      ensures ok ==> totals.bytesWritten - old(totals.bytesWritten) == k.console - old(k.console) == |LogLine(chunk)|
      ensures !ok ==> totals.bytesWritten == old(totals.bytesWritten) && 0 <= k.console - old(k.console) < BUFSIZ
      ensures k.broken <==> old(k.broken) || !ok
    {
      hide Valid, LogLine, System.Valid;
      chunk := [];
      var buf := new byte[BUFSIZ];
      var i := k.Read(fd, buf, buf.Length - 2);
      if i <= 0 {
        AppendNothing(k.received, k.table[fd]);
        AppendNothing(k.sent, k.table[STDERR]);
        LogLineIsText(chunk);
        FdFree(k, fd, at);
        ok := true;
        return;
      }
      chunk := buf[..i];
      assert chunk != [];
      LogLineIsText(chunk);
      var n := Finish(buf, i);
      ok := totals.XWriteAll(k, STDERR, buf, n);
    }

    /** Its middle part, in place: end the text at the first NUL, and with a newline. */
    method Finish(buf: array<byte>, i: nat) returns (n: nat)
      requires i + 2 <= buf.Length
      modifies buf
      ensures n <= i + 2 && buf[..n] == LogLine(old(buf[..i]))
    {
      ghost var chunk := buf[..i];
      buf[i] := NUL;
      n := 0;
      while buf[n] != NUL
        invariant 0 <= n <= i
        invariant forall j | 0 <= j < i :: buf[j] == chunk[j]
        invariant buf[i] == NUL && forall j | 0 <= j < n :: chunk[j] != NUL
        decreases i - n
      {
        n := n + 1;
      }
      StrlenIs(chunk, n);
      assert buf[..n] == chunk[..n];
      if n > 0 && buf[n - 1] != NEWLINE {
        buf[n] := RETURN;
        n := n + 1;
        buf[n] := NEWLINE;
        n := n + 1;
      }
    }

    /**
     `log_handle_select`: one chunk from every connection found ready, in slot
     order; at most a buffer's worth of output each.
     */
    method HandleSelect(k: System, sel: FdSets, totals: Totals) returns (ok: bool, ghost chunks: seq<seq<byte>>)
      requires k.Valid() && Valid(k)
      requires forall i | 0 <= i < |fdList| && fdList[i] >= 0 :: sel.Fresh(k, fdList[i])
      modifies this`fdList, k`table, k`received, k`sent, k`console, k`broken, totals`bytesWritten
      ensures k.Valid() && Valid(k)
      ensures OnlyLoggers(old(k.Snap()), k.Snap(), old(k.table[STDERR]))
      ensures |fdList| == |old(fdList)|
      ensures ok ==> |chunks| == |fdList|
                     && forall i | 0 <= i < |fdList| :: SlotServed(old(k.Snap()), k.Snap(), sel.readFds, old(fdList[i]), fdList[i], chunks[i])
      ensures ok ==> k.sent[old(k.table[STDERR])] == old(k.sent[k.table[STDERR]]) + AllLines(chunks)
      ensures ok ==> totals.bytesWritten - old(totals.bytesWritten) == k.console - old(k.console) == |AllLines(chunks)|
      ensures 0 <= totals.bytesWritten - old(totals.bytesWritten) <= k.console - old(k.console) <= |fdList| * BUFSIZ
      ensures k.broken <==> old(k.broken) || !ok
    {
      hide Valid, System.Valid, LogLine, OnlyLoggers, Waiting, SlotServed;
      StartWaiting(k);
      ghost var was, first, err := fdList, k.Snap(), k.table[STDERR];
      OnlyLoggersStart(first, err);
      assert k.sent[err] == k.sent[err] + AllLines([]);
      chunks := [];
      ok := true;
      var i := 0;
      while i < |fdList|
        invariant 0 <= i <= |fdList| == |was| && |chunks| == i
        invariant k.Valid() && Valid(k)
        invariant OnlyLoggers(first, k.Snap(), err) && STDERR in k.table && k.table[STDERR] == err
        invariant forall j | i <= j < |was| :: fdList[j] == was[j] && Waiting(first, k.Snap(), was[j])
        invariant forall j | 0 <= j < i :: SlotServed(first, k.Snap(), sel.readFds, was[j], fdList[j], chunks[j])
        invariant totals.bytesWritten - old(totals.bytesWritten) == k.console - old(k.console) == |AllLines(chunks)| <= i * BUFSIZ
        invariant k.broken == old(k.broken)
        invariant err in k.sent && k.sent[err] == first.sent[err] + AllLines(chunks)
      {
        ghost var before := k.Snap();
        FreshKept(first, k.Snap(), sel, was[i]);
        ghost var chunk;
        ok, chunk := ServeSlot(k, sel, totals, i);
        Step(first, before, k.Snap(), sel.readFds, was, i, fdList, chunks, chunk, err);
        if old(fdList[i]) < 0 {
          OnlyLoggersStart(before, err);
        }
        OnlyLoggersCompose(first, before, k.Snap(), err);
        AllLinesStep(first.sent[err], chunks, chunk);
        chunks := chunks + [chunk];
        if !ok {
          return;
        }
        i := i + 1;
      }
    }

    /** One turn of its loop. */
    method ServeSlot(k: System, sel: FdSets, totals: Totals, i: nat) returns (ok: bool, ghost chunk: seq<byte>)
      requires k.Valid() && Valid(k) && i < |fdList| && (fdList[i] >= 0 ==> sel.Fresh(k, fdList[i]))
      modifies this`fdList, k`table, k`received, k`sent, k`console, k`broken, totals`bytesWritten
      ensures k.Valid() && Valid(k)
      ensures |fdList| == |old(fdList)| && fdList == old(fdList)[i := fdList[i]]
      ensures SlotServed(old(k.Snap()), k.Snap(), sel.readFds, old(fdList[i]), fdList[i], chunk)
      ensures if old(fdList[i]) < 0 then k.Snap() == old(k.Snap())
              else OneSlot(old(k.Snap()), k.Snap(), old(fdList[i]), old(k.table[STDERR]))
                   && OnlyLoggers(old(k.Snap()), k.Snap(), old(k.table[STDERR]))
      ensures STDERR in k.table && k.table[STDERR] == old(k.table[STDERR]) && k.table[STDERR] in k.sent
      ensures ok ==> k.sent[k.table[STDERR]] == old(k.sent[k.table[STDERR]]) + LogLine(chunk)
      ensures ok ==> totals.bytesWritten - old(totals.bytesWritten) == k.console - old(k.console) == |LogLine(chunk)|
      ensures 0 <= totals.bytesWritten - old(totals.bytesWritten) <= k.console - old(k.console) <= BUFSIZ
      ensures k.broken <==> old(k.broken) || !ok
    {
      hide LogLine, OnlyLoggers;
      ok, chunk := true, [];
      LogLineIsText(chunk);
      if fdList[i] >= 0 {
        assert k.Owned(fdList[i], Logger);
        OneSlotIsALogger(k.Snap(), k.Snap(), fdList[i], k.table[STDERR]);
      }
      var ready := false;
      if fdList[i] >= 0 {
        ready := sel.CanRead(k, fdList[i]);
      }
      if ready {
        ghost var before := k.Snap();
        ok, chunk := CopyLog(k, totals, fdList[i], i);
        LogLineIsText(chunk);
        OneSlotIsALogger(before, k.Snap(), old(fdList[i]), before.table[STDERR]);
      }
    }

    /** `log_handle_new`. */
    method HandleNew(k: System, sel: FdSets, logFd: int)
      requires k.Valid() && Valid(k) && sel.Fresh(k, logFd)
      modifies this`fdList, k`table, k`received, k`sent, k`owner, k`nextFile, k`attempts
      ensures k.Valid() && Valid(k)
      ensures Extends(old(k.Snap()), k.Snap())
      ensures |old(fdList)| <= |fdList| <= |old(fdList)| + 1
      ensures forall i | 0 <= i < |old(fdList)| && old(fdList[i]) >= 0 :: fdList[i] == old(fdList[i])
      ensures forall i | 0 <= i < |old(fdList)| && old(fdList[i]) < 0 && fdList[i] >= 0 ::
                fdList[i] in k.table && k.table[fdList[i]] !in old(k.received)
      ensures logFd < 0 || logFd !in sel.readFds ==>
                k.Snap() == old(k.Snap()) && fdList == old(fdList) && k.attempts == old(k.attempts)
      ensures logFd >= 0 && logFd in sel.readFds ==> k.attempts == old(k.attempts) + 1
      ensures k.nextFile == old(k.nextFile) || k.nextFile == old(k.nextFile) + 1
      ensures k.nextFile == old(k.nextFile) ==> k.Snap() == old(k.Snap()) && fdList == old(fdList)
      ensures k.nextFile > old(k.nextFile) ==>
                exists i | 0 <= i < |fdList| && fdList[i] in k.table :: k.table[fdList[i]] == old(k.nextFile)
      ensures k.table != old(k.table) ==> exists i :: 0 <= i < |fdList| && fdList[i] in k.table && fdList[i] !in old(k.table)
    {
      hide Extends;
      ExtendsStart(k.Snap());
      var ready := sel.CanRead(k, logFd);
      if !ready {
        return;
      }
      var fd := k.Open(Logger);
      if fd >= 0 {
        forall i | 0 <= i < |fdList| && fdList[i] >= 0
          ensures k.Owned(fdList[i], Logger) && k.table[fdList[i]] != k.table[fd]
        {
          assert old(k.Owned(fdList[i], Logger));
        }
        assert k.Owned(fd, Logger);
      }
      ghost var at := FdNew(k, fd);
      assert fd >= 0 ==> fdList[at] == fd;
    }

    lemma EmptyIsValid(k: System)
      requires fdList == []
      ensures Valid(k)
    {
    }

    lemma StartWaiting(k: System)
      requires k.Valid() && Valid(k)
      ensures STDERR in k.table && k.table[STDERR] in k.sent && Distinct(k.table, fdList)
      ensures forall i | 0 <= i < |fdList| :: Waiting(k.Snap(), k.Snap(), fdList[i])
      ensures forall i | 0 <= i < |fdList| && fdList[i] >= 0 :: fdList[i] in k.table
    {
      forall i | 0 <= i < |fdList|
        ensures Waiting(k.Snap(), k.Snap(), fdList[i]) && (fdList[i] >= 0 ==> fdList[i] in k.table)
      {
        assert fdList[i] >= 0 ==> k.Owned(fdList[i], Logger);
      }
    }
  }

  lemma FreshKept(a: Snapshot, b: Snapshot, sel: FdSets, fd: int)
    requires Waiting(a, b, fd) && sel.FreshAt(a.table, fd)
    ensures fd >= 0 ==> sel.FreshAt(b.table, fd)
  {
  }

  /** The loop's facts about all slots, one turn on. */
  lemma Step(
    a: Snapshot, b: Snapshot, c: Snapshot, reading: set<int>, was: seq<int>, i: nat, now: seq<int>,
    chunks: seq<seq<byte>>, chunk: seq<byte>, err: File)
    requires i == |chunks| < |was| == |now| && Distinct(a.table, was)
    requires if was[i] < 0 then c == b else OneSlot(b, c, was[i], err)
    requires SlotServed(b, c, reading, was[i], now[i], chunk)
    requires forall j | i <= j < |was| :: Waiting(a, b, was[j])
    requires forall j | 0 <= j < i :: SlotServed(a, b, reading, was[j], now[j], chunks[j])
    requires forall j | 0 <= j < |was| && was[j] >= 0 :: was[j] in a.table
    ensures forall j | i < j < |was| :: Waiting(a, c, was[j])
    ensures forall j | 0 <= j <= i :: SlotServed(a, c, reading, was[j], now[j], (chunks + [chunk])[j])
  {
    hide Waiting, SlotServed, OneSlot;
    SlotReached(a, b, c, reading, was[i], now[i], chunk);
    forall j | 0 <= j < |was| && j != i
      ensures j < i ==> SlotServed(a, c, reading, was[j], now[j], chunks[j])
      ensures j > i ==> Waiting(a, c, was[j])
    {
      if was[i] >= 0 {
        OtherSlotKept(a, b, c, reading, was[i], err, was[j], now[j], if j < i then chunks[j] else []);
      }
    }
  }

  lemma SlotReached(a: Snapshot, b: Snapshot, c: Snapshot, reading: set<int>, was: int, now: int, chunk: seq<byte>)
    requires Waiting(a, b, was) && SlotServed(b, c, reading, was, now, chunk)
    ensures SlotServed(a, c, reading, was, now, chunk)
  {
  }

  lemma {:induction false} StrlenIs(s: seq<byte>, n: nat)
    requires n <= |s| && (forall j | 0 <= j < n :: s[j] != NUL) && (n < |s| ==> s[n] == NUL)
    ensures Strlen(s) == n
  {
    if n > 0 {
      StrlenIs(s[1..], n - 1);
    }
  }
}

/** The I/O relay between a job's client and its processes: parent.c. */
module Parent {
  import opened Bytes
  import opened Kernel
  import opened Select
  import opened Output
  import opened X11Relay
  import opened LogRelay
  import opened Ledger
  import opened ChildLife

  const EOT: byte := 4

  /** Work limits; zero stands for none. */
  datatype Limits = Limits(bytesRead: nat, bytesWritten: nat)

  datatype Step = Continue | Stop | Die(code: nat)

  /**
   A round as it went: how `pselect` ended, if it was called; what the kernel
   reported ready; what was relayed of the child's two streams and of each log
   connection; what was put into the input buffer, and what a write left in
   it; and whether the terminal, ready for input, took none.
   */
  datatype Turn = Turn(
    poll: Option<PollEnd>, reading: set<int>, writing: set<int>,
    e: seq<byte>, o: seq<byte>, typed: seq<byte>, left: nat, chunks: seq<seq<byte>>, refused: bool)

  const NO_TURN := Turn(None, {}, {}, [], [], [], 0, [], false)

  /**
   What a round does to the run: it ends it if nothing is left to poll, if
   `pselect` fails other than by a signal, or if the terminal takes no input;
   it dies of a timeout, or of an output that takes less than it is given; and
   in all other cases the run goes on.
   */
  function StepOf(t: Turn, broken: bool): Step {
    match t.poll
    case None => Stop
    case Some(Errored) => Stop
    case Some(Interrupted) => Continue
    case Some(TimedOut) => Die(143)
    case Some(Ready) => if broken then Die(1) else if t.refused then Stop else Continue
  }

  /** The account after log lines were written. */
  function Told(acc: Account, lines: seq<byte>): Account {
    acc.(errors := acc.errors + lines, all := acc.all + lines)
  }

  /** The account after a round: standard error first, then standard output, then the log connections. */
  function Booked(acc: Account, t: Turn): Account {
    var streams := Copies(Copies(acc, STDERR, t.e), STDOUT, t.o);
    Told(streams.(typed := streams.typed + t.typed, recounted := streams.recounted + t.left), AllLines(t.chunks))
  }

  /** The account of a whole run. */
  function BookedAll(turns: seq<Turn>): Account {
    if turns == [] then NOTHING else Booked(BookedAll(turns[..|turns| - 1]), turns[|turns| - 1])
  }

  lemma BookedTyping(acc: Account, t: Turn)
    ensures |Booked(acc, t).typed| == |acc.typed| + |t.typed|
  {
  }

  lemma NothingBooked(acc: Account)
    ensures forall poll :: Booked(acc, NO_TURN.(poll := poll)) == acc
    ensures Booked(acc, NO_TURN) == acc && Told(acc, []) == acc
  {
    NothingCopied(acc);
    assert acc.typed + [] == acc.typed;
  }

  /** The round was interrupted, or it was served and the terminal took what it could. */
  predicate GoesOn(t: Turn) {
    t.poll == Some(Interrupted) || (t.poll == Some(Ready) && !t.refused)
  }

  predicate AllGoOn(turns: seq<Turn>) {
    forall t | t in turns :: GoesOn(t)
  }

  /** Nothing was polled, or `pselect` failed, or the terminal refused its input. */
  predicate Ends(t: Turn) {
    t.poll == None || t.poll == Some(Errored) || (t.poll == Some(Ready) && t.refused)
  }

  /** What a turn does to the run, cause by cause. */
  lemma StepFacts(t: Turn, broken: bool)
    requires broken ==> t.poll == Some(Ready)
    ensures var step := StepOf(t, broken);
            && (step == Die(1) <==> broken) && (step == Die(143) <==> t.poll == Some(TimedOut))
            && (step.Die? ==> step == Die(1) || step == Die(143))
            && (step.Continue? <==> !broken && GoesOn(t))
            && (step.Stop? <==> !broken && Ends(t))
  {
  }

  /** How the calls of `pselect` ended, over a run. */
  function PollsOf(turns: seq<Turn>): seq<PollEnd> {
    if turns == [] then []
    else PollsOf(turns[..|turns| - 1]) + (match turns[|turns| - 1].poll case None => [] case Some(p) => [p])
  }

  /** What the relay knows of its own descriptors and counters. */
  datatype Face = Face(
    out: int, err: int, masterRead: int, write: int, ctl: int,
    masterAvail: nat, bytesRead: nat, bytesWritten: nat)

  /** An output stream's turn: read only if ready, and given up exactly if that gave nothing. */
  predicate Heeded(reading: set<int>, was: int, now: int, chunk: seq<byte>) {
    && (chunk != [] ==> was >= 0 && was in reading)
    && now == if was >= 0 && was in reading && chunk == [] then -1 else was
  }

  /** The child's streams in a round: everything ready is served, everything else is left alone. */
  predicate StreamsServed(a: Face, b: Face, t: Turn) {
    && Heeded(t.reading, a.err, b.err, t.e) && Heeded(t.reading, a.out, b.out, t.o)
    && InputServed(t.reading, t.writing, a, b, t.left, t.typed)
  }

  /** Input in a round: what is pending goes out if it can; if then nothing is, input is read if there is any. */
  predicate InputServed(reading: set<int>, writing: set<int>, a: Face, b: Face, left: nat, typed: seq<byte>) {
    && (if a.masterAvail > 0 && a.write >= 0 && a.write in writing
        then b.bytesRead == a.bytesRead + a.masterAvail && left < a.masterAvail
        else b.bytesRead == a.bytesRead && left == 0)
    && (typed != [] ==> a.masterAvail == 0 && left == 0 && a.masterRead >= 0 && a.masterRead in reading)
    && (a.masterAvail == 0 && a.masterRead >= 0 && a.masterRead in reading ==> typed != [] || b.masterRead == -1)
    && (b.masterRead == a.masterRead || (b.masterRead == -1 && a.masterRead in reading))
  }

  /** Input was pending, the terminal was ready for it, and took nothing. */
  predicate Refused(writing: set<int>, a: Face, b: Face) {
    a.masterAvail > 0 && a.write >= 0 && a.write in writing && b.bytesRead == a.bytesRead
  }

  lemma RefusedByTerminal(writing: set<int>, a: Face, b: Face)
    requires Refused(writing, a, b)
    ensures a.write >= 0
  {
  }

  lemma SameStreams(a: Face, b: Face, c: Face, t: Turn, chunks: seq<seq<byte>>)
    requires StreamsServed(a, b, t) && c == b.(ctl := c.ctl, bytesWritten := c.bytesWritten)
    ensures StreamsServed(a, c, t.(chunks := chunks))
  {
  }

  /** Calls that a listener found ready gives rise to, at least. */
  function Knocks(reading: set<int>, fd: int): nat {
    if fd >= 0 && fd in reading then 1 else 0
  }

  /** A whole round. */
  predicate Turned(a: Face, b: Face, t: Turn) {
    && StreamsServed(a, b, t)
    && b.bytesWritten == a.bytesWritten + |t.e| + |t.o| + |AllLines(t.chunks)|
    && b.ctl == if a.ctl >= 0 && a.ctl in t.reading then -1 else a.ctl
  }

  /** What a round makes of what the relay knows, unless the program dies in it or the terminal refuses. */
  predicate Passed(a: Face, b: Face, t: Turn) {
    if t.poll != Some(Ready) then b == a
    else if t.refused then true
    else Turned(a, b, t)
  }

  /**
   What the relay knew before each round of a run, from a, and after the last,
   which is b. No round begins at a limit or beyond it; zero stands for none.
   */
  predicate Trace(a: Face, faces: seq<Face>, turns: seq<Turn>, b: Face, limits: Limits) {
    && |faces| == |turns| + 1 && faces[0] == a && faces[|turns|] == b
    && (forall i | 0 <= i < |turns| :: Passed(faces[i], faces[i + 1], turns[i]))
    && (limits.bytesRead > 0 ==> forall i | 0 <= i < |turns| :: faces[i].bytesRead < limits.bytesRead)
    && (limits.bytesWritten > 0 ==> forall i | 0 <= i < |turns| :: faces[i].bytesWritten < limits.bytesWritten)
  }

  /** A run that has gone on so far: its trace, its account and its polls are those of its turns. */
  predicate Went(
    a: Face, faces: seq<Face>, turns: seq<Turn>, b: Face, limits: Limits, acc: Account, first: seq<PollEnd>, polls: seq<PollEnd>)
  {
    && Trace(a, faces, turns, b, limits) && AllGoOn(turns)
    && acc == BookedAll(turns) && polls == first + PollsOf(turns)
  }

  lemma WentNowhere(a: Face, limits: Limits, polls: seq<PollEnd>)
    ensures Went(a, [a], [], a, limits, NOTHING, polls, polls)
  {
  }

  /** One more turn, which may be the last. */
  lemma WentFurther(
    a: Face, faces: seq<Face>, turns: seq<Turn>, b: Face, limits: Limits, acc: Account, first: seq<PollEnd>, polls: seq<PollEnd>,
    t: Turn, c: Face)
    requires Went(a, faces, turns, b, limits, acc, first, polls)
    requires limits.bytesRead == 0 || b.bytesRead < limits.bytesRead
    requires limits.bytesWritten == 0 || b.bytesWritten < limits.bytesWritten
    ensures var all, more := turns + [t], polls + (if t.poll.None? then [] else [t.poll.value]);
            && all[..|all| - 1] == turns && AllGoOn(turns) && all[|all| - 1] == t && more == first + PollsOf(all)
            && BookedAll(all) == Booked(acc, t) && (Passed(b, c, t) ==> Trace(a, faces + [c], all, c, limits))
            && (Passed(b, c, t) && GoesOn(t) ==> Went(a, faces + [c], all, c, limits, Booked(acc, t), first, more))
  {
    hide Passed, Booked, GoesOn;
    assert (turns + [t])[..|turns|] == turns;
  }

  lemma WentSoFar(
    a: Face, faces: seq<Face>, turns: seq<Turn>, b: Face, limits: Limits, acc: Account, first: seq<PollEnd>, polls: seq<PollEnd>)
    requires Went(a, faces, turns, b, limits, acc, first, polls)
    ensures Trace(a, faces, turns, b, limits) && AllGoOn(turns) && (turns != [] ==> AllGoOn(turns[..|turns| - 1]))
    ensures acc == BookedAll(turns) && polls == first + PollsOf(turns)
  {
    hide Passed, Booked, GoesOn;
  }

  /** Apart from these, every descriptor still denotes what it denoted. */
  ghost predicate OthersStay(a: Snapshot, b: Snapshot, closed: set<int>) {
    forall fd | fd in a.table && fd !in closed :: fd in b.table && b.table[fd] == a.table[fd]
  }

  lemma AllStay(a: Snapshot)
    ensures OthersStay(a, a, {})
  {
  }

  lemma OneClosed(a: Snapshot, b: Snapshot, c: Snapshot, fd: int)
    requires OthersStay(a, b, {}) && c.table == b.table - {fd}
    ensures OthersStay(a, c, {fd})
  {
  }

  lemma ExtendingCloses(a: Snapshot, b: Snapshot)
    requires Extends(a, b)
    ensures OthersStay(a, b, {})
  {
  }

  /** Where a run is when it is looked at. */
  datatype Outcome = Running | Returned(code: nat) | Died(code: nat)

  /** Read into the buffer, putting an EOT there at the end of the file; zero stands for an error. */
  method ReadTerminal(k: System, fd: int, buf: array<byte>) returns (avail: nat, ghost chunk: seq<byte>)
    requires k.Valid() && fd in k.table && buf.Length == BUFSIZ
    modifies k`received, buf
    ensures k.Valid() && avail <= BUFSIZ
    ensures var f := k.table[fd]; f in old(k.received) && k.received == old(k.received)[f := old(k.received[f]) + chunk]
    ensures buf[..avail] == if chunk != [] then chunk else if avail > 0 then [EOT] else []
  {
    chunk := [];
    avail := 0;
    AppendNothing(k.received, k.table[fd]);
    var n := k.Read(fd, buf, buf.Length);
    if n > 0 {
      avail, chunk := n, buf[..n];
    } else if n == 0 {
      buf[0] := EOT;
      avail := 1;
    }
  }

  /** Receive a listening socket: nothing may come, or it may not listen (and is then closed or not), or come with a cookie that is no good. */
  method TakeListener(k: System, differs: bool) returns (fd: int)
    requires k.Valid()
    modifies k`table, k`received, k`sent, k`owner, k`nextFile, k`attempts
    ensures k.Valid() && Extends(old(k.Snap()), k.Snap()) && k.attempts == old(k.attempts) + 1
    ensures fd >= -1 && (fd >= 0 ==> differs && On(k.Snap(), fd, Listener))
  {
    hide Extends;
    fd := k.Open(Listener);
    var closes: bool, listens: bool :| true;
    if fd >= 0 && (closes || (listens && !differs)) {
      CloseExtends(old(k.Snap()), k.Snap(), fd);
      k.Close(fd);
    }
    if closes || !listens || !differs {
      fd := -1;
    }
  }

  /** The child is behind a terminal, or behind two pipes, none of them used before; neither are the client's outputs. */
  ghost predicate Startable(
    s: Snapshot, usePty: bool, ptyFd: int, pipeOut: int, pipeErr: int, logFd: int, ctlFd: int)
  {
    && (if usePty then ptyFd >= 0 && On(s, ptyFd, Child) && Unused(s, ptyFd)
        else
          && pipeOut >= 0 && On(s, pipeOut, Child) && Unused(s, pipeOut)
          && pipeErr >= 0 && On(s, pipeErr, Child) && Unused(s, pipeErr) && s.table[pipeErr] != s.table[pipeOut])
    && On(s, logFd, Listener) && On(s, ctlFd, Control) && Unused(s, STDOUT) && Unused(s, STDERR)
  }

  ghost predicate Unused(s: Snapshot, fd: int) {
    fd in s.table && s.table[fd] in s.received && s.table[fd] in s.sent && s.received[s.table[fd]] == s.sent[s.table[fd]] == []
  }

  /** The files of `io_std` at the start. */
  ghost function FirstFiles(s: Snapshot, usePty: bool, ptyFd: int, pipeOut: int, pipeErr: int): Files
    requires if usePty then ptyFd in s.table else pipeOut in s.table && pipeErr in s.table
  {
    if usePty then Files(s.table[ptyFd], s.table[ptyFd], s.table[ptyFd], true)
    else Files(s.table[pipeOut], s.table[pipeErr], s.table[pipeOut], false)
  }

  /** Its descriptors. */
  function FirstFds(usePty: bool, ptyFd: int, pipeOut: int, pipeErr: int, logFd: int, ctlFd: int): Descs {
    if usePty then Descs(STDIN, ptyFd, -1, ptyFd, logFd, ctlFd, -1)
    else Descs(-1, pipeOut, pipeErr, -1, logFd, ctlFd, -1)
  }

  /** A relay that has done nothing has its books in order. */
  lemma FirstBooks(k: System, usePty: bool, ptyFd: int, pipeOut: int, pipeErr: int, logFd: int, ctlFd: int)
    requires k.Valid() && Startable(k.Snap(), usePty, ptyFd, pipeOut, pipeErr, logFd, ctlFd)
    ensures var s, files := k.Snap(), FirstFiles(k.Snap(), usePty, ptyFd, pipeOut, pipeErr);
            && files.tty == usePty
            && Placed(s, FirstFds(usePty, ptyFd, pipeOut, pipeErr, logFd, ctlFd), files)
            && Books(s, files, NOTHING, [], 0)
  {
  }

  lemma NothingCopied(acc: Account)
    ensures Copies(acc, STDOUT, []) == acc && Copies(acc, STDERR, []) == acc
  {
    assert acc.out + [] == acc.out && acc.err + [] == acc.err && acc.errors + [] == acc.errors && acc.all + [] == acc.all;
  }

  lemma NothingRefilled(b: Snapshot, c: Snapshot, list: seq<int>)
    ensures Refilled(b, c, list, list)
  {
  }

  /** The account in the steps in which it comes about. */
  lemma StreamsBooked(acc: Account, t: Turn)
    requires t.chunks == []
    ensures var streams := Copies(Copies(acc, STDERR, t.e), STDOUT, t.o);
            Booked(acc, t) == streams.(typed := streams.typed + t.typed, recounted := streams.recounted + t.left)
    ensures t.typed == [] ==>
              Booked(acc, t) == Copies(Copies(acc, STDERR, t.e), STDOUT, t.o).(recounted := acc.recounted + t.left)
  {
    var streams := Copies(Copies(acc, STDERR, t.e), STDOUT, t.o);
    NothingBooked(streams.(typed := streams.typed + t.typed, recounted := streams.recounted + t.left));
    assert streams.typed + [] == streams.typed;
  }

  lemma BookedInTwo(acc: Account, t: Turn, chunks: seq<seq<byte>>)
    requires t.chunks == []
    ensures Booked(acc, t.(chunks := chunks)) == Told(Booked(acc, t), AllLines(chunks))
  {
    StreamsBooked(acc, t);
  }

  /** Slots in use are left alone; free ones may be filled with new connections. */
  twostate predicate SlotsKept(before: seq<IoX11?>, new after: seq<IoX11?>) {
    && |after| >= |before|
    && (forall i | 0 <= i < |before| && before[i] != null :: after[i] == before[i])
    && (forall i | 0 <= i < |before| && before[i] == null && after[i] != null :: fresh(after[i]))
  }

  class Relay {
    const k: System
    const x11: X11Table
    const logs: LogTable
    const totals: Totals
    const child: Child
    const limits: Limits
    /** The saved cookie, if the job has one that can be read. */
    const x11Key: Option<seq<byte>>
    const masterBuf: array<byte>
    const slaveBuf: array<byte>

    var sigalrmArrived: bool
    var sigwinchArrived: bool
    var masterReadFd: int
    const masterWriteErrFd: int
    var slaveReadOutFd: int
    var slaveReadErrFd: int
    const slaveWriteFd: int
    var masterAvail: nat
    const logFd: int
    var ctlFd: int
    var x11Fd: int
    var saved: seq<byte>
    var fake: seq<byte>

    ghost const files: Files
    /** What has gone through so far. */
    ghost var account: Account

    ghost function Fds(): Descs
      reads this`masterReadFd, this`slaveReadOutFd, this`slaveReadErrFd, this`ctlFd, this`x11Fd
    {
      Descs(masterReadFd, slaveReadOutFd, slaveReadErrFd, slaveWriteFd, logFd, ctlFd, x11Fd)
    }

    ghost predicate Shape()
      reads this`masterAvail, this`slaveReadErrFd, x11`repr
    {
      && masterBuf.Length == slaveBuf.Length == BUFSIZ && masterBuf != slaveBuf && masterAvail <= BUFSIZ
      && x11.repr !! {this, k, x11, logs, totals, child, masterBuf, slaveBuf}
      && (slaveReadErrFd >= 0 ==> masterWriteErrFd == STDERR)
    }

    /** The two cookies differ as soon as there can be connections to rewrite. */
    ghost predicate Cookies()
      reads this`saved, this`fake, this`x11Fd, this`ctlFd, x11`all
    {
      && |saved| == |fake|
      && (x11Fd >= 0 || x11.all != {} ==> saved != fake)
      && (ctlFd >= 0 ==> x11Fd < 0 && x11.all == {})
    }

    ghost predicate Ledger()
      reads this, k`table, k`received, k`sent, k`owner, k`console, masterBuf, totals
    {
      && masterAvail <= masterBuf.Length
      && Placed(k.Snap(), Fds(), files)
      && Books(k.Snap(), files, account, masterBuf[..masterAvail], totals.bytesRead)
      && totals.bytesWritten == k.console
    }

    ghost predicate Valid()
      reads this, k, x11, x11.repr, logs, totals, child, masterBuf, slaveBuf
    {
      && Shape() && Cookies() && Ledger()
      && k.Valid() && x11.Valid(k, saved, fake) && logs.Valid(k) && child.Valid()
    }

    /**
     The first part of `handle_parent`, with the program's global tables as
     they are at its start. The output descriptors are the client's; the child
     is behind a terminal, or behind two pipes.
     */
    constructor (
      k: System, x11: X11Table, logs: LogTable, totals: Totals, child: Child, limits: Limits, x11Key: Option<seq<byte>>,
      usePty: bool, ptyFd: int, pipeOut: int, pipeErr: int, logFd: int, ctlFd: int)
      requires k.Valid() && k.console == 0 && child.Valid()
      requires x11.list == [] && x11.all == {} && x11.repr == {} && logs.fdList == []
      requires totals.bytesRead == totals.bytesWritten == 0
      requires Startable(k.Snap(), usePty, ptyFd, pipeOut, pipeErr, logFd, ctlFd)
      ensures Valid() && fresh(masterBuf) && fresh(slaveBuf)
      ensures this.k == k && this.x11 == x11 && this.logs == logs && this.totals == totals && this.child == child
      ensures this.limits == limits && files.tty == usePty && account == NOTHING
    {
      this.k, this.x11, this.logs, this.totals, this.child := k, x11, logs, totals, child;
      this.limits, this.x11Key, this.logFd, this.ctlFd := limits, x11Key, logFd, ctlFd;
      masterBuf := new byte[BUFSIZ];
      slaveBuf := new byte[BUFSIZ];
      sigalrmArrived, sigwinchArrived := false, false;
      masterReadFd := if usePty then STDIN else -1;
      masterWriteErrFd := if usePty then -1 else STDERR;
      slaveReadOutFd := if usePty then ptyFd else pipeOut;
      slaveReadErrFd := if usePty then -1 else pipeErr;
      slaveWriteFd := if usePty then ptyFd else -1;
      masterAvail := 0;
      x11Fd := -1;
      saved, fake := [], [];
      account := NOTHING;
      files := FirstFiles(k.Snap(), usePty, ptyFd, pipeOut, pipeErr);
      new;
      hide Placed, Books, On, Startable, FirstFiles, X11Table.Valid, System.Valid, LogTable.Valid, Child.Valid;
      x11.EmptyIsValid(k, saved, fake);
      logs.EmptyIsValid(k);
      assert masterBuf[..0] == [];
      FirstBooks(k, usePty, ptyFd, pipeOut, pipeErr, logFd, ctlFd);
    }

    // -------------------------------------------------------------- one round

    /** One of the child's two output streams is read once, and all of it written. */
    method CopyOutput(fd: int, to: int) returns (eof: bool, ok: bool, ghost chunk: seq<byte>)
      requires Valid() && fd >= 0
      requires (fd == slaveReadOutFd && to == STDOUT) || (fd == slaveReadErrFd && to == STDERR)
      modifies this`account, k`received, k`sent, k`console, k`broken, totals`bytesWritten, slaveBuf
      ensures ok ==> Valid() && |chunk| <= BUFSIZ && (eof <==> chunk == [])
      ensures ok ==> account == Copies(old(account), to, chunk) && LoggersKept(old(k.Snap()), k.Snap())
      ensures ok ==> forall c | c in x11.all :: c.Octets(k) == old(c.Octets(k))
      ensures ok ==> k.Snap() == Copied(old(k.Snap()), fd, to, chunk)
      ensures ok ==> totals.bytesWritten - old(totals.bytesWritten) == k.console - old(k.console) == |chunk|
      ensures !ok ==> old(totals.bytesWritten) == totals.bytesWritten && k.console <= old(k.console) + BUFSIZ
      ensures k.broken <==> old(k.broken) || !ok
    {
      hide Placed, Books, X11Table.Valid, LogTable.Valid, Child.Valid, System.Valid, ConnectionsKept, Copied, Copies;
      hide LoggersKept;
      OutputOpen(fd, to);
      eof, ok, chunk := totals.Copy(k, fd, to, slaveBuf);
      if ok {
        AfterCopy(old(k.Snap()), Fds(), files, fd, to, chunk, account, masterBuf[..masterAvail], totals.bytesRead);
        account := Copies(account, to, chunk);
        x11.Undisturbed(k);
      }
    }

    lemma OutputOpen(fd: int, to: int)
      requires Ledger() && fd >= 0
      requires (fd == slaveReadOutFd && to == STDOUT) || (fd == slaveReadErrFd && to == STDERR)
      ensures fd in k.table && (to == STDOUT || to == STDERR)
    {
    }

    /** The child's standard error; false when the program dies writing. */
    method ChildError(sel: FdSets) returns (ok: bool, ghost chunk: seq<byte>)
      requires Valid() && sel.registered == k.table
      modifies this`slaveReadErrFd, this`account, k`received, k`sent, k`console, k`broken, totals`bytesWritten, slaveBuf
      ensures ok ==> Valid() && |chunk| <= BUFSIZ && totals.bytesWritten - old(totals.bytesWritten) == k.console - old(k.console) == |chunk|
      ensures ok ==> k.Snap() == Copied(old(k.Snap()), old(slaveReadErrFd), STDERR, chunk)
      ensures ok ==> forall c | c in x11.all :: c.Octets(k) == old(c.Octets(k))
      ensures ok ==> account == Copies(old(account), STDERR, chunk) && LoggersKept(old(k.Snap()), k.Snap())
      ensures ok ==> Heeded(sel.readFds, old(slaveReadErrFd), slaveReadErrFd, chunk)
      ensures !ok ==> totals.bytesWritten == old(totals.bytesWritten) && k.console <= old(k.console) + BUFSIZ
      ensures k.broken <==> old(k.broken) || !ok
    {
      hide Placed, Books, X11Table.Valid, LogTable.Valid, Child.Valid, System.Valid, LoggersKept;
      LoggersKeptStart(k.Snap());
      NothingCopied(account);
      ok, chunk := true, [];
      var eof := false;
      if slaveReadErrFd >= 0 {
        OutputOpen(slaveReadErrFd, STDERR);
      }
      var ready := sel.CanRead(k, slaveReadErrFd);
      if ready {
        eof, ok, chunk := CopyOutput(slaveReadErrFd, STDERR);
      }
      if ok && eof {
        WithoutOutput(k.Snap(), Fds(), files);
        slaveReadErrFd := -1;
      }
    }

    /** The same for its standard output. */
    method ChildOutput(sel: FdSets) returns (ok: bool, ghost chunk: seq<byte>)
      requires Valid() && sel.registered == k.table
      modifies this`slaveReadOutFd, this`account, k`received, k`sent, k`console, k`broken, totals`bytesWritten, slaveBuf
      ensures ok ==> Valid() && |chunk| <= BUFSIZ && totals.bytesWritten - old(totals.bytesWritten) == k.console - old(k.console) == |chunk|
      ensures ok ==> k.Snap() == Copied(old(k.Snap()), old(slaveReadOutFd), STDOUT, chunk)
      ensures ok ==> forall c | c in x11.all :: c.Octets(k) == old(c.Octets(k))
      ensures ok ==> account == Copies(old(account), STDOUT, chunk) && LoggersKept(old(k.Snap()), k.Snap())
      ensures ok ==> Heeded(sel.readFds, old(slaveReadOutFd), slaveReadOutFd, chunk)
      ensures !ok ==> totals.bytesWritten == old(totals.bytesWritten) && k.console <= old(k.console) + BUFSIZ
      ensures k.broken <==> old(k.broken) || !ok
    {
      hide Placed, Books, X11Table.Valid, LogTable.Valid, Child.Valid, System.Valid, LoggersKept;
      LoggersKeptStart(k.Snap());
      NothingCopied(account);
      ok, chunk := true, [];
      var eof := false;
      if slaveReadOutFd >= 0 {
        OutputOpen(slaveReadOutFd, STDOUT);
      }
      var ready := sel.CanRead(k, slaveReadOutFd);
      if ready {
        eof, ok, chunk := CopyOutput(slaveReadOutFd, STDOUT);
      }
      if ok && eof {
        WithoutOutput(k.Snap(), Fds(), files);
        slaveReadOutFd := -1;
      }
    }

    /** Pending octets go to the child's terminal. All that were pending are counted, however few of them it took. */
    method ChildInput(sel: FdSets) returns (step: Step, ghost left: nat)
      requires Valid() && sel.registered == k.table
      modifies this`masterAvail, this`account, k`sent, k`console, k`broken, totals`bytesRead, masterBuf
      ensures Valid() && !step.Die? && LoggersKept(old(k.Snap()), k.Snap())
      ensures account == old(account).(recounted := old(account).recounted + left)
      ensures left == if masterAvail < old(masterAvail) then masterAvail else 0
      ensures step.Stop? <==> Refused(sel.writeFds, old(Look()), Look())
      ensures step.Stop? ==> masterAvail == old(masterAvail) && left == 0
      ensures k.console == old(k.console) && k.broken == old(k.broken)
      ensures forall c | c in x11.all :: c.Octets(k) == old(c.Octets(k))
      ensures masterAvail <= old(masterAvail)
      ensures masterAvail == old(masterAvail) ==> k.Snap() == old(k.Snap()) && totals.bytesRead == old(totals.bytesRead)
      ensures masterAvail < old(masterAvail) ==>
                slaveWriteFd >= 0 && slaveWriteFd in sel.writeFds && totals.bytesRead == old(totals.bytesRead) + old(masterAvail)
      ensures step.Continue? && old(masterAvail) > 0 && slaveWriteFd >= 0 && slaveWriteFd in sel.writeFds ==>
                masterAvail < old(masterAvail)
    {
      hide Ledger, X11Table.Valid, LogTable.Valid, Child.Valid, LoggersKept;
      LoggersKeptStart(k.Snap());
      step, left := Continue, 0;
      if masterAvail > 0 {
        if slaveWriteFd >= 0 {
          TerminalOpen();
        }
        var ready := sel.CanWrite(k, slaveWriteFd);
        if ready {
          step := Deliver();
          left := if step.Continue? then masterAvail else 0;
        }
      }
    }

    /** The write itself. */
    method Deliver() returns (step: Step)
      requires Valid() && masterAvail > 0 && slaveWriteFd >= 0
      modifies this`masterAvail, this`account, k`sent, k`console, k`broken, totals`bytesRead, masterBuf
      ensures Valid() && k.console == old(k.console) && k.broken == old(k.broken) && LoggersKept(old(k.Snap()), k.Snap())
      ensures account == old(account).(recounted := old(account).recounted + if step.Continue? then masterAvail else 0)
      ensures forall c | c in x11.all :: c.Octets(k) == old(c.Octets(k))
      ensures step == Continue || step == Stop
      ensures step.Stop? ==> masterAvail == old(masterAvail) && k.Snap() == old(k.Snap()) && totals.bytesRead == old(totals.bytesRead)
      ensures step.Continue? ==> masterAvail < old(masterAvail) && totals.bytesRead == old(totals.bytesRead) + old(masterAvail)
      ensures step.Continue? ==> k.Given(files.terminal) == old(k.Given(files.terminal)) + old(masterAvail) - masterAvail
    {
      hide Placed, Books, X11Table.Valid, LogTable.Valid, Child.Valid, System.Valid, Cookies, ConnectionsKept, LoggersKept, IoX11.Octets;
      LoggersKeptStart(k.Snap());
      TerminalOpen();
      ghost var pending, before := masterBuf[..masterAvail], k.Snap();
      var n := Drain(k, slaveWriteFd, masterBuf, masterAvail);
      step := if n <= 0 then Stop else Continue;
      if n > 0 {
        AfterTyping(before, Fds(), files, account, pending, n, totals.bytesRead);
        x11.Undisturbed(k);
        assert pending[..n] == old(masterBuf[..n]) && pending[n..] == old(masterBuf[n..masterAvail]);
        Count(n, before, pending);
      } else {
        assert masterBuf[..masterAvail] == pending;
      }
    }

    /** What follows a successful write: all that was pending is counted, what was not taken stays. */
    method Count(n: nat, ghost before: Snapshot, ghost pending: seq<byte>)
      requires Shape() && Cookies() && logs.Valid(k) && child.Valid() && k.Valid() && totals.bytesWritten == k.console
      requires x11.Valid(k, saved, fake) && slaveWriteFd >= 0 && |pending| == masterAvail && 0 < n <= masterAvail
      requires Placed(before, Fds(), files) && Books(before, files, account, pending, totals.bytesRead)
      requires files.terminal in before.sent && masterBuf[..masterAvail - n] == pending[n..]
      requires var t := files.terminal; k.Snap() == before.(sent := before.sent[t := before.sent[t] + pending[..n]])
      modifies this`masterAvail, this`account, totals`bytesRead
      ensures Valid() && LoggersKept(before, k.Snap())
      ensures masterAvail == old(masterAvail) - n && totals.bytesRead == old(totals.bytesRead) + old(masterAvail)
      ensures account == old(account).(recounted := old(account).recounted + masterAvail)
    {
      hide Placed, Books, X11Table.Valid, LogTable.Valid, Child.Valid, System.Valid, ConnectionsKept, LoggersKept;
      AfterTyping(before, Fds(), files, account, pending, n, totals.bytesRead);
      totals.bytesRead := totals.bytesRead + masterAvail;
      masterAvail := masterAvail - n;
      account := account.(recounted := account.recounted + masterAvail);
    }

    lemma TerminalOpen()
      requires Ledger() && k.Valid() && slaveWriteFd >= 0
      ensures slaveWriteFd in k.table && k.table[slaveWriteFd] == files.terminal && slaveWriteFd > 2
      ensures files.terminal in k.sent
    {
    }

    /** Read from the client's terminal, only into an empty buffer; its end becomes an EOT for the child. */
    method TerminalInput(sel: FdSets) returns (ghost typed: seq<byte>)
      requires Valid() && sel.registered == k.table
      modifies this`masterAvail, this`masterReadFd, this`account, k`received, masterBuf
      ensures Valid()
      ensures forall c | c in x11.all :: c.Octets(k) == old(c.Octets(k))
      ensures old(masterAvail) > 0 || old(masterReadFd) < 0 || old(masterReadFd) !in sel.readFds ==>
                masterAvail == old(masterAvail) && k.Snap() == old(k.Snap()) && typed == []
      ensures account == old(account).(typed := old(account).typed + typed) && LoggersKept(old(k.Snap()), k.Snap())
      ensures typed == if old(masterAvail) == 0 then masterBuf[..masterAvail] else []
      ensures masterAvail <= masterBuf.Length
      ensures masterReadFd == old(masterReadFd) || (masterReadFd == -1 && old(masterReadFd) in sel.readFds)
      ensures old(masterAvail) == 0 && old(masterReadFd) >= 0 && old(masterReadFd) in sel.readFds ==>
                masterAvail > 0 || masterReadFd == -1
    {
      hide Placed, Books, X11Table.Valid, LogTable.Valid, Child.Valid, ConnectionsKept;
      hide LoggersKept;
      LoggersKeptStart(k.Snap());
      typed := [];
      assert account.typed == account.typed + [];
      if masterAvail > 0 {
        return;
      }
      ghost var before := k.Snap();
      if masterReadFd >= 0 {
        InputOpen();
      }
      var ready := sel.CanRead(k, masterReadFd);
      if !ready {
        assert masterBuf[..0] == [];
        return;
      }
      Receive();
      typed := masterBuf[..masterAvail];
    }

    /** The read itself. */
    method Receive()
      requires Valid() && masterAvail == 0 && masterReadFd >= 0
      modifies this`masterAvail, this`masterReadFd, this`account, k`received, masterBuf
      ensures Valid()
      ensures forall c | c in x11.all :: c.Octets(k) == old(c.Octets(k))
      ensures account == old(account).(typed := old(account).typed + masterBuf[..masterAvail]) && LoggersKept(old(k.Snap()), k.Snap())
      ensures masterAvail > 0 || masterReadFd == -1
      ensures masterReadFd == old(masterReadFd) || masterReadFd == -1
    {
      hide Placed, Books, X11Table.Valid, LogTable.Valid, Child.Valid, System.Valid, Cookies, ConnectionsKept, LoggersKept;
      ghost var before := k.Snap();
      InputOpen();
      assert masterBuf[..masterAvail] == [];
      ghost var chunk;
      masterAvail, chunk := ReadTerminal(k, masterReadFd, masterBuf);
      AfterReading(before, Fds(), files, account, totals.bytesRead, chunk, masterBuf[..masterAvail]);
      x11.Undisturbed(k);
      Enter();
      if masterAvail == 0 {
        GiveUpTerminal();
      }
    }

    /** What was read is accounted. */
    ghost method Enter()
      requires Shape() && Cookies() && logs.Valid(k) && child.Valid() && k.Valid() && totals.bytesWritten == k.console
      requires x11.Valid(k, saved, fake) && Placed(k.Snap(), Fds(), files)
      requires var more := masterBuf[..masterAvail];
               Books(k.Snap(), files, account.(typed := account.typed + more), more, totals.bytesRead)
      modifies this`account
      ensures Valid() && account == old(account).(typed := old(account).typed + masterBuf[..masterAvail])
    {
      hide Placed, Books, X11Table.Valid, LogTable.Valid, Child.Valid, System.Valid;
      account := account.(typed := account.typed + masterBuf[..masterAvail]);
    }

    method GiveUpTerminal()
      requires Valid() && masterAvail == 0
      modifies this`masterReadFd
      ensures Valid() && masterReadFd == -1
    {
      hide Placed, Books, X11Table.Valid, LogTable.Valid, Child.Valid, System.Valid, Cookies;
      WithoutOutput(k.Snap(), Fds(), files);
      masterReadFd := -1;
    }

    lemma InputOpen()
      requires Ledger() && k.Valid() && masterReadFd >= 0
      ensures masterReadFd in k.table && k.table[masterReadFd] in k.received
    {
    }

    /** The descriptors still to be asked about denote the files that were registered. */
    ghost predicate Watching(sel: FdSets)
      reads this, k`table, logs, sel
    {
      && sel.FreshAt(k.table, logFd) && sel.FreshAt(k.table, x11Fd) && sel.FreshAt(k.table, ctlFd)
      && forall i | 0 <= i < |logs.fdList| :: sel.FreshAt(k.table, logs.fdList[i])
    }

    lemma StillWatching(sel: FdSets, before: Snapshot, fds: seq<int>)
      requires sel.FreshAt(before.table, logFd) && sel.FreshAt(before.table, x11Fd) && sel.FreshAt(before.table, ctlFd)
      requires forall i | 0 <= i < |fds| :: sel.FreshAt(before.table, fds[i])
      requires Same(before, k.Snap(), logFd) && Same(before, k.Snap(), x11Fd) && Same(before, k.Snap(), ctlFd)
      requires SameAll(before, k.Snap(), fds)
      ensures sel.FreshAt(k.table, logFd) && sel.FreshAt(k.table, x11Fd) && sel.FreshAt(k.table, ctlFd)
      ensures forall i | 0 <= i < |fds| :: sel.FreshAt(k.table, fds[i])
    {
    }

    lemma AllWatched(sel: FdSets)
      requires Ledger() && logs.Valid(k) && sel.registered == k.table
      ensures Watching(sel) && sel.NoneOpened(k)
    {
    }

    /** A connection that was in this slot has had its turn, and is still in the slot exactly if it is alive. */
    ghost predicate OneServed(
      reading: set<int>, writing: set<int>, c: IoX11, before: Meter, after: Meter, list: seq<IoX11?>, i: nat)
    {
      i < |list| && c.Served(reading, writing, before, after, list[i] == c)
    }

    /** The X11 connections' turn. */
    method X11Service(sel: FdSets)
      requires Valid() && sel.registered == k.table && sel !in x11.repr
      modifies x11`list, x11.repr, k`table, k`received, k`sent, k`console, k`broken
      ensures Valid() && Watching(sel) && k.console == old(k.console) && k.broken == old(k.broken)
      ensures OnlyConnections(old(k.Snap()), k.Snap()) && LoggersKept(old(k.Snap()), k.Snap())
      ensures x11.repr == old(x11.repr) && x11.all == old(x11.all)
      ensures k.polls == old(k.polls) && k.attempts == old(k.attempts)
      ensures |x11.list| == |old(x11.list)|
      ensures forall i | 0 <= i < |x11.list| && x11.list[i] != null :: x11.list[i] == old(x11.list[i])
      ensures forall i | 0 <= i < |x11.list| && old(x11.list[i]) != null :: old(x11.list[i]) in x11.all
      ensures forall i | 0 <= i < |x11.list| && old(x11.list[i]) != null ::
                OneServed(sel.readFds, sel.writeFds, old(x11.list[i]), old(x11.list[i].Octets(k)), old(x11.list[i]).Octets(k), x11.list, i)
    {
      hide IoX11.Served, IoX11.Octets;
      hide Placed, Books, X11Table.Valid, Listed, OnlyConnections, LoggersKept, FdSets.FreshAt, FdSets.NoneOpened, Child.Valid, System.Valid;
      ghost var before := k.Snap();
      AllWatched(sel);
      x11.ListedAreKnown(k, saved, fake);
      x11.HandleSelect(k, sel, saved, fake);
      AfterConnections(before, k.Snap(), Fds(), files, logs.fdList);
      BooksAfterConnections(before, k.Snap(), files, account, masterBuf[..masterAvail], totals.bytesRead);
      StillWatching(sel, before, logs.fdList);
    }

    /** A new one. */
    method X11Accept(sel: FdSets)
      requires Valid() && Watching(sel)
      modifies x11`list, x11`all, x11`repr, k`table, k`received, k`sent, k`owner, k`nextFile, k`attempts
      ensures Valid() && Watching(sel)
      ensures Extends(old(k.Snap()), k.Snap()) && fresh(x11.repr - old(x11.repr)) && x11.repr >= old(x11.repr)
      ensures k.attempts >= old(k.attempts) + Knocks(sel.readFds, x11Fd)
      ensures k.nextFile == old(k.nextFile) + 2 <==> x11.all != old(x11.all)
      ensures SlotsKept(old(x11.list), x11.list) && x11.all >= old(x11.all) && LoggersKept(old(k.Snap()), k.Snap())
      ensures forall c | c in old(x11.all) :: c.Octets(k) == old(c.Octets(k))
    {
      hide Placed, Books, X11Table.Valid, Listed, Extends, LoggersKept, FdSets.FreshAt, Child.Valid, System.Valid, ConnectionsKept;
      ghost var before := k.Snap();
      x11.HandleNew(k, sel, x11Fd, saved, fake);
      AfterExtends(before, k.Snap(), Fds(), files, logs.fdList);
      BooksAfterExtends(before, k.Snap(), files, account, masterBuf[..masterAvail], totals.bytesRead);
      StillWatching(sel, before, logs.fdList);
    }

    /** The log connections' turn. */
    method LogService(sel: FdSets) returns (ok: bool, ghost chunks: seq<seq<byte>>)
      requires Valid() && Watching(sel)
      modifies this`account, logs`fdList, k`table, k`received, k`sent, k`console, k`broken, totals`bytesWritten
      ensures ok ==> Valid() && sel.FreshAt(k.table, logFd) && sel.FreshAt(k.table, ctlFd)
      ensures forall c | c in old(x11.all) :: c.Octets(k) == old(c.Octets(k))
      ensures ok ==> totals.bytesWritten == old(totals.bytesWritten) + |AllLines(chunks)|
      ensures ok ==> account == Told(old(account), AllLines(chunks))
      ensures ok ==> AllHeard(old(k.Snap()), k.Snap(), sel.readFds, old(logs.fdList), logs.fdList, chunks)
      ensures |logs.fdList| == |old(logs.fdList)|
      ensures totals.bytesWritten <= old(totals.bytesWritten) + |logs.fdList| * BUFSIZ
      ensures k.console <= old(k.console) + |logs.fdList| * BUFSIZ
      ensures k.broken <==> old(k.broken) || !ok
    {
      hide Placed, Books, X11Table.Valid, Listed, OnlyLoggers, SlotServed, AllHeard, AllLines, FdSets.FreshAt, Child.Valid, System.Valid, ConnectionsKept;
      ghost var before := k.Snap();
      logs.StartWaiting(k);
      ok, chunks := logs.HandleSelect(k, sel, totals);
      AfterLoggers(before, k.Snap(), Fds(), files);
      if ok {
        BooksAfterLoggers(before, k.Snap(), files, account, AllLines(chunks), masterBuf[..masterAvail], totals.bytesRead);
        account := Told(account, AllLines(chunks));
        ServedAreHeard(before, k.Snap(), sel.readFds, old(logs.fdList), logs.fdList, chunks, before.table[STDERR]);
      }
      x11.Undisturbed(k);
      assert SameAll(before, k.Snap(), []);
      StillWatching(sel, before, []);
    }

    /** A new one. */
    method LogAccept(sel: FdSets)
      requires Valid() && sel.FreshAt(k.table, logFd) && sel.FreshAt(k.table, ctlFd)
      modifies logs`fdList, k`table, k`received, k`sent, k`owner, k`nextFile, k`attempts
      ensures Valid() && sel.FreshAt(k.table, ctlFd)
      ensures k.attempts == old(k.attempts) + Knocks(sel.readFds, logFd)
      ensures k.nextFile > old(k.nextFile) ==>
                exists i | 0 <= i < |logs.fdList| && logs.fdList[i] in k.table :: k.table[logs.fdList[i]] == old(k.nextFile)
      ensures forall c | c in old(x11.all) :: c.Octets(k) == old(c.Octets(k))
      ensures Extends(old(k.Snap()), k.Snap()) && |logs.fdList| >= |old(logs.fdList)|
      ensures LoggersKept(old(k.Snap()), k.Snap()) && Refilled(old(k.Snap()), k.Snap(), old(logs.fdList), logs.fdList)
    {
      hide LoggersKept;
      hide Placed, Books, X11Table.Valid, Extends, FdSets.FreshAt, Child.Valid, System.Valid, ConnectionsKept;
      ghost var before, fds := k.Snap(), logs.fdList;
      logs.HandleNew(k, sel, logFd);
      AfterExtends(before, k.Snap(), Fds(), files, fds);
      BooksAfterExtends(before, k.Snap(), files, account, masterBuf[..masterAvail], totals.bytesRead);
      x11.Undisturbed(k);
      StillFresh(sel, before, ctlFd);
    }

    lemma StillFresh(sel: FdSets, before: Snapshot, fd: int)
      requires sel.FreshAt(before.table, fd) && Same(before, k.Snap(), fd)
      ensures sel.FreshAt(k.table, fd)
    {
    }

    /** `handle_x11_ctl`: receive the fake cookie and the listening socket; the cookies must differ. */
    method HandleX11Ctl() returns (fd: int)
      requires Valid() && ctlFd >= 0
      modifies this`saved, this`fake, k`table, k`received, k`sent, k`owner, k`nextFile, k`attempts
      ensures Valid() && fd >= -1 && LoggersKept(old(k.Snap()), k.Snap())
      ensures OthersStay(old(k.Snap()), k.Snap(), {})
      ensures k.attempts == old(k.attempts) + if x11Key.Some? then 1 else 0
      ensures fd >= 0 ==> saved != fake && x11Key == Some(saved) && On(k.Snap(), fd, Listener)
      ensures x11Key.None? ==> fd == -1
    {
      hide Placed, Books, X11Table.Valid, LogTable.Valid, Child.Valid, System.Valid, LoggersKept;
      if x11Key.None? {
        LoggersKeptStart(k.Snap());
        return -1;
      }
      var key := x11Key.value;
      var received: seq<byte> :| |received| == |key|;
      fd := ReceiveListener(received != key);
      ghost var saved0, fake0 := saved, fake;
      if received == key {
        saved, fake := [], [];
      } else {
        saved, fake := key, received;
      }
      x11.NoConnections(k, saved0, fake0, saved, fake);
    }

    /** Its descriptor: refused if it does not listen (and then closed or not), and closed if the cookie is no good. */
    method ReceiveListener(differs: bool) returns (fd: int)
      requires Valid()
      modifies k`table, k`received, k`sent, k`owner, k`nextFile, k`attempts
      ensures Valid() && fd >= -1 && LoggersKept(old(k.Snap()), k.Snap())
      ensures OthersStay(old(k.Snap()), k.Snap(), {}) && k.attempts == old(k.attempts) + 1
      ensures forall c | c in old(x11.all) :: c.Octets(k) == old(c.Octets(k))
      ensures fd >= 0 ==> differs && On(k.Snap(), fd, Listener)
    {
      hide Placed, Books, X11Table.Valid, Listed, Extends, LoggersKept, Child.Valid, System.Valid, ConnectionsKept;
      ghost var before := k.Snap();
      fd := TakeListener(k, differs);
      AfterExtends(before, k.Snap(), Fds(), files, logs.fdList);
      BooksAfterExtends(before, k.Snap(), files, account, masterBuf[..masterAvail], totals.bytesRead);
      ExtendingCloses(before, k.Snap());
      x11.Undisturbed(k);
    }

    /** The control connection's turn: it speaks once, and is closed. */
    method ControlRound(sel: FdSets)
      requires Valid() && sel.FreshAt(k.table, ctlFd)
      modifies this`saved, this`fake, this`x11Fd, this`ctlFd, k`table, k`received, k`sent, k`owner, k`nextFile, k`attempts
      ensures Valid() && LoggersKept(old(k.Snap()), k.Snap())
      ensures OthersStay(old(k.Snap()), k.Snap(), if ctlFd == old(ctlFd) then {} else {old(ctlFd)})
      ensures forall c | c in old(x11.all) :: c.Octets(k) == old(c.Octets(k))
      ensures ctlFd == if old(ctlFd) >= 0 && old(ctlFd) in sel.readFds then -1 else old(ctlFd)
      ensures ctlFd >= 0 ==> x11Fd == old(x11Fd)
      ensures k.attempts == old(k.attempts) + if ctlFd != old(ctlFd) && x11Key.Some? then 1 else 0
      ensures x11Fd != old(x11Fd) && x11Fd >= 0 ==> x11Key == Some(saved) && saved != fake
    {
      hide Valid, LoggersKept, OthersStay;
      LoggersKeptStart(k.Snap());
      AllStay(k.Snap());
      var ready := sel.CanRead(k, ctlFd);
      if ready {
        NoneYet();
        var fd := HandleX11Ctl();
        ghost var middle := k.Snap();
        CloseControl(fd);
        LoggersKeptComposes(old(k.Snap()), middle, k.Snap());
        OneClosed(old(k.Snap()), middle, k.Snap(), old(ctlFd));
      }
    }

    method CloseControl(fd: int)
      requires Valid() && ctlFd >= 0 && fd >= -1 && On(k.Snap(), fd, Listener) && (fd >= 0 ==> saved != fake)
      modifies this`x11Fd, this`ctlFd, k`table
      ensures Valid() && x11Fd == fd && ctlFd == -1
      ensures k.table == old(k.table) - {old(ctlFd)} && LoggersKept(old(k.Snap()), k.Snap())
    {
      hide Placed, Books, X11Table.Valid, Listed, Child.Valid, System.Valid, ConnectionsKept, LoggersKept;
      WithoutControl(k.Snap(), Fds(), files, fd, logs.fdList, account, masterBuf[..masterAvail], totals.bytesRead);
      ControlIsNotStandard();
      x11Fd := fd;
      k.Close(ctlFd);
      ctlFd := -1;
      x11.Undisturbed(k);
    }

    lemma NoneYet()
      requires Valid() && ctlFd >= 0
      ensures x11.all == {}
    {
    }

    lemma ControlIsNotStandard()
      requires Placed(k.Snap(), Fds(), files) && k.Valid() && ctlFd >= 0
      ensures ctlFd > 2
    {
    }

    /** What is polled for reading, apart from the X11 connections; input and listeners only while the child lives. */
    ghost predicate Watched(fd: int)
      reads this`slaveReadOutFd, this`slaveReadErrFd, this`ctlFd, this`x11Fd, this`masterAvail, this`masterReadFd
      reads logs`fdList, child`pid
    {
      (fd >= 0 && (fd == slaveReadOutFd || fd == slaveReadErrFd || fd in logs.fdList)) || LiveOnly(fd)
    }

    /** Everything that is polled for reading: the above, and the X11 connections with an empty buffer. */
    ghost predicate PolledToRead(fd: int)
      reads this`slaveReadOutFd, this`slaveReadErrFd, this`ctlFd, this`x11Fd, this`masterAvail, this`masterReadFd
      reads logs`fdList, child`pid, x11`list, set i | 0 <= i < |x11.list| :: x11.list[i]
    {
      Watched(fd) || exists i | 0 <= i < |x11.list| && x11.list[i] != null :: x11.list[i].WantsRead(fd)
    }

    /** Everything that is polled for writing: the terminal with input pending, and the X11 connections with some. */
    ghost predicate PolledToWrite(fd: int)
      reads this`masterAvail, child`pid, x11`list, set i | 0 <= i < |x11.list| :: x11.list[i]
    {
      || (fd == slaveWriteFd && masterAvail > 0 && child.pid != 0)
      || exists i | 0 <= i < |x11.list| && x11.list[i] != null :: x11.list[i].WantsWrite(fd)
    }

    /** The child is gone, and nothing is to be polled. */
    ghost predicate Quiet()
      reads this`slaveReadOutFd, this`slaveReadErrFd, this`ctlFd, this`x11Fd, this`masterAvail, this`masterReadFd
      reads logs`fdList, child`pid, x11`list, set i | 0 <= i < |x11.list| :: x11.list[i]
    {
      child.pid == 0 && forall fd :: !PolledToRead(fd) && !PolledToWrite(fd)
    }

    /** The terminal is not polled while input is pending, and no other descriptor has its number. */
    lemma TerminalNotPolled()
      requires Valid() && masterAvail > 0 && masterReadFd >= 0
      ensures !PolledToRead(masterReadFd)
    {
      hide Books, IoX11.Relayed;
      forall i | 0 <= i < |x11.list| && x11.list[i] != null
        ensures !x11.list[i].WantsRead(masterReadFd)
      {
        x11.Known(k, x11.list[i], saved, fake);
        x11.list[i].NotStdio(k);
      }
      forall i | 0 <= i < |logs.fdList| && logs.fdList[i] >= 0
        ensures logs.fdList[i] != masterReadFd
      {
        assert k.Owned(logs.fdList[i], Logger);
      }
    }

    /** The child's output and the log connections. */
    method RegisterOutput(sel: FdSets)
      requires Valid() && sel.readFds == sel.writeFds == {} && sel.maxFd == 0
      modifies sel`readFds, sel`maxFd
      ensures sel.Registrable(k)
      ensures forall fd :: fd in sel.readFds <==>
                fd >= 0 && (fd == slaveReadOutFd || fd == slaveReadErrFd || fd in logs.fdList)
    {
      hide Books, X11Table.Valid, LogTable.Valid, System.Valid;
      sel.AddRead(slaveReadOutFd);
      sel.AddRead(slaveReadErrFd);
      logs.AddTo(k, sel);
    }

    /** Input and listeners, if the child lives. */
    method RegisterInput(sel: FdSets)
      requires Ledger() && sel.Registrable(k)
      modifies sel`readFds, sel`writeFds, sel`maxFd
      ensures sel.Registrable(k)
      ensures forall fd :: fd in sel.readFds <==> fd in old(sel.readFds) || LiveOnly(fd)
      ensures sel.writeFds == old(sel.writeFds) + (if child.pid != 0 && masterAvail > 0 && slaveWriteFd >= 0 then {slaveWriteFd} else {})
      ensures child.pid == 0 ==> sel.maxFd == old(sel.maxFd) && sel.readFds == old(sel.readFds)
      ensures sel.readFds >= old(sel.readFds) && sel.writeFds >= old(sel.writeFds)
    {
      hide Ledger, FdSets.Registrable;
      if child.pid != 0 {
        if masterAvail > 0 {
          AddOpenWrite(sel, slaveWriteFd);
        } else {
          AddOpenRead(sel, masterReadFd);
        }
        AddOpenRead(sel, logFd);
        AddOpenRead(sel, ctlFd);
        AddOpenRead(sel, x11Fd);
      }
    }

    /** `fds_add_fd` on one of this relay's own descriptors. */
    method AddOpenRead(sel: FdSets, fd: int)
      requires Ledger() && sel.Registrable(k)
      requires fd == masterReadFd || fd == logFd || fd == ctlFd || fd == x11Fd
      modifies sel`readFds, sel`maxFd
      ensures sel.Registrable(k)
      ensures sel.readFds == old(sel.readFds) + (if fd >= 0 then {fd} else {})
    {
      hide Placed, Books;
      InputsOpen();
      sel.AddRead(fd);
    }

    method AddOpenWrite(sel: FdSets, fd: int)
      requires Ledger() && sel.Registrable(k) && fd == slaveWriteFd
      modifies sel`writeFds, sel`maxFd
      ensures sel.Registrable(k)
      ensures sel.writeFds == old(sel.writeFds) + (if fd >= 0 then {fd} else {})
    {
      hide Placed, Books;
      InputsOpen();
      sel.AddWrite(fd);
    }

    lemma InputsOpen()
      requires Ledger()
      ensures forall fd | fd >= 0 && (fd == slaveWriteFd || fd == masterReadFd || fd == logFd || fd == ctlFd || fd == x11Fd) ::
                fd in k.table
    {
    }

    /** None of the descriptors polled regardless of the child is a standard one. */
    lemma AboveStandard(sel: FdSets)
      requires Valid() && sel.Registrable(k)
      requires forall fd | fd in sel.readFds ::
                || Watched(fd)
                || exists i | 0 <= i < |x11.list| && x11.list[i] != null :: x11.list[i].WantsRead(fd)
      requires forall fd | fd in sel.writeFds ::
                exists i | 0 <= i < |x11.list| && x11.list[i] != null :: x11.list[i].WantsWrite(fd)
      ensures child.pid == 0 ==> (sel.maxFd <= 1 <==> sel.readFds == {} && sel.writeFds == {})
    {
      hide Books, IoX11.Relayed;
      forall i | 0 <= i < |x11.list| && x11.list[i] != null
        ensures x11.list[i].masterFd > 2 && x11.list[i].slaveFd > 2
      {
        x11.Known(k, x11.list[i], saved, fake);
        x11.list[i].NotStdio(k);
      }
      forall fd | child.pid == 0 && (fd in sel.readFds || fd in sel.writeFds)
        ensures fd > 2
      {
        if fd in sel.readFds && Watched(fd) {
          assert fd == slaveReadOutFd || fd == slaveReadErrFd || k.Owned(fd, Logger);
        }
      }
    }

    /** Polled for reading, apart from the child's output, while the child lives. */
    ghost predicate LiveOnly(fd: int)
      reads this`ctlFd, this`x11Fd, this`masterAvail, this`masterReadFd, child`pid
    {
      child.pid != 0 && fd >= 0 && (fd == logFd || fd == ctlFd || fd == x11Fd || (masterAvail == 0 && fd == masterReadFd))
    }

    /** The first part of `handle_io`. It gives up exactly when the child is gone and nothing is left to poll. */
    method Register(sel: FdSets) returns (idle: bool)
      requires Valid() && sel.readFds == sel.writeFds == {} && sel.maxFd == 0 && sel !in x11.repr
      modifies sel`readFds, sel`writeFds, sel`maxFd
      ensures sel.Registrable(k)
      ensures idle <==> child.pid == 0 && sel.readFds == {} && sel.writeFds == {}
      ensures idle <==> Quiet()
      ensures forall fd | fd >= 0 && (fd == slaveReadOutFd || fd == slaveReadErrFd || fd in logs.fdList) :: fd in sel.readFds
      ensures forall fd | child.pid != 0 && fd >= 0 && (fd == logFd || fd == ctlFd || fd == x11Fd) :: fd in sel.readFds
      ensures child.pid != 0 && masterAvail == 0 && masterReadFd >= 0 ==> masterReadFd in sel.readFds
      ensures forall fd | fd in sel.readFds :: PolledToRead(fd) && fd in k.table
      ensures forall fd | fd in sel.writeFds :: PolledToWrite(fd) && fd in k.table
      ensures masterAvail > 0 && masterReadFd >= 0 ==> masterReadFd !in sel.readFds
      ensures masterAvail > 0 && child.pid != 0 && slaveWriteFd >= 0 ==> slaveWriteFd in sel.writeFds
      ensures forall i | 0 <= i < |x11.list| && x11.list[i] != null :: x11.list[i].Polled(sel.readFds, sel.writeFds)
    {
      hide Ledger, X11Table.Streams, LogTable.Valid, Child.Valid, System.Valid, IoX11.Polled, IoX11.WantsRead, IoX11.WantsWrite, FdSets.Registrable;
      RegisterOutput(sel);
      x11.AddTo(k, sel);
      AboveStandard(sel);
      ghost var reading, writing := sel.readFds, sel.writeFds;
      RegisterInput(sel);
      forall i | 0 <= i < |x11.list| && x11.list[i] != null
        ensures x11.list[i].Polled(sel.readFds, sel.writeFds)
      {
        PolledMore(x11.list[i], reading, writing, sel.readFds, sel.writeFds);
      }
      AllOpen(sel);
      if masterAvail > 0 && masterReadFd >= 0 {
        TerminalNotPolled();
      }
      idle := child.pid == 0 && sel.maxFd <= 1;
      NothingPolled(sel);
    }

    lemma NothingPolled(sel: FdSets)
      requires Valid()
      requires forall fd | Watched(fd) :: fd in sel.readFds
      requires forall fd | fd in sel.readFds :: PolledToRead(fd)
      requires forall fd | fd in sel.writeFds :: PolledToWrite(fd)
      requires forall i | 0 <= i < |x11.list| && x11.list[i] != null :: x11.list[i].Polled(sel.readFds, sel.writeFds)
      ensures child.pid == 0 ==>
                (sel.readFds == {} && sel.writeFds == {} <==> forall fd :: !PolledToRead(fd) && !PolledToWrite(fd))
    {
      hide Books, IoX11.Relayed;
      forall i | 0 <= i < |x11.list| && x11.list[i] != null
        ensures x11.list[i].masterFd > 2 && x11.list[i].slaveFd > 2
      {
        x11.Known(k, x11.list[i], saved, fake);
        x11.list[i].NotStdio(k);
      }
      forall fd | child.pid == 0
        ensures PolledToRead(fd) ==> fd in sel.readFds
        ensures PolledToWrite(fd) ==> fd in sel.writeFds
      {
        if PolledToRead(fd) && !Watched(fd) {
          var i :| 0 <= i < |x11.list| && x11.list[i] != null && x11.list[i].WantsRead(fd);
          assert fd > 2 && x11.list[i].Polled(sel.readFds, sel.writeFds);
        }
        if PolledToWrite(fd) {
          var i :| 0 <= i < |x11.list| && x11.list[i] != null && x11.list[i].WantsWrite(fd);
          assert fd > 2 && x11.list[i].Polled(sel.readFds, sel.writeFds);
        }
      }
      if child.pid == 0 && sel.readFds != {} {
        var fd := Member(sel.readFds);
        assert PolledToRead(fd);
      }
      if child.pid == 0 && sel.writeFds != {} {
        var fd := Member(sel.writeFds);
        assert PolledToWrite(fd);
      }
    }

    lemma AllOpen(sel: FdSets)
      requires sel.Registrable(k)
      ensures forall fd | fd in sel.readFds || fd in sel.writeFds :: fd in k.table
    {
    }

    /** `xselect`; the only place in a round where signals are let in. */
    method Poll(sel: FdSets) returns (rc: int, interrupted: bool)
      requires Valid() && sel.Registrable(k) && sel !in x11.repr
      modifies this`sigalrmArrived, this`sigwinchArrived, child, k`polls, sel`readFds, sel`writeFds, sel`registered
      ensures k.polls == old(k.polls) + [
                if rc > 0 then Ready else if rc == 0 then TimedOut else if interrupted then Interrupted else Errored]
      ensures Valid() && sel.registered == k.table && rc >= -1 && (old(sigalrmArrived) ==> sigalrmArrived)
      ensures sel.readFds <= old(sel.readFds) && sel.writeFds <= old(sel.writeFds)
      ensures child.Valid()
      ensures child.ends == old(child.ends) || (old(child.ends) == [] && child.ends == [Reaped])
    {
      hide Placed, Books, X11Table.Valid, LogTable.Valid, System.Valid, Child.Valid, FdSets.Registrable;
      rc, interrupted := sel.Wait(k);
      var alarm: bool, winch: bool :| true;
      sigalrmArrived := sigalrmArrived || alarm;
      sigwinchArrived := sigwinchArrived || winch;
      child.Deliver();
    }

    /** A limit is exceeded: the child is forgotten, and the program leaves with the code of a termination. */
    method LimitExceeded() returns (step: Step)
      requires Valid()
      modifies child
      ensures Valid() && child.Valid() && child.pid == 0 && step == Die(128 + SIGTERM)
      ensures child.ends == if old(child.ends) == [] then [Forgotten] else old(child.ends)
      ensures |child.ends| == 1
    {
      hide Ledger, X11Table.Valid, LogTable.Valid, System.Valid, Cookies;
      child.Forget();
      step := Die(128 + SIGTERM);
    }

    /** A change of the client's window size is passed on. */
    method TakeWinch()
      requires Valid()
      modifies this`sigwinchArrived
      ensures Valid() && child.Valid() && !sigwinchArrived
      ensures Quiet() <==> old(Quiet())
    {
      hide Placed, Books, X11Table.Valid, LogTable.Valid, System.Valid, Child.Valid;
      sigwinchArrived := false;
    }

    ghost function Look(): Face
      reads this, totals
    {
      Face(slaveReadOutFd, slaveReadErrFd, masterReadFd, slaveWriteFd, ctlFd, masterAvail, totals.bytesRead, totals.bytesWritten)
    }

    /**
     `handle_io`: one round. It changes no file, or it serves all that was
     ready and nothing else: the child's streams, the input, each X11 and each
     log connection, and the control connection. The account records exactly
     what went through.
     */
    method HandleIo() returns (step: Step, ghost t: Turn)
      requires Valid() && !k.broken && LimitsOk()
      modifies this, k, x11, x11.repr, logs, totals, child, masterBuf, slaveBuf
      ensures !step.Die? ==> Valid() && account == Booked(old(account), t)
      ensures step == StepOf(t, k.broken) && (k.broken ==> t.poll == Some(Ready))
      ensures t.poll.None? <==> old(Quiet())
      ensures k.polls == old(k.polls) + (if t.poll.None? then [] else [t.poll.value])
      ensures t.poll != Some(Ready) ==> t == NO_TURN.(poll := t.poll) && k.Snap() == old(k.Snap())
      ensures !k.broken ==> Passed(old(Look()), Look(), t)
      ensures !step.Die? && t.poll == Some(Ready) ==> (t.refused <==> Refused(t.writing, old(Look()), Look()))
      ensures t.refused ==>
                masterAvail == old(masterAvail) && t.typed == [] && k.Given(files.terminal) == old(k.Given(files.terminal))
      ensures forall fd | fd in t.reading :: old(PolledToRead(fd)) && fd in old(k.table)
      ensures forall fd | fd in t.writing :: old(PolledToWrite(fd)) && fd in old(k.table)
      ensures step.Continue? && t.poll == Some(Ready) ==>
                && Turned(old(Look()), Look(), t)
                && AllHeard(old(k.Snap()), k.Snap(), t.reading, old(logs.fdList), logs.fdList, t.chunks)
                && k.attempts >= old(k.attempts) + Knocks(t.reading, old(x11Fd)) + Knocks(t.reading, logFd)
      ensures step.Continue? && t.poll == Some(Ready) ==> forall i | 0 <= i < |old(x11.list)| && old(x11.list[i]) != null ::
                OneServed(t.reading, t.writing, old(x11.list[i]), old(x11.list[i].Octets(k)), old(x11.list[i]).Octets(k), x11.list, i)
      ensures step == Die(128 + SIGTERM) ==> |child.ends| == 1
      ensures child.Valid() && (child.ends == old(child.ends) || (old(child.ends) == [] && |child.ends| == 1))
      ensures fresh(x11.repr - old(x11.repr)) && |logs.fdList| >= |old(logs.fdList)|
      ensures totals.bytesWritten <= old(totals.bytesWritten) + (2 + |old(logs.fdList)|) * BUFSIZ
      ensures k.console <= old(k.console) + (2 + |old(logs.fdList)|) * BUFSIZ
    {
      hide Valid, FdSets.Registrable, IoX11.Octets, OneServed, AllHeard, Booked, Turned, PolledToRead, PolledToWrite, Quiet, Refused;
      NothingBooked(account);
      var sel, poll := Ask();
      match poll {
        case None =>
          step := Stop;
        case Some(TimedOut) =>
          step := LimitExceeded();
        case Some(Interrupted) =>
          step := Continue;
        case Some(Errored) =>
          step := Stop;
        case Some(Ready) =>
          PendingOfTyped();
          step, t := Round(sel);
          BookedTyping(old(account), t);
          if step.Stop? {
            RefusedByTerminal(t.writing, old(Look()), Look());
            PendingOfTyped();
          }
          return;
      }
      t := NO_TURN.(poll := poll);
    }

    /** The part of a round up to `pselect`. */
    method Ask() returns (sel: FdSets, poll: Option<PollEnd>)
      requires Valid()
      modifies this`sigwinchArrived, this`sigalrmArrived, child, k`polls
      ensures Valid() && child.Valid() && fresh(sel) && sel !in x11.repr
      ensures poll.None? <==> old(Quiet())
      ensures k.polls == old(k.polls) + (if poll.None? then [] else [poll.value])
      ensures poll.Some? ==> sel.registered == k.table
      ensures forall fd | fd in sel.readFds :: old(PolledToRead(fd)) && fd in k.table
      ensures forall fd | fd in sel.writeFds :: old(PolledToWrite(fd)) && fd in k.table
      ensures masterAvail > 0 && masterReadFd >= 0 ==> masterReadFd !in sel.readFds
      ensures child.ends == old(child.ends) || (old(child.ends) == [] && child.ends == [Reaped])
    {
      hide Valid, FdSets.Registrable, PolledToRead, PolledToWrite, Quiet;
      TakeWinch();
      sel := new FdSets();
      var idle := Register(sel);
      if idle {
        return sel, None;
      }
      var rc, interrupted := Poll(sel);
      poll := Some(if rc > 0 then Ready else if rc == 0 then TimedOut else if interrupted then Interrupted else Errored);
    }

    /** What the terminal got, from what was typed and what is pending. */
    lemma PendingOfTyped()
      requires Valid()
      ensures files.tty ==> k.Given(files.terminal) + masterAvail == |account.typed|
      ensures slaveWriteFd >= 0 <==> files.tty
    {
    }

    /** The part of a round after `pselect`. */
    method Round(sel: FdSets) returns (step: Step, ghost t: Turn)
      requires Valid() && child.Valid() && sel.registered == k.table && sel !in x11.repr
      requires masterAvail > 0 && masterReadFd >= 0 ==> masterReadFd !in sel.readFds
      modifies this, k`table, k`received, k`sent, k`console, k`broken, k`owner, k`nextFile, k`attempts
      modifies x11, x11.repr, logs, totals, masterBuf, slaveBuf
      ensures (!step.Die? ==> Valid() && account == Booked(old(account), t)) && (step.Die? ==> step == Die(1))
      ensures t.poll == Some(Ready) && t.reading == old(sel.readFds) && t.writing == old(sel.writeFds)
      ensures step.Continue? ==> Turned(old(Look()), Look(), t)
      ensures (step.Stop? <==> !step.Die? && Refused(t.writing, old(Look()), Look())) && (k.broken <==> old(k.broken) || step.Die?)
      ensures t.refused == step.Stop?
      ensures step.Stop? ==> Heeded(t.reading, old(slaveReadErrFd), slaveReadErrFd, t.e) && Heeded(t.reading, old(slaveReadOutFd), slaveReadOutFd, t.o)
      ensures step.Stop? ==> masterAvail == old(masterAvail) && t.left == 0 && t.typed == [] && t.chunks == []
      ensures step.Continue? ==> k.attempts >= old(k.attempts) + Knocks(t.reading, old(x11Fd)) + Knocks(t.reading, logFd)
      ensures step.Continue? ==> forall i | 0 <= i < |old(x11.list)| && old(x11.list[i]) != null ::
                OneServed(t.reading, t.writing, old(x11.list[i]), old(x11.list[i].Octets(k)), old(x11.list[i]).Octets(k), x11.list, i)
      ensures step.Continue? ==> AllHeard(old(k.Snap()), k.Snap(), t.reading, old(logs.fdList), logs.fdList, t.chunks)
      ensures child.Valid() && child.ends == old(child.ends) && k.polls == old(k.polls)
      ensures fresh(x11.repr - old(x11.repr)) && |logs.fdList| >= |old(logs.fdList)|
      ensures totals.bytesWritten <= old(totals.bytesWritten) + (2 + |old(logs.fdList)|) * BUFSIZ
      ensures k.console <= old(k.console) + (2 + |old(logs.fdList)|) * BUFSIZ
    {
      hide Valid, IoX11.Octets, OneServed, AllHeard, LoggersKept, Copies, StreamsServed, AllLines, Listed;
      StartOfRound();
      ghost var before, list := k.Snap(), logs.fdList;
      step, t := Streams(sel);
      if step.Continue? {
        ghost var middle, look, chunks := k.Snap(), Look(), [];
        step, chunks := Connections(sel);
        if step.Continue? {
          HeardFrom(before, middle, k.Snap(), sel.readFds, list, logs.fdList, chunks);
          BookedInTwo(old(account), t, chunks);
          SameStreams(old(Look()), look, Look(), t, chunks);
        }
        t := t.(chunks := chunks);
      }
    }

    lemma StartOfRound()
      requires Valid()
      ensures forall i | 0 <= i < |x11.list| && x11.list[i] != null :: x11.list[i] in x11.all
      ensures Listed(k.table, k.owner, logs.fdList) && forall fd | fd in k.table :: k.table[fd] in k.received
    {
      x11.ListedAreKnown(k, saved, fake);
    }

    /** Its part about the child's own streams. */
    method Streams(sel: FdSets) returns (step: Step, ghost t: Turn)
      requires Valid() && sel.registered == k.table
      requires masterAvail > 0 && masterReadFd >= 0 ==> masterReadFd !in sel.readFds
      modifies this`slaveReadErrFd, this`slaveReadOutFd, this`masterAvail, this`masterReadFd, this`account
      modifies k`received, k`sent, k`console, k`broken, totals, masterBuf, slaveBuf
      ensures (step.Die? ==> step == Die(1)) && (!step.Die? ==> Valid() && sel.registered == k.table)
      ensures t.poll == Some(Ready) && t.reading == sel.readFds && t.writing == sel.writeFds && t.chunks == []
      ensures !step.Die? ==> account == Booked(old(account), t) && LoggersKept(old(k.Snap()), k.Snap())
      ensures !step.Die? ==> forall c | c in x11.all :: c.Octets(k) == old(c.Octets(k))
      ensures !step.Die? ==> totals.bytesWritten == old(totals.bytesWritten) + |t.e| + |t.o|
      ensures step.Continue? ==> StreamsServed(old(Look()), Look(), t)
      ensures (step.Stop? <==> !step.Die? && Refused(t.writing, old(Look()), Look())) && (k.broken <==> old(k.broken) || step.Die?)
      ensures step.Stop? ==> Heeded(t.reading, old(slaveReadErrFd), slaveReadErrFd, t.e) && Heeded(t.reading, old(slaveReadOutFd), slaveReadOutFd, t.o)
      ensures step.Stop? ==> masterAvail == old(masterAvail) && t.left == 0 && t.typed == []
      ensures t.refused == step.Stop?
      ensures totals.bytesWritten <= old(totals.bytesWritten) + 2 * BUFSIZ
      ensures k.console <= old(k.console) + 2 * BUFSIZ
    {
      hide Valid, IoX11.Octets, LoggersKept, Copies, Booked, Heeded;
      step, t := Die(1), NO_TURN.(poll := Some(Ready), reading := sel.readFds, writing := sel.writeFds);
      var ok;
      ghost var e, o, left, typed;
      ok, e, o := Outputs(sel);
      if !ok {
        return;
      }
      ghost var middle := k.Snap();
      step, left, typed := Inputs(sel);
      LoggersKeptComposes(old(k.Snap()), middle, k.Snap());
      t := Turn(Some(Ready), sel.readFds, sel.writeFds, e, o, typed, left, [], step.Stop?);
      StreamsBooked(old(account), t);
    }

    /** The two output streams; false when the program dies writing. */
    method Outputs(sel: FdSets) returns (ok: bool, ghost e: seq<byte>, ghost o: seq<byte>)
      requires Valid() && sel.registered == k.table
      modifies this`slaveReadErrFd, this`slaveReadOutFd, this`account
      modifies k`received, k`sent, k`console, k`broken, totals`bytesWritten, slaveBuf
      ensures ok ==> Valid() && account == Copies(Copies(old(account), STDERR, e), STDOUT, o)
      ensures ok ==> LoggersKept(old(k.Snap()), k.Snap()) && forall c | c in x11.all :: c.Octets(k) == old(c.Octets(k))
      ensures ok ==> totals.bytesWritten == old(totals.bytesWritten) + |e| + |o|
      ensures ok ==> Heeded(sel.readFds, old(slaveReadErrFd), slaveReadErrFd, e)
      ensures ok ==> Heeded(sel.readFds, old(slaveReadOutFd), slaveReadOutFd, o)
      ensures totals.bytesWritten <= old(totals.bytesWritten) + 2 * BUFSIZ
      ensures k.console <= old(k.console) + 2 * BUFSIZ
      ensures k.broken <==> old(k.broken) || !ok
    {
      hide Valid, Copied, IoX11.Octets, LoggersKept, Copies, Heeded;
      o := [];
      ok, e := ChildError(sel);
      if !ok {
        return;
      }
      ghost var middle := k.Snap();
      ok, o := ChildOutput(sel);
      if ok {
        LoggersKeptComposes(old(k.Snap()), middle, k.Snap());
      }
    }

    /** Input in both directions. */
    method Inputs(sel: FdSets) returns (step: Step, ghost left: nat, ghost typed: seq<byte>)
      requires Valid() && sel.registered == k.table
      requires masterAvail > 0 && masterReadFd >= 0 ==> masterReadFd !in sel.readFds
      modifies this`masterAvail, this`masterReadFd, this`account, k`received, k`sent, k`console, k`broken, totals`bytesRead, masterBuf
      ensures Valid() && !step.Die? && k.console == old(k.console) && k.broken == old(k.broken) && LoggersKept(old(k.Snap()), k.Snap())
      ensures account == old(account).(recounted := old(account).recounted + left, typed := old(account).typed + typed)
      ensures forall c | c in x11.all :: c.Octets(k) == old(c.Octets(k))
      ensures step.Stop? <==> Refused(sel.writeFds, old(Look()), Look())
      ensures step.Stop? ==> masterAvail == old(masterAvail) && left == 0 && typed == []
      ensures step.Continue? ==> InputServed(sel.readFds, sel.writeFds, old(Look()), Look(), left, typed)
    {
      hide Valid, IoX11.Octets, LoggersKept;
      typed := [];
      step, left := ChildInput(sel);
      ghost var middle := k.Snap();
      assert account.typed + typed == account.typed;
      if step.Continue? {
        typed := TerminalInput(sel);
        LoggersKeptComposes(old(k.Snap()), middle, k.Snap());
      }
    }

    /** The X11 connections' turn, and a new one. */
    method X11Turn(sel: FdSets)
      requires Valid() && sel.registered == k.table && sel !in x11.repr
      modifies x11, x11.repr, k`table, k`received, k`sent, k`console, k`broken, k`owner, k`nextFile, k`attempts
      ensures Valid() && Watching(sel) && k.console == old(k.console) && k.broken == old(k.broken) && LoggersKept(old(k.Snap()), k.Snap())
      ensures fresh(x11.repr - old(x11.repr)) && forall i | 0 <= i < |old(x11.list)| && old(x11.list[i]) != null :: old(x11.list[i]) in x11.all
      ensures k.polls == old(k.polls)
      ensures k.attempts >= old(k.attempts) + Knocks(sel.readFds, x11Fd)
      ensures forall i | 0 <= i < |old(x11.list)| && old(x11.list[i]) != null ::
                OneServed(sel.readFds, sel.writeFds, old(x11.list[i]), old(x11.list[i].Octets(k)), old(x11.list[i]).Octets(k), x11.list, i)
    {
      hide Valid, Watching, OnlyConnections, Extends, IoX11.Served, IoX11.Octets, LoggersKept;
      X11Service(sel);
      ghost var slots, middle := x11.list, k.Snap();
      X11Accept(sel);
      forall i | 0 <= i < |old(x11.list)| && old(x11.list[i]) != null
        ensures old(x11.list[i]) in x11.all && i < |x11.list| && (x11.list[i] == old(x11.list[i]) <==> slots[i] == old(x11.list[i]))
      {
        assert slots[i] == null || slots[i] == old(x11.list[i]);
      }
      LoggersKeptComposes(old(k.Snap()), middle, k.Snap());
    }

    /** The log connections' turn, and a new one. */
    method LogTurn(sel: FdSets) returns (ok: bool, ghost chunks: seq<seq<byte>>)
      requires Valid() && Watching(sel)
      modifies this`account, logs`fdList, totals`bytesWritten
      modifies k`table, k`received, k`sent, k`console, k`broken, k`owner, k`nextFile, k`attempts
      ensures ok ==> Valid() && sel.FreshAt(k.table, ctlFd)
      ensures ok ==> account == Told(old(account), AllLines(chunks)) && forall c | c in old(x11.all) :: c.Octets(k) == old(c.Octets(k))
      ensures ok ==> totals.bytesWritten == old(totals.bytesWritten) + |AllLines(chunks)|
      ensures ok ==> AllHeard(old(k.Snap()), k.Snap(), sel.readFds, old(logs.fdList), logs.fdList, chunks)
      ensures ok ==> k.attempts == old(k.attempts) + Knocks(sel.readFds, logFd)
      ensures |logs.fdList| >= |old(logs.fdList)| && (k.broken <==> old(k.broken) || !ok)
      ensures totals.bytesWritten <= old(totals.bytesWritten) + |old(logs.fdList)| * BUFSIZ
      ensures k.console <= old(k.console) + |old(logs.fdList)| * BUFSIZ
    {
      hide Valid, IoX11.Octets, AllHeard, LoggersKept, Refilled, AllLines, Knocks, Extends, FdSets.FreshAt, Listed;
      ok, chunks := LogService(sel);
      if ok {
        ghost var served, list := k.Snap(), logs.fdList;
        StartOfRound();
        LogAccept(sel);
        StillHeard(old(k.Snap()), served, k.Snap(), sel.readFds, old(logs.fdList), list, logs.fdList, chunks);
      }
    }

    /** Its part about the connections. */
    method Connections(sel: FdSets) returns (step: Step, ghost chunks: seq<seq<byte>>)
      requires Valid() && sel.registered == k.table && sel !in x11.repr
      modifies this`account, this`saved, this`fake, this`x11Fd, this`ctlFd, x11, x11.repr, logs, totals`bytesWritten
      modifies k`table, k`received, k`sent, k`console, k`broken, k`owner, k`nextFile, k`attempts
      ensures !step.Die? ==> Valid() && account == Told(old(account), AllLines(chunks))
      ensures k.polls == old(k.polls)
      ensures (step == Continue || step == Die(1)) && (k.broken <==> old(k.broken) || step.Die?)
      ensures step.Continue? ==> k.attempts >= old(k.attempts) + Knocks(sel.readFds, old(x11Fd)) + Knocks(sel.readFds, logFd)
      ensures step.Continue? ==> totals.bytesWritten == old(totals.bytesWritten) + |AllLines(chunks)|
      ensures child.ends == old(child.ends) && child.Valid()
      ensures masterAvail == old(masterAvail) && masterReadFd == old(masterReadFd) && totals.bytesRead == old(totals.bytesRead)
      ensures slaveReadErrFd == old(slaveReadErrFd) && slaveReadOutFd == old(slaveReadOutFd)
      ensures sel.readFds == old(sel.readFds) && sel.writeFds == old(sel.writeFds)
      ensures step.Continue? ==> forall i | 0 <= i < |old(x11.list)| && old(x11.list[i]) != null ::
                OneServed(sel.readFds, sel.writeFds, old(x11.list[i]), old(x11.list[i].Octets(k)), old(x11.list[i]).Octets(k), x11.list, i)
      ensures step.Continue? ==> AllHeard(old(k.Snap()), k.Snap(), sel.readFds, old(logs.fdList), logs.fdList, chunks)
      ensures step.Continue? ==> ctlFd == if old(ctlFd) >= 0 && old(ctlFd) in sel.readFds then -1 else old(ctlFd)
      ensures fresh(x11.repr - old(x11.repr)) && |logs.fdList| >= |old(logs.fdList)|
      ensures totals.bytesWritten <= old(totals.bytesWritten) + |old(logs.fdList)| * BUFSIZ
      ensures k.console <= old(k.console) + |old(logs.fdList)| * BUFSIZ
    {
      hide Placed, Books, X11Table.Valid, Listed, System.Valid, Cookies, Child.Valid, Watching, FdSets.FreshAt;
      hide OneServed, IoX11.Octets, AllHeard, LoggersKept, Refilled, AllLines, Knocks, Extends, OthersStay;
      StartOfRound();
      ghost var s0, list := k.Snap(), logs.fdList;
      X11Turn(sel);
      ghost var s2 := k.Snap();
      var ok;
      step := Die(1);
      ok, chunks := LogTurn(sel);
      if !ok {
        return;
      }
      ghost var s4, list4 := k.Snap(), logs.fdList;
      HeardFrom(s0, s2, s4, sel.readFds, list, list4, chunks);
      StartOfRound();
      ControlRound(sel);
      NothingRefilled(s4, k.Snap(), list4);
      StillHeard(s0, s4, k.Snap(), sel.readFds, list, list4, list4, chunks);
      step := Continue;
    }

    // ------------------------------------------------------------ whole runs

    /** No limit is reached; zero stands for none. */
    predicate LimitsOk()
      reads this`sigalrmArrived, totals`bytesRead, totals`bytesWritten
    {
      && !sigalrmArrived
      && (limits.bytesRead == 0 || totals.bytesRead < limits.bytesRead)
      && (limits.bytesWritten == 0 || totals.bytesWritten < limits.bytesWritten)
    }

    /** `work_limits_ok`. */
    method WorkLimitsOk() returns (ok: bool)
      requires Valid()
      modifies child
      ensures Valid() && child.Valid()
      ensures ok <==> !sigalrmArrived
                      && (limits.bytesRead == 0 || totals.bytesRead < limits.bytesRead)
                      && (limits.bytesWritten == 0 || totals.bytesWritten < limits.bytesWritten)
      ensures ok ==> child.ends == old(child.ends)
      ensures !ok ==> child.pid == 0 && |child.ends| == 1 && (old(child.ends) != [] ==> child.ends == old(child.ends))
    {
      hide Ledger, X11Table.Valid, LogTable.Valid, System.Valid, Cookies;
      ok := !sigalrmArrived
        && !(limits.bytesRead != 0 && totals.bytesRead >= limits.bytesRead)
        && !(limits.bytesWritten != 0 && totals.bytesWritten >= limits.bytesWritten);
      if !ok {
        var _ := LimitExceeded();
      }
    }

    /** The most that can have been written under an output limit, with so many log slots. */
    ghost predicate WithinLimit()
      reads this, k, logs
    {
      limits.bytesWritten > 0 ==> k.console <= limits.bytesWritten - 1 + (2 + |logs.fdList|) * BUFSIZ
    }

    /**
     The rest of `handle_parent`, for as many rounds as the run has gone
     through when it is looked at. However long that is and wherever the run
     is then, the relay's relations hold, the account is that of the rounds,
     what was written is what was counted and within the limit; and when it
     returns, the child has come to an end once, in one way, and the code is
     the one for that way.
     */
    method HandleParent(rounds: nat) returns (outcome: Outcome, ghost turns: seq<Turn>, ghost faces: seq<Face>)
      requires Valid() && k.console == 0 && account == NOTHING && !k.broken
      modifies this, k, x11, x11.repr, logs, totals, child, masterBuf, slaveBuf
      ensures !outcome.Died? ==> Valid() && account == BookedAll(turns) && |turns| <= rounds
      ensures outcome.Running? ==> |turns| == rounds && AllGoOn(turns)
      ensures turns != [] ==> AllGoOn(turns[..|turns| - 1])
      ensures outcome.Returned? ==>
                && turns != []
                && var t := turns[|turns| - 1];
                   t.poll == None || t.poll == Some(Errored) || (t.poll == Some(Ready) && t.refused)
      ensures outcome == Died(1) <==> k.broken
      ensures old(sigalrmArrived) && rounds > 0 ==> outcome == Died(128 + SIGTERM) && turns == []
      ensures outcome == Died(128 + SIGTERM) ==> !LimitsOk() || (turns != [] && turns[|turns| - 1].poll == Some(TimedOut))
      ensures k.polls == old(k.polls) + PollsOf(turns)
      ensures !k.broken ==> Trace(old(Look()), faces, turns, Look(), limits)
      ensures WithinLimit() && child.Valid() && old(child.ends) <= child.ends
      ensures outcome.Returned? ==>
                child.pid == 0 && |child.ends| == 1 && outcome.code == CodeOf(child.ends[0], child.status)
      ensures outcome.Died? ==> outcome.code == 1 || (outcome.code == 128 + SIGTERM && |child.ends| == 1)
    {
      hide Valid, Booked, BookedAll, PollsOf, StepOf, GoesOn, AllGoOn, Passed, Trace, Went, Look, CodeOf, WithinLimit;
      StartOfRun();
      turns, faces := [], [Look()];
      WentNowhere(Look(), limits, k.polls);
      for i := 0 to rounds
        invariant Valid() && child.Valid() && WithinLimit() && fresh(x11.repr - old(x11.repr))
        invariant Went(old(Look()), faces, turns, Look(), limits, account, old(k.polls), k.polls) && |turns| == i
        invariant old(child.ends) <= child.ends && !k.broken
        invariant if i == 0 then sigalrmArrived == old(sigalrmArrived) else !old(sigalrmArrived)
      {
        var ok := WorkLimitsOk();
        if !ok {
          WentSoFar(old(Look()), faces, turns, Look(), limits, account, old(k.polls), k.polls);
          outcome := Died(128 + SIGTERM);
          return;
        }
        ghost var face, acc, polls, t := Look(), account, k.polls, NO_TURN;
        FaceCounts();
        var step;
        step, t := NextRound();
        StepFacts(t, k.broken);
        WentFurther(old(Look()), faces, turns, face, limits, acc, old(k.polls), polls, t, Look());
        turns, faces := turns + [t], faces + [Look()];
        match step {
          case Continue =>
          case Die(code) =>
            outcome := Died(code);
            return;
          case Stop =>
            var code := Conclude();
            outcome := Returned(code);
            return;
        }
      }
      WentSoFar(old(Look()), faces, turns, Look(), limits, account, old(k.polls), k.polls);
      outcome := Running;
    }

    /** A round, as far as a run is concerned with it. */
    method NextRound() returns (step: Step, ghost t: Turn)
      requires Valid() && !k.broken && LimitsOk()
      modifies this, k, x11, x11.repr, logs, totals, child, masterBuf, slaveBuf
      ensures !step.Die? ==> Valid() && account == Booked(old(account), t)
      ensures step == StepOf(t, k.broken) && (k.broken ==> t.poll == Some(Ready))
      ensures !k.broken ==> Passed(old(Look()), Look(), t)
      ensures k.polls == old(k.polls) + (if t.poll.None? then [] else [t.poll.value])
      ensures step == Die(128 + SIGTERM) ==> |child.ends| == 1
      ensures child.Valid() && old(child.ends) <= child.ends
      ensures fresh(x11.repr - old(x11.repr)) && WithinLimit()
    {
      hide Valid, Booked, Turned, Refused, AllHeard, PolledToRead, PolledToWrite, Quiet, OneServed, IoX11.Octets, StepOf, Passed, Look;
      CountedIsWritten();
      step, t := HandleIo();
    }

    /** The end of it. */
    method Conclude() returns (code: nat)
      requires Valid()
      modifies child
      ensures Valid() && child.Valid() && child.pid == 0 && |child.ends| == 1 && code == CodeOf(child.ends[0], child.status)
      ensures old(child.ends) <= child.ends
    {
      hide Ledger, X11Table.Valid, LogTable.Valid, System.Valid, Cookies;
      code := child.Conclude();
    }

    lemma StartOfRun()
      requires Valid() && k.console == 0
      ensures child.Valid() && WithinLimit()
    {
    }

    lemma FaceCounts()
      ensures Look().bytesRead == totals.bytesRead && Look().bytesWritten == totals.bytesWritten
    {
    }

    lemma CountedIsWritten()
      requires Valid()
      ensures totals.bytesWritten == k.console && child.Valid()
    {
    }

    /**
     What the account of the rounds says of the files' whole histories: the
     client's standard error got, in order, what each round read of the child's
     standard error and then the lines of its log connections; its standard
     output got what the child wrote there; or both in order, if they are one.
     */
    lemma StreamsOfRun(turns: seq<Turn>)
      requires Valid() && account == BookedAll(turns)
      ensures var s := k.Snap();
              if s.table[STDOUT] != s.table[STDERR] then
                && s.sent[s.table[STDERR]] == ErrorsOf(turns)
                && s.sent[s.table[STDOUT]] == OutputOf(turns) == s.received[files.out]
              else s.sent[s.table[STDOUT]] == AllOf(turns)
      ensures !files.tty ==> k.Snap().received[files.err] == ChildErrorsOf(turns)
      ensures files.tty ==> TypedOf(turns) == k.Snap().sent[files.terminal] + masterBuf[..masterAvail]
    {
      AccountOf(turns);
    }

    /** The input counter is exact if and only if no write of the run left anything pending. */
    lemma InputCounterIsExact(turns: seq<Turn>)
      requires Valid() && account == BookedAll(turns) && files.tty
      ensures files.terminal in k.sent
      ensures totals.bytesRead == |k.sent[files.terminal]| + LeftOf(turns)
      ensures totals.bytesRead == |k.sent[files.terminal]| <==> forall t | t in turns :: t.left == 0
    {
      AccountOf(turns);
      NoneLeft(turns);
    }
  }

  /** A descriptor of this owner, with nothing read or written yet. */
  ghost predicate Brought(s: Snapshot, fd: int, who: Owner) {
    On(s, fd, who) && (fd >= 0 ==> Unused(s, fd))
  }

  lemma StillBrought(a: Snapshot, b: Snapshot, fd: int, who: Owner)
    requires Extends(a, b) && Brought(a, fd, who)
    ensures Brought(b, fd, who) && Same(a, b, fd)
  {
  }

  lemma NoneBrought(s: Snapshot, who: Owner)
    ensures Brought(s, -1, who)
  {
  }

  lemma StandardBrought(k: System)
    requires k.Valid() && (forall f | f in k.received :: k.received[f] == [] && k.sent[f] == [])
    ensures Brought(k.Snap(), STDOUT, Client) && Brought(k.Snap(), STDERR, Client)
  {
    var a, b := k.table[STDOUT], k.table[STDERR];
    assert a in k.received && b in k.received;
    assert k.received[a] == k.sent[a] == [] && k.received[b] == k.sent[b] == [];
  }

  /** One more descriptor, or none. */
  method Bring(k: System, ghost who: Owner) returns (fd: int)
    requires k.Valid()
    modifies k`table, k`received, k`sent, k`owner, k`nextFile, k`attempts
    ensures k.Valid() && Extends(old(k.Snap()), k.Snap()) && Brought(k.Snap(), fd, who)
    ensures fd >= 0 ==> fd in k.table && k.table[fd] !in old(k.received)
  {
    hide Extends;
    fd := k.Open(who);
  }

  /**
   A job from its terminal or its pipes to a running relay, as `chrootuid` sets
   it up: none if they cannot be had.
   */
  method Launch(child: Child, limits: Limits, x11Key: Option<seq<byte>>, usePty: bool) returns (r: Relay?)
    requires child.Valid()
    ensures r != null ==>
              && r.Valid() && r.k.console == 0 && r.account == NOTHING && !r.k.broken
              && r.limits == limits && r.files.tty == usePty && r.child == child && r.x11.repr == {}
    ensures r != null ==>
              && fresh(r) && fresh(r.k) && fresh(r.x11) && fresh(r.logs) && fresh(r.totals)
              && fresh(r.masterBuf) && fresh(r.slaveBuf)
  {
    hide Extends, Brought, System.Valid, Relay.Valid, Startable;
    var k := new System();
    StandardBrought(k);
    ghost var s0 := k.Snap();
    r := null;
    var out := Bring(k, Owner.Child);
    ghost var s1 := k.Snap();
    ExtendsStart(s1);
    NoneBrought(s1, Owner.Child);
    var err := -1;
    if !usePty {
      err := Bring(k, Owner.Child);
    }
    if out < 0 || (!usePty && err < 0) {
      return;
    }
    ghost var s2 := k.Snap();
    var logFd := Bring(k, Listener);
    ghost var s3 := k.Snap();
    var ctlFd := Bring(k, Control);
    AllBrought(s0, s1, s2, s3, k.Snap(), usePty, out, err, logFd, ctlFd);
    var x11 := new X11Table();
    var logs := new LogTable();
    var totals := new Totals();
    r := new Relay(k, x11, logs, totals, child, limits, x11Key, usePty, out, out, err, logFd, ctlFd);
  }

  lemma AllBrought(
    s0: Snapshot, s1: Snapshot, s2: Snapshot, s3: Snapshot, s4: Snapshot, usePty: bool, out: int, err: int, logFd: int, ctlFd: int)
    requires Extends(s0, s1) && Extends(s1, s2) && Extends(s2, s3) && Extends(s3, s4)
    requires Brought(s0, STDOUT, Client) && Brought(s0, STDERR, Client)
    requires Brought(s1, out, Owner.Child) && Brought(s2, err, Owner.Child)
    requires Brought(s3, logFd, Listener) && Brought(s4, ctlFd, Control)
    requires out >= 0 && (!usePty ==> err >= 0 && err in s2.table && s2.table[err] !in s1.received)
    ensures Startable(s4, usePty, out, out, err, logFd, ctlFd)
  {
    hide Extends, Brought;
    ExtendsComposes(s2, s3, s4);
    ExtendsComposes(s1, s2, s4);
    ExtendsComposes(s0, s1, s4);
    StillBrought(s0, s4, STDOUT, Client);
    StillBrought(s0, s4, STDERR, Client);
    StillBrought(s1, s4, out, Owner.Child);
    StillBrought(s2, s4, err, Owner.Child);
    StillBrought(s3, s4, logFd, Listener);
    BroughtIsReady(s1, s2, s4, usePty, out, err, logFd, ctlFd);
  }

  lemma BroughtIsReady(s1: Snapshot, s2: Snapshot, s: Snapshot, usePty: bool, out: int, err: int, logFd: int, ctlFd: int)
    requires Brought(s, STDOUT, Client) && Brought(s, STDERR, Client)
    requires Brought(s, out, Owner.Child) && Brought(s, err, Owner.Child)
    requires Brought(s, logFd, Listener) && Brought(s, ctlFd, Control)
    requires out >= 0 && Same(s1, s, out) && Same(s2, s, err) && Brought(s1, out, Owner.Child)
    requires !usePty ==> err >= 0 && s2.table[err] !in s1.received
    ensures Startable(s, usePty, out, out, err, logFd, ctlFd)
  {
  }

  /**
   A whole job: launched, then relayed for as many rounds as it has gone
   through. Unless it died, all that went through it is what its rounds say.
   */
  method Supervise(child: Child, limits: Limits, x11Key: Option<seq<byte>>, usePty: bool, rounds: nat)
    returns (r: Relay?, outcome: Outcome, ghost turns: seq<Turn>, ghost faces: seq<Face>)
    requires child.Valid() && child.ends == []
    modifies child
    ensures r != null && !outcome.Died? ==> r.Valid() && r.account == BookedAll(turns) && r.files.tty == usePty
    ensures r != null ==> r.WithinLimit() && r.limits == limits && r.child == child
    ensures r != null && outcome.Returned? ==> |child.ends| == 1 && outcome.code == CodeOf(child.ends[0], child.status)
  {
    hide Relay.Valid, BookedAll;
    outcome, turns, faces := Running, [], [];
    r := Launch(child, limits, x11Key, usePty);
    if r != null {
      outcome, turns, faces := r.HandleParent(rounds);
    }
  }

  // ---------------------------------------------------------- histories of runs

  /** Standard error: the child's, then the log connections', round by round. */
  function ErrorsOf(turns: seq<Turn>): seq<byte> {
    if turns == [] then []
    else
      var t := turns[|turns| - 1];
      ErrorsOf(turns[..|turns| - 1]) + t.e + AllLines(t.chunks)
  }

  function ChildErrorsOf(turns: seq<Turn>): seq<byte> {
    if turns == [] then [] else ChildErrorsOf(turns[..|turns| - 1]) + turns[|turns| - 1].e
  }

  function OutputOf(turns: seq<Turn>): seq<byte> {
    if turns == [] then [] else OutputOf(turns[..|turns| - 1]) + turns[|turns| - 1].o
  }

  /** Both outputs in one. */
  function AllOf(turns: seq<Turn>): seq<byte> {
    if turns == [] then []
    else
      var t := turns[|turns| - 1];
      AllOf(turns[..|turns| - 1]) + t.e + t.o + AllLines(t.chunks)
  }

  function TypedOf(turns: seq<Turn>): seq<byte> {
    if turns == [] then [] else TypedOf(turns[..|turns| - 1]) + turns[|turns| - 1].typed
  }

  /** Octets left pending by the writes of the run, over all of them. */
  function LeftOf(turns: seq<Turn>): nat {
    if turns == [] then 0 else LeftOf(turns[..|turns| - 1]) + turns[|turns| - 1].left
  }

  lemma {:induction false} AccountOf(turns: seq<Turn>)
    ensures BookedAll(turns) ==
            Account(OutputOf(turns), ChildErrorsOf(turns), ErrorsOf(turns), AllOf(turns), TypedOf(turns), LeftOf(turns))
  {
    hide AllLines;
    if turns != [] {
      AccountOf(turns[..|turns| - 1]);
    }
  }

  lemma {:induction false} NoneLeft(turns: seq<Turn>)
    ensures LeftOf(turns) == 0 <==> forall t | t in turns :: t.left == 0
  {
    if turns != [] {
      var front, last := turns[..|turns| - 1], turns[|turns| - 1];
      NoneLeft(front);
      assert turns == front + [last];
    }
  }
}

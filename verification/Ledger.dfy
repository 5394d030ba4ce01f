/** What the relay of parent.c knows about the kernel's state, as predicates on snapshots that each kind of step keeps. */
module Ledger {
  import opened Bytes
  import opened Kernel
  import opened LogRelay
  import opened Output

  /** The descriptors `handle_io` watches; -1 for one it does not have. */
  datatype Descs = Descs(masterRead: int, out: int, err: int, write: int, log: int, ctl: int, x11: int)

  /** The files of the child's standard output and error, or of its terminal if it has one, which is then all three. */
  datatype Files = Files(out: File, err: File, terminal: File, tty: bool)

  /**
   What has gone through the relay: what the child wrote to its standard
   output, and to its standard error; what was written to the client's
   standard error, and to both of its outputs in order; what was typed, with an
   EOT for each end; and how many octets were counted again because a write
   left them pending.
   */
  datatype Account = Account(
    out: seq<byte>, err: seq<byte>, errors: seq<byte>, all: seq<byte>, typed: seq<byte>, recounted: nat)

  const NOTHING := Account([], [], [], [], [], 0)

  ghost predicate On(s: Snapshot, fd: int, who: Owner) {
    fd >= -1 && (fd >= 0 ==> fd in s.table && s.table[fd] in s.owner && s.owner[s.table[fd]] == who)
  }

  /** Every descriptor is open on a file of its kind. */
  ghost predicate Placed(s: Snapshot, d: Descs, files: Files) {
    && (d.masterRead == -1 || d.masterRead == STDIN)
    && On(s, d.masterRead, Client) && On(s, STDOUT, Client) && On(s, STDERR, Client)
    && On(s, d.out, Child) && (d.out >= 0 ==> s.table[d.out] == files.out)
    && On(s, d.err, Child) && (d.err >= 0 ==> !files.tty && s.table[d.err] == files.err) && (!files.tty ==> files.err != files.out)
    && On(s, d.write, Child) && (d.write >= 0 <==> files.tty) && (files.tty ==> s.table[d.write] == files.terminal)
    && On(s, d.log, Listener) && On(s, d.x11, Listener) && On(s, d.ctl, Control)
  }

  /**
   The account is what the files' histories say: the child's streams are read
   as accounted, and the client's outputs got exactly what is accounted, apart
   or in order if they are one file. What was typed is what the terminal got
   followed by what is pending, and the input counter exceeds what it got by
   exactly what was counted again.
   */
  ghost predicate Books(s: Snapshot, files: Files, acc: Account, pending: seq<byte>, bytesRead: nat) {
    && On(s, STDOUT, Client) && On(s, STDERR, Client)
    && s.table[STDOUT] in s.sent && s.table[STDERR] in s.sent
    && {files.out, files.err, files.terminal} <= s.owner.Keys
    && s.owner[files.out] == s.owner[files.err] == s.owner[files.terminal] == Child
    && {files.out, files.err, files.terminal} <= s.received.Keys && {files.out, files.err, files.terminal} <= s.sent.Keys
    && s.received[files.out] == acc.out && (!files.tty ==> s.received[files.err] == acc.err)
    && (if s.table[STDOUT] != s.table[STDERR]
        then s.sent[s.table[STDOUT]] == acc.out && s.sent[s.table[STDERR]] == acc.errors
        else s.sent[s.table[STDOUT]] == acc.all)
    && (if files.tty
        then acc.typed == s.sent[files.terminal] + pending && bytesRead == |s.sent[files.terminal]| + acc.recounted
        else bytesRead == acc.recounted == 0)
  }

  /** A descriptor still denotes the file it denoted. */
  ghost predicate Same(a: Snapshot, b: Snapshot, fd: int) {
    fd >= 0 ==> fd in a.table && fd in b.table && b.table[fd] == a.table[fd]
  }

  ghost predicate SameAll(a: Snapshot, b: Snapshot, fds: seq<int>) {
    forall i | 0 <= i < |fds| :: Same(a, b, fds[i])
  }

  /** Log connections are as they were. */
  ghost predicate LoggersKept(a: Snapshot, b: Snapshot) {
    && (forall f | f in a.owner && a.owner[f] == Logger :: f in b.owner && b.owner[f] == Logger)
    && (forall f | f in a.received && f in a.owner && a.owner[f] == Logger :: f in b.received && b.received[f] == a.received[f])
    && (forall fd | fd in a.table && a.table[fd] in a.owner && a.owner[a.table[fd]] == Logger ::
          fd in b.table && b.table[fd] == a.table[fd])
    && (forall f | f in a.received :: f in b.received)
  }

  lemma LoggersKeptComposes(a: Snapshot, b: Snapshot, c: Snapshot)
    requires LoggersKept(a, b) && LoggersKept(b, c)
    ensures LoggersKept(a, c)
  {
  }

  lemma LoggersKeptStart(a: Snapshot)
    ensures LoggersKept(a, a)
  {
  }

  /**
   What a round did for one log connection: a ready one was read once, any
   other not at all, and it is still in its slot unless it was ready and gave
   nothing.
   */
  ghost predicate Heard(
    a: Snapshot, b: Snapshot, reading: set<int>, was: int, list: seq<int>, i: nat, chunk: seq<byte>)
  {
    if was < 0 then chunk == []
    else
      && was in a.table && a.table[was] in a.received && a.table[was] in b.received
      && a.table[was] in b.owner && b.owner[a.table[was]] == Logger
      && b.received[a.table[was]] == a.received[a.table[was]] + chunk
      && (chunk != [] ==> was in reading)
      && ((was in reading && chunk == []) <==> !Listens(b, list, i, a.table[was]))
  }

  /** The slot holds a descriptor open on this file. */
  ghost predicate Listens(b: Snapshot, list: seq<int>, i: nat, f: File) {
    i < |list| && list[i] >= 0 && list[i] in b.table && b.table[list[i]] == f
  }

  /** The same for all of them, slot by slot. */
  ghost predicate AllHeard(
    a: Snapshot, b: Snapshot, reading: set<int>, was: seq<int>, list: seq<int>, chunks: seq<seq<byte>>)
  {
    |chunks| == |was| <= |list| && forall i | 0 <= i < |was| :: Heard(a, b, reading, was[i], list, i, chunks[i])
  }

  lemma ServedAreHeard(
    a: Snapshot, b: Snapshot, reading: set<int>, was: seq<int>, list: seq<int>, chunks: seq<seq<byte>>, err: File)
    requires OnlyLoggers(a, b, err) && Listed(a.table, a.owner, was) && |was| == |list| == |chunks|
    requires forall i | 0 <= i < |was| :: SlotServed(a, b, reading, was[i], list[i], chunks[i])
    ensures AllHeard(a, b, reading, was, list, chunks)
  {
  }

  /** Log connections left alone before count as heard from then on. */
  lemma HeardFrom(
    a: Snapshot, b: Snapshot, c: Snapshot, reading: set<int>, was: seq<int>, list: seq<int>, chunks: seq<seq<byte>>)
    requires LoggersKept(a, b) && Listed(a.table, a.owner, was) && AllHeard(b, c, reading, was, list, chunks)
    requires forall fd | fd in a.table :: a.table[fd] in a.received
    ensures AllHeard(a, c, reading, was, list, chunks)
  {
    forall i | 0 <= i < |was|
      ensures Heard(a, c, reading, was[i], list, i, chunks[i])
    {
      assert Heard(b, c, reading, was[i], list, i, chunks[i]);
    }
  }

  /** From one list to the next, slots in use are kept and free ones are filled with new files. */
  ghost predicate Refilled(b: Snapshot, c: Snapshot, list: seq<int>, list': seq<int>) {
    |list| <= |list'| &&
    forall i | 0 <= i < |list| ::
      && (list[i] >= 0 ==> list'[i] == list[i])
      && (list[i] < 0 && list'[i] >= 0 && list'[i] in c.table ==> c.table[list'[i]] !in b.received)
  }

  /** They stay heard whatever happens to others, new connections in free slots included. */
  lemma StillHeard(
    a: Snapshot, b: Snapshot, c: Snapshot, reading: set<int>, was: seq<int>, list: seq<int>, list': seq<int>,
    chunks: seq<seq<byte>>)
    requires AllHeard(a, b, reading, was, list, chunks) && LoggersKept(b, c) && Listed(b.table, b.owner, list)
    requires Refilled(b, c, list, list')
    ensures AllHeard(a, c, reading, was, list', chunks)
  {
    forall i | 0 <= i < |was|
      ensures Heard(a, c, reading, was[i], list', i, chunks[i])
    {
      assert Heard(a, b, reading, was[i], list, i, chunks[i]);
    }
  }

  lemma AfterConnections(a: Snapshot, b: Snapshot, d: Descs, files: Files, fds: seq<int>)
    requires OnlyConnections(a, b) && Placed(a, d, files) && Listed(a.table, a.owner, fds)
    ensures Placed(b, d, files) && Listed(b.table, b.owner, fds) && LoggersKept(a, b)
    ensures Same(a, b, d.log) && Same(a, b, d.x11) && Same(a, b, d.ctl) && SameAll(a, b, fds)
  {
  }

  lemma BooksAfterConnections(
    a: Snapshot, b: Snapshot, files: Files, acc: Account, pending: seq<byte>, bytesRead: nat)
    requires OnlyConnections(a, b) && Books(a, files, acc, pending, bytesRead)
    ensures Books(b, files, acc, pending, bytesRead)
  {
  }

  lemma AfterExtends(a: Snapshot, b: Snapshot, d: Descs, files: Files, fds: seq<int>)
    requires Extends(a, b) && Placed(a, d, files) && Listed(a.table, a.owner, fds)
    ensures Placed(b, d, files) && Listed(b.table, b.owner, fds) && ConnectionsKept(a, b) && LoggersKept(a, b)
    ensures Same(a, b, d.log) && Same(a, b, d.x11) && Same(a, b, d.ctl) && SameAll(a, b, fds)
  {
  }

  lemma BooksAfterExtends(
    a: Snapshot, b: Snapshot, files: Files, acc: Account, pending: seq<byte>, bytesRead: nat)
    requires Extends(a, b) && Books(a, files, acc, pending, bytesRead)
    ensures Books(b, files, acc, pending, bytesRead)
  {
  }

  lemma AfterLoggers(a: Snapshot, b: Snapshot, d: Descs, files: Files)
    requires Placed(a, d, files) && OnlyLoggers(a, b, a.table[STDERR])
    ensures Placed(b, d, files) && ConnectionsKept(a, b)
    ensures Same(a, b, d.log) && Same(a, b, d.x11) && Same(a, b, d.ctl)
  {
  }

  lemma BooksAfterLoggers(
    a: Snapshot, b: Snapshot, files: Files, acc: Account, lines: seq<byte>, pending: seq<byte>, bytesRead: nat)
    requires Books(a, files, acc, pending, bytesRead) && OnlyLoggers(a, b, a.table[STDERR])
    requires b.sent[a.table[STDERR]] == a.sent[a.table[STDERR]] + lines
    ensures Books(b, files, acc.(errors := acc.errors + lines, all := acc.all + lines), pending, bytesRead)
  {
  }

  /** The account after a chunk of one of the child's streams was copied. */
  function Copies(acc: Account, to: int, chunk: seq<byte>): Account {
    if to == STDOUT then acc.(out := acc.out + chunk, all := acc.all + chunk)
    else acc.(err := acc.err + chunk, errors := acc.errors + chunk, all := acc.all + chunk)
  }

  lemma CopyKeepsOthers(a: Snapshot, d: Descs, files: Files, fd: int, to: int, chunk: seq<byte>)
    requires Placed(a, d, files) && fd >= 0 && ((fd == d.out && to == STDOUT) || (fd == d.err && to == STDERR))
    ensures var b := Copied(a, fd, to, chunk);
            Placed(b, d, files) && ConnectionsKept(a, b) && LoggersKept(a, b)
  {
  }

  lemma CopyBooks(a: Snapshot, d: Descs, files: Files, fd: int, to: int, chunk: seq<byte>,
                  acc: Account, pending: seq<byte>, bytesRead: nat)
    requires Placed(a, d, files) && Books(a, files, acc, pending, bytesRead)
    requires fd >= 0 && ((fd == d.out && to == STDOUT) || (fd == d.err && to == STDERR))
    ensures Books(Copied(a, fd, to, chunk), files, Copies(acc, to, chunk), pending, bytesRead)
  {
  }

  lemma AfterCopy(a: Snapshot, d: Descs, files: Files, fd: int, to: int, chunk: seq<byte>,
                  acc: Account, pending: seq<byte>, bytesRead: nat)
    requires Placed(a, d, files) && Books(a, files, acc, pending, bytesRead)
    requires fd >= 0 && ((fd == d.out && to == STDOUT) || (fd == d.err && to == STDERR))
    ensures var b := Copied(a, fd, to, chunk);
            && Placed(b, d, files) && Books(b, files, Copies(acc, to, chunk), pending, bytesRead)
            && ConnectionsKept(a, b) && LoggersKept(a, b)
  {
    hide Placed, Books, Copied, Copies, ConnectionsKept, LoggersKept;
    CopyKeepsOthers(a, d, files, fd, to, chunk);
    CopyBooks(a, d, files, fd, to, chunk, acc, pending, bytesRead);
  }

  /** A stream that has come to its end is no longer watched. */
  lemma WithoutOutput(a: Snapshot, d: Descs, files: Files)
    requires Placed(a, d, files)
    ensures Placed(a, d.(err := -1), files) && Placed(a, d.(out := -1), files) && Placed(a, d.(masterRead := -1), files)
  {
  }

  /** Octets taken from the pending ones went to the terminal; all that were pending are counted, those left once more later. */
  lemma AfterTyping(a: Snapshot, d: Descs, files: Files, acc: Account, pending: seq<byte>, n: nat, bytesRead: nat)
    requires Placed(a, d, files) && Books(a, files, acc, pending, bytesRead) && d.write >= 0 && n <= |pending|
    ensures var t := files.terminal;
            var b := a.(sent := a.sent[t := a.sent[t] + pending[..n]]);
            && d.write in a.table && a.table[d.write] == t
            && Placed(b, d, files) && ConnectionsKept(a, b) && LoggersKept(a, b)
            && Books(b, files, acc.(recounted := acc.recounted + |pending| - n), pending[n..], bytesRead + |pending|)
  {
    assert pending == pending[..n] + pending[n..];
  }

  /** Octets read from the client's terminal become pending; an end of file does too, as one octet. */
  lemma AfterReading(
    a: Snapshot, d: Descs, files: Files, acc: Account, bytesRead: nat, chunk: seq<byte>, more: seq<byte>)
    requires Placed(a, d, files) && Books(a, files, acc, [], bytesRead) && d.masterRead >= 0
    requires a.table[d.masterRead] in a.received
    ensures var f := a.table[d.masterRead];
            var b := a.(received := a.received[f := a.received[f] + chunk]);
            && Placed(b, d, files) && ConnectionsKept(a, b) && LoggersKept(a, b)
            && Books(b, files, acc.(typed := acc.typed + more), more, bytesRead)
  {
  }

  /** The control connection is closed for good. */
  lemma WithoutControl(
    a: Snapshot, d: Descs, files: Files, x11: int, fds: seq<int>, acc: Account, pending: seq<byte>, bytesRead: nat)
    requires Placed(a, d, files) && d.ctl >= 0 && On(a, x11, Listener) && Listed(a.table, a.owner, fds)
    requires Books(a, files, acc, pending, bytesRead)
    ensures var b := a.(table := a.table - {d.ctl});
            && Placed(b, d.(ctl := -1, x11 := x11), files) && Listed(b.table, b.owner, fds)
            && ConnectionsKept(a, b) && LoggersKept(a, b)
            && Books(b, files, acc, pending, bytesRead)
  {
  }

  /** Whatever is pending, a write that does not take all of it puts the counter ahead of what was delivered, by at least what it left. */
  lemma OvercountingWrite(
    a: Snapshot, d: Descs, files: Files, acc: Account, pending: seq<byte>, n: nat, bytesRead: nat)
    requires Placed(a, d, files) && Books(a, files, acc, pending, bytesRead) && d.write >= 0 && n < |pending|
    ensures var b := a.(sent := a.sent[files.terminal := a.sent[files.terminal] + pending[..n]]);
            && Books(b, files, acc.(recounted := acc.recounted + |pending| - n), pending[n..], bytesRead + |pending|)
            && bytesRead + |pending| >= |b.sent[files.terminal]| + |pending| - n > |b.sent[files.terminal]|
  {
    hide Placed;
    AfterTyping(a, d, files, acc, pending, n, bytesRead);
  }

  /** For one, a terminal that takes one octet of two. */
  lemma OvercountingExample()
    ensures var s := Snapshot(
              map[0 := 0, 1 := 1, 2 := 2, 3 := 3], map[0 := [], 1 := [], 2 := [], 3 := []],
              map[0 := [], 1 := [], 2 := [], 3 := []], map[0 := Client, 1 := Client, 2 := Client, 3 := Child]);
            var files := Files(3, 3, 3, true);
            var pending: seq<byte> := [7, 7];
            var t := s.(sent := s.sent[3 := s.sent[3] + pending[..1]]);
            && Placed(s, Descs(0, 3, -1, 3, -1, -1, -1), files)
            && Books(s, files, NOTHING.(typed := pending), pending, 0)
            && Books(t, files, NOTHING.(typed := pending, recounted := 1), pending[1..], 2) && |t.sent[3]| == 1
  {
  }
}

/** The kernel as the I/O relay sees it: a descriptor table, open files with their histories, and short reads and writes. */
module Kernel {
  import opened Bytes

  type File = int

  /** Everything read from, and written to, a file so far. */
  type Histories = map<File, seq<byte>>

  const STDIN := 0
  const STDOUT := 1
  const STDERR := 2
  const BUFSIZ := 8192

  /** Whom an open file serves; a forwarded X11 connection is named by the file it was accepted on. */
  datatype Owner = Client | Child | Listener | Control | Logger | Connection(slave: File)

  /** How a `pselect` ends. */
  datatype PollEnd = Ready | TimedOut | Interrupted | Errored

  class System {
    var table: map<int, File>
    var received: Histories
    var sent: Histories
    /** Octets accepted by writes to the standard output and error descriptors. */
    var console: nat
    var nextFile: File
    ghost var owner: map<File, Owner>
    /** How every `pselect` ended. */
    ghost var polls: seq<PollEnd>
    /** A write to the standard output or error took less than it was given. */
    ghost var broken: bool
    /** Calls that asked for a new descriptor. */
    ghost var attempts: nat

    /** A process that has its three standard descriptors and has used none of them. */
    constructor ()
      ensures Valid() && console == 0 && polls == [] && !broken
      ensures table == map[STDIN := 0, STDOUT := 1, STDERR := 2] && owner == map[0 := Client, 1 := Client, 2 := Client]
      ensures received == sent == map[0 := [], 1 := [], 2 := []]
    {
      table := map[STDIN := 0, STDOUT := 1, STDERR := 2];
      received, sent := map[0 := [], 1 := [], 2 := []], map[0 := [], 1 := [], 2 := []];
      owner := map[0 := Client, 1 := Client, 2 := Client];
      console, nextFile := 0, 3;
      polls, broken, attempts := [], false, 0;
    }

    /** Descriptors are natural numbers, the standard ones are the client's, and every file has histories and an owner. */
    ghost predicate Valid()
      reads this`table, this`received, this`sent, this`owner, this`nextFile
    {
      && (forall fd | fd in table :: fd >= 0 && table[fd] in received)
      && received.Keys == sent.Keys == owner.Keys
      && (forall f | f in received :: f < nextFile)
      && (forall fd | 0 <= fd <= 2 :: fd in table)
      && (forall fd | fd in table && 0 <= fd <= 2 :: owner[table[fd]] == Client)
    }

    /** The descriptor is open on a file of this owner. */
    ghost predicate Owned(fd: int, who: Owner)
      reads this`table, this`owner
    {
      fd in table && table[fd] in owner && owner[table[fd]] == who
    }

    /** How much has been read from a file, and written to it. */
    ghost function Taken(f: File): nat
      reads this`received
    {
      if f in received then |received[f]| else 0
    }

    ghost function Given(f: File): nat
      reads this`sent
    {
      if f in sent then |sent[f]| else 0
    }

    ghost function Snap(): Snapshot
      reads this`table, this`received, this`sent, this`owner
    {
      Snapshot(table, received, sent, owner)
    }

    /** `read`, retried on interruption: an error, end of file, or up to `limit` octets, which land at the start of the buffer. */
    method Read(fd: int, buf: array<byte>, limit: nat) returns (n: int)
      requires Valid() && fd in table && limit <= buf.Length
      modifies this`received, buf
      ensures Valid() && -1 <= n <= limit
      ensures n <= 0 ==> received == old(received) && buf[..] == old(buf[..])
      ensures n > 0 ==> received == old(received)[table[fd] := old(received[table[fd]]) + buf[..n]]
      ensures n > 0 ==> buf[n..] == old(buf[n..])
    {
      n :| -1 <= n <= limit;
      if n > 0 {
        var chunk: seq<byte> := [];
        while |chunk| < n
          invariant |chunk| <= n
          decreases n - |chunk|
        {
          var octet: byte :| true;
          chunk := chunk + [octet];
        }
        forall i | 0 <= i < n {
          buf[i] := chunk[i];
        }
        assert buf[..n] == chunk;
        received := received[table[fd] := received[table[fd]] + chunk];
      }
    }

    /** `write`, retried on interruption: an error, or up to `count` octets taken. */
    method Write(fd: int, buf: array<byte>, offset: nat, count: nat) returns (n: int)
      requires Valid() && fd in table && offset + count <= buf.Length
      modifies this`sent, this`console, this`broken
      ensures Valid() && -1 <= n <= count
      ensures n <= 0 ==> sent == old(sent) && console == old(console)
      ensures n > 0 ==> sent == old(sent)[table[fd] := old(sent[table[fd]]) + buf[offset..offset + n]]
      ensures n > 0 ==> console == old(console) + (if fd == STDOUT || fd == STDERR then n else 0)
      ensures broken <==> old(broken) || (n <= 0 && (fd == STDOUT || fd == STDERR))
    {
      n :| -1 <= n <= count;
      if n > 0 {
        sent := sent[table[fd] := sent[table[fd]] + buf[offset..offset + n]];
        if fd == STDOUT || fd == STDERR {
          console := console + n;
        }
      } else if fd == STDOUT || fd == STDERR {
        broken := true;
      }
    }

    /** `close`, assumed to succeed. */
    method Close(fd: int)
      requires Valid() && fd > 2
      modifies this`table
      ensures Valid() && table == old(table) - {fd}
    {
      table := table - {fd};
    }

    /** `accept`, `connect` and the receipt of a descriptor: failure, or any number that is free, and a file never seen before. */
    method Open(ghost who: Owner) returns (fd: int)
      requires Valid()
      modifies this`table, this`received, this`sent, this`nextFile, this`owner, this`attempts
      ensures attempts == old(attempts) + 1
      ensures Valid() && fd >= -1 && nextFile >= old(nextFile)
      ensures fd == -1 ==> Snap() == old(Snap()) && nextFile == old(nextFile)
      ensures fd >= 0 ==> nextFile == old(nextFile) + 1
      ensures Extends(old(Snap()), Snap())
      ensures fd >= 0 ==> fd > 2 && fd !in old(table) && table == old(table)[fd := old(nextFile)]
      ensures fd >= 0 ==> old(nextFile) !in old(received) && owner == old(owner)[old(nextFile) := who]
      ensures fd >= 0 ==> received == old(received)[old(nextFile) := []] && sent == old(sent)[old(nextFile) := []]
    {
      hide Extends, Valid;
      fd := -1;
      attempts := attempts + 1;
      ExtendsStart(Snap());
      var fails: bool :| true;
      if fails {
        return;
      }
      fd := Free();
      Install(fd, who);
      OpenExtends(old(Snap()), fd, old(nextFile), who);
    }

    /** A new file at a free number. */
    method Install(fd: int, ghost who: Owner)
      requires Valid() && fd >= 0 && fd !in table
      modifies this`table, this`received, this`sent, this`nextFile, this`owner
      ensures Valid() && nextFile == old(nextFile) + 1 && table == old(table)[fd := old(nextFile)]
      ensures old(nextFile) !in old(received) && old(nextFile) !in old(sent) && old(nextFile) !in old(owner)
      ensures owner == old(owner)[old(nextFile) := who]
      ensures received == old(received)[old(nextFile) := []] && sent == old(sent)[old(nextFile) := []]
    {
      table := table[fd := nextFile];
      received, sent, owner := received[nextFile := []], sent[nextFile := []], owner[nextFile := who];
      nextFile := nextFile + 1;
    }

    /** Some free descriptor number. */
    method Free() returns (fd: int)
      requires Valid()
      ensures fd > 2 && fd !in table
    {
      ghost var top := Bounded(table.Keys);
      assert top !in table;
      fd :| fd >= 0 && fd !in table;
    }
  }

  datatype Snapshot = Snapshot(table: map<int, File>, received: Histories, sent: Histories, owner: map<File, Owner>)

  /** From a to b only files of forwarded connections were read or written, and only their descriptors were closed. */
  ghost predicate OnlyConnections(a: Snapshot, b: Snapshot) {
    && b.owner == a.owner && b.received.Keys == a.received.Keys && b.sent.Keys == a.sent.Keys
    && (forall fd | fd in b.table :: fd in a.table && b.table[fd] == a.table[fd])
    && (forall fd | fd in a.table && a.table[fd] in a.owner && !a.owner[a.table[fd]].Connection? :: fd in b.table)
    && (forall f | f in a.received && f in a.owner && !a.owner[f].Connection? :: b.received[f] == a.received[f])
    && (forall f | f in a.sent && f in a.owner && !a.owner[f].Connection? :: b.sent[f] == a.sent[f])
  }

  lemma OnlyConnectionsStart(a: Snapshot)
    ensures OnlyConnections(a, a)
  {
  }

  lemma OnlyConnectionsCompose(a: Snapshot, b: Snapshot, c: Snapshot)
    requires OnlyConnections(a, b) && OnlyConnections(b, c)
    ensures OnlyConnections(a, c)
  {
  }

  lemma ClosedConnection(a: Snapshot, b: Snapshot, m: int, s: int)
    requires OnlyConnections(a, b) && b.table == a.table
    requires forall fd | fd == m || fd == s :: fd in a.table && a.table[fd] in a.owner && a.owner[a.table[fd]].Connection?
    ensures OnlyConnections(a, b.(table := b.table - {m, s}))
  {
  }

  /** From a to b descriptors were opened, on new files, and nothing else happened to what there was. */
  ghost predicate Extends(a: Snapshot, b: Snapshot) {
    && (forall fd | fd in a.table :: fd in b.table && b.table[fd] == a.table[fd])
    && (forall fd | fd in b.table && fd !in a.table :: b.table[fd] !in a.received)
    && (forall f | f in a.owner :: f in b.owner && b.owner[f] == a.owner[f])
    && a.received.Keys <= b.received.Keys
    && (forall f | f in a.received :: b.received[f] == a.received[f])
    && (forall f | f in a.sent :: f in b.sent && b.sent[f] == a.sent[f])
  }

  lemma ExtendsStart(a: Snapshot)
    ensures Extends(a, a)
  {
  }

  lemma ExtendsComposes(a: Snapshot, b: Snapshot, c: Snapshot)
    requires Extends(a, b) && Extends(b, c)
    ensures Extends(a, c)
  {
    forall fd | fd in c.table && fd !in a.table
      ensures c.table[fd] !in a.received
    {
      if fd in b.table {
        assert b.table[fd] !in a.received && c.table[fd] == b.table[fd];
      } else {
        var f := c.table[fd];
        assert f !in b.received;
        assert f !in b.received.Keys;
      }
    }
  }

  lemma CloseExtends(a: Snapshot, b: Snapshot, fd: int)
    requires Extends(a, b) && fd !in a.table
    ensures Extends(a, b.(table := b.table - {fd}))
  {
  }

  /** What a successful `Open` does to the snapshot. */
  lemma OpenExtends(a: Snapshot, fd: int, f: File, who: Owner)
    requires fd !in a.table && f !in a.received && f !in a.sent && f !in a.owner
    ensures Extends(a, Snapshot(a.table[fd := f], a.received[f := []], a.sent[f := []], a.owner[f := who]))
  {
  }

  /** Whatever happened from a to b happened to other files than those of forwarded connections. */
  ghost predicate ConnectionsKept(a: Snapshot, b: Snapshot) {
    && (forall f | f in a.owner && a.owner[f].Connection? :: f in b.owner && b.owner[f] == a.owner[f])
    && (forall f | f in a.received && f in a.owner && a.owner[f].Connection? :: f in b.received && b.received[f] == a.received[f])
    && (forall f | f in a.sent && f in a.owner && a.owner[f].Connection? :: f in b.sent && b.sent[f] == a.sent[f])
    && (forall fd | fd in a.table && a.table[fd] in a.owner && a.owner[a.table[fd]].Connection? ::
          fd in b.table && b.table[fd] == a.table[fd])
  }

  /** Appending nothing to a history changes nothing. */
  lemma AppendNothing(h: Histories, f: File)
    requires f in h
    ensures h[f := h[f] + []] == h && h[f := h[f]] == h
  {
    assert h[f] + [] == h[f];
  }

  /** A non-empty set has a member. */
  lemma Member<T>(s: set<T>) returns (x: T)
    requires s != {}
    ensures x in s
  {
    x :| x in s;
  }

  /** Some number is above every member of a finite set. */
  lemma {:induction false} Bounded(s: set<int>) returns (n: int)
    ensures n >= 0 && forall x | x in s :: x < n
  {
    n := 0;
    if s != {} {
      var x := Member(s);
      var rest := Bounded(s - {x});
      n := if x < rest then rest else x + 1;
      forall y | y in s ensures y < n {
        assert y == x || y in s - {x};
      }
    }
  }
}

/** The loops of io_loop.c. */
module IoLoop {
  import opened Bytes
  import opened Kernel

  /** `write_loop`: write until the count is reached or a write takes nothing; what was taken by then is the result. */
  method WriteLoop(k: System, fd: int, buf: array<byte>, count: nat) returns (r: int)
    requires k.Valid() && fd in k.table && count <= buf.Length
    modifies k`sent, k`console, k`broken
    ensures k.Valid() && -1 <= r <= count
    ensures k.sent == if r <= 0 then old(k.sent) else old(k.sent)[k.table[fd] := old(k.sent[k.table[fd]]) + buf[..r]]
    ensures k.console == old(k.console) + (if r > 0 && (fd == STDOUT || fd == STDERR) then r else 0)
    ensures count == 0 ==> r == 0
    ensures k.broken <==> old(k.broken) || (r < count && (fd == STDOUT || fd == STDERR))
  {
    ghost var file := k.table[fd];
    ghost var was := k.sent;
    var offset := 0;
    var left := count;
    while left > 0
      invariant k.Valid() && offset + left == count && offset >= 0 && left >= 0
      invariant k.sent == if offset == 0 then was else was[file := was[file] + buf[..offset]]
      invariant k.console == old(k.console) + (if fd == STDOUT || fd == STDERR then offset else 0)
      invariant k.broken == old(k.broken)
    {
      var block := k.Write(fd, buf, offset, left);
      if block <= 0 {
        return if offset != 0 then offset else block;
      }
      assert buf[..offset] + buf[offset..offset + block] == buf[..offset + block];
      assert was[file] + buf[..offset] + buf[offset..offset + block] == was[file] + buf[..offset + block];
      offset := offset + block;
      left := left - block;
    }
    r := offset;
  }
}

/** The relay's byte counters and its all-or-die output: `xwrite_all` of parent.c. */
module Output {
  import opened Bytes
  import opened Kernel
  import opened IoLoop

  /** A chunk read from `fd` and written to `to`; nothing, if it is empty. */
  ghost function Copied(a: Snapshot, fd: int, to: int, chunk: seq<byte>): Snapshot {
    if chunk == [] || fd !in a.table || to !in a.table || a.table[fd] !in a.received || a.table[to] !in a.sent then a
    else
      var f, t := a.table[fd], a.table[to];
      a.(received := a.received[f := a.received[f] + chunk], sent := a.sent[t := a.sent[t] + chunk])
  }

  class Totals {
    var bytesRead: nat
    var bytesWritten: nat

    constructor ()
      ensures bytesRead == 0 && bytesWritten == 0
    {
      bytesRead, bytesWritten := 0, 0;
    }

    /** `xwrite_all` to standard output or error; false when the program dies in it, with some of the octets out. */
    method XWriteAll(k: System, fd: int, buf: array<byte>, count: nat) returns (ok: bool)
      requires k.Valid() && (fd == STDOUT || fd == STDERR) && count <= buf.Length
      modifies k`sent, k`console, k`broken, this`bytesWritten
      ensures k.Valid()
      ensures ok ==> k.sent == old(k.sent)[k.table[fd] := old(k.sent[k.table[fd]]) + buf[..count]]
      ensures ok ==> bytesWritten == old(bytesWritten) + count && k.console == old(k.console) + count
      ensures !ok ==> bytesWritten == old(bytesWritten) && old(k.console) <= k.console < old(k.console) + count
      ensures !ok ==> k.sent == old(k.sent)[k.table[fd] := k.sent[k.table[fd]]]
      ensures k.broken <==> old(k.broken) || !ok
    {
      var r := WriteLoop(k, fd, buf, count);
      ok := r == count;
      if ok {
        bytesWritten := bytesWritten + count;
        if count == 0 {
          AppendNothing(k.sent, k.table[fd]);
          assert buf[..count] == [];
        }
      }
    }

    /** Read once from one descriptor and write all of it to another; `handle_io` does this with each of the child's output streams. */
    method Copy(k: System, fd: int, to: int, buf: array<byte>) returns (eof: bool, ok: bool, ghost chunk: seq<byte>)
      requires k.Valid() && fd in k.table && (to == STDOUT || to == STDERR)
      modifies k`received, k`sent, k`console, k`broken, this`bytesWritten, buf
      ensures k.Valid() && |chunk| <= buf.Length && (eof <==> chunk == [])
      ensures fd in old(k.table) && to in old(k.table) && old(k.table[fd]) in old(k.received) && old(k.table[to]) in old(k.sent)
      ensures ok ==> k.Snap() == Copied(old(k.Snap()), fd, to, chunk)
      ensures ok ==> bytesWritten - old(bytesWritten) == k.console - old(k.console) == |chunk|
      ensures !ok ==> old(bytesWritten) == bytesWritten && old(k.console) <= k.console <= old(k.console) + buf.Length
      ensures k.broken <==> old(k.broken) || !ok
    {
      var n := k.Read(fd, buf, buf.Length);
      eof, ok := n <= 0, true;
      chunk := if eof then [] else buf[..n];
      if n > 0 {
        ok := XWriteAll(k, to, buf, n);
      }
    }
  }
}

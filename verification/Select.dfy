/** Descriptor sets and readiness: fd_set.c, and `pselect` as `handle_io` uses it. */
module Select {
  import opened Kernel

  class FdSets {
    var readFds: set<int>
    var writeFds: set<int>
    var maxFd: int
    /** The file each descriptor denoted when `pselect` was called. */
    ghost var registered: map<int, File>

    constructor ()
      ensures readFds == {} && writeFds == {} && maxFd == 0
    {
      readFds, writeFds, maxFd := {}, {}, 0;
      registered := map[];
    }

    /** `fds_add_fd` on the read set. */
    method AddRead(fd: int)
      modifies this`readFds, this`maxFd
      ensures readFds == old(readFds) + (if fd < 0 then {} else {fd})
      ensures maxFd == if fd >= 0 && fd > old(maxFd) then fd else old(maxFd)
    {
      if fd < 0 {
        return;
      }
      readFds := readFds + {fd};
      if fd > maxFd {
        maxFd := fd;
      }
    }

    /** `fds_add_fd` on the write set. */
    method AddWrite(fd: int)
      modifies this`writeFds, this`maxFd
      ensures writeFds == old(writeFds) + (if fd < 0 then {} else {fd})
      ensures maxFd == if fd >= 0 && fd > old(maxFd) then fd else old(maxFd)
    {
      if fd < 0 {
        return;
      }
      writeFds := writeFds + {fd};
      if fd > maxFd {
        maxFd := fd;
      }
    }

    /** Every descriptor in the sets is open, and `maxFd` is the largest of them, or zero. */
    ghost predicate Registrable(k: System)
      reads this`readFds, this`writeFds, this`maxFd, k`table
    {
      && (forall fd | fd in readFds || fd in writeFds :: fd in k.table && 0 <= fd <= maxFd)
      && (maxFd == 0 || maxFd in readFds || maxFd in writeFds)
    }

    /**
     `pselect`: -1 for an error or a signal, 0 for a timeout, otherwise the
     number of ready descriptors, which are what remains in the sets.
     `interrupted` tells EINTR from other errors.
     */
    method Wait(k: System) returns (rc: int, interrupted: bool)
      requires Registrable(k)
      modifies this`readFds, this`writeFds, this`registered, k`polls
      ensures readFds <= old(readFds) && writeFds <= old(writeFds)
      ensures rc >= -1 && registered == k.table
      ensures rc > 0 ==> rc == |readFds| + |writeFds|
      ensures k.polls == old(k.polls) + [
                if rc > 0 then Ready else if rc == 0 then TimedOut else if interrupted then Interrupted else Errored]
    {
      registered := k.table;
      var readable: set<int> :| readable <= readFds;
      var writable: set<int> :| writable <= writeFds;
      var failed: bool :| true;
      interrupted :| true;
      readFds, writeFds := readable, writable;
      rc := if failed then -1 else |readable| + |writable|;
      k.polls := k.polls + [
        if rc > 0 then Ready else if rc == 0 then TimedOut else if interrupted then Interrupted else Errored];
    }

    /** The descriptor, if the kernel reported it ready, denotes the file that was registered for this round. */
    ghost predicate FreshAt(table: map<int, File>, fd: int)
      reads this
    {
      fd >= 0 && (fd in readFds || fd in writeFds) ==> fd in table && fd in registered && table[fd] == registered[fd]
    }

    ghost predicate Fresh(k: System, fd: int)
      reads this, k`table
    {
      FreshAt(k.table, fd)
    }

    /** Descriptors may have been closed since `pselect`, but none has been opened. */
    ghost predicate NoneOpened(k: System)
      reads this, k`table
    {
      forall fd | fd in k.table :: fd in registered && k.table[fd] == registered[fd]
    }

    /** `fds_isset` on the read set; asking about a descriptor that has come to denote another file is an error. */
    method CanRead(k: System, fd: int) returns (ready: bool)
      requires Fresh(k, fd)
      ensures ready <==> fd >= 0 && fd in readFds
      ensures ready ==> fd in k.table
    {
      ready := fd >= 0 && fd in readFds;
    }

    /** `fds_isset` on the write set. */
    method CanWrite(k: System, fd: int) returns (ready: bool)
      requires Fresh(k, fd)
      ensures ready <==> fd >= 0 && fd in writeFds
      ensures ready ==> fd in k.table
    {
      ready := fd >= 0 && fd in writeFds;
    }
  }
}

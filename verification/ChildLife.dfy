/** The life of the child process as the relay of parent.c sees it. */
module ChildLife {

  import opened WaitStatus

  const SIGTERM := 15

  /** The exit code that stands for a wait status. */
  function Decoded(status: WaitStatus): nat {
    match status
    case Exited(code) => code
    case Signaled(signal) => 128 + signal
    case Strange => 255
  }

  /** In terms of the number that `waitpid` stores: `exit(c)` gives c, signal n gives 128 + n, with or without a core dump. */
  lemma DecodedWord(code: nat, signal: nat, core: bool)
    ensures code < 256 ==> Decoded(OfWord(256 * code)) == code
    ensures 0 < signal < 127 ==> Decoded(OfWord(signal + if core then 128 else 0)) == 128 + signal
  {
  }

  /** How `child_pid` became zero. */
  datatype End = Reaped | Forgotten

  function CodeOf(end: End, status: WaitStatus): nat {
    match end
    case Reaped => Decoded(status)
    case Forgotten => 128 + SIGTERM
  }

  /** `child_pid` and `child_rc`. */
  class Child {
    var pid: int
    var rc: nat
    const status: WaitStatus
    /** The moments `pid` went from non-zero to zero. */
    ghost var ends: seq<End>

    /** The process is either still owned, or was given up once, in one way, which alone decided the code. */
    ghost predicate Valid()
      reads this
    {
      && |ends| <= 1
      && (pid != 0 <==> ends == [])
      && rc == (if ends == [] then 0 else CodeOf(ends[0], status))
    }

    constructor (pid: int, status: WaitStatus)
      requires pid != 0
      ensures Valid() && this.pid == pid && this.status == status
    {
      this.pid, rc, this.status := pid, 0, status;
      ends := [];
    }

    /** `sigchld_handler`. */
    method SigchldHandler()
      requires Valid()
      modifies this
      ensures Valid() && pid == 0
      ensures ends == if old(pid) != 0 then [Reaped] else old(ends)
    {
      var child := pid;
      if child == 0 {
        return;
      }
      pid := 0;
      match status {
        case Exited(code) =>
          if code != 0 {
            rc := code;
          }
        case Signaled(signal) =>
          rc := 128 + signal;
        case Strange =>
          rc := 255;
      }
      ends := [Reaped];
    }

    /** `forget_child`. */
    method Forget()
      requires Valid()
      modifies this
      ensures Valid() && pid == 0
      ensures ends == if old(pid) != 0 then [Forgotten] else old(ends)
    {
      if pid != 0 {
        rc := 128 + SIGTERM;
        pid := 0;
        ends := [Forgotten];
      }
    }

    /** SIGCHLD is let in; the handler runs or does not. */
    method Deliver()
      requires Valid()
      modifies this
      ensures Valid()
      ensures ends == old(ends) || (old(ends) == [] && ends == [Reaped])
    {
      var arrived: bool :| true;
      if arrived {
        SigchldHandler();
      }
    }

    /** `wait_child`: from here on the signal is let in at any time. */
    method Wait()
      requires Valid()
      modifies this
      ensures Valid()
      ensures ends == old(ends) || (old(ends) == [] && ends == [Reaped])
    {
      Deliver();
      for i := 0 to 10
        invariant Valid()
        invariant ends == old(ends) || (old(ends) == [] && ends == [Reaped])
      {
        if pid != 0 {
          Deliver();
        }
      }
    }

    /** The end of `handle_parent`: wait a little, shut the signal out again, forget a child that is still there. */
    method Conclude() returns (code: nat)
      requires Valid()
      modifies this
      ensures Valid() && pid == 0 && |ends| == 1
      ensures code == CodeOf(ends[0], status)
      ensures old(ends) != [] ==> ends == old(ends)
    {
      Wait();
      Forget();
      code := rc;
    }
  }
}

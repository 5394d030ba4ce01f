/** The job runner of caller_runner.c: its event loop, and the replies of a whole request. */
module Runner {
  import opened Bytes
  import opened Wire
  import opened JobProtocol
  import opened WaitStatus

  // ------------------------------------------------------------- environment

  datatype Signal = Hangup | Interrupt | Quit | Terminate | ChildSignal | OtherSignal

  /** An entry of the array that `epoll_wait` fills. */
  datatype Event =
    /** EPOLLHUP or EPOLLERR on the client connection. */
    | ClientGone
    /** EPOLLIN on the signal descriptor; none when the read comes up short. */
    | SignalReady(signal: Option<Signal>)
    | OtherEvent

  datatype PollResult = Interrupted | PollFailed | Batch(events: seq<Event>)

  /** The result of `wait_job`: none stands for a `waitpid` that failed. */
  function JobResult(w: Option<WaitStatus>): int {
    match w
    case None => 1
    case Some(Exited(code)) => code
    case Some(Signaled(signal)) => 128 + signal
    case Some(Strange) => 1
  }

  /** The executor as its parent sees it. */
  class Executor {
    var reaped: bool
    var killed: bool
    const status: Option<WaitStatus>

    constructor (status: Option<WaitStatus>)
      ensures !reaped && !killed && this.status == status
    {
      reaped, killed, this.status := false, false, status;
    }

    /** `kill(pid, SIGTERM)`: the pid must not have been reaped, or it may belong to someone else. */
    method Kill(permitted: bool) returns (ok: bool)
      requires !reaped
      modifies this`killed
      ensures ok == permitted && killed == (old(killed) || permitted)
    {
      killed := killed || permitted;
      ok := permitted;
    }

    /** `wait_job`, for a child that is still to be reaped. */
    method Wait() returns (rc: int)
      requires !reaped
      modifies this`reaped
      ensures reaped && rc == JobResult(status)
    {
      reaped := true;
      rc := JobResult(status);
    }
  }

  // ------------------------------------------------------------ specification

  /** How the runner ends: still polling, without a reply, with the job's result, or with a failure. */
  datatype RunnerEnd = Polling | Disconnected | Completed | Cancelled

  predicate IsStop(e: Event) {
    e.SignalReady? && e.signal.Some? && !e.signal.value.ChildSignal? && !e.signal.value.OtherSignal?
  }

  predicate IsChild(e: Event) {
    e == SignalReady(Some(ChildSignal))
  }

  /** The effect of one batch: a lost client first, then a finished child, then a request to stop. */
  function BatchEnd(events: seq<Event>): RunnerEnd {
    if ClientGone in events then Disconnected
    else if exists e | e in events :: IsChild(e) then Completed
    else if exists e | e in events :: IsStop(e) then Cancelled
    else Polling
  }

  function EndOf(polls: seq<PollResult>): RunnerEnd {
    if polls == [] then Polling
    else
      match polls[0]
      case Interrupted => EndOf(polls[1..])
      case PollFailed => Cancelled
      case Batch(events) => if BatchEnd(events) == Polling then EndOf(polls[1..]) else BatchEnd(events)
  }

  /** What the runner sends. */
  function RunnerReplies(end: RunnerEnd, status: Option<WaitStatus>): seq<int> {
    match end
    case Completed => [JobResult(status)]
    case Cancelled => [STATUS_FAILED]
    case _ => []
  }

  // ---------------------------------------------------------------- the code

  /** `terminate_executor`. */
  method TerminateExecutor(ex: Executor, permitted: bool)
    requires !ex.reaped
    modifies ex
    ensures ex.reaped == permitted && (ex.killed <==> old(ex.killed) || permitted)
  {
    var ok := ex.Kill(permitted);
    if ok {
      var _ := ex.Wait();
    }
  }

  /** The event loop of `job_runner`, over any sequence of poll results. */
  method JobRunner(conn: ServerEnd, ex: Executor, polls: seq<PollResult>, mayKill: bool) returns (end: RunnerEnd)
    requires !ex.reaped && !ex.killed
    modifies conn`replies, ex
    ensures end == EndOf(polls)
    ensures conn.replies == old(conn.replies) + RunnerReplies(end, ex.status)
    ensures ex.reaped <==> end.Completed? || (mayKill && (end.Disconnected? || end.Cancelled?))
    ensures ex.killed <==> mayKill && (end.Disconnected? || end.Cancelled?)
  {
    var finish := false;
    var n := 0;
    while !finish
      invariant 0 <= n <= |polls| && !ex.reaped && !ex.killed && conn.replies == old(conn.replies)
      invariant EndOf(polls) == if finish then Cancelled else EndOf(polls[n..])
      decreases |polls| - n, !finish
    {
      if n == |polls| {
        return Polling;
      }
      var poll := polls[n];
      assert polls[n..][1..] == polls[n + 1..];
      n := n + 1;
      if poll.Interrupted? {
        continue;
      }
      if poll.PollFailed? {
        finish := true;
        break;
      }
      for i := 0 to |poll.events|
        invariant ClientGone !in poll.events[..i]
        invariant !ex.reaped && !ex.killed && conn.replies == old(conn.replies)
      {
        if poll.events[i].ClientGone? {
          assert poll.events[i] in poll.events;
          TerminateExecutor(ex, mayKill);
          return Disconnected;
        }
      }
      assert poll.events[..|poll.events|] == poll.events;
      for i := 0 to |poll.events|
        invariant !ex.reaped && !ex.killed && conn.replies == old(conn.replies)
        invariant forall e | e in poll.events[..i] :: !IsChild(e)
        invariant finish <==> exists e | e in poll.events[..i] :: IsStop(e)
      {
        var e := poll.events[i];
        assert poll.events[..i + 1] == poll.events[..i] + [e];
        assert e in poll.events && e in poll.events[..i + 1];
        if e.SignalReady? && e.signal.Some? {
          match e.signal.value {
            case ChildSignal =>
              var rc := ex.Wait();
              conn.Respond(rc);
              return Completed;
            case OtherSignal =>
            case _ =>
              finish := true;
          }
        }
      }
    }
    TerminateExecutor(ex, mayKill);
    conn.Respond(STATUS_FAILED);
    end := Cancelled;
  }

  /** What happens after a request is accepted. */
  datatype Spawn =
    /** The handler's pipe or fork fails. */
    | HandlerFails
    /** The runner dies before its event loop: it cannot fork the executor or drop its privileges. */
    | RunnerDies
    | RunnerLoops(polls: seq<PollResult>, mayKill: bool, status: Option<WaitStatus>)

  /** The replies after the command loop. */
  function SpawnReplies(s: Spawn): seq<int> {
    match s
    case HandlerFails => [STATUS_FAILED]
    case RunnerDies => []
    case RunnerLoops(polls, _, status) => RunnerReplies(EndOf(polls), status)
  }

  function AllReplies(r: Request, s: Spawn): seq<int> {
    LoopReplies(r) + (if r.end.Accepted? then SpawnReplies(s) else [])
  }

  /** A whole connection: the handler's command loop, then the spawned runner. */
  method ServeConnection(job: Job, conn: ServerEnd, s: Spawn)
    requires conn.replies == []
    modifies job, conn
    ensures conn.replies == AllReplies(ServeAll(old(job.State()), old(conn.input)), s)
  {
    var end := job.ReceiveRequest(conn);
    if end.Accepted? {
      match s {
        case HandlerFails =>
          conn.Respond(STATUS_FAILED);
        case RunnerDies =>
        case RunnerLoops(polls, mayKill, status) =>
          var ex := new Executor(status);
          var _ := JobRunner(conn, ex, polls, mayKill);
      }
    }
  }

  // ------------------------------------------------------------- correctness

  /** A job result can never be mistaken for a failure. */
  lemma ResultIsNotFailure(w: Option<WaitStatus>)
    requires w.Some? ==> Genuine(w.value)
    ensures 0 <= JobResult(w) <= 255 && JobResult(w) != STATUS_FAILED
  {
  }

  /** The result in terms of the number that `waitpid` stores: `exit(c)` gives c, signal n gives 128 + n. */
  lemma ResultOfWord(code: nat, signal: nat, core: bool)
    ensures code < 256 ==> JobResult(Some(OfWord(256 * code))) == code
    ensures 0 < signal < 127 ==> JobResult(Some(OfWord(signal + if core then 128 else 0))) == 128 + signal
    ensures JobResult(None) == 1
  {
  }

  /** A batch of events ends the runner in this order of precedence, whatever the order of the events. */
  lemma BatchEndExactly(events: seq<Event>)
    ensures BatchEnd(events).Disconnected? <==> ClientGone in events
    ensures BatchEnd(events).Completed? <==> ClientGone !in events && SignalReady(Some(ChildSignal)) in events
    ensures BatchEnd(events).Cancelled? <==>
              && ClientGone !in events && SignalReady(Some(ChildSignal)) !in events
              && (SignalReady(Some(Hangup)) in events || SignalReady(Some(Interrupt)) in events
                  || SignalReady(Some(Quit)) in events || SignalReady(Some(Terminate)) in events)
  {
    if exists e | e in events :: IsStop(e) {
      var e :| e in events && IsStop(e);
      assert e in {SignalReady(Some(Hangup)), SignalReady(Some(Interrupt)), SignalReady(Some(Quit)), SignalReady(Some(Terminate))};
    }
  }

  /** The first poll that fails, or whose events end the runner, decides. */
  lemma {:induction false} FirstDecides(polls: seq<PollResult>, n: nat)
    requires n < |polls|
    requires forall i | 0 <= i < n :: polls[i].Interrupted? || (polls[i].Batch? && BatchEnd(polls[i].events).Polling?)
    ensures polls[n].PollFailed? ==> EndOf(polls) == Cancelled
    ensures polls[n].Batch? && !BatchEnd(polls[n].events).Polling? ==> EndOf(polls) == BatchEnd(polls[n].events)
  {
    if n > 0 {
      FirstDecides(polls[1..], n - 1);
    }
  }

  lemma {:induction false} AcceptedHasCommand(j: JobState, input: seq<Cell>)
    ensures !ServeAll(j, input).end.ServerError? ==> ServeAll(j, input).commands >= 1
    decreases Unseen(j.mask, 8)
  {
    var s := Receive(j, input);
    if s.verdict.Continue? {
      ContinueShrinks(j, input);
    }
  }

  /**
   Over every input of the client and everything the environment does: the
   replies to the commands come in order, one at most for each, all but the
   last of them saying done, so a failure is always the last. The only reply
   beyond the commands is a failure sent when the next header does not come.
   */
  lemma OneReplyPerCommand(input: seq<Cell>, s: Spawn)
    requires s.RunnerLoops? && s.status.Some? ==> Genuine(s.status.value)
    ensures var r := ServeAll(INITIAL_JOB, input);
            var replies := AllReplies(r, s);
            && (forall i | 0 <= i < |replies| - 1 :: replies[i] == STATUS_DONE)
            && (forall i | 0 <= i < |replies| && replies[i] == STATUS_FAILED :: i == |replies| - 1)
            && |replies| <= r.commands + (if r.end.ServerError? then 1 else 0)
            && (|replies| > r.commands <==> r.end.ServerError?)
            && (|replies| > r.commands ==> replies[r.commands] == STATUS_FAILED)
  {
    var r := ServeAll(INITIAL_JOB, input);
    AcceptedHasCommand(INITIAL_JOB, input);
    if s.RunnerLoops? {
      ResultIsNotFailure(s.status);
    }
  }

  /** The client learns the job's result exactly when the executor ends before the client leaves or the runner is told to stop. */
  lemma ResultIsDelivered(input: seq<Cell>, s: Spawn)
    requires ServeAll(INITIAL_JOB, input).end.Accepted?
    requires s.RunnerLoops? && (s.status.Some? ==> Genuine(s.status.value))
    ensures var r := ServeAll(INITIAL_JOB, input);
            var replies := AllReplies(r, s);
            |replies| == r.commands && replies[|replies| - 1] == JobResult(s.status) != STATUS_FAILED
            <==> EndOf(s.polls).Completed?
  {
    AcceptedHasCommand(INITIAL_JOB, input);
    ResultIsNotFailure(s.status);
  }
}

/** A whole request from the client's words to the job's result: the client's stream served by the server's loop and the runner. */
module EndToEnd {
  import opened Bytes
  import opened Wire
  import opened JobProtocol
  import opened Runner
  import opened WaitStatus

  /** Everything the client sends from message n on, if it gets to the end. */
  function Stream(o: Order, cs: seq<Command>, n: nat): seq<Cell>
    requires n <= |cs|
    decreases |cs| - n
  {
    if n == |cs| || MessageFor(o, cs[n]).len >= U32 then []
    else Wired(MessageFor(o, cs[n])) + Stream(o, cs, n + 1)
  }

  lemma HeaderIsFirst(input: seq<Cell>, more: seq<Cell>)
    requires |input| >= HEADER_SIZE
    ensures DecodeHeader(input + more) == DecodeHeader(input)
  {
    OctetsConcat(input, more);
    assert Octets(input + more)[..8] == Octets(input)[..8];
    assert Octets(input + more)[..4] == Octets(input)[..4];
    assert Octets(input + more)[4..8] == Octets(input)[4..8];
  }

  lemma StringsAreFirst(input: seq<Cell>, more: seq<Cell>, len: nat)
    requires TakeStrings(input, len).Some?
    ensures TakeStrings(input + more, len) == TakeStrings(input, len)
    ensures (input + more)[len..] == input[len..] + more
  {
    assert (input + more)[..len] == input[..len];
  }

  lemma FilesAreFirst(input: seq<Cell>, more: seq<Cell>, n: nat)
    requires TakeFiles(input, n).Some?
    ensures TakeFiles(input + more, n) == TakeFiles(input, n)
    ensures (input + more)[1..] == input[1..] + more
  {
  }

  lemma PayloadIsFirst(j: JobState, c: Command, len: nat, input: seq<Cell>, more: seq<Cell>)
    requires Payload(j, c, len, input).verdict.Continue? || Payload(j, c, len, input).verdict.Accepted?
    ensures var s := Payload(j, c, len, input);
            Payload(j, c, len, input + more) == s.(rest := s.rest + more)
  {
    match c {
      case SetArguments => StringsAreFirst(input, more, len);
      case SetEnviron => StringsAreFirst(input, more, len);
      case SetChrootFd => FilesAreFirst(input, more, 1);
      case SetFds => FilesAreFirst(input, more, 3);
      case _ =>
    }
  }

  /** The server takes from the stream no more than the command it accepts, whatever follows. */
  lemma CommandIsFirst(j: JobState, input: seq<Cell>, more: seq<Cell>)
    requires Receive(j, input).verdict.Continue? || Receive(j, input).verdict.Accepted?
    ensures var s := Receive(j, input);
            Receive(j, input + more) == s.(rest := s.rest + more)
  {
    hide Payload, DecodeHeader;
    HeaderIsFirst(input, more);
    var h := DecodeHeader(input);
    assert (input + more)[HEADER_SIZE..] == input[HEADER_SIZE..] + more;
    var marked := j.(mask := Bits.Or(j.mask, h.kind));
    PayloadIsFirst(marked, CommandOf(h.kind).value, h.len, input[HEADER_SIZE..], more);
  }

  /** A dialogue that runs the job is the server's loop over the client's whole stream. */
  lemma {:induction false} DialogueIsServed(j: JobState, pending: seq<Cell>, o: Order, cs: seq<Command>, n: nat)
    requires n <= |cs| && Converse(j, pending, o, cs, n).Ran?
    ensures var r := ServeAll(j, pending + Stream(o, cs, n));
            r.end.Accepted? && r.job == Converse(j, pending, o, cs, n).job && 1 <= r.commands <= |cs| - n
    decreases |cs| - n
  {
    hide Receive;
    var w := Wired(MessageFor(o, cs[n]));
    var rest := Stream(o, cs, n + 1);
    assert pending + Stream(o, cs, n) == pending + w + rest;
    CommandIsFirst(j, pending + w, rest);
    var s := Receive(j, pending + w);
    if s.verdict.Continue? {
      DialogueIsServed(s.job, s.rest, o, cs, n + 1);
    }
  }

  /**
   A request from end to end: whatever the client can be asked to send, if its
   blocks fit, the server's loop over the client's stream ends in the job that
   was ordered, every reply before the last says done, and the last is the
   result of that job if it completes.
   */
  lemma OrderIsServed(o: Order, polls: seq<PollResult>, mayKill: bool, status: Option<WaitStatus>)
    requires Issued(o) && Fits(o) && (status.Some? ==> Genuine(status.value))
    ensures var r := ServeAll(INITIAL_JOB, Stream(o, Commands(o), 0));
            var replies := AllReplies(r, RunnerLoops(polls, mayKill, status));
            && r.end.Accepted? && SameOrder(r.job, o)
            && replies == Dones(r.commands - 1) + RunnerReplies(EndOf(polls), status)
            && (EndOf(polls).Completed? ==> replies[r.commands - 1] == JobResult(status) != STATUS_FAILED)
  {
    hide Converse, ServeAll, Commands;
    ClientAndServerCompose(o);
    DialogueIsServed(INITIAL_JOB, [], o, Commands(o), 0);
    assert [] + Stream(o, Commands(o), 0) == Stream(o, Commands(o), 0);
    ResultIsNotFailure(status);
  }
}

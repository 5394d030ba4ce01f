/** The job request protocol: the command loop of caller_job.c, the client of hasher-priv.c, and their composition. */
module JobProtocol {
  import opened Bytes
  import opened Wire
  import opened Strings
  import Bits

  // --------------------------------------------------------------- constants

  /** `cmd_enum_t`: each job command is one bit. */
  datatype Command = SetType | SetFds | SetArguments | SetEnviron | SetChrootFd | SetPersonality | Run

  function BitOf(c: Command): (k: nat)
    ensures 1 <= k <= 7
  {
    match c
    case SetType => 1
    case SetFds => 2
    case SetArguments => 3
    case SetEnviron => 4
    case SetChrootFd => 5
    case SetPersonality => 6
    case Run => 7
  }

  /** The wire value of a command. */
  function Code(c: Command): (n: nat)
    ensures 2 <= n <= 128
  {
    match c
    case SetType => 2
    case SetFds => 4
    case SetArguments => 8
    case SetEnviron => 16
    case SetChrootFd => 32
    case SetPersonality => 64
    case Run => 128
  }

  lemma CodeIsBit(c: Command)
    ensures Code(c) == Bits.Pow2(BitOf(c))
  {
    assert Bits.Pow2(2) == 4;
    assert Bits.Pow2(4) == 16;
    assert Bits.Pow2(6) == 64;
  }

  function CommandOf(code: nat): (c: Option<Command>)
    ensures c.Some? ==> Code(c.value) == code
  {
    if code == 2 then Some(SetType)
    else if code == 4 then Some(SetFds)
    else if code == 8 then Some(SetArguments)
    else if code == 16 then Some(SetEnviron)
    else if code == 32 then Some(SetChrootFd)
    else if code == 64 then Some(SetPersonality)
    else if code == 128 then Some(Run)
    else None
  }

  // `job_enum_t`.
  const JOB_NONE := 0
  const JOB_GETCONF := 1
  const JOB_KILLUID := 2
  const JOB_GETUGID1 := 3
  const JOB_CHROOTUID1 := 4
  const JOB_GETUGID2 := 5
  const JOB_CHROOTUID2 := 6

  predicate IsChrootuid(jobType: nat) {
    jobType == JOB_CHROOTUID1 || jobType == JOB_CHROOTUID2
  }

  const NO_PERSONA := 0xFFFF_FFFF
  const STATUS_DONE := 0
  const STATUS_FAILED := -1

  // ------------------------------------------------------------ specification

  /** `struct job`, with files for descriptors and strings for pointers. */
  datatype JobState = JobState(
    jobType: nat, mask: nat, persona: nat,
    chrootFd: Option<File>, stdFds: Option<seq<File>>,
    argv: Option<seq<CString>>, env: Option<seq<CString>>)

  const INITIAL_JOB := JobState(JOB_NONE, 0, NO_PERSONA, None, None, None, None)

  /** `validate_arguments`. */
  predicate ArgumentsOk(jobType: nat, argc: nat) {
    if IsChrootuid(jobType) then argc >= 1
    else 1 <= jobType <= 6 && argc == 0
  }

  /** `validate_job`. */
  predicate JobOk(j: JobState) {
    IsChrootuid(j.jobType) ==> Bits.Bit(j.mask, BitOf(SetChrootFd)) && Bits.Bit(j.mask, BitOf(SetArguments))
  }

  datatype Verdict = Continue | BadRequest | ServerError | Accepted

  datatype Step = Step(job: JobState, rest: seq<Cell>, verdict: Verdict)

  /** `recv_strings_from_client`. */
  function TakeStrings(input: seq<Cell>, len: nat): Option<seq<CString>> {
    if len > MAX_ARGS_SIZE || |input| < len then None
    else Some(Split(Octets(input[..len])))
  }

  /** The payload of one command, after its bit has been put in the mask. */
  function Payload(j: JobState, c: Command, len: nat, input: seq<Cell>): Step {
    match c
    case SetType => Step(j.(jobType := len), input, Continue)
    case SetPersonality => Step(j.(persona := len), input, Continue)
    case SetChrootFd =>
      var files := TakeFiles(input, 1);
      if len != 4 || files.None? then Step(j, input, BadRequest)
      else Step(j.(chrootFd := Some(files.value[0])), input[1..], Continue)
    case SetFds =>
      var files := TakeFiles(input, 3);
      if len != 12 || files.None? then Step(j, input, BadRequest)
      else Step(j.(stdFds := files), input[1..], Continue)
    case SetArguments =>
      var strs := TakeStrings(input, len);
      if strs.None? then Step(j, input, BadRequest)
      else Step(j.(argv := strs), input[len..], if ArgumentsOk(j.jobType, |strs.value|) then Continue else BadRequest)
    case SetEnviron =>
      var strs := TakeStrings(input, len);
      if strs.None? then Step(j, input, BadRequest)
      else Step(j.(env := strs), input[len..], Continue)
    case Run => Step(j, input, if len != 0 || !JobOk(j) then BadRequest else Accepted)
  }

  /** One round of the command loop. */
  function Receive(j: JobState, input: seq<Cell>): Step {
    if |input| < HEADER_SIZE then Step(j, [], ServerError)
    else
      var h := DecodeHeader(input);
      var rest := input[HEADER_SIZE..];
      if Bits.And(j.mask, h.kind) != 0 then Step(j, rest, BadRequest)
      else
        var marked := j.(mask := Bits.Or(j.mask, h.kind));
        match CommandOf(h.kind)
        case None => Step(marked, rest, BadRequest)
        case Some(c) => Payload(marked, c, h.len, rest)
  }

  /** Commands not seen yet. */
  function Unseen(mask: nat, k: nat): (n: nat)
    requires k <= 8
  {
    if k == 0 then 0 else Unseen(mask, k - 1) + (if Bits.Bit(mask, k - 1) then 0 else 1)
  }

  lemma {:induction false} UnseenShrinks(mask: nat, c: Command, k: nat)
    requires !Bits.Bit(mask, BitOf(c)) && k <= 8
    ensures Unseen(Bits.Or(mask, Code(c)), k) == Unseen(mask, k) - (if BitOf(c) < k then 1 else 0)
  {
    if k > 0 {
      UnseenShrinks(mask, c, k - 1);
      CodeIsBit(c);
      Bits.BitOr(mask, Code(c), k - 1);
      Bits.BitPow2(BitOf(c), k - 1);
    }
  }

  /** A command whose bit is clear in the mask; or-ing the code in sets that bit and no other. */
  lemma FreshBit(mask: nat, c: Command, k: nat)
    ensures Bits.And(mask, Code(c)) == 0 ==> !Bits.Bit(mask, BitOf(c))
    ensures Bits.Bit(Bits.Or(mask, Code(c)), k) <==> Bits.Bit(mask, k) || k == BitOf(c)
  {
    CodeIsBit(c);
    Bits.BitAnd(mask, Code(c), BitOf(c));
    Bits.BitPow2(BitOf(c), BitOf(c));
    Bits.NoBits(BitOf(c));
    Bits.BitOr(mask, Code(c), k);
    Bits.BitPow2(BitOf(c), k);
  }

  /** An accepted command clears one of the unseen bits: the loop ends. */
  lemma ContinueShrinks(j: JobState, input: seq<Cell>)
    requires Receive(j, input).verdict.Continue?
    ensures Unseen(Receive(j, input).job.mask, 8) < Unseen(j.mask, 8)
  {
    var c := CommandOf(DecodeHeader(input).kind).value;
    FreshBit(j.mask, c, BitOf(c));
    UnseenShrinks(j.mask, c, 8);
  }

  /** A whole request: the final state, the number of commands whose header arrived, and the verdict that ended it. */
  datatype Request = Request(job: JobState, commands: nat, end: Verdict)

  function ServeAll(j: JobState, input: seq<Cell>): (r: Request)
    ensures !r.end.Continue?
    decreases Unseen(j.mask, 8)
  {
    var s := Receive(j, input);
    match s.verdict
    case Continue =>
      ContinueShrinks(j, input);
      var r := ServeAll(s.job, s.rest);
      r.(commands := r.commands + 1)
    case ServerError => Request(s.job, 0, ServerError)
    case _ => Request(s.job, 1, s.verdict)
  }

  // ---------------------------------------------------------------- the code

  /** The server's end of a connection: what is still to be read, and the status codes sent. */
  class ServerEnd {
    var input: seq<Cell>
    var replies: seq<int>

    constructor ()
      ensures input == [] && replies == []
    {
      input, replies := [], [];
    }

    /** `xrecvmsg`: all of it or failure. */
    method Receive(len: nat) returns (octets: Option<seq<byte>>)
      modifies this`input
      ensures |old(input)| < len ==> octets == None && input == []
      ensures |old(input)| >= len ==> octets == Some(Octets(old(input[..len]))) && input == old(input[len..])
    {
      if |input| < len {
        input := [];
        return None;
      }
      octets := Some(Octets(input[..len]));
      input := input[len..];
    }

    /** `fd_recv`. */
    method ReceiveFiles(n: nat) returns (files: Option<seq<File>>)
      modifies this`input
      ensures files == TakeFiles(old(input), n)
      ensures input == if files.Some? then old(input)[1..] else old(input)
    {
      files := TakeFiles(input, n);
      if files.Some? {
        input := input[1..];
      }
    }

    /** `send_response_to_client`. */
    method Respond(status: int)
      modifies this`replies
      ensures replies == old(replies) + [status]
    {
      replies := replies + [status];
    }
  }

  /** The strings a null-terminated pointer vector denotes. */
  method FollowPointers(args: array<byte>, av: array<int>, ghost data: seq<byte>) returns (list: seq<CString>)
    requires args[..] == data + [0] && av[..] == Starts(data, 0) + [-1]
    ensures list == Split(data)
  {
    hide Starts, SplitFrom, StrLen;
    ghost var starts, strings := Starts(data, 0), Split(data);
    SplitAtStarts(data, 0);
    list := [];
    var n := 0;
    while av[n] >= 0
      invariant 0 <= n <= |starts| && list == strings[..n]
      decreases |starts| - n
    {
      assert av[n] == av[..][n] == starts[n];
      assert args[..args.Length - 1] == data;
      var end := RawMemchr(args, av[n]);
      assert args[av[n]..end] == data[av[n]..end];
      assert strings[n] == args[av[n]..end] && strings[..n + 1] == strings[..n] + [strings[n]];
      list := list + [args[av[n]..end]];
      n := n + 1;
    }
    assert av[n] == av[..][n];
    assert strings[..n] == strings;
  }

  class Job {
    var jobType: nat
    var mask: nat
    var persona: nat
    var chrootFd: Option<File>
    var stdFds: Option<seq<File>>
    var argv: Option<seq<CString>>
    var env: Option<seq<CString>>

    ghost function State(): JobState
      reads this
    {
      JobState(jobType, mask, persona, chrootFd, stdFds, argv, env)
    }

    /** The initialiser of `spawn_job_request_handler`. */
    constructor ()
      ensures State() == INITIAL_JOB
    {
      jobType, mask, persona := JOB_NONE, 0, NO_PERSONA;
      chrootFd, stdFds, argv, env := None, None, None, None;
    }

    /** `recv_strings_from_client`: read the block, cut it in two passes, and follow the pointers. */
    method ReceiveStrings(conn: ServerEnd, len: nat) returns (strs: Option<seq<CString>>)
      modifies conn`input
      ensures strs == TakeStrings(old(conn.input), len)
      ensures strs.Some? ==> conn.input == old(conn.input)[len..]
    {
      if len > MAX_ARGS_SIZE {
        return None;
      }
      var data := conn.Receive(len);
      if data.None? {
        return None;
      }
      var args, av := CutStrings(data.value);
      var list := FollowPointers(args, av, data.value);
      strs := Some(list);
    }

    /** `validate_arguments`. */
    method ValidateArguments() returns (ok: bool)
      requires argv.Some?
      ensures ok <==> ArgumentsOk(jobType, |argv.value|)
    {
      var requiredArgs, moreArgs := 0, false;
      if jobType == JOB_GETCONF || jobType == JOB_KILLUID || jobType == JOB_GETUGID1 || jobType == JOB_GETUGID2 {
        requiredArgs := 0;
      } else if jobType == JOB_CHROOTUID1 || jobType == JOB_CHROOTUID2 {
        moreArgs := true;
        requiredArgs := 1;
      } else {
        return false;
      }
      var argc := |argv.value|;
      ok := !(argc < requiredArgs) && !(argc > requiredArgs && !moreArgs);
    }

    /** One round of `receive_job_request`: read a header, check and set its bit, switch on it. */
    method ReceiveCommand(conn: ServerEnd) returns (v: Verdict)
      modifies this, conn`input
      ensures var s := Receive(old(State()), old(conn.input));
              && v == s.verdict
              && (v.Continue? || v.Accepted? ==> State() == s.job && conn.input == s.rest)
    {
      ghost var input := conn.input;
      var header := conn.Receive(HEADER_SIZE);
      if header.None? {
        return ServerError;
      }
      assert header.value[..4] == Octets(input)[..4] && header.value[4..8] == Octets(input)[4..8];
      var kind, len := Decode32(header.value[..4]), Decode32(header.value[4..8]);
      if Bits.And(mask, kind) != 0 {
        return BadRequest;
      }
      mask := Bits.Or(mask, kind);
      var c := CommandOf(kind);
      if c.None? {
        return BadRequest;
      }
      v := ReceivePayload(conn, c.value, len);
    }

    /** The switch of `receive_job_request`. */
    method ReceivePayload(conn: ServerEnd, c: Command, len: nat) returns (v: Verdict)
      modifies this, conn`input
      ensures var s := Payload(old(State()), c, len, old(conn.input));
              && v == s.verdict
              && (v.Continue? || v.Accepted? ==> State() == s.job && conn.input == s.rest)
    {
      match c {
        case SetType =>
          jobType := len;
        case SetPersonality =>
          persona := len;
        case SetChrootFd =>
          if len != 4 {
            return BadRequest;
          }
          var files := conn.ReceiveFiles(1);
          if files.None? {
            return BadRequest;
          }
          chrootFd := Some(files.value[0]);
        case SetFds =>
          if len != 12 {
            return BadRequest;
          }
          var files := conn.ReceiveFiles(3);
          if files.None? {
            return BadRequest;
          }
          stdFds := files;
        case SetArguments =>
          var strs := ReceiveStrings(conn, len);
          if strs.None? {
            return BadRequest;
          }
          argv := strs;
          var ok := ValidateArguments();
          if !ok {
            return BadRequest;
          }
        case SetEnviron =>
          var strs := ReceiveStrings(conn, len);
          if strs.None? {
            return BadRequest;
          }
          env := strs;
        case Run =>
          if len != 0 {
            return BadRequest;
          }
          if IsChrootuid(jobType) &&
             !(Bits.Bit(mask, BitOf(SetChrootFd)) && Bits.Bit(mask, BitOf(SetArguments))) {
            return BadRequest;
          }
          return Accepted;
      }
      v := Continue;
    }

    /**
     The command loop: a reply after every command, a last one when the
     request fails. When it is accepted, `spawn_job_runner` takes over; see
     module Runner for its reply. The measure is the number of clear bits.
     */
    method ReceiveRequest(conn: ServerEnd) returns (end: Verdict)
      modifies this, conn
      ensures var r := ServeAll(old(State()), old(conn.input));
              && end == r.end
              && (end.Accepted? ==> State() == r.job)
              && conn.replies == old(conn.replies) + LoopReplies(r)
    {
      ghost var start := ServeAll(State(), conn.input);
      ghost var rounds := 0;
      while true
        invariant 0 <= rounds <= start.commands
        invariant var r := ServeAll(State(), conn.input);
                  r.(commands := r.commands + rounds) == start
        invariant conn.replies == old(conn.replies) + Dones(rounds)
        decreases Unseen(mask, 8)
      {
        ContinueShrinksIf(State(), conn.input);
        end := ReceiveCommand(conn);
        match end {
          case Continue =>
            conn.Respond(STATUS_DONE);
            rounds := rounds + 1;
          case Accepted =>
            return;
          case _ =>
            conn.Respond(STATUS_FAILED);
            return;
        }
      }
    }
  }

  lemma ContinueShrinksIf(j: JobState, input: seq<Cell>)
    ensures Receive(j, input).verdict.Continue? ==> Unseen(Receive(j, input).job.mask, 8) < Unseen(j.mask, 8)
  {
    if Receive(j, input).verdict.Continue? {
      ContinueShrinks(j, input);
    }
  }

  function Dones(n: nat): (r: seq<int>)
    ensures |r| == n && forall i | 0 <= i < n :: r[i] == STATUS_DONE
  {
    seq(n, _ => STATUS_DONE)
  }

  /** The replies of the command loop itself. */
  function LoopReplies(r: Request): seq<int> {
    match r.end
    case Accepted => Dones(if r.commands > 0 then r.commands - 1 else 0)
    case BadRequest => Dones(if r.commands > 0 then r.commands - 1 else 0) + [STATUS_FAILED]
    case _ => Dones(r.commands) + [STATUS_FAILED]
  }

  // ------------------------------------------------------ the state invariant

  /**
   What holds of a request that is still alive: each field is set exactly when
   its bit is, an argument vector has been checked against the type that is
   now final, and no unknown bit was ever accepted.
   */
  ghost predicate Alive(j: JobState) {
    && (Bits.Bit(j.mask, BitOf(SetFds)) <==> j.stdFds.Some?)
    && (j.stdFds.Some? ==> |j.stdFds.value| == 3)
    && (Bits.Bit(j.mask, BitOf(SetChrootFd)) <==> j.chrootFd.Some?)
    && (Bits.Bit(j.mask, BitOf(SetEnviron)) <==> j.env.Some?)
    && (Bits.Bit(j.mask, BitOf(SetArguments)) <==> j.argv.Some?)
    && (!Bits.Bit(j.mask, BitOf(SetType)) ==> j.jobType == JOB_NONE)
    && (!Bits.Bit(j.mask, BitOf(SetPersonality)) ==> j.persona == NO_PERSONA)
    && (j.argv.Some? ==> Bits.Bit(j.mask, BitOf(SetType)) && ArgumentsOk(j.jobType, |j.argv.value|))
  }

  lemma InitiallyAlive()
    ensures Alive(INITIAL_JOB)
  {
    forall k: nat
      ensures !Bits.Bit(0, k)
    {
      Bits.NoBits(k);
    }
  }

  /** Nothing received is received again: every field whose bit was set keeps its value. */
  ghost predicate NothingOverwritten(j: JobState, k: JobState) {
    && (forall b: nat :: Bits.Bit(j.mask, b) ==> Bits.Bit(k.mask, b))
    && (Bits.Bit(j.mask, BitOf(SetType)) ==> k.jobType == j.jobType)
    && (Bits.Bit(j.mask, BitOf(SetPersonality)) ==> k.persona == j.persona)
    && (Bits.Bit(j.mask, BitOf(SetFds)) ==> k.stdFds == j.stdFds)
    && (Bits.Bit(j.mask, BitOf(SetChrootFd)) ==> k.chrootFd == j.chrootFd)
    && (Bits.Bit(j.mask, BitOf(SetArguments)) ==> k.argv == j.argv)
    && (Bits.Bit(j.mask, BitOf(SetEnviron)) ==> k.env == j.env)
  }

  /** A command that is not refused has a known code, its bit was clear, and exactly that bit is added. */
  lemma CommandAddsItsBit(j: JobState, input: seq<Cell>)
    requires Receive(j, input).verdict.Continue? || Receive(j, input).verdict.Accepted?
    ensures var c := CommandOf(DecodeHeader(input).kind);
            && c.Some? && !Bits.Bit(j.mask, BitOf(c.value))
            && Receive(j, input) ==
               Payload(j.(mask := Bits.Or(j.mask, Code(c.value))), c.value, DecodeHeader(input).len, input[HEADER_SIZE..])
            && forall b: nat :: Bits.Bit(Receive(j, input).job.mask, b) <==> Bits.Bit(j.mask, b) || b == BitOf(c.value)
  {
    var c := CommandOf(DecodeHeader(input).kind).value;
    FreshBit(j.mask, c, BitOf(c));
    forall b: nat
      ensures Bits.Bit(Bits.Or(j.mask, Code(c)), b) <==> Bits.Bit(j.mask, b) || b == BitOf(c)
    {
      FreshBit(j.mask, c, b);
    }
  }

  /** Every accepted command keeps the invariant and overwrites nothing. */
  lemma CommandKeepsAlive(j: JobState, input: seq<Cell>)
    requires Alive(j)
    requires Receive(j, input).verdict.Continue? || Receive(j, input).verdict.Accepted?
    ensures Alive(Receive(j, input).job) && NothingOverwritten(j, Receive(j, input).job)
  {
    CommandAddsItsBit(j, input);
    var c := CommandOf(DecodeHeader(input).kind).value;
    var marked := j.(mask := Bits.Or(j.mask, Code(c)));
    PayloadKeepsAlive(j, marked, c, DecodeHeader(input).len, input[HEADER_SIZE..]);
  }

  lemma PayloadKeepsAlive(j: JobState, marked: JobState, c: Command, len: nat, rest: seq<Cell>)
    requires Alive(j) && marked == j.(mask := marked.mask) && !Bits.Bit(j.mask, BitOf(c))
    requires forall b: nat :: Bits.Bit(marked.mask, b) <==> Bits.Bit(j.mask, b) || b == BitOf(c)
    requires !Payload(marked, c, len, rest).verdict.BadRequest?
    ensures Alive(Payload(marked, c, len, rest).job) && NothingOverwritten(j, Payload(marked, c, len, rest).job)
  {
    hide Bits.Bit, TakeStrings, TakeFiles;
  }

  /** Over any input whatever: the state in which a request is accepted is alive, and keeps what was received before. */
  lemma {:induction false} AcceptedIsAlive(j: JobState, input: seq<Cell>)
    requires Alive(j) && ServeAll(j, input).end.Accepted?
    ensures Alive(ServeAll(j, input).job) && JobOk(ServeAll(j, input).job)
    ensures NothingOverwritten(j, ServeAll(j, input).job)
    decreases Unseen(j.mask, 8)
  {
    var s := Receive(j, input);
    CommandKeepsAlive(j, input);
    if s.verdict.Continue? {
      ContinueShrinks(j, input);
      AcceptedIsAlive(s.job, s.rest);
    } else {
      assert CommandOf(DecodeHeader(input).kind) == Some(Run);
      FreshBit(j.mask, Run, BitOf(SetChrootFd));
      FreshBit(j.mask, Run, BitOf(SetArguments));
    }
  }

  /** Hence an accepted chrootuid job has a root directory and at least one argument, whatever the client sent. */
  lemma AcceptedChrootuidIsComplete(input: seq<Cell>)
    ensures var r := ServeAll(INITIAL_JOB, input);
            r.end.Accepted? && IsChrootuid(r.job.jobType) ==>
              r.job.chrootFd.Some? && r.job.argv.Some? && |r.job.argv.value| >= 1
  {
    InitiallyAlive();
    if ServeAll(INITIAL_JOB, input).end.Accepted? {
      AcceptedIsAlive(INITIAL_JOB, input);
    }
  }

  /** And one that is not a chrootuid job has no arguments. */
  lemma AcceptedOtherHasNoArguments(input: seq<Cell>)
    ensures var r := ServeAll(INITIAL_JOB, input);
            r.end.Accepted? && !IsChrootuid(r.job.jobType) && r.job.argv.Some? ==>
              r.job.argv.value == [] && 1 <= r.job.jobType <= 6
  {
    InitiallyAlive();
    if ServeAll(INITIAL_JOB, input).end.Accepted? {
      AcceptedIsAlive(INITIAL_JOB, input);
    }
  }

  /**
   What is refused: a header that does not come, a repeated or unknown command,
   descriptors of another number or announced with another size, strings too
   long or cut short, and a run with a payload.
   */
  lemma RefusedExactly(j: JobState, input: seq<Cell>)
    ensures Receive(j, input).verdict.ServerError? <==> |input| < 8
    ensures |input| >= 8 ==>
              var h, rest := DecodeHeader(input), input[8..];
              && (Bits.And(j.mask, h.kind) != 0 ==> Receive(j, input).verdict.BadRequest?)
              && (h.kind !in {2, 4, 8, 16, 32, 64, 128} ==> Receive(j, input).verdict.BadRequest?)
              && (Bits.And(j.mask, h.kind) == 0 ==>
                    && (h.kind == 4 ==>
                          (Receive(j, input).verdict.Continue? <==> h.len == 12 && rest != [] && |rest[0].files| == 3))
                    && (h.kind == 32 ==>
                          (Receive(j, input).verdict.Continue? <==> h.len == 4 && rest != [] && |rest[0].files| == 1))
                    && (h.kind == 16 ==> (Receive(j, input).verdict.Continue? <==> h.len <= 0x20000 && h.len <= |rest|))
                    && (h.kind == 8 ==>
                          (Receive(j, input).verdict.Continue? <==>
                             && h.len <= 0x20000 && h.len <= |rest|
                             && var argc := |Split(Octets(rest[..h.len]))|;
                                if j.jobType == 4 || j.jobType == 6 then argc >= 1 else 1 <= j.jobType <= 6 && argc == 0))
                    && (h.kind == 128 && h.len != 0 ==> Receive(j, input).verdict.BadRequest?))
  {
    hide Bits.And, Bits.Or, Bits.Bit, Split;
  }

  // ------------------------------------------------------------- composition

  /** What the client's `main` has to send: the job, and what `parse_cmdline` and the environment gave it. */
  datatype Order = Order(
    jobType: nat, stdFds: seq<File>, args: Option<seq<CString>>,
    env: seq<CString>, chrootFd: File, persona: Option<nat>)

  /** One command as the client puts it on the wire. */
  datatype Message = Message(command: Command, len: nat, payload: seq<Cell>)

  function Wired(m: Message): seq<Cell>
    requires m.len < U32
  {
    EncodeHeader(Code(m.command), m.len) + m.payload
  }

  /** `send_strings`. */
  function StringsMessage(c: Command, strs: seq<CString>): Message {
    Message(c, |Block(strs)|, Plain(Block(strs)))
  }

  /** `send_fds`: a single octet carries the descriptors. */
  function FilesMessage(c: Command, files: seq<File>): Message {
    Message(c, 4 * |files|, [Cell(0, files)])
  }

  /** The message with which the client issues a command. */
  function MessageFor(o: Order, c: Command): Message {
    match c
    case SetType => Message(c, o.jobType, [])
    case SetFds => FilesMessage(c, o.stdFds)
    case SetArguments => StringsMessage(c, if o.args.Some? then o.args.value else [])
    case SetEnviron => StringsMessage(c, o.env)
    case SetChrootFd => FilesMessage(c, [o.chrootFd])
    case SetPersonality => Message(c, if o.persona.Some? then o.persona.value else 0, [])
    case Run => Message(c, 0, [])
  }

  /** The commands of the client's `main`, in order. */
  function Commands(o: Order): seq<Command> {
    [SetType, SetFds]
    + (if o.args.Some? then [SetArguments] else [])
    + (if IsChrootuid(o.jobType)
       then [SetEnviron, SetChrootFd] + (if o.persona.Some? then [SetPersonality] else [])
       else [])
    + [Run]
  }

  /** What `parse_cmdline` and the system calls guarantee of an order. */
  ghost predicate Issued(o: Order) {
    && 1 <= o.jobType <= 6 && |o.stdFds| == 3
    && (o.args.Some? <==> IsChrootuid(o.jobType))
    && (o.args.Some? ==> |o.args.value| >= 1 && AllNulFree(o.args.value))
    && AllNulFree(o.env)
    && (o.persona.Some? ==> o.persona.value < 0x8000_0000)
  }

  /** Where the two automata get to, sending and answering one message after another. */
  datatype Dialogue =
    /** The client gave up before sending message n. */
    | ClientDied(n: nat)
    /** The server refused message n, and the client died of the reply. */
    | Refused(n: nat)
    | Ran(job: JobState, rest: seq<Cell>)

  function Converse(j: JobState, pending: seq<Cell>, o: Order, cs: seq<Command>, n: nat): Dialogue
    requires n <= |cs|
    decreases |cs| - n
  {
    if n == |cs| then ClientDied(n)
    else
      var m := MessageFor(o, cs[n]);
      if m.len >= U32 then ClientDied(n)
      else
        var s := Receive(j, pending + Wired(m));
        match s.verdict
        case Continue => Converse(s.job, s.rest, o, cs, n + 1)
        case Accepted => Ran(s.job, s.rest)
        case _ => Refused(n)
  }

  /** The state the server has once it has received everything. */
  function Received(o: Order, mask: nat): JobState {
    JobState(
      o.jobType, mask,
      if IsChrootuid(o.jobType) && o.persona.Some? then o.persona.value else NO_PERSONA,
      if IsChrootuid(o.jobType) then Some(o.chrootFd) else None,
      Some(o.stdFds), o.args,
      if IsChrootuid(o.jobType) then Some(o.env) else None)
  }

  /** One message that arrives whole, with its bit clear, reaches its payload handler. */
  lemma MessageArrives(j: JobState, m: Message)
    requires m.len < U32 && !Bits.Bit(j.mask, BitOf(m.command))
    ensures Receive(j, Wired(m)) ==
            Payload(j.(mask := Bits.Or(j.mask, Code(m.command))), m.command, m.len, m.payload)
  {
    var w := Wired(m);
    HeaderRoundTrip(Code(m.command), m.len, m.payload);
    assert w[HEADER_SIZE..] == m.payload;
    assert CommandOf(Code(m.command)) == Some(m.command);
    if Bits.And(j.mask, Code(m.command)) != 0 {
      var k := Bits.NonZeroHasBit(Bits.And(j.mask, Code(m.command)));
      Bits.BitAnd(j.mask, Code(m.command), k);
      CodeIsBit(m.command);
      Bits.BitPow2(BitOf(m.command), k);
    }
  }

  lemma StringsArrive(strs: seq<CString>)
    requires AllNulFree(strs)
    ensures TakeStrings(Plain(Block(strs)), |Block(strs)|) ==
            if |Block(strs)| > MAX_ARGS_SIZE then None else Some(strs)
    ensures Plain(Block(strs))[|Block(strs)|..] == []
  {
    SplitBlock(strs);
    var p := Plain(Block(strs));
    assert p[..|Block(strs)|] == p;
  }

  /** What a message does to the server's job. */
  function Effect(j: JobState, c: Command, o: Order): JobState {
    var k := j.(mask := Bits.Or(j.mask, Code(c)));
    match c
    case SetType => k.(jobType := o.jobType)
    case SetPersonality => if o.persona.Some? then k.(persona := o.persona.value) else k
    case SetFds => k.(stdFds := Some(o.stdFds))
    case SetChrootFd => k.(chrootFd := Some(o.chrootFd))
    case SetArguments => k.(argv := o.args)
    case SetEnviron => k.(env := Some(o.env))
    case Run => k
  }

  /** The server's verdict on one message of an order, in a state that has not seen its command. */
  lemma MessageOutcome(j: JobState, o: Order, c: Command)
    requires Issued(o) && MessageFor(o, c).len < U32 && !Bits.Bit(j.mask, BitOf(c))
    requires (c.SetArguments? ==> o.args.Some?) && (c.SetPersonality? ==> o.persona.Some?)
    ensures var s := Receive(j, Wired(MessageFor(o, c)));
            var k := Effect(j, c, o);
            match c
            case SetArguments =>
              if MessageFor(o, c).len > MAX_ARGS_SIZE then s.verdict == BadRequest
              else j.jobType == o.jobType ==> s == Step(k, [], Continue)
            case SetEnviron =>
              if MessageFor(o, c).len > MAX_ARGS_SIZE then s.verdict == BadRequest else s == Step(k, [], Continue)
            case Run => s == Step(k, [], if JobOk(k) then Accepted else BadRequest)
            case _ => s == Step(k, [], Continue)
  {
    MessageArrives(j, MessageFor(o, c));
    match c {
      case SetArguments =>
        StringsArrive(o.args.value);
      case SetEnviron =>
        StringsArrive(o.env);
      case _ =>
    }
  }

  /** Both string blocks of the order fit the server's limit: what a caller can check beforehand. */
  predicate Fits(o: Order) {
    && (o.args.Some? ==> |Block(o.args.value)| <= MAX_ARGS_SIZE)
    && (IsChrootuid(o.jobType) ==> |Block(o.env)| <= MAX_ARGS_SIZE)
  }

  /** The mask has exactly the bits of these commands. */
  ghost predicate MaskIs(mask: nat, cs: set<Command>) {
    forall c: Command :: Bits.Bit(mask, BitOf(c)) <==> c in cs
  }

  lemma MaskAdds(mask: nat, cs: set<Command>, c: Command)
    requires MaskIs(mask, cs)
    ensures MaskIs(Bits.Or(mask, Code(c)), cs + {c})
  {
    forall d: Command
      ensures Bits.Bit(Bits.Or(mask, Code(c)), BitOf(d)) <==> d in cs + {c}
    {
      FreshBit(mask, c, BitOf(d));
    }
  }

  /** One message that fits moves both automata one step on. */
  lemma Advance(j: JobState, o: Order, cs: seq<Command>, n: nat, seen: set<Command>)
    requires Issued(o) && n < |cs| && MaskIs(j.mask, seen) && cs[n] !in seen && cs[n] != Run
    requires MessageFor(o, cs[n]).len < U32
    requires cs[n].SetArguments? ==>
               o.args.Some? && j.jobType == o.jobType && MessageFor(o, cs[n]).len <= MAX_ARGS_SIZE
    requires cs[n].SetEnviron? ==> MessageFor(o, cs[n]).len <= MAX_ARGS_SIZE
    requires cs[n].SetPersonality? ==> o.persona.Some?
    ensures Converse(j, [], o, cs, n) == Converse(Effect(j, cs[n], o), [], o, cs, n + 1)
    ensures MaskIs(Effect(j, cs[n], o).mask, seen + {cs[n]})
  {
    MessageOutcome(j, o, cs[n]);
    MaskAdds(j.mask, seen, cs[n]);
    assert [] + Wired(MessageFor(o, cs[n])) == Wired(MessageFor(o, cs[n]));
  }

  /** A string block that does not fit stops the dialogue short of running the job. */
  lemma Stops(j: JobState, o: Order, cs: seq<Command>, n: nat, seen: set<Command>)
    requires Issued(o) && n < |cs| && MaskIs(j.mask, seen) && cs[n] !in seen
    requires cs[n].SetEnviron? || (cs[n].SetArguments? && o.args.Some?)
    requires MessageFor(o, cs[n]).len > MAX_ARGS_SIZE
    ensures !Converse(j, [], o, cs, n).Ran?
  {
    if MessageFor(o, cs[n]).len < U32 {
      MessageOutcome(j, o, cs[n]);
      assert [] + Wired(MessageFor(o, cs[n])) == Wired(MessageFor(o, cs[n]));
    }
  }

  /** The last message runs the job. */
  lemma Runs(j: JobState, o: Order, cs: seq<Command>, n: nat, seen: set<Command>)
    requires Issued(o) && n < |cs| && cs[n] == Run && MaskIs(j.mask, seen) && Run !in seen
    requires j.jobType == o.jobType && (IsChrootuid(o.jobType) ==> SetChrootFd in seen && SetArguments in seen)
    ensures Converse(j, [], o, cs, n) == Ran(Effect(j, Run, o), [])
  {
    MessageOutcome(j, o, Run);
    MaskAdds(j.mask, seen, Run);
    assert [] + Wired(MessageFor(o, Run)) == Wired(MessageFor(o, Run));
  }

  /** The prefix every dialogue shares. */
  lemma Opening(o: Order, cs: seq<Command>)
    requires Issued(o) && |cs| > 2 && cs[0] == SetType && cs[1] == SetFds
    ensures var j := Effect(Effect(INITIAL_JOB, SetType, o), SetFds, o);
            && Converse(INITIAL_JOB, [], o, cs, 0) == Converse(j, [], o, cs, 2)
            && MaskIs(j.mask, {SetType, SetFds})
  {
    hide Converse;
    forall c: Command
      ensures !Bits.Bit(0, BitOf(c))
    {
      Bits.NoBits(BitOf(c));
    }
    Advance(INITIAL_JOB, o, cs, 0, {});
    Advance(Effect(INITIAL_JOB, SetType, o), o, cs, 1, {SetType});
    assert {SetType} + {SetFds} == {SetType, SetFds};
  }

  const BEFORE_ROOT := {SetType, SetFds, SetArguments, SetEnviron}

  /** The end of a chrootuid dialogue: the root directory, perhaps a personality, and the run. */
  lemma ChrootuidEnding(o: Order, cs: seq<Command>, j4: JobState)
    requires Issued(o) && IsChrootuid(o.jobType) && j4.jobType == o.jobType && MaskIs(j4.mask, BEFORE_ROOT)
    requires |cs| > 4 && if o.persona.Some? then cs[4..] == [SetChrootFd, SetPersonality, Run] else cs[4..] == [SetChrootFd, Run]
    ensures var j5 := Effect(j4, SetChrootFd, o);
            Converse(j4, [], o, cs, 4) ==
            Ran(Effect(if o.persona.Some? then Effect(j5, SetPersonality, o) else j5, Run, o), [])
  {
    hide Converse;
    assert forall i | 4 <= i < |cs| :: cs[i] == cs[4..][i - 4];
    Advance(j4, o, cs, 4, BEFORE_ROOT);
    var j5 := Effect(j4, SetChrootFd, o);
    var seen := BEFORE_ROOT + {SetChrootFd};
    if o.persona.Some? {
      Advance(j5, o, cs, 5, seen);
      Runs(Effect(j5, SetPersonality, o), o, cs, 6, seen + {SetPersonality});
    } else {
      Runs(j5, o, cs, 5, seen);
    }
  }

  /** The string blocks of a chrootuid dialogue. */
  lemma ChrootuidStrings(o: Order, cs: seq<Command>, j2: JobState)
    requires Issued(o) && IsChrootuid(o.jobType) && MaskIs(j2.mask, {SetType, SetFds}) && j2.jobType == o.jobType
    requires |cs| > 4 && cs[2] == SetArguments && cs[3] == SetEnviron
    ensures var d := Converse(j2, [], o, cs, 2);
            var j4 := Effect(Effect(j2, SetArguments, o), SetEnviron, o);
            if Fits(o) then d == Converse(j4, [], o, cs, 4) && MaskIs(j4.mask, BEFORE_ROOT) else !d.Ran?
  {
    hide Converse;
    var seen := {SetType, SetFds};
    if MessageFor(o, SetArguments).len > MAX_ARGS_SIZE {
      Stops(j2, o, cs, 2, seen);
    } else {
      Advance(j2, o, cs, 2, seen);
      var j3 := Effect(j2, SetArguments, o);
      if MessageFor(o, SetEnviron).len > MAX_ARGS_SIZE {
        Stops(j3, o, cs, 3, seen + {SetArguments});
      } else {
        Advance(j3, o, cs, 3, seen + {SetArguments});
        assert seen + {SetArguments} + {SetEnviron} == BEFORE_ROOT;
      }
    }
  }

  /** The fields of the job, mask aside. */
  predicate SameOrder(j: JobState, o: Order) {
    j == Received(o, j.mask)
  }

  lemma EffectsReceive(o: Order)
    requires Issued(o)
    ensures var j2 := Effect(Effect(INITIAL_JOB, SetType, o), SetFds, o);
            && j2.jobType == o.jobType
            && (if IsChrootuid(o.jobType) then
                  var j5 := Effect(Effect(Effect(j2, SetArguments, o), SetEnviron, o), SetChrootFd, o);
                  SameOrder(Effect(if o.persona.Some? then Effect(j5, SetPersonality, o) else j5, Run, o), o)
                else SameOrder(Effect(j2, Run, o), o))
  {
  }

  /**
   Client and server compose: for everything the client can be asked to send,
   the dialogue runs the job exactly when both string blocks fit the server's
   limit; and then the server has received exactly what the client was asked
   to send, and nothing is left on the wire.
   */
  lemma ClientAndServerCompose(o: Order)
    requires Issued(o)
    ensures var d := Converse(INITIAL_JOB, [], o, Commands(o), 0);
            && (d.Ran? <==> Fits(o))
            && (d.Ran? ==> SameOrder(d.job, o) && d.rest == [])
  {
    hide Converse;
    var cs := Commands(o);
    Opening(o, cs);
    EffectsReceive(o);
    var j2 := Effect(Effect(INITIAL_JOB, SetType, o), SetFds, o);
    if !IsChrootuid(o.jobType) {
      Runs(j2, o, cs, 2, {SetType, SetFds});
    } else {
      ChrootuidStrings(o, cs, j2);
      if Fits(o) {
        ChrootuidEnding(o, cs, Effect(Effect(j2, SetArguments, o), SetEnviron, o));
      }
    }
  }
}

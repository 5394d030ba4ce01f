/** The client: `parse_cmdline` of cmdline.c and `main` of hasher-priv.c. */
module Client {
  import opened Bytes
  import opened Strings
  import opened Wire
  import opened JobProtocol

  // ----------------------------------------------------------- command line

  /** A word of the command line's vocabulary, as octets. */
  function Word(s: string): CString {
    seq(|s|, i requires 0 <= i < |s| => (s[i] as int) % 256)
  }

  const DASH: byte := 45

  datatype Parsed =
    | Usage | Help | Version | NoDirectory
    | Job(num: nat, jobType: nat, args: Option<seq<CString>>, chrootFd: File)

  /** The job that takes no arguments of this name, or none. */
  function PlainJob(word: CString): nat {
    if word == Word("getconf") then JOB_GETCONF
    else if word == Word("killuid") then JOB_KILLUID
    else if word == Word("getugid1") then JOB_GETUGID1
    else if word == Word("getugid2") then JOB_GETUGID2
    else JOB_NONE
  }

  /** The job of this name that runs a program in a root directory, or none. */
  function ChrootJob(word: CString): nat {
    if word == Word("chrootuid1") then JOB_CHROOTUID1
    else if word == Word("chrootuid2") then JOB_CHROOTUID2
    else JOB_NONE
  }

  /** What an accepted command line is read as. */
  predicate Reads(p: Parsed, argv: seq<CString>, number: CString -> Option<nat>, directory: CString -> Option<File>)
    requires p.Job?
  {
    |argv| >= 2 &&
    var k := if |argv[1]| > 0 && argv[1][0] == DASH then 2 else 1;
    && k < |argv|
    && (if k == 2 then number(argv[1][1..]) == Some(p.num) else p.num == 0)
    && if PlainJob(argv[k]) != JOB_NONE then
         p.jobType == PlainJob(argv[k]) && |argv| == k + 1 && p.args == None
       else
         && p.jobType == ChrootJob(argv[k]) != JOB_NONE && |argv| >= k + 3
         && directory(argv[k + 1]) == Some(p.chrootFd) && p.args == Some(argv[k + 2..])
  }

  /**
   `parse_cmdline`. How a number is read and which directories open are
   given.
   */
  method ParseCmdline(argv: seq<CString>, number: CString -> Option<nat>, directory: CString -> Option<File>)
    returns (p: Parsed)
    ensures p.Job? ==> Reads(p, argv, number, directory)
    ensures p.Job? <==> Accepted(argv, number, directory)
    ensures p.Help? <==> |argv| >= 2 && argv[1] in {Word("-h"), Word("--help")}
    ensures p.Version? <==> |argv| >= 2 && argv[1] == Word("--version")
    ensures p.NoDirectory? <==> NamesMissingDirectory(argv, number, directory)
  {
    if |argv| < 2 {
      return Usage;
    }
    var av := argv[1..];
    var num := 0;
    if |av[0]| > 0 && av[0][0] == DASH {
      if av[0] == Word("-h") || av[0] == Word("--help") {
        return Help;
      }
      if av[0] == Word("--version") {
        return Version;
      }
      var n := number(av[0][1..]);
      if n.None? {
        return Usage;
      }
      num := n.value;
      av := av[1..];
    }
    if |av| < 1 {
      return Usage;
    }
    if PlainJob(av[0]) != JOB_NONE {
      if |av| != 1 {
        return Usage;
      }
      return Job(num, PlainJob(av[0]), None, NO_FILE);
    } else if ChrootJob(av[0]) != JOB_NONE {
      if |av| < 3 {
        return Usage;
      }
      var fd := directory(av[1]);
      if fd.None? {
        return NoDirectory;
      }
      return Job(num, ChrootJob(av[0]), Some(av[2..]), fd.value);
    } else {
      return Usage;
    }
  }

  /** `chroot_fd` as it is without a root directory. */
  const NO_FILE: File := -1

  /** The command lines that name a job: an option with a number or none, a job, and what that job takes. */
  predicate Accepted(argv: seq<CString>, number: CString -> Option<nat>, directory: CString -> Option<File>) {
    |argv| >= 2 &&
    var option := |argv[1]| > 0 && argv[1][0] == DASH;
    var k := if option then 2 else 1;
    && (option ==> argv[1] !in {Word("-h"), Word("--help"), Word("--version")} && number(argv[1][1..]).Some?)
    && k < |argv|
    && (if PlainJob(argv[k]) != JOB_NONE then |argv| == k + 1
        else ChrootJob(argv[k]) != JOB_NONE && |argv| >= k + 3 && directory(argv[k + 1]).Some?)
  }

  /** The command lines that fail only for the root directory; all others that name no job are answered with the usage. */
  predicate NamesMissingDirectory(
    argv: seq<CString>, number: CString -> Option<nat>, directory: CString -> Option<File>)
  {
    |argv| >= 2 &&
    var option := |argv[1]| > 0 && argv[1][0] == DASH;
    var k := if option then 2 else 1;
    && (option ==> argv[1] !in {Word("-h"), Word("--help"), Word("--version")} && number(argv[1][1..]).Some?)
    && k < |argv| && PlainJob(argv[k]) == JOB_NONE && ChrootJob(argv[k]) != JOB_NONE && |argv| >= k + 3
    && directory(argv[k + 1]).None?
  }

  // ------------------------------------------------------------------ main

  /** What `main` has to send for a parsed command line. */
  function OrderFor(p: Parsed, stdFds: seq<File>, env: seq<CString>, persona: Option<nat>): Order
    requires p.Job?
  {
    Order(p.jobType, stdFds, p.args, env, p.chrootFd, persona)
  }

  /** The connection to the session server, whose automaton answers as the client sends. */
  class ClientEnd {
    var job: JobState
    var pending: seq<Cell>
    var asked: nat

    constructor ()
      ensures job == INITIAL_JOB && pending == [] && asked == 0
    {
      job, pending, asked := INITIAL_JOB, [], 0;
    }

    /** Send one message and read its reply; a failure ends the client, and so does the reply to the last. */
    method Ask(o: Order, c: Command, ghost cs: seq<Command>) returns (end: Option<Dialogue>)
      requires asked < |cs| && cs[asked] == c
      modifies this
      ensures end.None? ==> asked == old(asked) + 1
      ensures end.None? ==> Converse(job, pending, o, cs, asked) == Converse(old(job), old(pending), o, cs, old(asked))
      ensures end.Some? ==> end.value == Converse(old(job), old(pending), o, cs, old(asked))
    {
      var m := MessageFor(o, c);
      if m.len >= U32 {
        return Some(ClientDied(asked));
      }
      var s := Receive(job, pending + Wired(m));
      match s.verdict
      case Continue =>
        job, pending, asked := s.job, s.rest, asked + 1;
        end := None;
      case Accepted =>
        end := Some(Ran(s.job, s.rest));
      case _ =>
        end := Some(Refused(asked));
    }
  }

  /** `main`, from the first message on. */
  method RunJob(o: Order) returns (d: Dialogue)
    ensures d == Converse(INITIAL_JOB, [], o, Commands(o), 0)
  {
    hide Converse;
    ghost var cs := Commands(o);
    var conn := new ClientEnd();
    var end := conn.Ask(o, SetType, cs);
    if end.Some? {
      return end.value;
    }
    end := conn.Ask(o, SetFds, cs);
    if end.Some? {
      return end.value;
    }
    if o.args.Some? {
      end := conn.Ask(o, SetArguments, cs);
      if end.Some? {
        return end.value;
      }
    }
    if IsChrootuid(o.jobType) {
      end := conn.Ask(o, SetEnviron, cs);
      if end.Some? {
        return end.value;
      }
      end := conn.Ask(o, SetChrootFd, cs);
      if end.Some? {
        return end.value;
      }
      if o.persona.Some? {
        end := conn.Ask(o, SetPersonality, cs);
        if end.Some? {
          return end.value;
        }
      }
    }
    end := conn.Ask(o, Run, cs);
    if end.Some? {
      return end.value;
    }
    NothingLeftToAsk(conn.job, conn.pending, o, cs);
    d := ClientDied(conn.asked);
  }

  lemma NothingLeftToAsk(j: JobState, pending: seq<Cell>, o: Order, cs: seq<Command>)
    ensures Converse(j, pending, o, cs, |cs|) == ClientDied(|cs|)
  {
  }

  /**
   For every accepted command line, the dialogue with the session server runs
   the job exactly when the arguments and the environment each fit the
   server's limit; the server then has the named job, and the words after the
   root directory as its arguments.
   */
  lemma AcceptedCommandLineRuns(
    p: Parsed, argv: seq<CString>, number: CString -> Option<nat>, directory: CString -> Option<File>,
    stdFds: seq<File>, env: seq<CString>, persona: Option<nat>)
    requires p.Job? && Reads(p, argv, number, directory)
    requires AllNulFree(argv) && AllNulFree(env) && |stdFds| == 3 && (persona.Some? ==> persona.value < 0x8000_0000)
    ensures var o := OrderFor(p, stdFds, env, persona);
            var d := Converse(INITIAL_JOB, [], o, Commands(o), 0);
            && (d.Ran? <==> p.args.Some? ==> |Block(p.args.value)| <= MAX_ARGS_SIZE && |Block(env)| <= MAX_ARGS_SIZE)
            && (d.Ran? ==>
                  && d.job.jobType == p.jobType && d.job.stdFds == Some(stdFds) && d.job.argv == p.args
                  && (p.args.Some? ==>
                        && d.job.argv.value == argv[|argv| - |p.args.value|..]
                        && d.job.env == Some(env) && d.job.chrootFd == Some(p.chrootFd)
                        && d.job.persona == if persona.Some? then persona.value else NO_PERSONA))
  {
    hide Converse, Word, Block;
    var o := OrderFor(p, stdFds, env, persona);
    if p.args.Some? {
      assert forall s | s in p.args.value :: s in argv;
    }
    assert Issued(o);
    ClientAndServerCompose(o);
  }

  /** The words of the six jobs and the numbers they stand for on the wire; no other word names a job. */
  lemma JobsByName(word: CString)
    ensures PlainJob(word) == 1 <==> word == Word("getconf")
    ensures PlainJob(word) == 2 <==> word == Word("killuid")
    ensures PlainJob(word) == 3 <==> word == Word("getugid1")
    ensures ChrootJob(word) == 4 <==> word == Word("chrootuid1")
    ensures PlainJob(word) == 5 <==> word == Word("getugid2")
    ensures ChrootJob(word) == 6 <==> word == Word("chrootuid2")
    ensures PlainJob(word) in {0, 1, 2, 3, 5} && ChrootJob(word) in {0, 4, 6}
    ensures PlainJob(word) != 0 ==> ChrootJob(word) == 0
  {
    WordsDiffer("getconf", "killuid");
    WordsDiffer("getconf", "getugid1");
    WordsDiffer("getconf", "getugid2");
    WordsDiffer("killuid", "getugid1");
    WordsDiffer("killuid", "getugid2");
    WordsDiffer("getugid1", "getugid2");
    WordsDiffer("chrootuid1", "chrootuid2");
    WordsDiffer("chrootuid1", "getconf");
  }

  lemma WordsDiffer(s: string, t: string)
    requires s != t && (forall i | 0 <= i < |s| :: (s[i] as int) < 256) && (forall i | 0 <= i < |t| :: (t[i] as int) < 256)
    ensures Word(s) != Word(t)
  {
    if |s| == |t| {
      var i :| 0 <= i < |s| && s[i] != t[i];
      assert Word(s)[i] != Word(t)[i];
    }
  }
}

/**
 The hand-off of a chrootuid job between handler, runner and executor, and
 the pipe on which the handler waits (`spawn_job_runner`, `job_runner` and
 `job_executor` of caller_runner.c), over every interleaving.
 */
module Handoff {
  import opened Bytes
  import opened Descriptors

  /** What the handler has when it creates the pipe. */
  datatype Setup = Setup(
    table: Table,
    /** The received standard descriptors, all -1 if none were sent. */
    std: seq<int>,
    chrootFd: int,
    readFd: int, writeFd: int,
    readEnd: File, writeEnd: File,
    /** None when `close_range` works, else the limit of the brute-force loop. */
    openMax: Option<int>)

  predicate Sound(c: Setup) {
    && Proper(c.table) && StandardOpen(c.table) && |c.std| == 3
    && (c.std != [-1, -1, -1] ==>
          && (forall i | 0 <= i < 3 :: c.std[i] in c.table && c.std[i] >= 3 && c.std[i] != c.chrootFd)
          && c.std[0] != c.std[1] && c.std[0] != c.std[2] && c.std[1] != c.std[2])
    && c.chrootFd in c.table && c.chrootFd >= 3
    && c.readFd !in c.table && c.writeFd !in c.table && c.readFd != c.writeFd
    && c.readFd >= 0 && c.writeFd >= 0
    && c.readEnd != c.writeEnd
    && (forall fd | fd in c.table :: c.table[fd] != c.readEnd && c.table[fd] != c.writeEnd)
  }

  datatype HandlerAt = HPiped | HForked | HReading
  datatype RunnerAt = RUnborn | RBorn | RClosedRead | RForked | RDeallocated | RDead
  /** `EClosing(k)`: descriptors below k are done; `ESanitized` follows the last close. */
  datatype ExecutorAt = EUnborn | EMoving(n: nat) | EReordered | EClosing(next: int) | ESanitized | EDead

  /** A process that has ended holds no descriptor: its table is empty. */
  datatype State = State(
    hAt: HandlerAt, rAt: RunnerAt, eAt: ExecutorAt,
    handler: Table, runner: Table, executor: Table,
    /** The executor's `chroot_fd`. */
    chrootFd: int)

  function Initial(c: Setup): State {
    State(HPiped, RUnborn, EUnborn, c.table[c.readFd := c.readEnd][c.writeFd := c.writeEnd], map[], map[], c.chrootFd)
  }

  /** One step of one process, or its death. */
  datatype Move =
    | HandlerForks | HandlerClosesWrite
    | RunnerClosesRead | RunnerForks | RunnerDeallocates | RunnerDies
    | ExecutorMoves | ExecutorReorders | ExecutorCloses | ExecutorDies

  predicate Enabled(s: State, m: Move) {
    match m
    case HandlerForks => s.hAt.HPiped?
    case HandlerClosesWrite => s.hAt.HForked?
    case RunnerClosesRead => s.rAt.RBorn?
    case RunnerForks => s.rAt.RClosedRead?
    case RunnerDeallocates => s.rAt.RForked?
    case RunnerDies => !s.rAt.RUnborn? && !s.rAt.RDead?
    case ExecutorMoves => s.eAt.EMoving? && s.eAt.n < 3
    case ExecutorReorders => s.eAt == EMoving(3)
    case ExecutorCloses => s.eAt.EReordered? || s.eAt.EClosing?
    case ExecutorDies => !s.eAt.EUnborn? && !s.eAt.EDead?
  }

  function ExecutorDeath(s: State): State {
    s.(eAt := EDead, executor := map[])
  }

  /** One `close` of the brute-force loop, or the end of the loop. */
  function CloseOne(s: State, k: int, max: int): State {
    if k < max then s.(eAt := EClosing(k + 1), executor := s.executor - {k})
    else s.(eAt := ESanitized)
  }

  function Next(c: Setup, s: State, m: Move): State
    requires |c.std| == 3 && Enabled(s, m)
  {
    match m
    case HandlerForks => s.(hAt := HForked, rAt := RBorn, runner := s.handler)
    case HandlerClosesWrite => s.(hAt := HReading, handler := s.handler - {c.writeFd})
    case RunnerClosesRead => s.(rAt := RClosedRead, runner := s.runner - {c.readFd})
    case RunnerForks => s.(rAt := RForked, eAt := EMoving(0), executor := s.runner)
    case RunnerDeallocates =>
      s.(rAt := RDeallocated, runner := s.runner - {c.chrootFd, c.std[0], c.std[1], c.std[2], c.writeFd})
    case RunnerDies => s.(rAt := RDead, runner := map[])
    case ExecutorMoves =>
      (match Moved(s.executor, c.std[s.eAt.n], s.eAt.n)
       case None => ExecutorDeath(s)
       case Some(t) => s.(eAt := EMoving(s.eAt.n + 1), executor := t))
    case ExecutorReorders =>
      (if !StandardOpen(s.executor) then ExecutorDeath(s)
       else
         match ReorderedBoth(s.executor, 3, -1, s.chrootFd)
         case None => ExecutorDeath(s)
         case Some(k) => s.(eAt := EReordered, executor := k.table, chrootFd := k.chrootFd))
    case ExecutorCloses =>
      var start := if s.chrootFd >= 3 then s.chrootFd + 1 else 3;
      (match c.openMax
       case None => s.(eAt := ESanitized, executor := ClosedFrom(s.executor, start))
       case Some(max) => CloseOne(s, if s.eAt.EClosing? then s.eAt.next else start, max))
    case ExecutorDies => ExecutorDeath(s)
  }

  /** Each move of the run is enabled when it is made. */
  ghost predicate PossibleRun(c: Setup, moves: seq<Move>)
    requires |c.std| == 3
    decreases |moves|, 0
  {
    moves == [] ||
    var front := moves[..|moves| - 1];
    PossibleRun(c, front) && Enabled(After(c, front), moves[|moves| - 1])
  }

  ghost function After(c: Setup, moves: seq<Move>): State
    requires |c.std| == 3 && PossibleRun(c, moves)
    decreases |moves|, 1
  {
    if moves == [] then Initial(c)
    else Next(c, After(c, moves[..|moves| - 1]), moves[|moves| - 1])
  }

  // ------------------------------------------------------------- end of file

  predicate HoldsWriteEnd(c: Setup, t: Table) {
    exists fd :: fd in t && t[fd] == c.writeEnd
  }

  /** The handler's read reports end of file: it is reading, and no process holds the write end. */
  predicate EndOfFile(c: Setup, s: State) {
    && s.hAt.HReading?
    && !HoldsWriteEnd(c, s.handler) && !HoldsWriteEnd(c, s.runner) && !HoldsWriteEnd(c, s.executor)
  }

  // --------------------------------------------------------------- invariant

  /** The table the executor inherits. */
  function Inherited(c: Setup): Table {
    c.table[c.writeFd := c.writeEnd]
  }

  /** The write end can only be at its own number, and is there exactly if `there` says so. */
  predicate WriteEndAt(c: Setup, t: Table, there: bool) {
    && (forall fd | fd in t && t[fd] == c.writeEnd :: fd == c.writeFd)
    && (there <==> c.writeFd in t && t[c.writeFd] == c.writeEnd)
  }

  /** The `dup2` of the root directory lands on the pipe's write end. */
  predicate Overwritten(c: Setup) {
    c.writeFd == 3 && c.chrootFd > 3
  }

  /** Whether an executor at this point holds the write end. */
  predicate ExecutorHolds(c: Setup, at: ExecutorAt) {
    match at
    case EMoving(_) => true
    case EReordered => !Overwritten(c)
    case EClosing(next) => !Overwritten(c) && next <= c.writeFd
    case ESanitized => !Overwritten(c) && c.openMax.Some? && c.openMax.value <= c.writeFd
    case _ => false
  }

  predicate ExecutorInv(c: Setup, s: State)
    requires |c.std| == 3
  {
    var moved := MovedAll(Inherited(c), c.std, 3);
    match s.eAt
    case EUnborn => s.executor == map[] && s.chrootFd == c.chrootFd
    case EDead => s.executor == map[]
    case EMoving(n) =>
      n <= 3 && s.chrootFd == c.chrootFd && MovedAll(Inherited(c), c.std, n) == Some(s.executor)
    case EReordered =>
      moved.Some? && ReorderedBoth(moved.value, 3, -1, c.chrootFd) == Some(Kept(s.executor, 4, -1, s.chrootFd))
      && s.chrootFd == 3
    case EClosing(next) =>
      && moved.Some? && c.openMax.Some? && s.chrootFd == 3 && 4 <= next <= c.openMax.value
      && ReorderedBoth(moved.value, 3, -1, c.chrootFd).Some?
      && s.executor == ClosedBetween(ReorderedBoth(moved.value, 3, -1, c.chrootFd).value.table, 4, next)
    case ESanitized =>
      && s.chrootFd == 3
      && var r := ExecutorTable(Inherited(c), c.std, -1, c.chrootFd, c.openMax);
         r.Some? && s.executor == r.value.table
  }

  predicate Inv(c: Setup, s: State)
    requires |c.std| == 3
  {
    && (s.rAt.RUnborn? <==> s.hAt.HPiped?)
    && (s.rAt.RUnborn? || s.rAt.RBorn? || s.rAt.RClosedRead? ==> s.eAt.EUnborn?)
    && (s.eAt.EUnborn? ==> !s.rAt.RForked? && !s.rAt.RDeallocated?)
    && WriteEndAt(c, s.handler, !s.hAt.HReading?)
    && WriteEndAt(c, s.runner, s.rAt.RBorn? || s.rAt.RClosedRead? || s.rAt.RForked?)
    && WriteEndAt(c, s.executor, ExecutorHolds(c, s.eAt))
    && (s.hAt.HPiped? ==> s.handler == c.table[c.readFd := c.readEnd][c.writeFd := c.writeEnd])
    && (s.rAt.RBorn? ==> s.runner == c.table[c.readFd := c.readEnd][c.writeFd := c.writeEnd])
    && (s.rAt.RClosedRead? ==> s.runner == Inherited(c))
    && ExecutorInv(c, s)
  }

  /** The table after the moves: standard descriptors and root directory in place, the write end untouched. */
  lemma MovedTable(c: Setup, n: nat)
    requires Sound(c) && n <= 3 && c.writeFd >= 3
    ensures var m := MovedAll(Inherited(c), c.std, n);
            && m.Some? && Proper(m.value) && StandardOpen(m.value)
            && WriteEndAt(c, m.value, true)
            && c.chrootFd in m.value && m.value[c.chrootFd] == c.table[c.chrootFd]
            && (forall i | n <= i < 3 && c.std[i] >= 0 :: c.std[i] in m.value)
            && (forall i | 0 <= i < 3 :: m.value[i] == if i < n && c.std[i] >= 0 then c.table[c.std[i]] else c.table[i])
  {
    assert MovedAll(Inherited(c), c.std, 0) == Some(Inherited(c));
    if n >= 1 {
      MovedTable1(c);
    }
    if n >= 2 {
      MovedTable2(c);
    }
    if n >= 3 {
      MovedTable3(c);
    }
  }

  lemma MovedTable1(c: Setup)
    requires Sound(c) && c.writeFd >= 3
    ensures MovedAll(Inherited(c), c.std, 1) ==
            Some(if c.std[0] < 0 then Inherited(c) else Inherited(c)[0 := c.table[c.std[0]]] - {c.std[0]})
  {
    assert MovedAll(Inherited(c), c.std, 0) == Some(Inherited(c));
  }

  lemma MovedTable2(c: Setup)
    requires Sound(c) && c.writeFd >= 3
    ensures MovedAll(Inherited(c), c.std, 2) ==
            Some(if c.std[0] < 0 then Inherited(c)
                 else (Inherited(c)[0 := c.table[c.std[0]]] - {c.std[0]})[1 := c.table[c.std[1]]] - {c.std[1]})
  {
    MovedTable1(c);
  }

  lemma MovedTable3(c: Setup)
    requires Sound(c) && c.writeFd >= 3
    ensures MovedAll(Inherited(c), c.std, 3) ==
            Some(if c.std[0] < 0 then Inherited(c)
                 else ((Inherited(c)[0 := c.table[c.std[0]]] - {c.std[0]})[1 := c.table[c.std[1]]] - {c.std[1]})
                      [2 := c.table[c.std[2]]] - {c.std[2]})
  {
    MovedTable2(c);
  }

  /** The table after the reordering. */
  lemma ReorderedTable(c: Setup)
    requires Sound(c) && c.writeFd >= 3
    ensures MovedAll(Inherited(c), c.std, 3).Some? && c.chrootFd in MovedAll(Inherited(c), c.std, 3).value
    ensures var t := MovedAll(Inherited(c), c.std, 3).value;
            var r := ReorderedBoth(t, 3, -1, c.chrootFd);
            && r == Some(Kept(if c.chrootFd == 3 then t else t[3 := t[c.chrootFd]], 4, -1, 3))
            && WriteEndAt(c, r.value.table, !Overwritten(c))
            && (forall i | 0 <= i < 3 :: i in r.value.table && r.value.table[i] == t[i])
            && 3 in r.value.table && r.value.table[3] == c.table[c.chrootFd]
  {
    MovedTable(c, 3);
  }

  lemma InitialInv(c: Setup)
    requires Sound(c)
    ensures Inv(c, Initial(c))
  {
  }

  lemma ExecutorStepInv(c: Setup, s: State, m: Move)
    requires Sound(c) && c.writeFd >= 3 && Inv(c, s) && Enabled(s, m)
    requires m.ExecutorMoves? || m.ExecutorReorders?
    ensures var t := Next(c, s, m);
            ExecutorInv(c, t) && WriteEndAt(c, t.executor, ExecutorHolds(c, t.eAt)) && !t.eAt.EUnborn?
    ensures Next(c, s, m) == s.(eAt := Next(c, s, m).eAt, executor := Next(c, s, m).executor, chrootFd := Next(c, s, m).chrootFd)
  {
    if m.ExecutorMoves? {
      MovedTable(c, s.eAt.n + 1);
      assert MovedAll(Inherited(c), c.std, s.eAt.n + 1) == Moved(s.executor, c.std[s.eAt.n], s.eAt.n);
    } else {
      MovedTable(c, 3);
      ReorderedTable(c);
    }
  }

  lemma ExecutorCloseInv(c: Setup, s: State)
    requires Sound(c) && c.writeFd >= 3 && Inv(c, s) && Enabled(s, ExecutorCloses)
    ensures var t := Next(c, s, ExecutorCloses);
            ExecutorInv(c, t) && WriteEndAt(c, t.executor, ExecutorHolds(c, t.eAt)) && !t.eAt.EUnborn?
    ensures var t := Next(c, s, ExecutorCloses);
            t == s.(eAt := t.eAt, executor := t.executor)
  {
    MovedTable(c, 3);
    ReorderedTable(c);
    var k := ReorderedBoth(MovedAll(Inherited(c), c.std, 3).value, 3, -1, c.chrootFd).value;
    match c.openMax {
      case None =>
      case Some(max) =>
        var next := if s.eAt.EClosing? then s.eAt.next else 4;
        if s.eAt.EReordered? {
          assert s.executor == ClosedBetween(k.table, 4, 4);
        }
        if next < max {
          assert ClosedBetween(k.table, 4, next) - {next} == ClosedBetween(k.table, 4, next + 1);
        } else {
          assert ClosedBetween(k.table, 4, next) == ClosedBetween(k.table, 4, max);
        }
    }
  }

  lemma StepInv(c: Setup, s: State, m: Move)
    requires Sound(c) && c.writeFd >= 3 && Inv(c, s) && Enabled(s, m)
    ensures Inv(c, Next(c, s, m))
  {
    if m.ExecutorMoves? || m.ExecutorReorders? {
      ExecutorStepInv(c, s, m);
    } else if m.ExecutorCloses? {
      ExecutorCloseInv(c, s);
    } else {
      OtherStepInv(c, s, m);
    }
  }

  lemma OtherStepInv(c: Setup, s: State, m: Move)
    requires Sound(c) && c.writeFd >= 3 && Inv(c, s) && Enabled(s, m)
    requires !m.ExecutorMoves? && !m.ExecutorReorders? && !m.ExecutorCloses?
    ensures Inv(c, Next(c, s, m))
  {
    assert c.table[c.readFd := c.readEnd][c.writeFd := c.writeEnd] - {c.readFd} == Inherited(c);
    assert MovedAll(Inherited(c), c.std, 0) == Some(Inherited(c));
  }

  lemma {:induction false} RunInv(c: Setup, moves: seq<Move>)
    requires Sound(c) && c.writeFd >= 3 && PossibleRun(c, moves)
    ensures Inv(c, After(c, moves))
  {
    if moves == [] {
      InitialInv(c);
    } else {
      RunInv(c, moves[..|moves| - 1]);
      StepInv(c, After(c, moves[..|moves| - 1]), moves[|moves| - 1]);
    }
  }

  // ------------------------------------------------------------- correctness

  /** The executor has its four descriptors in place: client or server stdio at 0 to 2, the root directory at 3. */
  predicate InPlace(c: Setup, s: State)
    requires |c.std| == 3
  {
    && s.chrootFd == 3 && 3 in s.executor
    && c.chrootFd in c.table && s.executor[3] == c.table[c.chrootFd]
    && forall i | 0 <= i < 3 ::
         && i in s.executor && (c.std[i] >= 0 ==> c.std[i] in c.table) && (c.std[i] < 0 ==> i in c.table)
         && s.executor[i] == if c.std[i] >= 0 then c.table[c.std[i]] else c.table[i]
  }

  /** The exact point at which a living executor lets go of the write end. */
  predicate LetGo(c: Setup, s: State) {
    match s.eAt
    case EReordered => Overwritten(c)
    case EClosing(next) => Overwritten(c) || next > c.writeFd
    case ESanitized => Overwritten(c) || c.openMax.None? || c.openMax.value > c.writeFd
    case _ => false
  }

  /**
   In every interleaving, the handler sees end of file exactly when it is
   reading, the runner has deallocated its descriptors or died, and the
   executor has let go of the write end, or died, or will never be born.
   */
  lemma EndOfFileIsExact(c: Setup, moves: seq<Move>)
    requires Sound(c) && c.writeFd >= 3 && PossibleRun(c, moves)
    ensures var s := After(c, moves);
            EndOfFile(c, s) <==>
              && s.hAt.HReading?
              && (s.rAt.RDeallocated? || s.rAt.RDead?)
              && (s.eAt.EUnborn? || s.eAt.EDead? || LetGo(c, s))
  {
    RunInv(c, moves);
    var s := After(c, moves);
    HoldsExactly(c, s.handler, !s.hAt.HReading?);
    HoldsExactly(c, s.runner, s.rAt.RBorn? || s.rAt.RClosedRead? || s.rAt.RForked?);
    HoldsExactly(c, s.executor, ExecutorHolds(c, s.eAt));
  }

  lemma HoldsExactly(c: Setup, t: Table, there: bool)
    requires WriteEndAt(c, t, there)
    ensures HoldsWriteEnd(c, t) <==> there
  {
  }

  /** The number `pipe` gives the write end: the lowest free one once the read end has the lowest. */
  ghost predicate LowestFree(t: Table, fd: int) {
    fd >= 0 && fd !in t && forall k | 0 <= k < fd :: k in t
  }

  /**
   With the numbers that `pipe` assigns and a working `close_range`: when the
   handler's read returns, the executor has sanitised its descriptors, or it
   is dead or will never be born. A living executor then holds exactly its
   standard descriptors and the root directory.
   */
  lemma ReadReturnsAfterSanitizing(c: Setup, moves: seq<Move>)
    requires Sound(c) && PossibleRun(c, moves) && c.openMax.None?
    requires LowestFree(c.table, c.readFd) && LowestFree(c.table[c.readFd := c.readEnd], c.writeFd)
    requires EndOfFile(c, After(c, moves))
    ensures var s := After(c, moves);
            && (s.eAt.EUnborn? || s.eAt.EDead? || s.eAt.ESanitized?)
            && (s.eAt.ESanitized? ==> InPlace(c, s) && forall fd | fd in s.executor :: 0 <= fd <= 3)
  {
    assert c.readFd >= 3 && c.writeFd > 3;
    RunInv(c, moves);
    EndOfFileIsExact(c, moves);
    var s := After(c, moves);
    if s.eAt.ESanitized? {
      LetGoInPlace(c, s);
      MovedTable(c, 3);
      ReorderedTable(c);
    }
  }

  /** Whatever number the write end has, and whichever way descriptors are closed: an executor alive at end of file has all it needs in place. */
  lemma ReadReturnsWithAllInPlace(c: Setup, moves: seq<Move>)
    requires Sound(c) && c.writeFd >= 3 && PossibleRun(c, moves) && EndOfFile(c, After(c, moves))
    ensures var s := After(c, moves);
            s.eAt.EUnborn? || s.eAt.EDead? || InPlace(c, s)
  {
    RunInv(c, moves);
    EndOfFileIsExact(c, moves);
    var s := After(c, moves);
    if !s.eAt.EUnborn? && !s.eAt.EDead? {
      LetGoInPlace(c, s);
    }
  }

  lemma LetGoInPlace(c: Setup, s: State)
    requires Sound(c) && c.writeFd >= 3 && Inv(c, s)
    requires s.eAt.EReordered? || s.eAt.EClosing? || s.eAt.ESanitized?
    ensures InPlace(c, s)
  {
    MovedTable(c, 3);
    ReorderedTable(c);
  }

  /** A run in which the executor has just moved the root directory. */
  const RACE: seq<Move> := [
    HandlerForks, HandlerClosesWrite, RunnerClosesRead, RunnerForks, RunnerDeallocates,
    ExecutorMoves, ExecutorMoves, ExecutorMoves, ExecutorReorders]

  predicate RaceAt(s: State, n: nat) {
    && s.hAt == (if n == 0 then HPiped else if n == 1 then HForked else HReading)
    && s.rAt == (if n == 0 then RUnborn else if n <= 2 then RBorn else if n == 3 then RClosedRead
                 else if n == 4 then RForked else RDeallocated)
    && s.eAt == (if n <= 3 then EUnborn else if n <= 5 then EMoving(0)
                 else if n <= 8 then EMoving(n - 5) else EReordered)
  }

  lemma {:induction false} RaceRuns(c: Setup, n: nat)
    requires Sound(c) && c.writeFd >= 3 && n <= |RACE|
    ensures PossibleRun(c, RACE[..n]) && RaceAt(After(c, RACE[..n]), n)
  {
    if n > 0 {
      RaceRuns(c, n - 1);
      assert RACE[..n][..n - 1] == RACE[..n - 1];
      RunInv(c, RACE[..n - 1]);
      RaceStep(c, After(c, RACE[..n - 1]), n);
    }
  }

  lemma RaceStep(c: Setup, s: State, n: nat)
    requires Sound(c) && c.writeFd >= 3 && 0 < n <= |RACE| && RaceAt(s, n - 1) && Inv(c, s)
    ensures Enabled(s, RACE[n - 1]) && RaceAt(Next(c, s, RACE[n - 1]), n)
  {
    MovedTable(c, if s.eAt.EMoving? && s.eAt.n < 3 then s.eAt.n + 1 else 3);
    ReorderedTable(c);
  }

  /**
   Were the write end at 3, the read could return too early: the `dup2` of
   the root directory closes it before anything else has been closed. The
   numbers that `pipe` assigns are what rules this out.
   */
  lemma EarlyReturnIfOverwritten(c: Setup)
    requires Sound(c) && Overwritten(c)
    ensures PossibleRun(c, RACE)
    ensures EndOfFile(c, After(c, RACE)) && After(c, RACE).eAt.EReordered?
  {
    RaceEnds(c);
    EndOfFileIsExact(c, RACE);
  }

  /** The same run, continued by n closes of the brute-force loop. */
  function RaceOn(n: nat): seq<Move> {
    if n == 0 then RACE else RaceOn(n - 1) + [ExecutorCloses]
  }

  lemma {:induction false} RaceOnRuns(c: Setup, n: nat)
    requires Sound(c) && c.writeFd >= 3 && c.openMax.Some? && 4 + n <= c.openMax.value
    ensures PossibleRun(c, RaceOn(n))
    ensures var s := After(c, RaceOn(n));
            s.hAt.HReading? && s.rAt.RDeallocated? && s.eAt == if n == 0 then EReordered else EClosing(4 + n)
  {
    hide Next, Enabled, Inv, PossibleRun, After;
    if n == 0 {
      RaceEnds(c);
    } else {
      var before := RaceOn(n - 1);
      RaceOnRuns(c, n - 1);
      RunInv(c, before);
      NextClose(c, After(c, before), n);
      OneMore(c, before, ExecutorCloses);
    }
  }

  lemma RaceEnds(c: Setup)
    requires Sound(c) && c.writeFd >= 3
    ensures PossibleRun(c, RACE) && RaceAt(After(c, RACE), |RACE|)
  {
    RaceRuns(c, |RACE|);
    assert RACE[..|RACE|] == RACE;
  }

  lemma OneMore(c: Setup, moves: seq<Move>, m: Move)
    requires |c.std| == 3 && PossibleRun(c, moves) && Enabled(After(c, moves), m)
    ensures PossibleRun(c, moves + [m]) && After(c, moves + [m]) == Next(c, After(c, moves), m)
  {
    assert (moves + [m])[..|moves|] == moves;
  }

  lemma NextClose(c: Setup, s: State, n: nat)
    requires Sound(c) && c.openMax.Some? && 0 < n && 4 + n <= c.openMax.value && Inv(c, s)
    requires s.eAt == if n == 1 then EReordered else EClosing(3 + n)
    ensures Enabled(s, ExecutorCloses)
    ensures var t := Next(c, s, ExecutorCloses);
            t.hAt == s.hAt && t.rAt == s.rAt && t.eAt == EClosing(4 + n)
  {
  }

  /** A kernel without `close_range` lets the read return early, between the close of the write end and the last. */
  lemma EarlyReturnIfBrute(c: Setup)
    requires Sound(c) && c.writeFd > 3 && c.openMax.Some? && c.openMax.value > c.writeFd
    ensures PossibleRun(c, RaceOn(c.writeFd - 3))
    ensures var s := After(c, RaceOn(c.writeFd - 3));
            EndOfFile(c, s) && s.eAt == EClosing(c.writeFd + 1)
  {
    RaceOnRuns(c, c.writeFd - 3);
    EndOfFileIsExact(c, RaceOn(c.writeFd - 3));
  }

  /** The executor will never touch its descriptors again: it has sanitised them, or is dead or will never be born. */
  predicate Settled(s: State) {
    s.eAt.EUnborn? || s.eAt.EDead? || s.eAt.ESanitized?
  }

  /** In every run, the handler's read returns only then. */
  ghost predicate ReturnsOnlyWhenSettled(c: Setup)
    requires |c.std| == 3
  {
    forall moves | PossibleRun(c, moves) && EndOfFile(c, After(c, moves)) :: Settled(After(c, moves))
  }

  /**
   The setups for which the pipe does what it is for, exactly: the root
   directory does not land on the write end, and descriptors are closed by
   `close_range`, or by a loop that does not get as far as the write end.
   */
  lemma ReadIsReliableExactly(c: Setup)
    requires Sound(c) && c.writeFd >= 3
    ensures ReturnsOnlyWhenSettled(c) <==> !Overwritten(c) && (c.openMax.None? || c.openMax.value <= c.writeFd)
  {
    if Overwritten(c) {
      EarlyReturnIfOverwritten(c);
      assert !Settled(After(c, RACE));
    } else if c.openMax.Some? && c.openMax.value > c.writeFd {
      EarlyReturnIfBrute(c);
      assert !Settled(After(c, RaceOn(c.writeFd - 3)));
    } else {
      forall moves | PossibleRun(c, moves) && EndOfFile(c, After(c, moves))
        ensures Settled(After(c, moves))
      {
        RunInv(c, moves);
        EndOfFileIsExact(c, moves);
      }
    }
  }

  /**
   With the numbers that `pipe` assigns and the limit that `get_open_max`
   computes: the read is reliable exactly with `close_range`, or with a write
   end beyond the limit.
   */
  lemma ReadIsReliableWithCloseRange(c: Setup, configured: int)
    requires Sound(c) && (c.openMax.None? || c.openMax == Some(OpenMax(configured)))
    requires LowestFree(c.table, c.readFd) && LowestFree(c.table[c.readFd := c.readEnd], c.writeFd)
    ensures ReturnsOnlyWhenSettled(c) <==> c.openMax.None? || OpenMax(configured) <= c.writeFd
    ensures c.writeFd < NR_OPEN ==> (ReturnsOnlyWhenSettled(c) <==> c.openMax.None?)
  {
    assert c.readFd >= 3 && c.writeFd > 3;
    ReadIsReliableExactly(c);
  }
}

# hasher-priv in Dafny

hasher-priv lets an unprivileged user run programs in a prepared root
directory under two other accounts. A root daemon starts one session server
for each user, which takes job requests over a socket, hands each to a runner
and an executor, and relays the job's input, output, log lines and X11
connections to the client. This project models the parts of it that keep
state, each against an explicit model of the kernel whose choices (short
reads and writes, readiness, signals, failures, descriptor numbers, random
numbers) are arbitrary, and proves what every run of them keeps.

| files | program part |
|---|---|
| `Kernel`, `Select`, `Output`, `X11Relay`, `LogRelay`, `Ledger`, `WaitStatus`, `ChildLife`, `Parent` | the I/O relay: parent.c, io_x11.c, io_log.c, io_loop.c, fd_set.c |
| `Bits`, `AuthData` | the X11 setup packet of io_x11.c (X Window System Protocol, X Version 11, chapter 8 and Appendix B) |
| `Strings`, `Wire`, `JobProtocol`, `Client`, `Runner`, `EndToEnd` | the job request protocol, both ends: hasher-priv.c, cmdline.c, caller_job.c, caller_runner.c |
| `Handoff`, `Descriptors` | the readiness pipe and the descriptor table: caller_runner.c, fds.c |
| `SessionPool` | the daemon's linked list of session servers: hasher-privd.c |
| `Affinity` | the CPU sampler of child.c |
| `Tokens`, `StrList`, `MountOptions`, `MountPlan`, `Prefix`, `GrowArray`, `WorkLimits` | mount.c, caller_config.c, chdiruid.c, xmalloc.c |

`dafny verify dfyconfig.toml` checks all of it.

## How it is modelled

Code that updates state is a method over a class or an array, proved against
a specification; the properties are lemmas about that specification, or
invariants in the contracts. The relay's kernel keeps, for every open file,
everything that was ever read from it and written to it, and of the process
how each `pselect` ended, how often a descriptor was asked for and whether an
output took less than it was given. A connection's
relation (what was read is what was written and what is pending) is then an
invariant about those histories. It is kept for closed connections as well as
live ones, because a file is never reused even when its number is. Every file
has an owner, which is how closing or reusing one number is seen to leave all
others alone. `FdSets.CanRead` and `CanWrite` demand that a descriptor that
was reported ready still denotes the file it denoted when it was registered;
that every test in a round meets this demand is the absence of stale
readiness.

`HandleParent` takes the number of rounds after which the run is looked at,
so what it ensures holds in every state between two rounds; what holds when
the program dies inside a round is stated as well. A round is recorded as a
`Turn`: how `pselect` ended, what was reported ready, what went through each
stream and whether the terminal refused its input; `StepOf` says of a turn
whether the relay goes on. The relay's
`Account` is what the turns add up to, and its invariant says that the files'
histories are exactly that account.

## What the code does not do

These properties fail for some inputs. For each, the exact condition is proved.

- Devices are created before /dev/shm and the requested mount points are
  mounted. A device requested beneath one of those is hidden by the later
  mount (`SetupOrderIsSafe`; `HiddenDevice` and `HiddenDeviceExample` give
  such requests).
- The end of file on the readiness pipe says that the executor is done with
  its descriptors if and only if the root directory does not land on the
  pipe's write end and descriptors are closed by `close_range`, or by a loop
  that stops short of the write end (`ReadIsReliableExactly`). `pipe` never
  gives the write end the number 3, which rules out the first case; on a kernel
  without `close_range` the read may return between two closes
  (`EarlyReturnIfOverwritten` and `EarlyReturnIfBrute` give the runs). The
  executor's own descriptors are in place in every case
  (`ReadReturnsWithAllInPlace`).
- The fake cookie is replaced only in the first chunk read from a client. It
  reaches the server if and only if the client sends it in a packet that this
  chunk does not hold to the end (`FakePassesExactly`, `ServerSeesFake`;
  `SplitSetupPassesFake` gives such streams).
- Rewriting a setup packet with the cookies swapped restores it if and only if
  it did not carry the saved cookie to begin with (`SwappedRewriteRestores`).
- `xgrowarray` from nothing grows to zero elements exactly for member sizes
  above 2^64 - 128 (`FirstAllocation`).
- The brute-force loop misses open descriptors at or above the table limit,
  and only those (`BruteForceAgrees`).
- The server sends one failure that answers no command, exactly when the next
  header does not come (`OneReplyPerCommand`).
- The input counter grows by all that was pending at each write, also by what
  the terminal did not take and will be counted again. Over a run it is exact
  if and only if no write left anything pending (`InputCounterIsExact`;
  `OvercountingWrite` is a write that does). No option sets the limit it is
  compared with.
- A client's string blocks are accepted if and only if each has at most 0x20000
  octets, which only the server checks (`ClientAndServerCompose`).

## Model

| member | source | states |
|---|---|---|
| IoLoop.WriteLoop | hasher-priv/io_loop.c:60-75 | For every sequence of short writes: what was taken is the first r octets, and a count of zero never fails |
| Select.FdSets.AddRead | hasher-priv/fd_set.c:15-24 | A negative number changes nothing; any other joins the set and raises the maximum |
| Select.FdSets.AddWrite | hasher-priv/fd_set.c:15-24 | The same for the write set |
| Select.FdSets.CanRead | hasher-priv/fd_set.c:26-30 | May only be asked of a descriptor that, if reported ready, still denotes the file registered for this round; true exactly for members of the set |
| Select.FdSets.CanWrite | hasher-priv/fd_set.c:26-30 | The same for the write set |
| Select.FdSets.Wait | hasher-priv/parent.c:43-52 | Readiness is any subset of what was registered; the registration is remembered, so that staleness can be stated; how the call ended is recorded |
| Output.Totals.XWriteAll | hasher-priv/parent.c:384-391 | All octets reach the file and are counted, or the program dies with fewer out than asked for and none counted |
| Output.Totals.Copy | hasher-priv/parent.c:300-328 | What one read of an output stream gave is appended, whole, to the other file, and counted |
| X11Relay.ChunkStep | hasher-priv/io_x11.c:248-260 | One more chunk extends the filtered stream: the first chunk through the cookie rewrite, any later one as it came |
| X11Relay.Drain | hasher-priv/io_x11.c:197-214 | A short write sends a prefix of the buffer and moves the rest down; an error changes nothing |
| X11Relay.IoX11.constructor | hasher-priv/io_x11.c:39-60 | A new connection starts with both directions empty and unauthenticated |
| X11Relay.IoX11.SendToClient | hasher-priv/io_x11.c:197-214 | Octets leave the server-side buffer for the client; the relation read = written + pending is kept, no other file is touched |
| X11Relay.IoX11.ReadServer | hasher-priv/io_x11.c:216-227 | Reads only into an empty buffer, and keeps the relation |
| X11Relay.IoX11.SendToServer | hasher-priv/io_x11.c:229-246 | Octets leave the client-side buffer for the server, keeping filtered(read) = written + pending |
| X11Relay.IoX11.ReadClient | hasher-priv/io_x11.c:248-260 | Reads only into an empty buffer; the first chunk, and no other, is filtered, and its length is fixed for good |
| X11Relay.IoX11.CheckAuthData | hasher-priv/io_x11.c:124-181 | The rewrite happens on the first call and never again |
| X11Relay.IoX11.FromServer | hasher-priv/io_x11.c:197-227 | Server-to-client half of a turn: octets move exactly where readiness was reported, and the connection is to be closed if and only if a ready write or read of this half moved nothing |
| X11Relay.IoX11.FromClient | hasher-priv/io_x11.c:229-260 | The same for the other half |
| X11Relay.IoX11.Service | hasher-priv/io_x11.c:190-261 | Both relations survive a whole turn, closing included; no stale descriptor is asked about; other files are untouched; the connection is to be closed if and only if some direction that was ready, and due, moved nothing |
| X11Relay.HealthyStays | hasher-priv/io_x11.c:190-261 | A connection on which nothing was ready, or on which whatever was ready and due moved octets, is not closed |
| X11Relay.IoX11.AddTo | hasher-priv/io_x11.c:112-120 | Polled for reading exactly on the sides with an empty buffer, for writing exactly on the others |
| X11Relay.X11Table.AddTo | hasher-priv/io_x11.c:100-122 | Every live connection is polled for what it wants, and nothing else is added |
| X11Relay.X11Table.New | hasher-priv/io_x11.c:39-60 | The first free slot is reused, else the list grows by one; all other entries stay |
| X11Relay.X11Table.EntriesApart | hasher-priv/io_x11.c:62-80 | Two live connections never share a descriptor number, so closing one closes nothing of another |
| X11Relay.X11Table.Free | hasher-priv/io_x11.c:62-80 | The entry is always found; its slot is cleared and exactly its two descriptors are closed |
| X11Relay.X11Table.ServeSlot | hasher-priv/io_x11.c:190-261 | One slot's turn: either it stays or it is cleared and its descriptors closed; no other connection moves an octet |
| X11Relay.X11Table.ServeEntry | hasher-priv/io_x11.c:190-261 | The same short of closing: every connection ever made keeps its relation |
| X11Relay.X11Table.HandleSelect | hasher-priv/io_x11.c:183-262 | A whole pass: every live connection is served once and stays in its slot if and only if nothing of it stalled; slots are only cleared, only connections' files and descriptors change |
| X11Relay.X11Table.HandleNew | hasher-priv/io_x11.c:81-98 | A ready listener is always asked, and a pair that comes about is listed; a new pair disturbs no connection, even with reused numbers; without readiness, or a partner, nothing is left open |
| X11Relay.X11Table.Undisturbed | hasher-priv/io_x11.c:183-262 | Whatever happens to other files leaves all connections' relations true |
| AuthData.Pad4Value | hasher-priv/io_x11.c:159-160 | The masked sum is the quotient rounded up, times four |
| AuthData.Pad4Least | hasher-priv/io_x11.c:158-160 | (n + 3) & ~3 is the least multiple of four not below n |
| AuthData.Card16Value | hasher-priv/io_x11.c:143-150 | Two octets are read as their number in either byte order, within 16 bits |
| AuthData.UnparseParse | hasher-priv/io_x11.c:124-181 | Any complete packet is exactly the concatenation of its parsed fields, which have the announced lengths |
| AuthData.ParseUnparse | hasher-priv/io_x11.c:124-181 | Any well-formed packet parses back to itself |
| AuthData.CheckSetupPacket | hasher-priv/io_x11.c:132-180 | In place: the first avail octets become their rewrite, everything beyond is untouched |
| AuthData.SetupPacketRewritten | hasher-priv/io_x11.c:132-180 | Any packet laid out octet by octet as the protocol has it, in either byte order, with any name, data, padding and rest: with the fake cookie it becomes the same packet with the saved one, with other data it stays |
| AuthData.RewriteByFields | hasher-priv/io_x11.c:158-180 | The code's comparisons decide exactly when the parsed packet carries the fake cookie |
| AuthData.RewriteFrame | hasher-priv/io_x11.c:124-181 | The length is kept; data changes only in a complete packet carrying the fake cookie, and there only inside the data field |
| AuthData.RewriteReparses | hasher-priv/io_x11.c:179-180 | The result parses to the same header with the saved cookie |
| AuthData.SwappedRewriteRestores | hasher-priv/io_x11.c:171-180 | Running it again with the cookies swapped restores the packet if and only if the packet did not already carry the saved cookie |
| AuthData.RewriteHidesFake | hasher-priv/io_x11.c:168-180 | No chunk shows the fake cookie after the rewrite; the saved one shows exactly in chunks that carried either |
| AuthData.ParseOfPrefix | hasher-priv/io_x11.c:158-166 | The start of a string is a complete packet exactly if it reaches the end of the packet the whole starts with; it is then the same packet |
| X11Relay.FakePassesExactly | hasher-priv/io_x11.c:124-181 | The stream to the server carries the fake cookie if and only if the client sent it in a packet that the first chunk does not hold to the end |
| X11Relay.SplitSetupPassesFake | hasher-priv/io_x11.c:158-166 | Any packet whose first twelve octets are read by themselves reaches the server with the fake cookie |
| X11Relay.IoX11.ServerSeesFake | hasher-priv/io_x11.c:229-260 | The same of what a connection has sent the server and has pending for it, in every state |
| LogRelay.LogLineIsText | hasher-priv/io_log.c:92-102 | What is emitted is NUL-free, ends in a newline, starts with the chunk's text, and is at most two octets longer than the chunk |
| LogRelay.LogLineExactly | hasher-priv/io_log.c:92-102 | The text before the first NUL, or all of it, with CR LF added exactly if it is not empty and does not end in a newline |
| LogRelay.LogTable.FdNew | hasher-priv/io_log.c:28-45 | The first free slot is reused, else the list grows; a negative number is ignored |
| LogRelay.LogTable.FdFree | hasher-priv/io_log.c:47-61 | The descriptor is always found; only its slot is cleared and only it is closed |
| LogRelay.LogTable.AddTo | hasher-priv/io_log.c:70-77 | Exactly the live entries join the read set |
| LogRelay.LogTable.CopyLog | hasher-priv/io_log.c:79-103 | One read of at most BUFSIZ - 2 octets; its text goes to standard error and is counted; nothing read closes the connection; at most BUFSIZ octets out |
| LogRelay.LogTable.Finish | hasher-priv/io_log.c:92-100 | The in-place edit stays inside the buffer and yields exactly the chunk's text line |
| LogRelay.LogTable.ServeSlot | hasher-priv/io_log.c:109-113 | One slot's turn touches no other slot's connection |
| LogRelay.LogTable.HandleSelect | hasher-priv/io_log.c:106-114 | Every ready connection gives one chunk, in slot order; standard error gets exactly their text lines; at most BUFSIZ octets for each slot |
| LogRelay.LogTable.HandleNew | hasher-priv/io_log.c:63-68 | A ready listener is asked exactly once, and a connection that comes is listed; even with a reused number it leaves every live entry as it was |
| Ledger.AfterCopy | hasher-priv/parent.c:300-328 | Copying an output stream keeps the descriptors' places and the relay's books, and touches no X11 connection |
| Ledger.AfterTyping | hasher-priv/parent.c:330-347 | Octets taken by the terminal leave typed = delivered + pending true, and counting all that were pending keeps the count at least what was delivered |
| Ledger.AfterReading | hasher-priv/parent.c:349-362 | Octets read from the client's terminal, or one EOT for its end, become pending |
| Ledger.AfterConnections | hasher-priv/parent.c:364-365 | A pass over the X11 connections leaves every other descriptor denoting its file |
| Ledger.AfterExtends | hasher-priv/parent.c:366-369 | Accepting connections leaves every descriptor denoting its file, whatever number was reused |
| Ledger.AfterLoggers | hasher-priv/parent.c:368-369 | A pass over the log connections leaves every descriptor still to be asked about denoting its file |
| Ledger.BooksAfterLoggers | hasher-priv/io_log.c:105-114 | Lines written for log connections extend the account of standard error and leave the rest true |
| Ledger.ServedAreHeard | hasher-priv/io_log.c:105-114 | A served slot's connection was read exactly if ready and is still listed unless that gave nothing |
| Ledger.StillHeard | hasher-priv/parent.c:364-379 | It stays so through whatever the round does to other files, slots filled anew included |
| Ledger.OvercountingWrite | hasher-priv/parent.c:330-347 | Any write that does not take all that is pending puts the counter ahead of what was delivered, by at least what it left |
| Ledger.OvercountingExample | hasher-priv/parent.c:330-347 | A terminal that takes one octet of two, after which the counter is one ahead |
| ChildLife.Child.SigchldHandler | hasher-priv/parent.c:99-127 | A child that is still owned is reaped and its status decoded; otherwise nothing happens |
| ChildLife.DecodedWord | hasher-priv/parent.c:113-126 | In terms of the status word: an exit code c gives c, a signal n gives 128 + n, core dump or not |
| ChildLife.Child.Forget | hasher-priv/parent.c:140-151 | A child that is still owned is given up with the code of a termination; otherwise nothing happens |
| ChildLife.Child.Wait | hasher-priv/parent.c:153-162 | With the signal let in at any point, the child is reaped at most once |
| ChildLife.Child.Conclude | hasher-priv/parent.c:437-442 | child_pid went to zero exactly once, in one way, and the returned code is the one for that way, never a mix |
| Parent.ReadTerminal | hasher-priv/parent.c:349-362 | Data, an EOT for an end of file, or nothing for an error |
| Parent.Relay.constructor | hasher-priv/parent.c:393-421 | A fresh relay satisfies every invariant, with an empty account |
| Parent.Relay.Register | hasher-priv/parent.c:267-291 | What is polled, exactly and descriptor by descriptor, and all of it open; the client's terminal is not polled while input is pending; it gives up exactly when the child is gone and nothing is left to poll |
| Parent.Relay.RegisterInput | hasher-priv/parent.c:274-286 | Input and listeners are polled only while the child lives, input only with an empty buffer |
| Parent.Relay.Ask | hasher-priv/parent.c:250-298 | The round up to `pselect`: it is called unless the child is gone and nothing is left to poll; what it reports was registered and open, and how it ended is passed on |
| Parent.Relay.Poll | hasher-priv/parent.c:293-298 | Signals are let in here only; the child may be reaped, once; an alarm is never forgotten |
| Parent.Relay.ChildError | hasher-priv/parent.c:300-313 | Standard error is read only if ready, relayed whole and accounted, and given up exactly when it was ready and gave nothing |
| Parent.Relay.ChildOutput | hasher-priv/parent.c:315-328 | The same for standard output |
| Parent.Relay.Deliver | hasher-priv/parent.c:330-347 | The terminal gets a prefix of what is pending; the counter grows by all that was pending, and what stays is accounted as counted again; a terminal that takes nothing stops the relay and changes nothing |
| Parent.Relay.ChildInput | hasher-priv/parent.c:330-347 | Delivery happens exactly when something is pending and the terminal was ready; what it leaves is accounted; it stops the relay if and only if the terminal was ready and took nothing |
| Parent.Relay.Receive | hasher-priv/parent.c:349-362 | Only an empty buffer is read into; a failure gives the terminal up |
| Parent.Relay.TerminalInput | hasher-priv/parent.c:349-362 | Input happens exactly when nothing is pending and the client's terminal was ready; what is put in the buffer is accounted |
| Parent.Relay.Outputs | hasher-priv/parent.c:300-328 | Both output streams, standard error first |
| Parent.Relay.Inputs | hasher-priv/parent.c:330-362 | Both directions of input, delivery first; the relay stops if and only if the terminal refused what was pending |
| Parent.Relay.X11Service | hasher-priv/parent.c:364-365 | The X11 pass serves every connection and leaves every descriptor still to be asked about fresh |
| Parent.Relay.X11Accept | hasher-priv/parent.c:366 | A ready listener is asked, what comes is listed, and every descriptor still to be asked about is fresh |
| Parent.Relay.X11Turn | hasher-priv/parent.c:364-366 | Both: every connection there was is served and stays exactly if alive, and log connections are as they were |
| Parent.Relay.LogService | hasher-priv/parent.c:368 | The lines of all ready log connections reach the standard error in slot order and are accounted; each connection is read exactly if ready; at most BUFSIZ octets for each slot |
| Parent.Relay.LogAccept | hasher-priv/parent.c:369 | A ready listener is asked once; a connection that comes fills a slot with a new file; the others and the control descriptor stay |
| Parent.Relay.LogTurn | hasher-priv/parent.c:368-369 | The log lines and then a new connection: every connection there was is read exactly if ready, and a ready listener is asked |
| Parent.Relay.HandleX11Ctl | hasher-priv/parent.c:208-248 | A listening socket is taken only together with a cookie that differs from the saved one |
| Parent.Relay.ControlRound | hasher-priv/parent.c:371-379 | The control connection is heard and closed exactly if it was ready; every other descriptor stays open on its file |
| Parent.Relay.Streams | hasher-priv/parent.c:300-362 | The child's streams and the input in one round: each served if ready and left alone if not, all of it accounted, at most two buffers out; it ends the relay if and only if the terminal refused |
| Parent.Relay.Connections | hasher-priv/parent.c:364-379 | The connections in one round: every X11 connection there was is served and stays if and only if nothing of it stalled, every log connection is read exactly if ready and its text accounted, every ready listener is asked, the control connection is closed exactly if it was ready |
| Parent.Relay.Round | hasher-priv/parent.c:300-381 | After readiness is known: everything found ready is served, everything else is left alone, the account records exactly what went through each file, every readiness test is on a fresh descriptor; the relay stops exactly if the terminal refused, and dies exactly if an output took less than it was given |
| Parent.Relay.HandleIo | hasher-priv/parent.c:250-382 | One round either polls nothing and changes no file, or serves exactly what was ready, which lies within what was to be polled; the account grows by what was relayed. It lets the relay go on, stop or die exactly as the poll's end, a broken output and a refusing terminal say: nothing is polled if and only if the child is gone and nothing is left to poll; at most (2 + fd_count) buffers go out, even when it dies in the middle |
| Parent.Relay.WorkLimitsOk | hasher-priv/parent.c:173-191 | True exactly when no limit is reached; otherwise the child is gone and the program leaves |
| Parent.Relay.HandleParent | hasher-priv/parent.c:393-443 | Over any number of rounds: all relay relations hold, the account is that of the rounds, each round turned what the relay knew before it into what it knew after it, no round began at or beyond a limit, octets written = octets counted, at most L - 1 + (2 + fd_count)*BUFSIZ of them under a limit L. The run returns only after a round with nothing to poll, a failed poll or a refusing terminal, and then has ended its child once with the matching code; it dies with code 1 if and only if an output broke, and otherwise only of a limit or a timeout |
| Parent.Relay.Conclude | hasher-priv/parent.c:437-442 | After the loop the child has ended, once, and the code is the one of its end |
| Parent.Relay.StreamsOfRun | hasher-priv/parent.c:300-369 | Over a whole run: standard error got each round's child errors and then its log lines, in order; standard output got what the child wrote; both in order if they are one file; the terminal got what was typed, but for what is pending |
| Parent.Relay.InputCounterIsExact | hasher-priv/parent.c:345-346 | Over a whole run the counter exceeds what the terminal got by exactly what writes left pending, so it is exact if and only if none did |
| Parent.Launch | hasher-priv/chrootuid.c:135-211 | A relay can be started from a fresh process, with a terminal or with two pipes, and with or without the log and control descriptors; all its parts are new |
| Parent.Supervise | hasher-priv/chrootuid.c:135-211 | Launch and relay together: unless it died, all that went through is what its rounds say, within the output limit, and a job that returns has the code of its child's one end |
| WorkLimits.ModifyWlim | hasher-priv/caller_config.c:216-224 | The configuration's value, or the tighter of two limits |
| WorkLimits.CallerOnlyTightens | hasher-priv/caller_config.c:217-242 | After the configuration's last word, the limit in force is the tightest of it and all the caller's settings, so a caller never lifts one |
| Strings.BlockSize | hasher-priv/hasher-priv.c:154-156 | The announced size is the size of what is sent |
| Strings.SendStrings | hasher-priv/hasher-priv.c:167-169 | What is sent is the list's block |
| Strings.RawMemchr | hasher-priv/caller_job.c:166-180 | Finds the first terminator at or after an offset, inside the buffer |
| Strings.CountStrings | hasher-priv/caller_job.c:164-170 | The count pass counts the strings that the fill pass finds |
| Strings.FillPointers | hasher-priv/caller_job.c:172-180 | Every pointer is the start of a string inside the buffer, all of them in order |
| Strings.CutStrings | hasher-priv/caller_job.c:137-184 | The terminated buffer and the null-terminated pointer vector, for arbitrary octets |
| Strings.SplitAtStarts | hasher-priv/caller_job.c:164-180 | The strings are exactly those the pointers point to |
| Strings.SplitBlock | hasher-priv/hasher-priv.c:151-173 | Every list of strings, empty ones and the empty list included, is cut back out of its block |
| Strings.BlockSplit | hasher-priv/caller_job.c:137-184 | For arbitrary octets, joining the cut strings gives the input plus at most one missing final terminator |
| Wire.HeaderRoundTrip | hasher-priv/hasher-priv.c:100-186 | A header survives the wire and what follows is left in place |
| JobProtocol.CodeIsBit | hasher-priv/communication.h:27-33 | Every job command is one bit of the mask |
| JobProtocol.ContinueShrinks | hasher-priv/caller_job.c:256-300 | Every accepted command sets a bit that was clear: the loop ends after at most one command of each kind |
| JobProtocol.FollowPointers | hasher-priv/caller_job.c:176-183 | The pointer vector denotes the strings of the block |
| JobProtocol.Job.ReceiveStrings | hasher-priv/caller_job.c:137-184 | The two-pass code receives exactly the strings of the block, or fails |
| JobProtocol.Job.ValidateArguments | hasher-priv/caller_job.c:44-86 | Chrootuid jobs need an argument, other known jobs must have none |
| JobProtocol.Job.ReceiveCommand | hasher-priv/caller_job.c:256-300 | One turn of the command loop refines the automaton's step, in state, input and verdict |
| JobProtocol.Job.ReceivePayload | hasher-priv/caller_job.c:274-300 | Each payload handler refines the automaton's |
| JobProtocol.RefusedExactly | hasher-priv/caller_job.c:256-317 | For every state and input, when a command is refused: no header, a repeated or unknown command, descriptors of another number or size, strings too long or cut short, wrong argument counts, a run with a payload |
| JobProtocol.Job.ReceiveRequest | hasher-priv/caller_job.c:246-318 | The whole loop refines the automaton, replies included |
| JobProtocol.CommandAddsItsBit | hasher-priv/caller_job.c:256-272 | A live request's mask gains exactly one bit; no received field is overwritten |
| JobProtocol.CommandKeepsAlive | hasher-priv/caller_job.c:256-317 | In every live request each field is there exactly if its bit is, and arguments were checked against the final type |
| JobProtocol.AcceptedIsAlive | hasher-priv/caller_job.c:303-317 | Hence the same in every accepted request, for all inputs |
| JobProtocol.AcceptedChrootuidIsComplete | hasher-priv/caller_job.c:223-243 | An accepted chrootuid request has a root directory and at least one argument |
| JobProtocol.AcceptedOtherHasNoArguments | hasher-priv/caller_job.c:44-86 | An accepted request of another kind has no arguments |
| JobProtocol.MessageOutcome | hasher-priv/hasher-priv.c:100-186 | Each message of the client has the effect it is for, or is refused exactly if a string block is too big |
| JobProtocol.ClientAndServerCompose | hasher-priv/hasher-priv.c:188-218 | For everything the client can be asked to send, client and server run the job if and only if both string blocks fit the server's limit, and then the server has exactly what was sent |
| Client.ParseCmdline | hasher-priv/cmdline.c:116-183 | A job is named exactly by the accepted command lines, and read as the words at their places; help, version, a missing root directory and usage come out exactly where they do |
| Client.JobsByName | hasher-priv/cmdline.c:147-182 | The six words and the numbers of communication.h they stand for; no other word names a job |
| Client.ClientEnd.Ask | hasher-priv/hasher-priv.c:30-59 | One message and its reply advance the dialogue by one step, or end it |
| Client.RunJob | hasher-priv/hasher-priv.c:188-218 | The client's straight line of sends is the dialogue |
| Client.AcceptedCommandLineRuns | hasher-priv/hasher-priv.c:188-218 | Every accepted command line runs if and only if its blocks fit, with the type, arguments, environment, root directory and persona that were given |
| EndToEnd.CommandIsFirst | hasher-priv/caller_job.c:256-300 | The server takes no more from the stream than the command it accepts, whatever follows |
| EndToEnd.DialogueIsServed | hasher-priv/hasher-priv.c:188-218 | A dialogue that runs the job is the server's loop over the client's whole stream |
| EndToEnd.OrderIsServed | hasher-priv/caller_job.c:246-318 | From end to end: an order that fits is accepted with exactly its contents, every reply before the last says done, and the last is the job's result if it completes |
| Runner.TerminateExecutor | hasher-priv/caller_runner.c:128-135 | The executor is signalled only before it is reaped, and reaped exactly if it could be signalled |
| Runner.JobRunner | hasher-priv/caller_runner.c:212-275 | Over any poll results, the loop ends as its batches say, with the reply for that end; the executor is reaped at most once |
| Runner.BatchEndExactly | hasher-priv/caller_runner.c:212-275 | A batch of events ends the loop by precedence, whatever their order: a client that is gone, then an executor that ended, then a signal to stop |
| Runner.FirstDecides | hasher-priv/caller_runner.c:212-275 | The first poll that fails or ends the runner decides, whatever comes after |
| Runner.ServeConnection | hasher-priv/caller_job.c:303-317 | The replies of a whole connection |
| Runner.ResultIsNotFailure | hasher-priv/caller_job.c:186-218 | A job result is between 0 and 255, never the failure status |
| Runner.ResultOfWord | hasher-priv/caller_job.c:186-218 | In terms of the status word: an exit code c gives c, a signal n gives 128 + n; no status gives 1 |
| Runner.OneReplyPerCommand | hasher-priv/caller_job.c:112-135 | Over all inputs and environments: one reply at most for each command, in order, a failure only last; an unsolicited failure exactly when a header does not come |
| Runner.ResultIsDelivered | hasher-priv/caller_runner.c:138-143 | The client gets the job's result if and only if the executor ends before the client leaves or the runner is stopped |
| Handoff.EndOfFileIsExact | hasher-priv/caller_runner.c:278-315 | Over every interleaving, exactly when the handler's read of the pipe reaches the end of file |
| Handoff.ReadReturnsAfterSanitizing | hasher-priv/caller_runner.c:278-315 | With the numbers that pipe assigns and close_range, a living executor at the end of file has exactly its four descriptors |
| Handoff.ReadReturnsWithAllInPlace | hasher-priv/caller_runner.c:57-112 | Whatever the number of the write end, an executor alive at the end of file has its four descriptors in place |
| Handoff.EarlyReturnIfOverwritten | hasher-priv/caller_runner.c:278-315 | A run that shows why the number matters: with the write end at 3, moving the root directory ends the file before anything is sanitised |
| Handoff.EarlyReturnIfBrute | hasher-priv/fds.c:66-72 | Without close_range, for every write end below the limit, a run in which the read returns between two closes |
| Handoff.ReadIsReliableExactly | hasher-priv/caller_runner.c:278-315 | For every setup: in all runs the read returns only with the executor sanitised, dead or never born, if and only if the root directory does not land on the write end and descriptors are closed by close_range or by a loop that stops short of the write end |
| Handoff.ReadIsReliableWithCloseRange | hasher-priv/caller_runner.c:278-315 | With the numbers that pipe assigns and the limit of get_open_max: if and only if close_range works or the write end lies beyond the limit |
| Descriptors.Process.ReorderFd | hasher-priv/fds.c:90-107 | In place, with dup2 and close: the table and the kept variable as specified, or death |
| Descriptors.Process.ReorderFds | hasher-priv/fds.c:109-121 | Both kept descriptors, in the order that clobbers neither |
| Descriptors.Process.CloseRangeBrutely | hasher-priv/fds.c:66-72 | Closes exactly the numbers from one bound to the other |
| Descriptors.Process.SanitizeFds | hasher-priv/fds.c:123-149 | The code computes the specified table, or dies when a standard descriptor is closed |
| Descriptors.Process.MoveFd | hasher-priv/fds.c:164-175 | The file moves to the new number, what was there is lost, the old number is free |
| Descriptors.Process.AdoptDescriptors | hasher-priv/caller_runner.c:67-76 | The executor's loop and sanitising compute the specified table |
| Descriptors.ReorderKeeps | hasher-priv/fds.c:90-121 | For any two kept variables, equal ones included, neither is clobbered and the standard three are untouched |
| Descriptors.SanitizeIsExact | hasher-priv/fds.c:109-149 | Afterwards the open descriptors are a range from 0 with nothing in it but the standard three and the kept ones, each still its file |
| Descriptors.BruteForceAgrees | hasher-priv/fds.c:66-72 | The brute-force loop agrees with close_range if and only if no open number reaches the table limit |
| Descriptors.BruteForceAgreesBelowOpenMax | hasher-priv/fds.c:29-41 | The same at the limit that get_open_max computes; numbers below 1024 are always covered |
| Descriptors.OpenMaxIs | hasher-priv/fds.c:29-41 | The configured limit, brought between 1024 and the largest int |
| Descriptors.ExecutorTableIsClientTable | hasher-priv/caller_runner.c:67-76 | Fresh received descriptors end up as exactly the client's three and the root directory at 3 |
| Descriptors.ExecutorKeepsServerStdio | hasher-priv/caller_runner.c:67-76 | Without received descriptors the server's own three stay |
| SessionPool.Daemon.StartSession | hasher-priv/hasher-privd.c:119-178 | The linked list, the children and the reply are those of the abstract step, which `OpenIsExact` pins down |
| SessionPool.OpenIsExact | hasher-priv/hasher-privd.c:119-178 | A permitted request is done, changing nothing, if and only if some session has exactly its uid and number; else, with memory and a fork, it is deferred, and one entry at the end and one child are all that is new; in all other cases it fails and nothing changes |
| SessionPool.Daemon.Unlink | hasher-priv/hasher-privd.c:204-218 | The store through the pointer to the pointer removes one node of the linked list |
| SessionPool.Daemon.FreeSession | hasher-priv/hasher-privd.c:204-218 | Exactly the session of the pid goes, order kept; an unknown pid changes nothing |
| SessionPool.Daemon.Reap | hasher-priv/hasher-privd.c:258-285 | One reap removes one child and its session |
| SessionPool.Daemon.WaitSessions | hasher-priv/hasher-privd.c:258-285 | Without waiting: exactly the exited servers are gone; waiting: the pool is empty |
| SessionPool.StepKeepsFaithful | hasher-priv/hasher-privd.c:119-218 | Every event keeps keys and pids unique and the pool equal to the unreaped servers |
| SessionPool.EveryRunIsFaithful | hasher-priv/hasher-privd.c:141-177 | So every interleaving of requests, exits and reaps does |
| SessionPool.ReapKeepsOrder | hasher-priv/hasher-privd.c:204-218 | What stays after reaping is a subsequence, missing exactly the exited servers |
| SessionPool.Handle | hasher-priv/hasher-privd.c:385-444 | One turn of the main loop refines the abstract step |
| SessionPool.Serve | hasher-priv/hasher-privd.c:446-451 | After any run of the loop the final wait ends with an empty pool |
| Affinity.SwapBits | hasher-priv/child.c:150-164 | Two bits change places, whatever they are |
| Affinity.SetAffinityNproc | hasher-priv/child.c:166-202 | The in-place loops compute the specified mask |
| Affinity.NoSampling | hasher-priv/child.c:174-180 | Without a number, or with no more CPUs than asked for, the mask is left alone |
| Affinity.CountIsCardinality | hasher-priv/child.c:178 | The count is the number of set bits |
| Affinity.KeepPicked | hasher-priv/child.c:188-196 | The second loop keeps exactly the set bits whose rank was picked |
| Affinity.ShuffleKeeps | hasher-priv/child.c:183-187 | Shuffling keeps the number of picks, all below the number of CPUs |
| Affinity.SampleIsSubset | hasher-priv/child.c:150-202 | For every random sequence the new mask is a subset of the old one with exactly nproc bits, those whose ranks were picked |
| Affinity.NextPick | hasher-priv/child.c:183-187 | Each swap can bring the picks one step closer to any goal |
| Affinity.ShuffleReaches | hasher-priv/child.c:183-187 | Any set of nproc ranks is the result of some random sequence |
| Affinity.EverySubsetIsSampled | hasher-priv/child.c:150-202 | Every subset of nproc bits of the old mask is the result of some random sequence |
| Tokens.AllAreTokens | hasher-priv/caller_config.c:262-270 | Tokenising yields non-empty strings without delimiters |
| Tokens.SplitJoin | hasher-priv/mount.c:158-163 | Joining tokens with a delimiter and tokenising again gives them back |
| StrList.SortIsUnique | hasher-priv/caller_config.c:271-272 | Sorting is determined by the strings alone |
| StrList.ClearDuplicates | hasher-priv/caller_config.c:273-276 | In place, every entry equal to its successor becomes null |
| StrList.AppendTokens | hasher-priv/caller_config.c:253-270 | The cleared list is filled with a pointer to each token, in order |
| StrList.ParseStrList | hasher-priv/caller_config.c:250-277 | The vector of a value: its tokens, sorted, duplicates cleared |
| StrList.ParsedIsSortedSet | hasher-priv/caller_config.c:250-277 | The entries left are strictly sorted and are exactly the distinct tokens |
| MountOptions.ParseOpt | hasher-priv/mount.c:106-148 | One option: a flag decided, or a residual token added, gid names resolved |
| MountOptions.ResolvedExactly | hasher-priv/mount.c:125-135 | A group option is replaced by the group's number exactly if what follows is not a number and names a known group; every other option is kept |
| MountOptions.DigitsDenote | hasher-priv/mount.c:131 | The digits written denote the group's number |
| MountOptions.FoldOptions | hasher-priv/mount.c:151-163 | The option loop computes the folds of flags and residual string |
| MountOptions.LastTokenDecides | hasher-priv/mount.c:76-148 | Every flag bit is as the last token that names it says, or as it started |
| MountOptions.MagicSurvives | hasher-priv/mount.c:76-163 | No option of the table disturbs the magic bits |
| MountOptions.OptMapKeepsMagic | hasher-priv/mount.c:76-163 | The same of the program's own table, for every list of options |
| MountOptions.ResidualSplitsBack | hasher-priv/mount.c:106-148 | The residual string tokenises to exactly the unrecognised tokens, resolved, in order |
| MountPlan.IsAllowed | hasher-priv/mount.c:210-217 | True exactly for members of the list |
| MountPlan.LookupMountEntry | hasher-priv/mount.c:219-237 | The entry that `EntryForIsFirst` describes, or none |
| MountPlan.EntryForIsFirst | hasher-priv/mount.c:219-237 | The first entry of the configured table for the mount point; only if it has none, the first of the built-in one; none if neither has |
| MountPlan.ClassifyItem | hasher-priv/mount.c:251-287 | One item goes to the end of the vector its verdict says, or is refused; `RefusedIsForbidden` and `PlanIsAllowed` say what the verdicts mean |
| MountPlan.Classify | hasher-priv/mount.c:251-287 | The two vectors are the order-preserving selections of the items; memory aside it refuses exactly if some kept item is no path with one leading slash, is in neither list, is in both, or is an allowed device outside /dev/; each planned device and mount point is in its list and not in the other |
| MountPlan.RefusedIsForbidden | hasher-priv/mount.c:251-288 | The verdict on one item, in terms of the two configured lists alone: what is refused, what is a device, what is a mount point |
| MountPlan.PlanIsAllowed | hasher-priv/mount.c:251-288 | An item is planned as a device, or as a mount point, if and only if it was requested and is allowed as that and as nothing else |
| MountPlan.MakeDevices | hasher-priv/makedev.c:137-138 | Devices are made in order up to the first bad name or kernel failure; all of them exactly if there is neither |
| MountPlan.MountAll | hasher-priv/mount.c:307-308 | Mount points are mounted in order up to the first without an entry or that the kernel refuses; all of them exactly if there is none |
| MountPlan.SetUp | hasher-priv/mount.c:240-312 | The steps done are a prefix of /dev, the devices, /dev/shm, the mount points, and all of them exactly if everything can be looked up and the kernel carries out every step |
| MountPlan.EachItemLandsOnce | hasher-priv/mount.c:251-287 | Each distinct requested item but /dev and /dev/shm lands exactly once in exactly one vector |
| MountPlan.MountsAncestorsFirst | hasher-priv/mount.c:307-308 | A requested ancestor is mounted before its descendants |
| MountPlan.SetupOrderIsSafe | hasher-priv/mount.c:302-308 | Every ancestor is set up before its descendants if and only if no requested device lies beneath /dev/shm or a requested mount point |
| MountPlan.HiddenDevice | hasher-priv/mount.c:251-308 | Any one device requested and allowed beneath /dev/shm passes every check and is set up in an unsafe order |
| MountPlan.HiddenDeviceExample | hasher-priv/mount.c:251-308 | Such a request, from the option value to the unsafe order |
| Prefix.PrefixIsByComponent | hasher-priv/chdiruid.c:29-36 | The string test holds if and only if the components of the prefix are a list prefix of the path's |
| Prefix.ParsePrefix | hasher-priv/caller_config.c:279-300 | Trailing slashes are cut in place; what is left must be empty or absolute |
| Prefix.ParsePrefixList | hasher-priv/caller_config.c:302-336 | One parsed prefix for each item, in order, or death; no items leave no restriction |
| Prefix.ItemRefusedExactly | hasher-priv/caller_config.c:279-300 | An item is refused exactly if it, or the home directory it stands for, is not empty and not absolute |
| Prefix.OptionRefusedExactly | hasher-priv/caller_config.c:302-336 | The option is refused exactly if one of its items is, and leaves no restriction exactly if it has none |
| Prefix.CheckCwd | hasher-priv/chdiruid.c:43-67 | Passes exactly without restriction or beneath a listed prefix |
| Prefix.StrippedComponents | hasher-priv/caller_config.c:279-300 | Cutting slashes drops trailing empty components |
| Prefix.PolicyByComponent | hasher-priv/chdiruid.c:50-57 | The whole policy in terms of components of the configured items |
| GrowArray.OverflowCheckIsExact | hasher-priv/xmalloc.c:50-67 | Despite the half-width shortcut, a size is rejected for overflow exactly when the product does not fit |
| GrowArray.GrowthIsStrict | hasher-priv/xmalloc.c:69-89 | From an array, or from nothing with a member size that does not wrap, capacity strictly increases or the program dies |
| GrowArray.FirstAllocation | hasher-priv/xmalloc.c:72-78 | The first capacity is zero exactly for member sizes above 2^64 - 128 |
| GrowArray.CopyingIsLinear | hasher-priv/xmalloc.c:69-89 | Over any number of appends the elements copied are linear in the final length |
| GrowArray.Vector.Append | hasher-priv/caller_config.c:264-269 | One append grows when full and adds the element at the end, or dies |

## Left out

- Parent.Relay.HandleParent: closing the terminal after the loop and the tty and signal setup before it are not modelled; a run is looked at after a given number of rounds.
- Parent.Relay.constructor: histories count from the start of the relay, so the output files and the child's start with empty ones.
- Parent.Relay.HandleX11Ctl: how the saved cookie's hexadecimal form is read, and the socket's address, are given; a socket that is refused is closed or left open.
- Parent.Relay.Poll: a handler may run whatever `pselect` returns, which allows more than the kernel does.
- X11Relay.X11Table.Free: the freed memory and its wiping are not modelled; a closed connection's record stays, as history.
- Kernel: `close` is assumed to succeed; the counters are unbounded numbers, so their wrap-around is not modelled; neither is a number beyond FD_SETSIZE.
- Client.ParseCmdline: how a caller number is read (`strtoul`) and which directories open are given.
- MountPlan.SetUp: what `mount`, `mkdir` and `mknod` do is left to the kernel; which steps it carries out is given; an item "/" is no ancestor in the sense of a string prefix followed by a slash.
- MountOptions.ParseOpt: the group database is a function; the option table is a parameter of the loop, and `OPT_MAP` is the program's.
- Affinity.SetAffinityNproc: random numbers are a given sequence; the affinity system calls are not modelled.
- SessionPool.Daemon.StartSession: the body of the forked server, the socket node it creates and the idle timer are not modelled.
- StrList.ParseStrList: `qsort` is any sorting into `strcmp` order.
- JobProtocol.ServerEnd.Receive: the stream is reliable up to its end; sending a reply always succeeds.
- Runner.JobRunner: dropping privileges and the executor's own work after it has its descriptors are not modelled.
- `read_loop`, which reads the random cookie and a cgroup file, is not used by the relay.
- The configuration file's other options, `check_user`, the directory validators, the elapsed and idle timers as such: short branches without state.
- Socket and control-message plumbing (sockets.c, pass.c, server_comm.c, epoll.c, unix.c): a byte and descriptor stream, whose failure is an outcome.
- X11 display parsing and connecting, `xauth`, ptys, cgroups, rlimits, network and IPC isolation: straight-line calls into the kernel or other programs.
- Running out of memory is an outcome of appending to a vector, and death elsewhere is an outcome of its own; memory is otherwise unlimited.

# Verified model of the network tools

A Dafny model of the core of five small C programs (logind, ping, rlogin and rlogind, telnetd and telnet) with proofs
of what they keep over all their runs.  `dafny verify dfyconfig.toml` checks everything.

The kernel is an oracle: which descriptors select() reports, how much a read() or write() transfers, which calls fail,
which pids fork() and waitpid() return and when children exit are parameters or nondeterministic choices, and every
result holds for all of them.  Code that updates fields and buffers in place is modelled by classes and by methods
over arrays with the program's own loops and branches, each proved against a specification function; the main results
are lemmas about those functions, and methods that run the loops over arbitrary inputs.

| file | models |
|---|---|
| `LogindProtocol.dfy`, `LogindLogins.dfy`, `Logind.dfy` | logind's fork / SIGCHLD / poll protocol as interleaved steps, which logins its runs fork, and the code that performs them |
| `InternetChecksum.dfy` | `in_cksum` and the one's-complement checksum of section 1 of RFC 1071 |
| `PingStats.dfy`, `Ping.dfy` | ping's duplicate table, counters and timing: runs of requests and replies, and the code in place |
| `RloginWire.dfy` | the messages of rlogin (RFC 1282) |
| `Rlogin.dfy`, `RloginLoop.dfy`, `RloginAnswers.dfy`, `RloginRelay.dfy` | the rlogin client: start-up message, the relay between terminal and socket as transitions of a value, what these make of the kernel's answers, and the relay in place |
| `Rlogind.dfy`, `RlogindFailure.dfy`, `RloginEndToEnd.dfy` | the rlogin server's scan and handshake, its scan when an ioctl fails, and client and server together |
| `TelnetCodec.dfy` | the telnet decoder as a function, its inverse the printer, and the client's encoding of keys (RFC 854) |
| `Telnetd.dfy` | telnetd's decoder and escaper |
| `TelnetdVisit.dfy`, `TelnetdAnswers.dfy`, `TelnetdSession.dfy` | a visit of telnetd's loop to one session as a function of values, what it makes of the kernel's answers, and the session's buffers in place |
| `TelnetdTurns.dfy`, `TelnetdDaemon.dfy` | a turn of telnetd's loop as a function of values, and the linked list of sessions in place |
| `TelnetNegotiation.dfy`, `TelnetReplies.dfy`, `TelnetConsole.dfy`, `TelnetClient.dfy` | the telnet client: option negotiation, when it answers what and what telnetd makes of that, what it shows of the server's bytes, its buffers and loops |
| `TelnetStray.dfy` | what both ends make of bytes that are no whole tokens |
| `TelnetEndToEnd.dfy` | a session of telnetd and the telnet client together |
| `Bytes.dfy`, `Filters.dfy` | bytes, 16-bit words and a few facts about sequences |

## What was found

Where the code does not do what it is meant to, the model follows the code, lemmas or methods show failing inputs, and
the condition under which it does is proved, as an equivalence over all inputs.

- telnetd returns from its main loop, and so ends all sessions, as soon as one of several sessions ends: after it has
  reaped the ended child, waitpid() answers 0, and no session has pid 0 (`TelnetdTurns.OneExitEndsAll`).  The comment
  at telnetd/telnetd.c:436 speaks of a reparented child.  The daemon survives SIGCHLD exactly if no child is left
  (`TelnetdTurns.OutlivesOnlyAllItsChildren`).
- telnetd decodes a chunk as if none of `buff2` were in use (telnetd/telnetd.c:215-216).  If n bytes are, the last n
  bytes of the chunk are lost, and n counts bytes already written to the pty until the buffer is empty and the round
  ends well: more may be lost than are pending, and some when nothing is (`TelnetdVisit.PartlyWritten`,
  `TelnetdVisit.NothingPending`).  A plain chunk arrives whole exactly if n is 0
  (`TelnetdVisit.BufferInUseLosesInput`), and over all visits to a session all that is read arrives exactly if n is 0
  whenever something is read (`TelnetdVisit.ArrivesExactly`).
- telnetd drops an LF or NUL that is a data byte of its own behind CR LF or CR NUL, and a window size that ends a
  chunk (`TelnetCodec.LineFeedIsLost`, `TelnetCodec.LastSizeIsLost`; `TelnetCodec.ServerRecoversChunk`, two
  equivalences).
- telnetd takes every command of two bytes, such as Are You There, for one of three, and skips whatever byte follows a
  CR: the byte behind either is lost (`TelnetStray.ByteBehindCommandIsLost`, `TelnetStray.ByteBehindCrIsLost`).  The
  client skips no more than the command and shows the byte behind CR (`TelnetStray.CommandIsSkipped`,
  `TelnetStray.ByteBehindCrIsShown`).
- telnet drops a doubled IAC and shows the inside of subnegotiations on the console
  (`TelnetConsole.DoubledIacIsDropped`, `TelnetConsole.InsideIsShown`; exactly these, `TelnetConsole.ShownIsMeant`).
  Over runs of telnetd's session and the client, the console shows all that the pty has sent exactly if no read holds
  an IAC or a CR NUL of the pty's (`TelnetEndToEnd.PtyReachesConsole`).
- telnet forgets what write() did not take of its replies (`TelnetClient.ForgottenReply`; exactly then one is lost,
  `TelnetClient.Client.NoReplyIsLost`).
- telnet answers each DO of TTYPE or NAWS by another WILL, so a server that acknowledges them never comes to rest
  (`TelnetNegotiation.AcksAreFinal`).
- telnet stays in line mode once the server has dropped ECHO, by WONT or by a DO: it refuses each later WILL
  (`TelnetReplies.ModeIs`, `TelnetReplies.EchoDraws`), until the user escapes to character mode.
- ping's table forgets: a reply that arrives after its table bit has been reused makes the answer to the newer request
  look like a duplicate (`PingStats.LateReplyHidesAnother`).  When the flag of a reply is right is stated for every
  honest run and every request (`PingStats.FlagIsRight`), from what the table holds in every run
  (`PingStats.MarkedExactly`), and so are what the counters are in every run (`PingStats.CountersAreExact`) and what
  loss is printed in every honest run (`PingStats.LossIsExact`).
- the average that ping prints is right exactly if the total of the trip times fits an unsigned long
  (`PingStats.AverageIsExact`), which that of forged time stamps may not (`PingStats.NegativeTotal`).
- rlogin's window frames queue up in a buffer of 65536 bytes without a check: the winch pipe overruns it exactly when
  it asks for a frame behind 5461 others of which some bytes have been sent, and the urgent byte exactly when it asks
  for one that does not fit (`RloginLoop.GoesOnExactly`).  A server and a user can bring that about
  (`RloginLoop.OverrunIsReached`, `RloginRelay.Overflow`).
- rlogin's urgent byte shares a buffer with what is relayed.  It loses something exactly if output is pending, other
  than a single byte that it leaves as it is, or if its frame replaces keys (`RloginLoop.LossIsExact`;
  `RloginLoop.UrgentOverKeys`, `UrgentOverChunk` and `UrgentOverOutput` are runs in which that happens).
- rlogind overlooks a frame behind keys that begin like one, and takes keys that spell the beginning of a frame for
  one (`Rlogind.MagicKeyHidesFrame`, `Rlogind.SpelledFrameIsRemoved`).  It takes out exactly the frames of a chunk of
  whole keys and frames if and only if no comparison it makes, while 12 bytes are left, starts at such keys
  (`Rlogind.ScanIsExact`).
- when rlogind cannot set a window size, it types that frame, and all frames behind it in the chunk, on the pty
  (`RlogindFailure.FailedSizeIsTyped`).

## Model

| member | source | states |
|---|---|---|
| `LogindProtocol.StepKeepsInv` | logind/logind.c:121-162 | every step of main, handler, kernel or child keeps table, descriptors and children consistent, and no exited child unnoticed |
| `LogindProtocol.RunKeepsInv` | logind/logind.c:121-202 | hence the invariant holds in every state of every interleaving |
| `LogindProtocol.ReapedIsFound` | logind/logind.c:154-159 | the handler's search finds a reaped pid, at the terminal the child was forked for |
| `LogindProtocol.ChildrenAreRecorded` | logind/logind.c:49-56 | no terminal has two sessions; an unreaped child is stored as its negative pid in its terminal's entry and in no other, but while its fork is in progress |
| `LogindProtocol.ExitedChildIsNoticed` | logind/logind.c:126-135 | while a zombie exists SIGCHLD is pending, and deliverable when not blocked, or the handler has waitpid() still to call |
| `LogindProtocol.PollWatchesEveryFreeTerminal` | logind/logind.c:197-199 | poll() never sleeps on an outdated table: exactly the terminals without a session are watched or dead, by an open descriptor of their own, and a zombie interrupts it |
| `LogindProtocol.ForkOnlyFreeTerminals` | logind/logind.c:199-202 | a login is forked only for an open terminal without a session |
| `LogindProtocol.DescriptorsAreTheTable` | logind/logind.c:131-134 | outside the two-step updates the daemon's open descriptors are exactly the non-negative entries |
| `LogindProtocol.ReapedTerminalIsReopened` | logind/logind.c:153-160 | after waitpid() has returned a pid nothing happens in its terminal's entry but that it is reopened and the result stored |
| `LogindProtocol.DeadTerminalStaysDead` | logind/logind.c:64-71 | a terminal that cannot be opened is ignored for good |
| `LogindLogins.ReportedGetLogins` | logind/logind.c:199-202 | in every run, when the daemon is back at poll() after that has reported terminals, it has forked for exactly those, once each and in ascending order, or, if SIGCHLD has come between, for the first of them |
| `LogindLogins.ReportedAre` | logind/logind.c:200-201 | the terminals reported, in ascending order |
| `LogindLogins.NoneForked` | logind/logind.c:199-202 | as long as poll() reports nothing, nothing is forked for |
| `LogindLogins.ForkStartsLogin` | logind/logind.c:121-133 | a fork that succeeds starts a living child on the terminal it is done for |
| `Logind.ReachesKeepsInv` | logind/logind.c:121-162 | the steps a method performs keep the invariant |
| `Logind.Daemon.constructor` | logind/logind.c:183-190 | the protocol's initial state, whatever open() returns |
| `Logind.Daemon.OpenTty` | logind/logind.c:74-88 | stores what open() returned, a free descriptor or -1, in that one entry |
| `Logind.Daemon.WaitPid` | logind/logind.c:153 | reaps some exited child, or answers 0 if there is none, while others exit |
| `Logind.Daemon.Reset` | logind/logind.c:154-159 | the inner loop performs exactly the reopening steps of the protocol |
| `Logind.Daemon.SigChld` | logind/logind.c:148-162 | the handler terminates and performs protocol steps only, up to the jump |
| `Logind.Daemon.ForkTty` | logind/logind.c:121-141 | forktty performs the protocol's fork, close, record and unblock steps, whatever exits in between |
| `Logind.Daemon.CloseAndRecord` | logind/logind.c:132-133 | the two stores of the parent are the protocol's steps |
| `Logind.Daemon.Interrupt` | logind/logind.c:148-162 | SIGCHLD outside the blocked parts performs the handler's steps and ends before poll() |
| `Logind.Daemon.Visit` | logind/logind.c:201-202 | one terminal of the for loop, in protocol steps: passed over if poll() has not reported it, otherwise forked for, or the loop is cut short by SIGCHLD (that none is passed over wrongly is `LogindLogins.ReportedGetLogins`, about all such steps) |
| `Logind.Daemon.ForEach` | logind/logind.c:200-202 | the for loop performs protocol steps only, back to poll() |
| `Logind.Daemon.Poll` | logind/logind.c:197-202 | one turn of the while loop is a turn for what poll() reports: a signal before it, or children's exits in it until a signal interrupts it, or it returns just those revents, if it can, and else fails; then the handler or the for loop back to poll(), in protocol steps |
| `Logind.Daemon.Wake` | logind/logind.c:199-202 | how poll() ends, and what follows |
| `Logind.Daemon.Serve` | logind/logind.c:197-204 | from an initial state all that the daemon's code does is a run of the protocol, made of one such turn for each answer of poll() up to one that it cannot give, so all results about runs hold of it; in each turn it forks logins for just the terminals that poll() has reported, in ascending order, or for the first of them if SIGCHLD comes between |
| `Logind.ReachesIsRun` | logind/logind.c:197-204 | steps performed one after the other from an initial state are such a run |
| `Logind.TurnsLogIn` | logind/logind.c:199-202 | the logins of each turn follow from what its poll() has reported |
| `Logind.ExecLogin` | logind/logind.c:101-106 | the child has its terminal as descriptors 0, 1 and 2 and no other terminal open, also when entries are 0, 1 or 2 themselves |
| `InternetChecksum.InCksum` | ping/ping.c:630-658 | for every length up to MAXPACKET + 8 the loop, with an int that never overflows, returns the complement of the one's-complement sum |
| `InternetChecksum.Fold` | ping/ping.c:654-656 | two carry folds, complement and truncation yield the complemented residue modulo 0xFFFF |
| `InternetChecksum.FoldIsResidue` | ping/ping.c:654-655 | the folded value is the residue of any 31-bit sum |
| `InternetChecksum.OnesSumIsResidue` | ping/ping.c:640-655 | one's-complement addition word by word is the plain sum's residue |
| `InternetChecksum.FilledPacketVerifies` | ping/ping.c:463-475 | a packet whose zeroed checksum field is filled with its checksum has checksum 0 |
| `InternetChecksum.ByteOrderIndependent` | ping/ping.c:640-656 | hosts of either byte order store the same two checksum bytes |
| `InternetChecksum.SwappedPacket` | ping/ping.c:640-656 | swapping the bytes of every word swaps the bytes of the checksum (section 2(B) of RFC 1071) |
| `InternetChecksum.OddPacketIsPadded` | ping/ping.c:647-650 | an odd packet has the checksum of the packet with a zero byte appended |
| `PingStats.CountIsBounded` | ping/ping.c:458-467 | if replies answer requests sent before, however late, repeated or wrapped, received plus used clear table bits never exceeds sent |
| `PingStats.LossIsAPercentage` | ping/ping.c:689-694 | so the printed loss is between 0 and 100 (what it is, is `PingStats.LossIsExact`) |
| `PingStats.ForgedReplyOvercounts` | ping/ping.c:690-691 | a reply to a request never sent breaks the bound |
| `PingStats.TableIsAnsweredSet` | ping/ping.c:98-106 | if replies arrive before their bit is reused, the table is the set of answered requests, and the counters are its size and the excess |
| `PingStats.DuplicateFlagIsExact` | ping/ping.c:560-567 | and a reply is flagged as a duplicate exactly if its request was answered before |
| `PingStats.MarkedExactly` | ping/ping.c:98-106 | in every run a bit of the table is 1 exactly if some reply has set it and no request sent since has cleared it |
| `PingStats.FlagMeans` | ping/ping.c:560-567 | in every run a reply is flagged exactly if the latest request on its bit has been followed by a reply on that bit |
| `PingStats.FlagIsRight` | ping/ping.c:560-567 | in every honest run: for one of the last 1024 requests the flag says whether it was answered exactly if it was, or no late reply to an older request has come on its bit since it was sent; for an older one exactly if having been answered and the newer request's bit having been replied to coincide |
| `PingStats.CountersAreExact` | ping/ping.c:560-567 | in every run nreceived is the number of requests answered plus the further replies not flagged less the first replies flagged, and nrepeats the rest of the replies |
| `PingStats.LossIsExact` | ping/ping.c:689-694 | in every honest run the printed loss is the share of the requests sent that no reply has answered, in per cent and rounded down, plus the first replies flagged and less the further ones not flagged; 0 if all are answered and none of the former |
| `PingStats.LossIsUnheard` | ping/ping.c:689-694 | if replies come before their bit is reused, it is just the share of the requests never answered |
| `PingStats.LateReplyHidesAnother` | ping/ping.c:93-98 | an honest run in which a first reply is counted as a duplicate |
| `PingStats.TsumIsTotal` | ping/ping.c:546-566 | tsum is the sum of all trip times, duplicates included, modulo the width of unsigned long; received plus repeats is the number of replies |
| `PingStats.ExtremesAreTrips` | ping/ping.c:553-558 | whatever the trip times, negative ones included, tmin and tmax bound them, and each is one of them or has its initial value |
| `PingStats.AverageIsExact` | ping/ping.c:697-700 | the printed average is the average trip time, rounded down, exactly if the total fits an unsigned long, and then lies between tmin and tmax |
| `PingStats.NegativeTotal` | ping/ping.c:546-566 | a reply whose trip time is negative makes tsum the largest unsigned long |
| `Ping.SetMarks` | ping/ping.c:102-104 | SET adds its bit to the marked ones and touches no other |
| `Ping.ClrMarks` | ping/ping.c:102-105 | CLR removes its bit and touches no other |
| `Ping.TvSub` | ping/ping.c:665-671 | exact on all inputs, and normalised if its inputs are |
| `Ping.TripTime` | ping/ping.c:549-551 | between arbitrary times the difference in tenths of a millisecond to within one of them; between normalised times rounded down |
| `Ping.Ping.constructor` | ping/ping.c:98-100 | the initial statistics |
| `Ping.Ping.Pinger` | ping/ping.c:458-475 | composes a packet with type, identifier, wrapped sequence number, time stamp and a checksum that verifies, and clears just its table bit |
| `Ping.Ping.ComposeHeader` | ping/ping.c:460-471 | the header fields and the time stamp, with a zero checksum |
| `Ping.Ping.PrPack` | ping/ping.c:498-567 | an acceptable reply changes the statistics as specified and is flagged exactly if its bit was set; any other packet changes nothing |
| `Ping.Ping.AcceptedExactly` | ping/ping.c:503-544 | of the bytes that arrive, exactly those are counted that are a whole IP header and an echo reply with ping's identifier and all the data of a request |
| `Ping.Ping.EchoIsAccepted` | ping/ping.c:542-544 | the echo of a request, as RFC 792 has hosts answer, is counted, under the request's sequence number, exactly if the request has ping's identifier |
| `Ping.Ping.Run` | ping/ping.c:458-567 | after any sequence of requests sent and packets received the program's counters are those of its run of events, so all results about runs are about them; if the accepted replies answer requests sent before, nreceived never exceeds ntransmitted and the loss is a percentage, and if they come in time it is the share of the requests that no reply has answered |
| `RloginWire.FrameBytes` | rlogind/rlogin.c:357-365 | twelve bytes beginning with the four marker bytes, from which the server's reading recovers the size |
| `RloginWire.FrameLayout` | rlogind/rlogin.c:358-365 | the four marker bytes, then row, column and pixel sizes, high bytes first |
| `Rlogin.SafeCpy` | rlogind/rlogin.c:68-79 | appends to what is there, cut off where the room ends |
| `Rlogin.Greet` | rlogind/rlogin.c:260-278 | room is left exactly if the whole message is shorter than BUFLEN, and then nothing was cut |
| `Rlogind.ReadToNull` | rlogind/rlogind.c:62-81 | a field with its NUL, the end of input, or no room, byte by byte |
| `Rlogind.NameIsRead` | rlogind/rlogind.c:62-81 | a NUL-free name is read back exactly if it fits with its NUL |
| `Rlogind.FieldIs` | rlogind/rlogind.c:62-81 | on arbitrary input, which of the three readtonull finds, and what is read and left |
| `Rlogind.AcceptsExactly` | rlogind/rlogind.c:146-161 | on arbitrary input, the server goes on with three names exactly if the input starts with NUL and these, each without NUL, ended by one and below 1024 bytes |
| `Rlogind.Handshake` | rlogind/rlogind.c:146-161 | the code goes on exactly then, with the names in its three buffers |
| `RloginEndToEnd.HandshakeRoundTrip` | rlogind/rlogind.c:144-161 | the server recovers both users and the terminal exactly if each fits 1023 bytes, and refuses otherwise |
| `Rlogind.ScanInPlace` | rlogind/rlogind.c:223-240 | the scan that moves the tail over each frame equals one left-to-right pass over the original chunk, takes frames at the same offsets, and terminates |
| `Rlogind.Turn` | rlogind/rlogind.c:223-240 | one turn of the loop skips what a failed match compared, or takes one frame out if the ioctl succeeds |
| `Rlogind.Compare` | rlogind/rlogind.c:224-227 | the nested comparisons skip exactly the bytes they compare |
| `Rlogind.RemoveFrame` | rlogind/rlogind.c:228-238 | takes the twelve bytes out, keeps all others in order and reads the size |
| `Rlogind.Move` | rlogind/rlogind.c:236 | the overlapping copy as a move |
| `Rlogind.ScanDecodes` | rlogind/rlogind.c:223-240 | a clean chunk of whole keys and frames yields its keys and its sizes in order, taken at the offsets of its frames |
| `Rlogind.ScanIsExact` | rlogind/rlogind.c:223-240 | the frames are taken exactly where the client put them if and only if the chunk is clean: no comparison, while 12 bytes are left, starts at keys that begin like a frame and stand before one, or that spell the beginning of one |
| `Rlogind.PlainIsClean` | rlogind/rlogind.c:223-227 | a chunk without a key 0xFF is clean |
| `Rlogind.ServeDecodes` | rlogind/rlogind.c:215-245 | a series of reads takes exactly the client's frames out if and only if each is clean, and then yields all keys and sizes in order |
| `Rlogind.MagicKeyHidesFrame` | rlogind/rlogind.c:224-227 | a key 0xFF directly before a frame hides it; the chunk is not clean |
| `Rlogind.SpelledFrameIsRemoved` | rlogind/rlogind.c:223-239 | a chunk of twelve keys that spell a frame is not clean, and is taken out whole as a frame |
| `RlogindFailure.FailedSizeIsTyped` | rlogind/rlogind.c:233-235 | on arbitrary bytes, for any number of ioctls that succeed: the frames in front of the first whose ioctl fails are taken out and set, and that and all behind it is left as it is |
| `RloginLoop.QueueFrameKeeps` | rlogind/rlogin.c:367-376 | a frame keeps what is sent and pending a stream of whole units, and loses typed bytes exactly if it replaces a chunk of keys |
| `RloginLoop.FramesOnly` | rlogind/rlogin.c:415-419 | while the winch pipe is watched its frame never replaces keys |
| `RloginLoop.LossIsExact` | rlogind/rlogin.c:401-413 | the urgent byte loses something exactly if it overwrites pending output, other than a single byte it leaves as it is, or its frame replaces keys; whole units are sent even then |
| `RloginLoop.NextKeeps` | rlogind/rlogin.c:386-489 | a round keeps all invariants, unless the urgent byte loses something |
| `RloginLoop.RunsKeep` | rlogind/rlogin.c:385-490 | over all runs and short writes whole chunks and whole frames are sent in order, all of them when nothing is pending; stdin is read only then, and the socket exactly when stdout has nothing pending; unless the urgent byte has lost something the chunks hold all typed bytes in order, and what is shown is a prefix of what was received, all of it when nothing is pending |
| `RloginLoop.FullExactly` | rlogind/rlogin.c:371-372 | while only frames are pending there is no room for another exactly behind 5461 of them of which some bytes have been sent |
| `RloginLoop.GoesOnExactly` | rlogind/rlogin.c:386-489 | when a round overruns the buffer, when it is broken off by a failed recv() over pending output, when the loop goes on, and when something is lost, each as an equivalence on the state and what the calls return |
| `RloginLoop.OverrunIsReached` | rlogind/rlogin.c:353-378 | one urgent byte, one short write and 5461 resizes lead to the overrun |
| `RloginLoop.UrgentOverKeys` | rlogind/rlogin.c:401-413 | an urgent byte taken over unsent keys replaces them by its frame |
| `RloginLoop.UrgentOverChunk` | rlogind/rlogin.c:367-372 | one taken while a chunk that nearly fills the buffer is partly sent overruns it |
| `RloginLoop.UrgentOverOutput` | rlogind/rlogin.c:402-403 | one taken over pending output leaves a single byte of it |
| `RloginAnswers.StdinIsWatched` | rlogind/rlogin.c:454-489 | over all runs that go on: what has been typed is what the reads of stdin have yielded; stdin is watched exactly while nothing is pending for the socket and its end has not been read since all was last sent, and the winch pipe exactly if nothing has been read since then; window sizes are on exactly once the server has asked |
| `RloginAnswers.RoundUp` | rlogind/rlogin.c:454-489 | the same round by round, and that a write of n takes n bytes off, or all that there are |
| `RloginAnswers.RoundCommits` | rlogind/rlogin.c:367-419 | which chunk or frames a round commits to, and what they replace, by what was asked and read |
| `RloginAnswers.RoundDown` | rlogind/rlogin.c:421-452 | a round receives what the socket yields and shows what stdout takes |
| `RloginAnswers.SocketIsWatched` | rlogind/rlogin.c:421-452 | over all runs that go on: what has been received is what the reads of the socket have yielded, and it is watched exactly while stdout has nothing pending |
| `RloginRelay.Relay.constructor` | rlogind/rlogin.c:323-333 | the loop's initial state |
| `RloginRelay.Relay.Winch` | rlogind/rlogin.c:353-378 | a frame replaces pending bytes only if none of them has been sent and otherwise follows them, in the state as in the buffer; what a frame without room would do is not performed |
| `RloginRelay.Relay.Append` | rlogind/rlogin.c:367-372 | twelve bytes go behind the pending ones, which stay |
| `RloginRelay.Relay.Queue` | rlogind/rlogin.c:367-376 | with room, the frame is put into the buffer and committed to |
| `RloginRelay.Relay.Answer` | rlogind/rlogin.c:408-411 | 0x80 turns window sizes on and commits to one frame; any other byte changes nothing upstream |
| `RloginRelay.Relay.Overwrite` | rlogind/rlogin.c:402-407 | what recv() does to the buffer and the length of pending output, and when the loop ends or cannot go on |
| `RloginRelay.Relay.Urgent` | rlogind/rlogin.c:401-413 | the urgent byte, whatever is pending |
| `RloginRelay.Relay.Signals` | rlogind/rlogin.c:399-419 | the window-size part of a round: its state, its status, and when stdin is not read in the round |
| `RloginRelay.Relay.ReadSock` | rlogind/rlogin.c:423-433 | a read from the socket is held in full and blocks further ones; no data ends the loop unless it may be retried |
| `RloginRelay.Relay.WriteStdout` | rlogind/rlogin.c:437-452 | a short write keeps order and loses nothing; none taken ends the loop unless it may be retried |
| `RloginRelay.Relay.ReadStdin` | rlogind/rlogin.c:456-469 | a chunk from stdin is committed to as a unit and blocks further ones; end of input stops both inputs |
| `RloginRelay.Relay.WriteSock` | rlogind/rlogin.c:473-489 | the pending bytes sent are taken off in order; when none is left, both inputs are watched again (`RloginAnswers.StdinIsWatched`) |
| `RloginRelay.Relay.Downward` | rlogind/rlogin.c:421-452 | socket to stdout, with its exact outcome |
| `RloginRelay.Relay.Upward` | rlogind/rlogin.c:454-489 | stdin to socket, with its exact outcome |
| `RloginRelay.Relay.Step` | rlogind/rlogin.c:386-489 | one round is the transition of RloginLoop, state and status, on the descriptors that were asked about |
| `RloginRelay.Relay.Run` | rlogind/rlogin.c:385-490 | any rounds lead exactly where the transitions lead, so all results about them hold of the class; as long as they go on, all that the reads have yielded has been taken, and stdin and the socket are watched exactly as they must be |
| `RloginRelay.Overflow` | rlogind/rlogin.c:353-378 | drives a relay to the overrun |
| `RloginEndToEnd.KeysAndSizesArrive` | rlogind/rlogind.c:215-245 | if reads cut the client's stream between tokens, the server takes exactly its frames out if and only if each read is clean, and then the pty gets the typed bytes and the sizes of the frames, in order |
| `RloginEndToEnd.RunArrives` | rlogind/rlogin.c:385-490 | from stdin to pty over all runs of the client's loop that have lost nothing and have nothing pending |
| `RloginEndToEnd.PlainKeysArrive` | rlogind/rlogind.c:215-245 | in particular whenever no 0xFF is typed, however the stream is cut between tokens |
| `TelnetCodec.DecodedFits` | telnetd/telnetd.c:218-275 | on arbitrary bytes decoded plus unprocessed bytes fit the chunk |
| `TelnetCodec.DecodePrinted` | telnetd/telnetd.c:210-276 | decoding a printed sequence of tokens yields their data without swallowed line ends, their window sizes but a last one, and the remainder |
| `TelnetCodec.KeptIsShorter` | telnetd/telnetd.c:224-229 | the data is kept in full exactly if no LF or NUL data byte, other than the last token, follows a CR pair |
| `TelnetCodec.KeptSizesIsPrefix` | telnetd/telnetd.c:248-258 | the sizes set are all but a window size that ends the chunk |
| `TelnetCodec.ServerRecoversChunk` | telnetd/telnetd.c:210-276 | both equivalences for the decoder |
| `TelnetCodec.LineFeedIsLost` | telnetd/telnetd.c:219-241 | a chunk that loses an LF typed behind CR LF |
| `TelnetCodec.LastSizeIsLost` | telnetd/telnetd.c:248-258 | a chunk that loses its window size |
| `TelnetCodec.KeysArePrinted` | telnetd/telnet.c:280-282 | the client's encoding is a printing of tokens |
| `TelnetCodec.KeysRoundTrip` | telnetd/telnetd.c:219-241 | keys encoded by the client and decoded as one chunk come back, but for an LF or NUL directly behind CR that is not the last key |
| `TelnetStray.ByteBehindCrIsLost` | telnetd/telnetd.c:222-229 | telnetd skips whatever byte follows a CR |
| `TelnetStray.ByteBehindCommandIsLost` | telnetd/telnetd.c:271 | telnetd loses whatever byte follows a command of two bytes, and decodes what is behind it |
| `TelnetStray.CutShort` | telnetd/telnetd.c:233-270 | nothing is decoded of a command that the end of the chunk cuts off, and how much of it is left over |
| `TelnetStray.ByteBehindCrIsShown` | telnetd/telnet.c:254-258 | the client shows a CR before another byte and that byte |
| `TelnetStray.CommandIsSkipped` | telnetd/telnet.c:238-253 | the client shows nothing of a command of two bytes and loses nothing behind it |
| `Telnetd.EatSub` | telnetd/telnetd.c:260-264 | finds the next IAC, or the end |
| `Telnetd.Turn` | telnetd/telnetd.c:219-271 | one turn of the loop is one turn of the decoder, whatever lies behind the chunk |
| `Telnetd.DecodeLoop` | telnetd/telnetd.c:215-272 | the loop decodes the chunk and terminates |
| `Telnetd.HandleIacs` | telnetd/telnetd.c:210-276 | in place: the decoded bytes stand where the chunk stood, and nothing in front of it or behind the remainder changes |
| `Telnetd.WriteBack` | telnetd/telnetd.c:273-275 | the two copies at the end stay within the chunk |
| `Telnetd.NextWrite` | telnetd/telnetd.c:285-296 | each write is the doubling of one IAC, or of all bytes in front of the next one |
| `Telnetd.DupIacs` | telnetd/telnetd.c:278-303 | how many bytes are consumed, given how many writes succeed, and that the socket gets exactly their doubling |
| `Telnetd.CallsConsume` | telnetd/telnetd.c:284-301 | one write that succeeds gets something across, and as many as there are bytes get everything across |
| `Telnetd.ConsumedIsMost` | telnetd/telnetd.c:284-301 | the bytes that some successful writes get across are the most that can be written with so many |
| `TelnetdVisit.BufferInUseLosesInput` | telnetd/telnetd.c:215-216 | of a plain chunk read while n bytes of buff2 are in use, written or not, exactly the last n are lost; it arrives whole exactly if n is 0 |
| `TelnetdVisit.NoneInUse` | telnetd/telnetd.c:412-415 | after a visit that goes on, none of buff1 is in use exactly if nothing is unsent, and none of buff2 exactly if nothing is unwritten |
| `TelnetdVisit.ArrivesExactly` | telnetd/telnetd.c:393-397 | over any visits of plain chunks to a session all that is read from the socket is decoded if and only if none of buff2 is in use whenever something is read |
| `TelnetdVisit.PartlyWritten` | telnetd/telnetd.c:393-400 | two visits that lose as many bytes as the first read, though fewer are pending |
| `TelnetdVisit.NothingPending` | telnetd/telnetd.c:404-415 | three visits, of which the second ends in a failed write, that lose bytes with nothing pending |
| `TelnetdVisit.VisitKeeps` | telnetd/telnetd.c:385-416 | a visit takes nothing back and keeps what is pending within the buffers; the loop goes on after it exactly if every read select() was asked about yields something and no write to the pty fails |
| `TelnetdVisit.WritesKeep` | telnetd/telnetd.c:404-416 | where the pty or the socket takes something, something pending is written |
| `TelnetdVisit.VisitsKeep` | telnetd/telnetd.c:384-417 | after any visits what the socket has got for is a prefix of the pty's bytes, what the pty has got one of the decoded bytes, and the buffers have room for the rest |
| `TelnetdAnswers.PtyIsRead` | telnetd/telnetd.c:385-388 | over all visits, what has been read for the socket is what the reads of the pty have yielded, as far as there was room |
| `TelnetdAnswers.VisitSends` | telnetd/telnetd.c:386-411 | a visit reads what the pty yields and sends as much as its writes to the socket get across |
| `TelnetdAnswers.VisitWrites` | telnetd/telnetd.c:393-406 | a visit decodes what the socket yields and writes as much as the pty takes, or all that there is |
| `TelnetdAnswers.VisitGoesOn` | telnetd/telnetd.c:385-411 | the loop goes on exactly if every read that select() was asked about yields something and no write to the pty fails |
| `TelnetdSession.Session.constructor` | telnetd/telnetd.c:371-374 | a session with empty buffers |
| `TelnetdSession.Session.ReadPty` | telnetd/telnetd.c:386-388 | bytes from the pty are appended to buff1 and nothing else changes |
| `TelnetdSession.Session.WriteSocket` | telnetd/telnetd.c:389-391 | exactly what dup_iacs consumes leaves buff1, and reaches the socket doubled |
| `TelnetdSession.Session.ReadSocket` | telnetd/telnetd.c:394-397 | what handle_iacs decodes is appended to buff2; buff1 is untouched |
| `TelnetdSession.Session.WritePty` | telnetd/telnetd.c:398-400 | exactly what write() takes leaves buff2 |
| `TelnetdSession.Session.Rewind` | telnetd/telnetd.c:412-415 | resetting empty buffers loses nothing |
| `TelnetdSession.Session.Serve` | telnetd/telnetd.c:385-416 | one visit, in place, is the visit as a function of values: all that is read, sent, decoded and written, and whether the loop goes on |
| `TelnetdSession.Session.AskedAbout` | telnetd/telnetd.c:343-357 | an answer counts in a visit exactly if the session's descriptor was put into select()'s sets |
| `TelnetdSession.Session.Run` | telnetd/telnetd.c:384-417 | any visits to a new session lead where that function leads; what was read is what the pty has yielded in them, the socket has the doubling of what was sent of it, and each direction lacks only what its buffer holds |
| `TelnetdTurns.OutlivesOnlyAllItsChildren` | telnetd/telnetd.c:427-436 | the daemon survives SIGCHLD exactly if all children have exited and were sessions, with an empty list |
| `TelnetdTurns.OneExitEndsAll` | telnetd/telnetd.c:427-436 | two connections and the exit of one child end the daemon with the other session left |
| `TelnetdTurns.PidsFollow` | telnetd/telnetd.c:336-446 | which sessions are in the list after a turn, and whether the loop goes on, follows from connections and exits alone, whatever the sessions carry |
| `TelnetdTurns.VisitsGoRound` | telnetd/telnetd.c:383-417 | the k-th session of the list gets the k-th visit of a turn if those before it go on; if that does not go on, the sessions behind keep their data; a new session stands in front without data |
| `TelnetdTurns.GoesOnExactly` | telnetd/telnetd.c:361-436 | over any turns the loop goes on exactly if none is a timeout and after each SIGCHLD no child is living and every one that exited was a session's; a connection refused is survived |
| `TelnetdDaemon.Daemon.constructor` | telnetd/telnetd.c:317-321 | no sessions |
| `TelnetdDaemon.Daemon.Accept` | telnetd/telnetd.c:365-380 | a new session is put in front; pids stay distinct and descriptors at most gmax_fd |
| `TelnetdDaemon.Daemon.Link` | telnetd/telnetd.c:377-380 | the list stays null-terminated and holds each session once |
| `TelnetdDaemon.Daemon.PrepareSelect` | telnetd/telnetd.c:343-357 | rd and wr hold exactly the descriptors whose buffers have room or data, none above gmax_fd |
| `TelnetdDaemon.Daemon.Unlink` | telnetd/telnetd.c:432-440 | finds a session exactly if there is one for the pid, and leaves the others in their order |
| `TelnetdDaemon.Daemon.Cut` | telnetd/telnetd.c:439-440 | linking around a session keeps the list |
| `TelnetdDaemon.Daemon.Reap` | telnetd/telnetd.c:420-445 | the list becomes the survivors of the children reaped, up to the first pid of no session; the daemon goes on exactly if all were sessions and no child is living |
| `TelnetdDaemon.Daemon.Connect` | telnetd/telnetd.c:365-380 | a new session leaves the others intact and shares no memory with them |
| `TelnetdDaemon.Daemon.ServeOne` | telnetd/telnetd.c:384-417 | serving one session is a visit to it, and leaves the data and buffers of all others as they are |
| `TelnetdDaemon.Daemon.ServeAll` | telnetd/telnetd.c:383-417 | each session in turn gets its visit, up to the first after which the loop does not go on; those behind keep their data, and all keep their invariants |
| `TelnetdDaemon.RoundIsServed` | telnetd/telnetd.c:383-417 | the visits told session by session are the round told from the front |
| `TelnetdDaemon.Daemon.Collect` | telnetd/telnetd.c:420-445 | the survivors of a SIGCHLD stay intact and separate |
| `TelnetdDaemon.Daemon.Arrive` | telnetd/telnetd.c:364-381 | a connection puts one new session, without data, in front of the others, which keep theirs |
| `TelnetdDaemon.Daemon.ServeVisits` | telnetd/telnetd.c:383-417 | the loop over the sessions, as a function of their data |
| `TelnetdDaemon.Daemon.Depart` | telnetd/telnetd.c:420-445 | SIGCHLD takes exactly the sessions reaped out of the list, and says whether the daemon goes on |
| `TelnetdDaemon.Daemon.TakeTurn` | telnetd/telnetd.c:336-446 | one turn of the main loop, select to reaping, is the turn as a function of values |
| `TelnetdDaemon.Daemon.Run` | telnetd/telnetd.c:336-446 | over any turns, until a timeout or SIGCHLD ends the loop: the list holds exactly the sessions created and not reaped since, newest first, with buffers intact and separate; which they are, all data read, sent, decoded and written, and whether the loop goes on are a function of the turns |
| `TelnetdDaemon.SurvivorsAre` | telnetd/telnetd.c:432-440 | survivors are the sessions whose child was not reaped |
| `TelnetdDaemon.SurvivorsTwice` | telnetd/telnetd.c:420-445 | reaping in rounds is reaping at once |
| `TelnetdDaemon.ComeAndGo` | telnetd/telnetd.c:365-445 | the sessions left after some are created and some leave are all those created without all those that have left |
| `TelnetNegotiation.EchoMeansCharacterMode` | telnetd/telnet.c:53-68 | over any run, user escapes included, the ECHO flag is set exactly in character mode |
| `TelnetNegotiation.RequestIsTold` | telnetd/telnet.c:180-224 | one request keeps flags, mode and replies in step, and the mode never moves back (that it draws its reply is `TelnetReplies.EchoDraws`) |
| `TelnetNegotiation.OneDoEcho` | telnetd/telnet.c:185-196 | the mode moves from TRY to ON to OFF only, and DO ECHO has been sent once since it left TRY (when it does is `TelnetReplies.ModeIs`) |
| `TelnetNegotiation.SgaRepliesAlternate` | telnetd/telnet.c:198-205 | SGA replies are DO, DONT, DO, ..., and the flag is set after each DO |
| `TelnetNegotiation.AcksAreFinal` | telnetd/telnet.c:180-224 | agreeing acknowledgements of the replies to a request draw no further reply exactly for options other than TTYPE and NAWS |
| `TelnetReplies.ModeIs` | telnetd/telnet.c:53-68 | over all runs of the server's requests the mode is TRY exactly if neither WILL nor DO of ECHO is among them, and OFF exactly if a WONT or DO of ECHO has followed one; the ECHO flag is set otherwise |
| `TelnetReplies.EchoDraws` | telnetd/telnet.c:185-196 | which replies a request about ECHO draws, told by the requests before it |
| `TelnetReplies.SgaIs` | telnetd/telnet.c:198-205 | over all runs the SGA flag is as the latest WILL or WONT has told, inverted by each DO or DONT since |
| `TelnetReplies.SgaDraws` | telnetd/telnet.c:198-205 | a request about SGA draws a reply exactly if it changes the flag |
| `TelnetReplies.RefusalsAre` | telnetd/telnet.c:219-222 | over all runs, of an unknown option one DONT has been sent for each WILL and one WONT for each DO |
| `TelnetReplies.KnownDraws` | telnetd/telnet.c:207-217 | WILL for each request about TTYPE and NAWS, with the window size as a token, and the terminal type as another |
| `TelnetReplies.RepliesDecode` | telnetd/telnet.c:159-224 | whatever is asked and escaped to, telnetd takes none of the replies for data, and decodes the client's window size from them once for each request about NAWS |
| `TelnetReplies.EscapeIsAgreed` | telnetd/telnet.c:116-136 | an escape asks for or drops both options in one reply, and the server's agreement draws no other |
| `TelnetConsole.ScanFindsRequests` | telnetd/telnet.c:240-250 | every request found is one a server can make |
| `TelnetConsole.ChunkShown` | telnetd/telnet.c:230-264 | of a chunk of whole tokens a server may send the console shows the data, but no doubled IAC, and the inside of subnegotiations besides; exactly its requests are found, in order |
| `TelnetConsole.ShownIsMeant` | telnetd/telnet.c:238-260 | what is shown is what was meant exactly if there is no doubled IAC and no subnegotiation that leaks |
| `TelnetConsole.DoubledIacIsDropped` | telnetd/telnet.c:238-253 | a doubled IAC puts nothing on the console |
| `TelnetConsole.InsideIsShown` | telnetd/telnet.c:247-260 | a subnegotiation that puts its payload on the console |
| `TelnetConsole.PtyShown` | telnetd/telnet.c:230-264 | bytes escaped by telnetd are never taken for a request, and are shown unchanged exactly if they hold no IAC and no CR NUL |
| `TelnetClient.Client.constructor` | telnetd/telnet.c:293-300 | the initial state, TERM cut to 255 bytes |
| `TelnetClient.Client.FlushIac` | telnetd/telnet.c:71-77 | one write of all that is held, of which the server gets what the kernel takes |
| `TelnetClient.Client.PutIac` | telnetd/telnet.c:80-88 | a reply goes into the buffer whole, after a flush exactly if it would fill it |
| `TelnetClient.Client.StrIac` | telnetd/telnet.c:91-98 | so does a string with its NUL, which may fill the buffer to its last byte |
| `TelnetClient.Client.NoReplyIsLost` | telnetd/telnet.c:71-98 | what was passed to write() followed by the buffer are all replies in order, no block splitting one; what the server got and the buffer are so exactly if no write was short or failed |
| `TelnetClient.ForgottenReply` | telnetd/telnet.c:71-77 | a client whose reply the kernel does not take has nothing left of it |
| `TelnetClient.Client.SetMode` | telnetd/telnet.c:53-68 | the mode that follows from the ECHO flag |
| `TelnetClient.Client.HandleDdww` | telnetd/telnet.c:180-224 | the negotiation machine's answer to one request |
| `TelnetClient.Client.HandleEcho` | telnetd/telnet.c:185-196 | its ECHO case, whose replies are those of `TelnetReplies.EchoDraws` |
| `TelnetClient.Client.HandleSga` | telnetd/telnet.c:198-205 | its SGA case |
| `TelnetClient.Client.HandleNegotiations` | telnetd/telnet.c:159-174 | TTYPE SEND is answered by the terminal type in three replies; other subnegotiations are skipped |
| `TelnetClient.Client.Command` | telnetd/telnet.c:238-253 | one command from the buffer is one turn of the scan, answered |
| `TelnetClient.Client.ReadByte` | telnetd/telnet.c:236-259 | one turn of the loop |
| `TelnetClient.Client.ReadServer` | telnetd/telnet.c:230-264 | the loop passes on what the scan shows and answers what it finds, in order |
| `TelnetClient.Client.Turn` | telnetd/telnet.c:320-334 | flush, read and parse of one chunk, with stale bytes behind it |
| `TelnetClient.Client.Serve` | telnetd/telnet.c:319-334 | over any server input: the console shows what the scans of the chunks show, the dialogue is a run of the requests they find, its mode told by those and DO ECHO sent exactly if ECHO was offered, and no reply is lost exactly if no write is cut short |
| `TelnetClient.Client.WriteServer` | telnetd/telnet.c:270-285 | keys are sent encoded, or not at all exactly if the escape key is among them |
| `TelnetClient.Client.HandleEsc` | telnetd/telnet.c:116-136 | the escapes l and c are the machine's requests, under their conditions, and flush the replies |
| `TelnetEndToEnd.PtyReachesConsole` | telnetd/telnetd.c:384-417 | over any visits to a session and any reads of the client that do not cut a doubled byte: what was sent is a prefix of what the pty has yielded, nothing is answered, and the console shows all that was sent exactly if no read holds an IAC or a CR NUL of it |
| `TelnetEndToEnd.Watch` | telnetd/telnet.c:319-334 | the client's code, reading what the session's socket has got |

## Left out

Assumptions and simplifications:

- Bytes are 0..255 throughout.  Comparisons of a plain `char` with IAC or 0xFF (telnetd/telnetd.c:219, telnetd/telnet.c:281) are taken as meant, as they are where `char` is unsigned.
- telnetd's writeall is modelled as writing everything or nothing, because it forgets a partial count on error (telnetd/toys.c:63); its endless loop on a zero count is left out with it.
- Telnet commands and subnegotiations split across reads: neither telnetd nor telnet reassembles them, so what arrives is stated for chunks of whole tokens; for arbitrary bytes only what a chunk decodes to is stated.
- rlogin frames split across the server's reads are not reassembled by the code, so the end-to-end results assume reads that cut between tokens.
- RloginRelay.Relay.Run: stops with Overrun where the code would write a frame past the end of its buffer, and with Broken where a failed recv() has left a length of 0 or less for pending output, which the code would pass to write().
- Rlogind.ScanIsExact: is about scans in which the TIOCSWINSZ calls succeed; one that fails ends the scan (Rlogind.ScanInPlace).
- TelnetdVisit.BufferInUseLosesInput: and TelnetdVisit.ArrivesExactly are about chunks without IAC and CR, of which every byte is data; of any other chunk the same bytes are never looked at (TelnetdSession.Session.ReadSocket), whatever they mean.
- ping: pinger and pr_pack are atomic steps, and the counters and times are unbounded integers, except that tsum wraps.
- TelnetdDaemon.Daemon.Reap: one round of the SIGCHLD loop from its first waitpid() to its end; children that exit while it runs count as exited before, as waitpid() cannot tell the difference.
- TelnetdDaemon.Daemon.Accept: forkpty() is taken to succeed; the code exits otherwise.
- TelnetConsole: bytes behind the client's 128-byte buffer, which the code may look at, are arbitrary; in the program they are TT.pbuff itself.
- TelnetClient.Client.Serve: the main loop as far as the server goes; keys and console escapes are WriteServer and HandleEsc.
- TelnetConsole.ChunkShown: a window size is not among the tokens of a server, which has none to send.
- Doubled 255 bytes inside a window size (RFC 1073) are not undone by the code, so sizes are stated as the four bytes sent.

Not modelled:

- the loop over further arguments at rlogind/rlogin.c:269-272, which option parsing leaves nothing to do
- telnetd's inetd mode, in which the process exits with its session
- the error return of select() in telnetd, of which only values below -1 are recognised (telnetd/telnetd.c:362)
- whether telnetd makes progress: early breaks and returns rule it out
- socket set-up, privileges, pty, utmp, terminal modes, signals other than SIGCHLD and the urgent byte, and messages to the user
- logind's other system calls and login itself; the accept loops and option parsing of all programs
- ping's printing of ICMP and IP headers and its options

/** The fork / SIGCHLD / poll protocol of logind, as interleaved steps of the daemon, its children and
    the kernel.  The daemon is a single thread: its SIGCHLD handler never returns to the code it
    interrupted but jumps back to the poll() call, so one program counter describes both. */
module LogindProtocol {
  import opened Bytes

  /** An unreaped child: the terminal it was forked for, and whether it has exited. */
  datatype Child = Child(tty: nat, exited: bool)

  /** Where the daemon is.  `revents[j]` says that the last poll() reported terminal j. */
  datatype Pc =
    | PollCall                                              // before poll(), where siglongjmp lands
    | Polling(snapshot: seq<int>)                           // blocked in poll() on the fds it copied
    | Scanning(i: nat, revents: seq<bool>)                  // the for loop after poll()
    | Forking(i: nat, revents: seq<bool>)                   // forktty: SIGCHLD blocked, before fork()
    | Closing(i: nat, revents: seq<bool>, pid: int)         // fork() returned pid > 0, before close()
    | Recording(i: nat, revents: seq<bool>, pid: int)       // before pfd[i].fd = -pid
    | Unblocking(i: nat, revents: seq<bool>)                // before SIG_UNBLOCK
    | Reaping                                               // handler: at waitpid()
    | Reopening(pid: int, home: nat)                        // waitpid() returned pid, forked for terminal home
    | Storing(i: nat, fd: int)                              // opentty: open() returned fd, before pfd[i].fd = fd
    | Leaving                                               // waitpid() returned <= 0, before siglongjmp
    | Exited                                                // poll() returned <= 0

  /** `open` is the daemon's descriptor table: which terminal each open descriptor is on. */
  datatype State = State(pc: Pc, pfd: seq<int>, children: map<int, Child>, pending: bool, open: map<int, nat>)

  datatype Event =
    | ChildExits(pid: int)
    | Deliver                       // the kernel starts the handler
    | EnterPoll
    | PollReturns(revents: seq<bool>)
    | PollFails
    | Scan
    | Fork(pid: int)                // what fork() returns to the parent
    | Close
    | Record
    | Unblock
    | Reap(pid: int)                // waitpid() returns pid
    | NothingToReap                 // waitpid() returns 0 or -1
    | Reopen(fd: int)               // the search loop and open()
    | Store
    | Jump                          // siglongjmp

  /** The entry the handler's search loop stops at. */
  function Find(pfd: seq<int>, pid: int): (r: Option<nat>)
    ensures r.None? ==> -pid !in pfd
    ensures r.Some? ==> r.value < |pfd| && pfd[r.value] == -pid && -pid !in pfd[..r.value]
  {
    if pfd == [] then None
    else if pfd[0] == -pid then Some(0)
    else match Find(pfd[1..], pid)
      case None => None
      case Some(i) => Some(i + 1)
  }

  predicate Masked(pc: Pc) {
    !pc.PollCall? && !pc.Polling? && !pc.Scanning? && !pc.Exited?
  }

  predicate Zombie(s: State, pid: int) {
    pid in s.children && s.children[pid].exited
  }

  /** open() returns -1 or a descriptor that was free. */
  predicate FreshFd(open: map<int, nat>, fd: int) {
    fd == -1 || (fd >= 0 && fd !in open)
  }

  /** What the kernel and the program text allow in state s. */
  ghost predicate Enabled(s: State, e: Event) {
    match e
    case ChildExits(pid) => pid in s.children && !s.children[pid].exited
    case Deliver => s.pending && !Masked(s.pc) && !s.pc.Exited?
    case EnterPoll => s.pc.PollCall?
    case PollReturns(revents) =>
      s.pc.Polling? && |revents| == |s.pfd| == |s.pc.snapshot| && true in revents &&
      forall j :: 0 <= j < |revents| && revents[j] ==> s.pc.snapshot[j] >= 0
    case PollFails => s.pc.Polling?
    case Scan => s.pc.Scanning?
    case Fork(pid) => s.pc.Forking? && (pid == -1 || (pid > 1 && pid !in s.children))
    case Close => s.pc.Closing? && s.pc.i < |s.pfd|
    case Record => s.pc.Recording? && s.pc.i < |s.pfd|
    case Unblock => s.pc.Unblocking?
    case Reap(pid) => s.pc.Reaping? && Zombie(s, pid)
    case NothingToReap => s.pc.Reaping? && forall pid :: pid in s.children ==> !s.children[pid].exited
    case Reopen(fd) => s.pc.Reopening? && FreshFd(s.open, fd)
    case Store => s.pc.Storing? && s.pc.i < |s.pfd|
    case Jump => s.pc.Leaving?
  }

  function OpenOn(open: map<int, nat>, fd: int, tty: nat): map<int, nat> {
    if fd >= 0 then open[fd := tty] else open
  }

  ghost function Next(s: State, e: Event): State
    requires Enabled(s, e)
  {
    match e
    case ChildExits(pid) =>
      s.(children := s.children[pid := s.children[pid].(exited := true)], pending := true)
    case Deliver => s.(pc := Reaping, pending := false)
    case EnterPoll => s.(pc := Polling(s.pfd))
    case PollReturns(revents) => s.(pc := Scanning(0, revents))
    case PollFails => s.(pc := Exited)
    case Scan =>
      var i, revents := s.pc.i, s.pc.revents;
      if i >= |s.pfd| || i >= |revents| then s.(pc := PollCall)
      else if revents[i] then s.(pc := Forking(i, revents))
      else s.(pc := Scanning(i + 1, revents))
    case Fork(pid) =>
      if pid > 0 then
        s.(pc := Closing(s.pc.i, s.pc.revents, pid), children := s.children[pid := Child(s.pc.i, false)])
      else
        s.(pc := Unblocking(s.pc.i, s.pc.revents))
    case Close =>
      s.(pc := Recording(s.pc.i, s.pc.revents, s.pc.pid), open := s.open - {s.pfd[s.pc.i]})
    case Record =>
      s.(pc := Unblocking(s.pc.i, s.pc.revents), pfd := s.pfd[s.pc.i := -s.pc.pid])
    case Unblock => s.(pc := Scanning(s.pc.i + 1, s.pc.revents))
    case Reap(pid) => s.(pc := Reopening(pid, s.children[pid].tty), children := s.children - {pid})
    case NothingToReap => s.(pc := Leaving)
    case Reopen(fd) =>
      (match Find(s.pfd, s.pc.pid)
       case None => s.(pc := Reaping)
       case Some(i) => s.(pc := Storing(i, fd), open := OpenOn(s.open, fd, i)))
    case Store => s.(pc := Reaping, pfd := s.pfd[s.pc.i := s.pc.fd])
    case Jump => s.(pc := PollCall)
  }

  /** The daemon has opened its n terminals and installed the handler; it has no children. */
  ghost predicate Init(n: nat, s: State) {
    s.pc.PollCall? && !s.pending && s.children == map[] && Consistent(n, s.pfd, s.open, s.children)
  }

  /** A run: states and the events between them. */
  ghost predicate Run(n: nat, states: seq<State>, events: seq<Event>) {
    |states| == |events| + 1 && Init(n, states[0]) &&
    forall k {:trigger events[k]} :: 0 <= k < |events| ==>
      Enabled(states[k], events[k]) && states[k + 1] == Next(states[k], events[k])
  }

  /** The table, the descriptors and the children agree: non-negative entries are exactly the open
      descriptors, each on its own terminal, and entries below -1 are exactly the unreaped children. */
  ghost predicate Consistent(n: nat, pfd: seq<int>, open: map<int, nat>, children: map<int, Child>) {
    && |pfd| == n
    && (forall j :: 0 <= j < n && pfd[j] >= 0 ==> pfd[j] in open && open[pfd[j]] == j)
    && (forall fd :: fd in open ==> fd >= 0 && open[fd] < n && pfd[open[fd]] == fd)
    && (forall j :: 0 <= j < n && pfd[j] < -1 ==> -pfd[j] in children && children[-pfd[j]].tty == j)
    && (forall pid :: pid in children ==> pid > 1 && children[pid].tty < n && pfd[children[pid].tty] == -pid)
  }

  /** The table as it will be once the update in flight has been stored. */
  ghost function SettledPfd(s: State): seq<int> {
    match s.pc
    case Closing(i, _, pid) => if i < |s.pfd| then s.pfd[i := -pid] else s.pfd
    case Recording(i, _, pid) => if i < |s.pfd| then s.pfd[i := -pid] else s.pfd
    case Reopening(_, home) => if home < |s.pfd| then s.pfd[home := -1] else s.pfd
    case Storing(i, fd) => if i < |s.pfd| then s.pfd[i := fd] else s.pfd
    case _ => s.pfd
  }

  ghost function SettledOpen(s: State): map<int, nat> {
    match s.pc
    case Closing(i, _, pid) => if i < |s.pfd| then s.open - {s.pfd[i]} else s.open
    case _ => s.open
  }

  /** Terminals not yet scanned are forked for only if they are still open. */
  ghost predicate ScanReady(pfd: seq<int>, i: nat, revents: seq<bool>) {
    |revents| == |pfd| && forall j :: i <= j < |pfd| && revents[j] ==> pfd[j] >= 0
  }

  ghost predicate PcInv(s: State) {
    match s.pc
    case Polling(snapshot) => snapshot == s.pfd
    case Scanning(i, revents) => ScanReady(s.pfd, i, revents)
    case Forking(i, revents) => i < |s.pfd| && s.pfd[i] >= 0 && ScanReady(s.pfd, i, revents)
    case Closing(i, revents, pid) =>
      && i < |s.pfd| && s.pfd[i] >= 0 && s.pfd[i] in s.open && s.open[s.pfd[i]] == i
      && pid in s.children && ScanReady(s.pfd, i, revents)
    case Recording(i, revents, pid) =>
      i < |s.pfd| && s.pfd[i] >= 0 && pid in s.children && ScanReady(s.pfd, i + 1, revents)
    case Unblocking(i, revents) => i < |s.pfd| && ScanReady(s.pfd, i + 1, revents)
    case Reopening(pid, home) => home < |s.pfd| && pid > 1 && pid !in s.children && s.pfd[home] == -pid
    case Storing(i, fd) => i < |s.pfd| && s.pfd[i] < -1 && -s.pfd[i] !in s.children && fd >= -1
    case _ => true
  }

  /** An exited child is never forgotten: a signal is due, or the handler has yet to see waitpid() fail. */
  ghost predicate NoLostChild(s: State) {
    s.pending || s.pc.Reaping? || s.pc.Reopening? || s.pc.Storing? || s.pc.Exited? ||
    forall pid :: pid in s.children ==> !s.children[pid].exited
  }

  ghost predicate Inv(n: nat, s: State) {
    Consistent(n, SettledPfd(s), SettledOpen(s), s.children) && PcInv(s) && NoLostChild(s)
  }

  // The four changes to the settled view; every other step leaves it as it is.

  lemma ExitKeepsConsistent(n: nat, pfd: seq<int>, open: map<int, nat>, children: map<int, Child>, pid: int)
    requires Consistent(n, pfd, open, children) && pid in children
    ensures Consistent(n, pfd, open, children[pid := children[pid].(exited := true)])
  {
    var children' := children[pid := children[pid].(exited := true)];
    assert forall p :: p in children' ==> p in children && children'[p].tty == children[p].tty;
  }

  lemma ForkKeepsConsistent(n: nat, pfd: seq<int>, open: map<int, nat>, children: map<int, Child>, i: nat, pid: int)
    requires Consistent(n, pfd, open, children) && i < n && pfd[i] >= 0 && pid > 1 && pid !in children
    ensures Consistent(n, pfd[i := -pid], open - {pfd[i]}, children[pid := Child(i, false)])
  {
  }

  lemma ReapKeepsConsistent(n: nat, pfd: seq<int>, open: map<int, nat>, children: map<int, Child>, pid: int)
    requires Consistent(n, pfd, open, children) && pid in children
    ensures Consistent(n, pfd[children[pid].tty := -1], open, children - {pid})
  {
  }

  lemma OpenKeepsConsistent(n: nat, pfd: seq<int>, open: map<int, nat>, children: map<int, Child>, i: nat, fd: int)
    requires Consistent(n, pfd, open, children) && i < n && pfd[i] == -1 && FreshFd(open, fd)
    ensures Consistent(n, pfd[i := fd], OpenOn(open, fd, i), children)
  {
  }

  /** The search loop stops at the terminal the reaped child was forked for. */
  lemma ReapedIsFound(n: nat, s: State)
    requires Inv(n, s) && s.pc.Reopening?
    ensures Find(s.pfd, s.pc.pid) == Some(s.pc.home)
  {
    var settled := SettledPfd(s);
    forall j | 0 <= j < n && j != s.pc.home
      ensures s.pfd[j] != -s.pc.pid
    {
      assert settled[j] == s.pfd[j];
    }
    assert s.pfd[s.pc.home] in s.pfd;
  }

  lemma ChildExitsKeepsInv(n: nat, s: State, pid: int)
    requires Inv(n, s) && Enabled(s, ChildExits(pid))
    ensures Inv(n, Next(s, ChildExits(pid)))
  {
    hide Consistent;
    ExitKeepsConsistent(n, SettledPfd(s), SettledOpen(s), s.children, pid);
  }

  lemma ForkKeepsInv(n: nat, s: State, pid: int)
    requires Inv(n, s) && Enabled(s, Fork(pid))
    ensures Inv(n, Next(s, Fork(pid)))
  {
    hide Consistent;
    ForkIsPossible(n, s, pid);
    ForkKeepsView(n, s, pid);
  }

  lemma ForkIsPossible(n: nat, s: State, pid: int)
    requires Inv(n, s) && Enabled(s, Fork(pid))
    ensures s.pc.i < n == |s.pfd| && s.pfd[s.pc.i] >= 0
    ensures s.pfd[s.pc.i] in s.open && s.open[s.pfd[s.pc.i]] == s.pc.i
  {
  }

  lemma ForkKeepsView(n: nat, s: State, pid: int)
    requires Inv(n, s) && Enabled(s, Fork(pid))
    ensures var t := Next(s, Fork(pid)); Consistent(n, SettledPfd(t), SettledOpen(t), t.children)
  {
    hide Consistent;
    ForkIsPossible(n, s, pid);
    if pid > 0 {
      ForkKeepsConsistent(n, s.pfd, s.open, s.children, s.pc.i, pid);
    }
  }

  lemma ReapKeepsInv(n: nat, s: State, pid: int)
    requires Inv(n, s) && Enabled(s, Reap(pid))
    ensures Inv(n, Next(s, Reap(pid)))
  {
    ReapKeepsConsistent(n, s.pfd, s.open, s.children, pid);
  }

  lemma ReopenKeepsInv(n: nat, s: State, fd: int)
    requires Inv(n, s) && Enabled(s, Reopen(fd))
    ensures Inv(n, Next(s, Reopen(fd)))
  {
    var s' := Next(s, Reopen(fd));
    assert s' == s.(pc := Storing(s.pc.home, fd), open := OpenOn(s.open, fd, s.pc.home)) by {
      ReapedIsFound(n, s);
    }
    assert Consistent(n, SettledPfd(s'), s'.open, s'.children) by {
      OpenKeepsConsistent(n, SettledPfd(s), s.open, s.children, s.pc.home, fd);
      assert SettledPfd(s') == SettledPfd(s)[s.pc.home := fd];
    }
  }

  // The steps that leave the settled view as it is.

  lemma ScanKeepsInv(n: nat, s: State)
    requires Inv(n, s) && Enabled(s, Scan)
    ensures Inv(n, Next(s, Scan))
  {
    var s' := Next(s, Scan);
    assert SettledPfd(s') == s.pfd == SettledPfd(s) && SettledOpen(s') == s.open == SettledOpen(s);
    assert s'.children == s.children && s'.pending == s.pending;
  }

  lemma CloseKeepsInv(n: nat, s: State)
    requires Inv(n, s) && Enabled(s, Close)
    ensures Inv(n, Next(s, Close))
  {
    var s' := Next(s, Close);
    assert SettledPfd(s') == SettledPfd(s) && SettledOpen(s') == SettledOpen(s) && s'.children == s.children;
  }

  lemma RecordKeepsInv(n: nat, s: State)
    requires Inv(n, s) && Enabled(s, Record)
    ensures Inv(n, Next(s, Record))
  {
    var s' := Next(s, Record);
    assert SettledPfd(s') == SettledPfd(s) && SettledOpen(s') == SettledOpen(s) && s'.children == s.children;
  }

  lemma StoreKeepsInv(n: nat, s: State)
    requires Inv(n, s) && Enabled(s, Store)
    ensures Inv(n, Next(s, Store))
  {
    var s' := Next(s, Store);
    assert SettledPfd(s') == SettledPfd(s) && SettledOpen(s') == SettledOpen(s) && s'.children == s.children;
  }

  /** These change nothing but the program counter and the pending signal. */
  lemma QuietStepKeepsInv(n: nat, s: State, e: Event)
    requires Inv(n, s) && Enabled(s, e)
    requires e.Deliver? || e.EnterPoll? || e.PollReturns? || e.PollFails? || e.Unblock? || e.NothingToReap? || e.Jump?
    ensures Inv(n, Next(s, e))
  {
    var s' := Next(s, e);
    assert SettledPfd(s') == s.pfd == SettledPfd(s) && SettledOpen(s') == s.open == SettledOpen(s);
    assert s'.children == s.children;
  }

  /** One step of any participant keeps the invariant. */
  lemma StepKeepsInv(n: nat, s: State, e: Event)
    requires Inv(n, s) && Enabled(s, e)
    ensures Inv(n, Next(s, e))
  {
    match e
    case ChildExits(pid) => ChildExitsKeepsInv(n, s, pid);
    case Fork(pid) => ForkKeepsInv(n, s, pid);
    case Reap(pid) => ReapKeepsInv(n, s, pid);
    case Reopen(fd) => ReopenKeepsInv(n, s, fd);
    case Scan => ScanKeepsInv(n, s);
    case Close => CloseKeepsInv(n, s);
    case Record => RecordKeepsInv(n, s);
    case Store => StoreKeepsInv(n, s);
    case _ => QuietStepKeepsInv(n, s, e);
  }

  // ---- Every run ----

  lemma {:induction false} RunKeepsInv(n: nat, states: seq<State>, events: seq<Event>, k: nat)
    requires Run(n, states, events) && k < |states|
    ensures Inv(n, states[k])
  {
    if k > 0 {
      RunKeepsInv(n, states, events, k - 1);
      StepKeepsInv(n, states[k - 1], events[k - 1]);
    }
  }

  /** The fork in progress, if the parent has not yet written it to its table. */
  predicate Unrecorded(pc: Pc, pid: int) {
    (pc.Closing? || pc.Recording?) && pc.pid == pid
  }

  /** No terminal ever has two sessions, and each unreaped child is stored as its negative pid in the
      entry of its own terminal and nowhere else; only the child of the fork in progress is not yet stored. */
  lemma ChildrenAreRecorded(n: nat, states: seq<State>, events: seq<Event>, k: nat, pid: int)
    requires Run(n, states, events) && k < |states| && pid in states[k].children
    ensures forall q :: q in states[k].children && states[k].children[q].tty == states[k].children[pid].tty ==> q == pid
    ensures |states[k].pfd| == n
    ensures forall j :: 0 <= j < n ==>
      (states[k].pfd[j] == -pid <==> j == states[k].children[pid].tty && !Unrecorded(states[k].pc, pid))
  {
    RunKeepsInv(n, states, events, k);
    var s := states[k];
    var settled := SettledPfd(s);
    forall j | 0 <= j < n
      ensures s.pfd[j] == -pid <==> j == s.children[pid].tty && !Unrecorded(s.pc, pid)
    {
      assert settled[j] == -pid <==> j == s.children[pid].tty;
    }
  }

  /** A child that has exited is reaped in time: a SIGCHLD that is due to be delivered is pending, or the
      handler runs and has waitpid() still to call. */
  lemma ExitedChildIsNoticed(n: nat, states: seq<State>, events: seq<Event>, k: nat, pid: int)
    requires Run(n, states, events) && k < |states| && Zombie(states[k], pid) && !states[k].pc.Exited?
    ensures states[k].pending || states[k].pc.Reaping? || states[k].pc.Reopening? || states[k].pc.Storing?
    ensures !Masked(states[k].pc) ==> Enabled(states[k], Deliver)
  {
    RunKeepsInv(n, states, events, k);
  }

  /** Whenever the daemon sleeps in poll(), what it sleeps on is up to date: it watches an open descriptor
      of every terminal that could be opened and has no session, ignores exactly the terminals with a
      session or without a device, and a session that ended will wake it. */
  lemma PollWatchesEveryFreeTerminal(n: nat, states: seq<State>, events: seq<Event>, k: nat)
    requires Run(n, states, events) && k < |states| && states[k].pc.Polling?
    ensures var s := states[k]; var watched := s.pc.snapshot;
      && watched == s.pfd && |watched| == n
      && (forall j :: 0 <= j < n ==>
           (watched[j] >= -1 <==> forall pid :: pid in s.children ==> s.children[pid].tty != j))
      && (forall j :: 0 <= j < n && watched[j] >= 0 ==> watched[j] in s.open && s.open[watched[j]] == j)
      && (forall pid :: Zombie(s, pid) ==> Enabled(s, Deliver))
  {
    RunKeepsInv(n, states, events, k);
    var s := states[k];
    forall j | 0 <= j < n
      ensures s.pfd[j] >= -1 <==> forall pid :: pid in s.children ==> s.children[pid].tty != j
    {
      if s.pfd[j] < -1 {
        assert -s.pfd[j] in s.children;
      }
    }
  }

  /** A login is forked only for a terminal that is open on its own descriptor and has no session. */
  lemma ForkOnlyFreeTerminals(n: nat, states: seq<State>, events: seq<Event>, k: nat)
    requires Run(n, states, events) && k < |states| && states[k].pc.Forking?
    ensures var s := states[k]; var i := s.pc.i;
      && i < n && i < |s.pfd| && s.pfd[i] in s.open && s.open[s.pfd[i]] == i
      && (forall pid :: pid in s.children ==> s.children[pid].tty != i)
  {
    RunKeepsInv(n, states, events, k);
  }

  /** No descriptor leaks: outside the two-step updates, every open descriptor is the entry of its terminal. */
  lemma DescriptorsAreTheTable(n: nat, states: seq<State>, events: seq<Event>, k: nat)
    requires Run(n, states, events) && k < |states| && !states[k].pc.Storing? && !states[k].pc.Recording?
    ensures |states[k].pfd| == n
    ensures states[k].open.Keys == set j | 0 <= j < n && states[k].pfd[j] >= 0 :: states[k].pfd[j]
  {
    RunKeepsInv(n, states, events, k);
    var s := states[k];
    var settled := SettledPfd(s);
    forall j | 0 <= j < n && s.pfd[j] >= 0
      ensures s.pfd[j] in s.open
    {
      assert settled[j] == s.pfd[j] || ((s.pc.Closing? || s.pc.Reopening?) && settled[j] != s.pfd[j]);
    }
    forall fd | fd in s.open
      ensures exists j :: 0 <= j < n && s.pfd[j] >= 0 && s.pfd[j] == fd
    {
      assert (s.pc.Closing? && fd == s.pfd[s.pc.i]) || fd in SettledOpen(s);
      assert s.open[fd] < n && s.pfd[s.open[fd]] == fd;
    }
  }

  /** Event l stores the descriptor just opened in the entry of terminal home. */
  ghost predicate StoresAt(states: seq<State>, events: seq<Event>, l: nat, home: nat) {
    && l + 1 < |states| && l < |events| && events[l].Store? && states[l].pc.Storing? && states[l].pc.i == home
    && home < |states[l + 1].pfd| && states[l + 1].pfd[home] == states[l].pc.fd
  }

  /** A reaped child's terminal is reopened before the handler does anything else: by the time the daemon
      has left the reopening steps, it has stored what open() returned in that terminal's entry. */
  lemma {:induction false} ReapedTerminalIsReopened(n: nat, states: seq<State>, events: seq<Event>, k: nat, m: nat)
    requires Run(n, states, events) && k < m < |states| && events[k].Reap?
    ensures var home := states[k].children[events[k].pid].tty;
      || states[m].pc == Reopening(events[k].pid, home)
      || (states[m].pc.Storing? && states[m].pc.i == home)
      || (exists l :: k < l < m && StoresAt(states, events, l, home))
  {
    var home := states[k].children[events[k].pid].tty;
    var l := m - 1;
    assert Enabled(states[l], events[l]) && states[l + 1] == Next(states[l], events[l]);
    if m > k + 1 {
      ReapedTerminalIsReopened(n, states, events, k, l);
      RunKeepsInv(n, states, events, l);
      if states[l].pc.Reopening? {
        ReapedIsFound(n, states[l]);
      } else if states[l].pc.Storing? && events[l].Store? && states[l].pc.i == home {
        assert StoresAt(states, events, l, home);
      }
    }
  }

  lemma StepKeepsDead(n: nat, s: State, e: Event, j: nat)
    requires Inv(n, s) && Enabled(s, e) && j < |s.pfd| && s.pfd[j] == -1
    ensures j < |Next(s, e).pfd| && Next(s, e).pfd[j] == -1
  {
  }

  /** A terminal whose open() failed is never polled, forked for or reopened again. */
  lemma {:induction false} DeadTerminalStaysDead(n: nat, states: seq<State>, events: seq<Event>, k: nat, m: nat, j: nat)
    requires Run(n, states, events) && k <= m < |states| && j < n
    requires j < |states[k].pfd| && states[k].pfd[j] == -1
    ensures j < |states[m].pfd| && states[m].pfd[j] == -1
    decreases m
  {
    if m > k {
      DeadTerminalStaysDead(n, states, events, k, m - 1, j);
      RunKeepsInv(n, states, events, m - 1);
      StepKeepsDead(n, states[m - 1], events[m - 1], j);
    }
  }
}

/** logind's own code over its pollfd array.  Each method performs, whatever the kernel and the children
    do in between, a sequence of steps of the protocol in LogindProtocol. */
module Logind {
  import Bytes
  import opened LogindLogins
  import opened LogindProtocol

  /** The events `es` lead from s to t. */
  ghost predicate Reaches(s: State, es: seq<Event>, t: State)
    decreases |es|
  {
    if es == [] then s == t
    else Enabled(s, es[0]) && Reaches(Next(s, es[0]), es[1..], t)
  }

  lemma {:induction false} ReachesThen(s: State, es: seq<Event>, t: State, fs: seq<Event>, u: State)
    requires Reaches(s, es, t) && Reaches(t, fs, u)
    ensures Reaches(s, es + fs, u)
    decreases |es|
  {
    if es == [] {
      assert es + fs == fs;
    } else {
      assert (es + fs)[1..] == es[1..] + fs;
      ReachesThen(Next(s, es[0]), es[1..], t, fs, u);
    }
  }

  lemma ReachesOne(s: State, e: Event)
    requires Enabled(s, e)
    ensures Reaches(s, [e], Next(s, e))
  {
    assert Reaches(Next(s, e), [], Next(s, e));
    assert [e][1..] == [];
  }

  lemma ReachesStep(s: State, es: seq<Event>, t: State, e: Event)
    requires Reaches(s, es, t) && Enabled(t, e)
    ensures Reaches(s, es + [e], Next(t, e))
  {
    ReachesOne(t, e);
    ReachesThen(s, es, t, [e], Next(t, e));
  }

  lemma {:induction false} ReachesKeepsInv(n: nat, s: State, es: seq<Event>, t: State)
    requires Inv(n, s) && Reaches(s, es, t)
    ensures Inv(n, t)
    decreases |es|
  {
    if es != [] {
      StepKeepsInv(n, s, es[0]);
      ReachesKeepsInv(n, Next(s, es[0]), es[1..], t);
    }
  }

  /** What leads from an initial state is a run of the protocol, so all that holds of runs holds of it. */
  lemma ReachesIsRun(n: nat, s: State, es: seq<Event>, t: State) returns (states: seq<State>)
    requires Init(n, s) && Reaches(s, es, t)
    ensures Run(n, states, es) && states[0] == s && states[|es|] == t
  {
    states := Path(s, es, t);
  }

  lemma {:induction false} Path(s: State, es: seq<Event>, t: State) returns (states: seq<State>)
    requires Reaches(s, es, t)
    ensures |states| == |es| + 1 && states[0] == s && states[|es|] == t
    ensures forall k {:trigger es[k]} :: 0 <= k < |es| ==>
              Enabled(states[k], es[k]) && states[k + 1] == Next(states[k], es[k])
    decreases |es|
  {
    if es == [] {
      states := [s];
    } else {
      var rest := Path(Next(s, es[0]), es[1..], t);
      states := [s] + rest;
      forall k | 0 <= k < |es|
        ensures Enabled(states[k], es[k]) && states[k + 1] == Next(states[k], es[k])
      {
        if k > 0 {
          assert es[1..][k - 1] == es[k] && states[k] == rest[k - 1] && states[k + 1] == rest[k];
        }
      }
    }
  }

  // ---- What a turn of the while loop consists of ----

  ghost predicate OnlyExits(es: seq<Event>) {
    forall e :: e in es ==> e.ChildExits?
  }

  /** Anything but the steps of poll() itself. */
  ghost predicate NoPoll(es: seq<Event>) {
    forall e :: e in es ==> !e.EnterPoll? && !e.PollReturns? && !e.PollFails?
  }

  /** What poll() may report of some descriptors. */
  predicate CanReport(revents: seq<bool>, fds: seq<int>) {
    |revents| == |fds| && true in revents && forall j :: 0 <= j < |revents| && revents[j] ==> fds[j] >= 0
  }

  /** In poll() children may exit, until a signal interrupts it, or it reports `revents`, or fails since it cannot;
      the steps after that are those of the handler and the for loop. */
  ghost predicate Asleep(revents: seq<bool>, fds: seq<int>, es: seq<Event>, goesOn: bool)
    decreases |es|
  {
    es != [] &&
    match es[0]
    case ChildExits(_) => Asleep(revents, fds, es[1..], goesOn)
    case Deliver => goesOn && NoPoll(es)
    case PollReturns(reported) => goesOn && reported == revents && CanReport(revents, fds) && NoPoll(es[1..])
    case PollFails => !goesOn && !CanReport(revents, fds) && es == [PollFails]
    case _ => false
  }

  /** One turn: a signal comes before poll(), or poll() is entered, with the descriptors in the table. */
  ghost predicate TurnIs(revents: seq<bool>, fds: seq<int>, es: seq<Event>, goesOn: bool) {
    es != [] &&
    match es[0]
    case Deliver => goesOn && NoPoll(es)
    case EnterPoll => Asleep(revents, fds, es[1..], goesOn)
    case _ => false
  }

  lemma {:induction false} ExitsThen(revents: seq<bool>, fds: seq<int>, exits: seq<Event>, es: seq<Event>, goesOn: bool)
    requires OnlyExits(exits) && Asleep(revents, fds, es, goesOn)
    ensures Asleep(revents, fds, exits + es, goesOn)
    decreases |exits|
  {
    if exits == [] {
      assert exits + es == es;
    } else {
      assert exits[0] in exits && (exits + es)[1..] == exits[1..] + es;
      ExitsThen(revents, fds, exits[1..], es, goesOn);
    }
  }

  lemma EntersThen(revents: seq<bool>, fds: seq<int>, exits: seq<Event>, es: seq<Event>, goesOn: bool)
    requires OnlyExits(exits) && Asleep(revents, fds, es, goesOn)
    ensures TurnIs(revents, fds, [EnterPoll] + exits + es, goesOn)
  {
    ExitsThen(revents, fds, exits, es, goesOn);
    assert ([EnterPoll] + exits + es)[1..] == exits + es;
  }

  /** Turn j of a run begins in the state that the turns before it lead to, and is one for its answer of poll();
      `goesOn` tells of the last one. */
  ghost predicate TurnAt(states: seq<State>, polls: seq<seq<bool>>, turns: seq<seq<Event>>, j: nat, goesOn: bool)
    requires j < |turns| <= |polls|
  {
    var at := |Bytes.Flatten(turns[..j])|;
    at < |states| && states[at].pc == PollCall &&
    TurnIs(polls[j], states[at].pfd, turns[j], j < |turns| - 1 || goesOn)
  }

  ghost predicate TurnsAre(states: seq<State>, polls: seq<seq<bool>>, turns: seq<seq<Event>>, goesOn: bool)
    requires |turns| <= |polls|
  {
    forall j :: 0 <= j < |turns| ==> TurnAt(states, polls, turns, j, goesOn)
  }

  /** The terminals that logins are forked for in a turn: if its poll() has reported terminals, just those, in order,
      unless SIGCHLD comes in between; otherwise there are none. */
  predicate LoginsAre(logins: seq<nat>, revents: seq<bool>, es: seq<Event>) {
    if PollReturns(revents) in es then AreFirst(logins, Reported(revents, |revents|), Deliver in es)
    else logins == []
  }

  /** So they are in turn j. */
  ghost predicate LoginsOf(states: seq<State>, events: seq<Event>, polls: seq<seq<bool>>, turns: seq<seq<Event>>,
                           j: nat)
    requires j < |turns| <= |polls|
  {
    var at := |Bytes.Flatten(turns[..j])|;
    var end := at + |turns[j]|;
    end <= |events| < |states| && LoginsAre(Forked(states, events, at, end), polls[j], turns[j])
  }

  ghost predicate AllLogins(states: seq<State>, events: seq<Event>, polls: seq<seq<bool>>, turns: seq<seq<Event>>)
    requires |turns| <= |polls|
  {
    forall j :: 0 <= j < |turns| ==> LoginsOf(states, events, polls, turns, j)
  }

  /** Where in a turn poll() reports something. */
  lemma {:induction false} ReportIn(revents: seq<bool>, fds: seq<int>, es: seq<Event>, goesOn: bool) returns (p: nat)
    requires Asleep(revents, fds, es, goesOn) && PollReturns(revents) in es
    ensures p < |es| && es[p] == PollReturns(revents) && goesOn
    ensures forall i :: 0 <= i < p ==> es[i].ChildExits?
    ensures forall i :: p < i < |es| ==> !es[i].EnterPoll?
    decreases |es|
  {
    var rest := es[1..];
    assert es == [es[0]] + rest && forall i :: 0 < i < |es| ==> es[i] == rest[i - 1];
    if es[0].ChildExits? {
      var q := ReportIn(revents, fds, rest, goesOn);
      p := q + 1;
    } else {
      p := 0;
      assert forall i :: 0 <= i < |rest| ==> rest[i] in rest;
    }
  }

  lemma TurnLogins(n: nat, states: seq<State>, events: seq<Event>, at: nat, revents: seq<bool>, fds: seq<int>,
                   es: seq<Event>, goesOn: bool)
    requires Run(n, states, events) && at + |es| <= |events| && events[at..at + |es|] == es
    requires states[at].pc == PollCall && TurnIs(revents, fds, es, goesOn)
    requires goesOn ==> states[at + |es|].pc == PollCall
    ensures LoginsAre(Forked(states, events, at, at + |es|), revents, es)
  {
    hide Run, Forked, Reported, TurnIs;
    assert forall l :: at <= l < at + |es| ==> events[l] == es[l - at] && es[l - at] in es;
    if PollReturns(revents) in es {
      var k := ReportAt(events, at, revents, fds, es, goesOn);
      ReportedTurn(n, states, events, at, k, at + |es|, revents);
      if Deliver !in es {
        NotInterrupted(events, k + 1, at + |es|);
      }
    } else {
      NoReportIn(revents, fds, es, goesOn);
      NoneForked(n, states, events, at, at + |es|);
    }
  }

  lemma ReportAt(events: seq<Event>, at: nat, revents: seq<bool>, fds: seq<int>, es: seq<Event>, goesOn: bool)
    returns (k: nat)
    requires at + |es| <= |events| && forall l :: at <= l < at + |es| ==> events[l] == es[l - at]
    requires TurnIs(revents, fds, es, goesOn) && PollReturns(revents) in es
    ensures at <= k < at + |es| && events[k] == PollReturns(revents) && goesOn
    ensures forall l :: at <= l < k ==> !events[l].PollReturns?
    ensures forall l :: k < l < at + |es| ==> !events[l].EnterPoll?
  {
    var rest := es[1..];
    assert es == [es[0]] + rest && forall i :: 0 < i < |es| ==> es[i] == rest[i - 1];
    hide Asleep;
    var p := ReportIn(revents, fds, rest, goesOn);
    k := at + 1 + p;
    assert forall l :: at < l < at + |es| ==> events[l] == rest[l - at - 1];
  }

  lemma NoReportIn(revents: seq<bool>, fds: seq<int>, es: seq<Event>, goesOn: bool)
    requires TurnIs(revents, fds, es, goesOn) && PollReturns(revents) !in es
    ensures forall e :: e in es ==> !e.PollReturns?
  {
    if es[0].EnterPoll? {
      assert es == [es[0]] + es[1..];
      NoReportAsleep(revents, fds, es[1..], goesOn);
    }
  }

  lemma {:induction false} NoReportAsleep(revents: seq<bool>, fds: seq<int>, es: seq<Event>, goesOn: bool)
    requires Asleep(revents, fds, es, goesOn) && PollReturns(revents) !in es
    ensures forall e :: e in es ==> !e.PollReturns?
    decreases |es|
  {
    assert es == [es[0]] + es[1..];
    if es[0].ChildExits? {
      NoReportAsleep(revents, fds, es[1..], goesOn);
    }
  }

  /** A path passes through the state that some of its events lead to. */
  lemma {:induction false} PathPasses(s: State, es: seq<Event>, states: seq<State>, fs: seq<Event>, t: State)
    requires |states| == |es| + 1 && states[0] == s && fs <= es && Reaches(s, fs, t)
    requires forall k {:trigger es[k]} :: 0 <= k < |es| ==>
              Enabled(states[k], es[k]) && states[k + 1] == Next(states[k], es[k])
    ensures states[|fs|] == t
    decreases |fs|
  {
    hide Enabled, Next;
    if fs != [] {
      assert es[0] == fs[0];
      forall k | 0 <= k < |es[1..]|
        ensures Enabled(states[1..][k], es[1..][k]) && states[1..][k + 1] == Next(states[1..][k], es[1..][k])
      {
        assert es[1..][k] == es[k + 1];
      }
      PathPasses(states[1], es[1..], states[1..], fs[1..], t);
    }
  }

  class Daemon {
    const pfd: array<int>              // the fd fields of the pollfd array
    var children: map<int, Child>      // the kernel's view: unreaped children,
    var pending: bool                  // a SIGCHLD not yet delivered,
    var open: map<int, nat>            // and the daemon's open descriptors

    ghost function At(pc: Pc): State
      reads this, pfd
    {
      State(pc, pfd[..], children, pending, open)
    }

    /** main() up to the sigsetjmp: opens every terminal. */
    constructor (npfd: nat)
      ensures pfd.Length == npfd && fresh(pfd)
      ensures Init(npfd, At(PollCall))
    {
      pfd := new int[npfd](_ => -1);
      children, pending, open := map[], false, map[];
      new;
      var i := 0;
      while i < npfd
        invariant 0 <= i <= npfd
        invariant Consistent(npfd, pfd[..], open, children)
        invariant forall j :: i <= j < npfd ==> pfd[j] == -1
        invariant children == map[] && !pending
      {
        label Before:
        assert pfd[..][i] == -1;
        OpenTty(i);
        OpenKeepsConsistent(npfd, old@Before(pfd[..]), old@Before(open), children, i, pfd[i]);
        i := i + 1;
      }
    }

    /** open() on terminal i may fail or return any free descriptor. */
    method OpenTty(i: nat)
      requires i < pfd.Length
      modifies this`open, pfd
      ensures FreshFd(old(open), pfd[i])
      ensures pfd[..] == old(pfd[..])[i := pfd[i]]
      ensures open == OpenOn(old(open), pfd[i], i)
    {
      var fd: int := *;
      if fd < 0 || fd in open {
        fd := -1;
      }
      open := OpenOn(open, fd, i);
      pfd[i] := fd;
    }

    /** Any children may exit while the daemon is at pc. */
    method OthersRun(ghost pc: Pc) returns (ghost events: seq<Event>)
      modifies this`children, this`pending
      ensures Reaches(old(At(pc)), events, At(pc)) && OnlyExits(events)
      ensures children.Keys == old(children).Keys
    {
      events := [];
      var k: nat := *;
      while k > 0
        invariant Reaches(old(At(pc)), events, At(pc)) && OnlyExits(events)
        invariant children.Keys == old(children).Keys
      {
        var pid: int := *;
        if pid in children && !children[pid].exited {
          ReachesStep(old(At(pc)), events, At(pc), ChildExits(pid));
          events := events + [ChildExits(pid)];
          children := children[pid := children[pid].(exited := true)];
          pending := true;
        }
        k := k - 1;
      }
    }

    /** waitpid(-1, NULL, WNOHANG): some exited child's pid, or 0 when there is none. */
    method WaitPid() returns (pid: int, ghost home: nat, ghost events: seq<Event>)
      requires forall p :: p in children ==> p > 1
      modifies this`children, this`pending
      ensures pid >= 0 && NoPoll(events)
      ensures pid > 0 ==> Reaches(old(At(Reaping)), events, At(Reopening(pid, home)))
      ensures pid == 0 ==> Reaches(old(At(Reaping)), events, At(Leaving))
      ensures |children| <= |old(children)| && (pid > 0 ==> |children| < |old(children)|)
    {
      hide Reaches;
      events := OthersRun(Reaping);
      assert |children.Keys| == |old(children).Keys|;
      var zombies := set p | p in children && children[p].exited;
      home := 0;
      if z :| z in zombies {
        pid, home := z, children[z].tty;
        ReachesStep(old(At(Reaping)), events, At(Reaping), Reap(pid));
        events := events + [Reap(pid)];
        assert (children - {pid}).Keys == children.Keys - {pid};
        children := children - {pid};
      } else {
        forall p | p in children
          ensures !children[p].exited
        {
          assert p !in zombies;
        }
        pid := 0;
        ReachesStep(old(At(Reaping)), events, At(Reaping), NothingToReap);
        events := events + [NothingToReap];
      }
    }

    /** The SIGCHLD handler: reaps every exited child and reopens its terminal. */
    method SigChld() returns (ghost events: seq<Event>)
      requires Inv(pfd.Length, At(Reaping))
      modifies this`children, this`pending, this`open, pfd
      ensures Reaches(old(At(Reaping)), events, At(Leaving)) && NoPoll(events)
      ensures Inv(pfd.Length, At(Leaving))
    {
      ghost var start := At(Reaping);
      var pid;
      ghost var home, es;
      pid, home, events := WaitPid();
      while pid > 0
        invariant pid >= 0 && NoPoll(events)
        invariant pid > 0 ==> Reaches(start, events, At(Reopening(pid, home)))
        invariant pid == 0 ==> Reaches(start, events, At(Leaving))
        decreases |children|, pid
      {
        events := Reset(pid, home, start, events);
        ReachesKeepsInv(pfd.Length, start, events, At(Reaping));
        ghost var before := At(Reaping);
        pid, home, es := WaitPid();
        if pid > 0 {
          ReachesThen(start, events, before, es, At(Reopening(pid, home)));
        } else {
          ReachesThen(start, events, before, es, At(Leaving));
        }
        events := events + es;
      }
      ReachesKeepsInv(pfd.Length, start, events, At(Leaving));
    }

    /** The handler's inner loop: searches the table for -pid and reopens that terminal. */
    method Reset(pid: int, ghost home: nat, ghost start: State, ghost past: seq<Event>)
      returns (ghost events: seq<Event>)
      requires Inv(pfd.Length, start) && Reaches(start, past, At(Reopening(pid, home))) && NoPoll(past)
      modifies this`open, pfd
      ensures Reaches(start, events, At(Reaping)) && NoPoll(events)
    {
      hide Reaches;
      ghost var s := At(Reopening(pid, home));
      ReachesKeepsInv(pfd.Length, start, past, s);
      ReapedIsFound(pfd.Length, s);
      events := past;
      var i := 0;
      while i < pfd.Length
        invariant 0 <= i <= pfd.Length
        invariant -pid !in pfd[..i]
        invariant At(Reopening(pid, home)) == s && events == past
      {
        if pfd[i] == -pid {
          assert i == home;
          OpenTty(i);
          ghost var withFd := Next(s, Reopen(pfd[i]));
          ReachesStep(start, events, s, Reopen(pfd[i]));
          ReachesStep(start, events + [Reopen(pfd[i])], withFd, Store);
          events := events + [Reopen(pfd[i])] + [Store];
          return;
        }
        i := i + 1;
      }
      assert false;
    }

    /** The parent's side of forktty: SIGCHLD is blocked from before fork() until the pid is recorded. */
    method ForkTty(i: nat, ghost revents: seq<bool>) returns (ghost events: seq<Event>)
      requires i < pfd.Length
      modifies this`children, this`pending, this`open, pfd
      ensures Reaches(old(At(Forking(i, revents))), events, At(Scanning(i + 1, revents))) && NoPoll(events)
    {
      hide Reaches;
      ghost var start := At(Forking(i, revents));
      var pid: int := *;
      if pid <= 1 || pid in children {
        pid := -1;
      }
      ReachesOne(start, Fork(pid));
      events := [Fork(pid)];
      if pid > 0 {
        children := children[pid := Child(i, false)];
        events := Parent(i, revents, pid, start, events);
      }
      ReachesStep(start, events, At(Unblocking(i, revents)), Unblock);
      events := events + [Unblock];
    }

    /** close(pfd[i].fd) and pfd[i].fd = -pid, while others run. */
    method Parent(i: nat, ghost revents: seq<bool>, pid: int, ghost start: State, ghost past: seq<Event>)
      returns (ghost events: seq<Event>)
      requires i < pfd.Length && Reaches(start, past, At(Closing(i, revents, pid))) && NoPoll(past)
      modifies this`children, this`pending, this`open, pfd
      ensures Reaches(start, events, At(Unblocking(i, revents))) && NoPoll(events)
    {
      ghost var forked := At(Closing(i, revents, pid));
      ghost var es := OthersRun(Closing(i, revents, pid));
      ReachesThen(start, past, forked, es, At(Closing(i, revents, pid)));
      events := CloseAndRecord(i, revents, pid, start, past + es);
    }

    method CloseAndRecord(i: nat, ghost revents: seq<bool>, pid: int, ghost start: State, ghost past: seq<Event>)
      returns (ghost events: seq<Event>)
      requires i < pfd.Length && Reaches(start, past, At(Closing(i, revents, pid))) && NoPoll(past)
      modifies this`open, pfd
      ensures Reaches(start, events, At(Unblocking(i, revents))) && NoPoll(events)
    {
      ghost var s := At(Closing(i, revents, pid));
      ghost var closed := Next(s, Close);
      ReachesStep(start, past, s, Close);
      ReachesStep(start, past + [Close], closed, Record);
      events := past + [Close] + [Record];
      open := open - {pfd[i]};
      pfd[i] := -pid;
      assert At(Unblocking(i, revents)) == Next(closed, Record);
    }

    /** SIGCHLD where it is not blocked: the handler runs, and jumps back to poll(). */
    method Interrupt(ghost pc: Pc) returns (ghost events: seq<Event>)
      requires pending && !Masked(pc) && !pc.Exited? && Inv(pfd.Length, At(pc))
      modifies this`children, this`pending, this`open, pfd
      ensures Reaches(old(At(pc)), events, At(PollCall)) && NoPoll(events) && events != [] && events[0] == Deliver
    {
      hide Reaches, Consistent;
      ghost var s := At(pc);
      ReachesOne(s, Deliver);
      StepKeepsInv(pfd.Length, s, Deliver);
      pending := false;
      ghost var handler := At(Reaping);
      ghost var es := SigChld();
      ReachesThen(s, [Deliver], handler, es, At(Leaving));
      ReachesStep(s, [Deliver] + es, At(Leaving), Jump);
      events := [Deliver] + es + [Jump];
    }

    /** The for loop after poll(), which SIGCHLD may cut short anywhere. */
    method ForEach(revents: seq<bool>) returns (ghost events: seq<Event>)
      requires |revents| == pfd.Length && Inv(pfd.Length, At(Scanning(0, revents)))
      modifies this`children, this`pending, this`open, pfd
      ensures Reaches(old(At(Scanning(0, revents))), events, At(PollCall)) && NoPoll(events)
    {
      ghost var start := At(Scanning(0, revents));
      events := [];
      var i := 0;
      while i < pfd.Length
        invariant 0 <= i <= pfd.Length
        invariant Reaches(start, events, At(Scanning(i, revents))) && NoPoll(events)
      {
        var interrupted;
        interrupted, events := Visit(i, revents, start, events);
        if interrupted {
          return;
        }
        i := i + 1;
      }
      ReachesStep(start, events, At(Scanning(i, revents)), Scan);
      events := events + [Scan];
    }

    method Visit(i: nat, revents: seq<bool>, ghost start: State, ghost past: seq<Event>)
      returns (interrupted: bool, ghost events: seq<Event>)
      requires |revents| == pfd.Length && i < pfd.Length && Inv(pfd.Length, start)
      requires Reaches(start, past, At(Scanning(i, revents))) && NoPoll(past)
      modifies this`children, this`pending, this`open, pfd
      ensures Reaches(start, events, if interrupted then At(PollCall) else At(Scanning(i + 1, revents)))
      ensures NoPoll(events)
    {
      hide Reaches;
      ghost var before := At(Scanning(i, revents));
      ghost var es := OthersRun(Scanning(i, revents));
      ReachesThen(start, past, before, es, At(Scanning(i, revents)));
      events := past + es;
      interrupted := *;
      interrupted := interrupted && pending;
      if interrupted {
        ReachesKeepsInv(pfd.Length, start, events, At(Scanning(i, revents)));
        events := Continue(start, events, Scanning(i, revents));
      } else {
        ReachesStep(start, events, At(Scanning(i, revents)), Scan);
        events := events + [Scan];
        if revents[i] {
          events := Login(i, revents, start, events);
        }
      }
    }

    method Login(i: nat, ghost revents: seq<bool>, ghost start: State, ghost past: seq<Event>)
      returns (ghost events: seq<Event>)
      requires i < pfd.Length && Reaches(start, past, At(Forking(i, revents))) && NoPoll(past)
      modifies this`children, this`pending, this`open, pfd
      ensures Reaches(start, events, At(Scanning(i + 1, revents))) && NoPoll(events)
    {
      ghost var before := At(Forking(i, revents));
      ghost var es := ForkTty(i, revents);
      ReachesThen(start, past, before, es, At(Scanning(i + 1, revents)));
      events := past + es;
    }

    method Continue(ghost start: State, ghost past: seq<Event>, ghost pc: Pc) returns (ghost events: seq<Event>)
      requires pending && !Masked(pc) && !pc.Exited? && Inv(pfd.Length, At(pc))
      requires Reaches(start, past, At(pc)) && NoPoll(past)
      modifies this`children, this`pending, this`open, pfd
      ensures Reaches(start, events, At(PollCall)) && NoPoll(events)
    {
      ghost var before := At(pc);
      ghost var es := Interrupt(pc);
      ReachesThen(start, past, before, es, At(PollCall));
      events := past + es;
    }

    /** One turn of the while loop.  `revents` is what poll() reports, unless a signal comes first; an answer
        poll() cannot give stands for its failure. */
    method Poll(revents: seq<bool>) returns (goesOn: bool, ghost events: seq<Event>)
      requires Inv(pfd.Length, At(PollCall))
      modifies this`children, this`pending, this`open, pfd
      ensures Reaches(old(At(PollCall)), events, At(if goesOn then PollCall else Exited))
      ensures TurnIs(revents, old(pfd[..]), events, goesOn)
    {
      var early: bool := *;
      if early && pending {
        goesOn := true;
        events := Interrupt(PollCall);
        return;
      }
      ghost var start, fds := At(PollCall), pfd[..];
      ghost var asleep := Polling(fds);
      ReachesOne(start, EnterPoll);
      ghost var before := At(asleep);
      ghost var exits := OthersRun(asleep);
      ReachesThen(start, [EnterPoll], before, exits, At(asleep));
      ReachesKeepsInv(pfd.Length, start, [EnterPoll] + exits, At(asleep));
      ghost var woken, es := At(asleep), [];
      goesOn, es := Wake(revents);
      ReachesThen(start, [EnterPoll] + exits, woken, es, At(if goesOn then PollCall else Exited));
      EntersThen(revents, fds, exits, es, goesOn);
      events := [EnterPoll] + exits + es;
    }

    /** How poll() ends. */
    method Wake(revents: seq<bool>) returns (goesOn: bool, ghost events: seq<Event>)
      requires Inv(pfd.Length, At(Polling(pfd[..])))
      modifies this`children, this`pending, this`open, pfd
      ensures Reaches(old(At(Polling(pfd[..]))), events, At(if goesOn then PollCall else Exited))
      ensures Asleep(revents, old(pfd[..]), events, goesOn)
    {
      var interrupted: bool := *;
      goesOn := true;
      if interrupted && pending {
        events := Interrupt(Polling(pfd[..]));
      } else if |revents| == pfd.Length && true in revents &&
                forall j | 0 <= j < |revents| :: revents[j] ==> pfd[j] >= 0 {
        events := Return(revents);
      } else {
        ReachesOne(At(Polling(pfd[..])), PollFails);
        events := [PollFails];
        goesOn := false;
      }
    }

    method Return(revents: seq<bool>) returns (ghost events: seq<Event>)
      requires Inv(pfd.Length, At(Polling(pfd[..]))) && CanReport(revents, pfd[..])
      modifies this`children, this`pending, this`open, pfd
      ensures Reaches(old(At(Polling(pfd[..]))), events, At(PollCall))
      ensures events != [] && events[0] == PollReturns(revents) && NoPoll(events[1..])
    {
      ghost var start := At(Polling(pfd[..]));
      ReachesOne(start, PollReturns(revents));
      StepKeepsInv(pfd.Length, start, PollReturns(revents));
      ghost var before := At(Scanning(0, revents));
      ghost var es := ForEach(revents);
      ReachesThen(start, [PollReturns(revents)], before, es, At(PollCall));
      events := [PollReturns(revents)] + es;
      assert events[1..] == es;
    }

    /** main() from the sigsetjmp on.  Whatever poll() reports, however fork() and open() go, and whenever
        children exit and signals arrive, what the daemon does is a run of the protocol, made of a turn for each
        answer of poll() up to one that it cannot give. */
    method Serve(polls: seq<seq<bool>>)
      returns (ghost states: seq<State>, ghost events: seq<Event>, ghost pc: Pc, ghost turns: seq<seq<Event>>)
      requires Init(pfd.Length, At(PollCall))
      modifies this`children, this`pending, this`open, pfd
      ensures Run(pfd.Length, states, events)
      ensures states[0] == old(At(PollCall)) && states[|events|] == At(pc) && Inv(pfd.Length, At(pc))
      ensures events == Bytes.Flatten(turns) && |turns| <= |polls| && (pc == PollCall || pc == Exited)
      ensures pc == PollCall ==> |turns| == |polls|
      ensures TurnsAre(states, polls, turns, pc == PollCall) && AllLogins(states, events, polls, turns)
    {
      ghost var start := At(PollCall);
      ghost var mids := [start];
      events, pc, turns := [], PollCall, [];
      var k, goesOn := 0, true;
      while k < |polls| && goesOn
        invariant k == |turns| <= |polls| && pc == if goesOn then PollCall else Exited
        invariant events == Bytes.Flatten(turns) && Reaches(start, events, At(pc))
        invariant |mids| == k + 1 && mids[k] == At(pc)
        invariant Passes(start, polls, turns, mids, goesOn)
      {
        ghost var es, before := [], At(PollCall);
        ReachesKeepsInv(pfd.Length, start, events, before);
        goesOn, es := Poll(polls[k]);
        pc := if goesOn then PollCall else Exited;
        ReachesThen(start, events, before, es, At(pc));
        Bytes.FlattenSnoc(turns, es);
        OneMoreTurn(start, polls, turns, mids, es, At(pc), goesOn);
        events, turns, mids, k := events + es, turns + [es], mids + [At(pc)], k + 1;
      }
      states := ReachesIsRun(pfd.Length, start, events, At(pc));
      ReachesKeepsInv(pfd.Length, start, events, At(pc));
      TurnsPass(start, polls, turns, mids, goesOn, states);
      TurnsLogIn(pfd.Length, states, events, polls, turns, goesOn);
    }
  }

  /** `mids` are the states at which the turns begin. */
  ghost predicate Passes(start: State, polls: seq<seq<bool>>, turns: seq<seq<Event>>, mids: seq<State>, goesOn: bool) {
    && |mids| == |turns| + 1 && |turns| <= |polls|
    && forall j :: 0 <= j < |turns| ==>
         && Reaches(start, Bytes.Flatten(turns[..j]), mids[j]) && mids[j].pc == PollCall
         && TurnIs(polls[j], mids[j].pfd, turns[j], j < |turns| - 1 || goesOn)
  }

  lemma OneMoreTurn(start: State, polls: seq<seq<bool>>, turns: seq<seq<Event>>, mids: seq<State>, es: seq<Event>,
                    t: State, goesOn: bool)
    requires Passes(start, polls, turns, mids, true) && |turns| < |polls|
    requires Reaches(start, Bytes.Flatten(turns), mids[|turns|]) && mids[|turns|].pc == PollCall
    requires TurnIs(polls[|turns|], mids[|turns|].pfd, es, goesOn)
    ensures Passes(start, polls, turns + [es], mids + [t], goesOn)
  {
    hide Reaches, TurnIs;
    var more := turns + [es];
    forall j | 0 <= j < |more|
      ensures Reaches(start, Bytes.Flatten(more[..j]), (mids + [t])[j]) && (mids + [t])[j].pc == PollCall
      ensures TurnIs(polls[j], (mids + [t])[j].pfd, more[j], j < |more| - 1 || goesOn)
    {
      assert more[..j] == turns[..j];
      if j == |turns| {
        assert turns[..j] == turns;
      }
    }
  }

  lemma TurnsPass(start: State, polls: seq<seq<bool>>, turns: seq<seq<Event>>, mids: seq<State>, goesOn: bool,
                  states: seq<State>)
    requires Passes(start, polls, turns, mids, goesOn)
    requires |states| == |Bytes.Flatten(turns)| + 1 && states[0] == start
    requires forall k {:trigger Bytes.Flatten(turns)[k]} :: 0 <= k < |Bytes.Flatten(turns)| ==>
              Enabled(states[k], Bytes.Flatten(turns)[k]) && states[k + 1] == Next(states[k], Bytes.Flatten(turns)[k])
    ensures TurnsAre(states, polls, turns, goesOn)
  {
    hide Reaches, TurnIs, Enabled, Next;
    forall j | 0 <= j < |turns|
      ensures TurnAt(states, polls, turns, j, goesOn)
    {
      Bytes.FlattenConcat(turns[..j], turns[j..]);
      assert turns[..j] + turns[j..] == turns;
      PathPasses(start, Bytes.Flatten(turns), states, Bytes.Flatten(turns[..j]), mids[j]);
    }
  }

  lemma TurnsLogIn(n: nat, states: seq<State>, events: seq<Event>, polls: seq<seq<bool>>, turns: seq<seq<Event>>,
                   goesOn: bool)
    requires Run(n, states, events) && events == Bytes.Flatten(turns) && |turns| <= |polls|
    requires TurnsAre(states, polls, turns, goesOn) && (goesOn ==> states[|events|].pc == PollCall)
    ensures AllLogins(states, events, polls, turns)
  {
    forall j | 0 <= j < |turns|
      ensures LoginsOf(states, events, polls, turns, j)
    {
      TurnLogsIn(n, states, events, polls, turns, j, goesOn);
    }
  }

  lemma TurnLogsIn(n: nat, states: seq<State>, events: seq<Event>, polls: seq<seq<bool>>, turns: seq<seq<Event>>,
                   j: nat, goesOn: bool)
    requires Run(n, states, events) && events == Bytes.Flatten(turns) && j < |turns| <= |polls|
    requires TurnsAre(states, polls, turns, goesOn) && (goesOn ==> states[|events|].pc == PollCall)
    ensures LoginsOf(states, events, polls, turns, j)
  {
    hide Run, Forked, TurnIs, TurnsAre, LoginsAre, Bytes.Flatten;
    RunLength(n, states, events);
    TurnEnds(states, events, polls, turns, j, goesOn);
    var at := |Bytes.Flatten(turns[..j])|;
    TurnLogins(n, states, events, at, polls[j], states[at].pfd, turns[j], j < |turns| - 1 || goesOn);
  }

  /** Where turn j begins and ends. */
  lemma TurnEnds(states: seq<State>, events: seq<Event>, polls: seq<seq<bool>>, turns: seq<seq<Event>>, j: nat,
                 goesOn: bool)
    requires events == Bytes.Flatten(turns) && |states| == |events| + 1 && j < |turns| <= |polls|
    requires TurnsAre(states, polls, turns, goesOn) && (goesOn ==> states[|events|].pc == PollCall)
    ensures var at := |Bytes.Flatten(turns[..j])|;
      var end := at + |turns[j]|;
      && end <= |events| && events[at..end] == turns[j] && states[at].pc == PollCall
      && TurnIs(polls[j], states[at].pfd, turns[j], j < |turns| - 1 || goesOn)
      && (j < |turns| - 1 || goesOn ==> states[end].pc == PollCall)
  {
    hide TurnIs, Bytes.Flatten;
    TurnLies(turns, j);
    assert TurnAt(states, polls, turns, j, goesOn);
    assert j + 1 < |turns| ==> TurnAt(states, polls, turns, j + 1, goesOn);
  }

  lemma RunLength(n: nat, states: seq<State>, events: seq<Event>)
    requires Run(n, states, events)
    ensures |states| == |events| + 1
  {
  }

  lemma TurnLies<T>(turns: seq<seq<T>>, j: nat)
    requires j < |turns|
    ensures var (events, at) := (Bytes.Flatten(turns), |Bytes.Flatten(turns[..j])|);
      && at + |turns[j]| <= |events| && events[at..at + |turns[j]|] == turns[j]
      && at + |turns[j]| == |Bytes.Flatten(turns[..j + 1])|
      && (j == |turns| - 1 ==> at + |turns[j]| == |events|)
  {
    var (before, after) := (turns[..j], turns[j + 1..]);
    assert turns == (before + [turns[j]]) + after && turns[..j + 1] == before + [turns[j]];
    Bytes.FlattenSnoc(before, turns[j]);
    Bytes.FlattenConcat(before + [turns[j]], after);
  }

  /** The child's side: terminal i becomes descriptors 0, 1 and 2, and no other terminal stays open, also
      when pfd[i] or another entry is itself one of 0, 1 and 2. */
  method ExecLogin(pfd: seq<int>, i: nat, table: map<int, nat>) returns (t: map<int, nat>)
    requires i < |pfd| && pfd[i] in table
    requires forall fd :: fd in table ==> fd >= 0 && table[fd] < |pfd| && pfd[table[fd]] == fd
    requires forall j :: 0 <= j < |pfd| && pfd[j] >= 0 ==> pfd[j] in table && table[pfd[j]] == j
    ensures t == map[0 := i, 1 := i, 2 := i]
  {
    t := table;
    var fd := 0;
    while fd <= 2
      invariant 0 <= fd <= 3
      invariant pfd[i] in t && t[pfd[i]] == i
      invariant forall k :: 0 <= k < fd ==> k in t && t[k] == i
      invariant forall k :: k in t && k >= fd ==> k in table
      invariant forall k :: k in t ==> k >= 0
    {
      t := t[fd := t[pfd[i]]];
      fd := fd + 1;
    }
    var j := 0;
    while j < |pfd|
      invariant 0 <= j <= |pfd|
      invariant forall k :: 0 <= k < 3 ==> k in t && t[k] == i
      invariant forall k :: k in t && k > 2 ==> k in table && table[k] >= j
      invariant forall k :: k in t ==> k >= 0
    {
      if pfd[j] > 2 {
        t := t - {pfd[j]};
      }
      j := j + 1;
    }
    assert forall k :: k in t ==> k in {0, 1, 2};
  }
}

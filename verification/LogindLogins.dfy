/** Which logins logind's protocol forks after poll() has reported terminals. */
module LogindLogins {
  import opened LogindProtocol

  function ForkOf(s: State, e: Event): seq<nat> {
    if e.Fork? && s.pc.Forking? then [s.pc.i] else []
  }

  /** The terminals forked for between two points of a run, in order. */
  ghost function Forked(states: seq<State>, events: seq<Event>, k: nat, m: nat): seq<nat>
    requires k <= m <= |events| < |states|
    decreases m
  {
    if k == m then []
    else
      Forked(states, events, k, m - 1) + ForkOf(states[m - 1], events[m - 1])
  }

  /** SIGCHLD has been delivered between two points. */
  ghost predicate Interrupted(events: seq<Event>, k: nat, m: nat)
    requires k <= m <= |events|
    decreases m
  {
    k < m && (events[m - 1].Deliver? || Interrupted(events, k, m - 1))
  }

  ghost predicate Enters(events: seq<Event>, k: nat, m: nat)
    requires k <= m <= |events|
    decreases m
  {
    k < m && (events[m - 1].EnterPoll? || Enters(events, k, m - 1))
  }

  /** The terminals below n that poll() has reported, in ascending order. */
  function Reported(revents: seq<bool>, n: nat): seq<nat>
    requires n <= |revents|
  {
    if n == 0 then [] else Reported(revents, n - 1) + if revents[n - 1] then [n - 1] else []
  }

  lemma {:induction false} ReportedAre(revents: seq<bool>, n: nat)
    requires n <= |revents|
    ensures forall j :: j in Reported(revents, n) <==> 0 <= j < n && revents[j]
    ensures forall a, b :: 0 <= a < b < |Reported(revents, n)| ==> Reported(revents, n)[a] < Reported(revents, n)[b]
  {
    if n > 0 {
      ReportedAre(revents, n - 1);
      var init := Reported(revents, n - 1);
      assert forall a :: 0 <= a < |init| ==> init[a] in init;
    }
  }

  /** The logins are those for all that is reported, or, after SIGCHLD, for the first of it. */
  predicate AreFirst(logins: seq<nat>, all: seq<nat>, interrupted: bool) {
    logins <= all && (!interrupted ==> logins == all)
  }

  lemma {:induction false} ReportedGrows(revents: seq<bool>, n: nat, m: nat)
    requires n <= m <= |revents|
    ensures Reported(revents, n) <= Reported(revents, m)
    decreases m
  {
    if n < m {
      ReportedGrows(revents, n, m - 1);
    }
  }

  /** What has been forked for, `f`, given where the daemon is. */
  ghost predicate SoFar(pc: Pc, revents: seq<bool>, f: seq<nat>) {
    match pc
    case Scanning(i, r) => r == revents && i <= |revents| && f == Reported(revents, i)
    case Forking(i, r) => r == revents && i < |revents| && revents[i] && f == Reported(revents, i)
    case Closing(i, r, _) => r == revents && i < |revents| && f == Reported(revents, i + 1)
    case Recording(i, r, _) => r == revents && i < |revents| && f == Reported(revents, i + 1)
    case Unblocking(i, r) => r == revents && i < |revents| && f == Reported(revents, i + 1)
    case PollCall => f == Reported(revents, |revents|)
    case _ => false
  }

  ghost predicate InHandler(pc: Pc) {
    pc.Reaping? || pc.Reopening? || pc.Storing? || pc.Leaving? || pc.PollCall?
  }

  lemma SoFarIsPrefix(pc: Pc, revents: seq<bool>, f: seq<nat>)
    requires SoFar(pc, revents, f)
    ensures f <= Reported(revents, |revents|)
  {
    match pc {
      case Scanning(i, _) => ReportedGrows(revents, i, |revents|);
      case Forking(i, _) => ReportedGrows(revents, i, |revents|);
      case Closing(i, _, _) => ReportedGrows(revents, i + 1, |revents|);
      case Recording(i, _, _) => ReportedGrows(revents, i + 1, |revents|);
      case Unblocking(i, _) => ReportedGrows(revents, i + 1, |revents|);
      case _ =>
    }
  }

  lemma StepForks(n: nat, s: State, e: Event, revents: seq<bool>, f: seq<nat>)
    requires Inv(n, s) && Enabled(s, e) && !e.Deliver? && !e.EnterPoll? && |revents| == n && SoFar(s.pc, revents, f)
    ensures SoFar(Next(s, e).pc, revents, f + ForkOf(s, e))
  {
    assert f + [] == f && |s.pfd| == n;
  }

  lemma HandlerForksNothing(s: State, e: Event)
    requires InHandler(s.pc) && Enabled(s, e) && !e.EnterPoll?
    ensures InHandler(Next(s, e).pc) && ForkOf(s, e) == []
  {
  }

  /** The same also after SIGCHLD. */
  ghost predicate Holds(pc: Pc, revents: seq<bool>, f: seq<nat>, interrupted: bool) {
    if interrupted then InHandler(pc) && f <= Reported(revents, |revents|) else SoFar(pc, revents, f)
  }

  lemma StepHolds(n: nat, s: State, e: Event, revents: seq<bool>, f: seq<nat>, interrupted: bool)
    requires Inv(n, s) && Enabled(s, e) && !e.EnterPoll? && |revents| == n && Holds(s.pc, revents, f, interrupted)
    ensures Holds(Next(s, e).pc, revents, f + ForkOf(s, e), e.Deliver? || interrupted)
  {
    hide Inv, SoFar, Reported;
    if interrupted {
      HandlerForksNothing(s, e);
      assert f + [] == f;
    } else if e.Deliver? {
      SoFarIsPrefix(s.pc, revents, f);
      assert f + [] == f;
    } else {
      StepForks(n, s, e, revents, f);
    }
  }

  /** From where poll() has returned until it is entered again. */
  lemma {:induction false} LoginsSoFar(n: nat, states: seq<State>, events: seq<Event>, k: nat, m: nat,
                                       revents: seq<bool>)
    requires Run(n, states, events) && k < m <= |events| && events[k] == PollReturns(revents)
    requires !Enters(events, k + 1, m)
    ensures |revents| == n
    ensures Holds(states[m].pc, revents, Forked(states, events, k + 1, m), Interrupted(events, k + 1, m))
    decreases m
  {
    hide Inv, Holds, Enabled, Next, Init;
    var l := m - 1;
    RunKeepsInv(n, states, events, l);
    assert Enabled(states[l], events[l]) && states[m] == Next(states[l], events[l]);
    if l == k {
      Returned(n, states[k], revents);
    } else {
      LoginsSoFar(n, states, events, k, l, revents);
      StepHolds(n, states[l], events[l], revents, Forked(states, events, k + 1, l), Interrupted(events, k + 1, l));
    }
  }

  lemma Returned(n: nat, s: State, revents: seq<bool>)
    requires Inv(n, s) && Enabled(s, PollReturns(revents))
    ensures Holds(Next(s, PollReturns(revents)).pc, revents, [], false) && |revents| == n
  {
  }

  /** In every run: once poll() has reported terminals and the daemon is back at poll(), it has forked a login for
      exactly those, once each and in ascending order, unless SIGCHLD has come between; then it has done so for the
      first of them.  */
  lemma ReportedGetLogins(n: nat, states: seq<State>, events: seq<Event>, k: nat, m: nat, revents: seq<bool>)
    requires Run(n, states, events) && k < m <= |events| && events[k] == PollReturns(revents)
    requires !Enters(events, k + 1, m) && states[m].pc == PollCall
    ensures AreFirst(Forked(states, events, k + 1, m), Reported(revents, |revents|), Interrupted(events, k + 1, m))
  {
    hide Run, Forked, Interrupted, Enters, Reported;
    LoginsSoFar(n, states, events, k, m, revents);
  }

  /** Outside the for loop nothing is forked for. */
  ghost predicate Outside(pc: Pc) {
    InHandler(pc) || pc.Polling? || pc.Exited?
  }

  lemma OutsideForksNothing(s: State, e: Event)
    requires Outside(s.pc) && Enabled(s, e) && !e.PollReturns?
    ensures Outside(Next(s, e).pc) && ForkOf(s, e) == []
  {
  }

  lemma {:induction false} NoneForked(n: nat, states: seq<State>, events: seq<Event>, k: nat, m: nat)
    requires Run(n, states, events) && k <= m <= |events| && Outside(states[k].pc)
    requires forall l :: k <= l < m ==> !events[l].PollReturns?
    ensures Forked(states, events, k, m) == [] && Outside(states[m].pc)
    decreases m
  {
    hide Next, Enabled, Outside;
    if k < m {
      NoneForked(n, states, events, k, m - 1);
      assert Enabled(states[m - 1], events[m - 1]) && states[m] == Next(states[m - 1], events[m - 1]);
      OutsideForksNothing(states[m - 1], events[m - 1]);
    }
  }

  lemma NoForkAt(states: seq<State>, events: seq<Event>, k: nat, m: nat)
    requires k <= m < |events| < |states| && events[m].PollReturns? && Forked(states, events, k, m) == []
    ensures Forked(states, events, k, m + 1) == []
  {
  }

  lemma {:induction false} ForkedFrom(states: seq<State>, events: seq<Event>, k: nat, l: nat, m: nat)
    requires k <= l <= m <= |events| < |states| && Forked(states, events, k, l) == []
    ensures Forked(states, events, k, m) == Forked(states, events, l, m)
    decreases m
  {
    hide ForkOf;
    if l < m {
      ForkedFrom(states, events, k, l, m - 1);
    }
  }

  lemma {:induction false} NotEntered(events: seq<Event>, k: nat, m: nat)
    requires k <= m <= |events| && forall l :: k <= l < m ==> !events[l].EnterPoll?
    ensures !Enters(events, k, m)
    decreases m
  {
    if k < m {
      NotEntered(events, k, m - 1);
    }
  }

  lemma {:induction false} NotInterrupted(events: seq<Event>, k: nat, m: nat)
    requires k <= m <= |events| && forall l :: k <= l < m ==> !events[l].Deliver?
    ensures !Interrupted(events, k, m)
    decreases m
  {
    if k < m {
      NotInterrupted(events, k, m - 1);
    }
  }

  lemma ReportedTurn(n: nat, states: seq<State>, events: seq<Event>, at: nat, k: nat, end: nat, revents: seq<bool>)
    requires Run(n, states, events) && at <= k < end <= |events| && events[k] == PollReturns(revents)
    requires forall l :: at <= l < k ==> !events[l].PollReturns?
    requires forall l :: k < l < end ==> !events[l].EnterPoll?
    requires states[at].pc == PollCall == states[end].pc
    ensures AreFirst(Forked(states, events, at, end), Reported(revents, |revents|), Interrupted(events, k + 1, end))
  {
    hide Run, Forked, Reported, Interrupted, Enters, AreFirst;
    AfterReport(n, states, events, at, k, end);
    NotEntered(events, k + 1, end);
    ReportedGetLogins(n, states, events, k, end, revents);
  }

  lemma AfterReport(n: nat, states: seq<State>, events: seq<Event>, at: nat, k: nat, end: nat)
    requires Run(n, states, events) && at <= k < end <= |events| && events[k].PollReturns?
    requires states[at].pc == PollCall && forall l :: at <= l < k ==> !events[l].PollReturns?
    ensures Forked(states, events, at, end) == Forked(states, events, k + 1, end)
  {
    hide Forked;
    NoneForked(n, states, events, at, k);
    NoForkAt(states, events, at, k);
    ForkedFrom(states, events, at, k + 1, end);
  }

  /** A fork() that succeeds starts a living child on the terminal it is done for, and changes no other. */
  lemma ForkStartsLogin(n: nat, states: seq<State>, events: seq<Event>, k: nat)
    requires Run(n, states, events) && k < |events| && events[k].Fork?
    ensures states[k].pc.Forking?
    ensures states[k + 1].children ==
            if events[k].pid > 0 then states[k].children[events[k].pid := Child(states[k].pc.i, false)]
            else states[k].children
  {
    assert Enabled(states[k], events[k]);
  }
}

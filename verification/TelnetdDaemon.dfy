/** telnetd's list of sessions: accepting, preparing select(), and reaping. */
module TelnetdDaemon {
  import opened Bytes
  import opened Filters
  import opened Telnetd
  import opened TelnetdSession
  import opened TelnetdTurns
  import opened TelnetdVisit

  /** The child pids of a list of sessions, in order. */
  ghost function Pids(ss: seq<Session>): seq<int> {
    seq(|ss|, i requires 0 <= i < |ss| => ss[i].childPid)
  }

  ghost function Stays(gone: set<int>): Session -> bool {
    (s: Session) => s.childPid !in gone
  }

  /** The sessions whose child is not among `gone`, in their order. */
  ghost function Survivors(ss: seq<Session>, gone: set<int>): seq<Session> {
    Filter(ss, Stays(gone))
  }

  lemma SurvivorsAre(ss: seq<Session>, gone: set<int>, s: Session)
    ensures s in Survivors(ss, gone) <==> s in ss && s.childPid !in gone
  {
    FilterIn(ss, Stays(gone), s);
  }

  /** Taking the session at k out of the list leaves the others in their order. */
  lemma OneIsGone(ss: seq<Session>, k: nat)
    requires k < |ss| && forall i, j :: 0 <= i < j < |ss| ==> ss[i].childPid != ss[j].childPid
    ensures Survivors(ss, {ss[k].childPid}) == ss[..k] + ss[k + 1..]
  {
    hide Filter;
    var p, before, after := Stays({ss[k].childPid}), ss[..k], ss[k + 1..];
    assert forall i :: 0 <= i < k ==> p(before[i]);
    assert forall i :: k < i < |ss| ==> after[i - k - 1] == ss[i] && p(ss[i]);
    FilterAll(before, p);
    FilterNone([ss[k]], p);
    FilterAll(after, p);
    FilterConcat([ss[k]], after, p);
    FilterConcat(before, [ss[k]] + after, p);
    assert ss == before + ([ss[k]] + after) && [] + after == after;
  }

  /** Reaping in two rounds is reaping all at once. */
  lemma SurvivorsTwice(ss: seq<Session>, a: set<int>, b: set<int>)
    ensures Survivors(Survivors(ss, a), b) == Survivors(ss, a + b)
  {
    FilterTwice(ss, Stays(a), Stays(b), Stays(a + b));
  }

  /** Reaping one more child. */
  lemma ReapOne(start: seq<Session>, pids: seq<int>, k: nat)
    requires k < |pids| && Distinct(pids)
    ensures Survivors(Survivors(start, Set(pids[..k])), {pids[k]}) == Survivors(start, Set(pids[..k + 1]))
    ensures pids[k] in Pids(Survivors(start, Set(pids[..k]))) <==> pids[k] in Pids(start)
  {
    var gone, pid := Set(pids[..k]), pids[k];
    var left := Survivors(start, gone);
    SurvivorsTwice(start, gone, {pid});
    assert gone + {pid} == Set(pids[..k + 1]);
    InPids(left, pid);
    InPids(start, pid);
    if s :| s in left && s.childPid == pid {
      SurvivorsAre(start, gone, s);
    }
    if s :| s in start && s.childPid == pid {
      SurvivorsAre(start, gone, s);
    }
  }

  lemma InPids(ss: seq<Session>, pid: int)
    ensures pid in Pids(ss) <==> exists s :: s in ss && s.childPid == pid
  {
    assert forall i :: 0 <= i < |ss| ==> Pids(ss)[i] == ss[i].childPid && ss[i] in ss;
  }

  // ---- The entries of sessions ----

  ghost function EntryOf(s: Session): Entry
    reads s`outward, s`inward
  {
    Entry(s.childPid, s.ptyFd > 0, s.newFd >= 0, s.Values())
  }

  ghost function Entries(ss: seq<Session>): (es: seq<Entry>)
    reads ss
    ensures |es| == |ss| && EntryPids(es) == Pids(ss)
  {
    seq(|ss|, i requires 0 <= i < |ss| reads ss => EntryOf(ss[i]))
  }

  lemma EntriesConcat(xs: seq<Session>, ys: seq<Session>)
    ensures Entries(xs + ys) == Entries(xs) + Entries(ys)
  {
  }

  lemma {:induction false} SurvivorsEntries(ss: seq<Session>, gone: set<int>)
    ensures Entries(Survivors(ss, gone)) == Remaining(Entries(ss), gone)
  {
    if ss != [] {
      SurvivorsEntries(ss[1..], gone);
      assert Entries(ss)[1..] == Entries(ss[1..]);
      EntriesConcat(if ss[0].childPid in gone then [] else [ss[0]], Survivors(ss[1..], gone));
    }
  }

  // ---- The sessions created, without those reaped ----

  ghost function NotAmong(gone: set<Session>): Session -> bool {
    (s: Session) => s !in gone
  }

  ghost function Without(ss: seq<Session>, gone: set<Session>): seq<Session> {
    Filter(ss, NotAmong(gone))
  }

  ghost function Leaving(ss: seq<Session>, gone: set<int>): set<Session> {
    set s | s in ss && s.childPid in gone
  }

  lemma PidsConcat(xs: seq<Session>, ys: seq<Session>)
    ensures Pids(xs + ys) == Pids(xs) + Pids(ys)
  {
  }

  lemma SurvivorsAreWithout(ss: seq<Session>, gone: set<int>)
    ensures Survivors(ss, gone) == Without(ss, Leaving(ss, gone))
  {
    FilterSame(ss, Stays(gone), NotAmong(Leaving(ss, gone)));
  }

  /** Some are created, and then some leave. */
  lemma ComeAndGo(made: seq<Session>, gone: set<Session>, news: seq<Session>, left: set<Session>)
    requires forall s :: s in news ==> s !in gone
    ensures Without(news + Without(made, gone), left) == Without(news + made, gone + left)
  {
    FilterAll(news, NotAmong(gone));
    FilterConcat(news, made, NotAmong(gone));
    FilterTwice(news + made, NotAmong(gone), NotAmong(left), NotAmong(gone + left));
  }

  /** All but the one at k. */
  ghost function Around<T>(ss: seq<T>, k: nat): (r: seq<T>)
    requires k < |ss|
    ensures |r| == |ss| - 1 && forall i :: 0 <= i < |r| ==> r[i] == ss[if i < k then i else i + 1]
  {
    ss[..k] + ss[k + 1..]
  }

  class Daemon {
    const masterFd: int
    var gmaxFd: int
    var sessionList: Session?
    ghost var sessions: seq<Session>   // the sessions created and not yet reaped, newest first,
    ghost var created: set<Session>    // among all those ever created,
    ghost var mems: set<array<Byte>>   // and their buffers

    /** The list is null-terminated, holds each of `sessions` once and in order, and has distinct child pids;
        no descriptor exceeds gmaxFd. */
    ghost predicate Valid()
      reads this, created`next
    {
      && masterFd <= gmaxFd
      && (forall i :: 0 <= i < |sessions| ==> sessions[i] in created)
      && sessionList == At(0)
      && (forall i {:trigger sessions[i].next} :: 0 <= i < |sessions| ==> sessions[i].next == At(i + 1))
      && (forall i, j :: 0 <= i < j < |sessions| ==> sessions[i].childPid != sessions[j].childPid)
      && (forall i :: 0 <= i < |sessions| ==>
           sessions[i].childPid > 0 && sessions[i].newFd <= gmaxFd && sessions[i].ptyFd <= gmaxFd)
    }

    /** The session at a position of the list, null behind its end. */
    ghost function At(i: nat): Session?
      reads `sessions
    {
      if i < |sessions| then sessions[i] else null
    }

    constructor (masterFd: int)
      ensures Valid() && sessions == [] && created == {} && mems == {}
    {
      created, mems := {}, {};
      this.masterFd, gmaxFd, sessionList, sessions := masterFd, if masterFd > 0 then masterFd else 0, null, [];
    }

    /** A new connection; `pid` is the child forkpty() creates for it. */
    method Accept(newFd: int, ptyFd: int, pid: int) returns (tm: Session)
      requires Valid() && pid > 0 && pid !in Pids(sessions)
      modifies this
      ensures Valid() && fresh(tm) && fresh(tm.mem) && sessions == [tm] + old(sessions)
      ensures created == old(created) + {tm} && mems == old(mems) + {tm.mem}
      ensures tm.Valid() && tm.childPid == pid && tm.newFd == newFd && tm.ptyFd == ptyFd && tm.Values() == START
    {
      hide Valid, Pids, Session.Valid, Session.Values;
      Admit(newFd);
      Admit(ptyFd);
      tm := new Session(pid, newFd, ptyFd);
      Link(tm);
    }

    method Admit(fd: int)
      requires Valid()
      modifies `gmaxFd
      ensures Valid() && fd <= gmaxFd && old(gmaxFd) <= gmaxFd
    {
      if fd > gmaxFd {
        gmaxFd := fd;
      }
    }

    /** Puts a session in front of the list. */
    method Link(tm: Session)
      requires Valid() && tm !in created && tm.next == null
      requires tm.childPid > 0 && tm.childPid !in Pids(sessions) && tm.newFd <= gmaxFd && tm.ptyFd <= gmaxFd
      modifies `sessionList, `sessions, `created, `mems, tm`next
      ensures Valid() && sessions == [tm] + old(sessions)
      ensures created == old(created) + {tm} && mems == old(mems) + {tm.mem}
    {
      ghost var olds := sessions;
      assert forall i :: 0 <= i < |olds| ==> Pids(olds)[i] == olds[i].childPid;
      if sessionList != null {
        tm.next := sessionList;
        sessionList := tm;
      } else {
        sessionList := tm;
      }
      sessions, created, mems := [tm] + olds, created + {tm}, mems + {tm.mem};
      assert forall i :: 0 < i < |sessions| ==> sessions[i] == olds[i - 1];
    }

    /** Takes the session of a child out of the list; false if there is none. */
    method Unlink(pid: int) returns (found: bool)
      requires Valid()
      modifies `sessionList, `sessions, created`next
      ensures Valid() && found == (pid in Pids(old(sessions))) && (found ==> pid > 0)
      ensures sessions == Survivors(old(sessions), {pid}) && (!found ==> sessions == old(sessions))
    {
      var prev: Session? := null;
      var tm := sessionList;
      ghost var k := 0;
      while tm != null && tm.childPid != pid
        invariant k <= |sessions| && tm == At(k) && prev == (if k == 0 then null else sessions[k - 1])
        invariant forall i :: 0 <= i < k ==> sessions[i].childPid != pid
        decreases |sessions| - k
      {
        prev := tm;
        tm := tm.next;
        k := k + 1;
      }
      found := tm != null;
      if tm == null {
        FilterAll(sessions, Stays({pid}));
        assert forall i :: 0 <= i < |sessions| ==> Pids(sessions)[i] != pid;
        return;
      }
      assert Pids(sessions)[k] == pid;
      OneIsGone(sessions, k);
      Cut(prev, tm, k);
    }

    /** Links around the session at position k. */
    method Cut(prev: Session?, tm: Session, ghost k: nat)
      requires Valid() && k < |sessions| && tm == sessions[k]
      requires prev == if k == 0 then null else sessions[k - 1]
      modifies `sessionList, `sessions, created`next
      ensures Valid() && sessions == old(sessions[..k] + sessions[k + 1..])
    {
      ghost var olds := sessions;
      ghost var left := Around(olds, k);
      assert tm.next == At(k + 1);
      if prev == null {
        sessionList := sessionList.next;
      } else {
        prev.next := tm.next;
      }
      sessions := left;
    }

    /** After SIGCHLD: takes the sessions of the exited children out of the list until waitpid() has none to
        report, or reports a pid of no session; then the daemon returns.  `zombies` are the exited children in
        the order waitpid() reports them; `living` tells whether there are others when it has no more to report. */
    method Reap(zombies: seq<int>, living: bool) returns (goesOn: bool, reaped: nat)
      requires Valid() && Distinct(zombies)
      modifies `sessionList, `sessions, created`next
      ensures Valid() && reaped == FirstUnknown(Pids(old(sessions)), zombies, 0)
      ensures sessions == Survivors(old(sessions), Set(zombies[..reaped]))
      ensures goesOn <==> reaped == |zombies| && !living
    {
      ghost var start := sessions;
      reaped := 0;
      FilterAll(start, Stays({}));
      assert Set(zombies[..0]) == {};
      while true
        invariant Valid() && reaped <= |zombies|
        invariant FirstUnknown(Pids(start), zombies, reaped) == FirstUnknown(Pids(start), zombies, 0)
        invariant sessions == Survivors(start, Set(zombies[..reaped]))
        decreases |zombies| - reaped
      {
        if reaped == |zombies| {
          var pid := if living then 0 else -1;
          if pid < 0 {
            return true, reaped;
          }
          var found := Unlink(pid);
          assert !found;
          return false, reaped;
        }
        ReapOne(start, zombies, reaped);
        var found := Unlink(zombies[reaped]);
        if !found {
          return false, reaped;
        }
        reaped := reaped + 1;
      }
    }

    /** The descriptors select() is asked about are those of the listening socket and of the sessions with room
        in, or data pending in, the buffer concerned. */
    method PrepareSelect() returns (rd: set<int>, wr: set<int>)
      requires Valid()
      ensures forall fd :: fd in rd <==> fd == masterFd || exists s :: s in sessions && s.WantsRead(fd)
      ensures forall fd :: fd in wr <==> exists s :: s in sessions && s.WantsWrite(fd)
      ensures forall fd :: fd in rd || fd in wr ==> fd <= gmaxFd
    {
      rd, wr := {masterFd}, {};
      var tm := sessionList;
      ghost var k := 0;
      while tm != null
        invariant k <= |sessions| && tm == At(k)
        invariant forall fd :: fd in rd <==> fd == masterFd || exists i :: 0 <= i < k && sessions[i].WantsRead(fd)
        invariant forall fd :: fd in wr <==> exists i :: 0 <= i < k && sessions[i].WantsWrite(fd)
        decreases |sessions| - k
      {
        ghost var r0, w0 := rd, wr;
        if tm.ptyFd > 0 && tm.buff1Avail < BUFSIZE {
          rd := rd + {tm.ptyFd};
        }
        if tm.newFd >= 0 && tm.buff2Avail < BUFSIZE {
          rd := rd + {tm.newFd};
        }
        if tm.ptyFd > 0 && tm.buff2Avail - tm.buff2Written > 0 {
          wr := wr + {tm.ptyFd};
        }
        if tm.newFd >= 0 && tm.buff1Avail - tm.buff1Written > 0 {
          wr := wr + {tm.newFd};
        }
        assert forall fd :: fd in rd <==> fd in r0 || tm.WantsRead(fd);
        assert forall fd :: fd in wr <==> fd in w0 || tm.WantsWrite(fd);
        tm := tm.next;
        k := k + 1;
      }
    }

    /** Every session's buffers are intact, and as some visits to it have left them. */
    ghost predicate Intact()
      reads `sessions, `created, `mems, created, mems
    {
      AllSound(sessions, created, mems)
    }

    /** The loop that serves the sessions in turn, of which the first `news` are new.  A session for which there is
        nothing to read, or to whose pty nothing can be written, ends it, and those behind are not served. */
    method ServeAll(visits: seq<Visit>, news: nat, toybuf: array<Byte>) returns (served: nat, ghost pasts: seq<Byte>)
      requires Valid() && Separate(sessions, toybuf) && Intact()
      modifies created, mems, toybuf
      ensures Valid() && Intact() && |pasts| == |sessions|
      ensures Served(sessions, old(Views(sessions)), Padded(visits, news, |sessions|), pasts, served, Views(sessions))
    {
      hide Valid, Separate, Intact, Sound, VisitOf, Serving, Served, Views;
      ghost var ss, views, xs := sessions, Views(sessions), Padded(visits, news, |sessions|);
      var tm, go := sessionList, true;
      served, pasts := 0, seq(|ss|, i => 0);
      First(xs, pasts);
      while tm != null && go
        invariant Valid() && Intact() && served <= |ss| == |pasts| && sessions == ss && tm == At(served)
        invariant go ==> Serving(ss, views, xs, pasts, served, Views(ss))
        invariant !go ==> Served(ss, views, xs, pasts, served, Views(ss))
        decreases |ss| - served, go
      {
        ghost var past, now := 0, Views(ss);
        var next;
        SessionAt(served);
        go, next, past := ServeOne(tm, served, VisitAt(visits, news, served), toybuf);
        ServedNext(ss, views, xs, pasts, served, now, past);
        pasts := pasts[served := past];
        if go {
          tm, served := next, served + 1;
        }
      }
      if go {
        AllServed(ss, views, xs, pasts, Views(ss));
      }
    }

    lemma SessionAt(k: nat)
      requires Intact() && k < |sessions|
      ensures sessions[k] in created && sessions[k].mem in mems && sessions[k].Values() == Views(sessions)[k]
    {
    }

    lemma First(visits: seq<Visit>, pasts: seq<Byte>)
      requires Valid() && |sessions| == |visits| == |pasts|
      ensures sessionList == At(0) && Serving(sessions, Views(sessions), visits, pasts, 0, Views(sessions))
    {
    }

    /** Serving one session, and the step to the next, leaves the others as they are. */
    method ServeOne(tm: Session, ghost k: nat, v: Visit, toybuf: array<Byte>)
      returns (go: bool, next: Session?, ghost past: Byte)
      requires Valid() && Separate(sessions, toybuf) && Intact() && k < |sessions| && tm == sessions[k]
      modifies tm`buff1Avail, tm`buff1Written, tm`outward, tm`socket
      modifies tm`buff2Avail, tm`buff2Written, tm`rem, tm`inward, tm.mem, toybuf
      ensures Valid() && Intact() && next == At(k + 1)
      ensures var (a, goesOn) := VisitOf(tm, old(tm.Values()), v, past);
        Views(sessions) == old(Views(sessions))[k := a] && go == goesOn
    {
      hide Valid, Separate, Intact, Sound, SoundAs, VisitOf, Views;
      ghost var views := Views(sessions);
      AtIs(k);
      Apart(k, toybuf);
      go, past := ServeApart(tm, sessions, views, k, v, toybuf);
      next := tm.next;
      Together(views[k := VisitOf(tm, views[k], v, past).0]);
    }

    /** The sessions one by one, and apart from the one at k, ... */
    lemma Apart(k: nat, toybuf: array<Byte>)
      requires Separate(sessions, toybuf) && Intact() && k < |sessions|
      ensures toybuf.Length == BUFSIZE && forall i :: 0 <= i < |sessions| ==> sessions[i].mem != toybuf
      ensures forall i :: 0 <= i < |sessions| && i != k ==>
                sessions[i] != sessions[k] && sessions[i].mem != sessions[k].mem
      ensures forall i :: 0 <= i < |sessions| ==> sessions[i] in created && sessions[i].mem in mems
      ensures forall i :: 0 <= i < |sessions| ==> SoundAs(sessions[i], Views(sessions)[i])
      ensures sessions[k].Values() == Views(sessions)[k]
    {
    }

    /** ... and together again. */
    lemma Together(views: seq<View>)
      requires forall i :: 0 <= i < |sessions| ==> sessions[i] in created && sessions[i].mem in mems
      requires |views| == |sessions| && forall i :: 0 <= i < |sessions| ==> SoundAs(sessions[i], views[i])
      ensures Intact() && Views(sessions) == views
    {
    }

    lemma AtIs(k: nat)
      requires Valid() && k < |sessions|
      ensures sessions[k].next == At(k + 1)
    {
    }

    /** A new session shares nothing with the others. */
    method Connect(newFd: int, ptyFd: int, pid: int, toybuf: array<Byte>) returns (tm: Session)
      requires Valid() && Separate(sessions, toybuf) && Intact() && pid > 0 && pid !in Pids(sessions)
      modifies this
      ensures Valid() && Separate(sessions, toybuf) && Intact() && sessions == [tm] + old(sessions)
      ensures fresh(tm) && fresh(tm.mem) && tm.childPid == pid
      ensures created == old(created) + {tm} && mems == old(mems) + {tm.mem}
      ensures EntryOf(tm) == Entry(pid, ptyFd > 0, newFd >= 0, START)
    {
      hide Valid, Pids, Sound;
      ghost var olds := sessions;
      tm := Accept(newFd, ptyFd, pid);
      NewIsSound(tm);
      assert forall i :: 0 < i < |sessions| ==> sessions[i] == olds[i - 1];
    }

    /** Those whose children have exited leave, and the others stay as they are. */
    method Collect(zombies: seq<int>, living: bool, toybuf: array<Byte>) returns (goesOn: bool, reaped: nat)
      requires Valid() && Separate(sessions, toybuf) && Intact() && Distinct(zombies)
      modifies `sessionList, `sessions, created`next
      ensures Valid() && Separate(sessions, toybuf) && Intact()
      ensures reaped == FirstUnknown(Pids(old(sessions)), zombies, 0)
      ensures sessions == Survivors(old(sessions), Set(zombies[..reaped]))
      ensures goesOn <==> reaped == |zombies| && !living
    {
      ghost var olds := sessions;
      goesOn, reaped := Reap(zombies, living);
      SurvivorsStay(olds, Set(zombies[..reaped]), toybuf);
    }

    /** A connection, if there is one, ... */
    method Arrive(c: Option<Connection>, toybuf: array<Byte>) returns (ghost news: seq<Session>)
      requires Valid() && Separate(sessions, toybuf) && Intact()
      requires c.Some? ==> c.value.pid > 0 && c.value.pid !in Pids(sessions)
      modifies this
      ensures Valid() && Separate(sessions, toybuf) && Intact() && sessions == news + old(sessions)
      ensures Entries(news) == NewEntries(c) && Entries(sessions) == NewEntries(c) + old(Entries(sessions))
      ensures fresh(Objects(news)) && fresh(created - old(created)) && fresh(mems - old(mems))
    {
      hide Valid, Intact, Separate;
      news := [];
      if c.Some? {
        var tm := Connect(c.value.newFd, c.value.ptyFd, c.value.pid, toybuf);
        news := [tm];
      }
      EntriesConcat(news, old(sessions));
    }

    /** ... the visits, ... */
    method ServeVisits(visits: seq<Visit>, news: nat, toybuf: array<Byte>) returns (ghost pasts: seq<Byte>)
      requires Valid() && Separate(sessions, toybuf) && Intact()
      modifies created, mems, toybuf
      ensures Valid() && Intact() && |pasts| == |sessions|
      ensures Entries(sessions) == ServedRound(old(Entries(sessions)), Padded(visits, news, |sessions|), pasts)
    {
      hide Valid, Intact, Separate, Entries, Served, ServedRound;
      ghost var views, es := Views(sessions), Entries(sessions);
      EntriesAre(sessions);
      var served;
      served, pasts := ServeAll(visits, news, toybuf);
      EntriesAre(sessions);
      RoundIsServed(sessions, views, Padded(visits, news, |sessions|), pasts, served, Views(sessions));
    }

    /** ... and SIGCHLD, if it comes. */
    method Depart(exits: Option<Exits>, ghost made: seq<int>, toybuf: array<Byte>)
      returns (goesOn: bool, ghost left: set<Session>)
      requires Valid() && Separate(sessions, toybuf) && Intact()
      requires exits.Some? ==> Distinct(exits.value.zombies)
      modifies `sessionList, `sessions, created`next
      ensures Valid() && Separate(sessions, toybuf) && Intact() && sessions == Without(old(sessions), left)
      ensures AfterExits(Listing(old(Entries(sessions)), made, true), exits) == Listing(Entries(sessions), made, goesOn)
    {
      hide Valid, Intact, Separate;
      goesOn, left := true, {};
      if exits.Some? {
        ghost var olds, es := sessions, Entries(sessions);
        var reaped;
        goesOn, reaped := Collect(exits.value.zombies, exits.value.living, toybuf);
        ghost var gone := Set(exits.value.zombies[..reaped]);
        left := Leaving(olds, gone);
        SurvivorsAreWithout(olds, gone);
        assert forall i :: 0 <= i < |olds| ==> EntryOf(olds[i]) == es[i];
        assert Entries(olds) == es && EntryPids(es) == Pids(olds);
        SurvivorsEntries(olds, gone);
      } else {
        FilterAll(sessions, NotAmong({}));
      }
    }

    /** One turn of the loop: it asks select(), accepts a connection, serves the sessions, the new one with nothing
        to report of it, and reaps. */
    method TakeTurn(t: Turn, ghost made: seq<int>, toybuf: array<Byte>)
      returns (goesOn: bool, ghost news: seq<Session>, ghost left: set<Session>, ghost pasts: seq<Byte>)
      requires Valid() && Separate(sessions, toybuf) && Intact() && PlausibleTurn(Pids(sessions), t)
      modifies this, created, mems, toybuf
      ensures Valid() && Separate(sessions, toybuf) && Intact() && sessions == Without(news + old(sessions), left)
      ensures AfterTurn(Listing(old(Entries(sessions)), made, true), t, pasts) ==
              Listing(Entries(sessions), Pids(news) + made, goesOn)
      ensures fresh(Objects(news)) && fresh(created - old(created)) && fresh(mems - old(mems))
    {
      hide Valid, Intact, Separate, AfterExits, ServedRound, Padded;
      var rd, wr := PrepareSelect();
      goesOn, news, left, pasts := true, [], {}, [];
      match t
      case Timeout =>
        goesOn := false;
        NothingChanges();
      case Refused =>
        NothingChanges();
      case Turn(c, visits, exits) =>
        news := Arrive(c, toybuf);
        assert EntryPids(Entries(news)) == Pids(news);
        pasts := ServeVisits(visits, |NewEntries(c)|, toybuf);
        goesOn, left := Depart(exits, Pids(news) + made, toybuf);
    }

    lemma NothingChanges()
      ensures sessions == Without([] + sessions, {}) && Pids([]) == [] && forall made: seq<int> :: [] + made == made
    {
      FilterAll(sessions, NotAmong({}));
      assert [] + sessions == sessions;
    }

    /** The loop, until a SIGCHLD or a timeout ends it.  The list holds exactly the sessions created and not reaped
        since, newest first; which they are, what they hold and have passed on, and whether the loop goes on, follow
        from what it meets. */
    method Run(turns: seq<Turn>, toybuf: array<Byte>)
      returns (goesOn: bool, ghost made: seq<Session>, ghost gone: set<Session>, ghost pasts: seq<seq<Byte>>)
      requires Valid() && Separate(sessions, toybuf) && Intact() && sessions == [] && Plausible([], turns)
      modifies this, created, mems, toybuf
      ensures Valid() && Separate(sessions, toybuf) && Intact() && sessions == Without(made, gone)
      ensures |pasts| == |turns| && AfterTurns(turns, pasts) == Listing(Entries(sessions), Pids(made), goesOn)
    {
      hide Valid, Intact, Separate, AfterTurn, PidsAfter;
      goesOn, made, gone, pasts := true, [], {}, [];
      var k := 0;
      while k < |turns|
        invariant 0 <= k == |pasts| <= |turns| && goesOn && Valid() && Separate(sessions, toybuf) && Intact()
        invariant fresh(created - old(created)) && fresh(mems - old(mems))
        invariant sessions == Without(made, gone) && Plausible(Pids(sessions), turns[k..])
        invariant AfterTurns(turns[..k], pasts) == Listing(Entries(sessions), Pids(made), true)
      {
        ghost var news, left, past;
        ghost var l := Listing(Entries(sessions), Pids(made), true);
        ghost var before := gone;
        assert forall s :: s in before ==> allocated(s);
        goesOn, news, left, past := TakeTurn(turns[k], Pids(made), toybuf);
        PidsFollow(l, turns[k], past);
        TurnsSnoc(turns, pasts, k, past);
        assert forall s :: s in news ==> s in Objects(news);
        assert forall s :: s in news ==> s !in before;
        ComeAndGo(made, gone, news, left);
        PidsConcat(news, made);
        assert turns[k..][1..] == turns[k + 1..];
        made, gone, pasts, k := news + made, gone + left, pasts + [past], k + 1;
        if !goesOn {
          ghost var some := pasts;
          pasts := pasts + seq(|turns| - k, i => []);
          TurnsStop(turns[..k], some, turns, pasts);
          return;
        }
      }
      assert turns[..k] == turns;
    }
  }

  ghost function Objects(ss: seq<Session>): set<Session> {
    set s | s in ss
  }

  /** A session's buffers are intact, and as some visits to it have left them. */
  ghost predicate Sound(s: Session)
    reads s`buff1Avail, s`buff1Written, s`outward, s`socket, s`buff2Avail, s`buff2Written, s`inward, s.mem
  {
    s.Valid() && Reached(s.Values(), s.ptyFd > 0, s.newFd >= 0)
  }

  ghost predicate SoundAs(s: Session, v: View)
    reads s`buff1Avail, s`buff1Written, s`outward, s`socket, s`buff2Avail, s`buff2Written, s`inward, s.mem
  {
    Sound(s) && s.Values() == v
  }

  ghost predicate AllSound(ss: seq<Session>, created: set<Session>, mems: set<array<Byte>>)
    reads created, mems
  {
    forall i :: 0 <= i < |ss| ==> ss[i] in created && ss[i].mem in mems && Sound(ss[i])
  }

  method ServeApart(tm: Session, ghost ss: seq<Session>, ghost views: seq<View>, ghost k: nat,
                    v: Visit, toybuf: array<Byte>)
    returns (go: bool, ghost past: Byte)
    requires k < |ss| == |views| && tm == ss[k] && toybuf.Length == BUFSIZE
    requires forall i :: 0 <= i < |ss| ==> SoundAs(ss[i], views[i]) && ss[i].mem != toybuf
    requires forall i :: 0 <= i < |ss| && i != k ==> ss[i] != tm && ss[i].mem != tm.mem
    modifies tm`buff1Avail, tm`buff1Written, tm`outward, tm`socket
    modifies tm`buff2Avail, tm`buff2Written, tm`rem, tm`inward, tm.mem, toybuf
    ensures var (a, goesOn) := VisitOf(tm, views[k], v, past);
      && (forall i :: 0 <= i < |ss| ==> SoundAs(ss[i], views[k := a][i]))
      && tm.Values() == a && go == goesOn
  {
    hide Sound, VisitOf;
    assert SoundAs(ss[k], views[k]);
    go, past := ServeSound(tm, v, toybuf);
  }

  lemma NewIsSound(tm: Session)
    requires tm.Valid() && tm.Values() == START
    ensures Sound(tm)
  {
    StartIsReached(tm.ptyFd > 0, tm.newFd >= 0);
  }

  method ServeSound(tm: Session, v: Visit, toybuf: array<Byte>) returns (go: bool, ghost past: Byte)
    requires Sound(tm) && toybuf.Length == BUFSIZE && toybuf != tm.mem
    modifies tm`buff1Avail, tm`buff1Written, tm`outward, tm`socket
    modifies tm`buff2Avail, tm`buff2Written, tm`rem, tm`inward, tm.mem, toybuf
    ensures Sound(tm) && (tm.Values(), go) == VisitOf(tm, old(tm.Values()), v, past)
  {
    hide Visited, Reached;
    go, past := tm.Serve(v, toybuf);
    VisitReaches(old(tm.Values()), v, past, tm.ptyFd > 0, tm.newFd >= 0);
  }

  ghost function Views(ss: seq<Session>): (vs: seq<View>)
    reads ss
    ensures |vs| == |ss|
  {
    seq(|ss|, i requires 0 <= i < |ss| reads ss => ss[i].Values())
  }

  ghost function VisitOf(s: Session, v: View, x: Visit, past: Byte): (View, bool) {
    Visited(v, x, past, s.ptyFd > 0, s.newFd >= 0)
  }

  /** In a round that visits the sessions with values vs in turn, the first n visits have gone on, and `now` are the
      values after them, ... */
  ghost predicate Serving(ss: seq<Session>, vs: seq<View>, xs: seq<Visit>, pasts: seq<Byte>, n: nat, now: seq<View>)
    requires |vs| == |ss| == |xs| == |pasts|
  {
    && n <= |ss| == |now|
    && (forall i :: 0 <= i < n ==> VisitOf(ss[i], vs[i], xs[i], pasts[i]) == (now[i], true))
    && (forall i :: n <= i < |ss| ==> now[i] == vs[i])
  }

  /** ... or the one after them has not, and has ended the round. */
  ghost predicate Served(ss: seq<Session>, vs: seq<View>, xs: seq<Visit>, pasts: seq<Byte>, n: nat, now: seq<View>)
    requires |vs| == |ss| == |xs| == |pasts|
  {
    if n < |ss| == |now| then
      VisitOf(ss[n], vs[n], xs[n], pasts[n]) == (now[n], false) && Serving(ss, vs, xs, pasts, n, now[n := vs[n]])
    else Serving(ss, vs, xs, pasts, n, now)
  }

  ghost function EntriesWith(ss: seq<Session>, vs: seq<View>): seq<Entry>
    requires |vs| == |ss|
  {
    seq(|ss|, i requires 0 <= i < |ss| => Entry(ss[i].childPid, ss[i].ptyFd > 0, ss[i].newFd >= 0, vs[i]))
  }

  lemma EntriesAre(ss: seq<Session>)
    ensures Entries(ss) == EntriesWith(ss, Views(ss))
  {
  }

  /** The round told session by session is the round told from the front. */
  lemma RoundIsServed(ss: seq<Session>, vs: seq<View>, xs: seq<Visit>, pasts: seq<Byte>, n: nat, now: seq<View>)
    requires |vs| == |ss| == |xs| == |pasts| == |now| && Served(ss, vs, xs, pasts, n, now)
    ensures ServedRound(EntriesWith(ss, vs), xs, pasts) == EntriesWith(ss, now)
  {
    RoundFrom(ss, vs, xs, pasts, n, now, 0);
    assert EntriesWith(ss, vs)[0..] == EntriesWith(ss, vs) && xs[0..] == xs && pasts[0..] == pasts;
    assert EntriesWith(ss, now)[0..] == EntriesWith(ss, now);
  }

  lemma {:induction false} RoundFrom(ss: seq<Session>, vs: seq<View>, xs: seq<Visit>, pasts: seq<Byte>, n: nat,
                                     now: seq<View>, k: nat)
    requires |vs| == |ss| == |xs| == |pasts| == |now| && Served(ss, vs, xs, pasts, n, now) && k <= |ss| && k <= n
    ensures ServedRound(EntriesWith(ss, vs)[k..], xs[k..], pasts[k..]) == EntriesWith(ss, now)[k..]
    decreases |ss| - k
  {
    var es, after := EntriesWith(ss, vs), EntriesWith(ss, now);
    if k < |ss| {
      assert es[k..][1..] == es[k + 1..] && xs[k..][1..] == xs[k + 1..] && pasts[k..][1..] == pasts[k + 1..];
      assert after[k..] == [after[k]] + after[k + 1..];
      if k < n {
        assert VisitOf(ss[k], vs[k], xs[k], pasts[k]) == (now[k], true);
        RoundFrom(ss, vs, xs, pasts, n, now, k + 1);
      } else {
        assert es[k + 1..] == after[k + 1..];
      }
    }
  }

  lemma AllServed(ss: seq<Session>, vs: seq<View>, xs: seq<Visit>, pasts: seq<Byte>, now: seq<View>)
    requires |vs| == |ss| == |xs| == |pasts| && Serving(ss, vs, xs, pasts, |ss|, now)
    ensures Served(ss, vs, xs, pasts, |ss|, now)
  {
  }

  lemma ServedNext(ss: seq<Session>, vs: seq<View>, xs: seq<Visit>, pasts: seq<Byte>, n: nat,
                   now: seq<View>, past: Byte)
    requires |vs| == |ss| == |xs| == |pasts| && n < |ss| && Serving(ss, vs, xs, pasts, n, now)
    ensures now[n] == vs[n]
    ensures var (a, go) := VisitOf(ss[n], now[n], xs[n], past);
      if go then Serving(ss, vs, xs, pasts[n := past], n + 1, now[n := a])
      else Served(ss, vs, xs, pasts[n := past], n, now[n := a])
  {
    var (a, go) := VisitOf(ss[n], now[n], xs[n], past);
    assert now[n := a][n := vs[n]] == now;
  }

  /** No two sessions share memory, nor does one use the scratch buffer. */
  ghost predicate Separate(ss: seq<Session>, toybuf: array<Byte>) {
    && toybuf.Length == BUFSIZE
    && (forall i :: 0 <= i < |ss| ==> ss[i].mem != toybuf)
    && (forall i, j :: 0 <= i < j < |ss| ==> ss[i] != ss[j] && ss[i].mem != ss[j].mem)
  }

  lemma {:induction false} SurvivorsStay(ss: seq<Session>, gone: set<int>, toybuf: array<Byte>)
    requires Separate(ss, toybuf)
    ensures Separate(Survivors(ss, gone), toybuf)
    ensures forall i :: 0 <= i < |Survivors(ss, gone)| ==> Survivors(ss, gone)[i] in ss
  {
    if ss != [] {
      SurvivorsStay(ss[1..], gone, toybuf);
      var left, rest := Survivors(ss, gone), Survivors(ss[1..], gone);
      forall i | 0 <= i < |rest|
        ensures rest[i] in ss && rest[i] != ss[0] && rest[i].mem != ss[0].mem
      {
        var j :| 0 <= j < |ss[1..]| && ss[1..][j] == rest[i];
        assert ss[j + 1] == rest[i];
      }
      assert ss[0].childPid !in gone ==> left == [ss[0]] + rest;
    }
  }
}

/** telnetd's loop over turns of select(), as a function of values: the list of sessions by their children's pids and
    their data. */
module TelnetdTurns {
  import opened Bytes
  import opened Filters
  import opened TelnetdVisit

  datatype Connection = Connection(newFd: int, ptyFd: int, pid: int)

  /** What waitpid() reports after SIGCHLD: the exited children in order, and whether others are living. */
  datatype Exits = Exits(zombies: seq<int>, living: bool)

  /** What one turn of the loop meets: select() times out; accept() fails; or there may be a connection, visits to
      the sessions in the list before it, and SIGCHLD. */
  datatype Turn = Timeout | Refused | Turn(connection: Option<Connection>, visits: seq<Visit>, exits: Option<Exits>)

  /** What there is to know of a session: its child, whether it has a pty and a socket, and its data. */
  datatype Entry = Entry(pid: int, pty: bool, sock: bool, view: View)

  /** The sessions in the list and the pids of all that were created, newest first, and whether the loop goes on. */
  datatype Listing = Listing(entries: seq<Entry>, made: seq<int>, goesOn: bool)

  const NOLISTING := Listing([], [], true)

  /** The position from k on of the first pid of no session. */
  ghost function FirstUnknown(known: seq<int>, pids: seq<int>, k: nat): (r: nat)
    requires k <= |pids|
    ensures k <= r <= |pids| && (r < |pids| ==> pids[r] !in known) && forall i :: k <= i < r ==> pids[i] in known
    decreases |pids| - k
  {
    if k < |pids| && pids[k] in known then FirstUnknown(known, pids, k + 1) else k
  }

  ghost predicate Distinct(pids: seq<int>) {
    forall i, j :: 0 <= i < j < |pids| ==> pids[i] != pids[j]
  }

  ghost function Set(pids: seq<int>): set<int> {
    set pid | pid in pids
  }

  const IDLE := Visit(None, 0, None, Failed, None, None)

  /** Nothing is reported of the new sessions. */
  function VisitAt(visits: seq<Visit>, news: nat, i: nat): Visit {
    if news <= i < news + |visits| then visits[i - news] else IDLE
  }

  ghost function Padded(visits: seq<Visit>, news: nat, n: nat): (xs: seq<Visit>)
    ensures |xs| == n
  {
    seq(n, i requires 0 <= i < n => VisitAt(visits, news, i))
  }

  function NewEntries(c: Option<Connection>): seq<Entry> {
    if c.Some? then [Entry(c.value.pid, c.value.ptyFd > 0, c.value.newFd >= 0, START)] else []
  }

  function EntryPids(es: seq<Entry>): seq<int> {
    seq(|es|, i requires 0 <= i < |es| => es[i].pid)
  }

  /** The entries without those of some pids, ... */
  ghost function Remaining(es: seq<Entry>, gone: set<int>): seq<Entry> {
    Filter(es, (e: Entry) => e.pid !in gone)
  }

  /** ... and pids without some. */
  ghost function RemainingPids(pids: seq<int>, gone: set<int>): seq<int> {
    Filter(pids, pid => pid !in gone)
  }

  /** A visit to each, until one ends the round. */
  function ServedRound(es: seq<Entry>, xs: seq<Visit>, pasts: seq<Byte>): seq<Entry>
    requires |es| == |xs| == |pasts|
  {
    if es == [] then []
    else
      var (v, go) := Visited(es[0].view, xs[0], pasts[0], es[0].pty, es[0].sock);
      [es[0].(view := v)] + if go then ServedRound(es[1..], xs[1..], pasts[1..]) else es[1..]
  }

  ghost function AfterExits(l: Listing, exits: Option<Exits>): Listing {
    if exits.None? then l
    else
      var zombies, reaped := exits.value.zombies, FirstUnknown(EntryPids(l.entries), exits.value.zombies, 0);
      Listing(Remaining(l.entries, Set(zombies[..reaped])), l.made, reaped == |zombies| && !exits.value.living)
  }

  /** `pasts` are the bytes behind the chunks that are decoded, which handle_iacs looks at. */
  ghost function AfterTurn(l: Listing, t: Turn, pasts: seq<Byte>): Listing {
    match t
    case Timeout => l.(goesOn := false)
    case Refused => l
    case Turn(c, visits, exits) =>
      var all := NewEntries(c) + l.entries;
      var served := ServedRound(all, Padded(visits, |NewEntries(c)|, |all|), Exactly(pasts, |all|));
      AfterExits(Listing(served, EntryPids(NewEntries(c)) + l.made, true), exits)
  }

  ghost function Exactly(pasts: seq<Byte>, n: nat): (r: seq<Byte>)
    ensures |r| == n && (|pasts| == n ==> r == pasts)
  {
    seq(n, i requires 0 <= i < n => if i < |pasts| then pasts[i] else 0)
  }

  ghost function AfterTurns(ts: seq<Turn>, pasts: seq<seq<Byte>>): Listing
    requires |pasts| == |ts|
  {
    if ts == [] then NOLISTING
    else
      var l := AfterTurns(Init(ts), Init(pasts));
      if l.goesOn then AfterTurn(l, Last(ts), Last(pasts)) else l
  }

  /** A new child's pid is positive and none of a child that has not been reaped, and waitpid() reports each exited
      child once. */
  ghost predicate PlausibleTurn(pids: seq<int>, t: Turn) {
    t.Turn? ==>
      && (t.connection.Some? ==> t.connection.value.pid > 0 && t.connection.value.pid !in pids)
      && (t.exits.Some? ==> Distinct(t.exits.value.zombies))
  }

  /** The pids in the list, which no visit changes. */
  ghost function PidsAfter(pids: seq<int>, t: Turn): seq<int> {
    if !t.Turn? then pids
    else
      var all := EntryPids(NewEntries(t.connection)) + pids;
      if t.exits.None? then all
      else RemainingPids(all, Set(t.exits.value.zombies[..FirstUnknown(all, t.exits.value.zombies, 0)]))
  }

  /** Whether the loop goes on after a turn. */
  ghost predicate GoesOnAfter(pids: seq<int>, t: Turn) {
    match t
    case Timeout => false
    case Refused => true
    case Turn(c, _, exits) =>
      exits.Some? ==>
        var zombies := exits.value.zombies;
        FirstUnknown(EntryPids(NewEntries(c)) + pids, zombies, 0) == |zombies| && !exits.value.living
  }

  /** Turns that may be met with some pids in the list. */
  ghost predicate Plausible(pids: seq<int>, ts: seq<Turn>)
    decreases ts
  {
    ts == [] || (PlausibleTurn(pids, ts[0]) && Plausible(PidsAfter(pids, ts[0]), ts[1..]))
  }

  lemma TurnsSnoc(ts: seq<Turn>, pasts: seq<seq<Byte>>, k: nat, past: seq<Byte>)
    requires k == |pasts| < |ts| && AfterTurns(ts[..k], pasts).goesOn
    ensures AfterTurns(ts[..k + 1], pasts + [past]) == AfterTurn(AfterTurns(ts[..k], pasts), ts[k], past)
  {
    assert Init(ts[..k + 1]) == ts[..k] && Init(pasts + [past]) == pasts;
  }

  lemma {:induction false} TurnsStop(some: seq<Turn>, ps: seq<seq<Byte>>, ts: seq<Turn>, pasts: seq<seq<Byte>>)
    requires |ps| == |some| && |pasts| == |ts| && some <= ts && ps <= pasts && !AfterTurns(some, ps).goesOn
    ensures AfterTurns(ts, pasts) == AfterTurns(some, ps)
  {
    if |some| < |ts| {
      TurnsStop(some, ps, Init(ts), Init(pasts));
    } else {
      assert some == ts && ps == pasts;
    }
  }

  lemma {:induction false} RemainingOf(es: seq<Entry>, gone: set<int>)
    ensures EntryPids(Remaining(es, gone)) == RemainingPids(EntryPids(es), gone)
  {
    if es != [] {
      RemainingOf(es[1..], gone);
      assert EntryPids(es)[1..] == EntryPids(es[1..]);
    }
  }

  lemma {:induction false} RoundKeepsPids(es: seq<Entry>, xs: seq<Visit>, pasts: seq<Byte>)
    requires |es| == |xs| == |pasts|
    ensures EntryPids(ServedRound(es, xs, pasts)) == EntryPids(es)
  {
    if es != [] {
      RoundKeepsPids(es[1..], xs[1..], pasts[1..]);
      assert EntryPids(es) == [es[0].pid] + EntryPids(es[1..]);
    }
  }

  /** The pids in the list, and whether the loop goes on, follow from what the turns meet, whatever the sessions
      carry. */
  lemma PidsFollow(l: Listing, t: Turn, pasts: seq<Byte>)
    ensures EntryPids(AfterTurn(l, t, pasts).entries) == PidsAfter(EntryPids(l.entries), t)
    ensures l.goesOn ==> (AfterTurn(l, t, pasts).goesOn <==> GoesOnAfter(EntryPids(l.entries), t))
  {
    hide ServedRound, Remaining, RemainingPids, Padded, Exactly, FirstUnknown;
    if t.Turn? {
      var news := NewEntries(t.connection);
      var all := news + l.entries;
      var xs, ps := Padded(t.visits, |news|, |all|), Exactly(pasts, |all|);
      RoundKeepsPids(all, xs, ps);
      assert EntryPids(all) == EntryPids(news) + EntryPids(l.entries);
      if t.exits.Some? {
        var zombies := t.exits.value.zombies;
        RemainingOf(ServedRound(all, xs, ps), Set(zombies[..FirstUnknown(EntryPids(all), zombies, 0)]));
      }
    }
  }

  /** As waitpid() answers 0 while a child is living, and no session has pid 0, the daemon goes on after SIGCHLD
      exactly if all the children have exited, each of them a session's; its list is empty then. */
  lemma OutlivesOnlyAllItsChildren(l: Listing, zombies: seq<int>, living: set<int>)
    requires forall pid :: pid in EntryPids(l.entries) ==> pid in living || pid in zombies
    ensures var after := AfterExits(l, Some(Exits(zombies, living != {})));
      && (after.goesOn <==> living == {} && forall pid :: pid in zombies ==> pid in EntryPids(l.entries))
      && (after.goesOn ==> after.entries == [])
  {
    var pids := EntryPids(l.entries);
    var reaped := FirstUnknown(pids, zombies, 0);
    if living == {} {
      if reaped == |zombies| {
        assert zombies[..reaped] == zombies;
        forall e | e in l.entries
          ensures e.pid in Set(zombies)
        {
          assert e.pid in EntryPids(l.entries) by {
            var k :| 0 <= k < |l.entries| && l.entries[k] == e;
            assert EntryPids(l.entries)[k] == e.pid;
          }
        }
        FilterNone(l.entries, (e: Entry) => e.pid !in Set(zombies));
        assert forall i :: 0 <= i < |zombies| ==> zombies[i] in pids;
      } else {
        var pid := zombies[reaped];
        assert pid in zombies && pid !in pids;
      }
    }
  }

  /** Two connections, and the exit of the first one's child while the other's is living, end the daemon with a
      session left. */
  lemma OneExitEndsAll(first: Connection, second: Connection, pasts: seq<seq<Byte>>)
    requires |pasts| == 3 && first.pid > 0 && second.pid > 0 && first.pid != second.pid
    ensures var ts := [Turn(Some(first), [], None), Turn(Some(second), [], None),
                       Turn(None, [], Some(Exits([first.pid], true)))];
      && Plausible([], ts)
      && !AfterTurns(ts, pasts).goesOn && EntryPids(AfterTurns(ts, pasts).entries) == [second.pid]
  {
    hide AfterTurn, PidsAfter, GoesOnAfter, FirstUnknown, Remaining, RemainingPids;
    var a, b := first.pid, second.pid;
    var t, u, w := Turn(Some(first), [], None), Turn(Some(second), [], None), Turn(None, [], Some(Exits([a], true)));
    var ts := [t, u, w];
    PidsStep(a, b, first, second);
    assert ts[1..] == [u, w] && [u, w][1..] == [w] && [w][1..] == [];
    assert Plausible([b, a], [w]) && Plausible([a], [u, w]);
    assert EntryPids(NOLISTING.entries) == [];
    assert ts[..0] == [] && ts[..1] == [t] && ts[..2] == [t, u] && ts[..3] == ts;
    assert pasts[..0] == [] && pasts[..1] == pasts[..0] + [pasts[0]];
    assert pasts[..2] == pasts[..1] + [pasts[1]] && pasts == pasts[..2] + [pasts[2]];
    var l := AfterTurns(ts[..1], pasts[..1]);
    var m := AfterTurns(ts[..2], pasts[..2]);
    PidsFollow(NOLISTING, t, pasts[0]);
    TurnsSnoc(ts, pasts[..0], 0, pasts[0]);
    PidsFollow(l, u, pasts[1]);
    TurnsSnoc(ts, pasts[..1], 1, pasts[1]);
    PidsFollow(m, w, pasts[2]);
    TurnsSnoc(ts, pasts[..2], 2, pasts[2]);
  }

  lemma PidsStep(a: int, b: int, first: Connection, second: Connection)
    requires a != b && first.pid == a && second.pid == b
    ensures PidsAfter([], Turn(Some(first), [], None)) == [a] && GoesOnAfter([], Turn(Some(first), [], None))
    ensures PidsAfter([a], Turn(Some(second), [], None)) == [b, a] && GoesOnAfter([a], Turn(Some(second), [], None))
    ensures var exit := Turn(None, [], Some(Exits([a], true)));
      PidsAfter([b, a], exit) == [b] && !GoesOnAfter([b, a], exit)
  {
    var pids := [b, a];
    assert [] + pids == pids && [a][..1] == [a] && a in Set([a]) && b !in Set([a]);
    assert FirstUnknown(pids, [a], 0) == FirstUnknown(pids, [a], 1) == 1;
    assert pids[1..] == [a] && [a][1..] == [];
    assert RemainingPids(pids, Set([a])) == [b] + RemainingPids([a], Set([a]));
    assert RemainingPids([a], Set([a])) == [] + RemainingPids([], Set([a]));
  }

  // ---- Whose visit is whose ----

  /** The visit to entry i goes on. */
  ghost predicate Continues(es: seq<Entry>, xs: seq<Visit>, pasts: seq<Byte>, i: nat)
    requires |es| == |xs| == |pasts| && i < |es|
  {
    Visited(es[i].view, xs[i], pasts[i], es[i].pty, es[i].sock).1
  }

  /** So do those to the first n. */
  ghost predicate GoOn(es: seq<Entry>, xs: seq<Visit>, pasts: seq<Byte>, n: nat)
    requires |es| == |xs| == |pasts| && n <= |es|
  {
    forall i :: 0 <= i < n ==> Continues(es, xs, pasts, i)
  }

  /** Entry i after its visit. */
  ghost function EntryAfter(es: seq<Entry>, xs: seq<Visit>, pasts: seq<Byte>, i: nat): Entry
    requires |es| == |xs| == |pasts| && i < |es|
  {
    es[i].(view := Visited(es[i].view, xs[i], pasts[i], es[i].pty, es[i].sock).0)
  }

  lemma LaterIs(es: seq<Entry>, xs: seq<Visit>, pasts: seq<Byte>, i: nat)
    requires |es| == |xs| == |pasts| && 0 < i < |es|
    ensures Continues(es[1..], xs[1..], pasts[1..], i - 1) <==> Continues(es, xs, pasts, i)
    ensures EntryAfter(es[1..], xs[1..], pasts[1..], i - 1) == EntryAfter(es, xs, pasts, i)
  {
    hide Visited;
  }

  lemma RestGoesOn(es: seq<Entry>, xs: seq<Visit>, pasts: seq<Byte>, n: nat)
    requires |es| == |xs| == |pasts| && 0 < n <= |es| && GoOn(es, xs, pasts, n)
    ensures GoOn(es[1..], xs[1..], pasts[1..], n - 1)
  {
    hide Continues;
    forall i | 0 <= i < n - 1
      ensures Continues(es[1..], xs[1..], pasts[1..], i)
    {
      LaterIs(es, xs, pasts, i + 1);
    }
  }

  /** The first visit of a round. */
  lemma RoundFirst(es: seq<Entry>, xs: seq<Visit>, pasts: seq<Byte>)
    requires |es| == |xs| == |pasts| && es != []
    ensures ServedRound(es, xs, pasts) == [EntryAfter(es, xs, pasts, 0)] +
            if Continues(es, xs, pasts, 0) then ServedRound(es[1..], xs[1..], pasts[1..]) else es[1..]
  {
    hide Visited;
  }

  lemma {:induction false} RoundAt(es: seq<Entry>, xs: seq<Visit>, pasts: seq<Byte>, n: nat)
    requires |es| == |xs| == |pasts| && n < |es| && GoOn(es, xs, pasts, n)
    ensures |ServedRound(es, xs, pasts)| == |es| && ServedRound(es, xs, pasts)[n] == EntryAfter(es, xs, pasts, n)
    ensures !Continues(es, xs, pasts, n) ==> ServedRound(es, xs, pasts)[n + 1..] == es[n + 1..]
  {
    hide ServedRound, Continues, EntryAfter;
    RoundFirst(es, xs, pasts);
    RoundKeepsPids(es, xs, pasts);
    assert |EntryPids(es)| == |es| && |EntryPids(ServedRound(es, xs, pasts))| == |ServedRound(es, xs, pasts)|;
    if n > 0 {
      assert Continues(es, xs, pasts, 0);
      RestGoesOn(es, xs, pasts, n);
      LaterIs(es, xs, pasts, n);
      RoundAt(es[1..], xs[1..], pasts[1..], n - 1);
      assert es[1..][n..] == es[n + 1..];
    }
  }

  lemma NewIsIdle(past: Byte, pty: bool, sock: bool)
    ensures Visited(START, IDLE, past, pty, sock) == (START, true)
  {
  }

  lemma TurnIsRound(l: Listing, c: Option<Connection>, visits: seq<Visit>, pasts: seq<Byte>)
    requires |pasts| == |NewEntries(c) + l.entries|
    ensures var all := NewEntries(c) + l.entries;
      AfterTurn(l, Turn(c, visits, None), pasts).entries ==
      ServedRound(all, Padded(visits, |NewEntries(c)|, |all|), pasts)
  {
  }

  /** In a turn without SIGCHLD, the k-th session of the list gets the k-th visit, if those before it go on; if this one
      does not, the sessions behind keep their data, whatever is reported of them.  A new session stands in front and
      keeps having no data. */
  lemma VisitsGoRound(l: Listing, c: Option<Connection>, visits: seq<Visit>, pasts: seq<Byte>, k: nat)
    requires k < |l.entries| && |visits| == |l.entries| && |pasts| == |NewEntries(c)| + |l.entries|
    requires GoOn(l.entries, visits, pasts[|NewEntries(c)|..], k)
    ensures var (after, n) := (AfterTurn(l, Turn(c, visits, None), pasts).entries, |NewEntries(c)|);
      && |after| == n + |l.entries| && (c.Some? ==> after[0] == NewEntries(c)[0])
      && after[n + k] == EntryAfter(l.entries, visits, pasts[n..], k)
      && (!Continues(l.entries, visits, pasts[n..], k) ==> after[n + k + 1..] == l.entries[k + 1..])
  {
    hide AfterTurn, ServedRound, NewEntries, Padded, Continues, EntryAfter;
    var (news, n) := (NewEntries(c), |NewEntries(c)|);
    var all := news + l.entries;
    var xs := Padded(visits, n, |all|);
    TurnIsRound(l, c, visits, pasts);
    NewsGoOn(c, l.entries, visits, pasts);
    OldGoOn(news, l.entries, visits, pasts, k);
    if c.Some? {
      RoundAt(all, xs, pasts, 0);
    }
    RoundAt(all, xs, pasts, n + k);
    OldIs(news, l.entries, visits, pasts, k);
    assert all[n + k + 1..] == l.entries[k + 1..];
  }

  lemma NewsGoOn(c: Option<Connection>, es: seq<Entry>, visits: seq<Visit>, pasts: seq<Byte>)
    requires |pasts| == |NewEntries(c)| + |es|
    ensures var (all, n) := (NewEntries(c) + es, |NewEntries(c)|);
      var xs := Padded(visits, n, |all|);
      && n == (if c.Some? then 1 else 0) && GoOn(all, xs, pasts, n)
      && (c.Some? ==> EntryAfter(all, xs, pasts, 0) == NewEntries(c)[0])
  {
    if c.Some? {
      var e := NewEntries(c)[0];
      NewIsIdle(pasts[0], e.pty, e.sock);
    }
  }

  /** The i-th of the old entries. */
  lemma OldIs(news: seq<Entry>, es: seq<Entry>, visits: seq<Visit>, pasts: seq<Byte>, i: nat)
    requires i < |es| == |visits| && |pasts| == |news| + |es|
    ensures var (all, n) := (news + es, |news|);
      var xs := Padded(visits, n, |all|);
      && (Continues(all, xs, pasts, n + i) <==> Continues(es, visits, pasts[n..], i))
      && EntryAfter(all, xs, pasts, n + i) == EntryAfter(es, visits, pasts[n..], i)
  {
    hide Visited;
    assert (news + es)[|news| + i] == es[i] && pasts[|news|..][i] == pasts[|news| + i];
  }

  lemma OldGoOn(news: seq<Entry>, es: seq<Entry>, visits: seq<Visit>, pasts: seq<Byte>, k: nat)
    requires k < |es| == |visits| && |pasts| == |news| + |es| && GoOn(es, visits, pasts[|news|..], k)
    requires GoOn(news + es, Padded(visits, |news|, |news + es|), pasts, |news|)
    ensures GoOn(news + es, Padded(visits, |news|, |news + es|), pasts, |news| + k)
  {
    hide Continues;
    var (all, n) := (news + es, |news|);
    var xs := Padded(visits, n, |all|);
    forall i | 0 <= i < n + k
      ensures Continues(all, xs, pasts, i)
    {
      if i >= n {
        OldIs(news, es, visits, pasts, i - n);
      }
    }
  }

  // ---- When the loop ends ----

  /** No timeout; and after SIGCHLD no child is living, and each that has exited was a session's. */
  ghost predicate Survives(l: Listing, t: Turn) {
    && t != Timeout
    && (t.Turn? && t.exits.Some? ==>
          && !t.exits.value.living
          && forall pid :: pid in t.exits.value.zombies ==>
               exists e :: e in NewEntries(t.connection) + l.entries && e.pid == pid)
  }

  lemma TurnSurvived(l: Listing, t: Turn, pasts: seq<Byte>)
    requires l.goesOn
    ensures AfterTurn(l, t, pasts).goesOn <==> Survives(l, t)
  {
    hide AfterTurn, FirstUnknown;
    PidsFollow(l, t, pasts);
    if t.Turn? && t.exits.Some? {
      var all, zombies := NewEntries(t.connection) + l.entries, t.exits.value.zombies;
      var pids := EntryPids(all);
      assert pids == EntryPids(NewEntries(t.connection)) + EntryPids(l.entries);
      var k := FirstUnknown(pids, zombies, 0);
      PidsAreEntries(all);
      if k < |zombies| {
        assert zombies[k] in zombies && !exists e :: e in all && e.pid == zombies[k];
      } else {
        forall pid | pid in zombies
          ensures exists e :: e in all && e.pid == pid
        {
          assert pid in pids;
        }
      }
    }
  }

  lemma PidsAreEntries(es: seq<Entry>)
    ensures forall pid :: pid in EntryPids(es) <==> exists e :: e in es && e.pid == pid
  {
    forall pid | pid in EntryPids(es)
      ensures exists e :: e in es && e.pid == pid
    {
      var k :| 0 <= k < |es| && EntryPids(es)[k] == pid;
      assert es[k] in es && es[k].pid == pid;
    }
    forall e | e in es
      ensures e.pid in EntryPids(es)
    {
      var k :| 0 <= k < |es| && es[k] == e;
      assert EntryPids(es)[k] == e.pid;
    }
  }

  /** Over any turns, the loop goes on exactly if it has survived each of them; a connection refused is survived. */
  lemma {:induction false} GoesOnExactly(ts: seq<Turn>, pasts: seq<seq<Byte>>)
    requires |pasts| == |ts|
    ensures AfterTurns(ts, pasts).goesOn <==>
      forall k :: 0 <= k < |ts| ==> Survives(AfterTurns(ts[..k], pasts[..k]), ts[k])
  {
    hide AfterTurn, Survives;
    if ts != [] {
      var some, ps, last := Init(ts), Init(pasts), |ts| - 1;
      GoesOnExactly(some, ps);
      assert forall k :: 0 <= k < last ==> some[..k] == ts[..k] && ps[..k] == pasts[..k] && some[k] == ts[k];
      assert ts[..last] == some && pasts[..last] == ps;
      if AfterTurns(some, ps).goesOn {
        TurnSurvived(AfterTurns(some, ps), ts[last], pasts[last]);
      }
    }
  }
}

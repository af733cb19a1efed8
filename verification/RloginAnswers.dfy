/** What the rlogin client's loop makes of what the kernel answers, told by the answers and the descriptors asked about
    and not by its transitions. */
module RloginAnswers {
  import opened Bytes
  import opened Rlogin
  import opened RloginLoop
  import opened RloginWire

  /** The server asks for a window size in this round, or the user resizes the window and the server knows sizes. */
  predicate FrameDue(u: Up, r: Round) {
    (r.urgent.Some? && AsksForSize(r.urgent.value)) || (r.resized && u.winchIn && u.winchSupport)
  }

  /** What a round reads from stdin, and whether that reports its end. */
  function StdinData(u: Up, r: Round): seq<Byte> {
    if u.stdinIn && !FrameDue(u, r) && r.fromStdin.Some? && r.fromStdin.value.Data? then r.fromStdin.value.bytes else []
  }

  predicate StdinEnds(u: Up, r: Round) {
    u.stdinIn && !FrameDue(u, r) && Ends(r.fromStdin)
  }

  function SockData(d: Down, r: Round): seq<Byte> {
    if d.sockIn && r.fromSock.Some? && r.fromSock.value.Data? then r.fromSock.value.bytes else []
  }

  // ---- Over a run that goes on ----

  function Before(rounds: seq<Round>): View
    requires rounds != []
  {
    After(START, Init(rounds)).0
  }

  /** All that has been read from stdin and from the socket. */
  function AllTyped(rounds: seq<Round>): seq<Byte> {
    if rounds == [] then [] else AllTyped(Init(rounds)) + StdinData(Before(rounds).up, Last(rounds))
  }

  function AllReceived(rounds: seq<Round>): seq<Byte> {
    if rounds == [] then [] else AllReceived(Init(rounds)) + SockData(Before(rounds).down, Last(rounds))
  }

  /** Something, or the end, has been read from stdin, and since then nothing has been sent to the last byte. */
  predicate ReadSince(rounds: seq<Round>) {
    rounds != [] &&
    var (u, r) := (Before(rounds).up, Last(rounds));
    if u.sockOut && After(START, rounds).0.up.pending == [] then false
    else StdinData(u, r) != [] || StdinEnds(u, r) || ReadSince(Init(rounds))
  }

  /** The server has asked for a window size. */
  predicate AskedBefore(rounds: seq<Round>) {
    rounds != [] && (Asked(Last(rounds)) || AskedBefore(Init(rounds)))
  }

  lemma {:induction false} GoesOnBefore(v: View, rounds: seq<Round>)
    requires rounds != [] && After(v, rounds).1 == Running
    ensures After(v, Init(rounds)).1 == Running && After(v, rounds) == Next(After(v, Init(rounds)).0, Last(rounds))
  {
  }

  lemma RoundIs(v: View, r: Round)
    requires Next(v, r).1 == Running
    ensures var (a, b) := (Signals(v, r).0, Next(v, r).0);
      && Signals(v, r).1 == Running
      && b.down == Downward(a.down, FromSock(v.down, r), ToStdout(v.down, r)).0
      && b.up == Upward(a.up, FromStdin(v.up, r), ToSock(v.up, r)).0
      && Downward(a.down, FromSock(v.down, r), ToStdout(v.down, r)).1 == Running
      && Upward(a.up, FromStdin(v.up, r), ToSock(v.up, r)).1 == Running
  {
  }

  // ---- Upstream ----

  /** What the window-size part of a round leaves upstream. */
  lemma SignalsLeave(v: View, r: Round)
    requires Fits(v) && Signals(v, r).1 == Running
    ensures var (u, a) := (v.up, Signals(v, r).0.up);
      && a.typed == u.typed && a.sent == u.sent && a.off == u.off && a.winchIn == u.winchIn
      && (a.winchSupport <==> u.winchSupport || Asked(r))
      && (a.sockOut <==> u.sockOut || FrameDue(u, r))
      && (a.stdinIn <==> u.stdinIn && !FrameDue(u, r))
      && (!FrameDue(u, r) ==> a.units == u.units && a.pending == u.pending)
      && (FrameDue(u, r) ==> a.pending != [])
  {
    hide UpFits, DownFits;
    if r.urgent.Some? {
      AnswerLeaves(v.up, r.urgent.value, r.first);
      if r.urgent.value.NoData? {
        assert !AsksForSize(r.urgent.value);
      }
    }
    var a := First(v, r).0.up;
    WinchLeaves(a, r.second);
  }

  lemma WinchLeaves(u: Up, w: Winsize)
    ensures var (a, status) := Winch(u, w);
      && a.typed == u.typed && a.sent == u.sent && a.off == u.off && a.winchIn == u.winchIn
      && a.winchSupport == u.winchSupport
      && (!u.winchSupport ==> a == u)
      && (u.winchSupport && status == Running ==>
           a.sockOut && !a.stdinIn && a.pending != [] && a.units != [] && Last(a.units) == Win(FrameBytes(w), w))
  {
  }

  lemma AnswerLeaves(u: Up, x: Input, w: Winsize)
    ensures var (a, status) := Answer(u, x, w);
      && a.typed == u.typed && a.sent == u.sent && a.off == u.off && a.winchIn == u.winchIn
      && (!AsksForSize(x) ==> a == u && status == Running)
      && (AsksForSize(x) && status == Running ==>
           && a.winchSupport && a.sockOut && !a.stdinIn && a.pending != []
           && a.units != [] && Last(a.units) == Win(FrameBytes(w), w))
  {
    if AsksForSize(x) {
      WinchLeaves(u.(winchSupport := true), w);
    }
  }

  /** The bytes that a write has taken: n of those offered, or all that there were. */
  predicate Moved(before: seq<Byte>, after: seq<Byte>, rest: seq<Byte>, n: nat) {
    && before <= after && |after| - |before| <= n
    && (|after| - |before| < n ==> rest == [])
  }

  predicate SockTook(u: Up, b: Up, r: Round) {
    if u.sockOut && r.toSock.Some? && r.toSock.value.Wrote? then Moved(u.sent, b.sent, b.pending, r.toSock.value.n)
    else b.sent == u.sent
  }

  lemma SendMoves(u: Up, y: Output)
    requires UpFits(u) && u.sockOut
    ensures var a := Send(u, y).0;
      && a.typed == u.typed && a.units == u.units && a.winchSupport == u.winchSupport
      && (if y.Wrote? then Moved(u.sent, a.sent, a.pending, y.n) else a == u)
      && (a.sockOut <==> a.pending != [])
      && (a.pending == [] ==> a.stdinIn && a.winchIn)
      && (a.pending != [] ==> a.stdinIn == u.stdinIn && a.winchIn == u.winchIn)
  {
  }

  /** Upstream, after a round of the loop that goes on. */
  predicate UpAfter(u: Up, b: Up, r: Round) {
    var data := StdinData(u, r);
    var read := data != [] || StdinEnds(u, r);
    var drained := u.sockOut && b.pending == [];
    && b.typed == u.typed + data
    && (b.winchSupport <==> u.winchSupport || Asked(r))
    && (b.winchIn <==> drained || (u.winchIn && !read))
    && (b.stdinIn <==> drained || (u.stdinIn && !FrameDue(u, r) && !read))
    && (b.sockOut <==> !drained && (u.sockOut || FrameDue(u, r) || data != []))
    && SockTook(u, b, r)
  }

  lemma UpwardIs(u: Up, a: Up, r: Round)
    requires UpFits(u) && UpFits(a) && PlausibleRound(r)
    requires a.typed == u.typed && a.sent == u.sent && a.winchIn == u.winchIn
    requires a.winchSupport <==> u.winchSupport || Asked(r)
    requires a.sockOut <==> u.sockOut || FrameDue(u, r)
    requires a.stdinIn <==> u.stdinIn && !FrameDue(u, r)
    ensures UpAfter(u, Upward(a, FromStdin(u, r), ToSock(u, r)).0, r)
  {
    if FromStdin(u, r).Some? {
      assert !u.sockOut && !FrameDue(u, r);
    } else {
      assert u.typed + [] == u.typed;
      if ToSock(u, r).Some? {
        SendMoves(a, ToSock(u, r).value);
      }
    }
    assert u.typed + [] == u.typed;
  }

  lemma RoundUp(v: View, r: Round)
    requires Fits(v) && Kept(v) && PlausibleRound(r) && Next(v, r).1 == Running
    ensures UpAfter(v.up, Next(v, r).0.up, r)
  {
    hide Next, Signals, Upward, Downward, UpAfter, UpFits;
    RoundIs(v, r);
    SignalsLeave(v, r);
    SignalsKeep(v, r);
    UpwardIs(v.up, Signals(v, r).0.up, r);
  }

  /** Over all runs that go on: the client has taken exactly what the reads of stdin have yielded; it watches the
      winch pipe exactly until it reads something or the end there, and again once all is sent; and it watches stdin
      exactly while nothing is pending, but for an end that it has read.  It sends frames once it has been asked. */
  lemma {:induction false} StdinIsWatched(rounds: seq<Round>)
    requires After(START, rounds).1 == Running && forall k :: 0 <= k < |rounds| ==> PlausibleRound(rounds[k])
    ensures var u := After(START, rounds).0.up;
      && u.typed == AllTyped(rounds)
      && (u.winchIn <==> !ReadSince(rounds))
      && (u.stdinIn <==> !u.sockOut && !ReadSince(rounds))
      && (u.winchSupport <==> AskedBefore(rounds))
  {
    hide Next, StdinData, StdinEnds, FrameDue, SockTook, PlausibleRound;
    if rounds != [] {
      GoesOnBefore(START, rounds);
      StdinIsWatched(Init(rounds));
      AfterKeeps(START, Init(rounds));
      RoundUp(Before(rounds), Last(rounds));
    }
  }

  // ---- What is committed to ----

  function Sized(w: Winsize): Unit {
    Win(FrameBytes(w), w)
  }

  /** A round commits to what it reads from stdin; or to a frame with the size asked for last, in place of what was
      committed to last if nothing of that has been sent, and to one with the size asked for first before it if
      the buffer has been sent in part. */
  function UnitsAfter(u: Up, r: Round): seq<Unit> {
    var data := StdinData(u, r);
    if !FrameDue(u, r) then u.units + if data != [] then [Chunk(data)] else []
    else
      var kept := if u.sockOut && u.off == 0 && u.units != [] then Init(u.units) else u.units;
      if !(r.resized && u.winchIn) then kept + [Sized(r.first)]
      else if Asked(r) && u.off > 0 then kept + [Sized(r.first)] + [Sized(r.second)]
      else kept + [Sized(r.second)]
  }

  lemma WinchCommits(u: Up, w: Winsize)
    requires u.winchSupport && Winch(u, w).1 == Running
    ensures var a := Winch(u, w).0;
      var kept := if u.sockOut && u.off == 0 && u.units != [] then Init(u.units) else u.units;
      a.units == kept + [Sized(w)] && a.off == u.off && a.sockOut
  {
  }

  lemma SignalsCommit(v: View, r: Round)
    requires UpFits(v.up) && Signals(v, r).1 == Running
    ensures Signals(v, r).0.up.units == if FrameDue(v.up, r) then UnitsAfter(v.up, r) else v.up.units
  {
    hide UpFits;
    var u := v.up;
    var a := First(v, r).0.up;
    if Asked(r) {
      WinchCommits(u.(winchSupport := true), r.first);
      if r.resized && u.winchIn {
        WinchCommits(a, r.second);
        assert Init(a.units) + [Sized(r.second)] == a.units[..|a.units| - 1] + [Sized(r.second)];
      }
    } else if r.resized && u.winchIn && u.winchSupport {
      assert a == u;
      WinchCommits(u, r.second);
    }
  }

  /** In every round that goes on. */
  lemma RoundCommits(v: View, r: Round)
    requires Fits(v) && PlausibleRound(r) && Next(v, r).1 == Running
    ensures Next(v, r).0.up.units == UnitsAfter(v.up, r)
  {
    hide Next, Signals;
    RoundIs(v, r);
    SignalsCommit(v, r);
    assert v.up.units + [] == v.up.units;
  }

  // ---- Downstream ----

  /** After a round that goes on: what the socket has yielded has been received, what stdout has taken is shown, and
      the socket is watched exactly while stdout has nothing pending. */
  predicate DownAfter(d: Down, b: Down, r: Round) {
    && b.received == d.received + SockData(d, r)
    && (if d.stdoutOut && r.toStdout.Some? && r.toStdout.value.Wrote? then
          Moved(d.shown, b.shown, b.pending, r.toStdout.value.n)
        else b.shown == d.shown)
    && (b.stdoutOut <==> b.pending != []) && (b.sockIn <==> b.pending == [])
  }

  lemma DownwardIs(d: Down, a: Down, r: Round)
    requires DownFits(a) && a.received == d.received && a.shown == d.shown && PlausibleRound(r)
    requires a.sockIn == d.sockIn && a.stdoutOut == d.stdoutOut
    ensures DownAfter(d, Downward(a, FromSock(d, r), ToStdout(d, r)).0, r)
  {
    assert d.received + [] == d.received;
  }

  lemma RoundDown(v: View, r: Round)
    requires Fits(v) && Kept(v) && PlausibleRound(r) && Next(v, r).1 == Running
    ensures DownAfter(v.down, Next(v, r).0.down, r)
  {
    hide Next, Upward, Downward, DownAfter, UpFits, UpKept;
    RoundIs(v, r);
    SignalsKeep(v, r);
    DownwardIs(v.down, Signals(v, r).0.down, r);
  }

  /** Over all runs that go on. */
  lemma {:induction false} SocketIsWatched(rounds: seq<Round>)
    requires After(START, rounds).1 == Running && forall k :: 0 <= k < |rounds| ==> PlausibleRound(rounds[k])
    ensures var d := After(START, rounds).0.down;
      d.received == AllReceived(rounds) && (d.stdoutOut <==> d.pending != []) && (d.sockIn <==> d.pending == [])
  {
    hide Next, SockData, PlausibleRound;
    if rounds != [] {
      GoesOnBefore(START, rounds);
      SocketIsWatched(Init(rounds));
      AfterKeeps(START, Init(rounds));
      RoundDown(Before(rounds), Last(rounds));
    }
  }
}

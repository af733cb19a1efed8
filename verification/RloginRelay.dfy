/** The rlogin client's relay: two buffers and the descriptor sets of select(), updated in place by the transitions of
    RloginLoop. */
module RloginRelay {
  import opened Bytes
  import opened Rlogin
  import opened RloginLoop
  import Answers = RloginAnswers
  import opened RloginWire

  class Relay {
    const buf0: array<Byte>            // terminal to socket: pending bytes are buf0[off0..off0 + len0]
    const buf1: array<Byte>            // socket to terminal: pending bytes are buf1[off1..off1 + len1]
    var off0: nat
    var len0: int
    var off1: nat
    var len1: int
    var stdinIn: bool                  // infdset: 0, the winch pipe, the socket
    var winchIn: bool
    var sockIn: bool
    var sockOut: bool                  // outfdset: the socket, 1
    var stdoutOut: bool
    var winchSupport: bool

    ghost var up: Up                   // all that has passed through, and what is pending
    ghost var down: Down
    ghost var lost: bool

    ghost function Values(): View
      reads `up, `down, `lost
    {
      View(up, down, lost)
    }

    ghost predicate UpShows()
      reads `off0, `len0, `stdinIn, `winchIn, `sockOut, `winchSupport, `up, buf0
    {
      && buf0.Length == BUFLEN && UpFits(up)
      && stdinIn == up.stdinIn && winchIn == up.winchIn && sockOut == up.sockOut
      && winchSupport == up.winchSupport && off0 == up.off
      && (sockOut ==> len0 == |up.pending| && buf0[off0..off0 + len0] == up.pending)
    }

    ghost predicate DownShows()
      reads `off1, `len1, `sockIn, `stdoutOut, `down, buf1
    {
      && buf1.Length == BUFLEN && DownFits(down)
      && sockIn == down.sockIn && stdoutOut == down.stdoutOut && off1 == down.off
      && (stdoutOut ==> len1 == |down.pending| && buf1[off1..off1 + len1] == down.pending)
    }

    /** The fields and buffers are those of the values. */
    ghost predicate Valid()
      reads this, buf0, buf1
    {
      buf0 != buf1 && UpShows() && DownShows()
    }

    lemma UpSets()
      requires UpShows()
      ensures UpFits(up) && stdinIn == up.stdinIn && winchIn == up.winchIn && sockOut == up.sockOut
      ensures winchSupport == up.winchSupport
    {
    }

    /** What a frame is put behind. */
    lemma PendsBehind(before: seq<Byte>)
      requires UpShows() && !Full(up) && before == if off0 == 0 then [] else up.pending
      ensures buf0.Length == BUFLEN && (off0 == 0 ==> before == [])
      ensures off0 > 0 ==> len0 == |before| && off0 + len0 + FRAME <= BUFLEN && buf0[off0..off0 + len0] == before
      ensures off0 == up.off
    {
    }

    lemma Pends()
      requires UpFits(up) && buf0.Length == BUFLEN && off0 == up.off && off0 + len0 <= BUFLEN && len0 == |up.pending|
      requires stdinIn == up.stdinIn && winchIn == up.winchIn && sockOut == up.sockOut
      requires winchSupport == up.winchSupport && buf0[off0..off0 + len0] == up.pending
      ensures UpShows()
    {
    }

    lemma DownSets()
      requires DownShows()
      ensures sockIn == down.sockIn && stdoutOut == down.stdoutOut
    {
    }

    constructor ()
      ensures Valid() && fresh(buf0) && fresh(buf1) && Values() == START
    {
      buf0, buf1 := new Byte[BUFLEN](_ => 0), new Byte[BUFLEN](_ => 0);
      off0, len0, off1, len1 := 0, 0, 0, 0;
      stdinIn, winchIn, sockIn, sockOut, stdoutOut, winchSupport := true, true, true, false, false, false;
      up, down, lost := START.up, START.down, false;
    }

    /** A frame goes behind the bytes `before` it, or into an empty buffer. */
    method Append(frame: seq<Byte>, ghost before: seq<Byte>)
      requires buf0.Length == BUFLEN && |frame| == FRAME
      requires off0 == 0 ==> before == []
      requires off0 > 0 ==> 0 <= len0 && off0 + len0 + FRAME <= BUFLEN && before == buf0[off0..off0 + len0]
      modifies `len0, buf0
      ensures len0 == |before| + FRAME
      ensures off0 + len0 <= BUFLEN && buf0[off0..off0 + len0] == before + frame
    {
      if off0 == 0 {
        len0 := 0;
      }
      var at := off0 + len0;
      forall k | 0 <= k < FRAME {
        buf0[at + k] := frame[k];
      }
      assert buf0[off0..at] == old(buf0[off0..at]) && buf0[at..at + FRAME] == frame;
      len0 := len0 + FRAME;
    }

    /** winch(), which has no test for room: without room, the model stops. */
    method Winch(w: Winsize) returns (ok: bool, cleared: bool)
      requires UpShows()
      modifies `len0, `sockOut, `stdinIn, `up, buf0
      ensures (up, if ok then Running else Overrun) == RloginLoop.Winch(old(up), w) && UpShows()
      ensures cleared == (winchSupport && ok)
    {
      hide QueueFrame;
      ok, cleared := true, winchSupport;
      if winchSupport {
        if off0 > 0 && off0 + len0 + FRAME > BUFLEN {
          return false, false;
        }
        Queue(w);
      }
    }

    method Queue(w: Winsize)
      requires UpShows() && winchSupport && !Full(up)
      modifies `len0, `sockOut, `stdinIn, `up, buf0
      ensures up == QueueFrame(old(up), w) && UpShows()
    {
      hide UpShows, UpFits, QueueFrame, FrameBytes, Full;
      ghost var u, before := up, if off0 == 0 then [] else up.pending;
      PendsBehind(before);
      UpSets();
      QueueFrameIs(u, w, before);
      QueueFrameFits(u, w);
      Append(FrameBytes(w), before);
      up := QueueFrame(u, w);
      sockOut, stdinIn := true, false;
      Pends();
    }

    /** The urgent byte 0x80 asks for the window size. */
    method Answer(x: Input, w: Winsize) returns (ok: bool, cleared: bool)
      requires UpShows() && x.Data? && x.bytes != []
      modifies `winchSupport, `len0, `sockOut, `stdinIn, `up, buf0
      ensures UpShows() && (up, if ok then Running else Overrun) == RloginLoop.Answer(old(up), x, w)
      ensures cleared == (AsksForSize(x) && ok)
    {
      ok, cleared := true, false;
      if x.bytes[0] == 0x80 {
        winchSupport, up := true, up.(winchSupport := true);
        ok, cleared := Winch(w);
      }
    }

    /** recv() of the urgent byte, into the buffer and over the length of what may be pending for stdout. */
    method Overwrite(x: Input) returns (status: Status)
      requires DownShows() && Plausible(x)
      modifies `len1, `down, buf1
      ensures down == Overwritten(old(down), x) && status == Received(old(down), x)
      ensures status == Running ==> DownShows()
    {
      ghost var d := down;
      match x
      case NoData(result, retry) =>
        len1 := result;
        down := Overwritten(d, x);
        status := if !retry then Closed else if stdoutOut then Broken else Running;
      case Data(bytes) =>
        buf1[0] := bytes[0];
        len1 := 1;
        down := Overwritten(d, x);
        status := Running;
        if stdoutOut {
          assert buf1[off1..off1 + 1] == [buf1[off1]];
          assert off1 > 0 ==> d.pending[..1] == [d.pending[0]];
        }
    }

    method Urgent(x: Input, w: Winsize) returns (status: Status, cleared: bool)
      requires Valid() && Plausible(x)
      modifies `len1, `winchSupport, `len0, `sockOut, `stdinIn, `up, `down, `lost, buf0, buf1
      ensures (Values(), status) == RloginLoop.Urgent(old(Values()), x, w)
      ensures cleared == (AsksForSize(x) && status == Running) && (status == Running ==> Valid())
    {
      hide UpShows, DownShows;
      cleared := false;
      lost := lost || Spoils(down, x) || DropsKeys(up, x);
      status := Overwrite(x);
      if x.Data? {
        var ok;
        ok, cleared := Answer(x, w);
        status := if ok then Running else Overrun;
      }
    }

    method ReadSock(x: Input) returns (status: Status)
      requires DownShows() && Plausible(x) && sockIn
      modifies `len1, `stdoutOut, `sockIn, `down, buf1
      ensures DownShows() && (down, status) == TakeSock(old(down), x)
    {
      match x
      case NoData(result, retry) =>
        len1 := result;
        status := if retry then Running else Closed;
      case Data(bytes) =>
        Fill(buf1, bytes);
        len1 := |bytes|;
        stdoutOut, sockIn := true, false;
        status := Running;
        down := TakeSock(down, x).0;
    }

    method WriteStdout(y: Output) returns (status: Status)
      requires DownShows() && stdoutOut
      modifies `off1, `len1, `stdoutOut, `sockIn, `down
      ensures DownShows() && (down, status) == Show(old(down), y)
    {
      match y
      case Blocked(retry) =>
        status := if retry then Running else Closed;
      case Wrote(n) =>
        status := Running;
        var wlen := if n <= len1 then n else len1;
        ghost var d, pending := down, buf1[off1..off1 + len1];
        down := Show(d, y).0;
        len1 := len1 - wlen;
        off1 := off1 + wlen;
        assert buf1[off1..off1 + len1] == pending[wlen..];
        if len1 == 0 {
          stdoutOut, sockIn := false, true;
          off1 := 0;
        }
    }

    method ReadStdin(x: Input)
      requires UpShows() && Plausible(x) && stdinIn
      modifies `len0, `stdinIn, `winchIn, `sockOut, `up, buf0
      ensures UpShows() && up == TakeStdin(old(up), x)
    {
      match x
      case NoData(result, retry) =>
        len0 := result;
        if !retry {
          stdinIn, winchIn := false, false;
        }
        up := TakeStdin(up, x);
      case Data(bytes) =>
        Fill(buf0, bytes);
        len0 := |bytes|;
        sockOut, stdinIn, winchIn := true, false, false;
        up := TakeStdin(up, x);
    }

    method WriteSock(y: Output) returns (status: Status)
      requires UpShows() && sockOut
      modifies `off0, `len0, `sockOut, `stdinIn, `winchIn, `up
      ensures UpShows() && (up, status) == Send(old(up), y)
    {
      match y
      case Blocked(retry) =>
        status := if retry then Running else Closed;
      case Wrote(n) =>
        status := Running;
        var wlen := if n <= len0 then n else len0;
        SendFits(up, y);
        hide UpFits;
        ghost var u, pending := up, buf0[off0..off0 + len0];
        up := Send(u, y).0;
        len0 := len0 - wlen;
        off0 := off0 + wlen;
        assert buf0[off0..off0 + len0] == pending[wlen..];
        if len0 == 0 {
          sockOut, stdinIn, winchIn := false, true, true;
          off0 := 0;
        }
    }

    /** The urgent byte and the winch pipe. */
    method Signals(r: Round) returns (status: Status, cleared: bool)
      requires Valid() && PlausibleRound(r)
      modifies `len1, `winchSupport, `len0, `sockOut, `stdinIn, `up, `down, `lost, buf0, buf1
      ensures (Values(), status) == RloginLoop.Signals(old(Values()), r)
      ensures status == Running ==> Valid() && cleared == Cleared(old(up), r)
    {
      hide UpShows, DownShows, RloginLoop.Urgent, RloginLoop.Winch;
      UpSets();
      var resized := r.resized && winchIn;
      status, cleared := Running, false;
      if r.urgent.Some? {
        UrgentSets(Values(), r.urgent.value, r.first);
        status, cleared := Urgent(r.urgent.value, r.first);
      }
      if status == Running && resized {
        UpSets();
        var ok, again;
        ok, again := Winch(r.second);
        cleared := cleared || again;
        status := if ok then Running else Overrun;
      }
    }

    method Downward(fromSock: Option<Input>, toStdout: Option<Output>) returns (status: Status)
      requires DownShows()
      requires (fromSock.Some? ==> sockIn && Plausible(fromSock.value)) && (toStdout.Some? ==> stdoutOut)
      modifies `off1, `len1, `stdoutOut, `sockIn, `down, buf1
      ensures DownShows() && (down, status) == RloginLoop.Downward(old(down), fromSock, toStdout)
    {
      status := Running;
      if fromSock.Some? {
        status := ReadSock(fromSock.value);
      }
      if status == Running && toStdout.Some? {
        status := WriteStdout(toStdout.value);
      }
    }

    method Upward(fromStdin: Option<Input>, toSock: Option<Output>) returns (status: Status)
      requires UpShows()
      requires (fromStdin.Some? ==> stdinIn && Plausible(fromStdin.value)) && (toSock.Some? ==> sockOut)
      modifies `off0, `len0, `stdinIn, `winchIn, `sockOut, `up, buf0
      ensures UpShows() && (up, status) == RloginLoop.Upward(old(up), fromStdin, toSock)
    {
      status := Running;
      if fromStdin.Some? {
        ReadStdin(fromStdin.value);
      }
      if toSock.Some? {
        status := WriteSock(toSock.value);
      }
    }

    /** One round of the loop, of the descriptors that select() was asked about. */
    method Step(r: Round) returns (status: Status)
      requires Valid() && PlausibleRound(r)
      modifies this, buf0, buf1
      ensures (Values(), status) == Next(old(Values()), r)
      ensures status == Running ==> Valid()
    {
      hide UpShows, DownShows, RloginLoop.Signals, RloginLoop.Downward, RloginLoop.Upward;
      SignalsSets(Values(), r);
      UpSets();
      DownSets();
      var fromSock, toStdout := If(sockIn, r.fromSock), If(stdoutOut, r.toStdout);
      var fromStdin, toSock := If(stdinIn, r.fromStdin), If(sockOut, r.toSock);
      var cleared;
      status, cleared := Signals(r);
      if status == Running {
        UpSets();
        DownSets();
        status := Downward(fromSock, toStdout);
        if status == Running {
          status := Upward(if cleared then None else fromStdin, toSock);
        }
      }
    }

    /** The loop, whatever the kernel answers, round after round.  As long as it goes on, it has taken what the reads
        have yielded, and watches what it must. */
    method Run(rounds: seq<Round>) returns (status: Status)
      requires Valid() && Values() == START && forall k :: 0 <= k < |rounds| ==> PlausibleRound(rounds[k])
      modifies this, buf0, buf1
      ensures (Values(), status) == After(START, rounds)
      ensures status == Running ==> Valid()
      ensures status == Running ==> up.typed == Answers.AllTyped(rounds) && down.received == Answers.AllReceived(rounds)
      ensures status == Running ==> (stdinIn <==> !sockOut && !Answers.ReadSince(rounds)) && (sockIn <==> !stdoutOut)
    {
      hide Next, Answers.ReadSince, Answers.AllTyped, Answers.AllReceived;
      status := Running;
      var k := 0;
      while k < |rounds|
        invariant 0 <= k <= |rounds| && status == Running && Valid()
        invariant (Values(), status) == After(START, rounds[..k])
      {
        AfterSnoc(START, rounds[..k], rounds[k]);
        assert rounds[..k] + [rounds[k]] == rounds[..k + 1];
        status := Step(rounds[k]);
        k := k + 1;
        if status != Running {
          AfterStops(START, rounds[..k], rounds);
          return;
        }
      }
      assert rounds[..k] == rounds;
      Answers.StdinIsWatched(rounds);
      Answers.SocketIsWatched(rounds);
    }
  }

  /** A server that asks for window sizes and takes one byte of the first, and 5461 resizes after it, drive the
      relay to write past its buffer. */
  method Overflow() returns (relay: Relay, status: Status)
    ensures fresh(relay) && status == Overrun
    ensures relay.Values() == After(START, Resizing(BUFLEN / FRAME)).0
  {
    relay := new Relay();
    OverrunIsReached();
    status := relay.Run(Resizing(BUFLEN / FRAME));
  }

  /** read() into the start of a buffer. */
  method Fill(buf: array<Byte>, bytes: seq<Byte>)
    requires |bytes| <= buf.Length
    modifies buf
    ensures buf[..|bytes|] == bytes
  {
    forall k | 0 <= k < |bytes| {
      buf[k] := bytes[k];
    }
  }
}

/** A telnetd session: its two buffers, updated in place by the visits of TelnetdVisit. */
module TelnetdSession {
  import opened Bytes
  import opened TelnetCodec
  import opened Telnetd
  import TelnetdAnswers
  import opened TelnetdVisit

  lemma SamePrefix(a: seq<Byte>, b: seq<Byte>, n: nat, from: nat, to: nat)
    requires from <= to <= n <= |a| && n <= |b| && a[..n] == b[..n]
    ensures a[from..to] == b[from..to]
  {
    assert a[from..to] == a[..n][from..to] && b[from..to] == b[..n][from..to];
  }

  /** `after` is `before` with some bytes written over it. */
  predicate Spliced(before: seq<Byte>, after: seq<Byte>, at: nat, bytes: seq<Byte>) {
    && at + |bytes| <= |before| == |after|
    && after[at..at + |bytes|] == bytes
    && forall k :: 0 <= k < |before| && !(at <= k < at + |bytes|) ==> after[k] == before[k]
  }

  lemma SplicedKeeps(before: seq<Byte>, after: seq<Byte>, at: nat, bytes: seq<Byte>, from: nat, to: nat)
    requires Spliced(before, after, at, bytes) && from <= to <= |before| && (to <= at || at + |bytes| <= from)
    ensures after[from..to] == before[from..to]
  {
  }

  lemma SplicedFront(before: seq<Byte>, after: seq<Byte>, at: nat, bytes: seq<Byte>, n: nat)
    requires Spliced(before, after, at, bytes) && n <= |bytes|
    ensures after[at..at + n] == bytes[..n]
  {
    assert after[at..at + n] == after[at..at + |bytes|][..n];
  }

  lemma SplicedJoins(before: seq<Byte>, after: seq<Byte>, at: nat, bytes: seq<Byte>, from: nat)
    requires Spliced(before, after, at, bytes) && from <= at
    ensures after[from..at + |bytes|] == before[from..at] + bytes
  {
    SplicedKeeps(before, after, at, bytes, from, at);
    assert after[from..at + |bytes|] == after[from..at] + after[at..at + |bytes|];
  }

  /** write() takes the first w of the bytes that are not yet written. */
  lemma PassedOf(i: Inward, y: Output, data: seq<Byte>, w: nat)
    requires y.Wrote? && i.decoded == i.written + data && w == (if y.n <= |data| then y.n else |data|)
    ensures var (after, go) := Passed(i, y);
      go && after.avail == i.avail && after.decoded == i.decoded == after.written + data[w..]
  {
    assert Unwritten(i) == data && Take(data, y.n) == data[..w] && data[..w] + data[w..] == data;
    Assoc(i.written, data[..w], data[w..]);
  }

  lemma NotPassed(i: Inward, y: Output)
    requires y.Failed?
    ensures Passed(i, y) == (i, false)
  {
  }

  class Session {
    const mem: array<Byte>             // struct term_session from buff1 on: buff1, buff2 and the next pointer
    const childPid: int
    const newFd: int
    const ptyFd: int
    var next: Session?
    var buff1Avail: nat
    var buff1Written: nat
    var buff2Avail: nat
    var buff2Written: nat
    var rem: nat

    ghost var outward: Outward         // from the pty to the socket
    ghost var socket: seq<Byte>        // what the socket got
    ghost var inward: Inward           // from the socket to the pty

    ghost function Values(): View
      reads `outward, `inward
    {
      View(outward, inward)
    }

    /** buff1 holds the pty's bytes that have not been sent, and the socket got the doubling of the others. */
    ghost predicate OutValid()
      reads `buff1Avail, `buff1Written, `outward, `socket, mem
    {
      && mem.Length == 2 * BUFSIZE + 8
      && buff1Written <= buff1Avail == outward.avail <= BUFSIZE
      && outward.read == outward.sent + mem[buff1Written..buff1Avail]
      && socket == Doubled(outward.sent)
    }

    /** buff2 holds the decoded bytes that have not been written. */
    ghost predicate InValid()
      reads `buff2Avail, `buff2Written, `inward, mem
    {
      && mem.Length == 2 * BUFSIZE + 8
      && buff2Written <= buff2Avail == inward.avail <= BUFSIZE
      && inward.decoded == inward.written + mem[BUFSIZE + buff2Written..BUFSIZE + buff2Avail]
    }

    ghost predicate Valid()
      reads `buff1Avail, `buff1Written, `outward, `socket, `buff2Avail, `buff2Written, `inward, mem
    {
      OutValid() && InValid()
    }

    lemma HasRoom()
      requires OutValid()
      ensures buff1Avail == outward.avail <= BUFSIZE
    {
    }

    lemma HoldsUnsent()
      requires OutValid()
      ensures Unsent(outward) == mem[buff1Written..buff1Avail]
    {
    }

    lemma HoldsUnwritten()
      requires InValid()
      ensures Unwritten(inward) == mem[BUFSIZE + buff2Written..BUFSIZE + buff2Avail]
    {
    }

    /** The descriptors this session reads from and writes to, as long as its buffers have room and data. */
    ghost predicate WantsRead(fd: int)
      reads `buff1Avail, `buff2Avail
    {
      (fd == ptyFd > 0 && buff1Avail < BUFSIZE) || (fd == newFd >= 0 && buff2Avail < BUFSIZE)
    }

    ghost predicate WantsWrite(fd: int)
      reads `buff1Avail, `buff1Written, `buff2Avail, `buff2Written
    {
      (fd == ptyFd > 0 && buff2Written < buff2Avail) || (fd == newFd >= 0 && buff1Written < buff1Avail)
    }

    constructor (childPid: int, newFd: int, ptyFd: int)
      ensures Valid() && fresh(mem) && next == null
      ensures this.childPid == childPid && this.newFd == newFd && this.ptyFd == ptyFd
      ensures Values() == START
    {
      mem := new Byte[2 * BUFSIZE + 8](_ => 0);
      this.childPid, this.newFd, this.ptyFd, next := childPid, newFd, ptyFd, null;
      buff1Avail, buff1Written, buff2Avail, buff2Written, rem := 0, 0, 0, 0, 0;
      outward, socket, inward := START.outward, [], START.inward;
    }

    method Put(at: nat, bytes: seq<Byte>)
      requires at + |bytes| <= mem.Length
      modifies mem
      ensures Spliced(old(mem[..]), mem[..], at, bytes)
    {
      forall k | 0 <= k < |bytes| {
        mem[at + k] := bytes[k];
      }
    }

    method ReadPty(bytes: seq<Byte>)
      requires Valid() && buff1Avail + |bytes| <= BUFSIZE
      modifies `buff1Avail, `outward, mem
      ensures Valid() && outward == Filled(old(outward), bytes)
    {
      hide Spliced;
      ghost var before, at := mem[..], buff1Avail;
      Put(buff1Avail, bytes);
      ghost var after := mem[..];
      SplicedJoins(before, after, at, bytes, buff1Written);
      SplicedKeeps(before, after, at, bytes, BUFSIZE + buff2Written, BUFSIZE + buff2Avail);
      Assoc(outward.sent, before[buff1Written..at], bytes);
      buff1Avail := buff1Avail + |bytes|;
      outward := Filled(outward, bytes);
    }

    method WriteSocket(calls: nat)
      requires OutValid()
      modifies `buff1Written, `outward, `socket
      ensures OutValid() && outward == Sent(old(outward), calls)
    {
      hide Consumed, Doubled;
      HoldsUnsent();
      var data := mem[buff1Written..buff1Avail];
      ghost var written;
      var w;
      w, written := DupIacs(data, calls);
      DoubledConcat(outward.sent, data[..w]);
      Assoc(outward.sent, data[..w], data[w..]);
      assert data[..w] + data[w..] == data;
      outward, socket := Sent(outward, calls), socket + written;
      buff1Written := buff1Written + w;
      assert mem[buff1Written..buff1Avail] == data[w..];
    }

    /** A chunk from the socket, of which Used(...) is decoded. */
    method ReadSocket(bytes: seq<Byte>, toybuf: array<Byte>) returns (ghost d: Decoded, ghost past: Byte)
      requires InValid() && buff2Avail + |bytes| <= BUFSIZE && toybuf.Length == BUFSIZE && toybuf != mem
      modifies `buff2Avail, `rem, `inward, mem, toybuf
      ensures InValid() && mem[..BUFSIZE] == old(mem[..BUFSIZE])
      ensures d == Decode(Used(bytes, old(buff2Avail)), past)
      ensures inward == Extended(old(inward), d.out) && rem == d.rem
    {
      past := Fetch(bytes);
      d := Decode(Used(bytes, buff2Avail), past);
      DecodeFetched(|bytes|, toybuf, d);
    }

    method Fetch(bytes: seq<Byte>) returns (ghost past: Byte)
      requires InValid() && buff2Avail + |bytes| <= BUFSIZE
      modifies mem
      ensures InValid() && mem[..BUFSIZE] == old(mem[..BUFSIZE])
      ensures Span(mem, BUFSIZE + buff2Avail, BUFSIZE + |bytes|) == Used(bytes, buff2Avail)
      ensures past == mem[BUFSIZE + |bytes|]
    {
      hide Spliced;
      ghost var before, at := mem[..], BUFSIZE + buff2Avail;
      Put(BUFSIZE + buff2Avail, bytes);
      ghost var after := mem[..];
      SplicedKeeps(before, after, at, bytes, 0, BUFSIZE);
      SplicedKeeps(before, after, at, bytes, BUFSIZE + buff2Written, at);
      past := mem[BUFSIZE + |bytes|];
      if buff2Avail < |bytes| {
        SplicedFront(before, after, at, bytes, |bytes| - buff2Avail);
      }
    }

    /** handle_iacs takes the chunk of c bytes to end at buff2 + c, which is its end only when none of buff2 was in
        use before it. */
    method DecodeFetched(c: nat, toybuf: array<Byte>, ghost d: Decoded)
      requires InValid() && buff2Avail + c <= BUFSIZE && toybuf.Length == BUFSIZE && toybuf != mem
      requires d == Decode(Span(mem, BUFSIZE + buff2Avail, BUFSIZE + c), mem[BUFSIZE + c])
      modifies `buff2Avail, `rem, `inward, mem, toybuf
      ensures InValid() && mem[..BUFSIZE] == old(mem[..BUFSIZE])
      ensures inward == Extended(old(inward), d.out) && rem == d.rem
    {
      var i := DecodeBehind(c, toybuf, d);
      Extend(i);
    }

    method DecodeBehind(c: nat, toybuf: array<Byte>, ghost d: Decoded) returns (i: nat)
      requires InValid() && buff2Avail + c <= BUFSIZE && toybuf.Length == BUFSIZE && toybuf != mem
      requires d == Decode(Span(mem, BUFSIZE + buff2Avail, BUFSIZE + c), mem[BUFSIZE + c])
      modifies `rem, mem, toybuf
      ensures InValid() && mem[..BUFSIZE] == old(mem[..BUFSIZE])
      ensures buff2Avail + i <= BUFSIZE && rem == d.rem
      ensures mem[BUFSIZE + buff2Avail..BUFSIZE + buff2Avail + i] == d.out
    {
      ghost var sizes;
      ghost var at, before := BUFSIZE + buff2Avail, mem[..];
      i, rem, sizes := HandleIacs(mem, BUFSIZE + buff2Avail, BUFSIZE + c, toybuf, d);
      ghost var after := mem[..];
      assert after[..at] == before[..at];
      SamePrefix(before, after, at, BUFSIZE + buff2Written, at);
      SamePrefix(before, after, at, 0, BUFSIZE);
    }

    /** tm->buff2_avail += i */
    method Extend(i: nat)
      requires InValid() && buff2Avail + i <= BUFSIZE
      modifies `buff2Avail, `inward
      ensures InValid()
      ensures inward == Extended(old(inward), mem[BUFSIZE + old(buff2Avail)..BUFSIZE + old(buff2Avail) + i])
    {
      ghost var kept := mem[BUFSIZE + buff2Written..BUFSIZE + buff2Avail];
      ghost var out := mem[BUFSIZE + buff2Avail..BUFSIZE + buff2Avail + i];
      assert mem[BUFSIZE + buff2Written..BUFSIZE + buff2Avail + i] == kept + out;
      Assoc(inward.written, kept, out);
      inward := Extended(inward, out);
      buff2Avail := buff2Avail + i;
    }

    method WritePty(y: Output) returns (go: bool)
      requires InValid()
      modifies `buff2Written, `inward
      ensures InValid() && (inward, go) == Passed(old(inward), y)
    {
      hide Passed, Unwritten;
      go := y.Wrote?;
      if go {
        var w := if y.n <= buff2Avail - buff2Written then y.n else buff2Avail - buff2Written;
        ghost var data := mem[BUFSIZE + buff2Written..BUFSIZE + buff2Avail];
        PassedOf(inward, y, data, w);
        inward := Passed(inward, y).0;
        buff2Written := buff2Written + w;
        assert mem[BUFSIZE + buff2Written..BUFSIZE + buff2Avail] == data[w..];
      } else {
        NotPassed(inward, y);
      }
    }

    /** Empty buffers start over. */
    method Rewind()
      requires Valid()
      modifies `buff1Avail, `buff1Written, `buff2Avail, `buff2Written, `outward, `inward
      ensures Valid() && Values() == Rewound(old(Values()))
    {
      HoldsUnsent();
      HoldsUnwritten();
      ghost var v := Rewound(Values());
      if buff1Written == buff1Avail {
        buff1Written, buff1Avail := 0, 0;
        outward := v.outward;
        assert mem[buff1Written..buff1Avail] == [];
      }
      if buff2Written == buff2Avail {
        buff2Written, buff2Avail := 0, 0;
        inward := v.inward;
        assert mem[BUFSIZE + buff2Written..BUFSIZE + buff2Avail] == [];
      }
    }

    /** One turn of the loop over the sessions.  It stops the loop as soon as a read yields nothing or a write
        to the pty fails. */
    method Serve(v: Visit, toybuf: array<Byte>) returns (go: bool, ghost past: Byte)
      requires Valid() && toybuf.Length == BUFSIZE && toybuf != mem
      modifies `buff1Avail, `buff1Written, `outward, `socket, `buff2Avail, `buff2Written, `rem, `inward, mem, toybuf
      ensures Valid() && (Values(), go) == Visited(old(Values()), v, past, ptyFd > 0, newFd >= 0)
    {
      hide OutValid, InValid, TelnetdVisit.Reads, TelnetdVisit.Writes, PtyAnswer, SockAnswer, PtyTakes, SockTakes;
      Answers(v);
      var readPty := v.fromPty.Some? && ptyFd > 0 && buff1Avail < BUFSIZE;
      var readSock := v.fromSock.Some? && newFd >= 0 && buff2Avail < BUFSIZE;
      var writePty := v.toPty.Some? && ptyFd > 0 && buff2Avail - buff2Written > 0;
      var writeSock := v.toSock.Some? && newFd >= 0 && buff1Avail - buff1Written > 0;
      go, past :=
        Reads(if readPty then v.fromPty else None, v.echo, if readSock then v.fromSock else None, v.pass, toybuf);
      if go {
        go := Writes(if writePty then v.toPty else None, if writeSock then v.toSock else None);
      }
    }

    /** An answer of the pty or the socket counts exactly if select() was asked about it. */
    lemma AskedAbout(v: Visit)
      requires Valid() && ptyFd != newFd
      ensures var (w, pty, sock) := (Values(), ptyFd > 0, newFd >= 0);
        && PtyAnswer(w, v, pty) == (if WantsRead(ptyFd) then v.fromPty else None)
        && SockAnswer(w, v, sock) == (if WantsRead(newFd) then v.fromSock else None)
        && PtyTakes(w, v, pty) == (if WantsWrite(ptyFd) then v.toPty else None)
        && SockTakes(w, v, sock) == (if WantsWrite(newFd) then v.toSock else None)
    {
      HoldsUnsent();
      HoldsUnwritten();
    }

    /** The fields tell what select() was asked about. */
    lemma Answers(v: Visit)
      requires Valid()
      ensures PtyAnswer(Values(), v, ptyFd > 0) == if ptyFd > 0 && buff1Avail < BUFSIZE then v.fromPty else None
      ensures SockAnswer(Values(), v, newFd >= 0) == if newFd >= 0 && buff2Avail < BUFSIZE then v.fromSock else None
      ensures PtyTakes(Values(), v, ptyFd > 0) == if ptyFd > 0 && buff2Written < buff2Avail then v.toPty else None
      ensures SockTakes(Values(), v, newFd >= 0) == if newFd >= 0 && buff1Written < buff1Avail then v.toSock else None
    {
      HoldsUnsent();
      HoldsUnwritten();
    }

    method Reads(fromPty: Option<Input>, echo: nat, fromSock: Option<Input>, pass: Output, toybuf: array<Byte>)
      returns (go: bool, ghost past: Byte)
      requires Valid() && toybuf.Length == BUFSIZE && toybuf != mem
      modifies `buff1Avail, `buff1Written, `outward, `socket, `buff2Avail, `rem, `buff2Written, `inward, mem, toybuf
      ensures Valid() && (Values(), go) == TelnetdVisit.Reads(old(Values()), fromPty, echo, fromSock, pass, past)
    {
      hide OutValid, InValid, TelnetdVisit.FromPty, TelnetdVisit.FromSock;
      go, past := true, 0;
      if fromPty.Some? {
        go := FromPty(fromPty.value, echo);
      }
      if go && fromSock.Some? {
        go, past := FromSock(fromSock.value, pass, toybuf);
      }
    }

    method Writes(toPty: Option<Output>, toSock: Option<nat>) returns (go: bool)
      requires Valid()
      modifies `buff1Avail, `buff1Written, `outward, `socket, `buff2Avail, `buff2Written, `inward
      ensures Valid() && (Values(), go) == TelnetdVisit.Writes(old(Values()), toPty, toSock)
    {
      hide OutValid, InValid, Rewound, Sent;
      go := true;
      if toPty.Some? {
        go := WritePty(toPty.value);
      }
      if go {
        if toSock.Some? {
          WriteSocket(toSock.value);
        }
        Rewind();
      }
    }

    method FromPty(x: Input, echo: nat) returns (go: bool)
      requires Valid()
      modifies `buff1Avail, `buff1Written, `outward, `socket, mem
      ensures Valid() && (outward, go) == TelnetdVisit.FromPty(old(outward), x, echo)
    {
      hide OutValid, InValid, Sent, Filled;
      HasRoom();
      go := x.Data?;
      if go {
        ReadPty(Take(x.bytes, BUFSIZE - buff1Avail));
        WriteSocket(echo);
      }
    }

    method FromSock(x: Input, pass: Output, toybuf: array<Byte>) returns (go: bool, ghost past: Byte)
      requires Valid() && toybuf.Length == BUFSIZE && toybuf != mem
      modifies `buff2Avail, `buff2Written, `rem, `inward, mem, toybuf
      ensures Valid() && (inward, go) == TelnetdVisit.FromSock(old(inward), x, pass, past)
    {
      hide Decode, Passed, Extended, Used, Take;
      go, past := x.Data?, 0;
      if go {
        ghost var d, before := Decoded([], [], 0), mem[..];
        d, past := ReadSocket(Take(x.bytes, BUFSIZE - buff2Avail), toybuf);
        SamePrefix(before, mem[..], BUFSIZE, buff1Written, buff1Avail);
        go := WritePty(pass);
      }
    }

    lemma Starts()
      ensures forall pty, sock :: AfterVisits(START, [], [], pty, sock) == START
    {
    }

    lemma Holds()
      requires Valid()
      ensures outward.sent <= outward.read && socket == Doubled(outward.sent) && inward.written <= inward.decoded
      ensures buff1Written == buff1Avail ==> socket == Doubled(outward.read)
      ensures buff2Written == buff2Avail ==> inward.written == inward.decoded
    {
      if buff1Written == buff1Avail {
        assert mem[buff1Written..buff1Avail] == [];
        assert outward.read == outward.sent;
      }
    }

    /** Any schedule of visits does to a new session what AfterVisits says: the socket has got the doubling of a
        prefix of the pty's bytes, and the pty a prefix of the decoded ones, the rest being held in the two
        buffers. */
    method Run(visits: seq<Visit>, toybuf: array<Byte>) returns (ghost pasts: seq<Byte>)
      requires Valid() && Values() == START && toybuf.Length == BUFSIZE && toybuf != mem
      modifies `buff1Avail, `buff1Written, `outward, `socket, `buff2Avail, `buff2Written, `rem, `inward, mem, toybuf
      ensures Valid() && |pasts| == |visits|
      ensures Values() == AfterVisits(START, visits, pasts, ptyFd > 0, newFd >= 0)
      ensures outward.read == TelnetdAnswers.AllRead(visits, pasts, ptyFd > 0, newFd >= 0)
      ensures outward.sent <= outward.read && socket == Doubled(outward.sent) && inward.written <= inward.decoded
      ensures buff1Written == buff1Avail ==> socket == Doubled(outward.read)
      ensures buff2Written == buff2Avail ==> inward.written == inward.decoded
    {
      hide Visited, AfterVisits, OutValid, InValid, OutwardKept, InwardKept;
      pasts := [];
      Starts();
      for k := 0 to |visits|
        invariant Valid() && |pasts| == k
        invariant Values() == AfterVisits(START, visits[..k], pasts, ptyFd > 0, newFd >= 0)
      {
        var go;
        ghost var past;
        go, past := Serve(visits[k], toybuf);
        VisitsSnoc(START, visits[..k], pasts, visits[k], past, ptyFd > 0, newFd >= 0);
        assert visits[..k] + [visits[k]] == visits[..k + 1];
        pasts := pasts + [past];
      }
      assert visits[..|visits|] == visits;
      Holds();
      TelnetdAnswers.PtyIsRead(visits, pasts, ptyFd > 0, newFd >= 0);
    }
  }
}

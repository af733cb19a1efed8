/** What telnetd's visits do with what the calls return, told by the answers and not by the transitions of
    TelnetdVisit. */
module TelnetdAnswers {
  import opened Bytes
  import opened TelnetCodec
  import opened Telnetd
  import opened TelnetdVisit

  /** The reads of a visit succeed, so that its writes are reached. */
  predicate ReadsGoOn(v: View, x: Visit, pty: bool, sock: bool) {
    && !PtyEnds(v, x, pty)
    && (sock && v.inward.avail < BUFSIZE && x.fromSock.Some? ==> x.fromSock.value.Data? && x.pass.Wrote?)
  }

  predicate GoesOn(v: View, x: Visit, pty: bool, sock: bool) {
    ReadsGoOn(v, x, pty, sock) && !(pty && v.inward.written != v.inward.decoded && x.toPty == Some(Failed))
  }

  /** How many bytes the pty takes in a visit, if there are so many. */
  function PtyTakesUpTo(v: View, x: Visit, pty: bool, sock: bool): nat {
    var passed := if Taken(v, x, pty, sock) != [] && x.pass.Wrote? then x.pass.n else 0;
    var more := ReadsGoOn(v, x, pty, sock) && pty && v.inward.written != v.inward.decoded;
    passed + if more && x.toPty.Some? && x.toPty.value.Wrote? then x.toPty.value.n else 0
  }

  /** How many writes to the socket succeed in a visit, if so many are tried. */
  function SockCalls(v: View, x: Visit, pty: bool, sock: bool): nat {
    var echo := if PtyTaken(v, x, pty) != [] then x.echo else 0;
    echo +
    if GoesOn(v, x, pty, sock) && sock && v.outward.sent != v.outward.read && x.toSock.Some? then x.toSock.value else 0
  }

  // ---- From the pty to the socket ----

  /** A visit reads what it takes from the pty, and sends as much as the writes that succeed can carry. */
  predicate OutAfter(v: View, a: View, x: Visit, pty: bool, sock: bool) {
    var o := v.outward;
    var unsent := Drop(o.read + PtyTaken(v, x, pty), |o.sent|);
    && a.outward.read == o.read + PtyTaken(v, x, pty)
    && a.outward.sent == o.sent + unsent[..Consumed(unsent, SockCalls(v, x, pty, sock))]
  }

  lemma UnsentIs(o: Outward)
    requires OutwardKept(o)
    ensures o.sent + Unsent(o) == o.read && (Unsent(o) == [] <==> o.sent == o.read)
  {
  }

  lemma UnwrittenIs(i: Inward)
    requires InwardKept(i)
    ensures i.written + Unwritten(i) == i.decoded && (Unwritten(i) == [] <==> i.written == i.decoded)
  {
  }

  /** Two sends are one. */
  lemma SentTwice(o: Outward, a: nat, b: nat)
    requires OutwardKept(o)
    ensures Sent(Sent(o, a), b).sent == Sent(o, a + b).sent
  {
    hide Consumed, Unsent, OutwardKept;
    var data := Unsent(o);
    var n := Consumed(data, a);
    ConsumedTwice(data, a, b);
    UnsentAfter(o, a);
    var m := Consumed(data[n..], b);
    assert data[..n] + data[n..][..m] == data[..n + m];
    Assoc(o.sent, data[..n], data[n..][..m]);
  }

  lemma UnsentAfter(o: Outward, calls: nat)
    requires OutwardKept(o)
    ensures Unsent(Sent(o, calls)) == Unsent(o)[Consumed(Unsent(o), calls)..]
  {
    hide Consumed;
    var (data, n) := (Unsent(o), Consumed(Unsent(o), calls));
    UnsentIs(o);
    assert data[..n] + data[n..] == data;
    Assoc(o.sent, data[..n], data[n..]);
    assert o.read == (o.sent + data[..n]) + data[n..];
  }

  lemma SentNone(o: Outward)
    ensures Sent(o, 0) == o
  {
    assert Consumed(Unsent(o), 0) == 0 && Unsent(o)[..0] == [] && o.sent + [] == o.sent;
  }

  /** What is read and then sent. */
  lemma FilledSent(v: View, x: Visit, pty: bool, echo: nat)
    requires TelnetdVisit.Kept(v)
    ensures var (o, data) := (v.outward, PtyTaken(v, x, pty));
      var a := if data == [] then o else Sent(Filled(o, data), echo);
      OutwardKept(a) && a.read == o.read + data &&
      a.sent == Sent(Filled(o, data), if data == [] then 0 else echo).sent
  {
    var (o, data) := (v.outward, PtyTaken(v, x, pty));
    FilledKeeps(o, data);
    SentNone(Filled(o, data));
    assert data == [] ==> o.read + data == o.read;
    SentKeeps(Filled(o, data), echo);
  }

  lemma ReadsOut(v: View, x: Visit, past: Byte, pty: bool, sock: bool)
    ensures var (o, data) := (v.outward, PtyTaken(v, x, pty));
      Reads(v, PtyAnswer(v, x, pty), x.echo, SockAnswer(v, x, sock), x.pass, past).0.outward ==
      if data == [] then o else Sent(Filled(o, data), x.echo)
  {
    hide FromSock, Sent, Filled;
  }

  lemma WritesOut(a: View, toPty: Option<Output>, toSock: Option<nat>)
    ensures var (o, b) := (a.outward, Writes(a, toPty, toSock).0.outward);
      var calls := if toPty != Some(Failed) && toSock.Some? then toSock.value else 0;
      b.read == o.read && b.sent == Sent(o, calls).sent
  {
    hide Consumed;
    SentNone(a.outward);
  }

  /** In every visit: what goes to the socket, by the answers. */
  lemma VisitSends(v: View, x: Visit, past: Byte, pty: bool, sock: bool)
    requires TelnetdVisit.Kept(v)
    ensures OutAfter(v, Visited(v, x, past, pty, sock).0, x, pty, sock)
  {
    hide Reads, Writes, Sent, Passed, OutwardKept, InwardKept, Consumed;
    var (o, data) := (v.outward, PtyTaken(v, x, pty));
    var n := if data == [] then 0 else x.echo;
    var calls := SockCalls(v, x, pty, sock) - n;
    var (a, go) := Reads(v, PtyAnswer(v, x, pty), x.echo, SockAnswer(v, x, sock), x.pass, past);
    ReadsOut(v, x, past, pty, sock);
    ReadsPass(v, x, past, pty, sock);
    FilledSent(v, x, pty, x.echo);
    FilledKept(v, x, pty);
    SentTwice(Filled(o, data), n, calls);
    FilledIsSent(o, data, n + calls);
    SentNone(a.outward);
    SentAlike(a.outward, Sent(Filled(o, data), n), calls);
    VisitAnswers(v, x, pty, sock);
    WritesOut(a, PtyTakes(v, x, pty), SockTakes(v, x, sock));
  }

  lemma FilledKept(v: View, x: Visit, pty: bool)
    requires TelnetdVisit.Kept(v)
    ensures OutwardKept(Filled(v.outward, PtyTaken(v, x, pty)))
  {
    FilledKeeps(v.outward, PtyTaken(v, x, pty));
  }

  lemma SentAlike(a: Outward, b: Outward, calls: nat)
    ensures a.read == b.read && a.sent == b.sent ==> Sent(a, calls).sent == Sent(b, calls).sent
  {
  }

  /** What the visit's writes are asked about. */
  lemma VisitAnswers(v: View, x: Visit, pty: bool, sock: bool)
    requires TelnetdVisit.Kept(v)
    ensures PtyTakes(v, x, pty) == if pty && v.inward.written != v.inward.decoded then x.toPty else None
    ensures SockTakes(v, x, sock) == if sock && v.outward.sent != v.outward.read then x.toSock else None
  {
    UnsentIs(v.outward);
    UnwrittenIs(v.inward);
  }

  lemma PassedGoes(i: Inward, y: Output)
    ensures Passed(i, y).1 == y.Wrote?
  {
  }

  lemma FilledIsSent(o: Outward, data: seq<Byte>, calls: nat)
    ensures var unsent := Drop(o.read + data, |o.sent|);
      Sent(Filled(o, data), calls).sent == o.sent + unsent[..Consumed(unsent, calls)]
  {
  }

  /** All that visits to a new session take from the pty. */
  function AllRead(xs: seq<Visit>, pasts: seq<Byte>, pty: bool, sock: bool): seq<Byte>
    requires |pasts| == |xs|
  {
    if xs == [] then []
    else
      var n := |xs| - 1;
      AllRead(xs[..n], pasts[..n], pty, sock) +
      PtyTaken(AfterVisits(TelnetdVisit.START, xs[..n], pasts[..n], pty, sock), xs[n], pty)
  }

  /** Over any visits, what has been read is all that they have taken from the pty. */
  lemma {:induction false} PtyIsRead(xs: seq<Visit>, pasts: seq<Byte>, pty: bool, sock: bool)
    requires |pasts| == |xs|
    ensures AfterVisits(TelnetdVisit.START, xs, pasts, pty, sock).outward.read == AllRead(xs, pasts, pty, sock)
  {
    hide Visited, PtyTaken, SockCalls;
    if xs != [] {
      var n := |xs| - 1;
      PtyIsRead(xs[..n], pasts[..n], pty, sock);
      VisitsKeep(xs[..n], pasts[..n], pty, sock);
      VisitSends(AfterVisits(TelnetdVisit.START, xs[..n], pasts[..n], pty, sock), xs[n], pasts[n], pty, sock);
    }
  }

  // ---- From the socket to the pty ----

  /** A visit decodes what it takes from the socket, but for as many bytes at the end as buff2 has in use; and writes as
      much as the pty takes. */
  predicate InAfter(v: View, a: View, x: Visit, past: Byte, pty: bool, sock: bool) {
    var (i, b, taken, n) := (v.inward, a.inward, Taken(v, x, pty, sock), PtyTakesUpTo(v, x, pty, sock));
    && b.decoded == i.decoded + Decode(taken[..if i.avail < |taken| then |taken| - i.avail else 0], past).out
    && i.written <= b.written <= b.decoded && |b.written| - |i.written| <= n
    && (|b.written| - |i.written| < n ==> b.written == b.decoded)
  }

  lemma PassedMoves(i: Inward, y: Output)
    requires InwardKept(i)
    ensures var (a, go) := Passed(i, y);
      && go == y.Wrote? && a.decoded == i.decoded && i.written <= a.written <= a.decoded
      && (y.Wrote? ==> |a.written| - |i.written| <= y.n && (|a.written| - |i.written| < y.n ==> a.written == a.decoded))
      && (y.Failed? ==> a == i)
  {
    PassedKeeps(i, y);
    UnwrittenIs(i);
  }

  lemma ReadsPass(v: View, x: Visit, past: Byte, pty: bool, sock: bool)
    requires TelnetdVisit.Kept(v)
    ensures var (i, taken) := (v.inward, Taken(v, x, pty, sock));
      var (r, go) := Reads(v, PtyAnswer(v, x, pty), x.echo, SockAnswer(v, x, sock), x.pass, past);
      var (b, n) := (r.inward, if taken != [] && x.pass.Wrote? then x.pass.n else 0);
      && go == ReadsGoOn(v, x, pty, sock)
      && b.decoded == i.decoded + Decode(taken[..if i.avail < |taken| then |taken| - i.avail else 0], past).out
      && i.written <= b.written <= b.decoded && |b.written| - |i.written| <= n
      && (|b.written| - |i.written| < n ==> b.written == b.decoded)
  {
    hide Passed, DecodeFrom;
    var (i, taken) := (v.inward, Taken(v, x, pty, sock));
    if taken == [] {
      NothingDecoded(past);
      assert i.decoded + [] == i.decoded;
    } else {
      var used := Used(taken, i.avail);
      DecodedFits([], [], used, past);
      PassedMoves(Extended(i, Decode(used, past).out), x.pass);
    }
  }

  lemma NothingDecoded(past: Byte)
    ensures Decode([], past).out == []
  {
  }

  /** In every visit: what comes from the socket and goes to the pty, by the answers. */
  lemma VisitWrites(v: View, x: Visit, past: Byte, pty: bool, sock: bool)
    requires TelnetdVisit.Kept(v)
    ensures InAfter(v, Visited(v, x, past, pty, sock).0, x, past, pty, sock)
  {
    hide Reads, Passed, Decode;
    ReadsPass(v, x, past, pty, sock);
    UnwrittenIs(v.inward);
    var fromPty, fromSock := PtyAnswer(v, x, pty), SockAnswer(v, x, sock);
    var (a, go) := Reads(v, fromPty, x.echo, fromSock, x.pass, past);
    ReadsKeep(v, fromPty, x.echo, fromSock, x.pass, past);
    if go && PtyTakes(v, x, pty).Some? {
      PassedMoves(a.inward, PtyTakes(v, x, pty).value);
    }
  }

  /** The loop goes on after a visit exactly if each read that select() has been asked about yields something and no
      write to the pty fails. */
  lemma VisitGoesOn(v: View, x: Visit, past: Byte, pty: bool, sock: bool)
    requires TelnetdVisit.Kept(v)
    ensures Visited(v, x, past, pty, sock).1 == GoesOn(v, x, pty, sock)
  {
    hide Reads, Passed, Decode;
    ReadsPass(v, x, past, pty, sock);
    UnwrittenIs(v.inward);
    var (a, go) := Reads(v, PtyAnswer(v, x, pty), x.echo, SockAnswer(v, x, sock), x.pass, past);
    if go && PtyTakes(v, x, pty).Some? {
      PassedGoes(a.inward, PtyTakes(v, x, pty).value);
    }
  }
}

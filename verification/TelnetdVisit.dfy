/** What a visit of telnetd's loop does to a session, as a function of values: the bytes on their way from the pty to
    the socket, and from the socket to the pty. */
module TelnetdVisit {
  import opened Bytes
  import opened TelnetCodec
  import opened Telnetd

  /** What read() and write() may return; a count written is cut to what was offered. */
  type Chunk = bytes: seq<Byte> | bytes != [] witness [0]
  datatype Input = Data(bytes: Chunk) | NoData
  datatype Output = Wrote(n: nat) | Failed

  /** One visit of the loop to a session: which of the descriptors it asked about select() reports, and what
      the calls on them return.  A nat counts the writeall() calls that succeed before one fails. */
  datatype Visit = Visit(fromPty: Option<Input>, echo: nat, fromSock: Option<Input>, pass: Output,
                         toPty: Option<Output>, toSock: Option<nat>)

  /** The part of a chunk that is decoded.  It is taken to end as many bytes too early as buff2 has in use, written
      or not: those at its end are never looked at. */
  function Used(bytes: seq<Byte>, avail: nat): seq<Byte> {
    if avail < |bytes| then bytes[..|bytes| - avail] else []
  }

  /** Without IAC and CR, bytes are their own encoding. */
  predicate IsPlain(bytes: seq<Byte>) {
    IAC !in bytes && CR !in bytes
  }

  lemma {:induction false} PlainKeysAreTheirEncoding(bytes: seq<Byte>)
    requires IsPlain(bytes)
    ensures EncodeKeys(bytes) == bytes
  {
    if bytes != [] {
      var init, last := bytes[..|bytes| - 1], bytes[|bytes| - 1];
      assert last in bytes && bytes == init + [last];
      PlainKeysAreTheirEncoding(init);
      assert EncodeKeys(bytes) == EncodeKeys(init) + [last];
    }
  }

  lemma {:induction false} PlainKeysAreKept(bytes: seq<Byte>)
    requires CR !in bytes
    ensures WithoutLineEnds(bytes) == bytes
  {
    if bytes != [] {
      PlainKeysAreKept(bytes[1..]);
      assert bytes[0] in bytes;
    }
  }

  lemma PlainIsDecoded(bytes: seq<Byte>, past: Byte)
    requires IsPlain(bytes)
    ensures Decode(bytes, past).out == bytes
  {
    PlainKeysAreTheirEncoding(bytes);
    PlainKeysAreKept(bytes);
    KeysRoundTrip(bytes, past);
  }

  // ---- One visit ----

  /** From the pty to the socket: all bytes read, those of them sent, and how much of buff1 is in use, sent or not. */
  datatype Outward = Outward(read: seq<Byte>, sent: seq<Byte>, avail: nat)

  /** From the socket to the pty: all bytes decoded, those of them written, and how much of buff2 is in use. */
  datatype Inward = Inward(decoded: seq<Byte>, written: seq<Byte>, avail: nat)

  datatype View = View(outward: Outward, inward: Inward)

  const START := View(Outward([], [], 0), Inward([], [], 0))

  function Room(avail: nat): nat {
    if avail < BUFSIZE then BUFSIZE - avail else 0
  }

  /** What a buffer holds. */
  function Unsent(o: Outward): seq<Byte> {
    Drop(o.read, |o.sent|)
  }

  function Unwritten(i: Inward): seq<Byte> {
    Drop(i.decoded, |i.written|)
  }

  function Sent(o: Outward, calls: nat): Outward {
    o.(sent := o.sent + Unsent(o)[..Consumed(Unsent(o), calls)])
  }

  function Filled(o: Outward, bytes: seq<Byte>): Outward {
    o.(read := o.read + bytes, avail := o.avail + |bytes|)
  }

  function FromPty(o: Outward, x: Input, echo: nat): (Outward, bool) {
    if x.NoData? then (o, false) else (Sent(Filled(o, Take(x.bytes, Room(o.avail))), echo), true)
  }

  function Passed(i: Inward, y: Output): (Inward, bool) {
    if y.Failed? then (i, false) else (i.(written := i.written + Take(Unwritten(i), y.n)), true)
  }

  function Extended(i: Inward, out: seq<Byte>): Inward {
    i.(decoded := i.decoded + out, avail := i.avail + |out|)
  }

  /** A chunk is decoded, behind what is in use of buff2; `past` is the byte behind the chunk in memory. */
  function FromSock(i: Inward, x: Input, pass: Output, past: Byte): (Inward, bool) {
    if x.NoData? then (i, false)
    else Passed(Extended(i, Decode(Used(Take(x.bytes, Room(i.avail)), i.avail), past).out), pass)
  }

  function Rewound(v: View): View {
    View(if Unsent(v.outward) == [] then v.outward.(avail := 0) else v.outward,
         if Unwritten(v.inward) == [] then v.inward.(avail := 0) else v.inward)
  }

  /** Whether select() was asked about the pty (`pty` says that the session has one) and the socket. */
  function PtyAnswer(v: View, x: Visit, pty: bool): Option<Input> {
    if pty && Room(v.outward.avail) > 0 then x.fromPty else None
  }

  function SockAnswer(v: View, x: Visit, sock: bool): Option<Input> {
    if sock && Room(v.inward.avail) > 0 then x.fromSock else None
  }

  function PtyTakes(v: View, x: Visit, pty: bool): Option<Output> {
    if pty && Unwritten(v.inward) != [] then x.toPty else None
  }

  function SockTakes(v: View, x: Visit, sock: bool): Option<nat> {
    if sock && Unsent(v.outward) != [] then x.toSock else None
  }

  function Reads(v: View, fromPty: Option<Input>, echo: nat, fromSock: Option<Input>, pass: Output, past: Byte)
    : (View, bool)
  {
    var (o, go) := if fromPty.Some? then FromPty(v.outward, fromPty.value, echo) else (v.outward, true);
    if !go || fromSock.None? then (v.(outward := o), go)
    else
      var (i, goOn) := FromSock(v.inward, fromSock.value, pass, past);
      (View(o, i), goOn)
  }

  function Writes(v: View, toPty: Option<Output>, toSock: Option<nat>): (View, bool) {
    var (i, go) := if toPty.Some? then Passed(v.inward, toPty.value) else (v.inward, true);
    if !go then (v, false)
    else (Rewound(View(if toSock.Some? then Sent(v.outward, toSock.value) else v.outward, i)), true)
  }

  /** One visit, and whether the loop over the sessions goes on after it. */
  function Visited(v: View, x: Visit, past: Byte, pty: bool, sock: bool): (View, bool) {
    var (a, go) := Reads(v, PtyAnswer(v, x, pty), x.echo, SockAnswer(v, x, sock), x.pass, past);
    if !go then (a, false) else Writes(a, PtyTakes(v, x, pty), SockTakes(v, x, sock))
  }

  /** Many visits, whether or not the loop goes on after each. */
  function AfterVisits(v: View, xs: seq<Visit>, pasts: seq<Byte>, pty: bool, sock: bool): View
    requires |pasts| == |xs|
  {
    if xs == [] then v
    else
      var n := |xs| - 1;
      Visited(AfterVisits(v, xs[..n], pasts[..n], pty, sock), xs[n], pasts[n], pty, sock).0
  }

  lemma VisitsSnoc(v: View, xs: seq<Visit>, pasts: seq<Byte>, x: Visit, past: Byte, pty: bool, sock: bool)
    requires |pasts| == |xs|
    ensures AfterVisits(v, xs + [x], pasts + [past], pty, sock) ==
            Visited(AfterVisits(v, xs, pasts, pty, sock), x, past, pty, sock).0
  {
    assert (xs + [x])[..|xs|] == xs && (pasts + [past])[..|xs|] == pasts;
  }

  // ---- What visits keep ----

  /** What is sent or written is a prefix of what was read or decoded, and the rest fits the buffer. */
  predicate OutwardKept(o: Outward) {
    o.sent <= o.read && |o.read| - |o.sent| <= o.avail <= BUFSIZE
  }

  predicate InwardKept(i: Inward) {
    i.written <= i.decoded && |i.decoded| - |i.written| <= i.avail <= BUFSIZE
  }

  predicate Kept(v: View) {
    OutwardKept(v.outward) && InwardKept(v.inward)
  }

  /** Nothing is ever taken back. */
  predicate Grown(v: View, w: View) {
    && v.outward.read <= w.outward.read && v.outward.sent <= w.outward.sent
    && v.inward.decoded <= w.inward.decoded && v.inward.written <= w.inward.written
  }

  lemma SentKeeps(o: Outward, calls: nat)
    requires OutwardKept(o)
    ensures var a := Sent(o, calls);
      && OutwardKept(a) && o.sent <= a.sent && a.read == o.read && a.avail == o.avail
      && (Unsent(o) != [] && calls > 0 ==> |a.sent| > |o.sent|)
      && (|Unsent(o)| <= calls ==> a.sent == a.read)
  {
    CallsConsume(Unsent(o), calls);
    assert o.sent + Unsent(o) == o.read;
    var n := Consumed(Unsent(o), calls);
    assert o.sent + Unsent(o)[..n] == o.read[..|o.sent| + n];
  }

  lemma FilledKeeps(o: Outward, bytes: seq<Byte>)
    requires OutwardKept(o) && |bytes| <= Room(o.avail)
    ensures OutwardKept(Filled(o, bytes))
  {
  }

  lemma PassedKeeps(i: Inward, y: Output)
    requires InwardKept(i)
    ensures var a := Passed(i, y).0;
      && InwardKept(a) && i.written <= a.written && a.decoded == i.decoded && a.avail == i.avail
      && (y.Wrote? && y.n > 0 && Unwritten(i) != [] ==> |a.written| > |i.written|)
  {
    if y.Wrote? {
      var head := Take(Unwritten(i), y.n);
      assert i.written + Unwritten(i) == i.decoded;
      assert i.written + head == i.decoded[..|i.written| + |head|];
    }
  }

  lemma FromSockKeeps(i: Inward, x: Input, pass: Output, past: Byte)
    requires InwardKept(i)
    ensures var a := FromSock(i, x, pass, past).0;
      InwardKept(a) && i.decoded <= a.decoded && i.written <= a.written
  {
    if x.Data? {
      var used := Used(Take(x.bytes, Room(i.avail)), i.avail);
      DecodedFits([], [], used, past);
      PassedKeeps(Extended(i, Decode(used, past).out), pass);
    }
  }

  lemma FromPtyKeeps(o: Outward, x: Input, echo: nat)
    requires OutwardKept(o)
    ensures var a := FromPty(o, x, echo).0; OutwardKept(a) && o.read <= a.read && o.sent <= a.sent
  {
    if x.Data? {
      var bytes := Take(x.bytes, Room(o.avail));
      FilledKeeps(o, bytes);
      SentKeeps(Filled(o, bytes), echo);
    }
  }

  lemma ReadsKeep(v: View, fromPty: Option<Input>, echo: nat, fromSock: Option<Input>, pass: Output, past: Byte)
    requires Kept(v)
    ensures var (a, go) := Reads(v, fromPty, echo, fromSock, pass, past);
      && Kept(a) && Grown(v, a)
      && (go <==> fromPty != Some(NoData) && (fromSock.Some? ==> fromSock.value.Data? && pass.Wrote?))
  {
    if fromPty.Some? {
      FromPtyKeeps(v.outward, fromPty.value, echo);
    }
    if fromSock.Some? {
      FromSockKeeps(v.inward, fromSock.value, pass, past);
    }
  }

  lemma WritesKeep(v: View, toPty: Option<Output>, toSock: Option<nat>)
    requires Kept(v)
    ensures var (a, go) := Writes(v, toPty, toSock);
      && Kept(a) && Grown(v, a) && (go <==> toPty != Some(Failed))
      && (go && toPty.Some? && toPty.value.n > 0 && Unwritten(v.inward) != [] ==>
           |a.inward.written| > |v.inward.written|)
      && (go && toSock.Some? && toSock.value > 0 && Unsent(v.outward) != [] ==> |a.outward.sent| > |v.outward.sent|)
  {
    if toPty.Some? {
      PassedKeeps(v.inward, toPty.value);
    }
    if toSock.Some? {
      SentKeeps(v.outward, toSock.value);
    }
  }

  /** A visit takes nothing back and keeps what is pending within the buffers.  The loop goes on after it exactly
      if every read that select() was asked about yields something and no write to the pty fails. */
  lemma VisitKeeps(v: View, x: Visit, past: Byte, pty: bool, sock: bool)
    requires Kept(v)
    ensures var (a, go) := Visited(v, x, past, pty, sock);
      && Kept(a) && Grown(v, a)
      && (go <==>
           && PtyAnswer(v, x, pty) != Some(NoData) && SockAnswer(v, x, sock) != Some(NoData)
           && (SockAnswer(v, x, sock).Some? ==> x.pass.Wrote?) && PtyTakes(v, x, pty) != Some(Failed))
  {
    var fromPty, fromSock := PtyAnswer(v, x, pty), SockAnswer(v, x, sock);
    ReadsKeep(v, fromPty, x.echo, fromSock, x.pass, past);
    WritesKeep(Reads(v, fromPty, x.echo, fromSock, x.pass, past).0, PtyTakes(v, x, pty), SockTakes(v, x, sock));
  }

  /** After any visits to a new session, what the socket has got for is a prefix of the pty's bytes, and what the
      pty has got one of the decoded bytes; what is missing is held in the buffers. */
  lemma {:induction false} VisitsKeep(xs: seq<Visit>, pasts: seq<Byte>, pty: bool, sock: bool)
    requires |pasts| == |xs|
    ensures Kept(AfterVisits(START, xs, pasts, pty, sock))
  {
    if xs != [] {
      var n := |xs| - 1;
      VisitsKeep(xs[..n], pasts[..n], pty, sock);
      VisitKeeps(AfterVisits(START, xs[..n], pasts[..n], pty, sock), xs[n], pasts[n], pty, sock);
    }
  }

  // ---- What of the client's keys arrives ----

  /** Of a plain chunk that is read while n bytes of buff2 are in use, the last n are lost (all, if it has no more);
      so it arrives whole exactly if none is in use. */
  lemma BufferInUseLosesInput(i: Inward, bytes: Chunk, pass: Output, past: Byte)
    requires IsPlain(bytes) && |bytes| <= Room(i.avail)
    ensures var a := FromSock(i, Input.Data(bytes), pass, past).0;
      && a.decoded == i.decoded + bytes[..if i.avail < |bytes| then |bytes| - i.avail else 0]
      && (a.decoded == i.decoded + bytes <==> i.avail == 0)
  {
    PlainIsDecoded(Used(bytes, i.avail), past);
  }

  /** After a visit that goes on, none of a buffer is in use exactly if nothing is pending in it. */
  lemma NoneInUse(v: View, x: Visit, past: Byte, pty: bool, sock: bool)
    requires Kept(v)
    ensures var (a, go) := Visited(v, x, past, pty, sock);
      && (go ==> (a.inward.avail == 0 <==> a.inward.written == a.inward.decoded))
      && (go ==> (a.outward.avail == 0 <==> a.outward.sent == a.outward.read))
  {
    VisitKeeps(v, x, past, pty, sock);
  }

  /** The pty has nothing to give when it is asked. */
  predicate PtyEnds(v: View, x: Visit, pty: bool) {
    pty && v.outward.avail < BUFSIZE && x.fromPty == Some(NoData)
  }

  /** What a visit takes from the pty, and from the socket: as much as the buffer has room for. */
  function PtyTaken(v: View, x: Visit, pty: bool): seq<Byte> {
    if pty && v.outward.avail < BUFSIZE && x.fromPty.Some? && x.fromPty.value.Data? then
      Take(x.fromPty.value.bytes, BUFSIZE - v.outward.avail)
    else []
  }

  function Taken(v: View, x: Visit, pty: bool, sock: bool): seq<Byte> {
    if !PtyEnds(v, x, pty) && sock && v.inward.avail < BUFSIZE && x.fromSock.Some? && x.fromSock.value.Data? then
      Take(x.fromSock.value.bytes, BUFSIZE - v.inward.avail)
    else []
  }

  predicate PlainVisits(xs: seq<Visit>) {
    forall k :: 0 <= k < |xs| && xs[k].fromSock.Some? && xs[k].fromSock.value.Data? ==>
                  IsPlain(xs[k].fromSock.value.bytes)
  }

  /** All that the visits take from the socket. */
  function AllTaken(xs: seq<Visit>, pasts: seq<Byte>, pty: bool, sock: bool): seq<Byte>
    requires |pasts| == |xs|
  {
    if xs == [] then []
    else
      var n := |xs| - 1;
      AllTaken(xs[..n], pasts[..n], pty, sock) +
      Taken(AfterVisits(START, xs[..n], pasts[..n], pty, sock), xs[n], pty, sock)
  }

  /** Whenever they take something, none of buff2 is in use. */
  predicate FoundUnused(xs: seq<Visit>, pasts: seq<Byte>, pty: bool, sock: bool)
    requires |pasts| == |xs|
  {
    xs == [] ||
    var n := |xs| - 1;
    var v := AfterVisits(START, xs[..n], pasts[..n], pty, sock);
    FoundUnused(xs[..n], pasts[..n], pty, sock) && (Taken(v, xs[n], pty, sock) != [] ==> v.inward.avail == 0)
  }

  lemma VisitDecodes(v: View, x: Visit, past: Byte, pty: bool, sock: bool)
    ensures var (a, taken) := (Visited(v, x, past, pty, sock).0, Taken(v, x, pty, sock));
      a.inward.decoded ==
      if taken == [] then v.inward.decoded else FromSock(v.inward, Input.Data(taken), x.pass, past).0.decoded
  {
    hide Decode, Used, FromPty, Sent;
    var fromPty, fromSock := PtyAnswer(v, x, pty), SockAnswer(v, x, sock);
    ReadsDecode(v, fromPty, x.echo, fromSock, x.pass, past);
  }

  lemma ReadsDecode(v: View, fromPty: Option<Input>, echo: nat, fromSock: Option<Input>, pass: Output, past: Byte)
    ensures Reads(v, fromPty, echo, fromSock, pass, past).0.inward ==
      if fromPty == Some(NoData) || fromSock.None? then v.inward else FromSock(v.inward, fromSock.value, pass, past).0
  {
    hide FromSock;
  }

  lemma TakenArrives(v: View, x: Visit, past: Byte, pty: bool, sock: bool)
    requires PlainVisits([x])
    ensures var (a, taken) := (Visited(v, x, past, pty, sock).0, Taken(v, x, pty, sock));
      var n := if v.inward.avail < |taken| then |taken| - v.inward.avail else 0;
      a.inward.decoded == v.inward.decoded + taken[..n]
  {
    hide Visited, FromSock;
    var taken := Taken(v, x, pty, sock);
    VisitDecodes(v, x, past, pty, sock);
    if taken == [] {
      assert v.inward.decoded + [] == v.inward.decoded;
    } else {
      assert [x][0].fromSock.value.Data?;
      var bytes := x.fromSock.value.bytes;
      assert forall b :: b in taken ==> b in bytes;
      BufferInUseLosesInput(v.inward, taken, x.pass, past);
    }
  }

  lemma SamePart(decoded: seq<Byte>, all: seq<Byte>, taken: seq<Byte>, avail: nat)
    requires |decoded| <= |all|
    ensures var part := decoded + taken[..if avail < |taken| then |taken| - avail else 0];
      |part| <= |all + taken| && (part == all + taken <==> decoded == all && (taken != [] ==> avail == 0))
  {
    var n := if avail < |taken| then |taken| - avail else 0;
    if decoded + taken[..n] == all + taken {
      assert |decoded| + n == |all| + |taken|;
      assert decoded == (decoded + taken[..n])[..|decoded|] && all == (all + taken)[..|all|];
    }
    assert taken[..|taken|] == taken;
  }

  /** Over any visits of plain chunks to a new session: all that is taken from the socket is decoded, and so is
      written to the pty or held for it, if and only if none of buff2 is in use whenever something is taken. */
  lemma {:induction false} ArrivesExactly(xs: seq<Visit>, pasts: seq<Byte>, pty: bool, sock: bool)
    requires |pasts| == |xs| && PlainVisits(xs)
    ensures var (i, taken) := (AfterVisits(START, xs, pasts, pty, sock).inward, AllTaken(xs, pasts, pty, sock));
      && |i.decoded| <= |taken|
      && (i.decoded == taken <==> FoundUnused(xs, pasts, pty, sock))
  {
    hide Visited, Taken;
    if xs != [] {
      var n := |xs| - 1;
      var v := AfterVisits(START, xs[..n], pasts[..n], pty, sock);
      ArrivesExactly(xs[..n], pasts[..n], pty, sock);
      assert [xs[n]][0] == xs[n];
      TakenArrives(v, xs[n], pasts[n], pty, sock);
      SamePart(v.inward.decoded, AllTaken(xs[..n], pasts[..n], pty, sock), Taken(v, xs[n], pty, sock), v.inward.avail);
    }
  }

  /** A visit in which only the socket has something: keys, of which `pass` are written to the pty at once. */
  function Keys(bytes: Chunk, pass: Output): Visit {
    Visit(None, 0, Some(Input.Data(bytes)), pass, None, None)
  }

  lemma KeysVisited(v: View, bytes: Chunk, pass: Output, toPty: Option<Output>, past: Byte)
    requires IsPlain(bytes) && |bytes| <= Room(v.inward.avail) && pass.Wrote?
    ensures var a := Visited(v, Keys(bytes, pass).(toPty := toPty), past, true, true).0;
      var out := bytes[..if v.inward.avail < |bytes| then |bytes| - v.inward.avail else 0];
      var i := Passed(Extended(v.inward, out), pass).0;
      a.inward == if Unwritten(v.inward) != [] && toPty.Some? then
                    (if toPty.value.Failed? then i else Rewound(View(v.outward, Passed(i, toPty.value).0)).inward)
                  else Rewound(View(v.outward, i)).inward
  {
    PlainIsDecoded(Used(bytes, v.inward.avail), past);
  }

  lemma TwoVisits(x: Visit, y: Visit, pasts: seq<Byte>)
    requires |pasts| == 2
    ensures var v := Visited(START, x, pasts[0], true, true).0;
      && AfterVisits(START, [x], pasts[..1], true, true) == v
      && AfterVisits(START, [x, y], pasts, true, true) == Visited(v, y, pasts[1], true, true).0
  {
    VisitsSnoc(START, [], [], x, pasts[0], true, true);
    VisitsSnoc(START, [x], pasts[..1], y, pasts[1], true, true);
    assert [] + [x] == [x] && [x] + [y] == [x, y];
    assert [] + [pasts[0]] == pasts[..1] && pasts[..1] + [pasts[1]] == pasts;
  }

  lemma FirstKeys(a: Chunk, w: nat, past: Byte)
    requires IsPlain(a) && w < |a| <= BUFSIZE
    ensures Visited(START, Keys(a, Wrote(w)), past, true, true).0.inward == Inward(a, a[..w], |a|)
  {
    hide Visited, IsPlain;
    KeysVisited(START, a, Wrote(w), None, past);
    assert a[..|a|] == a && [] + a == a && [] + a[..w] == a[..w];
  }

  lemma MoreKeys(v: View, b: Chunk, past: Byte)
    requires IsPlain(b) && |b| <= Room(v.inward.avail)
    ensures Visited(v, Keys(b, Wrote(0)), past, true, true).0.inward.decoded ==
            v.inward.decoded + b[..if v.inward.avail < |b| then |b| - v.inward.avail else 0]
  {
    KeysVisited(v, b, Wrote(0), None, past);
  }

  lemma FailedWrite(v: View, a: Chunk, w: nat, b: Chunk, past: Byte)
    requires w < |a| && |b| <= |a| && |a| + |b| <= BUFSIZE && IsPlain(b) && v.inward == Inward(a, a[..w], |a|)
    ensures Visited(v, Keys(b, Wrote(|a|)).(toPty := Some(Failed)), past, true, true).0.inward == Inward(a, a, |a|)
  {
    KeysVisited(v, b, Wrote(|a|), Some(Failed), past);
    assert a[..w] + a[w..] == a && a + b[..0] == a;
  }

  /** Keys a, of which the pty takes w at once, and then keys b: as many of b are lost as there are in a, not as many
      as are pending. */
  lemma PartlyWritten(a: Chunk, w: nat, b: Chunk, pasts: seq<Byte>)
    requires |pasts| == 2 && IsPlain(a) && IsPlain(b) && |a| + |b| <= BUFSIZE && w < |a|
    ensures var (first, second) := (Keys(a, Wrote(w)), Keys(b, Wrote(0)));
      && Unwritten(AfterVisits(START, [first], pasts[..1], true, true).inward) == a[w..]
      && AfterVisits(START, [first, second], pasts, true, true).inward.decoded ==
         a + b[..if |a| < |b| then |b| - |a| else 0]
  {
    hide Visited, AfterVisits, IsPlain;
    var first, second := Keys(a, Wrote(w)), Keys(b, Wrote(0));
    TwoVisits(first, second, pasts);
    FirstKeys(a, w, pasts[0]);
    MoreKeys(Visited(START, first, pasts[0], true, true).0, b, pasts[1]);
  }

  /** Nothing need be pending: keys b, of which none is decoded behind a, let all of a be written, but then a write
      that fails ends the round before the buffer is reset.  Of the next keys as many are lost as there are in a. */
  lemma NothingPending(a: Chunk, w: nat, b: Chunk, c: Chunk, pasts: seq<Byte>, past: Byte)
    requires |pasts| == 2 && IsPlain(a) && IsPlain(b) && IsPlain(c)
    requires w < |a| && |b| <= |a| && |a| + |b| <= BUFSIZE && |a| + |c| <= BUFSIZE
    ensures var xs := [Keys(a, Wrote(w)), Keys(b, Wrote(|a|)).(toPty := Some(Failed))];
      var v := AfterVisits(START, xs, pasts, true, true);
      && Unwritten(v.inward) == [] && v.inward.decoded == a
      && AfterVisits(START, xs + [Keys(c, Wrote(0))], pasts + [past], true, true).inward.decoded ==
         a + c[..if |a| < |c| then |c| - |a| else 0]
  {
    hide Visited, AfterVisits, IsPlain;
    var first, second, third := Keys(a, Wrote(w)), Keys(b, Wrote(|a|)).(toPty := Some(Failed)), Keys(c, Wrote(0));
    TwoVisits(first, second, pasts);
    VisitsSnoc(START, [first, second], pasts, third, past, true, true);
    FirstKeys(a, w, pasts[0]);
    var v := Visited(START, first, pasts[0], true, true).0;
    FailedWrite(v, a, w, b, pasts[1]);
    MoreKeys(Visited(v, second, pasts[1], true, true).0, c, past);
  }

  /** Where some visits to a new session lead. */
  ghost predicate Reached(v: View, pty: bool, sock: bool) {
    exists xs: seq<Visit>, pasts: seq<Byte> :: |pasts| == |xs| && AfterVisits(START, xs, pasts, pty, sock) == v
  }

  lemma StartIsReached(pty: bool, sock: bool)
    ensures Reached(START, pty, sock)
  {
    assert AfterVisits(START, [], [], pty, sock) == START;
  }

  lemma VisitReaches(v: View, x: Visit, past: Byte, pty: bool, sock: bool)
    requires Reached(v, pty, sock)
    ensures Reached(Visited(v, x, past, pty, sock).0, pty, sock)
  {
    var xs, pasts :| |pasts| == |xs| && AfterVisits(START, xs, pasts, pty, sock) == v;
    VisitsSnoc(START, xs, pasts, x, past, pty, sock);
    assert |pasts + [past]| == |xs + [x]|;
  }
}

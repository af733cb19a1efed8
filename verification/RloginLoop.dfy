/** The rlogin client's relay loop as transitions of a value: what is read, pending and written in each direction, and
    which descriptors select() is asked about. */
module RloginLoop {
  import opened Bytes
  import opened Rlogin
  import opened RloginWire

  // ---- What the kernel answers ----

  type Positive = n: int | 0 < n witness 1

  /** What read() and recv() may return; `retry` says that errno is EINTR or EAGAIN. */
  datatype Input = Data(bytes: seq<Byte>) | NoData(result: int, retry: bool)

  predicate Plausible(x: Input) {
    match x
    case Data(bytes) => 0 < |bytes| <= BUFLEN
    case NoData(result, _) => result <= 0
  }

  /** What write() may return; a positive count is cut to what was offered.  A count of 0 is not positive: then,
      too, `retry` says that errno, which an earlier call may have set, is EINTR or EAGAIN. */
  datatype Output = Wrote(n: Positive) | Blocked(retry: bool)

  /** What the kernel answers in one round of the loop: which descriptors select() reports, given that they
      were asked about, and what the calls on them return.  `first` and `second` are the window sizes the
      two TIOCGWINSZ calls would find. */
  datatype Round = Round(urgent: Option<Input>, resized: bool, fromSock: Option<Input>, toStdout: Option<Output>,
                         fromStdin: Option<Input>, toSock: Option<Output>, first: Winsize, second: Winsize)

  predicate PlausibleRound(r: Round) {
    && (r.urgent.Some? ==> Plausible(r.urgent.value))
    && (r.fromSock.Some? ==> Plausible(r.fromSock.value))
    && (r.fromStdin.Some? ==> Plausible(r.fromStdin.value))
  }

  // ---- What the client commits to send ----

  /** Upstream data in the order the client commits to it: what one read() of stdin returned, or a frame. */
  datatype Unit = Chunk(bytes: seq<Byte>) | Win(bytes: seq<Byte>, w: Winsize)

  predicate UnitOk(u: Unit) {
    if u.Win? then u.bytes == FrameBytes(u.w) else u.bytes != []
  }

  predicate Framed(us: seq<Unit>) {
    us == [] || (Framed(Init(us)) && UnitOk(Last(us)))
  }

  function Stream(us: seq<Unit>): seq<Byte> {
    if us == [] then [] else Stream(Init(us)) + Last(us).bytes
  }

  function TypedIn(u: Unit): seq<Byte> {
    if u.Chunk? then u.bytes else []
  }

  /** The stdin bytes among the units. */
  function Typed(us: seq<Unit>): seq<Byte> {
    if us == [] then [] else Typed(Init(us)) + TypedIn(Last(us))
  }

  lemma UnitsSnoc(us: seq<Unit>, u: Unit)
    ensures Stream(us + [u]) == Stream(us) + u.bytes && Typed(us + [u]) == Typed(us) + TypedIn(u)
    ensures Framed(us + [u]) <==> Framed(us) && UnitOk(u)
  {
    assert Init(us + [u]) == us;
  }

  // ---- The state of the loop ----

  /** Upstream: the bytes typed and the units they and the frames are committed in; those sent and those pending at
      off in the buffer; how many frames have been put into it since it was last empty; whether select() is asked
      about 0, the winch pipe and the socket for writing; whether the server knows window sizes. */
  datatype Up = Up(typed: seq<Byte>, units: seq<Unit>, sent: seq<Byte>, pending: seq<Byte>, off: nat, frames: nat,
                   stdinIn: bool, winchIn: bool, sockOut: bool, winchSupport: bool)

  /** Downstream: the bytes received, those shown and those pending at off; whether select() is asked about the
      socket for reading and about 1. */
  datatype Down = Down(received: seq<Byte>, shown: seq<Byte>, pending: seq<Byte>, off: nat,
                       sockIn: bool, stdoutOut: bool)

  /** `lost` says that the urgent byte has overwritten or replaced pending data. */
  datatype View = View(up: Up, down: Down, lost: bool)

  const START := View(Up([], [], [], [], 0, 0, true, true, false, false), Down([], [], [], 0, true, false), false)

  /** Running: the loop goes on.  Closed: it ends.  Overrun: the next frame would be written past the end of its
      buffer.  Broken: a failed recv() has left a length below 1 for what is still to be shown. */
  datatype Status = Running | Closed | Overrun | Broken

  function Goes(go: bool): Status {
    if go then Running else Closed
  }

  function TakeSock(d: Down, x: Input): (Down, Status) {
    match x
    case NoData(_, retry) => (d, Goes(retry))
    case Data(bytes) =>
      (d.(received := d.received + bytes, pending := bytes, stdoutOut := true, sockIn := false), Running)
  }

  function Show(d: Down, y: Output): (Down, Status) {
    match y
    case Blocked(retry) => (d, Goes(retry))
    case Wrote(n) =>
      var head := Take(d.pending, n);
      var rest := d.(shown := d.shown + head, pending := d.pending[|head|..], off := d.off + |head|);
      (if rest.pending == [] then rest.(stdoutOut := false, sockIn := true, off := 0) else rest, Running)
  }

  function TakeStdin(u: Up, x: Input): Up {
    match x
    case NoData(_, retry) => if retry then u else u.(stdinIn := false, winchIn := false)
    case Data(bytes) =>
      u.(typed := u.typed + bytes, units := u.units + [Chunk(bytes)], pending := bytes, frames := 0,
         sockOut := true, stdinIn := false, winchIn := false)
  }

  function Send(u: Up, y: Output): (Up, Status) {
    match y
    case Blocked(retry) => (u, Goes(retry))
    case Wrote(n) =>
      var head := Take(u.pending, n);
      var rest := u.(sent := u.sent + head, pending := u.pending[|head|..], off := u.off + |head|);
      (if rest.pending == [] then rest.(sockOut := false, stdinIn := true, winchIn := true, off := 0) else rest,
       Running)
  }

  /** A frame replaces pending bytes of which none has been sent, and otherwise follows them. */
  predicate Replaces(u: Up) {
    u.sockOut && u.off == 0 && u.units != []
  }

  function QueueFrame(u: Up, w: Winsize): Up {
    var kept := if Replaces(u) then Init(u.units) else u.units;
    var before := if u.off == 0 then [] else u.pending;
    u.(units := kept + [Win(FrameBytes(w), w)], pending := before + FrameBytes(w),
       frames := if u.off == 0 then 1 else u.frames + 1, sockOut := true, stdinIn := false)
  }

  lemma QueueFrameIs(u: Up, w: Winsize, before: seq<Byte>)
    requires before == if u.off == 0 then [] else u.pending
    ensures var q := QueueFrame(u, w);
      && q.pending == before + FrameBytes(w) && |FrameBytes(w)| == FRAME
      && q.off == u.off && q.sockOut && !q.stdinIn && q.winchIn == u.winchIn && q.winchSupport == u.winchSupport
  {
  }

  /** There is no room for one more frame. */
  predicate Full(u: Up) {
    u.off > 0 && u.off + |u.pending| + FRAME > BUFLEN
  }

  function Winch(u: Up, w: Winsize): (Up, Status) {
    if !u.winchSupport then (u, Running)
    else if Full(u) then (u, Overrun)
    else (QueueFrame(u, w), Running)
  }

  /** The server's urgent byte 0x80. */
  predicate AsksForSize(x: Input) {
    x.Data? && x.bytes != [] && x.bytes[0] == 0x80
  }

  function Answer(u: Up, x: Input, w: Winsize): (Up, Status) {
    if AsksForSize(x) then Winch(u.(winchSupport := true), w) else (u, Running)
  }

  /** The frame that the urgent byte asks for replaces a chunk of keys. */
  predicate DropsKeys(u: Up, x: Input) {
    AsksForSize(x) && Replaces(u) && Last(u.units).Chunk?
  }

  /** recv() of the urgent byte overwrites what is pending for stdout: the length, and the first byte of the buffer. */
  predicate Spoils(d: Down, x: Input) {
    d.stdoutOut && !(x.Data? && x.bytes != [] && |d.pending| == 1 && (d.off > 0 || d.pending[0] == x.bytes[0]))
  }

  /** What stdout's pending bytes become. */
  function Overwritten(d: Down, x: Input): Down {
    if !d.stdoutOut || d.pending == [] then d
    else if x.NoData? || x.bytes == [] then d.(pending := [])
    else d.(pending := if d.off == 0 then [x.bytes[0]] else d.pending[..1])
  }

  /** How recv() of the urgent byte ends. */
  function Received(d: Down, x: Input): Status {
    if x.Data? then Running else if !x.retry then Closed else if d.stdoutOut then Broken else Running
  }

  function Urgent(v: View, x: Input, w: Winsize): (View, Status) {
    var (u, answered) := Answer(v.up, x, w);
    (View(u, Overwritten(v.down, x), v.lost || Spoils(v.down, x) || DropsKeys(v.up, x)),
     if x.Data? then answered else Received(v.down, x))
  }

  // ---- A round ----

  function First(v: View, r: Round): (View, Status) {
    if r.urgent.Some? then Urgent(v, r.urgent.value, r.first) else (v, Running)
  }

  /** The window-size part: the urgent byte, and the winch pipe if it was asked about. */
  function Signals(v: View, r: Round): (View, Status) {
    var (a, status) := First(v, r);
    if status != Running || !(r.resized && v.up.winchIn) then (a, status)
    else
      var (u, second) := Winch(a.up, r.second);
      (a.(up := u), second)
  }

  predicate Asked(r: Round) {
    r.urgent.Some? && AsksForSize(r.urgent.value)
  }

  /** A frame has been put into the buffer, so that stdin is not read in this round. */
  predicate Cleared(u: Up, r: Round) {
    Asked(r) || (r.resized && u.winchIn && u.winchSupport)
  }

  function Downward(d: Down, fromSock: Option<Input>, toStdout: Option<Output>): (Down, Status) {
    var (a, status) := if fromSock.Some? then TakeSock(d, fromSock.value) else (d, Running);
    if status != Running || toStdout.None? then (a, status) else Show(a, toStdout.value)
  }

  function Upward(u: Up, fromStdin: Option<Input>, toSock: Option<Output>): (Up, Status) {
    var a := if fromStdin.Some? then TakeStdin(u, fromStdin.value) else u;
    if toSock.None? then (a, Running) else Send(a, toSock.value)
  }

  function If<T>(c: bool, x: Option<T>): Option<T> {
    if c then x else None
  }

  /** The answers of one round, of descriptors that were asked about when it began. */
  function FromSock(d: Down, r: Round): Option<Input> {
    If(d.sockIn, r.fromSock)
  }

  function ToStdout(d: Down, r: Round): Option<Output> {
    If(d.stdoutOut, r.toStdout)
  }

  function FromStdin(u: Up, r: Round): Option<Input> {
    If(u.stdinIn && !Cleared(u, r), r.fromStdin)
  }

  function ToSock(u: Up, r: Round): Option<Output> {
    If(u.sockOut, r.toSock)
  }

  function Next(v: View, r: Round): (View, Status) {
    var (a, first) := Signals(v, r);
    if first != Running then (a, first)
    else
      var (down, second) := Downward(a.down, FromSock(v.down, r), ToStdout(v.down, r));
      if second != Running then (a.(down := down), second)
      else
        var (up, third) := Upward(a.up, FromStdin(v.up, r), ToSock(v.up, r));
        (View(up, down, a.lost), third)
  }

  /** The rounds, until one of them does not go on. */
  function After(v: View, rounds: seq<Round>): (View, Status) {
    if rounds == [] then (v, Running)
    else
      var (a, status) := After(v, Init(rounds));
      if status != Running then (a, status) else Next(a, Last(rounds))
  }

  lemma AfterSnoc(v: View, rounds: seq<Round>, r: Round)
    requires After(v, rounds).1 == Running
    ensures After(v, rounds + [r]) == Next(After(v, rounds).0, r)
  {
    assert Init(rounds + [r]) == rounds;
  }

  /** Once a round does not go on, the others do not take place. */
  lemma {:induction false} AfterStops(v: View, some: seq<Round>, rounds: seq<Round>)
    requires some <= rounds && After(v, some).1 != Running
    ensures After(v, rounds) == After(v, some)
  {
    if |some| < |rounds| {
      AfterStops(v, some, Init(rounds));
    } else {
      assert some == rounds;
    }
  }

  // ---- What every round keeps ----

  /** The socket is read exactly while stdout has nothing pending, and what is pending fits its buffer. */
  predicate DownFits(d: Down) {
    && (d.sockIn <==> !d.stdoutOut)
    && (if d.stdoutOut then d.pending != [] && d.off + |d.pending| <= BUFLEN else d.pending == [] && d.off == 0)
  }

  /** stdin is read only while nothing is pending upstream; what is pending fits its buffer, and is the last unit
      if nothing of it has been sent; while the winch pipe is watched, only frames are pending. */
  predicate UpFits(u: Up) {
    && (u.stdinIn ==> !u.sockOut)
    && (if u.sockOut then u.pending != [] && u.off + |u.pending| <= BUFLEN else u.pending == [] && u.off == 0)
    && (u.sockOut && u.off == 0 ==> u.units != [] && Last(u.units).bytes == u.pending)
    && (u.sockOut && u.winchIn ==> u.off + |u.pending| == FRAME * u.frames)
    && (u.sockOut && u.winchIn && u.off == 0 ==> Last(u.units).Win?)
  }

  /** What has been sent and what is pending are together whole units. */
  predicate UpKept(u: Up) {
    Framed(u.units) && u.sent + u.pending == Stream(u.units)
  }

  /** The units hold what was typed. */
  predicate TypedKept(u: Up) {
    u.typed == Typed(u.units)
  }

  /** What has been shown and what is pending are together what was received. */
  predicate DownKept(d: Down) {
    d.shown + d.pending == d.received
  }

  predicate Fits(v: View) {
    DownFits(v.down) && UpFits(v.up)
  }

  /** Nothing is missing. */
  predicate Complete(v: View) {
    TypedKept(v.up) && DownKept(v.down)
  }

  predicate Kept(v: View) {
    UpKept(v.up) && (!v.lost ==> Complete(v))
  }

  lemma TakeSockKeeps(d: Down, x: Input)
    requires DownFits(d) && d.sockIn && Plausible(x)
    ensures var a := TakeSock(d, x).0; DownFits(a) && (DownKept(d) ==> DownKept(a))
  {
    assert d.shown + [] == d.shown;
  }

  lemma ShowKeeps(d: Down, y: Output)
    requires DownFits(d) && d.stdoutOut
    ensures var a := Show(d, y).0; DownFits(a) && (DownKept(d) ==> DownKept(a))
  {
    if y.Wrote? {
      var head := Take(d.pending, y.n);
      Assoc(d.shown, head, d.pending[|head|..]);
      assert head + d.pending[|head|..] == d.pending;
    }
  }

  lemma TakeStdinKeeps(u: Up, x: Input)
    requires UpFits(u) && u.stdinIn && UpKept(u) && Plausible(x)
    ensures var a := TakeStdin(u, x); UpFits(a) && UpKept(a) && (TypedKept(u) ==> TypedKept(a))
  {
    if x.Data? {
      UnitsSnoc(u.units, Chunk(x.bytes));
      assert u.sent + [] == u.sent;
    }
  }

  lemma SendFits(u: Up, y: Output)
    requires UpFits(u) && u.sockOut
    ensures UpFits(Send(u, y).0)
  {
  }

  lemma SendKeeps(u: Up, y: Output)
    requires UpFits(u) && u.sockOut && UpKept(u)
    ensures var a := Send(u, y).0; UpFits(a) && UpKept(a) && (TypedKept(u) ==> TypedKept(a))
  {
    SendFits(u, y);
    if y.Wrote? {
      var head := Take(u.pending, y.n);
      Assoc(u.sent, head, u.pending[|head|..]);
      assert head + u.pending[|head|..] == u.pending;
    }
  }

  /** A frame keeps the stream whole, and loses what was typed exactly if it replaces a chunk. */
  lemma QueueFrameKeeps(u: Up, w: Winsize)
    requires UpFits(u) && !Full(u) && UpKept(u)
    ensures var q := QueueFrame(u, w);
      UpKept(q) && (TypedKept(u) ==> (TypedKept(q) <==> !(Replaces(u) && Last(u.units).Chunk?)))
  {
    var frame := Win(FrameBytes(w), w);
    if Replaces(u) {
      Replaced(u, frame);
    } else {
      UnitsSnoc(u.units, frame);
      assert Typed(u.units) + [] == Typed(u.units);
      Assoc(u.sent, u.pending, frame.bytes);
      assert u.pending == [] ==> u.pending + frame.bytes == frame.bytes == [] + frame.bytes;
    }
  }

  lemma QueueFrameFits(u: Up, w: Winsize)
    requires UpFits(u) && !Full(u)
    ensures UpFits(QueueFrame(u, w))
  {
    assert [] + FrameBytes(w) == FrameBytes(w);
  }

  lemma Replaced(u: Up, frame: Unit)
    requires UpKept(u) && u.units != [] && Last(u.units).bytes == u.pending && UnitOk(frame) && frame.Win?
    ensures var us := Init(u.units) + [frame];
      && Framed(us) && u.sent + ([] + frame.bytes) == Stream(us)
      && (TypedKept(u) ==> (u.typed == Typed(us) <==> !Last(u.units).Chunk?))
  {
    var kept, last := Init(u.units), Last(u.units);
    UnitsSnoc(kept, frame);
    assert u.sent == (u.sent + u.pending)[..|u.sent|] == Stream(kept);
    assert [] + frame.bytes == frame.bytes && Typed(kept) + [] == Typed(kept);
    assert last.Chunk? ==> |Typed(u.units)| > |Typed(kept)|;
  }

  /** winch() loses typed bytes exactly if its frame replaces a chunk. */
  lemma WinchKeeps(u: Up, w: Winsize)
    requires UpFits(u) && UpKept(u)
    ensures var a := Winch(u, w).0;
      && UpFits(a) && UpKept(a)
      && (TypedKept(u) ==> (TypedKept(a) <==> !(u.winchSupport && Replaces(u) && Last(u.units).Chunk?)))
  {
    if u.winchSupport && !Full(u) {
      QueueFrameFits(u, w);
      QueueFrameKeeps(u, w);
    }
  }

  /** While the winch pipe is watched, a frame never replaces keys. */
  lemma FramesOnly(u: Up, w: Winsize)
    requires UpFits(u) && UpKept(u) && u.winchIn
    ensures TypedKept(u) ==> TypedKept(Winch(u, w).0)
  {
    WinchKeeps(u, w);
  }

  lemma AnswerKeeps(u: Up, x: Input, w: Winsize)
    requires UpFits(u) && UpKept(u)
    ensures var a := Answer(u, x, w).0;
      UpFits(a) && UpKept(a) && (TypedKept(u) ==> (TypedKept(a) <==> !DropsKeys(u, x)))
  {
    if AsksForSize(x) {
      WinchKeeps(u.(winchSupport := true), w);
    }
  }

  /** What winch() leaves of the descriptor sets. */
  lemma AnswerSets(u: Up, x: Input, w: Winsize)
    ensures var a := Answer(u, x, w).0;
      && a.winchIn == u.winchIn && (u.sockOut ==> a.sockOut)
      && (!AsksForSize(x) ==> a == u) && (AsksForSize(x) ==> a.winchSupport)
  {
  }

  lemma UrgentSets(v: View, x: Input, w: Winsize)
    ensures var a := Urgent(v, x, w).0;
      && a.down.sockIn == v.down.sockIn && a.down.stdoutOut == v.down.stdoutOut
      && a.up.winchIn == v.up.winchIn && (v.up.sockOut ==> a.up.sockOut)
      && (!AsksForSize(x) ==> a.up == v.up) && (AsksForSize(x) ==> a.up.winchSupport)
  {
    AnswerSets(v.up, x, w);
  }

  lemma OverwrittenKeeps(d: Down, x: Input)
    requires DownFits(d) && DownKept(d) && Plausible(x)
    ensures DownKept(Overwritten(d, x)) <==> !Spoils(d, x)
  {
    SameTail(d.shown, d.pending, d.received, Overwritten(d, x).pending);
    if d.stdoutOut && x.Data? && |d.pending| == 1 {
      assert d.pending == [d.pending[0]] && d.pending[..1] == d.pending;
    }
  }

  lemma SameTail(head: seq<Byte>, tail: seq<Byte>, all: seq<Byte>, other: seq<Byte>)
    requires head + tail == all
    ensures head + other == all <==> other == tail
  {
    if head + other == all {
      assert other == all[|head|..] == tail;
    }
  }

  /** The urgent byte loses something exactly if it overwrites what is pending for stdout, other than a single
      byte that it leaves or repeats, or asks for a frame that replaces a chunk of keys of which nothing has
      been sent.  Whole units are sent even then. */
  lemma LossIsExact(v: View, x: Input, w: Winsize)
    requires Fits(v) && UpKept(v.up) && Complete(v) && Plausible(x)
    ensures var a := Urgent(v, x, w).0;
      && (Complete(a) <==> !Spoils(v.down, x) && !DropsKeys(v.up, x))
      && (a.lost <==> v.lost || !Complete(a))
      && UpKept(a.up)
  {
    OverwrittenKeeps(v.down, x);
    AnswerKeeps(v.up, x, w);
  }

  /** Unless recv() fails while output is pending, the urgent byte leaves a state from which the loop can go on. */
  lemma UrgentKeeps(v: View, x: Input, w: Winsize)
    requires Fits(v) && Kept(v) && Plausible(x)
    ensures var (a, status) := Urgent(v, x, w);
      && Kept(a) && UpFits(a.up) && (DownFits(a.down) || (a.lost && (status == Closed || status == Broken)))
  {
    AnswerKeeps(v.up, x, w);
    if !v.lost {
      OverwrittenKeeps(v.down, x);
    }
  }

  /** What the sets are after the urgent byte and the winch pipe. */
  predicate SetsKept(v: View, a: View, r: Round) {
    && a.down.sockIn == v.down.sockIn && a.down.stdoutOut == v.down.stdoutOut
    && (v.up.sockOut ==> a.up.sockOut) && (!Cleared(v.up, r) ==> a.up.stdinIn == v.up.stdinIn)
  }

  lemma SignalsSets(v: View, r: Round)
    ensures SetsKept(v, Signals(v, r).0, r)
  {
    if r.urgent.Some? {
      AnswerSets(v.up, r.urgent.value, r.first);
    }
  }

  lemma SignalsKeep(v: View, r: Round)
    requires Fits(v) && Kept(v) && PlausibleRound(r)
    ensures var (a, status) := Signals(v, r);
      && Kept(a) && UpFits(a.up) && (DownFits(a.down) || (a.lost && status != Running))
  {
    var (a, status) := First(v, r);
    if r.urgent.Some? {
      UrgentKeeps(v, r.urgent.value, r.first);
      AnswerSets(v.up, r.urgent.value, r.first);
    }
    if status == Running && r.resized && v.up.winchIn {
      WinchKeeps(a.up, r.second);
      FramesOnly(a.up, r.second);
    }
  }

  lemma DownwardKeeps(d: Down, fromSock: Option<Input>, toStdout: Option<Output>)
    requires DownFits(d)
    requires (fromSock.Some? ==> d.sockIn && Plausible(fromSock.value)) && (toStdout.Some? ==> d.stdoutOut)
    ensures var a := Downward(d, fromSock, toStdout).0; DownFits(a) && (DownKept(d) ==> DownKept(a))
  {
    if fromSock.Some? {
      TakeSockKeeps(d, fromSock.value);
    }
    if toStdout.Some? {
      ShowKeeps(d, toStdout.value);
    }
  }

  lemma UpwardKeeps(u: Up, fromStdin: Option<Input>, toSock: Option<Output>)
    requires UpFits(u) && UpKept(u)
    requires (fromStdin.Some? ==> u.stdinIn && Plausible(fromStdin.value)) && (toSock.Some? ==> u.sockOut)
    ensures var a := Upward(u, fromStdin, toSock).0; UpFits(a) && UpKept(a) && (TypedKept(u) ==> TypedKept(a))
  {
    if fromStdin.Some? {
      TakeStdinKeeps(u, fromStdin.value);
    }
    if toSock.Some? {
      SendKeeps(u, toSock.value);
    }
  }

  /** A round keeps everything, unless recv() fails while output is pending, or the urgent byte loses something. */
  lemma NextKeeps(v: View, r: Round)
    requires Fits(v) && Kept(v) && PlausibleRound(r)
    ensures var (a, status) := Next(v, r);
      && Kept(a) && UpFits(a.up) && (a.down.sockIn <==> !a.down.stdoutOut)
      && (DownFits(a.down) || (a.lost && status != Running))
  {
    hide Signals, Downward, Upward, UpKept, DownKept, TypedKept, UpFits;
    var (a, first) := Signals(v, r);
    SignalsKeep(v, r);
    SignalsSets(v, r);
    if first == Running {
      DownwardKeeps(a.down, FromSock(v.down, r), ToStdout(v.down, r));
      UpwardKeeps(a.up, FromStdin(v.up, r), ToSock(v.up, r));
    }
  }

  lemma {:induction false} AfterKeeps(v: View, rounds: seq<Round>)
    requires Fits(v) && Kept(v) && forall k :: 0 <= k < |rounds| ==> PlausibleRound(rounds[k])
    ensures var (a, status) := After(v, rounds);
      && Kept(a) && UpFits(a.up) && (a.down.sockIn <==> !a.down.stdoutOut)
      && (DownFits(a.down) || (a.lost && status != Running))
  {
    if rounds != [] {
      AfterKeeps(v, Init(rounds));
      if After(v, Init(rounds)).1 == Running {
        NextKeeps(After(v, Init(rounds)).0, Last(rounds));
      }
    }
  }

  /** Over all runs and short writes, whole chunks and whole frames are sent in order, all of them when nothing is
      pending; stdin is read only then, and the socket exactly when stdout has nothing pending.  Unless the urgent
      byte has lost something, the chunks hold all stdin bytes in order, and what stdout got is a prefix of what the
      socket delivered, and all of it when nothing is pending. */
  lemma RunsKeep(rounds: seq<Round>)
    requires forall k :: 0 <= k < |rounds| ==> PlausibleRound(rounds[k])
    ensures var v := After(START, rounds).0;
      var (u, d) := (v.up, v.down);
      && Framed(u.units) && u.sent <= Stream(u.units) && (!u.sockOut ==> u.sent == Stream(u.units))
      && (u.stdinIn ==> !u.sockOut) && (d.sockIn <==> !d.stdoutOut)
      && (!v.lost ==>
           Typed(u.units) == u.typed && d.shown <= d.received && (!d.stdoutOut ==> d.shown == d.received))
  {
    AfterKeeps(START, rounds);
    var v := After(START, rounds).0;
    assert v.up.pending == [] ==> v.up.sent + [] == v.up.sent;
    assert v.down.pending == [] ==> v.down.shown + [] == v.down.shown;
  }

  // ---- When a round does not go on ----

  /** While only frames are pending, there is no room for another exactly behind 5461 of them, of which some bytes
      have been sent. */
  lemma FullExactly(u: Up)
    requires UpFits(u) && u.winchIn
    ensures Full(u) <==> u.sockOut && u.off > 0 && u.frames == BUFLEN / FRAME
  {
  }

  predicate Ends(x: Option<Input>) {
    x.Some? && x.value.NoData? && !x.value.retry
  }

  predicate Stops(y: Option<Output>) {
    y.Some? && y.value.Blocked? && !y.value.retry
  }

  /** What the urgent byte overwrites or replaces is lost. */
  predicate Loses(v: View, r: Round) {
    r.urgent.Some? && (Spoils(v.down, r.urgent.value) || DropsKeys(v.up, r.urgent.value))
  }

  predicate Breaks(d: Down, r: Round) {
    r.urgent.Some? && r.urgent.value.NoData? && r.urgent.value.retry && d.stdoutOut
  }

  /** The winch pipe asks for a frame behind 5461 others, counting the one that the urgent byte has asked for. */
  predicate Heaps(u: Up, r: Round) {
    && r.resized && u.winchIn && (u.winchSupport || Asked(r))
    && u.sockOut && u.off > 0 && u.frames + (if Asked(r) then 1 else 0) == BUFLEN / FRAME
  }

  /** The urgent byte asks for a frame when there is no room, or the winch pipe does. */
  predicate Overruns(v: View, r: Round) {
    (Asked(r) && Full(v.up)) || (!Ends(r.urgent) && !Breaks(v.down, r) && Heaps(v.up, r))
  }

  lemma FirstStatus(v: View, r: Round)
    requires PlausibleRound(r)
    ensures First(v, r).1 ==
      if Asked(r) && Full(v.up) then Overrun else if Breaks(v.down, r) then Broken
      else if Ends(r.urgent) then Closed else Running
    ensures First(v, r).0.lost <==> v.lost || Loses(v, r)
    ensures First(v, r).0.up == if Asked(r) then Winch(v.up.(winchSupport := true), r.first).0 else v.up
  {
  }

  lemma HeapsExactly(u: Up, r: Round)
    requires UpFits(u) && !(Asked(r) && Full(u))
    ensures var a := if Asked(r) then Winch(u.(winchSupport := true), r.first).0 else u;
      r.resized && u.winchIn ==> (Winch(a, r.second).1 == if Heaps(u, r) then Overrun else Running)
  {
    if u.winchIn {
      FullExactly(u);
      if Asked(r) {
        QueueFrameFits(u.(winchSupport := true), r.first);
        FullExactly(QueueFrame(u.(winchSupport := true), r.first));
      }
    }
  }

  lemma SignalsStatus(v: View, r: Round)
    requires Fits(v) && PlausibleRound(r)
    ensures Signals(v, r).1 ==
      if Overruns(v, r) then Overrun else if Breaks(v.down, r) then Broken
      else if Ends(r.urgent) then Closed else Running
    ensures Signals(v, r).0.lost <==> v.lost || Loses(v, r)
  {
    FirstStatus(v, r);
    if !(Asked(r) && Full(v.up)) {
      HeapsExactly(v.up, r);
    }
  }

  lemma DownwardStatus(d: Down, fromSock: Option<Input>, toStdout: Option<Output>)
    ensures Downward(d, fromSock, toStdout).1 == if Ends(fromSock) || Stops(toStdout) then Closed else Running
  {
  }

  lemma UpwardStatus(u: Up, fromStdin: Option<Input>, toSock: Option<Output>)
    ensures Upward(u, fromStdin, toSock).1 == if Stops(toSock) then Closed else Running
  {
  }

  /** A round ends the loop exactly if a frame does not fit, recv() fails while output is pending, or a call on a
      descriptor that was asked about reports no data or takes none, for good.  Something is lost exactly if the
      urgent byte loses it. */
  lemma GoesOnExactly(v: View, r: Round)
    requires Fits(v) && PlausibleRound(r)
    ensures var (a, status) := Next(v, r);
      && (status == Overrun <==> Overruns(v, r))
      && (status == Broken <==> Breaks(v.down, r))
      && (status == Running <==>
           && !Overruns(v, r) && !Breaks(v.down, r) && !Ends(r.urgent)
           && !Ends(FromSock(v.down, r)) && !Stops(ToStdout(v.down, r)) && !Stops(ToSock(v.up, r)))
      && (a.lost <==> v.lost || Loses(v, r))
  {
    SignalsStatus(v, r);
    var (a, first) := Signals(v, r);
    if first == Running {
      DownwardStatus(a.down, FromSock(v.down, r), ToStdout(v.down, r));
      UpwardStatus(a.up, FromStdin(v.up, r), ToSock(v.up, r));
    }
  }

  // ---- Runs that end in a loss or an overrun ----

  const NOSIZE: Winsize := Winsize(Word16(0, 0), Word16(0, 0), Word16(0, 0), Word16(0, 0))
  const QUIET: Round := Round(None, false, None, None, None, None, NOSIZE, NOSIZE)
  const ASKED: Round := QUIET.(urgent := Some(Data([0x80])))
  const ONEBYTE: Round := QUIET.(toSock := Some(Wrote(1)))
  const RESIZED: Round := QUIET.(resized := true)

  /** The server asks for window sizes, the socket takes one byte of the first, and the window is resized k times. */
  function Resizing(k: nat): seq<Round> {
    if k == 0 then [ASKED, ONEBYTE] else Resizing(k - 1) + [RESIZED]
  }

  /** Some bytes of the first of the frames have been sent. */
  predicate Filling(v: View, frames: nat) {
    && Fits(v) && Kept(v) && !v.lost
    && v.up.winchSupport && v.up.winchIn && v.up.sockOut && v.up.off == 1 && v.up.frames == frames
  }

  lemma {:induction false} ResizingFills(k: nat)
    requires k < BUFLEN / FRAME
    ensures After(START, Resizing(k)).1 == Running && Filling(After(START, Resizing(k)).0, k + 1)
  {
    if k == 0 {
      FirstTwoRounds();
    } else {
      ResizingFills(k - 1);
      AfterSnoc(START, Resizing(k - 1), RESIZED);
      OneMoreResize(After(START, Resizing(k - 1)).0, k);
    }
  }

  lemma {:induction false} ResizingIsPlausible(k: nat)
    ensures forall i :: 0 <= i < |Resizing(k)| ==> PlausibleRound(Resizing(k)[i])
  {
    if k > 0 {
      ResizingIsPlausible(k - 1);
    }
  }

  lemma FirstTwoRounds()
    ensures After(START, Resizing(0)).1 == Running && Filling(After(START, Resizing(0)).0, 1)
  {
    FirstRound();
    SecondRound(Next(START, ASKED).0);
    TwoRounds(START, ASKED, ONEBYTE);
  }

  lemma TwoRounds(v: View, r: Round, q: Round)
    requires Next(v, r).1 == Running
    ensures After(v, [r, q]) == Next(Next(v, r).0, q)
  {
    assert Init([r, q]) == [r] && Init([r]) == [];
    assert After(v, []) == (v, Running);
    assert After(v, [r]) == Next(v, r);
  }

  /** Nothing of the only frame has been sent. */
  predicate OneFrame(u: Up) {
    u.winchSupport && u.winchIn && u.sockOut && u.off == 0 && u.frames == 1 && |u.pending| == FRAME
  }

  lemma StartIsKept()
    ensures Fits(START) && Kept(START)
  {
  }

  lemma FirstRound()
    ensures var (v, status) := Next(START, ASKED);
      && status == Running && Fits(v) && Kept(v) && !v.lost
      && OneFrame(v.up)
  {
    hide Kept;
    StartIsKept();
    NextKeeps(START, ASKED);
    assert Answer(START.up, Data([0x80]), NOSIZE) == (QueueFrame(START.up.(winchSupport := true), NOSIZE), Running);
    assert Signals(START, ASKED) == Urgent(START, Data([0x80]), NOSIZE);
  }

  lemma SecondRound(v: View)
    requires Fits(v) && Kept(v) && !v.lost && OneFrame(v.up)
    ensures Next(v, ONEBYTE).1 == Running && Filling(Next(v, ONEBYTE).0, 1)
  {
    NextKeeps(v, ONEBYTE);
    assert Next(v, ONEBYTE) == (v.(up := Send(v.up, Wrote(1)).0), Running);
  }

  lemma OneMoreResize(v: View, frames: nat)
    requires Filling(v, frames) && frames < BUFLEN / FRAME
    ensures Next(v, RESIZED).1 == Running && Filling(Next(v, RESIZED).0, frames + 1)
  {
    FullExactly(v.up);
    NextKeeps(v, RESIZED);
    assert Next(v, RESIZED) == (v.(up := QueueFrame(v.up, NOSIZE)), Running);
  }

  lemma OverrunIsReached()
    ensures After(START, Resizing(BUFLEN / FRAME)).1 == Overrun
    ensures forall i :: 0 <= i < |Resizing(BUFLEN / FRAME)| ==> PlausibleRound(Resizing(BUFLEN / FRAME)[i])
  {
    var k := BUFLEN / FRAME - 1;
    ResizingFills(k);
    ResizingIsPlausible(k + 1);
    FullExactly(After(START, Resizing(k)).0.up);
    AfterSnoc(START, Resizing(k), RESIZED);
  }

  /** The urgent byte comes while keys wait to be sent: its frame takes their place. */
  lemma UrgentOverKeys(keys: seq<Byte>)
    requires 0 < |keys| <= BUFLEN
    ensures var (v, status) := After(START, [QUIET.(fromStdin := Some(Data(keys))), ASKED]);
      status == Running && v.lost && v.up.typed == keys && v.up.sent == [] && v.up.pending == FrameBytes(NOSIZE)
  {
    var read := QUIET.(fromStdin := Some(Data(keys)));
    var v := START.(up := TakeStdin(START.up, Data(keys)));
    assert Next(START, read) == (v, Running);
    TwoRounds(START, read, ASKED);
    assert Next(v, ASKED) == Urgent(v, Data([0x80]), NOSIZE);
  }

  /** It comes when a chunk that nearly fills the buffer has been sent in part: its frame does not fit. */
  lemma UrgentOverChunk(keys: seq<Byte>)
    requires BUFLEN - FRAME < |keys| <= BUFLEN
    ensures After(START, [QUIET.(fromStdin := Some(Data(keys))), ONEBYTE, ASKED]).1 == Overrun
  {
    var read := QUIET.(fromStdin := Some(Data(keys)));
    var v := START.(up := TakeStdin(START.up, Data(keys)));
    assert Next(START, read) == (v, Running);
    TwoRounds(START, read, ONEBYTE);
    assert Next(v, ONEBYTE) == (v.(up := Send(v.up, Wrote(1)).0), Running);
    AfterSnoc(START, [read, ONEBYTE], ASKED);
    assert [read, ONEBYTE] + [ASKED] == [read, ONEBYTE, ASKED];
  }

  /** It comes while output waits to be shown: all but one byte of that is forgotten. */
  lemma UrgentOverOutput(bytes: seq<Byte>)
    requires 1 < |bytes| <= BUFLEN
    ensures var (v, status) := After(START, [QUIET.(fromSock := Some(Data(bytes))), ASKED]);
      status == Running && v.lost && v.down.received == bytes && v.down.shown == [] && v.down.pending == [0x80]
  {
    var read := QUIET.(fromSock := Some(Data(bytes)));
    var v := START.(down := TakeSock(START.down, Data(bytes)).0);
    assert [] + bytes == bytes;
    assert Next(START, read) == (v, Running);
    TwoRounds(START, read, ASKED);
    assert Next(v, ASKED) == Urgent(v, Data([0x80]), NOSIZE);
  }
}

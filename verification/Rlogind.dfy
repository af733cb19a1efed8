/** The rlogin server: the handshake it reads and its in-place removal of window-size messages from what
    the client sends (RFC 1282, "Window Size"). */
module Rlogind {
  import opened Bytes
  import opened RloginWire

  const BUFSIZE: nat := 4096
  const NAMESIZE: nat := 1024

  // ---- One chunk of client data ----

  /** What a chunk leaves for the pty, the window sizes set on it, and the offsets in the chunk of the messages
      they were taken from. */
  datatype Scanned = Scanned(out: seq<Byte>, sizes: seq<Winsize>, taken: seq<nat>)

  const NOTHING := Scanned([], [], [])

  /** How much of the chunk has been read. */
  function Offset(s: Scanned): nat {
    |s.out| + FRAME * |s.sizes|
  }

  /** How many bytes a failed match at the start of s compares, or 0 if the four marker bytes are there. */
  function Mismatch(s: seq<Byte>): (n: nat)
    requires |s| >= FRAME
    ensures n <= 4
  {
    if s[0] != MAGIC then 1
    else if s[1] != MAGIC then 2
    else if s[2] != S then 3
    else if s[3] != S then 4
    else 0
  }

  /** One left-to-right pass over a chunk, of which `rest` is still to be read; `so` is what it has yielded so
      far.  Fewer than 12 remaining bytes are data.  A failed match yields the bytes it compared.  `ioctls` is
      how many of the TIOCSWINSZ calls succeed before one fails, which ends the scan and leaves the rest of the
      chunk as it is. */
  function ScanFrom(so: Scanned, rest: seq<Byte>, ioctls: nat): Scanned
    decreases |rest|
  {
    if |rest| < FRAME then so.(out := so.out + rest)
    else if Mismatch(rest) > 0 then
      ScanFrom(so.(out := so.out + rest[..Mismatch(rest)]), rest[Mismatch(rest)..], ioctls)
    else if ioctls == 0 then so.(out := so.out + rest)
    else ScanFrom(Found(so, FrameSize(rest)), rest[FRAME..], ioctls - 1)
  }

  function Found(so: Scanned, w: Winsize): Scanned {
    Scanned(so.out, so.sizes + [w], so.taken + [Offset(so)])
  }

  function Scan(chunk: seq<Byte>, ioctls: nat): Scanned {
    ScanFrom(NOTHING, chunk, ioctls)
  }

  /** The scan as the server does it: within its buffer, moving the tail over each frame it finds. */
  method ScanInPlace(buf: array<Byte>, length: nat, ioctls: nat)
    returns (len: nat, sizes: seq<Winsize>, ghost taken: seq<nat>)
    requires length <= buf.Length
    modifies buf
    ensures len <= length && len + FRAME * |sizes| == length
    ensures Scan(old(buf[..length]), ioctls) == Scanned(buf[..len], sizes, taken)
  {
    hide ScanFrom;
    var i, left := 0, ioctls;
    len, sizes := length, [];
    ghost var so, rest := NOTHING, buf[..length];
    ghost var all := Scan(rest, ioctls);
    while i < len - 11
      invariant 0 <= i <= len <= length && len + FRAME * |sizes| == length
      invariant so.out == buf[..i] && so.sizes == sizes && rest == buf[i..len]
      invariant ScanFrom(so, rest, left) == all
      decreases len - i
    {
      ScanPast(so, rest, left);
      var found, winsize;
      i, len, found, winsize := Turn(buf, i, len, left > 0);
      if !found {
        so, rest := so.(out := so.out + rest[..Mismatch(rest)]), rest[Mismatch(rest)..];
      } else if left == 0 {
        break;
      } else {
        so, rest := Found(so, winsize), rest[FRAME..];
        left, sizes := left - 1, sizes + [winsize];
      }
    }
    taken := so.taken;
    assert buf[..len] == so.out + rest;
    if len < i + FRAME {
      ScanEnds(so, rest, left);
    }
  }

  /** One turn of the loop: skips what a failed match compared, or takes a frame out, if the ioctl succeeds. */
  method Turn(buf: array<Byte>, at: nat, length: nat, ok: bool)
    returns (i: nat, len: nat, found: bool, winsize: Winsize)
    requires at + FRAME <= length <= buf.Length
    modifies buf
    ensures at <= i <= len <= length && found == (Mismatch(old(buf[at..length])) == 0)
    ensures var rest, taken := old(buf[at..length]), found && ok;
      && len == (if taken then length - FRAME else length)
      && i == (if found then at else at + Mismatch(rest))
      && buf[..i] == old(buf[..at]) + rest[..i - at]
      && buf[i..len] == rest[if taken then FRAME else i - at..]
      && (taken ==> winsize == FrameSize(rest))
  {
    i, found := Compare(buf, at, length);
    len, winsize := length, FrameSize(buf[at..length]);
    if found {
      i := i - 4;
      if ok {
        winsize := RemoveFrame(buf, i + 4, len);
        len := len - 12;
      }
    }
  }

  /** One turn of the pass. */
  lemma ScanPast(so: Scanned, rest: seq<Byte>, ioctls: nat)
    requires |rest| >= FRAME
    ensures var m := Mismatch(rest);
      ScanFrom(so, rest, ioctls) ==
      if m > 0 then ScanFrom(so.(out := so.out + rest[..m]), rest[m..], ioctls)
      else if ioctls == 0 then so.(out := so.out + rest)
      else ScanFrom(Found(so, FrameSize(rest)), rest[FRAME..], ioctls - 1)
  {
  }

  lemma ScanEnds(so: Scanned, rest: seq<Byte>, ioctls: nat)
    requires |rest| < FRAME
    ensures ScanFrom(so, rest, ioctls) == so.(out := so.out + rest)
  {
  }

  method RemoveFrame(buf: array<Byte>, i: nat, len: nat) returns (winsize: Winsize)
    requires 4 <= i && i + 8 <= len <= buf.Length
    modifies buf
    ensures buf[..i - 4] == old(buf[..i - 4])
    ensures buf[i - 4..len - FRAME] == old(buf[i - 4..len])[FRAME..]
    ensures winsize == FrameSize(old(buf[i - 4..len]))
  {
    winsize := FrameSize(buf[i - 4..i + 8]);
    Move(buf, i - 4, i + 8, len - i - 8);
    assert old(buf[i - 4..len])[FRAME..] == old(buf[i + 8..len]);
  }

  /** The four nested comparisons, each of which advances past the byte it looks at. */
  method Compare(buf: array<Byte>, at: nat, len: nat) returns (i: nat, found: bool)
    requires at + FRAME <= len <= buf.Length
    ensures found <==> Mismatch(buf[at..len]) == 0
    ensures i == at + if found then 4 else Mismatch(buf[at..len])
    ensures i <= len && buf[..i] == buf[..at] + buf[at..len][..i - at] && buf[i..len] == buf[at..len][i - at..]
  {
    i, found := at, false;
    i := i + 1;
    if buf[i - 1] == MAGIC {
      i := i + 1;
      if buf[i - 1] == MAGIC {
        i := i + 1;
        if buf[i - 1] == S {
          i := i + 1;
          if buf[i - 1] == S {
            found := true;
          }
        }
      }
    }
  }

  /** memcpy within the buffer, as a move. */
  method Move(buf: array<Byte>, to: nat, from: nat, n: nat)
    requires to <= from && from + n <= buf.Length
    modifies buf
    ensures buf[..to] == old(buf[..to])
    ensures buf[to..to + n] == old(buf[from..from + n])
  {
    forall j | 0 <= j < n {
      buf[to + j] := buf[from + j];
    }
  }

  // ---- What the scan makes of a client's stream ----

  /** The offsets of the frames among some tokens, of which the first starts at `at`. */
  function FrameOffsets(ts: seq<Token>, at: nat): seq<nat> {
    if ts == [] then []
    else (if ts[0].Frame? then [at] else []) + FrameOffsets(ts[1..], at + |TokenBytes(ts[0])|)
  }

  predicate IsKey(ts: seq<Token>, i: nat, b: Byte) {
    i < |ts| && ts[i] == Key(b)
  }

  predicate IsFrame(ts: seq<Token>, i: nat) {
    i < |ts| && ts[i].Frame?
  }

  /** A comparison that starts at a key is misled: keys that begin like a frame stand directly before one, or
      keys spell the beginning of one. */
  predicate Misled(ts: seq<Token>) {
    IsKey(ts, 0, MAGIC) &&
    (IsFrame(ts, 1) ||
     (IsKey(ts, 1, MAGIC) &&
      (IsFrame(ts, 2) || (IsKey(ts, 2, S) && (IsFrame(ts, 3) || IsKey(ts, 3, S))))))
  }

  /** How many keys a comparison looks at that is not misled. */
  function Compared(ts: seq<Token>): (n: nat)
    ensures 1 <= n <= 4
  {
    if !IsKey(ts, 0, MAGIC) then 1
    else if !IsKey(ts, 1, MAGIC) then 2
    else if !IsKey(ts, 2, S) then 3
    else 4
  }

  /** No comparison is misled, as long as there are 12 bytes to compare with. */
  predicate Clean(ts: seq<Token>)
    decreases |ts|
  {
    if |Encode(ts)| < FRAME then true
    else if ts[0].Frame? then Clean(ts[1..])
    else !Misled(ts) && Clean(if Compared(ts) < |ts| then ts[Compared(ts)..] else [])
  }

  lemma {:induction false} ShortHasOnlyKeys(ts: seq<Token>, at: nat)
    requires |Encode(ts)| < FRAME
    ensures Encode(ts) == Keys(ts) && Sizes(ts) == [] && FrameOffsets(ts, at) == []
  {
    if ts != [] {
      ShortHasOnlyKeys(ts[1..], at + 1);
    }
  }

  /** The first n tokens are keys. */
  predicate KeysOnly(ts: seq<Token>, n: nat) {
    n <= |ts| && forall i :: 0 <= i < n ==> ts[i].Key?
  }

  /** Their bytes. */
  function First(ts: seq<Token>, n: nat): (r: seq<Byte>)
    requires KeysOnly(ts, n)
    ensures |r| == n && forall i :: 0 <= i < n ==> r[i] == ts[i].b
  {
    seq(n, i requires 0 <= i < n => ts[i].b)
  }

  /** Keys at the front are the front of what is encoded and of the keys, ... */
  lemma {:induction false} KeysFirst(ts: seq<Token>, n: nat)
    requires KeysOnly(ts, n)
    ensures Encode(ts) == First(ts, n) + Encode(ts[n..]) && Keys(ts) == First(ts, n) + Keys(ts[n..])
    decreases n
  {
    if n == 0 {
      assert ts[0..] == ts;
    } else {
      var b, rest := ts[0].b, ts[1..];
      KeysFirst(rest, n - 1);
      FirstStep(ts, n);
      assert rest[n - 1..] == ts[n..];
      Assoc([b], First(rest, n - 1), Encode(ts[n..]));
      Assoc([b], First(rest, n - 1), Keys(ts[n..]));
    }
  }

  lemma KeysAreBytes(ts: seq<Token>)
    requires KeysOnly(ts, |ts|)
    ensures |Encode(ts)| == |ts|
  {
    KeysFirst(ts, |ts|);
    assert ts[|ts|..] == [];
  }

  lemma FirstStep(ts: seq<Token>, n: nat)
    requires 0 < n && KeysOnly(ts, n)
    ensures KeysOnly(ts[1..], n - 1) && First(ts, n) == [ts[0].b] + First(ts[1..], n - 1)
  {
  }

  lemma KeyHoldsNoFrame(ts: seq<Token>, at: nat)
    requires ts != [] && ts[0].Key?
    ensures Sizes(ts) == Sizes(ts[1..]) && FrameOffsets(ts, at) == FrameOffsets(ts[1..], at + 1)
  {
    assert [] + FrameOffsets(ts[1..], at + 1) == FrameOffsets(ts[1..], at + 1);
  }

  /** ... and hold no frame. */
  lemma {:induction false} KeysHoldNoFrame(ts: seq<Token>, n: nat, at: nat)
    requires KeysOnly(ts, n)
    ensures Sizes(ts) == Sizes(ts[n..]) && FrameOffsets(ts, at) == FrameOffsets(ts[n..], at + n)
    decreases n
  {
    hide Sizes, FrameOffsets;
    if n == 0 {
      assert ts[0..] == ts;
    } else {
      KeyHoldsNoFrame(ts, at);
      KeysHoldNoFrame(ts[1..], n - 1, at + 1);
      assert ts[1..][n - 1..] == ts[n..];
    }
  }

  lemma FrameStep(so: Scanned, w: Winsize, rest: seq<Byte>, ioctls: nat)
    requires ioctls > 0
    ensures ScanFrom(so, FrameBytes(w) + rest, ioctls) == ScanFrom(Found(so, w), rest, ioctls - 1)
  {
    var s := FrameBytes(w) + rest;
    assert forall i :: 0 <= i < FRAME ==> s[i] == FrameBytes(w)[i];
    assert s[FRAME..] == rest;
  }

  lemma MismatchStep(so: Scanned, done: seq<Byte>, rest: seq<Byte>, ioctls: nat)
    requires |done + rest| >= FRAME && Mismatch(done + rest) == |done| > 0
    ensures ScanFrom(so, done + rest, ioctls) == ScanFrom(so.(out := so.out + done), rest, ioctls)
  {
    var s := done + rest;
    assert s[..|done|] == done && s[|done|..] == rest;
  }

  /** A comparison that is not misled consumes whole keys. */
  lemma KeysCompared(ts: seq<Token>)
    requires |Encode(ts)| >= FRAME && ts[0].Key? && !Misled(ts)
    ensures Compared(ts) < |ts| && Mismatch(Encode(ts)) == Compared(ts) && KeysOnly(ts, Compared(ts))
  {
    var n := Compared(ts);
    if |ts| <= n {
      KeysAreBytes(ts);
    }
    KeysFirst(ts, n);
    var s, keys := Encode(ts), First(ts, n);
    assert forall i :: 0 <= i < n ==> s[i] == keys[i];
  }

  /** Two scans at different places of the same chunk go on to the same result, told by what is left to read. */
  predicate Continues(so: Scanned, ts: seq<Token>, next: Scanned, rest: seq<Token>) {
    && so.out + Keys(ts) == next.out + Keys(rest)
    && so.sizes + Sizes(ts) == next.sizes + Sizes(rest)
    && so.taken + FrameOffsets(ts, Offset(so)) == next.taken + FrameOffsets(rest, Offset(next))
  }

  /** One turn of a scan that is not misled: a frame, ... */
  lemma FrameTurn(so: Scanned, ts: seq<Token>, ioctls: nat)
    requires ts != [] && ts[0].Frame? && |Sizes(ts)| <= ioctls
    ensures var next := Found(so, ts[0].w);
      && ScanFrom(so, Encode(ts), ioctls) == ScanFrom(next, Encode(ts[1..]), ioctls - 1)
      && Continues(so, ts, next, ts[1..])
    ensures |Sizes(ts)| == 1 + |Sizes(ts[1..])| && |Encode(ts)| == FRAME + |Encode(ts[1..])|
  {
    hide ScanFrom, FrameBytes, Continues;
    FrameStep(so, ts[0].w, Encode(ts[1..]), ioctls);
    FrameContinues(so, ts);
  }

  lemma FrameContinues(so: Scanned, ts: seq<Token>)
    requires ts != [] && ts[0].Frame?
    ensures Continues(so, ts, Found(so, ts[0].w), ts[1..])
  {
    hide TokenBytes;
    var w, rest, next := ts[0].w, ts[1..], Found(so, ts[0].w);
    assert Sizes(ts) == [w] + Sizes(rest) && Keys(ts) == [] + Keys(rest);
    assert FrameOffsets(ts, Offset(so)) == [Offset(so)] + FrameOffsets(rest, Offset(next)) by {
      assert |TokenBytes(ts[0])| == FRAME by {
        FrameLength(ts[0]);
      }
    }
    Assoc(so.sizes, [w], Sizes(rest));
    Assoc(so.taken, [Offset(so)], FrameOffsets(rest, Offset(next)));
    assert [] + Keys(rest) == Keys(rest);
  }

  lemma FrameLength(t: Token)
    ensures t.Frame? ==> |TokenBytes(t)| == FRAME
  {
  }

  /** ... or the keys of a failed comparison. */
  lemma KeysTurn(so: Scanned, ts: seq<Token>, ioctls: nat)
    requires |Encode(ts)| >= FRAME && ts[0].Key? && !Misled(ts)
    ensures var n := Compared(ts);
      && KeysOnly(ts, n) && n < |ts| && |Encode(ts[n..])| <= |Encode(ts)| && Sizes(ts) == Sizes(ts[n..])
      && var next := so.(out := so.out + First(ts, n));
      && ScanFrom(so, Encode(ts), ioctls) == ScanFrom(next, Encode(ts[n..]), ioctls)
      && Continues(so, ts, next, ts[n..])
  {
    var n := Compared(ts);
    KeysCompared(ts);
    KeysFirst(ts, n);
    KeysHoldNoFrame(ts, n, Offset(so));
    MismatchStep(so, First(ts, n), Encode(ts[n..]), ioctls);
    Assoc(so.out, First(ts, n), Keys(ts[n..]));
  }

  /** A clean chunk yields its keys in order and its window sizes in order, taken at the offsets of its frames. */
  lemma {:induction false} ScanDecodes(so: Scanned, ts: seq<Token>, ioctls: nat)
    requires Clean(ts) && |Sizes(ts)| <= ioctls
    ensures ScanFrom(so, Encode(ts), ioctls) ==
            Scanned(so.out + Keys(ts), so.sizes + Sizes(ts), so.taken + FrameOffsets(ts, Offset(so)))
    decreases |ts|
  {
    hide ScanFrom, Misled, Compared, First;
    if |Encode(ts)| < FRAME {
      ShortHasOnlyKeys(ts, Offset(so));
      ScanEnds(so, Encode(ts), ioctls);
    } else if ts[0].Frame? {
      FrameTurn(so, ts, ioctls);
      ScanDecodes(Found(so, ts[0].w), ts[1..], ioctls - 1);
    } else {
      var n := Compared(ts);
      KeysTurn(so, ts, ioctls);
      ScanDecodes(so.(out := so.out + First(ts, n)), ts[n..], ioctls);
    }
  }

  // ---- The condition is exact ----

  /** What has been taken stays, and what is taken later lies behind what has been read. */
  lemma {:induction false} TakenGrows(so: Scanned, rest: seq<Byte>, ioctls: nat)
    ensures so.taken <= ScanFrom(so, rest, ioctls).taken
    ensures var taken := ScanFrom(so, rest, ioctls).taken; |taken| > |so.taken| ==> taken[|so.taken|] >= Offset(so)
    decreases |rest|
  {
    if |rest| >= FRAME {
      if Mismatch(rest) > 0 {
        TakenGrows(so.(out := so.out + rest[..Mismatch(rest)]), rest[Mismatch(rest)..], ioctls);
      } else if ioctls > 0 {
        TakenGrows(Found(so, FrameSize(rest)), rest[FRAME..], ioctls - 1);
      }
    }
  }

  lemma TakenBehind(so: Scanned, s: seq<Byte>, ioctls: nat)
    requires |s| >= FRAME && Mismatch(s) > 0
    ensures var taken := ScanFrom(so, s, ioctls).taken;
      so.taken <= taken && (|taken| > |so.taken| ==> taken[|so.taken|] >= Offset(so) + Mismatch(s))
  {
    TakenGrows(so.(out := so.out + s[..Mismatch(s)]), s[Mismatch(s)..], ioctls);
  }

  lemma TakenHere(so: Scanned, s: seq<Byte>, ioctls: nat)
    requires |s| >= FRAME && Mismatch(s) == 0 && ioctls > 0
    ensures var taken := ScanFrom(so, s, ioctls).taken;
      so.taken <= taken && |taken| > |so.taken| && taken[|so.taken|] == Offset(so)
  {
    TakenGrows(Found(so, FrameSize(s)), s[FRAME..], ioctls - 1);
  }

  lemma {:induction false} OffsetsFrom(ts: seq<Token>, at: nat)
    ensures FrameOffsets(ts, at) != [] ==> FrameOffsets(ts, at)[0] >= at
  {
    if ts != [] {
      OffsetsFrom(ts[1..], at + |TokenBytes(ts[0])|);
    }
  }

  /** A misled comparison passes by the beginning of the frame that follows, ... */
  lemma HiddenIsWrong(so: Scanned, ts: seq<Token>, k: nat, ioctls: nat)
    requires 1 <= k <= 3 && Misled(ts) && IsFrame(ts, k) && KeysOnly(ts, k)
    ensures ScanFrom(so, Encode(ts), ioctls).taken != so.taken + FrameOffsets(ts, Offset(so))
  {
    var s, offsets := Encode(ts), FrameOffsets(ts, Offset(so));
    KeysFirst(ts, k);
    KeysHoldNoFrame(ts, k, Offset(so));
    PassesBy(s, ts, k);
    TakenBehind(so, s, ioctls);
    Differ(so.taken, offsets, ScanFrom(so, s, ioctls).taken);
  }

  lemma PassesBy(s: seq<Byte>, ts: seq<Token>, k: nat)
    requires 1 <= k <= 3 && Misled(ts) && IsFrame(ts, k) && KeysOnly(ts, k)
    requires s == First(ts, k) + Encode(ts[k..])
    ensures |s| >= FRAME && k < Mismatch(s)
  {
    var frame, keys := FrameBytes(ts[k].w), First(ts, k);
    assert Encode(ts[k..]) == frame + Encode(ts[k..][1..]);
    assert forall i :: 0 <= i < k ==> s[i] == keys[i];
    assert s[k] == frame[0] && s[k + 1] == frame[1];
  }

  /** ... or takes a frame where there is none. */
  lemma SpelledIsWrong(so: Scanned, ts: seq<Token>, ioctls: nat)
    requires |Encode(ts)| >= FRAME && KeysOnly(ts, 4) && First(ts, 4) == [MAGIC, MAGIC, S, S] && ioctls > 0
    ensures ScanFrom(so, Encode(ts), ioctls).taken != so.taken + FrameOffsets(ts, Offset(so))
  {
    hide ScanFrom, Encode, FrameOffsets;
    var s, keys := Encode(ts), First(ts, 4);
    KeysFirst(ts, 4);
    KeysHoldNoFrame(ts, 4, Offset(so));
    assert forall i :: 0 <= i < 4 ==> s[i] == keys[i];
    OffsetsFrom(ts[4..], Offset(so) + 4);
    TakenHere(so, s, ioctls);
    Differ(so.taken, FrameOffsets(ts, Offset(so)), ScanFrom(so, s, ioctls).taken);
  }

  lemma Differ(before: seq<nat>, xs: seq<nat>, all: seq<nat>)
    requires before <= all && (xs != [] || |all| > |before|)
    requires |all| > |before| ==> xs == [] || all[|before|] != xs[0]
    ensures all != before + xs
  {
    assert (before + xs)[|before|..] == xs;
  }

  lemma MisledIsWrong(so: Scanned, ts: seq<Token>, ioctls: nat)
    requires |Encode(ts)| >= FRAME && Misled(ts) && ioctls > 0
    ensures ScanFrom(so, Encode(ts), ioctls).taken != so.taken + FrameOffsets(ts, Offset(so))
  {
    if IsFrame(ts, 1) {
      HiddenIsWrong(so, ts, 1, ioctls);
    } else if IsFrame(ts, 2) {
      HiddenIsWrong(so, ts, 2, ioctls);
    } else if IsFrame(ts, 3) {
      HiddenIsWrong(so, ts, 3, ioctls);
    } else {
      assert First(ts, 4) == [MAGIC, MAGIC, S, S];
      SpelledIsWrong(so, ts, ioctls);
    }
  }

  lemma {:induction false} UncleanIsWrong(so: Scanned, ts: seq<Token>, ioctls: nat)
    requires !Clean(ts) && |Encode(ts)| <= ioctls
    ensures ScanFrom(so, Encode(ts), ioctls).taken != so.taken + FrameOffsets(ts, Offset(so))
    decreases |ts|
  {
    if ts[0].Frame? {
      SizesAreShort(ts);
      FrameTurn(so, ts, ioctls);
      UncleanIsWrong(Found(so, ts[0].w), ts[1..], ioctls - 1);
    } else if !Misled(ts) {
      var n := Compared(ts);
      KeysTurn(so, ts, ioctls);
      UncleanIsWrong(so.(out := so.out + First(ts, n)), ts[n..], ioctls);
    } else {
      MisledIsWrong(so, ts, ioctls);
    }
  }

  lemma {:induction false} SizesAreShort(ts: seq<Token>)
    ensures |Sizes(ts)| <= |Encode(ts)|
  {
    if ts != [] {
      SizesAreShort(ts[1..]);
    }
  }

  /** While no TIOCSWINSZ call fails, the server takes the frames of a chunk, and nothing else, out of it
      exactly if the chunk is clean; its keys and sizes then come out in order. */
  lemma ScanIsExact(ts: seq<Token>)
    ensures var s := Scan(Encode(ts), |Encode(ts)|);
      && (s.taken == FrameOffsets(ts, 0) <==> Clean(ts))
      && (Clean(ts) ==> s == Scanned(Keys(ts), Sizes(ts), FrameOffsets(ts, 0)))
  {
    assert [] + FrameOffsets(ts, 0) == FrameOffsets(ts, 0);
    assert [] + Keys(ts) == Keys(ts) && [] + Sizes(ts) == Sizes(ts);
    if Clean(ts) {
      SizesAreShort(ts);
      ScanDecodes(NOTHING, ts, |Encode(ts)|);
    } else {
      UncleanIsWrong(NOTHING, ts, |Encode(ts)|);
    }
  }

  lemma {:induction false} EachIsClean(tss: seq<seq<Token>>)
    requires forall k :: 0 <= k < |tss| ==> Clean(tss[k])
    ensures AllClean(tss)
  {
    if tss != [] {
      EachIsClean(tss[1..]);
    }
  }

  lemma {:induction false} PlainIsClean(ts: seq<Token>)
    requires forall j :: 0 <= j < |ts| ==> ts[j] != Key(MAGIC)
    ensures Clean(ts)
  {
    if ts != [] {
      PlainIsClean(ts[1..]);
    }
  }

  // ---- A series of reads ----

  /** What the server writes to the pty, the sizes it sets, and the offsets of the messages in each read. */
  datatype Served = Served(out: seq<Byte>, sizes: seq<Winsize>, taken: seq<seq<nat>>)

  function Serve(chunks: seq<seq<Byte>>): Served {
    if chunks == [] then Served([], [], [])
    else
      var s, rest := Scan(chunks[0], |chunks[0]|), Serve(chunks[1..]);
      Served(s.out + rest.out, s.sizes + rest.sizes, [s.taken] + rest.taken)
  }

  function EncodeAll(tss: seq<seq<Token>>): (r: seq<seq<Byte>>)
    ensures |r| == |tss|
  {
    if tss == [] then [] else [Encode(tss[0])] + EncodeAll(tss[1..])
  }

  function FramesIn(tss: seq<seq<Token>>): seq<seq<nat>> {
    if tss == [] then [] else [FrameOffsets(tss[0], 0)] + FramesIn(tss[1..])
  }

  predicate AllClean(tss: seq<seq<Token>>) {
    tss == [] || (Clean(tss[0]) && AllClean(tss[1..]))
  }

  /** When each read holds whole tokens, exactly the frames of the stream are taken out of it if and only if
      every read is clean; the pty then gets the keys of the stream and the sizes of its frames. */
  lemma {:induction false} ServeDecodes(tss: seq<seq<Token>>)
    ensures var s := Serve(EncodeAll(tss));
      && (s.taken == FramesIn(tss) <==> AllClean(tss))
      && (AllClean(tss) ==> s.out == Keys(Flatten(tss)) && s.sizes == Sizes(Flatten(tss)))
  {
    if tss != [] {
      var first, rest := tss[0], tss[1..];
      var s, more := Scan(Encode(first), |Encode(first)|), Serve(EncodeAll(rest));
      assert EncodeAll(tss)[0] == Encode(first) && EncodeAll(tss)[1..] == EncodeAll(rest);
      ScanIsExact(first);
      ServeDecodes(rest);
      KeysConcat(first, Flatten(rest));
      SizesConcat(first, Flatten(rest));
      FirstAndRest(s.taken, more.taken, FrameOffsets(first, 0), FramesIn(rest));
    }
  }

  lemma FirstAndRest<T>(a: T, xs: seq<T>, b: T, ys: seq<T>)
    ensures [a] + xs == [b] + ys <==> a == b && xs == ys
  {
    if [a] + xs == [b] + ys {
      assert xs == ([a] + xs)[1..] && ys == ([b] + ys)[1..];
    }
  }

  lemma {:induction false} EncodeAllIsStream(tss: seq<seq<Token>>)
    ensures Flatten(EncodeAll(tss)) == Encode(Flatten(tss))
  {
    if tss != [] {
      EncodeAllIsStream(tss[1..]);
      assert EncodeAll(tss)[1..] == EncodeAll(tss[1..]);
      EncodeConcat(tss[0], Flatten(tss[1..]));
    }
  }

  /** Two chunks that are not clean: a key 0xFF directly before a frame hides the frame, ... */
  lemma MagicKeyHidesFrame(w: Winsize)
    ensures !Clean([Key(MAGIC), Frame(w)])
    ensures Scan([MAGIC] + FrameBytes(w), 1) == Scanned([MAGIC] + FrameBytes(w), [], [])
  {
    var s := [MAGIC] + FrameBytes(w);
    assert Mismatch(s) == 3;
    assert s[..3] + s[3..] == s;
    assert Scan(s, 1) == ScanFrom(Scanned([] + s[..3], [], []), s[3..], 1);
    assert |Encode([Key(MAGIC), Frame(w)])| == 1 + |Encode([Key(MAGIC), Frame(w)][1..])|;
  }

  /** ... and keys that spell a frame are taken out of the stream as one. */
  lemma SpelledFrameIsRemoved(w: Winsize)
    ensures var ts := KeyTokens(FrameBytes(w));
      && !Clean(ts) && Keys(ts) == FrameBytes(w) && Sizes(ts) == []
      && Scan(Encode(ts), 1) == Scanned([], [w], [0])
  {
    var bytes := FrameBytes(w);
    KeyTokensMean(bytes);
    KeyTokensAre(bytes);
    FrameStep(NOTHING, w, [], 1);
    assert bytes + [] == bytes;
  }

  lemma {:induction false} KeyTokensAre(bytes: seq<Byte>)
    ensures forall i :: 0 <= i < |bytes| ==> KeyTokens(bytes)[i] == Key(bytes[i])
  {
    if bytes != [] {
      KeyTokensAre(bytes[1..]);
    }
  }

  // ---- The handshake ----

  /** What readtonull finds in the bytes that are still to come; it has room for `count` more after `text`. */
  datatype Field = Field(text: seq<Byte>, rest: seq<Byte>) | EndOfInput | TooLong

  function ReadFrom(text: seq<Byte>, input: seq<Byte>, count: nat): Field
    decreases count
  {
    if count == 0 then TooLong
    else if input == [] then EndOfInput
    else if input[0] == NUL then Field(text, input[1..])
    else ReadFrom(text + [input[0]], input[1..], count - 1)
  }

  function ReadField(input: seq<Byte>, count: nat): Field {
    ReadFrom([], input, count)
  }

  /** Reads byte by byte; returns the length with the NUL, 0 at the end of input, or -1. */
  method ReadToNull(input: seq<Byte>, buf: array<Byte>) returns (result: int, rest: seq<Byte>)
    modifies buf
    ensures match ReadField(input, buf.Length)
      case Field(text, r) => result == |text| + 1 <= buf.Length && buf[..result] == text + [NUL] && rest == r
      case EndOfInput => result == 0
      case TooLong => result == -1
  {
    var len, count := 0, buf.Length;
    rest := input;
    while count > 0
      invariant 0 <= len <= buf.Length && count == buf.Length - len
      invariant ReadField(input, buf.Length) == ReadFrom(buf[..len], rest, count)
    {
      if rest == [] {
        return 0, rest;
      }
      ghost var text := buf[..len];
      buf[len] := rest[0];
      rest := rest[1..];
      len := len + 1;
      count := count - 1;
      assert buf[..len] == text + [buf[len - 1]];
      if buf[len - 1] == NUL {
        return len, rest;
      }
    }
    return -1, rest;
  }

  /** The three names the server reads after the client's first NUL. */
  datatype Names = Names(localUser: seq<Byte>, remoteUser: seq<Byte>, terminal: seq<Byte>)

  function Accept(input: seq<Byte>): Option<Names> {
    if input == [] || input[0] != NUL then None
    else match ReadField(input[1..], NAMESIZE)
      case Field(localUser, rest) =>
        (match ReadField(rest, NAMESIZE)
         case Field(remoteUser, rest') =>
           (match ReadField(rest', NAMESIZE)
            case Field(terminal, _) => Some(Names(localUser, remoteUser, terminal))
            case _ => None)
         case _ => None)
      case _ => None
  }

  lemma {:induction false} NameIsReadAfter(text: seq<Byte>, name: seq<Byte>, rest: seq<Byte>, count: nat)
    requires NUL !in name
    ensures ReadFrom(text, name + [NUL] + rest, count) == if |name| < count then Field(text + name, rest) else TooLong
    decreases |name|
  {
    var input := name + [NUL] + rest;
    if count > 0 && name == [] {
      assert input[1..] == rest && text + name == text;
    } else if count > 0 {
      assert input[1..] == name[1..] + [NUL] + rest;
      NameIsReadAfter(text + [name[0]], name[1..], rest, count - 1);
      assert text + [name[0]] + name[1..] == text + name;
    }
  }

  /** A NUL-free name is read back exactly when it fits with its NUL. */
  lemma NameIsRead(name: seq<Byte>, rest: seq<Byte>, count: nat)
    requires NUL !in name
    ensures ReadField(name + [NUL] + rest, count) == if |name| < count then Field(name, rest) else TooLong
  {
    NameIsReadAfter([], name, rest, count);
    assert [] + name == name;
  }

  /** On arbitrary input: readtonull finds the bytes up to the first NUL if there is room for them and it, and otherwise
      tells whether the input or the room has come to its end. */
  lemma {:induction false} FieldIs(text: seq<Byte>, input: seq<Byte>, count: nat)
    ensures match ReadFrom(text, input, count)
      case Field(t, rest) =>
        text <= t && NUL !in t[|text|..] && |t| - |text| < count && input == t[|text|..] + [NUL] + rest
      case EndOfInput => NUL !in input && |input| < count
      case TooLong => count <= |input| && NUL !in input[..count]
    decreases count
  {
    if count > 0 && input != [] && input[0] != NUL {
      var longer := text + [input[0]];
      FieldIs(longer, input[1..], count - 1);
      assert input == [input[0]] + input[1..];
      match ReadFrom(text, input, count)
      case Field(t, rest) =>
        assert t[|text|..] == [input[0]] + t[|longer|..];
      case EndOfInput =>
      case TooLong =>
        assert input[..count] == [input[0]] + input[1..][..count - 1];
    } else if count > 0 && input != [] {
      assert text[|text|..] == [] && [] + [NUL] + input[1..] == input;
    }
  }

  /** What a client sends that has these names. */
  function Introduced(n: Names, later: seq<Byte>): seq<Byte> {
    [NUL] + (n.localUser + [NUL] + (n.remoteUser + [NUL] + (n.terminal + [NUL] + later)))
  }

  /** The names are without NUL and fit their fields. */
  predicate Fit(n: Names) {
    && NUL !in n.localUser && |n.localUser| < NAMESIZE
    && NUL !in n.remoteUser && |n.remoteUser| < NAMESIZE
    && NUL !in n.terminal && |n.terminal| < NAMESIZE
  }

  /** The server accepts a client exactly if its input starts with NUL and three names that fit, each ended by NUL;
      those are the names it goes on with. */
  lemma AcceptsExactly(input: seq<Byte>, n: Names)
    ensures Accept(input) == Some(n) <==> Fit(n) && exists later :: input == Introduced(n, later)
  {
    hide ReadFrom;
    if Fit(n) {
      if later :| input == Introduced(n, later) {
        IntroducedIsAccepted(n, later);
      }
    }
    if Accept(input) == Some(n) {
      var first := ReadField(input[1..], NAMESIZE);
      var second := ReadField(first.rest, NAMESIZE);
      var third := ReadField(second.rest, NAMESIZE);
      FieldIs([], input[1..], NAMESIZE);
      FieldIs([], first.rest, NAMESIZE);
      FieldIs([], second.rest, NAMESIZE);
      assert n == Names(first.text[0..], second.text[0..], third.text[0..]);
      assert input == [NUL] + input[1..];
      assert input == Introduced(n, third.rest);
    }
  }

  lemma IntroducedIsAccepted(n: Names, later: seq<Byte>)
    requires Fit(n)
    ensures Accept(Introduced(n, later)) == Some(n)
  {
    hide ReadField;
    var third := n.terminal + [NUL] + later;
    var second := n.remoteUser + [NUL] + third;
    assert Introduced(n, later)[1..] == n.localUser + [NUL] + second;
    NameIsRead(n.localUser, second, NAMESIZE);
    NameIsRead(n.remoteUser, third, NAMESIZE);
    NameIsRead(n.terminal, later, NAMESIZE);
  }

  /** buf starts with the string. */
  predicate HoldsString(buf: seq<Byte>, text: seq<Byte>) {
    |text| < |buf| && buf[..|text| + 1] == text + [NUL]
  }

  /** The handshake, up to the names: whether the server goes on, and then what is in its three buffers. */
  method Handshake(input: seq<Byte>, user: array<Byte>, luser: array<Byte>, term: array<Byte>) returns (ok: bool)
    requires user.Length == luser.Length == term.Length == NAMESIZE
    requires user != luser && user != term && luser != term
    modifies user, luser, term
    ensures ok <==> Accept(input).Some?
    ensures ok ==>
      var n := Accept(input).value;
      HoldsString(user[..], n.localUser) && HoldsString(luser[..], n.remoteUser) && HoldsString(term[..], n.terminal)
  {
    hide ReadField;
    if input == [] || input[0] != NUL {
      return false;
    }
    var result, rest := ReadToNull(input[1..], user);
    if result <= 0 {
      return false;
    }
    result, rest := ReadToNull(rest, luser);
    if result <= 0 {
      return false;
    }
    result, rest := ReadToNull(rest, term);
    return result > 0;
  }
}

/** telnetd's per-session code: handle_iacs and dup_iacs over a session's buffers, and the body of the loop that
    serves one session. */
module Telnetd {
  import opened Bytes
  import opened TelnetCodec

  const BUFSIZE: nat := 4 * 1024

  // ---- handle_iacs ----

  /** The inner loop that eats an unsupported subnegotiation; it looks at the byte behind the chunk as well. */
  method EatSub(mem: array<Byte>, at: nat, end: nat) returns (curr: nat, rem: nat)
    requires at < end && end < mem.Length
    ensures at + NextIac(mem[at..end], 1) == curr
    ensures rem == curr - at
  {
    curr, rem := at + 1, 1;
    while mem[curr] != IAC && curr < end
      invariant at < curr <= end && rem == curr - at
      invariant NextIac(mem[at..end], 1) == NextIac(mem[at..end], curr - at)
      decreases end - curr
    {
      assert mem[at..end][curr - at] == mem[curr];
      curr, rem := curr + 1, rem + 1;
    }
    if curr < end {
      assert mem[at..end][curr - at] == IAC;
    }
  }

  /** The bytes between two positions, none if they have crossed. */
  ghost function Span(mem: array<Byte>, from: nat, to: nat): seq<Byte>
    requires to <= mem.Length
    reads mem
  {
    if from < to then mem[from..to] else []
  }

  /** One turn of the loop of handle_iacs, at curr, on a chunk that ends before `end`. */
  method Turn(mem: array<Byte>, at: nat, end: nat, toybuf: array<Byte>, i: nat)
    returns (curr: nat, i': nat, rem: nat, stop: bool, ghost sizes: seq<Size>)
    requires at < end < mem.Length && i < toybuf.Length && toybuf != mem
    modifies toybuf
    ensures i <= i' <= i + 1 && at <= curr && (!stop ==> at < curr && rem == 0)
    ensures Next(mem[at..end], mem[end]) == if stop then Stop(rem) else Go(curr - at, toybuf[i..i'], sizes)
    ensures stop ==> i' == i
    ensures toybuf[..i] == old(toybuf[..i]) && toybuf[..i'] == toybuf[..i] + toybuf[i..i']
    ensures Drop(mem[at..end], curr - at) == Span(mem, curr, end)
  {
    ghost var t := mem[at..end];
    curr, i', rem, stop, sizes := at, i, 0, false, [];
    if mem[curr] != IAC {
      if mem[curr] != CR {
        toybuf[i'] := mem[curr];
        i', curr := i' + 1, curr + 1;
        return;
      } else {
        toybuf[i'] := mem[curr];
        i', curr := i' + 1, curr + 1;
        curr := curr + 1;
        assert curr < end ==> mem[curr] == t[2];
        if curr < end - 1 && (mem[curr] == LF || mem[curr] == NUL) {
          curr := curr + 1;
        }
        return;
      }
    }
    if curr + 1 > end - 1 {
      rem, stop := 1, true;
      return;
    }
    assert mem[curr + 1] == t[1];
    if mem[curr + 1] == IAC {
      toybuf[i'] := mem[curr + 1];
      i', curr := i' + 1, curr + 2;
      return;
    }
    if mem[curr + 1] == NOP || mem[curr + 1] == SE {
      curr := curr + 2;
      return;
    }
    if mem[curr + 1] == SB {
      if mem[curr + 2] == TELOPT_NAWS {
        if curr + 8 >= end - 1 {
          rem, stop := end - 1 - curr, true;
          return;
        }
        sizes := [Size(Word16(mem[curr + 3], mem[curr + 4]), Word16(mem[curr + 5], mem[curr + 6]))];
        curr := curr + 9;
        return;
      } else {
        curr, rem := EatSub(mem, curr, end);
        if mem[curr] == IAC {
          rem := 0;
          stop := curr == end;
        } else {
          stop := true;
        }
        return;
      }
    }
    curr := curr + 3;
  }

  /** The loop of handle_iacs, into toybuf. */
  method DecodeLoop(mem: array<Byte>, start: nat, end: nat, toybuf: array<Byte>, ghost d: Decoded)
    returns (i: nat, rem: nat, ghost sizes: seq<Size>)
    requires end < mem.Length && end - start <= toybuf.Length && toybuf != mem
    requires d == Decode(Span(mem, start, end), mem[end])
    modifies toybuf
    ensures i <= toybuf.Length && i + rem <= |Span(mem, start, end)|
    ensures d == Decoded(toybuf[..i], sizes, rem)
  {
    ghost var out, rest, past := [], Span(mem, start, end), mem[end];
    DecodedFits([], [], rest, past);
    i, rem, sizes := 0, 0, [];
    var curr, stop := start, false;
    while curr < end && !stop
      invariant start <= curr && i <= curr - start && i <= toybuf.Length
      invariant out == toybuf[..i] && rest == Span(mem, curr, end)
      invariant if stop then d == Decoded(out, sizes, rem) else rem == 0 && d == DecodeFrom(out, sizes, rest, past)
      decreases if stop then 0 else 1, end - curr
    {
      ghost var more, turn := [], Next(rest, past);
      var next, i';
      next, i', rem, stop, more := Turn(mem, curr, end, toybuf, i);
      DecodeTurn(out, sizes, rest, past, turn);
      if !stop {
        out, sizes, rest := out + turn.out, sizes + more, Drop(rest, turn.n);
        curr, i := next, i';
      }
    }
  }

  /** Decodes, in place, the bytes from start up to end; `d` is what they decode to.  The bytes in front of
      start and behind end may be read, and none but those between are written. */
  method HandleIacs(mem: array<Byte>, start: nat, end: nat, toybuf: array<Byte>, ghost d: Decoded)
    returns (i: nat, rem: nat, ghost sizes: seq<Size>)
    requires 1 <= start <= mem.Length && 1 <= end < mem.Length && end - start <= toybuf.Length && toybuf != mem
    requires d == Decode(Span(mem, start, end), mem[end])
    modifies mem, toybuf
    ensures i + rem <= |old(Span(mem, start, end))|
    ensures d == Decoded(mem[start..start + i], sizes, rem)
    ensures mem[..start] == old(mem[..start])
    ensures mem[start + i + rem..] == old(mem[start + i + rem..])
  {
    i, rem, sizes := DecodeLoop(mem, start, end, toybuf, d);
    assert start + i + rem <= mem.Length && rem < end;
    WriteBack(mem, start, end, toybuf, i, rem);
  }

  /** The two memcpy calls at the end: the decoded bytes, then, as a move, the bytes taken for the remainder. */
  method WriteBack(mem: array<Byte>, start: nat, end: nat, toybuf: array<Byte>, i: nat, rem: nat)
    requires start + i + rem <= mem.Length && rem < end <= mem.Length && i <= toybuf.Length && toybuf != mem
    modifies mem
    ensures mem[start..start + i] == toybuf[..i]
    ensures mem[..start] == old(mem[..start])
    ensures mem[start + i + rem..] == old(mem[start + i + rem..])
  {
    forall k | 0 <= k < i {
      mem[start + k] := toybuf[k];
    }
    var from := end - 1 - rem;
    forall k | 0 <= k < rem {
      mem[start + i + k] := mem[from + k];
    }
  }

  // ---- dup_iacs ----

  function Double(b: Byte): seq<Byte> {
    if b == IAC then [IAC, IAC] else [b]
  }

  /** The bytes with every IAC doubled. */
  function Doubled(s: seq<Byte>): seq<Byte> {
    if s == [] then [] else Doubled(s[..|s| - 1]) + Double(s[|s| - 1])
  }

  lemma {:induction false} DoubledConcat(a: seq<Byte>, b: seq<Byte>)
    ensures Doubled(a + b) == Doubled(a) + Doubled(b)
  {
    if b == [] {
      assert a + b == a;
    } else {
      var init, last := b[..|b| - 1], b[|b| - 1];
      assert (a + b)[..|a + b| - 1] == a + init;
      DoubledConcat(a, init);
      Assoc(Doubled(a), Doubled(init), Double(last));
    }
  }

  lemma {:induction false} PlainIsNotDoubled(s: seq<Byte>)
    requires IAC !in s
    ensures Doubled(s) == s
  {
    if s != [] {
      PlainIsNotDoubled(s[..|s| - 1]);
      assert s[..|s| - 1] + [s[|s| - 1]] == s;
    }
  }

  lemma DoubledNext(data: seq<Byte>, k: nat, n: nat)
    requires k + n <= |data|
    ensures Doubled(data[..k + n]) == Doubled(data[..k]) + Doubled(data[k..][..n])
  {
    DoubledConcat(data[..k], data[k..][..n]);
    assert data[..k] + data[k..][..n] == data[..k + n];
  }

  /** How many bytes stand in front of the first IAC. */
  function Plain(s: seq<Byte>): (n: nat)
    ensures n <= |s|
  {
    if s == [] || s[0] == IAC then 0 else 1 + Plain(s[1..])
  }

  /** How many of the bytes are consumed if `calls` of the writes succeed: each takes an IAC, or all in front
      of the next one. */
  function Consumed(data: seq<Byte>, calls: nat): (n: nat)
    ensures n <= |data|
    decreases calls
  {
    if data == [] || calls == 0 then 0
    else
      var c := if data[0] == IAC then 1 else Plain(data);
      c + Consumed(data[c..], calls - 1)
  }

  /** Calls that succeed in two parts. */
  lemma {:induction false} ConsumedTwice(data: seq<Byte>, a: nat, b: nat)
    ensures Consumed(data, a + b) == Consumed(data, a) + Consumed(data[Consumed(data, a)..], b)
    decreases a
  {
    hide Consumed, Plain;
    assert data[0..] == data;
    if data == [] {
      NoneConsumed(data);
    } else {
      var c := if data[0] == IAC then 1 else Plain(data);
      RunIsFirst(data, c);
      ConsumedNext(data, 0, c, a);
      ConsumedNext(data, 0, c, a + b);
      if a > 0 {
        var n := Consumed(data[c..], a - 1);
        ConsumedTwice(data[c..], a - 1, b);
        assert data[c..][n..] == data[c + n..];
      }
    }
  }

  /** How many writes some bytes take, one for each IAC and one for the bytes between two of them. */
  function WritesFor(s: seq<Byte>): nat {
    if s == [] then 0
    else WritesFor(Init(s)) + if Last(s) == IAC || |s| == 1 || Last(Init(s)) == IAC then 1 else 0
  }

  lemma {:induction false} WritesForSome(s: seq<Byte>)
    ensures WritesFor(s) == 0 <==> s == []
    ensures s != [] && IAC !in s ==> WritesFor(s) == 1
  {
    if s != [] {
      assert s == Init(s) + [Last(s)];
      WritesForSome(Init(s));
    }
  }

  /** Bytes that are cut at an IAC. */
  lemma {:induction false} WritesForBoth(a: seq<Byte>, b: seq<Byte>)
    requires a == [] || b == [] || Last(a) == IAC || b[0] == IAC
    ensures WritesFor(a + b) == WritesFor(a) + WritesFor(b)
    decreases |b|
  {
    if b == [] {
      assert a + b == a;
    } else {
      assert Init(a + b) == a + Init(b) && Last(a + b) == Last(b);
      WritesForBoth(a, Init(b));
      if |b| > 1 {
        assert Last(a + Init(b)) == Last(Init(b));
      } else {
        assert Init(b) == [] && a + [] == a;
      }
    }
  }

  /** As many bytes are consumed as the calls that succeed can write. */
  lemma {:induction false} ConsumedIsMost(data: seq<Byte>, calls: nat, n: nat)
    requires n <= |data|
    ensures n <= Consumed(data, calls) <==> WritesFor(data[..n]) <= calls
    decreases calls
  {
    hide WritesFor, Consumed, Plain;
    WritesForSome(data[..n]);
    if n > 0 {
      var c := if data[0] == IAC then 1 else Plain(data);
      assert data[0..] == data;
      ConsumedNext(data, 0, c, calls);
      RunIsFirst(data, c);
      if n <= c {
        WritesForOne(data[..n]);
      } else if calls > 0 {
        FirstRunApart(data, c, n);
        ConsumedIsMost(data[c..], calls - 1, n - c);
      }
    }
  }

  lemma RunIsFirst(data: seq<Byte>, c: nat)
    requires data != [] && c == if data[0] == IAC then 1 else Plain(data)
    ensures 0 < c <= |data| && (c < |data| && data[0] != IAC ==> data[c] == IAC)
    ensures forall n :: 0 < n <= c ==> data[..n] == [IAC] || IAC !in data[..n]
  {
    PlainIsPlain(data);
    forall n | 0 < n <= c
      ensures data[..n] == [IAC] || IAC !in data[..n]
    {
      if data[0] != IAC {
        assert data[..n] == data[..Plain(data)][..n];
      }
    }
  }

  lemma FirstRunApart(data: seq<Byte>, c: nat, n: nat)
    requires 0 < c < n <= |data| && (data[0] != IAC ==> data[c] == IAC)
    requires data[..c] == [IAC] || IAC !in data[..c]
    ensures WritesFor(data[..n]) == 1 + WritesFor(data[c..][..n - c])
  {
    hide WritesFor;
    var (a, b) := (data[..c], data[c..][..n - c]);
    assert data[..n] == a + b && b[0] == data[c] && a[0] == data[0];
    WritesForBoth(a, b);
    WritesForOne(a);
  }

  lemma WritesForOne(s: seq<Byte>)
    requires s != [] && (s == [IAC] || IAC !in s)
    ensures WritesFor(s) == 1
  {
    WritesForSome(s);
    assert Init([IAC]) == [];
  }

  lemma {:induction false} PlainIsPlain(s: seq<Byte>)
    ensures IAC !in s[..Plain(s)] && (Plain(s) < |s| ==> s[Plain(s)] == IAC)
  {
    if s != [] && s[0] != IAC {
      PlainIsPlain(s[1..]);
      assert s[..Plain(s)] == [s[0]] + s[1..][..Plain(s[1..])];
    }
  }

  /** The first call that succeeds gets something across, and as many calls as there are bytes everything. */
  lemma {:induction false} CallsConsume(data: seq<Byte>, calls: nat)
    ensures data != [] && calls > 0 ==> Consumed(data, calls) > 0
    ensures |data| <= calls ==> Consumed(data, calls) == |data|
    decreases calls
  {
    if data != [] && calls > 0 {
      var c := if data[0] == IAC then 1 else Plain(data);
      CallsConsume(data[c..], calls - 1);
    }
  }

  /** The next writeall() of dup_iacs: IAC IAC for an IAC, otherwise the bytes memchr finds in front of one. */
  method NextWrite(s: seq<Byte>) returns (c: nat, bytes: seq<Byte>)
    requires s != []
    ensures 0 < c <= |s| && bytes == Doubled(s[..c]) && c == if s[0] == IAC then 1 else Plain(s)
  {
    if s[0] == IAC {
      c, bytes := 1, [IAC, IAC];
      assert Doubled(s[..1]) == Doubled(s[..1][..0]) + [IAC, IAC];
    } else {
      c := 0;
      while c < |s| && s[c] != IAC
        invariant c <= |s| && IAC !in s[..c] && Plain(s) == c + Plain(s[c..])
      {
        assert s[c..][1..] == s[c + 1..];
        c := c + 1;
      }
      bytes := s[..c];
      PlainIsNotDoubled(bytes);
    }
  }

  /** Writes the bytes with IACs doubled, until all are written or one of the writeall() calls fails, each of
      which writes everything or nothing; `calls` is how many succeed before one fails.  Returns the number
      of bytes consumed; what reaches the socket is exactly their doubling. */
  method DupIacs(data: seq<Byte>, calls: nat) returns (ret: nat, ghost written: seq<Byte>)
    ensures ret == Consumed(data, calls) && written == Doubled(data[..ret])
  {
    hide Consumed, Doubled;
    ret, written := 0, [];
    NoneConsumed(data);
    var left := calls;
    while ret < |data|
      invariant ret <= |data| && written == Doubled(data[..ret])
      invariant Consumed(data, calls) == ret + Consumed(data[ret..], left)
      decreases |data| - ret
    {
      var c, bytes := NextWrite(data[ret..]);
      ConsumedNext(data, ret, c, left);
      if left == 0 {
        break;
      }
      DoubledNext(data, ret, c);
      written := written + bytes;
      ret, left := ret + c, left - 1;
    }
    NoneConsumed(data[ret..]);
  }

  lemma NoneConsumed(data: seq<Byte>)
    ensures Doubled([]) == [] && data[..0] == [] && data[0..] == data
    ensures data == [] ==> forall n :: Consumed(data, n) == 0
  {
  }

  lemma ConsumedNext(data: seq<Byte>, k: nat, c: nat, left: nat)
    requires k + c <= |data| && data[k..] != [] && c == if data[k] == IAC then 1 else Plain(data[k..])
    ensures Consumed(data[k..], left) == if left == 0 then 0 else c + Consumed(data[k + c..], left - 1)
  {
    assert data[k..][c..] == data[k + c..];
  }
}

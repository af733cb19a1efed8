/** What telnetd and the telnet client make of bytes that no token prints: a CR before any other byte, a command of two
    bytes, and commands cut off by the end of a chunk. */
module TelnetStray {
  import opened Bytes
  import opened TelnetCodec
  import opened TelnetNegotiation
  import opened TelnetConsole

  /** A command of two bytes (RFC 854, "TELNET Command Structure"), such as Are You There. */
  predicate IsShort(c: Byte) {
    c != IAC && c != SB && c != SE && c != NOP && !IsVerb(c)
  }

  lemma PrintedDecodes(ts: seq<Token>, past: Byte)
    requires forall t :: t in ts ==> TokenOk(t)
    ensures Decode(PrintAll(ts), past) == Decoded(Kept(ts), KeptSizes(ts), Remainder(ts))
  {
    hide PrintAll, Kept, KeptSizes;
    DecodePrinted([], [], ts, past);
    assert [] + Kept(ts) == Kept(ts) && [] + KeptSizes(ts) == KeptSizes(ts);
  }

  lemma CrSkipsOne(b: Byte, rest: seq<Byte>, past: Byte)
    ensures Decode([CR, b] + rest, past) == Decode([CR, LF] + rest, past)
  {
    var s, t := [CR, b] + rest, [CR, LF] + rest;
    DecodeTurn([], [], s, past, Next(s, past));
    DecodeTurn([], [], t, past, Next(t, past));
    assert s[2..] == t[2..];
    assert |s| > 2 ==> s[2] == t[2] && s[3..] == t[2..][1..] && t[3..] == t[2..][1..];
  }

  /** telnetd skips whatever byte follows a CR. */
  lemma ByteBehindCrIsLost(b: Byte, ts: seq<Token>, past: Byte)
    requires forall t :: t in ts ==> TokenOk(t)
    ensures Decode([CR, b] + PrintAll(ts), past).out == Kept([CrLf] + ts)
    ensures NothingSwallowed([CrLf] + ts) ==> Decode([CR, b] + PrintAll(ts), past).out == [CR] + AllData(ts)
  {
    var all := [CrLf] + ts;
    assert all[1..] == ts && forall t :: t in all ==> TokenOk(t);
    CrSkipsOne(b, PrintAll(ts), past);
    DecodePrinted([], [], all, past);
    KeptIsShorter(all);
  }

  lemma ThreeAreSkipped(c: Byte, b: Byte, rest: seq<Byte>, past: Byte)
    requires IsShort(c)
    ensures Decode([IAC, c, b] + rest, past) == Decode(rest, past)
  {
    var s := [IAC, c, b] + rest;
    DecodeTurn([], [], s, past, Next(s, past));
    DropPrefix([IAC, c, b], rest);
    var none: seq<Byte>, no: seq<Size> := [], [];
    assert none + [] == none && no + [] == no;
  }

  /** telnetd takes every command of two bytes for one of three: the byte behind it is lost, whatever it is. */
  lemma ByteBehindCommandIsLost(c: Byte, b: Byte, ts: seq<Token>, past: Byte)
    requires IsShort(c) && forall t :: t in ts ==> TokenOk(t)
    ensures Decode([IAC, c, b] + PrintAll(ts), past) == Decoded(Kept(ts), KeptSizes(ts), Remainder(ts))
    ensures TokenOk(Data(b)) ==> Decode([IAC, c, b] + PrintAll(ts), past).out != AllData([Data(b)] + ts)
  {
    hide Decode, DecodeFrom, Next, Print, PrintAll, Kept, KeptSizes, NothingSwallowed;
    ThreeAreSkipped(c, b, PrintAll(ts), past);
    PrintedDecodes(ts, past);
    KeptIsShorter(ts);
    assert ([Data(b)] + ts)[1..] == ts;
  }

  /** Of a command cut off by the end of a chunk telnetd decodes nothing.  A lone IAC is left over, but not one with a
      verb; so is, but for its first byte, a window size, even one that ends the chunk; and any other subnegotiation is,
      unless the byte in memory behind it is IAC. */
  lemma CutShort(verb: Byte, opt: Byte, payload: seq<Byte>, past: Byte)
    requires IsVerb(verb) && opt != IAC && IAC !in payload
    ensures Decode([IAC], past) == Decoded([], [], 1) && Decode([IAC, verb], past) == Decoded([], [], 0)
    ensures Decode([IAC, SB], past) ==
      Decoded([], [], if past == IAC then 0 else if past == TELOPT_NAWS then 1 else 2)
    ensures opt != TELOPT_NAWS ==>
      Decode([IAC, SB, opt] + payload, past) == Decoded([], [], if past == IAC then 0 else 3 + |payload|)
    ensures |payload| <= 6 ==>
      Decode([IAC, SB, TELOPT_NAWS] + payload, past) == Decoded([], [], 2 + |payload|)
  {
    var s := [IAC, SB, opt] + payload;
    NoIacAhead(s, 1);
    NoIacAhead([IAC, SB], 1);
    DecodeTurn([], [], [IAC], past, Next([IAC], past));
    DecodeTurn([], [], [IAC, verb], past, Next([IAC, verb], past));
    DecodeTurn([], [], [IAC, SB], past, Next([IAC, SB], past));
    DecodeTurn([], [], s, past, Next(s, past));
    if |payload| <= 6 {
      var n := [IAC, SB, TELOPT_NAWS] + payload;
      DecodeTurn([], [], n, past, Next(n, past));
    }
  }

  lemma {:induction false} NoIacAhead(t: seq<Byte>, k: nat)
    requires k <= |t| && forall i :: k <= i < |t| ==> t[i] != IAC
    ensures NextIac(t, k) == |t|
    decreases |t| - k
  {
    if k < |t| {
      NoIacAhead(t, k + 1);
    }
  }

  // ---- The client ----

  /** The client shows a CR before another byte, and that byte. */
  lemma ByteBehindCrIsShown(b: Byte, ts: seq<Token>, m: seq<Byte>)
    requires FromServerTokens(ts) && b != NUL && b != CR && b != IAC
    requires Ahead(m, 0, 2 + |PrintAll(ts)|, [CR, b] + PrintAll(ts))
    ensures ScanFrom([], [], m, 0, 2 + |PrintAll(ts)|) == ([CR, b] + AllShown(ts), AllRequested(ts))
  {
    hide ScanFrom, PrintAll, AllShown, AllRequested, FromServerTokens;
    var len, s := 2 + |PrintAll(ts)|, [CR, b];
    var none: seq<Byte>, no: seq<Request> := [], [];
    assert none + [CR] == [CR] && [CR] + [b] == s && no + no == no && no + AllRequested(ts) == AllRequested(ts);
    Further(m, 0, len, s, PrintAll(ts));
    assert m[0 + 0] == s[0] && m[0 + 1] == s[1];
    ScanStep([], [], m, 0, len, Turn([CR], [], 1));
    ScanStep([CR], [], m, 1, len, Turn([b], [], 2));
    TokensScanned(s, [], m, 2, len, ts);
  }

  /** It shows nothing of a command of two bytes, and skips no more than these. */
  lemma CommandIsSkipped(c: Byte, ts: seq<Token>, m: seq<Byte>)
    requires FromServerTokens(ts) && IsShort(c)
    requires Ahead(m, 0, 2 + |PrintAll(ts)|, [IAC, c] + PrintAll(ts))
    ensures ScanFrom([], [], m, 0, 2 + |PrintAll(ts)|) == (AllShown(ts), AllRequested(ts))
  {
    hide ScanFrom, PrintAll, AllShown, AllRequested, FromServerTokens;
    var len, s := 2 + |PrintAll(ts)|, [IAC, c];
    var none: seq<Byte>, no: seq<Request> := [], [];
    assert none + none == none && none + AllShown(ts) == AllShown(ts);
    assert no + no == no && no + AllRequested(ts) == AllRequested(ts);
    Further(m, 0, len, s, PrintAll(ts));
    assert m[0 + 0] == s[0] && m[0 + 1] == s[1];
    ScanStep([], [], m, 0, len, Turn([], [], 2));
    TokensScanned([], [], m, 2, len, ts);
  }
}

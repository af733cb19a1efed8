/** What the telnet client makes of the server's bytes: what it shows on the console, and what it takes for requests. */
module TelnetConsole {
  import opened Bytes
  import opened TelnetCodec
  import opened Telnetd
  import opened TelnetNegotiation

  /** One turn of the client's loop: what goes to the console, the request found, and where the next turn begins. */
  datatype Turn = Turn(shown: seq<Byte>, asked: seq<Request>, next: nat)

  /** The turn that begins at p; up to three bytes behind that are looked at. */
  function Step(m: seq<Byte>, p: nat): (u: Turn)
    requires p + 3 < |m|
    ensures p < u.next <= p + 4
  {
    if m[p] != IAC then Turn([m[p]], [], if m[p] == CR && m[p + 1] == NUL then p + 2 else p + 1)
    else if IsVerb(m[p + 1]) then Turn([], [Ask(m[p + 1], m[p + 2])], p + 3)
    else if m[p + 1] != SB then Turn([], [], p + 2)
    else if m[p + 2] != TELOPT_TTYPE then Turn([], [], p + 3)
    else Turn([], if m[p + 3] == TELQUAL_SEND then [SendType] else [], p + 4)
  }

  /** The console's bytes and the requests in the len bytes at the start of m, from p on, after those already found. */
  function ScanFrom(out: seq<Byte>, rs: seq<Request>, m: seq<Byte>, p: nat, len: nat): (seq<Byte>, seq<Request>)
    requires len + 3 <= |m|
    decreases len - p
  {
    if p >= len then (out, rs)
    else var u := Step(m, p); ScanFrom(out + u.shown, rs + u.asked, m, u.next, len)
  }

  lemma ScanStep(out: seq<Byte>, rs: seq<Request>, m: seq<Byte>, p: nat, len: nat, u: Turn)
    requires p < len && len + 3 <= |m| && u == Step(m, p)
    ensures ScanFrom(out, rs, m, p, len) == ScanFrom(out + u.shown, rs + u.asked, m, u.next, len)
  {
  }

  /** Requests found in the server's bytes are the server's. */
  lemma {:induction false} ScanFindsRequests(out: seq<Byte>, rs: seq<Request>, m: seq<Byte>, p: nat, len: nat)
    requires len + 3 <= |m| && FromServer(rs)
    ensures FromServer(ScanFrom(out, rs, m, p, len).1)
    decreases len - p
  {
    if p < len {
      var u := Step(m, p);
      ScanFindsRequests(out + u.shown, rs + u.asked, m, u.next, len);
    }
  }

  // ---- A chunk of whole tokens ----

  /** The bytes of m from p up to len are s, and there are three more. */
  predicate Ahead(m: seq<Byte>, p: nat, len: nat, s: seq<Byte>) {
    p + |s| == len && len + 3 <= |m| && m[p..len] == s
  }

  lemma Further(m: seq<Byte>, p: nat, len: nat, a: seq<Byte>, b: seq<Byte>)
    requires Ahead(m, p, len, a + b)
    ensures Ahead(m, p + |a|, len, b) && m[p..p + |a|] == a
    ensures forall k {:trigger a[k]} :: 0 <= k < |a| ==> m[p + k] == a[k]
  {
    var s := a + b;
    assert m[p + |a|..len] == s[|a|..] && s[|a|..] == b;
    assert m[p..p + |a|] == s[..|a|];
    assert forall k :: 0 <= k < |a| ==> m[p + k] == m[p..len][k];
  }

  /** What the console shows of some bytes: no IAC, and no NUL directly behind a CR. */
  function Displayed(bytes: seq<Byte>): (r: seq<Byte>)
    ensures |r| <= |bytes| && IAC !in r
    ensures bytes != [] && IAC !in bytes ==> r != []
  {
    if bytes == [] then []
    else if bytes[0] == IAC then Displayed(bytes[1..])
    else if bytes[0] == CR && |bytes| > 1 && bytes[1] == NUL then [CR] + Displayed(bytes[2..])
    else [bytes[0]] + Displayed(bytes[1..])
  }

  /** Bytes without IAC are so shown up to the next IAC. */
  lemma {:induction false} BytesShown(out: seq<Byte>, rs: seq<Request>, m: seq<Byte>, p: nat, len: nat,
                                      a: seq<Byte>, b: seq<Byte>)
    requires Ahead(m, p, len, a + b) && IAC !in a && b != [] && b[0] == IAC
    ensures ScanFrom(out, rs, m, p, len) == ScanFrom(out + Displayed(a), rs, m, p + |a|, len)
    decreases |a|
  {
    hide ScanFrom, Step;
    if a == [] {
      assert out + [] == out;
    } else {
      var n := if a[0] == CR && |a| > 1 && a[1] == NUL then 2 else 1;
      ByteShown(m, p, len, a, b);
      ScanStep(out, rs, m, p, len, Turn([a[0]], [], p + n));
      assert rs + [] == rs && forall x :: x in a[n..] ==> x in a;
      BytesShown(out + [a[0]], rs, m, p + n, len, a[n..], b);
      Assoc(out, [a[0]], Displayed(a[n..]));
    }
  }

  lemma ByteShown(m: seq<Byte>, p: nat, len: nat, a: seq<Byte>, b: seq<Byte>)
    requires Ahead(m, p, len, a + b) && a != [] && a[0] != IAC && b != [] && b[0] == IAC
    ensures var n := if a[0] == CR && |a| > 1 && a[1] == NUL then 2 else 1;
      Step(m, p) == Turn([a[0]], [], p + n) && Ahead(m, p + n, len, a[n..] + b)
  {
    var n, s := if a[0] == CR && |a| > 1 && a[1] == NUL then 2 else 1, a + b;
    Further(m, p, len, [s[0], s[1]], s[2..]) by {
      assert s == [s[0], s[1]] + s[2..];
    }
    assert m[p + 0] == [s[0], s[1]][0] && m[p + 1] == [s[0], s[1]][1];
    assert a + b == a[..n] + (a[n..] + b);
    Further(m, p, len, a[..n], a[n..] + b);
  }

  /** A token a server may send. */
  predicate ServerToken(t: Token) {
    TokenOk(t) && !t.Naws?
  }

  /** TTYPE without a payload. */
  predicate IsBare(t: Token) {
    t.Sub? && t.opt == TELOPT_TTYPE && t.payload == []
  }

  /** What of a subnegotiation the client takes for data.  It reads no more than the option and, for TTYPE, the byte
      behind it, even if that is the IAC of the end. */
  function Behind(t: Token): seq<Byte>
    requires ServerToken(t) && t.Sub? && !IsBare(t)
  {
    if t.opt == TELOPT_TTYPE then t.payload[1..] else t.payload
  }

  /** What of it ends up on the console. */
  function Leaked(t: Token): seq<Byte>
    requires ServerToken(t)
  {
    if !t.Sub? then [] else if IsBare(t) then [SE] else Displayed(Behind(t))
  }

  /** What a token is to print, and what the client shows for it. */
  function Meant(t: Token): seq<Byte> {
    match t
    case Data(b) => [b]
    case EscapedIac => [IAC]
    case CrLf => [CR, LF]
    case CrNul => [CR]
    case _ => []
  }

  function Shown(t: Token): seq<Byte>
    requires ServerToken(t)
  {
    if t.EscapedIac? then [] else if t.Sub? then Leaked(t) else Meant(t)
  }

  function Requested(t: Token): seq<Request>
    requires ServerToken(t)
  {
    if t.Command? then [Ask(t.verb, t.opt)]
    else if t.Sub? && t.opt == TELOPT_TTYPE && t.payload != [] && t.payload[0] == TELQUAL_SEND then [SendType]
    else []
  }

  predicate FromServerTokens(ts: seq<Token>) {
    ts == [] || (ServerToken(ts[0]) && FromServerTokens(ts[1..]))
  }

  function AllMeant(ts: seq<Token>): seq<Byte> {
    if ts == [] then [] else Meant(ts[0]) + AllMeant(ts[1..])
  }

  function AllShown(ts: seq<Token>): seq<Byte>
    requires FromServerTokens(ts)
  {
    if ts == [] then [] else Shown(ts[0]) + AllShown(ts[1..])
  }

  function AllLeaked(ts: seq<Token>): seq<Byte>
    requires FromServerTokens(ts)
  {
    if ts == [] then [] else Leaked(ts[0]) + AllLeaked(ts[1..])
  }

  function AllRequested(ts: seq<Token>): seq<Request>
    requires FromServerTokens(ts)
  {
    if ts == [] then [] else Requested(ts[0]) + AllRequested(ts[1..])
  }

  /** Every token but CR LF and a subnegotiation takes one turn. */
  lemma ShortTurn(m: seq<Byte>, p: nat, len: nat, t: Token, rest: seq<Byte>)
    requires ServerToken(t) && !t.CrLf? && !t.Sub? && Ahead(m, p, len, Print(t) + rest)
    ensures Step(m, p) == Turn(Shown(t), Requested(t), p + |Print(t)|)
  {
    var s := Print(t);
    Further(m, p, len, s, rest);
    assert m[p + 0] == s[0];
    if !t.Data? {
      assert m[p + 1] == s[1];
      if t.Command? {
        assert m[p + 2] == s[2];
      }
    }
  }

  /** The front of a subnegotiation, up to what the client takes for data. */
  function Front(t: Token): seq<Byte>
    requires ServerToken(t) && t.Sub?
  {
    if IsBare(t) then [IAC, SB, t.opt, IAC]
    else if t.opt == TELOPT_TTYPE then [IAC, SB, t.opt, t.payload[0]]
    else [IAC, SB, t.opt]
  }

  lemma FrontTurn(m: seq<Byte>, p: nat, len: nat, t: Token, more: seq<Byte>)
    requires ServerToken(t) && t.Sub? && Ahead(m, p, len, Front(t) + more)
    ensures Step(m, p) == Turn([], Requested(t), p + |Front(t)|)
  {
    Further(m, p, len, Front(t), more);
    var f := Front(t);
    assert m[p + 0] == f[0] && m[p + 1] == f[1] && m[p + 2] == f[2];
    if t.opt == TELOPT_TTYPE {
      assert m[p + 3] == f[3];
    }
  }

  /** What leaks, and the end. */
  lemma BackScanned(out: seq<Byte>, rs: seq<Request>, m: seq<Byte>, p: nat, len: nat,
                    behind: seq<Byte>, rest: seq<Byte>)
    requires Ahead(m, p, len, behind + ([IAC, SE] + rest)) && IAC !in behind
    ensures ScanFrom(out, rs, m, p, len) == ScanFrom(out + Displayed(behind), rs, m, p + |behind| + 2, len)
  {
    hide ScanFrom, Step, Displayed;
    var shown := out + Displayed(behind);
    BytesShown(out, rs, m, p, len, behind, [IAC, SE] + rest);
    Further(m, p, len, behind, [IAC, SE] + rest);
    ShortTurn(m, p + |behind|, len, EndSub, rest);
    ScanStep(shown, rs, m, p + |behind|, len, Turn([], [], p + |behind| + 2));
    assert shown + [] == shown && rs + [] == rs;
  }

  lemma SubIs(t: Token, rest: seq<Byte>)
    requires ServerToken(t) && t.Sub? && !IsBare(t)
    ensures Print(t) + rest == Front(t) + (Behind(t) + ([IAC, SE] + rest))
    ensures |Print(t)| == |Front(t)| + |Behind(t)| + 2 && IAC !in Behind(t)
  {
    assert Print(t) == Front(t) + Behind(t) + [IAC, SE];
    Assoc(Front(t) + Behind(t), [IAC, SE], rest);
    Assoc(Front(t), Behind(t), [IAC, SE] + rest);
  }

  lemma SubScanned(out: seq<Byte>, rs: seq<Request>, m: seq<Byte>, p: nat, len: nat, t: Token, rest: seq<Byte>)
    requires ServerToken(t) && t.Sub? && !IsBare(t) && Ahead(m, p, len, Print(t) + rest)
    ensures ScanFrom(out, rs, m, p, len) == ScanFrom(out + Shown(t), rs + Requested(t), m, p + |Print(t)|, len)
  {
    hide ScanFrom, Step, Print, Displayed, Front, Behind;
    var back := Behind(t) + ([IAC, SE] + rest);
    SubIs(t, rest);
    FrontTurn(m, p, len, t, back);
    ScanStep(out, rs, m, p, len, Turn([], Requested(t), p + |Front(t)|));
    assert out + [] == out;
    Further(m, p, len, Front(t), back);
    BackScanned(out, rs + Requested(t), m, p + |Front(t)|, len, Behind(t), rest);
  }

  /** The IAC of the end is read as TTYPE's payload, and the SE shown. */
  lemma BareScanned(out: seq<Byte>, rs: seq<Request>, m: seq<Byte>, p: nat, len: nat, t: Token, rest: seq<Byte>)
    requires ServerToken(t) && IsBare(t) && Ahead(m, p, len, Print(t) + rest)
    ensures ScanFrom(out, rs, m, p, len) == ScanFrom(out + Shown(t), rs + Requested(t), m, p + |Print(t)|, len)
  {
    assert Print(t) + rest == Front(t) + ([SE] + rest);
    FrontTurn(m, p, len, t, [SE] + rest);
    ScanStep(out, rs, m, p, len, Turn([], [], p + 4));
    assert out + [] == out && rs + [] == rs;
    Further(m, p, len, Front(t), [SE] + rest);
    Further(m, p + 4, len, [SE], rest);
    assert m[p + 4 + 0] == [SE][0];
    ScanStep(out, rs, m, p + 4, len, Turn([SE], [], p + 5));
  }

  lemma CrLfScanned(out: seq<Byte>, rs: seq<Request>, m: seq<Byte>, p: nat, len: nat, rest: seq<Byte>)
    requires Ahead(m, p, len, [CR, LF] + rest)
    ensures ScanFrom(out, rs, m, p, len) == ScanFrom(out + [CR, LF], rs, m, p + 2, len)
  {
    var s := [CR, LF];
    Further(m, p, len, s, rest);
    assert m[p + 0] == s[0] && m[p + 1] == s[1];
    ScanStep(out, rs, m, p, len, Turn([CR], [], p + 1));
    ScanStep(out + [CR], rs + [], m, p + 1, len, Turn([LF], [], p + 2));
    Assoc(out, [CR], [LF]);
    assert [CR] + [LF] == [CR, LF] && rs + [] == rs;
  }

  lemma TokenScanned(out: seq<Byte>, rs: seq<Request>, m: seq<Byte>, p: nat, len: nat, t: Token, rest: seq<Byte>)
    requires ServerToken(t) && Ahead(m, p, len, Print(t) + rest)
    ensures ScanFrom(out, rs, m, p, len) == ScanFrom(out + Shown(t), rs + Requested(t), m, p + |Print(t)|, len)
  {
    if IsBare(t) {
      BareScanned(out, rs, m, p, len, t, rest);
    } else if t.Sub? {
      SubScanned(out, rs, m, p, len, t, rest);
    } else if t.CrLf? {
      CrLfScanned(out, rs, m, p, len, rest);
      assert rs + [] == rs;
    } else {
      ShortTurn(m, p, len, t, rest);
      ScanStep(out, rs, m, p, len, Turn(Shown(t), Requested(t), p + |Print(t)|));
    }
  }

  lemma FirstJoins(out: seq<Byte>, rs: seq<Request>, ts: seq<Token>)
    requires ts != [] && FromServerTokens(ts)
    ensures out + Shown(ts[0]) + AllShown(ts[1..]) == out + AllShown(ts)
    ensures rs + Requested(ts[0]) + AllRequested(ts[1..]) == rs + AllRequested(ts)
  {
    Assoc(out, Shown(ts[0]), AllShown(ts[1..]));
    Assoc(rs, Requested(ts[0]), AllRequested(ts[1..]));
  }

  lemma FirstScanned(out: seq<Byte>, rs: seq<Request>, m: seq<Byte>, p: nat, len: nat, t: Token, more: seq<Byte>)
    returns (q: nat)
    requires ServerToken(t) && Ahead(m, p, len, Print(t) + more)
    ensures ScanFrom(out, rs, m, p, len) == ScanFrom(out + Shown(t), rs + Requested(t), m, q, len)
    ensures Ahead(m, q, len, more)
  {
    hide ScanFrom, Print, Shown, Requested;
    q := p + |Print(t)|;
    TokenScanned(out, rs, m, p, len, t, more);
    Further(m, p, len, Print(t), more);
  }

  lemma {:induction false} TokensScanned(out: seq<Byte>, rs: seq<Request>, m: seq<Byte>, p: nat, len: nat,
                                         ts: seq<Token>)
    requires FromServerTokens(ts) && Ahead(m, p, len, PrintAll(ts))
    ensures ScanFrom(out, rs, m, p, len) == (out + AllShown(ts), rs + AllRequested(ts))
    decreases |ts|
  {
    if ts == [] {
      assert out + [] == out && rs + [] == rs;
    } else {
      var q := FirstScanned(out, rs, m, p, len, ts[0], PrintAll(ts[1..]));
      FirstJoins(out, rs, ts);
      TokensScanned(out + Shown(ts[0]), rs + Requested(ts[0]), m, q, len, ts[1..]);
    }
  }

  /** A chunk of whole tokens puts on the console what each is to print, but nothing for a doubled IAC and the
      inside of subnegotiations besides; and exactly the requests in it are answered, in order. */
  lemma ChunkShown(ts: seq<Token>, m: seq<Byte>)
    requires FromServerTokens(ts) && Ahead(m, 0, |PrintAll(ts)|, PrintAll(ts))
    ensures ScanFrom([], [], m, 0, |PrintAll(ts)|) == (AllShown(ts), AllRequested(ts))
  {
    TokensScanned([], [], m, 0, |PrintAll(ts)|, ts);
    assert [] + AllShown(ts) == AllShown(ts) && [] + AllRequested(ts) == AllRequested(ts);
  }

  lemma {:induction false} NoIacShown(ts: seq<Token>)
    requires FromServerTokens(ts)
    ensures IAC !in AllShown(ts)
    ensures IAC in AllMeant(ts) <==> EscapedIac in ts
    ensures EscapedIac !in ts ==> |AllMeant(ts)| <= |AllShown(ts)|
  {
    if ts != [] {
      assert ts == [ts[0]] + ts[1..];
      NoIacShown(ts[1..]);
    }
  }

  /** The console shows exactly what the tokens are to print if and only if there is no doubled IAC and no
      subnegotiation of which something leaks. */
  lemma {:induction false} ShownIsMeant(ts: seq<Token>)
    requires FromServerTokens(ts)
    ensures AllShown(ts) == AllMeant(ts) <==> EscapedIac !in ts && AllLeaked(ts) == []
  {
    if ts != [] {
      var t, rest := ts[0], ts[1..];
      assert ts == [t] + rest;
      ShownIsMeant(rest);
      NoIacShown(ts);
      NoIacShown(rest);
      if EscapedIac !in ts {
        if Leaked(t) == [] {
          assert Shown(t) == Meant(t);
          assert AllShown(ts)[|Shown(t)|..] == AllShown(rest) && AllMeant(ts)[|Meant(t)|..] == AllMeant(rest);
        } else {
          assert |AllMeant(ts)| < |AllShown(ts)|;
        }
      }
    }
  }

  /** A doubled IAC is not shown, ... */
  lemma DoubledIacIsDropped(m: seq<Byte>)
    requires Ahead(m, 0, 2, [IAC, IAC])
    ensures AllMeant([EscapedIac]) == [IAC] && ScanFrom([], [], m, 0, 2) == ([], [])
  {
    var ts := [EscapedIac];
    assert ts[1..] == [] && PrintAll(ts) == Print(EscapedIac) + PrintAll([]) && [IAC, IAC] + [] == [IAC, IAC];
    ChunkShown(ts, m);
  }

  /** ... and the inside of a subnegotiation is. */
  lemma InsideIsShown(opt: Byte, b: Byte, m: seq<Byte>)
    requires TokenOk(Sub(opt, [b])) && opt != TELOPT_TTYPE && Ahead(m, 0, 6, [IAC, SB, opt, b, IAC, SE])
    ensures AllMeant([Sub(opt, [b])]) == [] && ScanFrom([], [], m, 0, 6) == ([b], [])
  {
    var t := Sub(opt, [b]);
    assert [t][1..] == [] && PrintAll([t]) == Print(t) + PrintAll([]);
    assert Print(t) == [IAC, SB, opt, b, IAC, SE];
    assert b in t.payload && Displayed([b]) == [b] + Displayed([b][1..]);
    assert Shown(t) == [b] && AllShown([t]) == Shown(t) + AllShown([]);
    assert AllRequested([t]) == Requested(t) + AllRequested([]);
    ChunkShown([t], m);
  }

  // ---- The bytes of the pty, doubled by telnetd ----

  /** IAC, or NUL directly behind CR, is among the bytes. */
  predicate LosesSome(bytes: seq<Byte>) {
    bytes != [] && (bytes[0] == IAC || (bytes[0] == CR && |bytes| > 1 && bytes[1] == NUL) || LosesSome(bytes[1..]))
  }

  lemma {:induction false} DisplayedExactly(bytes: seq<Byte>)
    ensures Displayed(bytes) == bytes <==> !LosesSome(bytes)
    ensures |Displayed(bytes)| == |bytes| <==> !LosesSome(bytes)
  {
    if bytes != [] {
      DisplayedExactly(bytes[1..]);
      if bytes[0] != IAC && !(bytes[0] == CR && |bytes| > 1 && bytes[1] == NUL) {
        assert Displayed(bytes)[1..] == Displayed(bytes[1..]);
      }
    }
  }

  lemma DoubledOne(b: Byte)
    ensures Doubled([b]) == Double(b)
  {
    assert Doubled([b]) == Doubled([b][..0]) + Double(b) && Doubled([b][..0]) == [];
  }

  lemma DoubledFirst(bytes: seq<Byte>)
    requires bytes != []
    ensures Doubled(bytes) == Double(bytes[0]) + Doubled(bytes[1..])
  {
    var first, rest := [bytes[0]], bytes[1..];
    DoubledConcat(first, rest);
    DoubledOne(bytes[0]);
    assert bytes == first + rest;
  }

  lemma FirstByte(m: seq<Byte>, p: nat, len: nat, b: Byte, rest: seq<Byte>)
    requires Ahead(m, p, len, Double(b) + rest)
    ensures Ahead(m, p + |Double(b)|, len, rest) && m[p] == b
    ensures b == IAC ==> Step(m, p) == Turn([], [], p + 2)
  {
    var s := Double(b);
    Further(m, p, len, s, rest);
    assert m[p + 0] == s[0];
    if b == IAC {
      assert m[p + 1] == s[1];
    }
  }

  lemma PtyTurn(m: seq<Byte>, p: nat, len: nat, bytes: seq<Byte>)
    requires bytes != [] && Ahead(m, p, len, Doubled(bytes))
    ensures Ahead(m, p + |Double(bytes[0])|, len, Doubled(bytes[1..])) && m[p] == bytes[0]
    ensures bytes[0] == IAC ==> Step(m, p) == Turn([], [], p + 2)
  {
    DoubledFirst(bytes);
    FirstByte(m, p, len, bytes[0], Doubled(bytes[1..]));
  }

  lemma PtyNul(m: seq<Byte>, p: nat, len: nat, bytes: seq<Byte>)
    requires |bytes| > 1 && bytes[1] == NUL && Ahead(m, p, len, Doubled(bytes[1..]))
    ensures Ahead(m, p + 1, len, Doubled(bytes[2..]))
  {
    DoubledFirst(bytes[1..]);
    assert bytes[1..][1..] == bytes[2..];
    Further(m, p, len, [NUL], Doubled(bytes[2..]));
  }

  lemma {:induction false} DoubledScanned(out: seq<Byte>, rs: seq<Request>, m: seq<Byte>, p: nat, len: nat,
                                          bytes: seq<Byte>)
    requires Ahead(m, p, len, Doubled(bytes))
    ensures ScanFrom(out, rs, m, p, len) == (out + Displayed(bytes), rs)
    decreases |bytes|
  {
    if bytes == [] {
      assert out + [] == out;
    } else {
      var u := Step(m, p);
      PtyTurn(m, p, len, bytes);
      if |bytes| > 1 && bytes[0] != IAC {
        PtyTurn(m, p + 1, len, bytes[1..]);
      }
      ScanStep(out, rs, m, p, len, u);
      assert rs + [] == rs;
      if u.next == p + 2 && bytes[0] == CR && |bytes| > 1 {
        PtyNul(m, p + 1, len, bytes);
        DoubledScanned(out + u.shown, rs, m, p + 2, len, bytes[2..]);
        Assoc(out, u.shown, Displayed(bytes[2..]));
      } else if u.next <= len {
        DoubledScanned(out + u.shown, rs, m, u.next, len, bytes[1..]);
        Assoc(out, u.shown, Displayed(bytes[1..]));
        assert [] + Displayed(bytes[1..]) == Displayed(bytes[1..]);
      } else {
        LastByte(bytes);
        assert u.shown == bytes;
      }
    }
  }

  lemma LastByte(bytes: seq<Byte>)
    requires |bytes| == 1 && bytes[0] != IAC
    ensures Displayed(bytes) == bytes
  {
    assert [bytes[0]] + Displayed(bytes[1..]) == bytes;
  }

  /** From telnetd's pty to the console, a chunk at a time: no bytes of the pty are taken for a request, and the
      console shows all of them exactly if there is no IAC and no NUL directly behind a CR among them. */
  lemma PtyShown(bytes: seq<Byte>, m: seq<Byte>)
    requires Ahead(m, 0, |Doubled(bytes)|, Doubled(bytes))
    ensures ScanFrom([], [], m, 0, |Doubled(bytes)|) == (Displayed(bytes), [])
    ensures Displayed(bytes) == bytes <==> !LosesSome(bytes)
  {
    DoubledScanned([], [], m, 0, |Doubled(bytes)|, bytes);
    assert [] + Displayed(bytes) == Displayed(bytes);
    DisplayedExactly(bytes);
  }
}

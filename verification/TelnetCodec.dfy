/** What a telnet server makes of a client's bytes (RFC 854, "TELNET Command Structure" and "The NVT Printer and
    Keyboard"; RFC 1073 for window sizes), as telnetd decodes one chunk, and the client's encoding of keys. */
module TelnetCodec {
  import opened Bytes

  const IAC: Byte := 255
  const DONT: Byte := 254
  const DO: Byte := 253
  const WONT: Byte := 252
  const WILL: Byte := 251
  const SB: Byte := 250
  const NOP: Byte := 241
  const SE: Byte := 240
  const TELOPT_ECHO: Byte := 1
  const TELOPT_SGA: Byte := 3
  const TELOPT_TTYPE: Byte := 24
  const TELOPT_NAWS: Byte := 31

  /** ws_col and ws_row. */
  datatype Size = Size(col: Word16, row: Word16)

  // ---- Decoding one chunk ----

  /** The bytes for the pty, the window sizes set on it, and the count of bytes left unprocessed at the end. */
  datatype Decoded = Decoded(out: seq<Byte>, sizes: seq<Size>, rem: nat)

  /** One turn of the decoder's loop: consume n bytes (possibly past the end), or stop. */
  datatype Turn = Go(n: nat, out: seq<Byte>, sizes: seq<Size>) | Stop(rem: nat)

  predicate LineEnd(b: Byte) {
    b == LF || b == NUL
  }

  /** The index of the first IAC in t from k on, or |t|. */
  function NextIac(t: seq<Byte>, k: nat): (r: nat)
    requires k <= |t|
    ensures k <= r <= |t| && (r < |t| ==> t[r] == IAC)
    decreases |t| - k
  {
    if k == |t| || t[k] == IAC then k else NextIac(t, k + 1)
  }

  /** The turn at the start of the remaining bytes t; `past` is the byte in memory after them, which the
      code looks at when a subnegotiation reaches the end.  After CR the next byte is always skipped. */
  function Next(t: seq<Byte>, past: Byte): Turn
    requires t != []
  {
    if t[0] != IAC then
      if t[0] != CR then Go(1, [t[0]], [])
      else if |t| > 3 && LineEnd(t[2]) then Go(3, [CR], [])
      else Go(2, [CR], [])
    else if |t| == 1 then Stop(1)
    else if t[1] == IAC then Go(2, [IAC], [])
    else if t[1] == NOP || t[1] == SE then Go(2, [], [])
    else if t[1] == SB then
      if (if |t| > 2 then t[2] else past) == TELOPT_NAWS then
        if |t| <= 9 then Stop(|t| - 1)
        else Go(9, [], [Size(Word16(t[3], t[4]), Word16(t[5], t[6]))])
      else if NextIac(t, 1) < |t| then Go(NextIac(t, 1), [], [])
      else if past == IAC then Stop(0)
      else Stop(|t|)
    else Go(3, [], [])
  }

  function Drop(t: seq<Byte>, n: nat): seq<Byte> {
    if n < |t| then t[n..] else []
  }

  /** The rest of a chunk, after `out` and `sizes` have been decoded. */
  function DecodeFrom(out: seq<Byte>, sizes: seq<Size>, t: seq<Byte>, past: Byte): Decoded
    decreases |t|
  {
    if t == [] then Decoded(out, sizes, 0)
    else match Next(t, past)
      case Stop(rem) => Decoded(out, sizes, rem)
      case Go(n, o, z) => DecodeFrom(out + o, sizes + z, Drop(t, n), past)
  }

  lemma DecodeTurn(out: seq<Byte>, sizes: seq<Size>, t: seq<Byte>, past: Byte, turn: Turn)
    requires t != [] && turn == Next(t, past)
    ensures DecodeFrom(out, sizes, t, past) ==
            if turn.Stop? then Decoded(out, sizes, turn.rem)
            else DecodeFrom(out + turn.out, sizes + turn.sizes, Drop(t, turn.n), past)
  {
  }

  function Decode(chunk: seq<Byte>, past: Byte): Decoded {
    DecodeFrom([], [], chunk, past)
  }

  /** On arbitrary bytes, what is decoded and what is left over fit the chunk. */
  lemma {:induction false} DecodedFits(out: seq<Byte>, sizes: seq<Size>, t: seq<Byte>, past: Byte)
    ensures var d := DecodeFrom(out, sizes, t, past); |d.out| + d.rem <= |out| + |t|
    decreases |t|
  {
    if t != [] && Next(t, past).Go? {
      var turn := Next(t, past);
      DecodedFits(out + turn.out, sizes + turn.sizes, Drop(t, turn.n), past);
    }
  }

  // ---- The telnet printer ----

  datatype Token =
    | Data(b: Byte)
    | EscapedIac
    | CrLf
    | CrNul
    | Nop
    | EndSub
    | Command(verb: Byte, opt: Byte)
    | Naws(size: Size)
    | Sub(opt: Byte, payload: seq<Byte>)

  predicate TokenOk(t: Token) {
    match t
    case Data(b) => b != IAC && b != CR
    case Command(verb, _) => verb in {DO, DONT, WILL, WONT}
    case Sub(opt, payload) => opt != IAC && opt != TELOPT_NAWS && IAC !in payload
    case _ => true
  }

  function Print(t: Token): (r: seq<Byte>)
    ensures r != []
  {
    match t
    case Data(b) => [b]
    case EscapedIac => [IAC, IAC]
    case CrLf => [CR, LF]
    case CrNul => [CR, NUL]
    case Nop => [IAC, NOP]
    case EndSub => [IAC, SE]
    case Command(verb, opt) => [IAC, verb, opt]
    case Naws(Size(col, row)) => [IAC, SB, TELOPT_NAWS, col.high, col.low, row.high, row.low, IAC, SE]
    case Sub(opt, payload) => [IAC, SB, opt] + payload + [IAC, SE]
  }

  function PrintAll(ts: seq<Token>): seq<Byte> {
    if ts == [] then [] else Print(ts[0]) + PrintAll(ts[1..])
  }

  /** The data a token stands for. */
  function DataOf(t: Token): seq<Byte> {
    match t
    case Data(b) => [b]
    case EscapedIac => [IAC]
    case CrLf => [CR]
    case CrNul => [CR]
    case _ => []
  }

  function AllData(ts: seq<Token>): seq<Byte> {
    if ts == [] then [] else DataOf(ts[0]) + AllData(ts[1..])
  }

  /** The second token is an LF or NUL directly after a CR pair, and not the last token: the decoder's second
      test after CR swallows it. */
  predicate Swallows(ts: seq<Token>) {
    |ts| > 2 && (ts[0] == CrLf || ts[0] == CrNul) && ts[1].Data? && LineEnd(ts[1].b)
  }

  function Kept(ts: seq<Token>): seq<Byte>
    decreases |ts|
  {
    if ts == [] then []
    else DataOf(ts[0]) + Kept(ts[if Swallows(ts) then 2 else 1..])
  }

  function SizeOf(t: Token): seq<Size> {
    if t.Naws? then [t.size] else []
  }

  /** The window sizes of all NAWS tokens but one at the very end, which the decoder leaves unprocessed. */
  function KeptSizes(ts: seq<Token>): seq<Size> {
    if ts == [] || (|ts| == 1 && ts[0].Naws?) then []
    else SizeOf(ts[0]) + KeptSizes(ts[1..])
  }

  function Remainder(ts: seq<Token>): nat {
    if ts != [] && ts[|ts| - 1].Naws? then 8 else 0
  }

  // ---- The decoder inverts the printer ----

  lemma DropPrefix(a: seq<Byte>, b: seq<Byte>)
    ensures Drop(a + b, |a|) == b
  {
  }

  /** Every token but a CR pair, a final NAWS and a subnegotiation is consumed in one turn. */
  lemma SimpleTurn(t: Token, rest: seq<Byte>, past: Byte)
    requires TokenOk(t) && !t.CrLf? && !t.CrNul? && !t.Sub? && (t.Naws? ==> rest != [])
    ensures Next(Print(t) + rest, past) == Go(|Print(t)|, DataOf(t), SizeOf(t))
  {
    var s := Print(t) + rest;
    assert s[0] == Print(t)[0];
    if !t.Data? {
      assert s[1] == Print(t)[1];
    }
    if t.Naws? {
      assert forall k :: 0 <= k < 9 ==> s[k] == Print(t)[k];
    }
  }

  lemma {:induction false} NextIacIs(t: seq<Byte>, k: nat, r: nat)
    requires k <= r < |t| && t[r] == IAC && IAC !in t[k..r]
    ensures NextIac(t, k) == r
    decreases r - k
  {
    if k < r {
      assert t[k] == t[k..r][0];
      NextIacIs(t, k + 1, r);
    }
  }

  /** A subnegotiation takes two turns: up to its closing IAC SE, and past that. */
  lemma SubTurns(t: Token, rest: seq<Byte>, past: Byte)
    requires TokenOk(t) && t.Sub?
    ensures var n := 3 + |t.payload|;
      Next(Print(t) + rest, past) == Go(n, [], []) && Drop(Print(t) + rest, n) == Print(EndSub) + rest
  {
    var s := Print(t) + rest;
    var n := 3 + |t.payload|;
    var head := [IAC, SB, t.opt] + t.payload;
    assert s == head + ([IAC, SE] + rest);
    assert s[0] == IAC && s[1] == SB && s[2] == t.opt && s[n] == IAC;
    assert s[1..n] == [SB, t.opt] + t.payload;
    NextIacIs(s, 1, n);
    DropPrefix(head, [IAC, SE] + rest);
  }

  lemma CrTurn(t: Token, rest: seq<Byte>, past: Byte)
    requires t.CrLf? || t.CrNul?
    ensures var swallow := |rest| > 1 && LineEnd(rest[0]);
      Next(Print(t) + rest, past) == Go(if swallow then 3 else 2, [CR], [])
    ensures Drop(Print(t) + rest, 2) == rest
    ensures rest != [] ==> Drop(Print(t) + rest, 3) == rest[1..]
  {
    var s := Print(t) + rest;
    assert s[0] == CR;
    if rest != [] {
      assert s[2] == rest[0];
      assert s[3..] == rest[1..];
    }
  }

  /** How the decoder continues after a token followed by at least one more. */
  lemma DecodeToken(out: seq<Byte>, sizes: seq<Size>, t: Token, rest: seq<Byte>, past: Byte)
    requires TokenOk(t) && (t.Naws? ==> rest != [])
    ensures var swallow := (t.CrLf? || t.CrNul?) && |rest| > 1 && LineEnd(rest[0]);
      DecodeFrom(out, sizes, Print(t) + rest, past) ==
      DecodeFrom(out + DataOf(t), sizes + SizeOf(t), if swallow then rest[1..] else rest, past)
  {
    var s := Print(t) + rest;
    if t.CrLf? || t.CrNul? {
      CrTurn(t, rest, past);
    } else if t.Sub? {
      SubTurns(t, rest, past);
      var mid := Print(EndSub) + rest;
      assert DecodeFrom(out, sizes, s, past) == DecodeFrom(out + [], sizes + [], mid, past);
      SimpleTurn(EndSub, rest, past);
      DropPrefix(Print(EndSub), rest);
      assert out + [] == out && sizes + [] == sizes;
    } else {
      SimpleTurn(t, rest, past);
      DropPrefix(Print(t), rest);
    }
  }

  /** The first byte of what follows tells whether it is a line-end data byte. */
  lemma SwallowsIs(ts: seq<Token>)
    requires ts != [] && forall t :: t in ts ==> TokenOk(t)
    ensures var rest := PrintAll(ts[1..]);
      Swallows(ts) <==> (ts[0].CrLf? || ts[0].CrNul?) && |rest| > 1 && LineEnd(rest[0])
    ensures Swallows(ts) ==> PrintAll(ts[1..])[1..] == PrintAll(ts[2..])
  {
    if |ts| > 1 {
      var rest := PrintAll(ts[1..]);
      assert ts[1] in ts && ts[1..][1..] == ts[2..];
      assert rest == Print(ts[1]) + PrintAll(ts[2..]);
      assert rest[0] == Print(ts[1])[0];
      if |ts| > 2 {
        assert PrintAll(ts[2..]) == Print(ts[2]) + PrintAll(ts[2..][1..]);
      }
    }
  }

  /** A chunk of whole tokens decodes to its data in order, less the line ends that are swallowed, and to its
      window sizes in order, less one at the very end. */
  lemma {:induction false} DecodePrinted(out: seq<Byte>, sizes: seq<Size>, ts: seq<Token>, past: Byte)
    requires forall t :: t in ts ==> TokenOk(t)
    ensures DecodeFrom(out, sizes, PrintAll(ts), past) == Decoded(out + Kept(ts), sizes + KeptSizes(ts), Remainder(ts))
    decreases |ts|
  {
    if ts == [] {
    } else if |ts| == 1 && ts[0].Naws? {
      assert PrintAll(ts) == Print(ts[0]) + [];
      assert Next(PrintAll(ts), past) == Stop(8);
    } else {
      var t, rest := ts[0], ts[1..];
      assert t in ts;
      DecodeToken(out, sizes, t, PrintAll(rest), past);
      SwallowsIs(ts);
      var next := if Swallows(ts) then ts[2..] else rest;
      DecodePrinted(out + DataOf(t), sizes + SizeOf(t), next, past);
      Assoc(out, DataOf(t), Kept(next));
      assert KeptSizes(next) == KeptSizes(rest) by {
        if Swallows(ts) {
          assert rest[1..] == next && KeptSizes(rest) == [] + KeptSizes(next);
        }
      }
      Assoc(sizes, SizeOf(t), KeptSizes(next));
    }
  }

  /** Nothing in ts is swallowed. */
  predicate NothingSwallowed(ts: seq<Token>) {
    ts == [] || (!Swallows(ts) && NothingSwallowed(ts[1..]))
  }

  lemma {:induction false} KeptIsShorter(ts: seq<Token>)
    ensures |Kept(ts)| <= |AllData(ts)|
    ensures Kept(ts) == AllData(ts) <==> NothingSwallowed(ts)
    decreases |ts|
  {
    if ts == [] {
    } else if Swallows(ts) {
      KeptIsShorter(ts[2..]);
      assert ts[1..][1..] == ts[2..];
      assert AllData(ts[1..]) == [ts[1].b] + AllData(ts[2..]);
    } else {
      KeptIsShorter(ts[1..]);
      assert Kept(ts) == DataOf(ts[0]) + Kept(ts[1..]);
      assert Kept(ts)[|DataOf(ts[0])|..] == Kept(ts[1..]) && AllData(ts)[|DataOf(ts[0])|..] == AllData(ts[1..]);
    }
  }

  function AllSizes(ts: seq<Token>): seq<Size> {
    if ts == [] then [] else SizeOf(ts[0]) + AllSizes(ts[1..])
  }

  lemma {:induction false} KeptSizesIsPrefix(ts: seq<Token>)
    ensures AllSizes(ts) == KeptSizes(ts) + if ts != [] && ts[|ts| - 1].Naws? then [ts[|ts| - 1].size] else []
  {
    if ts == [] {
    } else if |ts| == 1 {
      assert AllSizes(ts) == SizeOf(ts[0]) + [] && KeptSizes(ts[1..]) == [];
    } else {
      KeptSizesIsPrefix(ts[1..]);
      var last := if ts[|ts| - 1].Naws? then [ts[|ts| - 1].size] else [];
      Assoc(SizeOf(ts[0]), KeptSizes(ts[1..]), last);
    }
  }

  /** The server recovers all data of a chunk of whole tokens exactly when no line end follows a CR pair other
      than as the last byte, and sets all its window sizes exactly when the last token is not a NAWS. */
  lemma ServerRecoversChunk(ts: seq<Token>, past: Byte)
    requires forall t :: t in ts ==> TokenOk(t)
    ensures Decode(PrintAll(ts), past).out == AllData(ts) <==> NothingSwallowed(ts)
    ensures Decode(PrintAll(ts), past).sizes == AllSizes(ts) <==> ts == [] || !ts[|ts| - 1].Naws?
  {
    DecodePrinted([], [], ts, past);
    KeptIsShorter(ts);
    KeptSizesIsPrefix(ts);
  }

  /** An LF typed behind CR LF is lost unless it ends the chunk, ... */
  lemma LineFeedIsLost(b: Byte, past: Byte)
    requires TokenOk(Data(b))
    ensures var ts := [CrLf, Data(LF), Data(b)];
      AllData(ts) == [CR, LF, b] && Decode(PrintAll(ts), past).out == [CR, b]
  {
    var ts := [CrLf, Data(LF), Data(b)];
    DecodePrinted([], [], ts, past);
    assert ts[2..] == [Data(b)] && ts[1..][1..] == ts[2..] && ts[2..][1..] == [];
    assert Kept(ts) == [CR] + Kept(ts[2..]) && Kept(ts[2..]) == [b] + Kept([]);
    assert AllData(ts) == [CR] + AllData(ts[1..]) && AllData(ts[1..]) == [LF] + AllData(ts[2..]);
    assert AllData(ts[2..]) == [b] + AllData([]);
  }

  /** ... and a window size that ends it. */
  lemma LastSizeIsLost(size: Size, past: Byte)
    ensures AllSizes([Naws(size)]) == [size] && Decode(PrintAll([Naws(size)]), past).sizes == []
  {
    DecodePrinted([], [], [Naws(size)], past);
    assert [Naws(size)][1..] == [];
  }

  // ---- The client's encoding of keys ----

  /** IAC is sent as IAC IAC and CR as CR NUL. */
  function EncodeKey(b: Byte): seq<Byte> {
    if b == IAC then [IAC, IAC] else if b == CR then [CR, NUL] else [b]
  }

  function EncodeKeys(keys: seq<Byte>): (r: seq<Byte>)
    ensures |keys| <= |r| <= 2 * |keys|
  {
    if keys == [] then [] else EncodeKeys(keys[..|keys| - 1]) + EncodeKey(keys[|keys| - 1])
  }

  function KeyToken(b: Byte): (t: Token)
    ensures TokenOk(t) && Print(t) == EncodeKey(b) && DataOf(t) == [b] && SizeOf(t) == []
  {
    if b == IAC then EscapedIac else if b == CR then CrNul else Data(b)
  }

  function KeyTokens(keys: seq<Byte>): (ts: seq<Token>)
    ensures |ts| == |keys| && forall k :: 0 <= k < |keys| ==> ts[k] == KeyToken(keys[k])
  {
    seq(|keys|, k requires 0 <= k < |keys| => KeyToken(keys[k]))
  }

  lemma {:induction false} PrintAllSnoc(ts: seq<Token>, t: Token)
    ensures PrintAll(ts + [t]) == PrintAll(ts) + Print(t)
  {
    if ts == [] {
      assert PrintAll([t]) == Print(t) + PrintAll([t][1..]);
      assert [] + [t] == [t] && Print(t) + [] == Print(t);
    } else {
      assert (ts + [t])[1..] == ts[1..] + [t];
      PrintAllSnoc(ts[1..], t);
      Assoc(Print(ts[0]), PrintAll(ts[1..]), Print(t));
    }
  }

  lemma NothingPrinted()
    ensures PrintAll([]) == []
  {
  }

  lemma KeyIsPrinted(b: Byte)
    ensures Print(KeyToken(b)) == EncodeKey(b)
  {
  }

  lemma {:induction false} KeysArePrinted(keys: seq<Byte>)
    ensures PrintAll(KeyTokens(keys)) == EncodeKeys(keys)
  {
    hide Print, PrintAll, EncodeKey;
    if keys == [] {
      NothingPrinted();
    } else {
      var init, b := keys[..|keys| - 1], keys[|keys| - 1];
      KeyIsPrinted(b);
      KeysArePrinted(init);
      var ts, front := KeyTokens(keys), KeyTokens(init);
      assert forall k :: 0 <= k < |init| ==> ts[k] == front[k];
      assert ts == front + [KeyToken(b)];
      PrintAllSnoc(KeyTokens(init), KeyToken(b));
    }
  }

  /** The keys without each LF or NUL that directly follows a CR, unless it is the last key. */
  function WithoutLineEnds(keys: seq<Byte>): seq<Byte>
    decreases |keys|
  {
    if keys == [] then []
    else if keys[0] == CR && |keys| > 2 && LineEnd(keys[1]) then [CR] + WithoutLineEnds(keys[2..])
    else [keys[0]] + WithoutLineEnds(keys[1..])
  }

  lemma {:induction false} KeptKeys(keys: seq<Byte>)
    ensures Kept(KeyTokens(keys)) == WithoutLineEnds(keys) && KeptSizes(KeyTokens(keys)) == []
    decreases |keys|
  {
    if keys != [] {
      var ts := KeyTokens(keys);
      assert ts[1..] == KeyTokens(keys[1..]);
      KeptKeys(keys[1..]);
      assert KeptSizes(ts) == [] + KeptSizes(ts[1..]);
      if keys[0] == CR && |keys| > 2 && LineEnd(keys[1]) {
        assert ts[2..] == KeyTokens(keys[2..]);
        KeptKeys(keys[2..]);
      }
    }
  }

  /** Keys sent by the client and decoded by the server as one chunk arrive unchanged, but for an LF or NUL
      directly after a CR, which is lost unless it is the last key. */
  lemma KeysRoundTrip(keys: seq<Byte>, past: Byte)
    ensures Decode(EncodeKeys(keys), past) == Decoded(WithoutLineEnds(keys), [], 0)
  {
    var ts := KeyTokens(keys);
    assert forall t :: t in ts ==> TokenOk(t) && !t.Naws?;
    DecodePrinted([], [], ts, past);
    KeysArePrinted(keys);
    KeptKeys(keys);
  }
}

/** What rlogin's client and server say to each other: keys, window-size frames (RFC 1282, "Window Size") and
    the start-up message. */
module RloginWire {
  import opened Bytes

  const FRAME: nat := 12
  const MAGIC: Byte := 0xFF
  const S: Byte := 's' as int

  /** A struct winsize. */
  datatype Winsize = Winsize(row: Word16, col: Word16, xpixel: Word16, ypixel: Word16)

  /** The bytes of a value in network order, and the value of such bytes. */
  function Htons(w: Word16): seq<Byte> {
    [w.high, w.low]
  }

  function Ntohs(first: Byte, second: Byte): Word16 {
    Word16(first, second)
  }

  /** The client's message for a window size. */
  function FrameBytes(w: Winsize): (r: seq<Byte>)
    ensures |r| == FRAME && FrameSize(r) == w
    ensures r[0] == MAGIC && r[1] == MAGIC && r[2] == S && r[3] == S
  {
    seq(FRAME, k requires 0 <= k < FRAME => FrameByte(w, k))
  }

  /** Two bytes 0xFF, two bytes 's', and the four fields in network order. */
  function FrameByte(w: Winsize, k: nat): Byte
    requires k < FRAME
  {
    if k < 2 then MAGIC
    else if k < 4 then S
    else
      var field := if k < 6 then w.row else if k < 8 then w.col else if k < 10 then w.xpixel else w.ypixel;
      Htons(field)[k % 2]
  }

  /** The window size in a message, after its four marker bytes. */
  function FrameSize(s: seq<Byte>): Winsize
    requires |s| >= FRAME
  {
    Winsize(Ntohs(s[4], s[5]), Ntohs(s[6], s[7]), Ntohs(s[8], s[9]), Ntohs(s[10], s[11]))
  }

  /** Row, column and the two pixel sizes follow the marker, high bytes first (RFC 1282, "Window Size"). */
  lemma FrameLayout(w: Winsize)
    ensures FrameBytes(w) == [0xFF, 0xFF, 's' as int, 's' as int,
                              w.row.high, w.row.low, w.col.high, w.col.low,
                              w.xpixel.high, w.xpixel.low, w.ypixel.high, w.ypixel.low]
  {
    hide FrameByte;
    ByteAt(w, 4, w.row);
    ByteAt(w, 6, w.col);
    ByteAt(w, 8, w.xpixel);
    ByteAt(w, 10, w.ypixel);
  }

  lemma ByteAt(w: Winsize, k: nat, field: Word16)
    requires k in {4, 6, 8, 10} && field == [w.row, w.col, w.xpixel, w.ypixel][k / 2 - 2]
    ensures FrameByte(w, k) == field.high && FrameByte(w, k + 1) == field.low
  {
  }

  /** The client's stream, as the client means it. */
  datatype Token = Key(b: Byte) | Frame(w: Winsize)

  function TokenBytes(t: Token): seq<Byte> {
    match t
    case Key(b) => [b]
    case Frame(w) => FrameBytes(w)
  }

  function Encode(ts: seq<Token>): seq<Byte> {
    if ts == [] then [] else TokenBytes(ts[0]) + Encode(ts[1..])
  }

  function KeyOf(t: Token): seq<Byte> {
    if t.Key? then [t.b] else []
  }

  function Keys(ts: seq<Token>): seq<Byte> {
    if ts == [] then [] else KeyOf(ts[0]) + Keys(ts[1..])
  }

  function SizeOf(t: Token): seq<Winsize> {
    if t.Frame? then [t.w] else []
  }

  function Sizes(ts: seq<Token>): seq<Winsize> {
    if ts == [] then [] else SizeOf(ts[0]) + Sizes(ts[1..])
  }

  lemma TokensOfCons(t: Token, ts: seq<Token>)
    ensures Encode([t] + ts) == TokenBytes(t) + Encode(ts)
    ensures Keys([t] + ts) == KeyOf(t) + Keys(ts)
    ensures Sizes([t] + ts) == SizeOf(t) + Sizes(ts)
  {
    assert ([t] + ts)[1..] == ts;
  }

  /** Bytes as keys. */
  function KeyTokens(bytes: seq<Byte>): (ts: seq<Token>)
    ensures |ts| == |bytes|
  {
    if bytes == [] then [] else [Key(bytes[0])] + KeyTokens(bytes[1..])
  }

  lemma {:induction false} KeyTokensMean(bytes: seq<Byte>)
    ensures Encode(KeyTokens(bytes)) == bytes && Keys(KeyTokens(bytes)) == bytes && Sizes(KeyTokens(bytes)) == []
  {
    if bytes != [] {
      KeyTokensMean(bytes[1..]);
      TokensOfCons(Key(bytes[0]), KeyTokens(bytes[1..]));
    }
  }

  lemma {:induction false} EncodeConcat(xs: seq<Token>, ys: seq<Token>)
    ensures Encode(xs + ys) == Encode(xs) + Encode(ys)
  {
    if xs == [] {
      assert xs + ys == ys;
    } else {
      assert (xs + ys)[1..] == xs[1..] + ys;
      EncodeConcat(xs[1..], ys);
    }
  }

  lemma {:induction false} KeysConcat(xs: seq<Token>, ys: seq<Token>)
    ensures Keys(xs + ys) == Keys(xs) + Keys(ys)
  {
    if xs == [] {
      assert xs + ys == ys;
    } else {
      assert (xs + ys)[1..] == xs[1..] + ys;
      KeysConcat(xs[1..], ys);
    }
  }

  lemma {:induction false} SizesConcat(xs: seq<Token>, ys: seq<Token>)
    ensures Sizes(xs + ys) == Sizes(xs) + Sizes(ys)
  {
    if xs == [] {
      assert xs + ys == ys;
    } else {
      assert (xs + ys)[1..] == xs[1..] + ys;
      SizesConcat(xs[1..], ys);
    }
  }
}

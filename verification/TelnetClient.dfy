/** The telnet client: its reply buffer, and the passage of bytes from the server to the console and from the keyboard
    to the server. */
module TelnetClient {
  import opened Bytes
  import opened TelnetCodec
  import opened TelnetConsole
  import opened TelnetNegotiation
  import opened TelnetReplies

  const DATABUFSIZE := 128
  const IACBUFSIZE := 256
  const ESCAPE: Byte := 0x1d

  class Client {
    const win: Size
    const ttype: seq<Byte>             // TERM, cut to IACBUFSIZE - 1 bytes
    const buff: array<Byte>            // DATABUFSIZE bytes, and the three behind them that may be looked at
    const iac: array<Byte>
    const takes: nat -> nat            // how many bytes the kernel takes of the n-th flush, none if write() fails
    var pbuff: nat
    var piac: nat
    var echo: bool
    var sga: bool
    var mode: Mode

    ghost var replies: seq<seq<Byte>>  // the bytes of each call that put some into iac,
    ghost var flushed: seq<seq<seq<Byte>>>  // those that went out with each flush,
    ghost var held: seq<seq<Byte>>     // and those still held
    ghost var blocks: seq<seq<Byte>>   // what each flush passed to write()

    /** The replies are those flushed followed by those held; a block is the bytes of whole replies, and iac holds
        the bytes of those held. */
    ghost predicate Valid()
      reads `piac, `replies, `flushed, `held, `blocks, iac
    {
      && buff.Length == DATABUFSIZE + 3 && iac.Length == IACBUFSIZE && buff != iac
      && |ttype| < IACBUFSIZE
      && piac <= IACBUFSIZE
      && replies == Flatten(flushed) + held
      && blocks == Written(flushed)
      && iac[..piac] == Flatten(held)
    }

    ghost function Dialog(): Dialogue
      reads `echo, `sga, `mode, `replies
    {
      Dialogue(echo, sga, mode, replies)
    }

    /** What the server got of each flush. */
    ghost function Got(): seq<seq<Byte>>
      reads `blocks
    {
      Cut(blocks, takes)
    }

    constructor (win: Size, term: seq<Byte>, takes: nat -> nat)
      ensures Valid() && fresh(buff) && fresh(iac) && Dialog() == START && blocks == [] && this.takes == takes
      ensures ttype == if |term| < IACBUFSIZE then term else term[..IACBUFSIZE - 1]
    {
      this.win, ttype := win, if |term| < IACBUFSIZE then term else term[..IACBUFSIZE - 1];
      buff := new Byte[DATABUFSIZE + 3](_ => 0);
      iac := new Byte[IACBUFSIZE](_ => 0);
      this.takes := takes;
      pbuff, piac, echo, sga, mode := 0, 0, false, false, Try;
      replies, flushed, held, blocks := [], [], [], [];
    }

    method FlushIac()
      requires Valid()
      modifies `piac, `flushed, `held, `blocks
      ensures Valid() && piac == 0 && blocks == old(blocks) + [old(iac[..piac])]
      ensures Got() == old(Got()) + [Take(old(iac[..piac]), takes(|old(blocks)|))]
    {
      WrittenSnoc(flushed, held);
      FlattenSnoc(flushed, held);
      blocks, flushed := blocks + [iac[..piac]], flushed + [held];
      piac, held := 0, [];
      assert Flatten(flushed) + [] == Flatten(flushed);
    }

    /** A reply is put as a whole behind those held, which are flushed first if it does not fit. */
    method PutIac(bytes: seq<Byte>)
      requires Valid() && |bytes| < IACBUFSIZE
      modifies `piac, `replies, `flushed, `held, `blocks, iac
      ensures Valid() && replies == old(replies) + [bytes]
      ensures piac == (if old(piac) + |bytes| >= IACBUFSIZE then 0 else old(piac)) + |bytes|
      ensures blocks == old(blocks) + if old(piac) + |bytes| >= IACBUFSIZE then [old(iac[..piac])] else []
    {
      if piac + |bytes| >= IACBUFSIZE {
        FlushIac();
      }
      Append(bytes);
    }

    /** A string is put with its NUL. */
    method StrIac(str: seq<Byte>)
      requires Valid() && |str| < IACBUFSIZE
      modifies `piac, `replies, `flushed, `held, `blocks, iac
      ensures Valid() && replies == old(replies) + [str + [NUL]]
      ensures piac == (if old(piac) + |str| + 1 >= IACBUFSIZE then 0 else old(piac)) + |str| + 1
      ensures blocks == old(blocks) + if old(piac) + |str| + 1 >= IACBUFSIZE then [old(iac[..piac])] else []
    {
      if piac + |str| + 1 >= IACBUFSIZE {
        FlushIac();
      }
      Append(str + [NUL]);
    }

    method Append(bytes: seq<Byte>)
      requires Valid() && piac + |bytes| <= IACBUFSIZE
      modifies `piac, `replies, `held, iac
      ensures Valid() && replies == old(replies) + [bytes] && piac == old(piac) + |bytes|
    {
      ghost var before := iac[..piac];
      forall k | 0 <= k < |bytes| {
        iac[piac + k] := bytes[k];
      }
      piac := piac + |bytes|;
      assert iac[..piac] == before + bytes;
      FlattenSnoc(held, bytes);
      Assoc(Flatten(flushed), held, [bytes]);
      replies, held := replies + [bytes], held + [bytes];
    }

    /** What was passed to write(), and what iac holds, are together all replies in order; what the server has got
        and what iac holds are so exactly if the kernel took each flush whole. */
    lemma NoReplyIsLost()
      requires Valid()
      ensures Flatten(blocks) + iac[..piac] == Flatten(replies)
      ensures Flatten(Got()) + iac[..piac] == Flatten(replies) <==> AllTaken()
    {
      FlattenWritten(flushed);
      FlattenConcat(Flatten(flushed), held);
      assert forall n :: 0 <= n < |blocks| ==> Got()[n] == Take(blocks[n], takes(n));
      PrefixesFlatten(Got(), blocks);
      if Flatten(Got()) + iac[..piac] == Flatten(replies) {
        assert |Flatten(Got())| == |Flatten(blocks)|;
      }
      assert Got() == blocks ==> forall n :: 0 <= n < |blocks| ==> Got()[n] == blocks[n];
    }

    ghost predicate AllTaken()
      reads `blocks
    {
      forall n :: 0 <= n < |blocks| ==> |blocks[n]| <= takes(n)
    }

    method SetMode()
      modifies `mode
      ensures mode == NewMode(echo, old(mode))
    {
      if echo {
        if mode == Try {
          mode := On;
        }
      } else {
        if mode != Off {
          mode := Off;
        }
      }
    }

    /** Answers DO, DONT, WILL or WONT of the option that follows in buff. */
    method HandleDdww(ddww: Byte)
      requires Valid() && pbuff < buff.Length
      modifies `pbuff, `echo, `sga, `mode, `piac, `replies, `flushed, `held, `blocks, iac
      ensures Valid() && pbuff == old(pbuff) + 1
      ensures Dialog() == Answer(old(Dialog()), Ask(ddww, old(buff[pbuff])), Terminal(win, ttype))
    {
      var opt := buff[pbuff];
      pbuff := pbuff + 1;
      if opt == TELOPT_ECHO {
        HandleEcho(ddww);
      } else if opt == TELOPT_SGA {
        HandleSga(ddww);
      } else if opt == TELOPT_TTYPE {
        PutIac([IAC, WILL, TELOPT_TTYPE]);
      } else if opt == TELOPT_NAWS {
        PutIac([IAC, WILL, TELOPT_NAWS]);
        PutIac([IAC, SB, TELOPT_NAWS, win.col.high, win.col.low, win.row.high, win.row.low, IAC, SE]);
        assert replies == old(replies) + [Reply(WILL, opt), SizeReply(win)];
      } else {
        if ddww == WILL {
          PutIac([IAC, DONT, opt]);
        }
        if ddww == DO {
          PutIac([IAC, WONT, opt]);
        }
      }
    }

    method HandleEcho(ddww: Byte)
      requires Valid()
      modifies `echo, `mode, `piac, `replies, `flushed, `held, `blocks, iac
      ensures Valid() && Dialog() == AnswerEcho(old(Dialog()), ddww)
    {
      hide Valid;
      if ddww == DO {
        PutIac([IAC, WONT, TELOPT_ECHO]);
      }
      if ddww == DONT {
        return;
      }
      if echo {
        if ddww == WILL {
          return;
        }
      } else if ddww == WONT {
        return;
      }
      if mode != Off {
        echo := !echo;
      }
      if echo {
        PutIac([IAC, DO, TELOPT_ECHO]);
      } else {
        PutIac([IAC, DONT, TELOPT_ECHO]);
      }
      SetMode();
    }

    method HandleSga(ddww: Byte)
      requires Valid()
      modifies `sga, `piac, `replies, `flushed, `held, `blocks, iac
      ensures Valid() && Dialog() == AnswerSga(old(Dialog()), ddww)
    {
      if sga {
        if ddww == WILL {
          return;
        }
      } else if ddww == WONT {
        return;
      }
      sga := !sga;
      if sga {
        PutIac([IAC, DO, TELOPT_SGA]);
      } else {
        PutIac([IAC, DONT, TELOPT_SGA]);
      }
    }

    /** Answers the subnegotiation that follows in buff, if it asks for the terminal type. */
    method HandleNegotiations()
      requires Valid() && pbuff + 1 < buff.Length
      modifies `pbuff, `piac, `replies, `flushed, `held, `blocks, iac
      ensures Valid() && pbuff == old(pbuff) + if buff[old(pbuff)] == TELOPT_TTYPE then 2 else 1
      ensures var asked := buff[old(pbuff)] == TELOPT_TTYPE && buff[old(pbuff) + 1] == TELQUAL_SEND;
        Dialog() == if asked then Answer(old(Dialog()), SendType, Terminal(win, ttype)) else old(Dialog())
    {
      var opt := buff[pbuff];
      pbuff := pbuff + 1;
      if opt == TELOPT_TTYPE {
        opt := buff[pbuff];
        pbuff := pbuff + 1;
        if opt == TELQUAL_SEND {
          PutIac([IAC, SB, TELOPT_TTYPE, TELQUAL_IS]);
          StrIac(ttype);
          PutIac([IAC, SE]);
          assert replies == old(replies) + TypeReplies(ttype);
        }
      }
    }

    /** The len bytes read from the server: all requests among them are answered in order, and the rest goes to the
        console. */
    method ReadServer(len: nat, toybuf: array<Byte>) returns (console: seq<Byte>)
      requires Valid() && 0 < len <= DATABUFSIZE
      requires toybuf.Length == 4096 && toybuf != buff && toybuf != iac
      modifies `pbuff, `echo, `sga, `mode, `piac, `replies, `flushed, `held, `blocks, iac, toybuf
      ensures Valid()
      ensures var scanned := ScanFrom([], [], buff[..], 0, len);
        console == scanned.0 && Dialog() == Run(old(Dialog()), scanned.1, Terminal(win, ttype))
    {
      var i := 0;
      pbuff := 0;
      ghost var start, t, m := Dialog(), Terminal(win, ttype), buff[..];
      ghost var rs := [];
      while pbuff < len
        invariant Valid() && i <= pbuff <= len + 3 && i <= len && buff[..] == m
        invariant ScanFrom(toybuf[..i], rs, m, pbuff, len) == ScanFrom([], [], m, 0, len)
        invariant Dialog() == Run(start, rs, t)
        decreases len - pbuff
      {
        ghost var u := Step(m, pbuff);
        ScanStep(toybuf[..i], rs, m, pbuff, len, u);
        RunConcat(start, rs, u.asked, t);
        i := ReadByte(i, toybuf);
        rs := rs + u.asked;
      }
      console := toybuf[..i];
    }

    /** One turn of the loop. */
    method ReadByte(at: nat, toybuf: array<Byte>) returns (i: nat)
      requires Valid() && pbuff < DATABUFSIZE
      requires at < toybuf.Length && toybuf != buff && toybuf != iac
      modifies `pbuff, `echo, `sga, `mode, `piac, `replies, `flushed, `held, `blocks, iac, toybuf
      ensures Valid() && at <= i <= at + 1
      ensures var u := Step(buff[..], old(pbuff));
        && pbuff == u.next && Dialog() == Run(old(Dialog()), u.asked, Terminal(win, ttype))
        && toybuf[..i] == old(toybuf[..at]) + u.shown
    {
      i := at;
      ghost var out := toybuf[..at];
      var curr := buff[pbuff];
      pbuff := pbuff + 1;
      if curr == IAC {
        Command();
        assert out + [] == out;
      } else {
        toybuf[i] := curr;
        i := i + 1;
        assert toybuf[..i] == out + [curr];
        if curr == CR {
          SkipNul();
        }
      }
    }

    method SkipNul()
      requires pbuff < buff.Length
      modifies `pbuff
      ensures pbuff == old(pbuff) + if buff[old(pbuff)] == NUL then 1 else 0
    {
      var curr := buff[pbuff];
      pbuff := pbuff + 1;
      if curr != NUL {
        pbuff := pbuff - 1;
      }
    }

    /** The command behind an IAC. */
    method Command()
      requires Valid() && 0 < pbuff <= DATABUFSIZE && buff[pbuff - 1] == IAC
      modifies `pbuff, `echo, `sga, `mode, `piac, `replies, `flushed, `held, `blocks, iac
      ensures Valid()
      ensures var u := Step(buff[..], old(pbuff) - 1);
        pbuff == u.next && Dialog() == Run(old(Dialog()), u.asked, Terminal(win, ttype))
    {
      ghost var u, t, d := Step(buff[..], pbuff - 1), Terminal(win, ttype), Dialog();
      var curr := buff[pbuff];
      pbuff := pbuff + 1;
      if u.asked != [] {
        RunOne(d, u.asked[0], t);
        assert u.asked == [u.asked[0]];
      }
      if curr == DO || curr == DONT || curr == WILL || curr == WONT {
        HandleDdww(curr);
      } else if curr == SB {
        HandleNegotiations();
      }
    }

    /** read() puts a chunk into buff; the bytes behind it are left from before. */
    method Fetch(chunk: seq<Byte>)
      requires |chunk| <= buff.Length
      modifies buff
      ensures buff[..|chunk|] == chunk
    {
      forall k | 0 <= k < |chunk| {
        buff[k] := chunk[k];
      }
    }

    /** The main loop, as far as the server goes: of whatever chunks it sends, the console shows what the scans of
        them show, and the dialogue is a run of the requests they find, and so keeps what such runs keep; the server
        gets all replies in order, but for those still held, exactly if no flush is cut short.  `ms` are the contents
        of buff for each chunk. */
    method Serve(chunks: seq<seq<Byte>>, toybuf: array<Byte>)
      returns (console: seq<Byte>, ghost rs: seq<Request>, ghost ms: seq<seq<Byte>>)
      requires Valid() && Dialog() == START
      requires forall k :: 0 <= k < |chunks| ==> 0 < |chunks[k]| <= DATABUFSIZE
      requires toybuf.Length == 4096 && toybuf != buff && toybuf != iac
      modifies `pbuff, `echo, `sga, `mode, `piac, `replies, `flushed, `held, `blocks, buff, iac, toybuf
      ensures Valid() && Hold(ms, chunks) && (console, rs) == Scanned(ms, chunks)
      ensures FromServer(rs) && Dialog() == Run(START, rs, Terminal(win, ttype))
      ensures mode == (if Dropped(rs) then Off else if Offered(rs) then On else Try) && (echo <==> mode == On)
      ensures Count(replies, Reply(DO, TELOPT_ECHO)) == if Offered(rs) then 1 else 0
      ensures Flatten(Got()) + iac[..piac] == Flatten(replies) <==> AllTaken()
    {
      hide Valid, Hold, Scanned, ScanFrom, Run, Got, AllTaken, Count, Offered, Dropped;
      ghost var t := Terminal(win, ttype);
      NothingYet(t);
      console, rs, ms := [], [], [];
      for k := 0 to |chunks|
        invariant Valid() && FromServer(rs) && Dialog() == Run(START, rs, t)
        invariant Hold(ms, chunks[..k]) && (console, rs) == Scanned(ms, chunks[..k])
      {
        ghost var more, m;
        var shown;
        shown, more, m := Turn(chunks[k], toybuf);
        ScannedSnoc(ms, chunks[..k], m, chunks[k]);
        assert chunks[..k] + [chunks[k]] == chunks[..k + 1];
        console := console + shown;
        RunConcat(START, rs, more, t);
        rs, ms := rs + more, ms + [m];
      }
      assert chunks[..|chunks|] == chunks;
      RunIsTold(rs, t);
      ModeIs(rs, t);
      if Dropped(rs) {
        DroppedIsOffered(rs);
      }
      NoReplyIsLost();
    }

    /** One chunk: `m` is buff with the chunk in front. */
    method Turn(chunk: seq<Byte>, toybuf: array<Byte>)
      returns (console: seq<Byte>, ghost rs: seq<Request>, ghost m: seq<Byte>)
      requires Valid() && 0 < |chunk| <= DATABUFSIZE
      requires toybuf.Length == 4096 && toybuf != buff && toybuf != iac
      modifies `pbuff, `echo, `sga, `mode, `piac, `replies, `flushed, `held, `blocks, buff, iac, toybuf
      ensures Valid() && FromServer(rs) && Dialog() == Run(old(Dialog()), rs, Terminal(win, ttype))
      ensures |m| == DATABUFSIZE + 3 && chunk <= m && (console, rs) == ScanFrom([], [], m, 0, |chunk|)
    {
      if piac > 0 {
        FlushIac();
      }
      Fetch(chunk);
      m := buff[..];
      rs := ScanFrom([], [], m, 0, |chunk|).1;
      ScanFindsRequests([], [], m, 0, |chunk|);
      console := ReadServer(|chunk|, toybuf);
    }

    /** The len bytes read from the keyboard: they are sent encoded, or, if the escape key is among them, not at all. */
    method WriteServer(len: nat, toybuf: array<Byte>) returns (escaped: bool, sent: seq<Byte>)
      requires buff.Length == DATABUFSIZE + 3 && len <= DATABUFSIZE
      requires toybuf.Length == 4096 && toybuf != buff
      modifies toybuf
      ensures escaped <==> ESCAPE in buff[..len]
      ensures sent == if escaped then [] else EncodeKeys(buff[..len])
    {
      var i := 0;
      for c := 0 to len
        invariant ESCAPE !in buff[..c]
        invariant i <= 2 * c && toybuf[..i] == EncodeKeys(buff[..c])
      {
        ghost var before := toybuf[..i];
        assert buff[..c + 1][..c] == buff[..c];
        if buff[c] == ESCAPE {
          assert buff[c] in buff[..len];
          return true, [];
        }
        i := PutKey(buff[c], toybuf, i);
        assert toybuf[..i] == before + EncodeKey(buff[c]);
      }
      return false, toybuf[..i];
    }

    /** The console escapes: l works between keys, c after SIGINT. */
    method HandleEsc(input: Byte, signal: bool)
      requires Valid()
      modifies `echo, `sga, `mode, `piac, `replies, `flushed, `held, `blocks, iac
      ensures Valid()
      ensures var t := Terminal(win, ttype);
        Dialog() ==
        if input == 'l' as int && !signal then Answer(old(Dialog()), LineMode, t)
        else if input == 'c' as int && signal then Answer(old(Dialog()), CharacterMode, t)
        else old(Dialog())
      ensures (input == 'l' as int && !signal) || (input == 'c' as int && signal) ==> piac == 0
    {
      hide Valid;
      if input == 'l' as int && !signal {
        mode, echo, sga := Try, false, false;
        SetMode();
        PutIac([IAC, DONT, TELOPT_ECHO, IAC, DONT, TELOPT_SGA]);
        FlushIac();
        assert Reply(DONT, TELOPT_ECHO) + Reply(DONT, TELOPT_SGA) == [IAC, DONT, TELOPT_ECHO, IAC, DONT, TELOPT_SGA];
      } else if input == 'c' as int && signal {
        mode, echo, sga := Try, true, true;
        SetMode();
        PutIac([IAC, DO, TELOPT_ECHO, IAC, DO, TELOPT_SGA]);
        FlushIac();
        assert Reply(DO, TELOPT_ECHO) + Reply(DO, TELOPT_SGA) == [IAC, DO, TELOPT_ECHO, IAC, DO, TELOPT_SGA];
      }
    }
  }

  ghost function Cut(blocks: seq<seq<Byte>>, takes: nat -> nat): seq<seq<Byte>> {
    seq(|blocks|, n requires 0 <= n < |blocks| => Take(blocks[n], takes(n)))
  }

  /** One key: IAC and CR take two bytes. */
  method PutKey(b: Byte, toybuf: array<Byte>, at: nat) returns (i: nat)
    requires at + 2 <= toybuf.Length
    modifies toybuf
    ensures at < i <= at + 2 && toybuf[..i] == old(toybuf[..at]) + EncodeKey(b)
  {
    toybuf[at] := b;
    i := at + 1;
    if b == IAC {
      toybuf[i] := b;
      i := i + 1;
    } else if b == CR {
      toybuf[i] := NUL;
      i := i + 1;
    }
  }

  /** A reply that the kernel does not take is gone. */
  method ForgottenReply(win: Size, term: seq<Byte>, reply: seq<Byte>) returns (c: Client)
    requires 0 < |reply| < IACBUFSIZE
    ensures fresh(c) && c.Valid() && Flatten(c.replies) == reply && Flatten(c.Got()) + c.iac[..c.piac] == []
  {
    c := new Client(win, term, n => 0);
    c.PutIac(reply);
    c.FlushIac();
    assert c.replies == [reply] && [reply][1..] == [] && reply + [] == reply;
    assert Flatten(c.replies) == reply + Flatten<Byte>([]);
    FlattenSnoc<Byte>([], []);
    assert c.Got() == [] + [[]];
  }

  /** Each m holds a chunk in front, and three bytes to look at behind it. */
  ghost predicate Hold(ms: seq<seq<Byte>>, chunks: seq<seq<Byte>>) {
    |ms| == |chunks| && forall k :: 0 <= k < |ms| ==> chunks[k] <= ms[k] && |chunks[k]| + 3 <= |ms[k]|
  }

  /** What the scans of some chunks show, and the requests they find. */
  ghost function Scanned(ms: seq<seq<Byte>>, chunks: seq<seq<Byte>>): (seq<Byte>, seq<Request>)
    requires Hold(ms, chunks)
  {
    if ms == [] then ([], [])
    else
      var (console, rs) := Scanned(Init(ms), Init(chunks));
      var (shown, asked) := ScanFrom([], [], Last(ms), 0, |Last(chunks)|);
      (console + shown, rs + asked)
  }

  lemma NothingYet(t: Terminal)
    ensures Hold([], []) && Scanned([], []) == ([], []) && FromServer([]) && Run(START, [], t) == START
  {
  }

  lemma ScannedSnoc(ms: seq<seq<Byte>>, chunks: seq<seq<Byte>>, m: seq<Byte>, chunk: seq<Byte>)
    requires Hold(ms, chunks) && chunk <= m && |chunk| + 3 <= |m|
    ensures Hold(ms + [m], chunks + [chunk])
    ensures var (console, rs) := Scanned(ms, chunks);
      var (shown, asked) := ScanFrom([], [], m, 0, |chunk|);
      Scanned(ms + [m], chunks + [chunk]) == (console + shown, rs + asked)
  {
    assert Init(ms + [m]) == ms && Init(chunks + [chunk]) == chunks;
  }

  /** Prefixes of some blocks are as long as the blocks together only if they are the blocks. */
  lemma {:induction false} PrefixesFlatten(some: seq<seq<Byte>>, blocks: seq<seq<Byte>>)
    requires |some| == |blocks| && forall n :: 0 <= n < |some| ==> some[n] <= blocks[n]
    ensures |Flatten(some)| <= |Flatten(blocks)|
    ensures |Flatten(some)| == |Flatten(blocks)| <==> some == blocks
  {
    if some != [] {
      PrefixesFlatten(some[1..], blocks[1..]);
      assert |some[0]| == |blocks[0]| ==> some[0] == blocks[0];
      assert some == [some[0]] + some[1..] && blocks == [blocks[0]] + blocks[1..];
    }
  }

  lemma {:induction false} FlattenWritten(flushed: seq<seq<seq<Byte>>>)
    ensures Flatten(Written(flushed)) == Flatten(Flatten(flushed))
  {
    if flushed != [] {
      FlattenWritten(flushed[1..]);
      assert Written(flushed)[1..] == Written(flushed[1..]);
      FlattenConcat(flushed[0], Flatten(flushed[1..]));
    }
  }

  /** The bytes written by flushes of some replies each. */
  ghost function Written(flushed: seq<seq<seq<Byte>>>): seq<seq<Byte>> {
    seq(|flushed|, i requires 0 <= i < |flushed| => Flatten(flushed[i]))
  }

  lemma WrittenSnoc(flushed: seq<seq<seq<Byte>>>, held: seq<seq<Byte>>)
    ensures Written(flushed + [held]) == Written(flushed) + [Flatten(held)]
  {
    assert forall i :: 0 <= i < |flushed| ==> (flushed + [held])[i] == flushed[i];
  }
}

/** From telnetd's pty to the telnet client's console, over runs of both. */
module TelnetEndToEnd {
  import opened Bytes
  import opened TelnetClient
  import opened TelnetConsole
  import opened TelnetNegotiation
  import opened Telnetd
  import TelnetdAnswers
  import TelnetdSession
  import TelnetdVisit

  /** The client's reads, if they cut what the socket has got behind the pieces ps of the pty's bytes. */
  function DoubledAll(ps: seq<seq<Byte>>): (chunks: seq<seq<Byte>>)
    ensures |chunks| == |ps|
  {
    seq(|ps|, k requires 0 <= k < |ps| => Doubled(ps[k]))
  }

  function DisplayedAll(ps: seq<seq<Byte>>): seq<Byte> {
    if ps == [] then [] else DisplayedAll(Init(ps)) + Displayed(Last(ps))
  }

  predicate NoneLoses(ps: seq<seq<Byte>>) {
    ps == [] || (NoneLoses(Init(ps)) && !LosesSome(Last(ps)))
  }

  lemma FlattenLast<T>(xs: seq<seq<T>>)
    requires xs != []
    ensures Flatten(xs) == Flatten(Init(xs)) + Last(xs)
  {
    FlattenSnoc(Init(xs), Last(xs));
    assert Init(xs) + [Last(xs)] == xs;
  }

  lemma {:induction false} PiecesJoin(ps: seq<seq<Byte>>)
    ensures Flatten(DoubledAll(ps)) == Doubled(Flatten(ps))
  {
    if ps != [] {
      PiecesJoin(Init(ps));
      assert Init(DoubledAll(ps)) == DoubledAll(Init(ps));
      FlattenLast(DoubledAll(ps));
      FlattenLast(ps);
      DoubledConcat(Flatten(Init(ps)), Last(ps));
    }
  }

  lemma {:induction false} PiecesShown(ps: seq<seq<Byte>>, ms: seq<seq<Byte>>)
    requires Hold(ms, DoubledAll(ps))
    ensures Scanned(ms, DoubledAll(ps)) == (DisplayedAll(ps), [])
  {
    if ps != [] {
      var chunks := DoubledAll(ps);
      assert Init(chunks) == DoubledAll(Init(ps)) && Last(chunks) <= Last(ms);
      PiecesShown(Init(ps), Init(ms));
      PtyShown(Last(ps), Last(ms));
      var (console, rs) := Scanned(Init(ms), Init(chunks));
      assert rs == [] && rs + [] == rs && console == DisplayedAll(Init(ps));
      assert Last(chunks) == Doubled(Last(ps));
    }
  }

  lemma {:induction false} PiecesExactly(ps: seq<seq<Byte>>)
    ensures |DisplayedAll(ps)| <= |Flatten(ps)|
    ensures DisplayedAll(ps) == Flatten(ps) <==> NoneLoses(ps)
  {
    if ps != [] {
      PiecesExactly(Init(ps));
      FlattenLast(ps);
      DisplayedExactly(Last(ps));
      SameLengths(DisplayedAll(Init(ps)), Displayed(Last(ps)), Flatten(Init(ps)), Last(ps));
    }
  }

  lemma SameLengths(a: seq<Byte>, b: seq<Byte>, c: seq<Byte>, d: seq<Byte>)
    requires |a| <= |c| && |b| <= |d|
    ensures a + b == c + d <==> a == c && b == d
  {
    if a + b == c + d {
      assert |a| + |b| == |c| + |d|;
      assert a == (a + b)[..|a|] && c == (c + d)[..|c|] && b == (a + b)[|a|..] && d == (c + d)[|c|..];
    }
  }

  lemma {:induction false} LosesInside(a: seq<Byte>, b: seq<Byte>)
    ensures LosesSome(a) || LosesSome(b) ==> LosesSome(a + b)
  {
    if a == [] {
      assert a + b == b;
    } else {
      assert (a + b)[1..] == a[1..] + b;
      LosesInside(a[1..], b);
    }
  }

  /** If the bytes hold no IAC and no CR NUL, neither does a piece. */
  lemma {:induction false} NonePartLoses(ps: seq<seq<Byte>>)
    requires !LosesSome(Flatten(ps))
    ensures NoneLoses(ps)
  {
    if ps != [] {
      FlattenLast(ps);
      LosesInside(Flatten(Init(ps)), Last(ps));
      NonePartLoses(Init(ps));
    }
  }

  /** After any visits to a session, what its socket has got, in any reads that do not cut a doubled byte, makes the
      client show the pty's bytes and answer nothing.  It shows all that was sent of them exactly if no read holds an
      IAC or a CR NUL, and so in any case if what was sent holds none. */
  lemma PtyReachesConsole(xs: seq<TelnetdVisit.Visit>, pasts: seq<Byte>, pty: bool, sock: bool,
                          ps: seq<seq<Byte>>, ms: seq<seq<Byte>>)
    requires |pasts| == |xs| && Hold(ms, DoubledAll(ps))
    requires Flatten(ps) == TelnetdVisit.AfterVisits(TelnetdVisit.START, xs, pasts, pty, sock).outward.sent
    ensures var o := TelnetdVisit.AfterVisits(TelnetdVisit.START, xs, pasts, pty, sock).outward;
      && o.sent <= o.read == TelnetdAnswers.AllRead(xs, pasts, pty, sock)
      && Flatten(DoubledAll(ps)) == Doubled(o.sent)
      && Scanned(ms, DoubledAll(ps)) == (DisplayedAll(ps), [])
      && (DisplayedAll(ps) == o.sent <==> NoneLoses(ps))
      && (!LosesSome(o.sent) ==> DisplayedAll(ps) == o.sent)
  {
    TelnetdVisit.VisitsKeep(xs, pasts, pty, sock);
    TelnetdAnswers.PtyIsRead(xs, pasts, pty, sock);
    PiecesJoin(ps);
    PiecesShown(ps, ms);
    PiecesExactly(ps);
    if !LosesSome(Flatten(ps)) {
      NonePartLoses(ps);
    }
  }

  /** The programs: the client reads what the session's socket has got. */
  method Watch(s: TelnetdSession.Session, c: Client, chunks: seq<seq<Byte>>, ghost ps: seq<seq<Byte>>,
               toybuf: array<Byte>)
    returns (console: seq<Byte>)
    requires s.Valid() && c.Valid() && c.Dialog() == START
    requires Flatten(ps) == s.outward.sent && chunks == DoubledAll(ps)
    requires forall k :: 0 <= k < |chunks| ==> 0 < |chunks[k]| <= DATABUFSIZE
    requires toybuf.Length == 4096 && toybuf != c.buff && toybuf != c.iac
    modifies c, c.buff, c.iac, toybuf
    ensures Flatten(chunks) == old(s.socket)
    ensures console == DisplayedAll(ps) && (console == old(s.outward.sent) <==> NoneLoses(ps))
    ensures c.Dialog() == START
  {
    ghost var rs, ms;
    PiecesJoin(ps);
    console, rs, ms := c.Serve(chunks, toybuf);
    PiecesShown(ps, ms);
    PiecesExactly(ps);
  }
}

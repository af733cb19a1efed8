/** The rlogin client and server together. */
module RloginEndToEnd {
  import opened Bytes
  import opened RloginWire
  import opened Rlogin
  import opened RloginLoop
  import opened Rlogind

  // ---- The start-up message ----

  /** The server recovers the local user, the remote user and the terminal with its speed from the client's
      message exactly when each of the three fits its 1024-byte field; otherwise it refuses the client. */
  lemma HandshakeRoundTrip(luser: seq<Byte>, user: seq<Byte>, term: seq<Byte>, later: seq<Byte>)
    requires NUL !in luser && NUL !in user && NUL !in term
    ensures var terminal := term + SLASH + BAUD;
      Accept(Greeting(luser, user, term) + later) ==
      if |luser| < NAMESIZE && |user| < NAMESIZE && |terminal| < NAMESIZE then Some(Names(luser, user, terminal))
      else None
  {
    var terminal := term + SLASH + BAUD;
    var afterUser := terminal + [NUL] + later;
    var afterLuser := user + [NUL] + afterUser;
    var input := Greeting(luser, user, term) + later;
    assert input[0] == NUL;
    assert input[1..] == luser + [NUL] + afterLuser;
    NameIsRead(luser, afterLuser, NAMESIZE);
    NameIsRead(user, afterUser, NAMESIZE);
    NameIsRead(terminal, later, NAMESIZE);
  }

  // ---- The client's stream ----

  function UnitTokens(u: Unit): seq<Token> {
    match u
    case Chunk(bytes) => KeyTokens(bytes)
    case Win(_, w) => [Frame(w)]
  }

  /** What the client means by the units it has committed to. */
  function Tokens(us: seq<Unit>): seq<Token> {
    if us == [] then [] else Tokens(Init(us)) + UnitTokens(Last(us))
  }

  function WindowSizes(us: seq<Unit>): seq<Winsize> {
    if us == [] then []
    else WindowSizes(Init(us)) + if Last(us).Win? then [Last(us).w] else []
  }

  lemma UnitTokensMean(u: Unit)
    requires u.Win? ==> u.bytes == FrameBytes(u.w)
    ensures Encode(UnitTokens(u)) == u.bytes
    ensures Keys(UnitTokens(u)) == TypedIn(u)
    ensures Sizes(UnitTokens(u)) == if u.Win? then [u.w] else []
  {
    if u.Chunk? {
      KeyTokensMean(u.bytes);
    } else {
      TokensOfCons(Frame(u.w), []);
      assert [Frame(u.w)] + [] == [Frame(u.w)];
    }
  }

  lemma {:induction false} TokensMean(us: seq<Unit>)
    requires Framed(us)
    ensures Encode(Tokens(us)) == Stream(us)
    ensures Keys(Tokens(us)) == Typed(us)
    ensures Sizes(Tokens(us)) == WindowSizes(us)
  {
    if us != [] {
      var init, last := Init(us), Last(us);
      TokensMean(init);
      UnitTokensMean(last);
      EncodeConcat(Tokens(init), UnitTokens(last));
      KeysConcat(Tokens(init), UnitTokens(last));
      SizesConcat(Tokens(init), UnitTokens(last));
    }
  }

  /** From the units the client has committed to, to the pty.  If the server's reads cut their stream between
      tokens, it takes exactly the client's frames out of the stream if and only if every read is clean; the pty
      then gets exactly the typed bytes in order, and the sizes set on it are those of the frames, in order. */
  lemma KeysAndSizesArrive(us: seq<Unit>, cuts: seq<seq<Token>>)
    requires Framed(us) && Flatten(cuts) == Tokens(us)
    ensures Flatten(EncodeAll(cuts)) == Stream(us)
    ensures var s := Serve(EncodeAll(cuts));
      && (s.taken == FramesIn(cuts) <==> AllClean(cuts))
      && (AllClean(cuts) ==> s.out == Typed(us) && s.sizes == WindowSizes(us))
  {
    TokensMean(us);
    EncodeAllIsStream(cuts);
    ServeDecodes(cuts);
  }

  /** End to end, over all runs of the client's loop in which the urgent byte has lost nothing and after which
      nothing is pending: what it has sent are its frames and all it has read from stdin, and that is what arrives. */
  lemma RunArrives(rounds: seq<Round>, cuts: seq<seq<Token>>)
    requires forall k :: 0 <= k < |rounds| ==> PlausibleRound(rounds[k])
    requires !After(START, rounds).0.lost && !After(START, rounds).0.up.sockOut
    requires Flatten(cuts) == Tokens(After(START, rounds).0.up.units)
    ensures var (u, s) := (After(START, rounds).0.up, Serve(EncodeAll(cuts)));
      && Flatten(EncodeAll(cuts)) == u.sent
      && (s.taken == FramesIn(cuts) <==> AllClean(cuts))
      && (AllClean(cuts) ==> s.out == u.typed && s.sizes == WindowSizes(u.units))
  {
    RunsKeep(rounds);
    KeysAndSizesArrive(After(START, rounds).0.up.units, cuts);
  }

  /** In particular for typed bytes without 0xFF, however they are cut. */
  lemma PlainKeysArrive(us: seq<Unit>, cuts: seq<seq<Token>>)
    requires Framed(us) && Flatten(cuts) == Tokens(us)
    requires MAGIC !in Typed(us)
    ensures Serve(EncodeAll(cuts)) == Served(Typed(us), WindowSizes(us), FramesIn(cuts))
  {
    TokensMean(us);
    forall k | 0 <= k < |cuts|
      ensures Clean(cuts[k])
    {
      CutHasOnlyStreamKeys(cuts, k);
      PlainIsClean(cuts[k]);
    }
    EachIsClean(cuts);
    KeysAndSizesArrive(us, cuts);
  }

  lemma {:induction false} KeyIsAmongKeys(ts: seq<Token>, j: nat)
    requires j < |ts| && ts[j].Key?
    ensures ts[j].b in Keys(ts)
  {
    if j > 0 {
      KeyIsAmongKeys(ts[1..], j - 1);
    }
  }

  lemma {:induction false} CutHasOnlyStreamKeys(cuts: seq<seq<Token>>, k: nat)
    requires k < |cuts| && MAGIC !in Keys(Flatten(cuts))
    ensures forall j :: 0 <= j < |cuts[k]| ==> cuts[k][j] != Key(MAGIC)
  {
    KeysConcat(cuts[0], Flatten(cuts[1..]));
    if k > 0 {
      CutHasOnlyStreamKeys(cuts[1..], k - 1);
    } else {
      forall j | 0 <= j < |cuts[0]|
        ensures cuts[0][j] != Key(MAGIC)
      {
        if cuts[0][j].Key? {
          KeyIsAmongKeys(cuts[0], j);
        }
      }
    }
  }
}

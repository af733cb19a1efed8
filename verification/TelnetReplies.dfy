/** When the telnet client answers what: its mode, its flags and the replies it gives, told by what the server has
    asked before; and what telnetd makes of all these replies. */
module TelnetReplies {
  import opened Bytes
  import opened TelnetCodec
  import opened TelnetNegotiation

  /** The replies that a request draws. */
  function Drawn(d: Dialogue, r: Request, t: Terminal): seq<seq<Byte>> {
    Answer(d, r, t).replies[|d.replies|..]
  }

  // ---- ECHO ----

  predicate OffersEcho(r: Request) {
    r == Ask(WILL, TELOPT_ECHO) || r == Ask(DO, TELOPT_ECHO)
  }

  predicate DropsEcho(r: Request) {
    r == Ask(WONT, TELOPT_ECHO) || r == Ask(DO, TELOPT_ECHO)
  }

  predicate Offered(rs: seq<Request>) {
    exists i: nat :: i < |rs| && OffersEcho(rs[i])
  }

  /** Offered, and dropped later. */
  predicate Dropped(rs: seq<Request>) {
    exists j: nat :: j < |rs| && DropsEcho(rs[j]) && Offered(rs[..j])
  }

  lemma HistorySnoc(rs: seq<Request>)
    requires rs != []
    ensures var init, last := rs[..|rs| - 1], rs[|rs| - 1];
      (Offered(rs) <==> Offered(init) || OffersEcho(last)) &&
      (Dropped(rs) <==> Dropped(init) || (Offered(init) && DropsEcho(last)))
  {
    var init, last := rs[..|rs| - 1], |rs| - 1;
    assert forall i: nat :: i < |init| ==> init[i] == rs[i];
    if j: nat :| j < |rs| && DropsEcho(rs[j]) && Offered(rs[..j]) {
      assert j < last ==> init[..j] == rs[..j] && DropsEcho(init[j]);
    }
    if j: nat :| j < |init| && DropsEcho(init[j]) && Offered(init[..j]) {
      assert init[..j] == rs[..j] && DropsEcho(rs[j]);
    }
    if i: nat :| i < |init| && OffersEcho(init[i]) {
      assert OffersEcho(rs[i]);
    }
  }

  /** The mode is TRY until the server has first asked WILL or DO of ECHO; it is ON from then on, until the next WONT
      or DO of ECHO; and OFF ever after. */
  lemma {:induction false} ModeIs(rs: seq<Request>, t: Terminal)
    requires FromServer(rs)
    ensures var d := Run(START, rs, t);
      d.mode == (if Dropped(rs) then Off else if Offered(rs) then On else Try) && (d.echo <==> d.mode == On)
  {
    EchoMeansCharacterMode(rs, t);
    if rs != [] {
      FromServerPrefix(rs);
      ModeIs(rs[..|rs| - 1], t);
      HistorySnoc(rs);
    }
  }

  /** The replies to a request about ECHO: DO when the first offer comes, DONT when it is dropped or offered again
      after that, and WONT to each DO besides. */
  lemma EchoDraws(rs: seq<Request>, verb: Byte, t: Terminal)
    requires FromServer(rs) && IsVerb(verb)
    ensures Drawn(Run(START, rs, t), Ask(verb, TELOPT_ECHO), t) ==
      (if verb == DO then [Reply(WONT, TELOPT_ECHO)] else []) +
      (if OffersEcho(Ask(verb, TELOPT_ECHO)) && !Offered(rs) then [Reply(DO, TELOPT_ECHO)]
       else if verb == DO || (verb == WILL && Dropped(rs)) || (verb == WONT && Offered(rs) && !Dropped(rs))
       then [Reply(DONT, TELOPT_ECHO)]
       else [])
  {
    ModeIs(rs, t);
    if Dropped(rs) {
      DroppedIsOffered(rs);
    }
  }

  lemma DroppedIsOffered(rs: seq<Request>)
    requires Dropped(rs)
    ensures Offered(rs)
  {
    var j: nat :| j < |rs| && DropsEcho(rs[j]) && Offered(rs[..j]);
    var i: nat :| i < j && OffersEcho(rs[..j][i]);
    assert OffersEcho(rs[i]);
  }

  // ---- SGA ----

  /** WILL and WONT of SGA tell the client what to set; DO and DONT invert. */
  predicate TellsSga(r: Request) {
    r == Ask(WILL, TELOPT_SGA) || r == Ask(WONT, TELOPT_SGA)
  }

  predicate InvertsSga(r: Request) {
    r == Ask(DO, TELOPT_SGA) || r == Ask(DONT, TELOPT_SGA)
  }

  function Inversions(rs: seq<Request>): nat {
    if rs == [] then 0
    else Inversions(rs[..|rs| - 1]) + if InvertsSga(rs[|rs| - 1]) then 1 else 0
  }

  lemma FlagAfter(d: Dialogue, r: Request, t: Terminal)
    requires r.SendType? || (r.Ask? && IsVerb(r.verb))
    ensures Answer(d, r, t).sga <==>
      if TellsSga(r) then r == Ask(WILL, TELOPT_SGA) else if InvertsSga(r) then !d.sga else d.sga
  {
  }

  /** SGA is as the latest WILL or WONT has told, inverted by each DO or DONT since; request i - 1 is that WILL or
      WONT, and i is 0 if there is none. */
  lemma {:induction false} SgaIs(rs: seq<Request>, i: nat, t: Terminal)
    requires FromServer(rs) && i <= |rs|
    requires i > 0 ==> TellsSga(rs[i - 1])
    requires forall j :: i <= j < |rs| ==> !TellsSga(rs[j])
    ensures Run(START, rs, t).sga <==>
      ((i > 0 && rs[i - 1] == Ask(WILL, TELOPT_SGA)) <==> Inversions(rs[i..]) % 2 == 0)
  {
    hide Answer;
    if rs != [] {
      var init, r := rs[..|rs| - 1], rs[|rs| - 1];
      assert r in rs;
      FromServerPrefix(rs);
      FlagAfter(Run(START, init, t), r, t);
      if i < |rs| {
        SgaIs(init, i, t);
        assert rs[i..][..|init| - i] == init[i..] && rs[i..][|init| - i] == r;
        assert Inversions(rs[i..]) == Inversions(init[i..]) + if InvertsSga(r) then 1 else 0;
      }
    }
  }

  /** A request about SGA draws a reply exactly if the flag changes, which tells what it has become. */
  lemma SgaDraws(d: Dialogue, verb: Byte, t: Terminal)
    requires IsVerb(verb)
    ensures var after := Answer(d, Ask(verb, TELOPT_SGA), t);
      && Drawn(d, Ask(verb, TELOPT_SGA), t) ==
         (if after.sga == d.sga then [] else [Reply(if after.sga then DO else DONT, TELOPT_SGA)])
      && after.sga == (if verb == WILL then true else if verb == WONT then false else !d.sga)
      && after.echo == d.echo && after.mode == d.mode
  {
  }

  // ---- Refusals and offers ----

  /** How often the server has asked `verb` of an option. */
  function Asked(rs: seq<Request>, verb: Byte, opt: Byte): nat {
    if rs == [] then 0
    else Asked(rs[..|rs| - 1], verb, opt) + if rs[|rs| - 1] == Ask(verb, opt) then 1 else 0
  }

  lemma {:induction false} CountConcat(xs: seq<seq<Byte>>, ys: seq<seq<Byte>>, r: seq<Byte>)
    ensures Count(xs + ys, r) == Count(xs, r) + Count(ys, r)
  {
    if ys == [] {
      assert xs + ys == xs;
    } else {
      assert (xs + ys)[..|xs + ys| - 1] == xs + ys[..|ys| - 1];
      CountConcat(xs, ys[..|ys| - 1], r);
    }
  }

  lemma CountOne(x: seq<Byte>, r: seq<Byte>)
    ensures Count([x], r) == if x == r then 1 else 0
  {
    assert [x][..0] == [] && Count([], r) == 0;
  }

  lemma CountTwo(x: seq<Byte>, y: seq<Byte>, r: seq<Byte>)
    ensures Count([x, y], r) == (if x == r then 1 else 0) + (if y == r then 1 else 0)
  {
    CountOne(x, r);
    assert [x, y][..1] == [x];
  }

  /** An option the client knows nothing of. */
  predicate Unknown(opt: Byte) {
    opt != TELOPT_ECHO && opt != TELOPT_SGA && opt != TELOPT_TTYPE && opt != TELOPT_NAWS
  }

  /** DONT refuses WILL, and WONT refuses DO. */
  function Refusal(verb: Byte): Byte {
    if verb == WILL then DONT else WONT
  }

  lemma DrawnCount(d: Dialogue, r: Request, t: Terminal, refused: Byte, opt: Byte)
    requires Unknown(opt) && (refused == WILL || refused == DO) && IAC !in t.ttype
    requires r.SendType? || (r.Ask? && IsVerb(r.verb))
    ensures Count(Drawn(d, r, t), Reply(Refusal(refused), opt)) == if r == Ask(refused, opt) then 1 else 0
  {
    var said := Reply(Refusal(refused), opt);
    var a := Drawn(d, r, t);
    if r.SendType? {
      var b := TypeReplies(t.ttype);
      CountTwo(b[0], b[1], said);
      CountOne(b[2], said);
      CountConcat([b[0], b[1]], [b[2]], said);
      assert a == [b[0], b[1]] + [b[2]];
      assert b[1] != said by {
        assert |b[1]| == 3 ==> b[1][0] == t.ttype[0];
      }
    } else if |a| == 1 {
      CountOne(a[0], said);
      assert a == [a[0]];
    } else if |a| == 2 {
      CountTwo(a[0], a[1], said);
      assert a == [a[0], a[1]];
    }
  }

  /** Of an unknown option the client has sent one DONT for each WILL, and one WONT for each DO, that the server has
      asked. */
  lemma {:induction false} RefusalsAre(rs: seq<Request>, opt: Byte, t: Terminal)
    requires FromServer(rs) && Unknown(opt) && IAC !in t.ttype
    ensures Count(Run(START, rs, t).replies, Reply(DONT, opt)) == Asked(rs, WILL, opt)
    ensures Count(Run(START, rs, t).replies, Reply(WONT, opt)) == Asked(rs, DO, opt)
  {
    hide Answer, Drawn;
    if rs != [] {
      var d, r := Run(START, rs[..|rs| - 1], t), rs[|rs| - 1];
      FromServerPrefix(rs);
      RefusalsAre(rs[..|rs| - 1], opt, t);
      DrawnCount(d, r, t, WILL, opt);
      DrawnCount(d, r, t, DO, opt);
      DrawnIs(d, r, t);
      CountConcat(d.replies, Drawn(d, r, t), Reply(DONT, opt));
      CountConcat(d.replies, Drawn(d, r, t), Reply(WONT, opt));
    }
  }

  lemma DrawnIs(d: Dialogue, r: Request, t: Terminal)
    ensures Answer(d, r, t).replies == d.replies + Drawn(d, r, t)
  {
  }

  // ---- What telnetd makes of the replies ----

  /** Whole tokens without data, of which n set the window size. */
  predicate AreReplies(ts: seq<Token>, n: nat, win: Size) {
    && (forall t :: t in ts ==> TokenOk(t) && !t.CrLf? && !t.CrNul? && !t.Data? && !t.EscapedIac?)
    && AllSizes(ts) == seq(n, _ => win)
  }

  ghost predicate Spells(bytes: seq<Byte>, n: nat, win: Size) {
    exists ts :: bytes == PrintAll(ts) && AreReplies(ts, n, win)
  }

  lemma {:induction false} PrintAllConcat(xs: seq<Token>, ys: seq<Token>)
    ensures PrintAll(xs + ys) == PrintAll(xs) + PrintAll(ys)
    ensures AllSizes(xs + ys) == AllSizes(xs) + AllSizes(ys)
  {
    hide Print, SizeOf;
    if xs == [] {
      assert xs + ys == ys;
    } else {
      assert (xs + ys)[1..] == xs[1..] + ys && (xs + ys)[0] == xs[0];
      PrintAllConcat(xs[1..], ys);
      Assoc(Print(xs[0]), PrintAll(xs[1..]), PrintAll(ys));
      Assoc(SizeOf(xs[0]), AllSizes(xs[1..]), AllSizes(ys));
    }
  }

  lemma SpellsConcat(a: seq<Byte>, n: nat, b: seq<Byte>, m: nat, win: Size)
    requires Spells(a, n, win) && Spells(b, m, win)
    ensures Spells(a + b, n + m, win)
  {
    hide Print, PrintAll, AllSizes, TokenOk;
    var xs :| a == PrintAll(xs) && AreReplies(xs, n, win);
    var ys :| b == PrintAll(ys) && AreReplies(ys, m, win);
    PrintAllConcat(xs, ys);
    BothAreReplies(xs, n, ys, m, win);
  }

  lemma BothAreReplies(xs: seq<Token>, n: nat, ys: seq<Token>, m: nat, win: Size)
    requires AreReplies(xs, n, win) && AreReplies(ys, m, win)
    requires AllSizes(xs + ys) == AllSizes(xs) + AllSizes(ys)
    ensures AreReplies(xs + ys, n + m, win)
  {
    hide AllSizes, TokenOk;
    assert seq(n, _ => win) + seq(m, _ => win) == seq(n + m, _ => win);
  }

  lemma SpellsOne(t: Token, win: Size)
    requires TokenOk(t) && (t.Command? || t.Sub? || t == Naws(win))
    ensures Spells(Print(t), if t.Naws? then 1 else 0, win)
  {
    var n := if t.Naws? then 1 else 0;
    var none: seq<Token> := [];
    assert [t][1..] == none && PrintAll(none) == [] && AllSizes(none) == [];
    assert PrintAll([t]) == Print(t) + PrintAll(none) && AllSizes([t]) == SizeOf(t) + AllSizes(none);
    assert SizeOf(t) == seq(n, _ => win);
    assert AreReplies([t], n, win);
  }

  lemma SpellsNothing(win: Size)
    ensures Spells([], 0, win)
  {
    assert PrintAll([]) == [] && AreReplies([], 0, win);
  }

  lemma FlattenOne(x: seq<Byte>)
    ensures Flatten([x]) == x
  {
    FlattenSnoc([], x);
    assert [] + [x] == [x] && Flatten<Byte>([]) == [];
  }

  lemma FlattenTwo(x: seq<Byte>, y: seq<Byte>)
    ensures Flatten([x, y]) == x + y
  {
    FlattenOne(x);
    FlattenSnoc([x], y);
    assert [x] + [y] == [x, y];
  }

  lemma SpellsReply(verb: Byte, opt: Byte, win: Size)
    requires IsVerb(verb)
    ensures Spells(Reply(verb, opt), 0, win)
  {
    SpellsOne(Command(verb, opt), win);
  }

  lemma SpellsReplies(verb: Byte, opt: Byte, verb': Byte, opt': Byte, win: Size)
    requires IsVerb(verb) && IsVerb(verb')
    ensures Spells(Reply(verb, opt) + Reply(verb', opt'), 0, win)
  {
    SpellsReply(verb, opt, win);
    SpellsReply(verb', opt', win);
    SpellsConcat(Reply(verb, opt), 0, Reply(verb', opt'), 0, win);
  }

  /** The window size, behind its WILL. */
  lemma SpellsSize(win: Size)
    ensures Spells(Flatten([Reply(WILL, TELOPT_NAWS), SizeReply(win)]), 1, win)
  {
    FlattenTwo(Reply(WILL, TELOPT_NAWS), SizeReply(win));
    SpellsReply(WILL, TELOPT_NAWS, win);
    SpellsOne(Naws(win), win);
    SpellsConcat(Reply(WILL, TELOPT_NAWS), 0, SizeReply(win), 1, win);
  }

  /** The terminal type, with its NUL, as one subnegotiation. */
  function TypeIs(ttype: seq<Byte>): Token {
    Sub(TELOPT_TTYPE, [TELQUAL_IS] + (ttype + [NUL]))
  }

  /** Each request about TTYPE is agreed to, each about NAWS besides answered by the window size, and the request to
      send the terminal type by that. */
  lemma KnownDraws(d: Dialogue, verb: Byte, t: Terminal)
    ensures Drawn(d, Ask(verb, TELOPT_TTYPE), t) == [Print(Command(WILL, TELOPT_TTYPE))]
    ensures Drawn(d, Ask(verb, TELOPT_NAWS), t) == [Print(Command(WILL, TELOPT_NAWS)), Print(Naws(t.win))]
    ensures Flatten(Drawn(d, SendType, t)) == Print(TypeIs(t.ttype))
  {
    TypeIsPrinted(t.ttype);
    assert Drawn(d, SendType, t) == TypeReplies(t.ttype);
  }

  lemma TypeIsPrinted(ttype: seq<Byte>)
    ensures Flatten(TypeReplies(ttype)) == Print(TypeIs(ttype))
  {
    hide Flatten;
    var a := TypeReplies(ttype);
    FlattenTwo(a[0], a[1]);
    FlattenSnoc([a[0], a[1]], a[2]);
    assert [a[0], a[1]] + [a[2]] == a;
  }

  lemma SpellsType(t: Terminal)
    requires IAC !in t.ttype
    ensures Spells(Flatten(TypeReplies(t.ttype)), 0, t.win)
  {
    TypeIsPrinted(t.ttype);
    SpellsOne(TypeIs(t.ttype), t.win);
  }

  lemma SpellsDrawn(d: Dialogue, r: Request, t: Terminal)
    requires IAC !in t.ttype
    ensures Spells(Flatten(Drawn(d, r, t)), if r.Ask? && r.opt == TELOPT_NAWS then 1 else 0, t.win)
  {
    hide Spells, Flatten;
    var a := Drawn(d, r, t);
    if r.SendType? {
      assert a == TypeReplies(t.ttype);
      SpellsType(t);
    } else if r.Ask? && r.opt == TELOPT_NAWS {
      assert a == [Reply(WILL, TELOPT_NAWS), SizeReply(t.win)];
      SpellsSize(t.win);
    } else if |a| == 0 {
      FlattenNone();
      SpellsNothing(t.win);
    } else if |a| == 1 {
      assert a == [a[0]];
      FlattenOne(a[0]);
      SpellsOneDrawn(d, r, t);
    } else {
      assert a == [Reply(WONT, TELOPT_ECHO), Reply(a[1][1], TELOPT_ECHO)];
      FlattenTwo(a[0], a[1]);
      SpellsReplies(WONT, TELOPT_ECHO, a[1][1], TELOPT_ECHO, t.win);
    }
  }

  lemma FlattenNone()
    ensures Flatten<Byte>([]) == []
  {
  }

  lemma SpellsOneDrawn(d: Dialogue, r: Request, t: Terminal)
    requires |Drawn(d, r, t)| == 1
    ensures Spells(Drawn(d, r, t)[0], 0, t.win)
  {
    hide Spells, Flatten;
    var x := Drawn(d, r, t)[0];
    if r.LineMode? || r.CharacterMode? {
      SpellsReplies(x[1], TELOPT_ECHO, x[4], TELOPT_SGA, t.win);
    } else {
      SpellsReply(x[1], x[2], t.win);
    }
  }

  /** How many requests of a run are about the window size. */
  function SizesAsked(rs: seq<Request>): nat {
    if rs == [] then 0
    else
      var last := rs[|rs| - 1];
      SizesAsked(rs[..|rs| - 1]) + if last.Ask? && last.opt == TELOPT_NAWS then 1 else 0
  }

  lemma {:induction false} RunSpells(rs: seq<Request>, t: Terminal)
    requires IAC !in t.ttype
    ensures Spells(Flatten(Run(START, rs, t).replies), SizesAsked(rs), t.win)
  {
    hide Spells, Flatten, Answer, Drawn;
    if rs == [] {
      FlattenNone();
      SpellsNothing(t.win);
    } else {
      var d, r := Run(START, rs[..|rs| - 1], t), rs[|rs| - 1];
      RunSpells(rs[..|rs| - 1], t);
      DrawnIs(d, r, t);
      FlattenConcat(d.replies, Drawn(d, r, t));
      SpellsDrawn(d, r, t);
      SpellsConcat(Flatten(d.replies), SizesAsked(rs[..|rs| - 1]), Flatten(Drawn(d, r, t)),
                   if r.Ask? && r.opt == TELOPT_NAWS then 1 else 0, t.win);
    }
  }

  lemma {:induction false} RepliesKept(ts: seq<Token>, n: nat, win: Size, b: Byte)
    requires AreReplies(ts, n, win)
    ensures Kept(ts + [Data(b)]) == [b] && KeptSizes(ts + [Data(b)]) == AllSizes(ts)
    decreases |ts|
  {
    var all := ts + [Data(b)];
    if ts == [] {
      assert all == [Data(b)] && all[1..] == [];
    } else {
      assert all[1..] == ts[1..] + [Data(b)] && ts[0] in ts;
      assert AllSizes(ts[1..]) == seq(|AllSizes(ts[1..])|, _ => win) by {
        assert AllSizes(ts)[|SizeOf(ts[0])|..] == AllSizes(ts[1..]);
      }
      RepliesKept(ts[1..], |AllSizes(ts[1..])|, win, b);
      assert Kept(all) == [] + Kept(all[1..]);
      assert KeptSizes(all) == SizeOf(all[0]) + KeptSizes(all[1..]);
    }
  }

  /** Whatever the server asks and the user escapes to: of all the replies, followed by a byte that is no command,
      telnetd decodes that byte alone, and it sets the client's window size once for each request about NAWS. */
  lemma RepliesDecode(rs: seq<Request>, t: Terminal, b: Byte, past: Byte)
    requires IAC !in t.ttype && b != IAC && b != CR
    ensures Decode(Flatten(Run(START, rs, t).replies) + [b], past) ==
            Decoded([b], seq(SizesAsked(rs), _ => t.win), 0)
  {
    hide Run, Flatten, SizesAsked;
    RunSpells(rs, t);
    var n := SizesAsked(rs);
    var ts :| Flatten(Run(START, rs, t).replies) == PrintAll(ts) && AreReplies(ts, n, t.win);
    var all := ts + [Data(b)];
    PrintAllSnoc(ts, Data(b));
    RepliesKept(ts, n, t.win, b);
    DecodePrinted([], [], all, past);
    assert [] + [b] == [b] && [] + AllSizes(ts) == AllSizes(ts);
  }

  // ---- The user's escapes ----

  /** The escapes to character and to line mode: DO or DONT of both options in one reply, which the server's agreeing
      acknowledgements confirm without drawing another. */
  lemma EscapeIsAgreed(d: Dialogue, character: bool, t: Terminal)
    ensures var r, verb := if character then CharacterMode else LineMode, if character then DO else DONT;
      var after := Answer(d, r, t);
      && Drawn(d, r, t) == [PrintAll([Command(verb, TELOPT_ECHO), Command(verb, TELOPT_SGA)])]
      && after.mode == (if character then On else Off) && after.echo == after.sga == character
      && Run(after, [Ask(Agreeing(verb), TELOPT_ECHO), Ask(Agreeing(verb), TELOPT_SGA)], t) == after
  {
    var r, verb := if character then CharacterMode else LineMode, if character then DO else DONT;
    var after := Answer(d, r, t);
    var first, second := Command(verb, TELOPT_ECHO), Command(verb, TELOPT_SGA);
    PrintAllSnoc([first], second);
    PrintAllSnoc([], first);
    assert [] + [first] == [first] && [first] + [second] == [first, second] && [] + Print(first) == Print(first);
    var acks := [Ask(Agreeing(verb), TELOPT_ECHO), Ask(Agreeing(verb), TELOPT_SGA)];
    assert acks == [acks[0]] + [acks[1]];
    RunTwo(after, [acks[0]], [acks[1]], t);
  }
}

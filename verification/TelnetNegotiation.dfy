/** The telnet client's side of option negotiation: a machine that answers the server's requests (RFC 854, "General
    Considerations"), and the user's escapes to line and character mode. */
module TelnetNegotiation {
  import opened Bytes
  import opened TelnetCodec

  const TELQUAL_IS: Byte := 0
  const TELQUAL_SEND: Byte := 1

  /** CM_TRY, CM_ON and CM_OFF. */
  datatype Mode = Try | On | Off

  /** DO, DONT, WILL or WONT of an option; the request to send the terminal type; and the console escapes l and c. */
  datatype Request = Ask(verb: Byte, opt: Byte) | SendType | LineMode | CharacterMode

  /** The state, and all replies so far, one for each call that puts bytes into the reply buffer. */
  datatype Dialogue = Dialogue(echo: bool, sga: bool, mode: Mode, replies: seq<seq<Byte>>)

  /** The window size and the terminal type that are reported. */
  datatype Terminal = Terminal(win: Size, ttype: seq<Byte>)

  const START := Dialogue(false, false, Try, [])

  function NewMode(echo: bool, mode: Mode): Mode {
    if echo then if mode == Try then On else mode else Off
  }

  function Reply(verb: Byte, opt: Byte): seq<Byte> {
    [IAC, verb, opt]
  }

  function SizeReply(win: Size): seq<Byte> {
    [IAC, SB, TELOPT_NAWS, win.col.high, win.col.low, win.row.high, win.row.low, IAC, SE]
  }

  function TypeReplies(ttype: seq<Byte>): seq<seq<Byte>> {
    [[IAC, SB, TELOPT_TTYPE, TELQUAL_IS], ttype + [NUL], [IAC, SE]]
  }

  predicate IsVerb(b: Byte) {
    b == DO || b == DONT || b == WILL || b == WONT
  }

  function AnswerEcho(d: Dialogue, verb: Byte): (after: Dialogue)
    ensures d.replies <= after.replies
  {
    var refused := if verb == DO then d.replies + [Reply(WONT, TELOPT_ECHO)] else d.replies;
    if verb == DONT || (d.echo && verb == WILL) || (!d.echo && verb == WONT) then d.(replies := refused)
    else
      var echo := if d.mode != Off then !d.echo else d.echo;
      Dialogue(echo, d.sga, NewMode(echo, d.mode), refused + [Reply(if echo then DO else DONT, TELOPT_ECHO)])
  }

  function AnswerSga(d: Dialogue, verb: Byte): (after: Dialogue)
    ensures d.replies <= after.replies
  {
    if (d.sga && verb == WILL) || (!d.sga && verb == WONT) then d
    else d.(sga := !d.sga, replies := d.replies + [Reply(if !d.sga then DO else DONT, TELOPT_SGA)])
  }

  function Answer(d: Dialogue, r: Request, t: Terminal): (after: Dialogue)
    ensures d.replies <= after.replies
  {
    match r
    case Ask(verb, opt) =>
      if opt == TELOPT_ECHO then AnswerEcho(d, verb)
      else if opt == TELOPT_SGA then AnswerSga(d, verb)
      else if opt == TELOPT_TTYPE then d.(replies := d.replies + [Reply(WILL, TELOPT_TTYPE)])
      else if opt == TELOPT_NAWS then d.(replies := d.replies + [Reply(WILL, TELOPT_NAWS), SizeReply(t.win)])
      else if verb == WILL then d.(replies := d.replies + [Reply(DONT, opt)])
      else if verb == DO then d.(replies := d.replies + [Reply(WONT, opt)])
      else d
    case SendType => d.(replies := d.replies + TypeReplies(t.ttype))
    case LineMode =>
      Dialogue(false, false, Off, d.replies + [Reply(DONT, TELOPT_ECHO) + Reply(DONT, TELOPT_SGA)])
    case CharacterMode =>
      Dialogue(true, true, On, d.replies + [Reply(DO, TELOPT_ECHO) + Reply(DO, TELOPT_SGA)])
  }

  /** The dialogue after a run of requests. */
  function Run(d: Dialogue, rs: seq<Request>, t: Terminal): Dialogue {
    if rs == [] then d else Answer(Run(d, rs[..|rs| - 1], t), rs[|rs| - 1], t)
  }

  lemma RunOne(d: Dialogue, r: Request, t: Terminal)
    ensures Run(d, [r], t) == Answer(d, r, t)
  {
    assert [r][..0] == [];
    assert Run(d, [r][..0], t) == d;
  }

  lemma {:induction false} RunConcat(d: Dialogue, rs: seq<Request>, more: seq<Request>, t: Terminal)
    ensures Run(d, rs + more, t) == Run(Run(d, rs, t), more, t)
  {
    if more == [] {
      assert rs + more == rs;
    } else {
      assert (rs + more)[..|rs + more| - 1] == rs + more[..|more| - 1];
      RunConcat(d, rs, more[..|more| - 1], t);
    }
  }

  // ---- What every run keeps ----

  /** Over any run, user escapes included, the ECHO flag is set exactly in character mode. */
  lemma {:induction false} EchoMeansCharacterMode(rs: seq<Request>, t: Terminal)
    ensures var d := Run(START, rs, t); d.echo <==> d.mode == On
  {
    if rs != [] {
      EchoMeansCharacterMode(rs[..|rs| - 1], t);
    }
  }

  /** A run of the server's requests alone. */
  predicate FromServer(rs: seq<Request>) {
    forall r :: r in rs ==> r.SendType? || (r.Ask? && IsVerb(r.verb))
  }

  lemma FromServerPrefix(rs: seq<Request>)
    requires FromServer(rs) && rs != []
    ensures FromServer(rs[..|rs| - 1]) && (rs[|rs| - 1].SendType? || IsVerb(rs[|rs| - 1].verb))
  {
    assert rs[|rs| - 1] in rs;
  }

  function Rank(m: Mode): nat {
    match m case Try => 0 case On => 1 case Off => 2
  }

  /** How often a reply has been sent. */
  function Count(replies: seq<seq<Byte>>, r: seq<Byte>): nat {
    if replies == [] then 0
    else Count(replies[..|replies| - 1], r) + if replies[|replies| - 1] == r then 1 else 0
  }

  /** Of the replies, the verbs of those that are DO, DONT, WILL or WONT of an option. */
  function Verbs(replies: seq<seq<Byte>>, opt: Byte): seq<Byte> {
    if replies == [] then []
    else Verbs(replies[..|replies| - 1], opt) + VerbOf(replies[|replies| - 1], opt)
  }

  function VerbOf(reply: seq<Byte>, opt: Byte): seq<Byte> {
    if |reply| == 3 && reply[2] == opt then [reply[1]] else []
  }

  /** One more reply. */
  lemma Snoc(xs: seq<seq<Byte>>, y: seq<Byte>)
    ensures Count(xs + [y], Reply(DO, TELOPT_ECHO)) ==
            Count(xs, Reply(DO, TELOPT_ECHO)) + if y == Reply(DO, TELOPT_ECHO) then 1 else 0
    ensures Verbs(xs + [y], TELOPT_SGA) == Verbs(xs, TELOPT_SGA) + VerbOf(y, TELOPT_SGA)
  {
    assert (xs + [y])[..|xs|] == xs;
  }

  function Alternating(n: nat): seq<Byte> {
    seq(n, k => if k % 2 == 0 then DO else DONT)
  }

  lemma AlternatingNext(n: nat)
    ensures Alternating(n + 1) == Alternating(n) + [if n % 2 == 0 then DO else DONT]
  {
  }

  /** What the flags and the mode tell about all replies so far. */
  predicate Told(d: Dialogue) {
    var verbs := Verbs(d.replies, TELOPT_SGA);
    && (d.echo <==> d.mode == On)
    && Count(d.replies, Reply(DO, TELOPT_ECHO)) == (if d.mode == Try then 0 else 1)
    && verbs == Alternating(|verbs|)
    && (d.sga <==> |verbs| % 2 == 1)
  }

  /** A reply that is neither DO ECHO nor about SGA. */
  lemma Aside(d: Dialogue, y: seq<Byte>)
    requires Told(d) && (|y| != 3 || y[2] == NUL || (y[2] != TELOPT_SGA && y != Reply(DO, TELOPT_ECHO)))
    ensures Told(d.(replies := d.replies + [y]))
  {
    Snoc(d.replies, y);
  }

  lemma TypeIsToldAside(d: Dialogue, t: Terminal)
    requires Told(d)
    ensures Told(Answer(d, SendType, t))
  {
    var xs, a := d.replies, TypeReplies(t.ttype);
    Aside(d, a[0]);
    Aside(d.(replies := xs + [a[0]]), a[1]);
    Aside(d.(replies := xs + [a[0]] + [a[1]]), a[2]);
    assert xs + a == xs + [a[0]] + [a[1]] + [a[2]];
  }

  lemma OthersAreToldAside(d: Dialogue, verb: Byte, opt: Byte, t: Terminal)
    requires Told(d) && opt != TELOPT_ECHO && opt != TELOPT_SGA
    ensures Told(Answer(d, Ask(verb, opt), t))
  {
    if opt == TELOPT_NAWS {
      var first := d.replies + [Reply(WILL, opt)];
      Aside(d, Reply(WILL, opt));
      Aside(d.(replies := first), SizeReply(t.win));
      assert d.replies + [Reply(WILL, opt), SizeReply(t.win)] == first + [SizeReply(t.win)];
    } else if opt == TELOPT_TTYPE {
      Aside(d, Reply(WILL, opt));
    } else {
      Aside(d, Reply(if verb == WILL then DONT else WONT, opt));
    }
  }

  /** DO ECHO is sent exactly when the mode leaves TRY. */
  lemma EchoIsTold(d: Dialogue, verb: Byte)
    requires Told(d) && IsVerb(verb)
    ensures Told(AnswerEcho(d, verb)) && Rank(d.mode) <= Rank(AnswerEcho(d, verb).mode)
  {
    var refused := d.replies + [Reply(WONT, TELOPT_ECHO)];
    Snoc(d.replies, Reply(WONT, TELOPT_ECHO));
    Snoc(if verb == DO then refused else d.replies, Reply(if AnswerEcho(d, verb).echo then DO else DONT, TELOPT_ECHO));
  }

  lemma SgaIsTold(d: Dialogue, verb: Byte)
    requires Told(d)
    ensures Told(AnswerSga(d, verb))
  {
    hide Verbs, Count, Alternating;
    Snoc(d.replies, Reply(if d.sga then DONT else DO, TELOPT_SGA));
    AlternatingNext(|Verbs(d.replies, TELOPT_SGA)|);
  }

  lemma RequestIsTold(d: Dialogue, r: Request, t: Terminal)
    requires Told(d) && (r.SendType? || (r.Ask? && IsVerb(r.verb)))
    ensures Told(Answer(d, r, t)) && Rank(d.mode) <= Rank(Answer(d, r, t).mode)
  {
    if r.SendType? {
      TypeIsToldAside(d, t);
    } else if r.opt == TELOPT_ECHO {
      EchoIsTold(d, r.verb);
    } else if r.opt == TELOPT_SGA {
      SgaIsTold(d, r.verb);
    } else {
      OthersAreToldAside(d, r.verb, r.opt, t);
    }
  }

  lemma {:induction false} RunIsTold(rs: seq<Request>, t: Terminal)
    requires FromServer(rs)
    ensures Told(Run(START, rs, t))
  {
    if rs != [] {
      FromServerPrefix(rs);
      RunIsTold(rs[..|rs| - 1], t);
      RequestIsTold(Run(START, rs[..|rs| - 1], t), rs[|rs| - 1], t);
    }
  }

  /** The mode only moves from TRY to ON to OFF; DO ECHO is not sent before the mode leaves TRY, and only once then. */
  lemma {:induction false} OneDoEcho(rs: seq<Request>, more: seq<Request>, t: Terminal)
    requires FromServer(rs + more)
    ensures Count(Run(START, rs + more, t).replies, Reply(DO, TELOPT_ECHO)) ==
            if Run(START, rs + more, t).mode == Try then 0 else 1
    ensures Rank(Run(START, rs, t).mode) <= Rank(Run(START, rs + more, t).mode)
    decreases |more|
  {
    RunIsTold(rs + more, t);
    if more == [] {
      assert rs + more == rs;
    } else {
      var all := rs + more;
      assert all[..|all| - 1] == rs + more[..|more| - 1];
      FromServerPrefix(all);
      OneDoEcho(rs, more[..|more| - 1], t);
      RunIsTold(all[..|all| - 1], t);
      RequestIsTold(Run(START, all[..|all| - 1], t), all[|all| - 1], t);
    }
  }

  /** The replies for SGA are DO, DONT, DO, DONT and so on, and the flag is set after each DO. */
  lemma SgaRepliesAlternate(rs: seq<Request>, t: Terminal)
    requires FromServer(rs)
    ensures var d := Run(START, rs, t); var verbs := Verbs(d.replies, TELOPT_SGA);
      (d.sga <==> |verbs| % 2 == 1) && forall k :: 0 <= k < |verbs| ==> verbs[k] == if k % 2 == 0 then DO else DONT
  {
    RunIsTold(rs, t);
  }

  // ---- Acknowledgements ----

  /** The verb by which the peer agrees to DO, DONT, WILL or WONT. */
  function Agreeing(verb: Byte): Byte {
    if verb == DO then WILL else if verb == WILL then DO else if verb == DONT then WONT else DONT
  }

  /** The peer's agreeing acknowledgements of some replies, in order. */
  function Acks(replies: seq<seq<Byte>>): seq<Request> {
    if replies == [] then [] else AckOf(replies[0]) + Acks(replies[1..])
  }

  function AckOf(r: seq<Byte>): seq<Request> {
    if |r| == 3 then [Ask(Agreeing(r[1]), r[2])] else []
  }

  lemma EchoAcksAreFinal(d: Dialogue, verb: Byte, t: Terminal)
    requires IsVerb(verb) && (d.echo <==> d.mode == On)
    ensures var after := AnswerEcho(d, verb);
      Run(after, Acks(after.replies[|d.replies|..]), t) == after
  {
    var after := AnswerEcho(d, verb);
    var a := after.replies[|d.replies|..];
    var said := Reply(if after.echo then DO else DONT, TELOPT_ECHO);
    if verb == DO {
      assert a == [Reply(WONT, TELOPT_ECHO), said];
      AcksTwo(Reply(WONT, TELOPT_ECHO), said);
      RunTwo(after, [Ask(DONT, TELOPT_ECHO)], AckOf(said), t);
    } else if verb == DONT || (d.echo && verb == WILL) || (!d.echo && verb == WONT) {
      assert a == [];
    } else {
      assert a == [said];
      AcksOne(said);
      RunTwo(after, AckOf(said), [], t);
    }
  }

  lemma SgaAcksAreFinal(d: Dialogue, verb: Byte, t: Terminal)
    requires IsVerb(verb)
    ensures var after := AnswerSga(d, verb);
      Run(after, Acks(after.replies[|d.replies|..]), t) == after
  {
    var after := AnswerSga(d, verb);
    var a := after.replies[|d.replies|..];
    if a != [] {
      var said := Reply(if !d.sga then DO else DONT, TELOPT_SGA);
      assert a == [said];
      AcksOne(said);
      RunTwo(after, AckOf(said), [], t);
    }
  }

  lemma OtherAcks(d: Dialogue, verb: Byte, opt: Byte, t: Terminal)
    requires IsVerb(verb) && opt != TELOPT_ECHO && opt != TELOPT_SGA
    ensures var after := Answer(d, Ask(verb, opt), t);
      Run(after, Acks(after.replies[|d.replies|..]), t) == after <==> opt != TELOPT_TTYPE && opt != TELOPT_NAWS
  {
    var after := Answer(d, Ask(verb, opt), t);
    var a := after.replies[|d.replies|..];
    if opt == TELOPT_NAWS {
      assert a == [Reply(WILL, opt), SizeReply(t.win)];
      AcksTwo(Reply(WILL, opt), SizeReply(t.win));
      RunTwo(after, [Ask(DO, opt)], [], t);
    } else if a != [] {
      var said := Reply(if opt == TELOPT_TTYPE then WILL else if verb == WILL then DONT else WONT, opt);
      assert a == [said];
      AcksOne(said);
      RunTwo(after, AckOf(said), [], t);
    }
  }

  /** Whatever has been negotiated before: the acknowledgements of the replies to one request draw no further
      reply exactly if the option is neither TTYPE nor NAWS, of which each DO is answered by another WILL. */
  lemma AcksAreFinal(d: Dialogue, verb: Byte, opt: Byte, t: Terminal)
    requires IsVerb(verb) && (d.echo <==> d.mode == On)
    ensures var after := Answer(d, Ask(verb, opt), t);
      Run(after, Acks(after.replies[|d.replies|..]), t) == after <==> opt != TELOPT_TTYPE && opt != TELOPT_NAWS
  {
    if opt == TELOPT_ECHO {
      EchoAcksAreFinal(d, verb, t);
    } else if opt == TELOPT_SGA {
      SgaAcksAreFinal(d, verb, t);
    } else {
      OtherAcks(d, verb, opt, t);
    }
  }

  lemma AcksOne(r: seq<Byte>)
    ensures Acks([r]) == AckOf(r) + []
  {
    assert Acks([r][1..]) == [];
  }

  lemma AcksTwo(r: seq<Byte>, s: seq<Byte>)
    ensures Acks([r, s]) == AckOf(r) + AckOf(s)
  {
    AcksOne(s);
    assert [r, s][1..] == [s];
  }

  lemma RunTwo(d: Dialogue, rs: seq<Request>, ss: seq<Request>, t: Terminal)
    requires |rs| <= 1 && |ss| <= 1
    ensures var mid := if rs == [] then d else Answer(d, rs[0], t);
      Run(d, rs + ss, t) == if ss == [] then mid else Answer(mid, ss[0], t)
  {
    assert Run(d, [], t) == d;
    assert rs != [] ==> rs[..0] == [] && Run(d, rs, t) == Answer(d, rs[0], t);
    if ss == [] {
      assert rs + ss == rs;
    } else {
      assert (rs + ss)[..|rs|] == rs;
    }
  }
}

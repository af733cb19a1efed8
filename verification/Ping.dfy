/** ping's state, updated in place: the bit table, the counters and the timing fields of pinger, pr_pack
    and tvsub, each proved against the specification functions of PingStats. */
module Ping {
  import opened Bytes
  import opened InternetChecksum
  import S = PingStats

  // ---- The macros A, B, SET, CLR and TST ----

  function Mask(bit: nat): bv8 {
    1 << (bit % 8)
  }

  predicate Tst(tbl: seq<bv8>, bit: nat)
    requires bit / 8 < |tbl|
  {
    tbl[bit / 8] & Mask(bit) != 0
  }

  lemma MaskIsOneBit(b: bv8, j: nat, k: nat)
    requires j < 8 && k < 8
    ensures (b | (1 << j)) & (1 << k) != 0 <==> j == k || b & (1 << k) != 0
    ensures (b & !(1 << j)) & (1 << k) != 0 <==> j != k && b & (1 << k) != 0
  {
    if j == 0 {} else if j == 1 {} else if j == 2 {} else if j == 3 {}
    else if j == 4 {} else if j == 5 {} else if j == 6 {} else {}
  }

  lemma ByteAfter(b: bv8, bit: nat, k: nat)
    ensures (b | Mask(bit)) & Mask(k) != 0 <==> bit % 8 == k % 8 || b & Mask(k) != 0
    ensures (b & !Mask(bit)) & Mask(k) != 0 <==> bit % 8 != k % 8 && b & Mask(k) != 0
  {
    MaskIsOneBit(b, bit % 8, k % 8);
  }

  /** A byte of the table is replaced by one that differs at most in one bit, which is then `on`. */
  lemma TableAfter(tbl: seq<bv8>, bit: nat, k: nat, v: bv8, on: bool)
    requires |tbl| == S.MAX_DUP_CHK / 8 && bit < S.MAX_DUP_CHK && k < S.MAX_DUP_CHK
    requires v & Mask(k) != 0 <==> if bit % 8 == k % 8 then on else tbl[bit / 8] & Mask(k) != 0
    ensures Tst(tbl[bit / 8 := v], k) <==> if k == bit then on else Tst(tbl, k)
  {
    var i, j := bit / 8, k / 8;
    if i == j {
      assert k == bit <==> k % 8 == bit % 8;
    } else {
      assert tbl[i := v][j] == tbl[j];
    }
  }

  lemma SetKeeps(tbl: seq<bv8>, bit: nat, k: nat, v: bv8)
    requires |tbl| == S.MAX_DUP_CHK / 8 && bit < S.MAX_DUP_CHK && k < S.MAX_DUP_CHK
    requires v == tbl[bit / 8] | Mask(bit)
    ensures Tst(tbl[bit / 8 := v], k) <==> k == bit || Tst(tbl, k)
  {
    ByteAfter(tbl[bit / 8], bit, k);
    TableAfter(tbl, bit, k, v, true);
  }

  lemma ClrKeeps(tbl: seq<bv8>, bit: nat, k: nat, v: bv8)
    requires |tbl| == S.MAX_DUP_CHK / 8 && bit < S.MAX_DUP_CHK && k < S.MAX_DUP_CHK
    requires v == tbl[bit / 8] & !Mask(bit)
    ensures Tst(tbl[bit / 8 := v], k) <==> k != bit && Tst(tbl, k)
  {
    ByteAfter(tbl[bit / 8], bit, k);
    TableAfter(tbl, bit, k, v, false);
  }

  /** The positions of the 1 bits. */
  ghost function Marked(tbl: seq<bv8>): set<nat>
    requires |tbl| == S.MAX_DUP_CHK / 8
  {
    set bit | 0 <= bit < S.MAX_DUP_CHK && Tst(tbl, bit)
  }

  /** SET adds its bit to the marked ones and touches no other bit. */
  lemma SetMarks(tbl: seq<bv8>, bit: nat)
    requires |tbl| == S.MAX_DUP_CHK / 8 && bit < S.MAX_DUP_CHK
    ensures Marked(tbl[bit / 8 := tbl[bit / 8] | Mask(bit)]) == Marked(tbl) + {bit}
  {
    var v := tbl[bit / 8] | Mask(bit);
    forall k: nat | k < S.MAX_DUP_CHK
      ensures Tst(tbl[bit / 8 := v], k) <==> k == bit || Tst(tbl, k)
    {
      SetKeeps(tbl, bit, k, v);
    }
  }

  /** CLR removes its bit and touches no other bit. */
  lemma ClrMarks(tbl: seq<bv8>, bit: nat)
    requires |tbl| == S.MAX_DUP_CHK / 8 && bit < S.MAX_DUP_CHK
    ensures Marked(tbl[bit / 8 := tbl[bit / 8] & !Mask(bit)]) == Marked(tbl) - {bit}
  {
    var v := tbl[bit / 8] & !Mask(bit);
    forall k: nat | k < S.MAX_DUP_CHK
      ensures Tst(tbl[bit / 8 := v], k) <==> k != bit && Tst(tbl, k)
    {
      ClrKeeps(tbl, bit, k, v);
    }
  }

  // ---- Time ----

  const MILLION: int := 1_000_000

  /** A struct timeval. */
  class Timeval {
    var sec: int
    var usec: int

    constructor (sec: int, usec: int)
      ensures this.sec == sec && this.usec == usec
    {
      this.sec, this.usec := sec, usec;
    }

    ghost function Micros(): int
      reads this
    {
      MILLION * sec + usec
    }

    predicate Normal()
      reads this
    {
      0 <= usec < MILLION
    }
  }

  /** Exact on every input; between normalised times the result is normalised as well. */
  method TvSub(out: Timeval, earlier: Timeval)
    requires out != earlier
    modifies out
    ensures out.Micros() == old(out.Micros()) - earlier.Micros()
    ensures out.usec == old(out.usec) - earlier.usec + if old(out.usec) < earlier.usec then MILLION else 0
    ensures old(out.Normal()) && earlier.Normal() ==> out.Normal()
  {
    out.usec := out.usec - earlier.usec;
    if out.usec < 0 {
      out.sec := out.sec - 1;
      out.usec := out.usec + MILLION;
    }
    out.sec := out.sec - earlier.sec;
  }

  /** C's division, which truncates toward zero. */
  function Quot(a: int, b: int): int
    requires b > 0
  {
    if a >= 0 then a / b else -(-a / b)
  }

  /** The trip time of a reply in tenths of a millisecond, between arbitrary times. */
  function Trip(sec: int, usec: int, fromSec: int, fromUsec: int): (t: int)
    ensures -100 < MILLION * (sec - fromSec) + (usec - fromUsec) - 100 * t < 100
    ensures usec >= fromUsec - MILLION ==> t == (MILLION * (sec - fromSec) + (usec - fromUsec)) / 100
  {
    var borrow := if usec < fromUsec then 1 else 0;
    var t := (sec - borrow - fromSec) * 10000 + Quot(usec - fromUsec + borrow * MILLION, 100);
    assert usec >= fromUsec - MILLION ==>
        MILLION * (sec - fromSec) + (usec - fromUsec) ==
        100 * ((sec - borrow - fromSec) * 10000) + (usec - fromUsec + borrow * MILLION);
    t
  }

  /** In particular, between normalised times, the difference in whole tenths of a millisecond, rounded down. */
  method TripTime(received: Timeval, sent: Timeval) returns (triptime: int)
    requires received != sent
    modifies received
    ensures triptime == Trip(old(received.sec), old(received.usec), sent.sec, sent.usec)
    ensures old(received.Normal()) && sent.Normal() ==> triptime == (old(received.Micros()) - sent.Micros()) / 100
  {
    TvSub(received, sent);
    triptime := received.sec * 10000 + Quot(received.usec, 100);
  }

  // ---- The program's globals ----

  const ICMP_ECHO: Byte := 8
  const ICMP_ECHOREPLY: Byte := 0
  const ICMP_MINLEN: nat := 8
  const TIMEVAL_SIZE: nat := 16

  /** What pr_pack looks at in a received packet: the IP header length field, the number of bytes received,
      the ICMP type, identifier and sequence number, and the time stamp in the payload. */
  datatype Packet = Packet(ipHl: nat, len: nat, icmpType: Byte, icmpId: nat, icmpSeq: Word, sec: int, usec: int)

  /** What of the receive buffer, in which len bytes have arrived, pr_pack looks at; an IP header is at most 60 bytes
      long.  The time stamp is that in the payload. */
  function Seen(h: Host, inpack: seq<Byte>, len: nat, sec: int, usec: int): Packet
    requires |inpack| >= 60 + ICMP_MINLEN
  {
    var ipHl := inpack[0] % 16;
    var icmp := inpack[4 * ipHl..];
    Packet(ipHl, len, icmp[0], Load(h, icmp[4], icmp[5]), Load(h, icmp[6], icmp[7]), sec, usec)
  }

  /** How a host answers an echo request (RFC 792, "Echo or Echo Reply Message"): its type is changed and its checksum
      computed anew, all else is returned. */
  function EchoOf(h: Host, request: seq<Byte>): (reply: seq<Byte>)
    requires |request| >= ICMP_MINLEN
    ensures |reply| == |request|
  {
    Fill(h, [ICMP_ECHOREPLY, request[1], 0, 0] + request[4..])
  }

  lemma LoadedIs(h: Host, bytes: seq<Byte>, w: Word)
    requires |bytes| == 2
    ensures Load(h, bytes[0], bytes[1]) == w <==> bytes == Store(h, w)
  {
    assert Load(h, Store(h, w)[0], Store(h, w)[1]) == w;
  }

  class Ping {
    const host: Host
    const ident: Word
    const datalen: nat
    const timing: bool
    const rcvdTbl: array<bv8>
    const outpack: array<Byte>
    var ntransmitted: nat
    var nreceived: int
    var nrepeats: nat
    var tmin: int
    var tmax: int
    var tsum: nat

    ghost predicate Valid()
      reads this
    {
      rcvdTbl.Length == S.MAX_DUP_CHK / 8 &&
      0 < datalen <= MAXPACKET && outpack.Length == 65535 && (timing ==> datalen >= TIMEVAL_SIZE)
    }

    /** The counters, with the table as the set of its 1 bits. */
    ghost function Stats(): S.Stats
      requires Valid()
      reads this, rcvdTbl
    {
      S.Stats(ntransmitted, nreceived, nrepeats, Marked(rcvdTbl[..]), tmin, tmax, tsum)
    }

    constructor (host: Host, ident: Word, datalen: nat)
      requires 0 < datalen <= MAXPACKET
      ensures Valid() && Stats() == S.START && fresh(rcvdTbl) && fresh(outpack)
    {
      this.host, this.ident, this.datalen := host, ident, datalen;
      timing := datalen >= TIMEVAL_SIZE;
      rcvdTbl := new bv8[S.MAX_DUP_CHK / 8](_ => 0);
      outpack := new Byte[65535](_ => 0);
      ntransmitted, nreceived, nrepeats := 0, 0, 0;
      tmin, tmax, tsum := S.LONG_MAX, 0, 0;
    }

    method Set(bit: nat)
      requires Valid() && bit < S.MAX_DUP_CHK
      modifies rcvdTbl
      ensures Marked(rcvdTbl[..]) == Marked(old(rcvdTbl[..])) + {bit}
    {
      SetMarks(rcvdTbl[..], bit);
      rcvdTbl[bit / 8] := rcvdTbl[bit / 8] | Mask(bit);
    }

    method Clr(bit: nat)
      requires Valid() && bit < S.MAX_DUP_CHK
      modifies rcvdTbl
      ensures Marked(rcvdTbl[..]) == Marked(old(rcvdTbl[..])) - {bit}
    {
      ClrMarks(rcvdTbl[..], bit);
      rcvdTbl[bit / 8] := rcvdTbl[bit / 8] & !Mask(bit);
    }

    method PutWord(at: nat, w: Word)
      requires at + 1 < outpack.Length
      modifies outpack
      ensures outpack[..] == old(outpack[..])[at := Store(host, w)[0]][at + 1 := Store(host, w)[1]]
    {
      outpack[at] := Store(host, w)[0];
      outpack[at + 1] := Store(host, w)[1];
    }

    /** Composes the next request in outpack; `stamp` is what gettimeofday() writes.  The request carries
        the next sequence number and its checksum verifies. */
    method Pinger(stamp: seq<Byte>) returns (cc: nat)
      requires Valid() && |stamp| == TIMEVAL_SIZE
      modifies this`ntransmitted, rcvdTbl, outpack
      ensures Valid() && Stats() == S.Sent(old(Stats()))
      ensures cc == datalen + 8 <= outpack.Length
      ensures Checksum(host, outpack[..cc]) == 0
      ensures outpack[0] == ICMP_ECHO && outpack[1] == 0
      ensures outpack[4..6] == Store(host, ident)
      ensures outpack[6..8] == Store(host, S.IcmpSeq(old(ntransmitted)))
      ensures timing ==> outpack[8..8 + TIMEVAL_SIZE] == stamp
    {
      hide Checksum;
      var icmpSeq := ntransmitted % 0x1_0000;
      ntransmitted := ntransmitted + 1;
      Clr(icmpSeq % S.MAX_DUP_CHK);
      cc := datalen + 8;
      ComposeHeader(icmpSeq, stamp);
      var cksum := InCksum(host, outpack, cc);
      ghost var zeroed := outpack[..cc];
      PutWord(2, cksum);
      assert outpack[..cc] == Fill(host, zeroed);
      FilledPacketVerifies(host, zeroed);
    }

    method ComposeHeader(icmpSeq: Word, stamp: seq<Byte>)
      requires Valid() && |stamp| == TIMEVAL_SIZE
      modifies outpack
      ensures outpack[0] == ICMP_ECHO && outpack[1] == 0 && outpack[2] == 0 && outpack[3] == 0
      ensures outpack[4..6] == Store(host, ident) && outpack[6..8] == Store(host, icmpSeq)
      ensures timing ==> outpack[8..8 + TIMEVAL_SIZE] == stamp
    {
      outpack[0], outpack[1] := ICMP_ECHO, 0;
      outpack[2], outpack[3] := 0, 0;
      PutWord(6, icmpSeq);
      PutWord(4, ident);
      if timing {
        forall i | 0 <= i < TIMEVAL_SIZE {
          outpack[8 + i] := stamp[i];
        }
        assert outpack[8..8 + TIMEVAL_SIZE] == stamp;
      }
    }

    /** The checks pr_pack makes before it counts a packet. */
    predicate Accepts(p: Packet) {
      && 4 * p.ipHl >= 20
      && 4 * p.ipHl <= p.len
      && p.len - 4 * p.ipHl >= ICMP_MINLEN + datalen
      && p.icmpType == ICMP_ECHOREPLY
      && p.icmpId == ident
    }

    /** Among the packets that arrive, those accepted are whole echo replies with all the data of a request and with
        ping's own identifier, behind a whole IP header. */
    lemma AcceptedExactly(inpack: seq<Byte>, len: nat, sec: int, usec: int)
      requires 60 + ICMP_MINLEN <= |inpack| && len <= |inpack|
      ensures Accepts(Seen(host, inpack, len, sec, usec)) <==>
        exists ip: seq<Byte>, icmp: seq<Byte> ::
          && inpack[..len] == ip + icmp
          && |ip| == 4 * (inpack[0] % 16) >= 20
          && |icmp| >= ICMP_MINLEN + datalen
          && icmp[0] == ICMP_ECHOREPLY && icmp[4..6] == Store(host, ident)
    {
      var hlen, arrived := 4 * (inpack[0] % 16), inpack[..len];
      LoadedIs(host, inpack[hlen..][4..6], ident);
      if hlen + ICMP_MINLEN + datalen <= len {
        var ip, icmp := arrived[..hlen], arrived[hlen..];
        assert arrived == ip + icmp;
        assert icmp[0] == inpack[hlen..][0] && icmp[4..6] == inpack[hlen..][4..6];
        assert forall a, b :: arrived == a + b && |a| == hlen ==> b == arrived[hlen..];
      }
    }

    /** The reply to a request with data as long as ping's is counted, with the request's sequence number, exactly if
        the request has ping's identifier.  Of those pinger sends each has; those of other programs have not. */
    lemma EchoIsAccepted(ip: seq<Byte>, request: seq<Byte>, id: Word, icmpSeq: Word, stale: seq<Byte>,
                         sec: int, usec: int)
      requires |ip| >= 20 && |ip| == 4 * (ip[0] % 16)
      requires |request| >= ICMP_MINLEN + datalen
      requires request[4..6] == Store(host, id) && request[6..8] == Store(host, icmpSeq)
      requires |ip + EchoOf(host, request) + stale| >= 60 + ICMP_MINLEN
      ensures var seen := Seen(host, ip + EchoOf(host, request) + stale, |ip + request|, sec, usec);
        (Accepts(seen) <==> id == ident) && seen.icmpSeq == icmpSeq
    {
      var reply := EchoOf(host, request);
      var inpack := ip + reply + stale;
      assert inpack[|ip|..] == reply + stale;
      assert forall i :: 4 <= i < 8 ==> (reply + stale)[i] == request[i];
      assert request[4] == request[4..6][0] && request[5] == request[4..6][1];
      assert request[6] == request[6..8][0] && request[7] == request[6..8][1];
    }

    /** Counts a reply; every packet that is not an acceptable reply leaves the statistics as they are. */
    method PrPack(p: Packet, now: Timeval) returns (dupflag: bool, triptime: int)
      requires Valid()
      modifies this`nreceived, this`nrepeats, this`tmin, this`tmax, this`tsum, rcvdTbl, now
      ensures Valid()
      ensures !Accepts(p) ==> Stats() == old(Stats()) && !dupflag
      ensures Accepts(p) ==> Stats() == S.Received(old(Stats()), p.icmpSeq, if timing then Some(triptime) else None)
      ensures Accepts(p) ==> (dupflag <==> S.Slot(p.icmpSeq) in old(Stats()).marked)
      ensures Accepts(p) && timing ==> triptime == Trip(old(now.sec), old(now.usec), p.sec, p.usec)
    {
      dupflag, triptime := false, 0;
      var hlen := p.ipHl * 4;
      if hlen < 20 || hlen > p.len {
        return;
      }
      var packlen := p.len - hlen;
      if packlen < ICMP_MINLEN + datalen {
        return;
      }
      if p.icmpType == ICMP_ECHOREPLY {
        if p.icmpId != ident {
          return;
        }
        nreceived := nreceived + 1;
        if timing {
          var tp := new Timeval(p.sec, p.usec);
          triptime := TripTime(now, tp);
          tsum := (tsum + triptime) % S.ULONG;
          if triptime < tmin {
            tmin := triptime;
          }
          if triptime > tmax {
            tmax := triptime;
          }
        }
        if Tst(rcvdTbl[..], p.icmpSeq % S.MAX_DUP_CHK) {
          nrepeats := nrepeats + 1;
          nreceived := nreceived - 1;
          dupflag := true;
        } else {
          Set(p.icmpSeq % S.MAX_DUP_CHK);
        }
      }
    }

    /** What an action is to the statistics, if an accepted reply answers request k. */
    function EventOf(a: Action, k: nat): seq<S.Event> {
      match a
      case Request(_) => [S.Send]
      case Arrival(p, sec, usec) =>
        if Accepts(p) then [S.Reply(k, if timing then Some(Trip(sec, usec, p.sec, p.usec)) else None)] else []
    }

    function Events(actions: seq<Action>, ks: seq<nat>): seq<S.Event>
      requires |ks| == |actions|
    {
      if actions == [] then []
      else
        var n := |actions| - 1;
        Events(actions[..n], ks[..n]) + EventOf(actions[n], ks[n])
    }

    /** The reply that arrives in an action carries the sequence number of request k.  Every one does, for some
        k, its sequence number for instance. */
    predicate Carries(a: Action, k: nat) {
      match a
      case Request(stamp) => |stamp| == TIMEVAL_SIZE
      case Arrival(p, _, _) => Accepts(p) ==> p.icmpSeq == S.IcmpSeq(k)
    }

    /** The statistics after any sequence of requests sent and packets received are those of its run of events,
        in which each accepted reply answers any request whose sequence number it carries.  If those requests
        have all been sent before, the loss that finish() prints is a percentage, and if each came in time, it is the
        share of those that no reply has answered. */
    method Run(actions: seq<Action>, ghost ks: seq<nat>)
      requires Valid() && Stats() == S.START
      requires |ks| == |actions| && forall i :: 0 <= i < |actions| ==> Carries(actions[i], ks[i])
      modifies this, rcvdTbl, outpack
      ensures Valid() && Stats() == S.After(Events(actions, ks))
      ensures S.Honest(Events(actions, ks)) ==> 0 <= nreceived <= ntransmitted
      ensures S.Honest(Events(actions, ks)) && ntransmitted > 0 ==> 0 <= S.Loss(Stats()) <= 100
      ensures S.Timely(Events(actions, ks)) && ntransmitted > 0 ==>
                S.IsShare(Stats(), |S.Unheard(Events(actions, ks))|)
    {
      for i := 0 to |actions|
        invariant Valid() && Stats() == S.After(Events(actions[..i], ks[..i]))
      {
        assert actions[..i + 1][..i] == actions[..i] && ks[..i + 1][..i] == ks[..i];
        Act(actions[i], ks[i], Events(actions[..i], ks[..i]));
      }
      assert actions[..|actions|] == actions && ks[..|actions|] == ks;
      ghost var run := Events(actions, ks);
      if S.Honest(run) {
        S.CountIsBounded(run);
        if ntransmitted > 0 {
          S.LossIsAPercentage(run);
        }
      }
      if S.Timely(run) && ntransmitted > 0 {
        S.LossIsUnheard(run);
      }
    }

    method Act(a: Action, ghost k: nat, ghost past: seq<S.Event>)
      requires Valid() && Stats() == S.After(past) && Carries(a, k)
      modifies this, rcvdTbl, outpack
      ensures Valid() && Stats() == S.After(past + EventOf(a, k))
    {
      assert past + [] == past;
      match a
      case Request(stamp) =>
        S.AfterSnoc(past, S.Send);
        var cc := Pinger(stamp);
      case Arrival(p, sec, usec) =>
        var now := new Timeval(sec, usec);
        var dupflag, triptime := PrPack(p, now);
        if Accepts(p) {
          S.AfterSnoc(past, S.Reply(k, if timing then Some(triptime) else None));
        }
    }
  }

  /** What happens to ping: the timer expires, or a packet arrives at some time. */
  datatype Action = Request(stamp: seq<Byte>) | Arrival(packet: Packet, sec: int, usec: int)
}

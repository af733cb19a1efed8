/** What ping counts: the duplicate table, the packet counters and the round-trip statistics, as
    specification functions over runs of sent requests and accepted replies. */
module PingStats {
  import opened Bytes

  const MAX_DUP_CHK: nat := 8 * 128
  const LONG_MAX: int := 0x7FFF_FFFF_FFFF_FFFF
  const ULONG: int := 0x1_0000_0000_0000_0000

  /** `marked` is the set of table bits that are 1. */
  datatype Stats = Stats(sent: nat, received: int, repeats: nat, marked: set<nat>, tmin: int, tmax: int, tsum: nat)

  const START := Stats(0, 0, 0, {}, LONG_MAX, 0, 0)

  /** The 16-bit sequence number of request k, and the table bit a sequence number selects. */
  function IcmpSeq(k: nat): nat {
    k % 0x1_0000
  }

  function Slot(icmpSeq: nat): nat {
    icmpSeq % MAX_DUP_CHK
  }

  /** pinger */
  function Sent(s: Stats): Stats {
    s.(sent := s.sent + 1, marked := s.marked - {Slot(IcmpSeq(s.sent))})
  }

  /** pr_pack on a reply that is accepted; its trip time is in tenths of a millisecond, or None when the
      packets are too small to carry a time stamp. */
  function Received(s: Stats, icmpSeq: nat, triptime: Option<int>): Stats {
    var t := if triptime.None? then s else Timed(s, triptime.value);
    if Slot(icmpSeq) in s.marked then t.(repeats := s.repeats + 1)
    else t.(received := s.received + 1, marked := s.marked + {Slot(icmpSeq)})
  }

  function Timed(s: Stats, triptime: int): Stats {
    s.(tsum := (s.tsum + triptime) % ULONG,
       tmin := if triptime < s.tmin then triptime else s.tmin,
       tmax := if triptime > s.tmax then triptime else s.tmax)
  }

  /** A reply carries the sequence number of request k. */
  datatype Event = Send | Reply(k: nat, triptime: Option<int>)

  function Step(s: Stats, e: Event): Stats {
    match e
    case Send => Sent(s)
    case Reply(k, triptime) => Received(s, IcmpSeq(k), triptime)
  }

  /** The state after a run. */
  function After(run: seq<Event>): Stats {
    if run == [] then START else Step(After(run[..|run| - 1]), run[|run| - 1])
  }

  /** Every reply answers a request that was sent before it, however long ago and however often. */
  ghost predicate Honest(run: seq<Event>) {
    run == [] ||
    var init, last := run[..|run| - 1], run[|run| - 1];
    Honest(init) && (last.Reply? ==> last.k < After(init).sent)
  }

  /** Every reply arrives before the bit of its request is used for another request. */
  ghost predicate Timely(run: seq<Event>) {
    run == [] ||
    var init, last := run[..|run| - 1], run[|run| - 1];
    Timely(init) && (last.Reply? ==> After(init).sent - MAX_DUP_CHK <= last.k < After(init).sent)
  }

  lemma {:induction false} HonestAt(run: seq<Event>, i: nat)
    requires Honest(run) && i < |run| && run[i].Reply?
    ensures run[i].k < After(run[..i]).sent
  {
    if i < |run| - 1 {
      HonestAt(run[..|run| - 1], i);
      assert run[..|run| - 1][..i] == run[..i];
    }
  }

  /** One more event of a run. */
  lemma AfterSnoc(run: seq<Event>, e: Event)
    ensures After(run + [e]) == Step(After(run), e)
  {
    assert (run + [e])[..|run|] == run;
  }

  lemma SlotOfSeq(k: nat)
    ensures Slot(IcmpSeq(k)) == k % MAX_DUP_CHK
  {
    assert k == 0x1_0000 * (k / 0x1_0000) + k % 0x1_0000;
    assert 0x1_0000 * (k / 0x1_0000) == MAX_DUP_CHK * (64 * (k / 0x1_0000));
    AddMultiple(k % 0x1_0000, 64 * (k / 0x1_0000));
  }

  lemma {:induction false} AddMultiple(a: nat, q: nat)
    ensures (MAX_DUP_CHK * q + a) % MAX_DUP_CHK == a % MAX_DUP_CHK
  {
    if q > 0 {
      AddMultiple(a, q - 1);
      assert MAX_DUP_CHK * q + a == MAX_DUP_CHK * (q - 1) + a + MAX_DUP_CHK;
    }
  }

  // ---- The printed loss is a percentage ----

  /** The table bits of requests sent so far that are 0. */
  ghost function Unanswered(s: Stats): set<nat> {
    set i | 0 <= i < MAX_DUP_CHK && i < s.sent && i !in s.marked
  }

  /** Replies counted so far plus the bits still to be answered never exceed the requests sent. */
  ghost predicate Bounded(s: Stats) {
    0 <= s.received && s.received + |Unanswered(s)| <= s.sent &&
    forall i :: i in s.marked ==> i < MAX_DUP_CHK && i < s.sent
  }

  lemma SentKeepsBounded(s: Stats)
    requires Bounded(s)
    ensures Bounded(Sent(s))
  {
    SlotOfSeq(s.sent);
    var slot := Slot(IcmpSeq(s.sent));
    assert slot <= s.sent;
    assert Unanswered(Sent(s)) == Unanswered(s) + {slot};
  }

  lemma SlotIsAtMost(k: nat)
    ensures Slot(IcmpSeq(k)) < MAX_DUP_CHK && Slot(IcmpSeq(k)) <= k
  {
    SlotOfSeq(k);
  }

  lemma MarkKeepsBounded(s: Stats, t: Stats, slot: nat)
    requires Bounded(s) && slot < MAX_DUP_CHK && slot < s.sent && slot !in s.marked
    requires t.sent == s.sent && t.received == s.received + 1 && t.marked == s.marked + {slot}
    ensures Bounded(t)
  {
    assert slot in Unanswered(s);
    assert Unanswered(t) == Unanswered(s) - {slot};
  }

  lemma RepeatKeepsBounded(s: Stats, t: Stats)
    requires Bounded(s) && t.sent == s.sent && t.received == s.received && t.marked == s.marked
    ensures Bounded(t)
  {
    assert Unanswered(t) == Unanswered(s);
  }

  lemma ReceivedKeepsBounded(s: Stats, k: nat, triptime: Option<int>)
    requires Bounded(s) && k < s.sent
    ensures Bounded(Received(s, IcmpSeq(k), triptime))
  {
    SlotIsAtMost(k);
    var slot := Slot(IcmpSeq(k));
    var t := Received(s, IcmpSeq(k), triptime);
    if slot in s.marked {
      RepeatKeepsBounded(s, t);
    } else {
      MarkKeepsBounded(s, t, slot);
    }
  }

  lemma {:induction false} CountIsBounded(run: seq<Event>)
    requires Honest(run)
    ensures Bounded(After(run))
  {
    if run == [] {
      assert Unanswered(START) == {};
    } else {
      CountIsBounded(run[..|run| - 1]);
      match run[|run| - 1]
      case Send => SentKeepsBounded(After(run[..|run| - 1]));
      case Reply(k, triptime) => ReceivedKeepsBounded(After(run[..|run| - 1]), k, triptime);
    }
  }

  /** finish(): the loss it prints, unless more was received than sent. */
  function Loss(s: Stats): int
    requires s.sent > 0
  {
    (s.sent - s.received) * 100 / s.sent
  }

  lemma LossBounds(s: Stats)
    requires s.sent > 0 && 0 <= s.received <= s.sent
    ensures 0 <= Loss(s) <= 100
  {
    Quotient((s.sent - s.received) * 100, s.sent, 0, 100);
  }

  lemma LossIsAPercentage(run: seq<Event>)
    requires Honest(run) && After(run).sent > 0
    ensures 0 <= After(run).received <= After(run).sent && 0 <= Loss(After(run)) <= 100
  {
    CountIsBounded(run);
    LossBounds(After(run));
  }

  /** Honesty is needed: one reply to a request never sent makes ping count more than it sent. */
  lemma ForgedReplyOvercounts()
    ensures var run := [Send, Reply(0, None), Reply(5, None)];
      !Honest(run) && After(run).received > After(run).sent
  {
    var run := [Send, Reply(0, None), Reply(5, None)];
    assert run[..2] == [Send, Reply(0, None)];
    assert run[..2][..1] == [Send];
    assert [Send][..0] == [];
    assert run[2].Reply? && After(run[..2]).sent == 1;
  }

  // ---- The table decides duplicates exactly ----

  /** The requests answered in a run. */
  ghost function Answered(run: seq<Event>): set<nat> {
    set i | 0 <= i < |run| && run[i].Reply? :: run[i].k
  }

  function Replies(run: seq<Event>): nat {
    if run == [] then 0
    else Replies(run[..|run| - 1]) + if run[|run| - 1].Reply? then 1 else 0
  }

  lemma AnsweredSnoc(run: seq<Event>)
    requires run != []
    ensures var last := run[|run| - 1];
      Answered(run) == Answered(run[..|run| - 1]) + if last.Reply? then {last.k} else {}
  {
    var init, last := run[..|run| - 1], run[|run| - 1];
    forall k | k in Answered(init)
      ensures k in Answered(run)
    {
      var i :| 0 <= i < |init| && init[i].Reply? && init[i].k == k;
      assert run[i] == init[i];
    }
  }

  lemma NeighboursDiffer(a: nat, b: nat)
    requires a < b < a + MAX_DUP_CHK
    ensures a % MAX_DUP_CHK != b % MAX_DUP_CHK
  {
  }

  /** The bits of the last 1024 requests say which of them are in `got`. */
  ghost predicate TableIs(s: Stats, got: set<nat>) {
    (forall k :: 0 <= k < s.sent && s.sent - MAX_DUP_CHK <= k ==> (k % MAX_DUP_CHK in s.marked <==> k in got)) &&
    (forall k :: k in got ==> k < s.sent)
  }

  lemma SentKeepsTable(s: Stats, got: set<nat>)
    requires TableIs(s, got)
    ensures TableIs(Sent(s), got)
  {
    SlotOfSeq(s.sent);
    var s' := Sent(s);
    forall k | 0 <= k < s'.sent && s'.sent - MAX_DUP_CHK <= k
      ensures k % MAX_DUP_CHK in s'.marked <==> k in got
    {
      if k < s.sent {
        NeighboursDiffer(k, s.sent);
      }
    }
  }

  lemma ReceivedKeepsTable(s: Stats, got: set<nat>, r: nat, triptime: Option<int>)
    requires TableIs(s, got) && s.sent - MAX_DUP_CHK <= r < s.sent
    ensures TableIs(Received(s, IcmpSeq(r), triptime), got + {r})
    ensures Slot(IcmpSeq(r)) in s.marked <==> r in got
  {
    SlotOfSeq(r);
    var s' := Received(s, IcmpSeq(r), triptime);
    forall k | 0 <= k < s.sent && s.sent - MAX_DUP_CHK <= k
      ensures k % MAX_DUP_CHK in s'.marked <==> k in got + {r}
    {
      if k < r {
        NeighboursDiffer(k, r);
      } else if r < k {
        NeighboursDiffer(r, k);
      }
    }
  }

  /** In a timely run the table is the set of answered requests, and the counters count the answered
      requests and the surplus replies. */
  lemma {:induction false} TableIsAnsweredSet(run: seq<Event>)
    requires Timely(run)
    ensures TableIs(After(run), Answered(run))
    ensures After(run).received == |Answered(run)|
    ensures After(run).repeats == Replies(run) - |Answered(run)|
  {
    if run != [] {
      var init := run[..|run| - 1];
      TableIsAnsweredSet(init);
      AnsweredSnoc(run);
      match run[|run| - 1]
      case Send => SentKeepsTable(After(init), Answered(init));
      case Reply(r, triptime) => ReceivedKeepsTable(After(init), Answered(init), r, triptime);
    }
  }

  /** A timely reply is flagged as a duplicate exactly when its request was answered before. */
  lemma DuplicateFlagIsExact(run: seq<Event>, k: nat, triptime: Option<int>)
    requires Timely(run + [Reply(k, triptime)])
    ensures Slot(IcmpSeq(k)) in After(run).marked <==> k in Answered(run)
  {
    var all := run + [Reply(k, triptime)];
    assert all[|run|] == Reply(k, triptime) && all[..|run|] == run == all[..|all| - 1];
    TableIsAnsweredSet(run);
    ReceivedKeepsTable(After(run), Answered(run), k, triptime);
  }

  // ---- What the table says in every run ----

  /** Event j is the sending, event i a reply, that selects table bit b. */
  ghost predicate SendsOn(run: seq<Event>, j: nat, b: nat) {
    j < |run| && run[j].Send? && After(run[..j]).sent % MAX_DUP_CHK == b
  }

  ghost predicate RepliesOn(run: seq<Event>, i: nat, b: nat) {
    i < |run| && run[i].Reply? && run[i].k % MAX_DUP_CHK == b
  }

  /** A reply on the bit after which no request has used it again. */
  ghost predicate Stands(run: seq<Event>, i: nat, b: nat) {
    RepliesOn(run, i, b) && forall j: nat :: i < j < |run| ==> !SendsOn(run, j, b)
  }

  lemma StandsSnoc(run: seq<Event>, i: nat, b: nat)
    requires run != [] && i < |run| - 1
    ensures Stands(run, i, b) <==> Stands(run[..|run| - 1], i, b) && !SendsOn(run, |run| - 1, b)
  {
    var init := run[..|run| - 1];
    assert forall j: nat :: j < |init| ==> init[j] == run[j] && init[..j] == run[..j];
    forall j | 0 <= j < |init|
      ensures SendsOn(init, j, b) <==> SendsOn(run, j, b)
    {
      assert init[..j] == run[..j];
    }
  }

  /** In every run, a bit is 1 exactly if some reply has set it and no later request has cleared it. */
  lemma {:induction false} MarkedExactly(run: seq<Event>, b: nat)
    requires b < MAX_DUP_CHK
    ensures b in After(run).marked <==> exists i: nat :: Stands(run, i, b)
  {
    if run != [] {
      var last := |run| - 1;
      var init, e := run[..last], run[last];
      MarkedExactly(init, b);
      SlotOfSeq(if e.Send? then After(init).sent else e.k);
      if i: nat :| Stands(init, i, b) {
        StandsSnoc(run, i, b);
      }
      if i: nat :| Stands(run, i, b) {
        if i < last {
          StandsSnoc(run, i, b);
        }
      }
      if RepliesOn(run, last, b) {
        assert Stands(run, last, b);
      }
    }
  }

  lemma {:induction false} SentGrows(run: seq<Event>, i: nat, j: nat)
    requires i < j <= |run|
    ensures After(run[..i]).sent + (if run[i].Send? then 1 else 0) <= After(run[..j]).sent
    decreases j
  {
    assert run[..j][..j - 1] == run[..j - 1];
    if i < j - 1 {
      SentGrows(run, i, j - 1);
    }
  }

  /** The event that sends request q. */
  lemma {:induction false} SendingOf(run: seq<Event>, q: nat) returns (j: nat)
    requires q < After(run).sent
    ensures j < |run| && run[j].Send? && After(run[..j]).sent == q
  {
    var last := |run| - 1;
    if q < After(run[..last]).sent {
      j := SendingOf(run[..last], q);
      assert run[..last][..j] == run[..j];
    } else {
      j := last;
    }
  }

  /** The latest of the first n requests that uses the bit of request k. */
  function Latest(k: nat, n: nat): (q: nat)
    requires k < n
    ensures k <= q < n <= q + MAX_DUP_CHK && q % MAX_DUP_CHK == k % MAX_DUP_CHK
  {
    AddMultiple(k, (n - 1 - k) / MAX_DUP_CHK);
    k + MAX_DUP_CHK * ((n - 1 - k) / MAX_DUP_CHK)
  }

  /** Since request q was sent, a reply on its bit has come. */
  ghost predicate RepliedSince(run: seq<Event>, q: nat) {
    exists i: nat :: RepliesAfter(run, i, q)
  }

  ghost predicate RepliesAfter(run: seq<Event>, i: nat, q: nat) {
    RepliesOn(run, i, q % MAX_DUP_CHK) && q < After(run[..i]).sent
  }

  /** A reply to request k, should one come next, is flagged as a duplicate. */
  ghost predicate Flagged(run: seq<Event>, k: nat) {
    Slot(IcmpSeq(k)) in After(run).marked
  }

  lemma SameBitIsFar(q: nat, m: nat)
    requires q < m && q % MAX_DUP_CHK == m % MAX_DUP_CHK
    ensures q + MAX_DUP_CHK <= m
  {
    if m < q + MAX_DUP_CHK {
      NeighboursDiffer(q, m);
    }
  }

  /** No later request uses the bit of the latest one, ... */
  lemma StandsIfAfter(run: seq<Event>, i: nat, q: nat)
    requires RepliesAfter(run, i, q) && q < After(run).sent <= q + MAX_DUP_CHK
    ensures Stands(run, i, q % MAX_DUP_CHK)
  {
    assert run[..|run|] == run;
    forall j: nat | i < j < |run|
      ensures !SendsOn(run, j, q % MAX_DUP_CHK)
    {
      if SendsOn(run, j, q % MAX_DUP_CHK) {
        SentGrows(run, i, j);
        SentGrows(run, j, |run|);
        SameBitIsFar(q, After(run[..j]).sent);
      }
    }
  }

  /** ... so a reply stands exactly if it came after that was sent. */
  lemma AfterIfStands(run: seq<Event>, i: nat, q: nat)
    requires Stands(run, i, q % MAX_DUP_CHK) && q < After(run).sent
    ensures RepliesAfter(run, i, q)
  {
    if After(run[..i]).sent <= q {
      var j := SendingOf(run, q);
      if j < i {
        SentGrows(run, j, i);
      } else {
        assert SendsOn(run, j, q % MAX_DUP_CHK);
      }
    }
  }

  /** In every run, the flag tells whether the latest request on the bit has been followed by a reply on it. */
  lemma FlagMeans(run: seq<Event>, k: nat)
    requires k < After(run).sent
    ensures Flagged(run, k) <==> RepliedSince(run, Latest(k, After(run).sent))
  {
    var q := Latest(k, After(run).sent);
    SlotOfSeq(k);
    MarkedExactly(run, q % MAX_DUP_CHK);
    if i: nat :| Stands(run, i, q % MAX_DUP_CHK) {
      AfterIfStands(run, i, q);
    }
    if i: nat :| RepliesAfter(run, i, q) {
      StandsIfAfter(run, i, q);
    }
  }

  /** A reply to an older request has come on the bit of request k since that was sent. */
  ghost predicate LateReplySince(run: seq<Event>, k: nat) {
    exists i: nat :: RepliesAfter(run, i, k) && run[i].k < k
  }

  /** When the flag is right, in every honest run.  For a request that still owns its bit: if it has been
      answered, or no late reply to an older request has come on the bit since it was sent.  For a late reply,
      whose bit is owned by a newer request: if it is a duplicate and the newer request has been followed by a
      reply on the bit, or neither. */
  lemma FlagIsRight(run: seq<Event>, k: nat)
    requires Honest(run) && k < After(run).sent
    ensures var n := After(run).sent;
      (Flagged(run, k) <==> k in Answered(run)) <==>
      if n <= k + MAX_DUP_CHK then k in Answered(run) || !LateReplySince(run, k)
      else k in Answered(run) <==> RepliedSince(run, Latest(k, n))
  {
    FlagMeans(run, k);
    if After(run).sent <= k + MAX_DUP_CHK {
      RecentOwnsBit(run, k);
    }
  }

  lemma LatestIsItself(k: nat, n: nat)
    requires k < n <= k + MAX_DUP_CHK
    ensures Latest(k, n) == k
  {
    if Latest(k, n) > k {
      SameBitIsFar(k, Latest(k, n));
    }
  }

  /** A reply after the sending of a recent request answers it or an older one. */
  lemma RepliesToRecent(run: seq<Event>, i: nat, k: nat)
    requires Honest(run) && RepliesAfter(run, i, k) && After(run).sent <= k + MAX_DUP_CHK
    ensures run[i].k <= k
  {
    HonestAt(run, i);
    SentGrows(run, i, |run|);
    assert run[..|run|] == run;
    if run[i].k > k {
      SameBitIsFar(k, run[i].k);
    }
  }

  lemma RecentOwnsBit(run: seq<Event>, k: nat)
    requires Honest(run) && k < After(run).sent <= k + MAX_DUP_CHK
    ensures Latest(k, After(run).sent) == k
    ensures RepliedSince(run, k) <==> k in Answered(run) || LateReplySince(run, k)
  {
    LatestIsItself(k, After(run).sent);
    if i: nat :| RepliesAfter(run, i, k) {
      RepliesToRecent(run, i, k);
    }
    if k in Answered(run) {
      AnswerIsAfter(run, k);
    }
  }

  lemma AnswerIsAfter(run: seq<Event>, k: nat)
    requires Honest(run) && k in Answered(run)
    ensures RepliedSince(run, k)
  {
    var i: nat :| i < |run| && run[i].Reply? && run[i].k == k;
    HonestAt(run, i);
    assert RepliesAfter(run, i, k);
  }

  /** How many first replies of the run have been flagged as duplicates, ... */
  ghost function Mistaken(run: seq<Event>): nat {
    if run == [] then 0
    else
      var init, last := run[..|run| - 1], run[|run| - 1];
      Mistaken(init) + if last.Reply? && last.k !in Answered(init) && Flagged(init, last.k) then 1 else 0
  }

  /** ... and how many further ones have not. */
  ghost function Missed(run: seq<Event>): nat {
    if run == [] then 0
    else
      var init, last := run[..|run| - 1], run[|run| - 1];
      Missed(init) + if last.Reply? && last.k in Answered(init) && !Flagged(init, last.k) then 1 else 0
  }

  /** In every run, the counters are the number of requests answered and that of the surplus replies, but for the
      replies that have been flagged wrongly. */
  lemma {:induction false} CountersAreExact(run: seq<Event>)
    ensures After(run).received == |Answered(run)| + Missed(run) - Mistaken(run)
    ensures After(run).repeats == Replies(run) - |Answered(run)| - Missed(run) + Mistaken(run)
  {
    if run != [] {
      var init, last := run[..|run| - 1], run[|run| - 1];
      CountersAreExact(init);
      AnsweredSnoc(run);
      if last.Reply? {
        CountsRightly(After(init), last.k, last.triptime);
        if last.k in Answered(init) {
          assert Answered(run) == Answered(init);
        } else {
          assert |Answered(init) + {last.k}| == |Answered(init)| + 1;
        }
      } else {
        assert Answered(run) == Answered(init);
      }
    }
  }

  // ---- What the printed loss says ----

  /** The requests sent that no reply has answered. */
  ghost function Unheard(run: seq<Event>): set<nat> {
    set k | 0 <= k < After(run).sent && k !in Answered(run)
  }

  /** The loss is the share of `lost` among the requests sent, in per cent and rounded down. */
  predicate IsShare(s: Stats, lost: int)
    requires s.sent > 0
  {
    s.sent * Loss(s) <= 100 * lost < s.sent * (Loss(s) + 1)
  }

  lemma LossOf(s: Stats, lost: int)
    requires s.sent > 0 && lost == s.sent - s.received
    ensures IsShare(s, lost)
  {
    var q := Loss(s);
    assert lost * 100 == s.sent * q + lost * 100 % s.sent;
    Distribute(s.sent, if q >= 0 then q else 0);
  }

  lemma NothingIsLost(s: Stats)
    requires s.sent > 0 && s.received == s.sent
    ensures Loss(s) == 0
  {
    assert (s.sent - s.received) * 100 == 0;
  }

  function Below(n: nat): (s: set<nat>)
    ensures |s| == n && forall k :: k in s <==> 0 <= k < n
  {
    if n == 0 then {} else Below(n - 1) + {n - 1}
  }

  lemma UnheardCount(run: seq<Event>)
    requires Honest(run)
    ensures |Unheard(run)| == After(run).sent - |Answered(run)|
  {
    forall k | k in Answered(run)
      ensures k < After(run).sent
    {
      var i: nat :| i < |run| && run[i].Reply? && run[i].k == k;
      HonestAt(run, i);
      SentGrows(run, i, |run|);
      assert run[..|run|] == run;
    }
    assert Unheard(run) == Below(After(run).sent) - Answered(run);
    assert Answered(run) <= Below(After(run).sent);
  }

  /** In every honest run, the loss printed is the share of the requests that no reply has answered, as far as the
      replies have been flagged rightly; it is 0 if all have been answered and no first reply has been mistaken for
      a duplicate. */
  lemma LossIsExact(run: seq<Event>)
    requires Honest(run) && After(run).sent > 0
    ensures IsShare(After(run), |Unheard(run)| + Mistaken(run) - Missed(run))
    ensures Unheard(run) == {} && Mistaken(run) == 0 ==> Loss(After(run)) == 0
  {
    hide After, Honest, Answered, Mistaken, Missed, Unheard, Loss, IsShare;
    CountersAreExact(run);
    UnheardCount(run);
    LossOf(After(run), |Unheard(run)| + Mistaken(run) - Missed(run));
    CountIsBounded(run);
    if Unheard(run) == {} && Mistaken(run) == 0 {
      NothingIsLost(After(run));
    }
  }

  lemma {:induction false} TimelyIsHonest(run: seq<Event>)
    requires Timely(run)
    ensures Honest(run)
  {
    if run != [] {
      TimelyIsHonest(run[..|run| - 1]);
    }
  }

  /** In a timely run the loss printed is the share of the requests that no reply has answered. */
  lemma LossIsUnheard(run: seq<Event>)
    requires Timely(run) && After(run).sent > 0
    ensures IsShare(After(run), |Unheard(run)|)
    ensures Unheard(run) == {} ==> Loss(After(run)) == 0
  {
    hide After, Honest, Timely, Answered, Unheard, Loss, IsShare;
    TimelyIsHonest(run);
    TableIsAnsweredSet(run);
    UnheardCount(run);
    LossOf(After(run), |Unheard(run)|);
    if Unheard(run) == {} {
      NothingIsLost(After(run));
    }
  }

  lemma CountsRightly(s: Stats, k: nat, triptime: Option<int>)
    ensures var t := Received(s, IcmpSeq(k), triptime);
      if Slot(IcmpSeq(k)) in s.marked then t.received == s.received && t.repeats == s.repeats + 1
      else t.received == s.received + 1 && t.repeats == s.repeats
  {
  }

  function Sends(n: nat): seq<Event> {
    seq(n, i => Send)
  }

  lemma {:induction false} OnlySends(n: nat)
    ensures After(Sends(n)) == START.(sent := n)
  {
    if n > 0 {
      OnlySends(n - 1);
      assert Sends(n)[..n - 1] == Sends(n - 1);
      assert {} - {Slot(IcmpSeq(n - 1))} == {};
    }
  }

  /** 1025 requests, then a reply to the first and a reply to the last, which share a table bit. */
  const LATE: seq<Event> := Sends(MAX_DUP_CHK + 1) + [Reply(0, None), Reply(MAX_DUP_CHK, None)]

  lemma LateRun()
    ensures Honest(LATE) && After(LATE).received == 1 && After(LATE).repeats == 1
  {
    var sends := Sends(MAX_DUP_CHK + 1);
    var first := sends + [Reply(0, None)];
    OnlySends(MAX_DUP_CHK + 1);
    assert first[..|first| - 1] == sends;
    assert LATE[..|LATE| - 1] == first;
    var s := START.(sent := MAX_DUP_CHK + 1);
    assert After(first) == s.(received := 1, marked := {0});
    assert Honest(sends) by {
      SendsAreHonest(MAX_DUP_CHK + 1);
    }
    assert Honest(first) && Honest(LATE);
  }

  lemma {:induction false} SendsAreHonest(n: nat)
    ensures Honest(Sends(n))
  {
    if n > 0 {
      SendsAreHonest(n - 1);
      assert Sends(n)[..n - 1] == Sends(n - 1);
    }
  }

  /** What happens otherwise: a reply that comes after its bit was reused makes the reply to the request
      that reused it look like a duplicate, though both answer for the first time. */
  lemma LateReplyHidesAnother()
    ensures Honest(LATE) && Answered(LATE) == {0, MAX_DUP_CHK} && After(LATE).received == 1 && After(LATE).repeats == 1
  {
    LateRun();
    var n := MAX_DUP_CHK + 1;
    assert LATE[n].Reply? && LATE[n].k == 0 && LATE[n + 1].Reply? && LATE[n + 1].k == MAX_DUP_CHK;
  }

  // ---- Round-trip times ----

  function Trips(run: seq<Event>): seq<int> {
    if run == [] then []
    else
      var last := run[|run| - 1];
      Trips(run[..|run| - 1]) + if last.Reply? && last.triptime.Some? then [last.triptime.value] else []
  }

  function Total(ts: seq<int>): int {
    if ts == [] then 0 else Total(ts[..|ts| - 1]) + ts[|ts| - 1]
  }

  lemma TotalSnoc(ts: seq<int>, t: int)
    ensures Total(ts + [t]) == Total(ts) + t
  {
    assert (ts + [t])[..|ts|] == ts;
  }

  /** tsum accumulates every trip time, duplicates included, modulo the width of an unsigned long. */
  lemma {:induction false} TsumIsTotal(run: seq<Event>)
    ensures After(run).tsum == Total(Trips(run)) % ULONG
    ensures Replies(run) == After(run).received + After(run).repeats
  {
    if run != [] {
      var init, last := run[..|run| - 1], run[|run| - 1];
      TsumIsTotal(init);
      if last.Reply? && last.triptime.Some? {
        TotalSnoc(Trips(init), last.triptime.value);
        ModOfSum(Total(Trips(init)), last.triptime.value);
      } else {
        assert Trips(run) == Trips(init);
      }
    }
  }

  lemma ModOfSum(a: int, b: int)
    ensures (a % ULONG + b) % ULONG == (a + b) % ULONG
  {
    var q := a / ULONG;
    var r := (a % ULONG + b) / ULONG;
    assert a + b == ULONG * (q + r) + (a % ULONG + b) % ULONG;
  }

  /** Whatever the trip times: tmin and tmax bound them, and each is one of them or has its initial value. */
  lemma {:induction false} ExtremesAreTrips(run: seq<Event>)
    ensures var s := After(run);
      && (forall t :: t in Trips(run) ==> s.tmin <= t <= s.tmax)
      && s.tmin <= LONG_MAX && (s.tmin in Trips(run) || s.tmin == LONG_MAX)
      && s.tmax >= 0 && (s.tmax in Trips(run) || s.tmax == 0)
  {
    if run != [] {
      var init := run[..|run| - 1];
      assert forall t :: t in Trips(init) ==> t in Trips(run);
      ExtremesAreTrips(init);
      var last := run[|run| - 1];
      if last.Reply? && last.triptime.Some? {
        assert last.triptime.value in Trips(run);
      }
    }
  }

  /** A reply with a forged time stamp whose trip time is negative: the average printed is not -1 but the largest
      unsigned long. */
  lemma NegativeTotal()
    ensures var run := [Send, Reply(0, Some(-1))];
      && Honest(run) && After(run).received + After(run).repeats == |Trips(run)| == 1
      && Total(Trips(run)) == -1 && After(run).tsum == ULONG - 1
  {
    var run := [Send, Reply(0, Some(-1))];
    assert run[..1] == [Send] && [Send][..0] == [];
    assert After([Send]) == Step(START, Send);
    assert After(run) == Step(After([Send]), Reply(0, Some(-1)));
    assert Trips([Send]) == [] && Trips(run) == [-1] && [-1][..0] == [];
    assert Honest([Send]);
    assert (-1) % ULONG == ULONG - 1;
  }

  lemma Distribute(a: int, n: nat)
    ensures a * (n + 1) == a * n + a
  {
  }

  lemma {:induction false} TotalBounds(ts: seq<int>, lo: int, hi: int)
    requires forall t :: t in ts ==> lo <= t <= hi
    ensures lo * |ts| <= Total(ts) <= hi * |ts|
  {
    if ts != [] {
      var init := ts[..|ts| - 1];
      assert forall t :: t in init ==> t in ts;
      assert ts[|ts| - 1] in ts;
      TotalBounds(init, lo, hi);
      Distribute(lo, |init|);
      Distribute(hi, |init|);
    }
  }

  lemma Cancel(n: int, a: int, b: int)
    requires n > 0 && n * a < n * b
    ensures a < b
  {
    assert n * (b - a) > 0;
  }

  lemma Quotient(total: int, n: int, lo: int, hi: int)
    requires n > 0 && lo * n <= total <= hi * n
    ensures lo <= total / n <= hi
  {
    var q := total / n;
    assert total == n * q + total % n;
    assert n * lo < n * (q + 1) && n * q < n * (hi + 1);
    Cancel(n, lo, q + 1);
    Cancel(n, q, hi + 1);
  }

  /** Taking a total modulo the width of an unsigned long leaves its quotient as it is only if it changes nothing. */
  lemma WrappedQuotient(total: int, n: int)
    requires 0 < n <= ULONG
    ensures total % ULONG / n == total / n <==> 0 <= total < ULONG
  {
    var q, r := total / ULONG, total % ULONG;
    assert total == ULONG * q + r;
    if q > 0 {
      assert ULONG * q >= ULONG;
      assert r + n <= total;
      QuotientGrows(r, total, n);
    } else if q < 0 {
      assert ULONG * q <= -ULONG;
      assert total + n <= r;
      QuotientGrows(total, r, n);
    }
  }

  lemma QuotientGrows(a: int, b: int, n: int)
    requires n > 0 && a + n <= b
    ensures a / n < b / n
  {
    assert a == n * (a / n) + a % n && b == n * (b / n) + b % n;
    assert n * (a / n) + n < n * (b / n) + n;
    Cancel(n, a / n, b / n);
  }

  /** With time stamps on, as for fewer than 2^64 replies, the average finish() prints is the average trip time,
      rounded down, exactly if the total of the trip times fits an unsigned long; it then lies between the
      minimum and the maximum. */
  lemma AverageIsExact(run: seq<Event>)
    requires 0 < Replies(run) == |Trips(run)| <= ULONG
    ensures var s, ts := After(run), Trips(run);
      && s.received + s.repeats == |ts|
      && (s.tsum / (s.received + s.repeats) == Total(ts) / |ts| <==> 0 <= Total(ts) < ULONG)
      && s.tmin <= Total(ts) / |ts| <= s.tmax
  {
    var s, ts := After(run), Trips(run);
    TsumIsTotal(run);
    ExtremesAreTrips(run);
    TotalBounds(ts, s.tmin, s.tmax);
    Quotient(Total(ts), |ts|, s.tmin, s.tmax);
    WrappedQuotient(Total(ts), |ts|);
  }
}

/** ping's in_cksum (RFC 1071, "Computing the Internet Checksum"), over the bytes of a packet as a host
    of either byte order loads them. */
module InternetChecksum {
  import opened Bytes

  type Word = w: int | 0 <= w < 0x1_0000

  /** C's int; Dafny checks that no value leaves its range. */
  newtype int32 = x: int | -0x8000_0000 <= x < 0x8000_0000

  const MAXPACKET: nat := 65536 - 60 - 8

  datatype Host = LittleEndian | BigEndian

  /** The u_short whose bytes in memory are first, second. */
  function Load(h: Host, first: Byte, second: Byte): Word {
    if h.LittleEndian? then first + 256 * second else 256 * first + second
  }

  /** The two bytes in memory of a u_short. */
  function Store(h: Host, w: Word): (bytes: seq<Byte>)
    ensures |bytes| == 2 && Load(h, bytes[0], bytes[1]) == w
  {
    if h.LittleEndian? then [w % 256, w / 256] else [w / 256, w % 256]
  }

  /** RFC 1071's 16-bit words of a packet, an odd last byte being padded with a zero byte. */
  function Words(h: Host, p: seq<Byte>): seq<Word> {
    if |p| == 0 then []
    else if |p| == 1 then [Load(h, p[0], 0)]
    else [Load(h, p[0], p[1])] + Words(h, p[2..])
  }

  /** One's-complement addition: a carry out of the top bit is added back at the bottom. */
  function OnesAdd(a: Word, b: Word): Word {
    if a + b < 0x1_0000 then a + b else a + b - 0xFFFF
  }

  function OnesSum(ws: seq<Word>): Word {
    if ws == [] then 0 else OnesAdd(OnesSum(ws[..|ws| - 1]), ws[|ws| - 1])
  }

  /** RFC 1071, section 1: the one's complement of the one's-complement sum. */
  function Checksum(h: Host, p: seq<Byte>): Word {
    0xFFFF - OnesSum(Words(h, p))
  }

  // ---- Plain sums and their one's-complement residue ----

  function Sum(ws: seq<Word>): nat {
    if ws == [] then 0 else Sum(ws[..|ws| - 1]) + ws[|ws| - 1]
  }

  /** 0 for 0, otherwise the representative of s modulo 0xFFFF in 1..0xFFFF. */
  function Residue(s: nat): Word {
    if s == 0 then 0 else (s - 1) % 0xFFFF + 1
  }

  lemma ResidueIs(s: nat, q: int, r: int)
    requires s > 0 && s == 0xFFFF * q + r && 1 <= r <= 0xFFFF
    ensures Residue(s) == r
  {
    assert (s - 1) == 0xFFFF * q + (r - 1);
  }

  /** s as a multiple of 0xFFFF and its residue. */
  lemma ResidueSplit(s: nat) returns (q: int)
    ensures s == 0xFFFF * q + Residue(s)
    ensures s > 0 ==> 1 <= Residue(s)
  {
    q := if s == 0 then 0 else (s - 1) / 0xFFFF;
  }

  lemma {:induction false} OnesSumIsResidue(ws: seq<Word>)
    ensures OnesSum(ws) == Residue(Sum(ws))
  {
    if ws != [] {
      var init, w := ws[..|ws| - 1], ws[|ws| - 1];
      OnesSumIsResidue(init);
      var q := ResidueSplit(Sum(init));
      var r := OnesAdd(OnesSum(init), w);
      if OnesSum(init) + w >= 0x1_0000 {
        ResidueIs(Sum(ws), q + 1, r);
      } else if r > 0 {
        ResidueIs(Sum(ws), q, r);
      }
    }
  }

  /** The two-step fold at the end of in_cksum yields the residue of any 31-bit sum. */
  lemma FoldIsResidue(s: nat)
    requires s < 0x8000_0000
    ensures var t := s / 0x1_0000 + s % 0x1_0000; (t + t / 0x1_0000) % 0x1_0000 == Residue(s)
  {
    var hi, lo := s / 0x1_0000, s % 0x1_0000;
    var t := hi + lo;
    assert s == 0xFFFF * hi + t;
    if t >= 0x1_0000 {
      assert t / 0x1_0000 == 1;
      assert (t + 1) % 0x1_0000 == t - 0xFFFF;
      ResidueIs(s, hi + 1, t - 0xFFFF);
    } else if t > 0 {
      ResidueIs(s, hi, t);
    }
  }

  /** The prefix of complete words, and the whole packet, in terms of the next word. */
  lemma {:induction false} WordsConcat(h: Host, p: seq<Byte>, q: seq<Byte>)
    requires |p| % 2 == 0
    ensures Words(h, p + q) == Words(h, p) + Words(h, q)
    ensures |Words(h, p)| == |p| / 2
  {
    if p == [] {
      assert p + q == q;
    } else {
      var w := Load(h, p[0], p[1]);
      assert (p + q)[2..] == p[2..] + q && (p + q)[0] == p[0] && (p + q)[1] == p[1];
      WordsConcat(h, p[2..], q);
      assert Words(h, p + q) == [w] + Words(h, p[2..] + q);
      Assoc([w], Words(h, p[2..]), Words(h, q));
    }
  }

  lemma WordsSnoc(h: Host, p: seq<Byte>, k: nat)
    requires k % 2 == 0 && k < |p|
    ensures Words(h, p[..k + 1]) == Words(h, p[..k]) + [Load(h, p[k], 0)]
    ensures k + 1 < |p| ==> Words(h, p[..k + 2]) == Words(h, p[..k]) + [Load(h, p[k], p[k + 1])]
    ensures |Words(h, p[..k])| == k / 2
  {
    WordsConcat(h, p[..k], [p[k]]);
    assert p[..k] + [p[k]] == p[..k + 1];
    if k + 1 < |p| {
      WordsConcat(h, p[..k], [p[k], p[k + 1]]);
      assert p[..k] + [p[k], p[k + 1]] == p[..k + 2];
      assert [p[k], p[k + 1]][2..] == [];
    }
  }

  lemma SumSnoc(h: Host, p: seq<Byte>, k: nat)
    requires k % 2 == 0 && k < |p|
    ensures Sum(Words(h, p[..k + 1])) == Sum(Words(h, p[..k])) + Load(h, p[k], 0)
    ensures k + 1 < |p| ==> Sum(Words(h, p[..k + 2])) == Sum(Words(h, p[..k])) + Load(h, p[k], p[k + 1])
  {
    WordsSnoc(h, p, k);
  }

  method InCksum(h: Host, addr: array<Byte>, len: nat) returns (answer: Word)
    requires len <= addr.Length && len <= MAXPACKET + 8
    ensures answer == Checksum(h, addr[..len])
  {
    var nleft: int := len;
    var w: nat := 0;
    var sum: int32 := 0;
    ghost var p := addr[..len];
    while nleft > 1
      invariant 0 <= nleft == len - w && w % 2 == 0
      invariant sum as int == Sum(Words(h, p[..w]))
      invariant 0 <= sum as int <= 0xFFFF * (w / 2)
    {
      SumSnoc(h, p, w);
      var word: int := Load(h, addr[w], addr[w + 1]);
      sum := sum + word as int32;
      w := w + 2;
      nleft := nleft - 2;
    }
    if nleft == 1 {
      SumSnoc(h, p, w);
      var word: int := Load(h, addr[w], 0);
      sum := sum + word as int32;
      assert p[..w + 1] == p;
    } else {
      assert p[..w] == p;
    }
    OnesSumIsResidue(Words(h, p));
    answer := Fold(sum);
  }

  /** The carries are added back in two steps and the result is complemented and truncated. */
  method Fold(total: int32) returns (answer: Word)
    requires total >= 0
    ensures answer == 0xFFFF - Residue(total as int)
  {
    FoldIsResidue(total as int);
    var sum := total / 0x1_0000 + total % 0x1_0000;
    sum := sum + sum / 0x1_0000;
    answer := 0xFFFF - (sum % 0x1_0000) as int;
  }

  // ---- What RFC 1071 promises of it ----

  /** The sum taken from the front. */
  lemma {:induction false} SumCons(w: Word, ws: seq<Word>)
    ensures Sum([w] + ws) == w + Sum(ws)
  {
    if ws == [] {
      assert [w] + ws == [w];
      assert Sum([w]) == Sum([w][..0]) + w;
    } else {
      var init := ws[..|ws| - 1];
      assert ([w] + ws)[..|ws|] == [w] + init;
      SumCons(w, init);
    }
  }

  /** pinger fills the zeroed checksum field, bytes 2 and 3, of the packet it sends. */
  function Fill(h: Host, p: seq<Byte>): seq<Byte>
    requires |p| >= 4
  {
    p[..2] + Store(h, Checksum(h, p)) + p[4..]
  }

  /** A packet carrying its own checksum sums to all ones, so its checksum is 0: what a receiver tests. */
  lemma FilledPacketVerifies(h: Host, p: seq<Byte>)
    requires |p| >= 4 && p[2] == 0 && p[3] == 0
    ensures Checksum(h, Fill(h, p)) == 0
  {
    var f, c := Fill(h, p), Checksum(h, p);
    assert f[2..][2..] == p[2..][2..] == p[4..];
    var rest := Words(h, p[4..]);
    assert Words(h, p) == [Load(h, p[0], p[1])] + ([0] + rest);
    assert Words(h, f) == [Load(h, p[0], p[1])] + ([c] + rest);
    SumCons(Load(h, p[0], p[1]), [0] + rest);
    SumCons(Load(h, p[0], p[1]), [c] + rest);
    SumCons(0, rest);
    SumCons(c, rest);
    assert Sum(Words(h, f)) == Sum(Words(h, p)) + c;
    OnesSumIsResidue(Words(h, p));
    OnesSumIsResidue(Words(h, f));
    var q := ResidueSplit(Sum(Words(h, p)));
    ResidueIs(Sum(Words(h, f)), q, 0xFFFF);
  }

  function SwapBytes(w: Word): Word {
    256 * (w % 256) + w / 256
  }

  function SwapAll(ws: seq<Word>): (r: seq<Word>)
    ensures |r| == |ws| && forall k :: 0 <= k < |ws| ==> r[k] == SwapBytes(ws[k])
  {
    if ws == [] then [] else SwapAll(ws[..|ws| - 1]) + [SwapBytes(ws[|ws| - 1])]
  }

  /** Swapping every word commutes with one's-complement addition. */
  lemma {:induction false} OnesSumOfSwapped(ws: seq<Word>)
    ensures OnesSum(SwapAll(ws)) == SwapBytes(OnesSum(ws))
  {
    if ws != [] {
      var init, w := ws[..|ws| - 1], ws[|ws| - 1];
      OnesSumOfSwapped(init);
      assert SwapAll(ws)[..|ws| - 1] == SwapAll(init);
      SwapOfOnesAdd(OnesSum(init), w);
    }
  }

  lemma SwapIs(high: Byte, low: Byte)
    ensures SwapBytes(256 * high + low) == 256 * low + high
  {
    assert (256 * high + low) / 256 == high && (256 * high + low) % 256 == low;
  }

  lemma SwapOfOnesAdd(a: Word, b: Word)
    ensures OnesAdd(SwapBytes(a), SwapBytes(b)) == SwapBytes(OnesAdd(a, b))
  {
    var a1: Byte, a0: Byte, b1: Byte, b0: Byte := a / 256, a % 256, b / 256, b % 256;
    SwapOfSum(a1, a0, b1, b0);
    assert a == 256 * a1 + a0 && b == 256 * b1 + b0;
    SwapIs(a1, a0);
    SwapIs(b1, b0);
  }

  /** The carry out of either byte goes into the other one. */
  lemma SwapOfSum(a1: Byte, a0: Byte, b1: Byte, b0: Byte)
    ensures OnesAdd(256 * a0 + a1, 256 * b0 + b1) == SwapBytes(OnesAdd(256 * a1 + a0, 256 * b1 + b0))
  {
    var sum := OnesAdd(256 * a1 + a0, 256 * b1 + b0);
    var low, high := a0 + b0, a1 + b1;
    if low >= 256 {
      low, high := low - 256, high + 1;
    }
    if high >= 256 {
      low, high := low + 1, high - 256;
      if low == 256 {
        low, high := 0, high + 1;
      }
    }
    assert sum == 256 * high + low;
    SwapIs(high, low);
  }

  lemma {:induction false} WordsAt(h: Host, p: seq<Byte>)
    ensures |Words(h, p)| == (|p| + 1) / 2
    ensures forall k :: 0 <= k < (|p| + 1) / 2 ==>
      Words(h, p)[k] == Load(h, p[2 * k], if 2 * k + 1 < |p| then p[2 * k + 1] else 0)
  {
    if |p| >= 2 {
      WordsAt(h, p[2..]);
      forall k | 1 <= k < (|p| + 1) / 2
        ensures Words(h, p)[k] == Load(h, p[2 * k], if 2 * k + 1 < |p| then p[2 * k + 1] else 0)
      {
        assert Words(h, p)[k] == Words(h, p[2..])[k - 1];
        assert p[2..][2 * (k - 1)] == p[2 * k];
      }
    }
  }

  lemma LoadSwaps(h: Host, a: Byte, b: Byte)
    ensures Load(h, b, a) == SwapBytes(Load(h, a, b))
    ensures Load(BigEndian, a, b) == SwapBytes(Load(LittleEndian, a, b))
  {
    SwapIs(a, b);
    SwapIs(b, a);
  }

  lemma StoreSwaps(w: Word)
    ensures Store(LittleEndian, w) == Store(BigEndian, SwapBytes(w))
    ensures 0xFFFF - SwapBytes(w) == SwapBytes(0xFFFF - w)
  {
    assert (0xFFFF - w) % 256 == 255 - w % 256;
  }

  lemma WordsOfOtherHost(p: seq<Byte>)
    ensures Words(BigEndian, p) == SwapAll(Words(LittleEndian, p))
  {
    WordsAt(LittleEndian, p);
    WordsAt(BigEndian, p);
    var le, be := Words(LittleEndian, p), Words(BigEndian, p);
    forall k | 0 <= k < |le|
      ensures be[k] == SwapBytes(le[k])
    {
      LoadSwaps(LittleEndian, p[2 * k], if 2 * k + 1 < |p| then p[2 * k + 1] else 0);
    }
  }

  /** Hosts of either byte order write the same two bytes into the packet. */
  lemma ByteOrderIndependent(p: seq<Byte>)
    ensures Store(LittleEndian, Checksum(LittleEndian, p)) == Store(BigEndian, Checksum(BigEndian, p))
  {
    var le := Words(LittleEndian, p);
    WordsOfOtherHost(p);
    OnesSumOfSwapped(le);
    var sum := OnesSum(le);
    assert Checksum(BigEndian, p) == 0xFFFF - SwapBytes(sum) && Checksum(LittleEndian, p) == 0xFFFF - sum;
    StoreSwaps(sum);
    StoreSwaps(0xFFFF - sum);
  }

  /** The packet with the two bytes of each word exchanged. */
  function SwapPairs(p: seq<Byte>): (r: seq<Byte>)
    requires |p| % 2 == 0
    ensures |r| == |p|
    ensures forall k :: 0 <= k < |p| ==> r[k] == p[if k % 2 == 0 then k + 1 else k - 1]
  {
    seq(|p|, k requires 0 <= k < |p| => p[if k % 2 == 0 then k + 1 else k - 1])
  }

  lemma WordsOfSwapped(h: Host, p: seq<Byte>)
    requires |p| % 2 == 0
    ensures Words(h, SwapPairs(p)) == SwapAll(Words(h, p))
  {
    WordsAt(h, p);
    WordsAt(h, SwapPairs(p));
    var ws, swapped := Words(h, p), Words(h, SwapPairs(p));
    forall k | 0 <= k < |ws|
      ensures swapped[k] == SwapBytes(ws[k])
    {
      LoadSwaps(h, p[2 * k], p[2 * k + 1]);
    }
  }

  /** RFC 1071, section 2 (B): exchanging the bytes of every word exchanges the bytes of the checksum. */
  lemma SwappedPacket(h: Host, p: seq<Byte>)
    requires |p| % 2 == 0
    ensures Checksum(h, SwapPairs(p)) == SwapBytes(Checksum(h, p))
  {
    var ws := Words(h, p);
    WordsOfSwapped(h, p);
    OnesSumOfSwapped(ws);
    StoreSwaps(OnesSum(ws));
  }

  /** An odd packet has the checksum of the packet with a zero byte appended. */
  lemma OddPacketIsPadded(h: Host, p: seq<Byte>)
    requires |p| % 2 == 1
    ensures Checksum(h, p) == Checksum(h, p + [0])
  {
    WordsAt(h, p);
    WordsAt(h, p + [0]);
    assert Words(h, p) == Words(h, p + [0]);
  }
}

/** What the rlogin server makes of a chunk when one of its TIOCSWINSZ calls fails. */
module RlogindFailure {
  import opened Bytes
  import opened RloginWire
  import opened Rlogind

  /** A scan only adds to what it has yielded, and takes each size from one offset. */
  lemma {:induction false} ScanGrows(so: Scanned, rest: seq<Byte>, ioctls: nat)
    ensures var s := ScanFrom(so, rest, ioctls);
      so.out <= s.out && so.sizes <= s.sizes && so.taken <= s.taken &&
      |s.sizes| - |so.sizes| == |s.taken| - |so.taken|
    decreases |rest|
  {
    hide ScanFrom, FrameSize;
    if |rest| < FRAME {
      ScanEnds(so, rest, ioctls);
    } else {
      var m := Mismatch(rest);
      ScanPast(so, rest, ioctls);
      if m > 0 {
        ScanGrows(so.(out := so.out + rest[..m]), rest[m..], ioctls);
      } else if ioctls > 0 {
        ScanGrows(Found(so, FrameSize(rest)), rest[FRAME..], ioctls - 1);
      }
    }
  }

  /** A scan `cut` ends at the offset at which the scan `full` of the same bytes takes the size numbered k: what it has
      yielded up to there is the same, and the rest of the bytes stays as it is. */
  predicate EndsAt(so: Scanned, rest: seq<Byte>, full: Scanned, cut: Scanned, k: nat) {
    && k < |full.taken| == |full.sizes|
    && var at := full.taken[k];
    && Offset(so) <= at <= Offset(so) + |rest| && FRAME * k <= at && at - FRAME * k <= |full.out|
    && cut == Scanned(full.out[..at - FRAME * k] + rest[at - Offset(so)..], full.sizes[..k], full.taken[..k])
  }

  lemma {:induction false} FailsAt(so: Scanned, rest: seq<Byte>, ioctls: nat, n: nat)
    requires |so.taken| == |so.sizes| && |rest| <= n
    ensures var full, cut := ScanFrom(so, rest, n), ScanFrom(so, rest, ioctls);
      if |full.sizes| <= |so.sizes| + ioctls then cut == full
      else EndsAt(so, rest, full, cut, |so.sizes| + ioctls)
    decreases |rest|
  {
    hide ScanFrom, FrameSize, EndsAt;
    if |rest| < FRAME {
      ScanEnds(so, rest, ioctls);
      ScanEnds(so, rest, n);
    } else {
      var m := Mismatch(rest);
      ScanPast(so, rest, ioctls);
      ScanPast(so, rest, n);
      if m > 0 {
        var next := so.(out := so.out + rest[..m]);
        FailsAt(next, rest[m..], ioctls, n);
        if |ScanFrom(so, rest, n).sizes| > |so.sizes| + ioctls {
          EndsLater(so, next, rest, m, ScanFrom(so, rest, n), ScanFrom(so, rest, ioctls), |so.sizes| + ioctls);
        }
      } else if ioctls == 0 {
        EndsHere(so, rest, n);
      } else {
        var next := Found(so, FrameSize(rest));
        FailsAt(next, rest[FRAME..], ioctls - 1, n - 1);
        if |ScanFrom(so, rest, n).sizes| > |so.sizes| + ioctls {
          EndsLater(so, next, rest, FRAME, ScanFrom(so, rest, n), ScanFrom(so, rest, ioctls), |so.sizes| + ioctls);
        }
      }
    }
  }

  lemma EndsLater(so: Scanned, next: Scanned, rest: seq<Byte>, m: nat, full: Scanned, cut: Scanned, k: nat)
    requires m <= |rest| && Offset(next) == Offset(so) + m && EndsAt(next, rest[m..], full, cut, k)
    ensures EndsAt(so, rest, full, cut, k)
  {
    var at := full.taken[k];
    assert rest[m..][at - Offset(next)..] == rest[at - Offset(so)..];
  }

  lemma EndsHere(so: Scanned, rest: seq<Byte>, n: nat)
    requires |so.taken| == |so.sizes| && FRAME <= |rest| <= n && Mismatch(rest) == 0
    ensures var full, k := ScanFrom(so, rest, n), |so.sizes|;
      k < |full.sizes| && EndsAt(so, rest, full, so.(out := so.out + rest), k)
  {
    hide ScanFrom, FrameSize;
    var full, k := ScanFrom(so, rest, n), |so.sizes|;
    var next := Found(so, FrameSize(rest));
    ScanPast(so, rest, n);
    ScanGrows(next, rest[FRAME..], n - 1);
    assert full.taken[k] == next.taken[k] == Offset(so);
    assert full.out[..|so.out|] == so.out && full.sizes[..k] == so.sizes && full.taken[..k] == so.taken;
    assert rest[0..] == rest;
  }

  /** On arbitrary bytes: if more window sizes are in a chunk than TIOCSWINSZ calls succeed, the frames in front are
      taken out and set as ever, but that whose call fails goes to the pty, and so does all that is behind it, frames
      and all; otherwise the chunk is scanned as if no call failed. */
  lemma FailedSizeIsTyped(chunk: seq<Byte>, ioctls: nat)
    ensures var full, cut := Scan(chunk, |chunk|), Scan(chunk, ioctls);
      && (|full.sizes| <= ioctls ==> cut == full)
      && (|full.sizes| > ioctls ==>
            && ioctls < |full.taken| && FRAME * ioctls <= full.taken[ioctls] <= |chunk|
            && full.taken[ioctls] - FRAME * ioctls <= |full.out|
            && cut.out == full.out[..full.taken[ioctls] - FRAME * ioctls] + chunk[full.taken[ioctls]..]
            && cut.sizes == full.sizes[..ioctls])
  {
    FailsAt(NOTHING, chunk, ioctls, |chunk|);
  }
}

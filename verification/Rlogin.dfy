/** The rlogin client: the start-up message it builds, and its relay between the terminal and the socket. */
module Rlogin {
  import opened Bytes
  import opened RloginWire

  const BUFLEN: nat := 0x1_0000

  // ---- The start-up message ----

  /** Appends a C string, cut off where the room ends; returns the new position and the room left.  `text` is
      what has been appended so far, uncut. */
  method SafeCpy(dest: array<Byte>, at: nat, len: nat, source: seq<Byte>, terminate: bool, ghost text: seq<Byte>)
    returns (at': nat, len': nat)
    requires at + len == dest.Length && NUL !in source && dest[..at] == Take(text, dest.Length)
    modifies dest
    ensures at' + len' == dest.Length
    ensures dest[..at'] == Take(text + source + (if terminate then [NUL] else []), dest.Length)
  {
    at', len' := at, len;
    var k := 0;
    while k < |source| && len' > 0
      invariant 0 <= k <= |source| && at' == at + k && at' + len' == dest.Length
      invariant dest[..at'] == old(dest[..at]) + source[..k]
    {
      dest[at'] := source[k];
      at', len', k := at' + 1, len' - 1, k + 1;
    }
    assert dest[..at'] == Take(text + source, dest.Length);
    if terminate && len' > 0 {
      dest[at'] := NUL;
      at', len' := at' + 1, len' - 1;
    }
  }

  const SLASH: seq<Byte> := ['/' as int]
  const BAUD: seq<Byte> := ['9' as int, '6' as int, '0' as int, '0' as int]

  function Greeting(luser: seq<Byte>, user: seq<Byte>, term: seq<Byte>): seq<Byte> {
    [NUL] + luser + [NUL] + user + [NUL] + term + SLASH + BAUD + [NUL]
  }

  /** Builds the message.  There is room left exactly when the whole message is shorter than the buffer, and
      then it has not been cut off. */
  method Greet(buf: array<Byte>, luser: seq<Byte>, user: seq<Byte>, term: seq<Byte>) returns (n: nat, room: nat)
    requires buf.Length == BUFLEN && NUL !in luser && NUL !in user && NUL !in term
    modifies buf
    ensures n + room == BUFLEN
    ensures room > 0 <==> |Greeting(luser, user, term)| < BUFLEN
    ensures room > 0 ==> buf[..n] == Greeting(luser, user, term)
  {
    n, room := SafeCpy(buf, 0, BUFLEN, [], true, []);
    n, room := SafeCpy(buf, n, room, luser, true, [NUL]);
    n, room := SafeCpy(buf, n, room, user, true, [NUL] + luser + [NUL]);
    ghost var text := [NUL] + luser + [NUL] + user + [NUL];
    n, room := SafeCpy(buf, n, room, term, false, text);
    assert text + term + [] == text + term;
    n, room := SafeCpy(buf, n, room, SLASH, false, text + term);
    assert text + term + SLASH + [] == text + term + SLASH;
    n, room := SafeCpy(buf, n, room, BAUD, false, text + term + SLASH);
    assert text + term + SLASH + BAUD + [] + [] == text + term + SLASH + BAUD;
    n, room := SafeCpy(buf, n, room, [], true, text + term + SLASH + BAUD);
  }
}

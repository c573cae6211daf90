/**
 A stream socket as an adversary: it delivers the peer's bytes in order but cuts
 them anywhere, it takes any non-empty part of what is written, and it may fail
 at any call.
 */
module Channel {
  import opened Bytes

  class Socket {
    /** Everything the peer sends before it closes its side. */
    const incoming: bytes
    /** How much of `incoming` has been delivered. */
    var pos: nat
    /** Everything accepted for sending so far. */
    var outgoing: bytes
    /** Whether some call has failed. */
    var failed: bool
    /** How often it has been read from. */
    var receives: nat

    ghost predicate Valid()
      reads this
    {
      pos <= |incoming|
    }

    constructor (peer: bytes)
      ensures Valid() && incoming == peer && pos == 0 && outgoing == [] && !failed && receives == 0
    {
      incoming, pos, outgoing, failed, receives := peer, 0, [], false, 0;
    }

    /** `read` / `recv`: negative is an error, zero is end of stream, and
        otherwise any positive number of bytes up to `max` arrives. */
    method Recv(buf: array<byte>, off: nat, max: nat) returns (got: int)
      requires Valid() && off + max <= buf.Length && max > 0
      modifies this`pos, this`failed, this`receives, buf
      ensures Valid() && got <= max && receives == old(receives) + 1
      ensures failed == (old(failed) || got < 0)
      ensures got == 0 ==> pos == |incoming|
      ensures got <= 0 ==> pos == old(pos) && buf[..] == old(buf[..])
      ensures got > 0 ==> pos == old(pos) + got
      ensures got > 0 ==> buf[..off] == old(buf[..off])
      ensures got > 0 ==> buf[off..off + got] == incoming[old(pos)..pos]
    {
      receives := receives + 1;
      var fails: bool := *;
      if fails {
        failed := true;
        return -1;
      }
      var available := |incoming| - pos;
      if available == 0 { return 0; }
      var n: nat :| 0 < n <= max && n <= available;
      for i := 0 to n
        modifies buf
        invariant buf[..off] == old(buf[..off])
        invariant buf[off..off + i] == incoming[pos..pos + i]
      {
        buf[off + i] := incoming[pos + i];
        assert buf[off..off + i + 1] == buf[off..off + i] + [incoming[pos + i]];
      }
      pos := pos + n;
      got := n;
    }

    /** `write` / `send`: zero or negative is a failure, otherwise a positive part is taken. */
    method Send(data: bytes) returns (sent: int)
      requires data != []
      modifies this`outgoing, this`failed
      ensures sent <= |data|
      ensures failed == (old(failed) || sent <= 0)
      ensures sent <= 0 ==> outgoing == old(outgoing)
      ensures sent > 0 ==> outgoing == old(outgoing) + data[..sent]
    {
      var fails: bool := *;
      if fails {
        failed := true;
        return 0;
      }
      var n: nat :| 0 < n <= |data|;
      outgoing := outgoing + data[..n];
      sent := n;
    }

    /** The short-write loop: all of `data` goes out, or a proper prefix and a failure. */
    method SendAll(data: bytes) returns (ok: bool, ghost taken: bytes)
      modifies this`outgoing, this`failed
      ensures outgoing == old(outgoing) + taken
      ensures if ok then taken == data else taken < data
      ensures failed == (old(failed) || !ok)
    {
      var sent := 0;
      while sent < |data|
        invariant 0 <= sent <= |data|
        invariant outgoing == old(outgoing) + data[..sent] && failed == old(failed)
      {
        var w := Send(data[sent..]);
        if w <= 0 { return false, data[..sent]; }
        assert data[..sent] + data[sent..][..w] == data[..sent + w];
        sent := sent + w;
      }
      return true, data;
    }
  }
}

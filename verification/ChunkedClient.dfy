/**
 The client's loop around the chunked decoder: decode what has arrived, receive
 more, decode again.
 */
module ChunkedClient {
  import opened Bytes
  import opened Channel
  import opened ChunkedDecoder
  import opened ChunkedResume

  /** `recv_chunked` returns true with the body, or false with `too_large` set or not. */
  datatype Received = Body(decoded: bytes) | BodyTooLarge | Broken

  const RECV_SIZE: nat := 4096

  /** `recv_some`: append what one receive delivers; false at end of stream or on an error. */
  method RecvSome(sock: Socket, encoded: bytes) returns (ok: bool, more: bytes)
    requires sock.Valid()
    modifies sock`pos, sock`failed, sock`receives
    ensures sock.Valid()
    ensures !ok ==> sock.failed || sock.pos == |sock.incoming|
    ensures ok ==> sock.failed == old(sock.failed)
    ensures ok ==> sock.pos > old(sock.pos) && more == encoded + sock.incoming[old(sock.pos)..sock.pos]
    ensures !ok ==> more == encoded && sock.pos == old(sock.pos)
  {
    var buf := new byte[RECV_SIZE];
    var got := sock.Recv(buf, 0, RECV_SIZE);
    if got <= 0 { return false, encoded; }
    return true, encoded + buf[0..got];
  }

  /**
   `recv_chunked`, where `here` is what one decode of the bytes received so far
   yields and `whole` what one decode of the whole stream would. A delivered body
   is the body of the whole stream, so no fragmentation can change it. A body is
   refused as too large exactly when both decodes say so or the unfinished input
   outgrew the receive buffer. It is broken when both decodes reject it, when a
   line of maximal length was cut just before its line feed, or when the stream
   ended or failed in the middle of the body. So a stream that one decode accepts
   and the receive buffer can hold is delivered, unless the socket fails or a line
   is cut like that.
   */
  method RecvChunked(sock: Socket, initial: bytes, cap: nat, bufCap: nat, maxChunks: nat) returns (r: Received)
    requires sock.Valid() && sock.pos == 0 && !sock.failed
    modifies sock`pos, sock`failed, sock`receives
    ensures sock.Valid()
    ensures var lim := Limits(cap, maxChunks);
            var got := initial + sock.incoming[..sock.pos];
            var here, whole := Run(INITIAL, got, lim), Run(INITIAL, initial + sock.incoming, lim);
            match r
            case Body(decoded) =>
              && here.verdict == whole.verdict == Consumed && here.core.body == whole.core.body == decoded
            case BodyTooLarge =>
              || here.verdict == whole.verdict == TooLarge
              || (here.verdict == NeedMore && |got| > bufCap)
            case Broken =>
              || here.verdict == whole.verdict == Invalid
              || (here.verdict == Invalid && InsideLineEnd(INITIAL, initial + sock.incoming, |got|, lim))
              || (here.verdict == NeedMore && |got| <= bufCap && (sock.failed || got == initial + sock.incoming))
    ensures var lim := Limits(cap, maxChunks);
            var got := initial + sock.incoming[..sock.pos];
            && Run(INITIAL, initial + sock.incoming, lim).verdict == Consumed
            && |initial + sock.incoming| <= bufCap && !sock.failed
            && !InsideLineEnd(INITIAL, initial + sock.incoming, |got|, lim)
            ==> r.Body?
  {
    hide Run, InsideLineEnd;
    var lim := Limits(cap, maxChunks);
    var encoded := initial;
    var d := new Decoder();
    ghost var c, unread := INITIAL, initial;
    while true
      invariant sock.Valid() && fresh(d) && !sock.failed
      invariant encoded == initial + sock.incoming[..sock.pos]
      invariant d.active ==> d.bodyStart == 0 && d.pos <= |encoded|
      invariant c == (if d.active then d.State() else INITIAL)
      invariant unread == (if d.active then encoded[d.pos..] else encoded)
      invariant Run(INITIAL, encoded, lim) == Run(c, unread, lim)
      decreases |sock.incoming| - sock.pos
    {
      assert encoded[0..] == encoded;
      Later(initial, sock.incoming, sock.pos, lim);
      var verdict := d.Decode(encoded, 0, lim);
      if verdict == Consumed { return Body(d.body); }
      if verdict == Invalid { return Broken; }
      if verdict == TooLarge { return BodyTooLarge; }
      RunKeepsLimit(INITIAL, encoded, lim);
      if |d.body| > cap || |encoded| > bufCap { return BodyTooLarge; }
      ghost var arrived := sock.pos;
      ghost var at := d.pos;
      var ok, more := RecvSome(sock, encoded);
      if !ok { return Broken; }
      assert initial + sock.incoming[..sock.pos] == encoded + sock.incoming[arrived..sock.pos];
      ResumeWaiting(INITIAL, encoded, sock.incoming[arrived..sock.pos], lim);
      assert more[at..] == encoded[at..] + sock.incoming[arrived..sock.pos];
      encoded := more;
      c, unread := d.State(), encoded[at..];
    }
  }

  /** What a decode of the bytes so far says about a decode of all of them. */
  lemma Later(initial: bytes, stream: bytes, k: nat, lim: Limits)
    requires k <= |stream|
    ensures var r := Run(INITIAL, initial + stream[..k], lim);
            var whole := Run(INITIAL, initial + stream, lim);
            && (r.verdict == Consumed || r.verdict == TooLarge ==>
                  whole.verdict == r.verdict && whole.core.body == r.core.body)
            && (r.verdict == Invalid && !InsideLineEnd(INITIAL, initial + stream, |initial| + k, lim) ==>
                  whole.verdict == Invalid)
  {
    hide Run, InsideLineEnd, Misjudged;
    var s, t := initial + stream[..k], stream[k..];
    assert s + t == initial + stream;
    var r := Run(INITIAL, s, lim);
    CutMisleads(INITIAL, s, t, lim);
    if r.verdict == Consumed || r.verdict == TooLarge {
      ResumeDone(INITIAL, s, t, lim);
    } else if r.verdict == Invalid && !Misjudged(r, t, lim) {
      RejectionStands(INITIAL, s, t, lim);
    }
  }
}

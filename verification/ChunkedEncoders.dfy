/**
 The program's chunked encoders and what the chunked decoder makes of their
 output under every setting of its two limits.
 */
module ChunkedEncoders {
  import opened Bytes
  import opened ChunkedDecoder
  import opened Arithmetic

  // ---------------------------------------------------------------- the format

  function Chunk(data: bytes): bytes { Print(|data|, 16) + CRLF + data + CRLF }

  const LAST_CHUNK: bytes := [48, 13, 10, 13, 10]

  /** `body` in chunks of `k` bytes, the last one shorter if need be. */
  function Encode(body: bytes, k: nat): bytes
    requires k > 0
    decreases |body|
  {
    if body == [] then LAST_CHUNK
    else Chunk(body[..Min(k, |body|)]) + Encode(body[Min(k, |body|)..], k)
  }

  // ------------------------------------------------------- decoding one chunk

  lemma HexLine(n: nat, rest: bytes)
    requires n < TWO64
    ensures Find(Print(n, 16) + CRLF + rest, CRLF, 0) == Some(|Print(n, 16)|)
    ensures ParseSize(Print(n, 16)) == Some(n)
  {
    var p := Print(n, 16);
    var s := p + CRLF + rest;
    assert s[|p|..|p| + 2] == CRLF;
    forall j | 0 <= j < |p| ensures !OccursAt(s, CRLF, j) {
      assert s[j] == p[j] != CR;
    }
    FindIs(s, CRLF, 0, |p|);
    PrintU64Fits(n);
    PrintValue(n, 16);
    assert FindByte(p, SEMICOLON) == |p|;
    assert p[..|p|] == p;
  }

  /** The state after a chunk of `data` has been taken. */
  function Took(c: Core, data: bytes): Core {
    c.(phase := SizeLine, chunks := c.chunks + 1, remaining := 0,
       bodyBytes := c.bodyBytes + |data|, body := c.body + data)
  }

  /** What a call does after its first turn. */
  function After(t: Turn, lim: Limits): Outcome {
    match t
    case Stop(c, s, v) => Outcome(c, s, v)
    case Go(c, s) => Run(c, s, lim)
  }

  lemma SizeLineTurnOf(c: Core, n: nat, rest: bytes, lim: Limits)
    requires n < TWO64
    ensures var s := Print(n, 16) + CRLF + rest;
            var c1 := c.(chunks := c.chunks + 1);
            SizeLineTurn(c, s, lim)
            == if c.chunks >= lim.maxChunks then Stop(c1, s, Invalid) else ChunkTurn(c1, Some(n), s, rest, lim)
  {
    hide Find, ParseSize, Print, ChunkTurn;
    HexLine(n, rest);
    var p := Print(n, 16);
    var s := p + CRLF + rest;
    assert s[..|p|] == p && s[|p| + 2..] == rest;
  }

  lemma RunSizeLine(c: Core, n: nat, rest: bytes, lim: Limits)
    requires c.phase.SizeLine? && n < TWO64
    ensures var s := Print(n, 16) + CRLF + rest;
            var c1 := c.(chunks := c.chunks + 1);
            Run(c, s, lim) == After(if c.chunks >= lim.maxChunks then Stop(c1, s, Invalid)
                                    else ChunkTurn(c1, Some(n), s, rest, lim), lim)
  {
    hide SizeLineTurn, ChunkTurn, Print;
    SizeLineTurnOf(c, n, rest, lim);
  }

  lemma RunData(c: Core, data: bytes, rest: bytes, lim: Limits)
    requires c.phase.Data? && c.remaining == |data| > 0
    ensures Run(c, data + CRLF + rest, lim)
            == Run(c.(phase := SizeLine, remaining := 0, bodyBytes := c.bodyBytes + |data|, body := c.body + data),
                   rest, lim)
  {
    hide SizeLineTurn, TrailersTurn;
    var s := data + CRLF + rest;
    var c1 := c.(phase := DataCrlf, remaining := 0, bodyBytes := c.bodyBytes + |data|, body := c.body + data);
    assert s[..|data|] == data && s[|data|..] == CRLF + rest;
    assert TurnOf(c, s, lim) == Go(c1, CRLF + rest);
    assert (CRLF + rest)[2..] == rest;
    assert TurnOf(c1, CRLF + rest, lim) == Go(c1.(phase := SizeLine), rest);
  }

  lemma RunChunkFits(c: Core, data: bytes, rest: bytes, lim: Limits)
    requires c.phase.SizeLine? && 0 < |data| < TWO64
    requires c.chunks < lim.maxChunks && c.bodyBytes + |data| <= lim.maxBody
    ensures Run(c, Chunk(data) + rest, lim) == Run(Took(c, data), rest, lim)
  {
    hide TurnOf, Print;
    var tail := data + CRLF + rest;
    assert Chunk(data) + rest == Print(|data|, 16) + CRLF + tail;
    RunSizeLine(c, |data|, tail, lim);
    RunData(c.(chunks := c.chunks + 1, phase := Data, remaining := |data|), data, rest, lim);
  }

  lemma RunChunkRefused(c: Core, data: bytes, rest: bytes, lim: Limits)
    requires c.phase.SizeLine? && 0 < |data| < TWO64
    requires c.chunks >= lim.maxChunks || c.bodyBytes + |data| > lim.maxBody
    ensures var r := Run(c, Chunk(data) + rest, lim);
            && r.core == c.(chunks := c.chunks + 1)
            && r.verdict == if c.chunks >= lim.maxChunks then Invalid else TooLarge
  {
    var tail := data + CRLF + rest;
    assert Chunk(data) + rest == Print(|data|, 16) + CRLF + tail;
    RunSizeLine(c, |data|, tail, lim);
  }

  lemma RunLast(c: Core, rest: bytes, lim: Limits)
    requires c.phase.SizeLine?
    ensures var r := Run(c, LAST_CHUNK + rest, lim);
            if c.chunks >= lim.maxChunks then r.verdict == Invalid
            else r == Outcome(c.(phase := Complete, chunks := c.chunks + 1), rest, Consumed)
  {
    hide Run;
    var tail := CRLF + rest;
    assert Print(0, 16) == [48];
    assert LAST_CHUNK + rest == [48] + CRLF + tail;
    RunSizeLine(c, 0, tail, lim);
    RunNoTrailers(c.(phase := Trailers, chunks := c.chunks + 1), rest, lim);
  }

  lemma RunNoTrailers(c: Core, rest: bytes, lim: Limits)
    requires c.phase.Trailers?
    ensures Run(c, CRLF + rest, lim) == Outcome(c.(phase := Complete), rest, Consumed)
  {
    hide Find;
    var tail := CRLF + rest;
    assert tail[0..2] == CRLF;
    FindIs(tail, CRLF, 0, 0);
    assert tail[2..] == rest;
  }

  // ------------------------------------------------------ decoding a whole body

  /** Room left in the body and number of chunks left, before decoding. */
  function Room(c: Core, lim: Limits): int { lim.maxBody - c.bodyBytes }
  function Allowed(c: Core, lim: Limits): int { lim.maxChunks - c.chunks }

  /** Decoding completes exactly when the chunks and the bytes are within the limits, and
      then it returns the body, the chunk count and everything after the last chunk. */
  ghost predicate DecodesWithin(c: Core, body: bytes, k: nat, rest: bytes, lim: Limits)
    requires k > 0
  {
    var r := Run(c, Encode(body, k) + rest, lim);
    && (r.verdict == Consumed <==> Pieces(|body|, k) < Allowed(c, lim) && |body| <= Room(c, lim))
    && (r.verdict == Consumed ==>
          r.core.body == c.body + body && r.core.chunks == c.chunks + Pieces(|body|, k) + 1 && r.unread == rest)
    && r.verdict != NeedMore
  }

  lemma {:induction false} DecodeEncoded(c: Core, body: bytes, k: nat, rest: bytes, lim: Limits)
    requires c.phase.SizeLine? && 0 < k < TWO64 && c.bodyBytes <= lim.maxBody
    ensures DecodesWithin(c, body, k, rest, lim)
    decreases |body|
  {
    hide Run, Chunk;
    if body == [] {
      RunLast(c, rest, lim);
    } else {
      var n := Min(k, |body|);
      var more := Encode(body[n..], k) + rest;
      assert Encode(body, k) + rest == Chunk(body[..n]) + more;
      if c.chunks < lim.maxChunks && n <= Room(c, lim) {
        RunChunkFits(c, body[..n], more, lim);
        DecodeEncoded(Took(c, body[..n]), body[n..], k, rest, lim);
        assert c.body + body[..n] + body[n..] == c.body + body;
      } else {
        RunChunkRefused(c, body[..n], more, lim);
      }
    }
  }

  /** The round trip: encode in any chunk size, decode, get the body back. */
  lemma RoundTrip(body: bytes, k: nat, rest: bytes, lim: Limits)
    requires 0 < k < TWO64 && |body| <= lim.maxBody && (|body| + k - 1) / k < lim.maxChunks
    ensures var r := Run(INITIAL, Encode(body, k) + rest, lim);
            r.verdict == Consumed && r.core.body == body && r.unread == rest
            && r.core.chunks == (|body| + k - 1) / k + 1
  {
    hide Run, Encode;
    PiecesIsCeiling(|body|, k);
    DecodeEncoded(INITIAL, body, k, rest, lim);
    assert [] + body == body;
  }

  /** The greatest multiple of `k` up to `n`. */
  function WholeChunks(n: nat, k: nat): (m: nat)
    requires k > 0
    ensures m <= n
  {
    n - n % k
  }

  /** A body over the limit is refused at the first chunk that would cross it: what has been
      decoded by then is the greatest number of whole chunks that fits. */
  lemma {:induction false} DecodeTooLarge(c: Core, body: bytes, k: nat, rest: bytes, lim: Limits)
    requires c.phase.SizeLine? && 0 < k < TWO64 && c.bodyBytes <= lim.maxBody
    requires |body| > Room(c, lim) && Pieces(|body|, k) <= Allowed(c, lim)
    ensures var r := Run(c, Encode(body, k) + rest, lim);
            r.verdict == TooLarge && r.core.body == c.body + body[..WholeChunks(Room(c, lim), k)]
    decreases |body|
  {
    hide Run, Chunk;
    var n := Min(k, |body|);
    var more := Encode(body[n..], k) + rest;
    assert Encode(body, k) + rest == Chunk(body[..n]) + more;
    if n <= Room(c, lim) {
      RunChunkFits(c, body[..n], more, lim);
      DecodeTooLarge(Took(c, body[..n]), body[n..], k, rest, lim);
      OneChunkMore(body, k, Room(c, lim));
      var m := WholeChunks(Room(c, lim) - k, k);
      assert c.body + body[..n] + body[n..][..m] == c.body + (body[..n] + body[n..][..m]);
    } else {
      RunChunkRefused(c, body[..n], more, lim);
      DivSmall(Room(c, lim), k);
      assert c.body + body[..0] == c.body;
    }
  }

  lemma OneChunkMore(body: bytes, k: nat, room: nat)
    requires 0 < k <= room < |body|
    ensures body[..WholeChunks(room, k)] == body[..k] + body[k..][..WholeChunks(room - k, k)]
  {
    DivStep(room - k, k);
  }

  // -------------------------------------------------------------- the encoders

  lemma EncodeStep(out: bytes, body: bytes, k: nat)
    requires k > 0 && body != []
    ensures var n := Min(k, |body|);
            out + Encode(body, k) == out + Print(n, 16) + CRLF + body[..n] + CRLF + Encode(body[n..], k)
  {
    hide Print;
  }

  /** The body loop of `make_chunked_response`, after the header `out0`. */
  method MakeChunkedResponse(out0: bytes, body: bytes, chunkSize: nat) returns (out: bytes)
    requires chunkSize > 0
    ensures out == out0 + Encode(body, chunkSize)
  {
    out := out0;
    var pos := 0;
    assert body[0..] == body;
    while pos < |body|
      invariant pos <= |body|
      invariant out + Encode(body[pos..], chunkSize) == out0 + Encode(body, chunkSize)
    {
      var n := Min(chunkSize, |body| - pos);
      EncodeStep(out, body[pos..], chunkSize);
      assert body[pos..][..n] == body[pos..pos + n] && body[pos..][n..] == body[pos + n..];
      out := out + Print(n, 16) + CRLF + body[pos..pos + n] + CRLF;
      pos := pos + n;
    }
    out := out + LAST_CHUNK;
  }

  /** `make_chunked_many`: `total` bytes of 'Y'; the cursor may step past the end. */
  method MakeChunkedMany(out0: bytes, total: nat, chunkSize: nat) returns (out: bytes)
    requires chunkSize > 0
    ensures out == out0 + Encode(Fill(89, total), chunkSize)
  {
    out := out0;
    var sent := 0;
    while sent < total
      invariant out + Encode(Fill(89, if sent <= total then total - sent else 0), chunkSize)
                == out0 + Encode(Fill(89, total), chunkSize)
    {
      var cs := Min(chunkSize, total - sent);
      var left := Fill(89, total - sent);
      EncodeStep(out, left, chunkSize);
      assert left[..cs] == Fill(89, cs) && left[cs..] == Fill(89, total - sent - cs);
      out := out + Print(cs, 16) + CRLF + Fill(89, cs) + CRLF;
      sent := sent + chunkSize;
    }
    assert Fill(89, 0) == [];
    out := out + LAST_CHUNK;
  }

  /** `make_chunked_body_limit_late`: one byte more than the limit, in chunks of 64. */
  method MakeChunkedBodyLimitLate(out0: bytes, limit: nat) returns (out: bytes)
    ensures out == out0 + Encode(Fill(98, limit + 1), 64)
  {
    out := out0;
    var remaining := limit + 1;
    while remaining > 0
      invariant remaining >= 0
      invariant out + Encode(Fill(98, remaining), 64) == out0 + Encode(Fill(98, limit + 1), 64)
    {
      var n := Min(remaining, 64);
      var left := Fill(98, remaining);
      EncodeStep(out, left, 64);
      assert left[..n] == Fill(98, n) && left[n..] == Fill(98, remaining - n);
      out := out + Print(n, 16) + CRLF + Fill(98, n) + CRLF;
      remaining := remaining - n;
    }
    assert Fill(98, 0) == [];
    out := out + LAST_CHUNK;
  }

  /** `make_chunked_small_chunks`: `chunks` chunks of one 'x'. */
  method MakeChunkedSmallChunks(chunks: nat) returns (body: bytes)
    ensures body == Encode(Fill(120, chunks), 1)
  {
    body := [];
    assert Fill(120, chunks) == Fill(120, chunks - 0);
    for i := 0 to chunks
      invariant body + Encode(Fill(120, chunks - i), 1) == Encode(Fill(120, chunks), 1)
    {
      var left := Fill(120, chunks - i);
      EncodeStep(body, left, 1);
      assert Print(1, 16) == [49];
      assert left[..1] == [120] && left[1..] == Fill(120, chunks - i - 1);
      body := body + [49] + CRLF + [120] + CRLF;
    }
    assert Fill(120, 0) == [];
    body := body + LAST_CHUNK;
  }

  /** The late-limit request: refused as too large, having decoded every whole chunk that
      fits, so it crosses the limit only in its last data chunk. */
  lemma LimitLateIsTooLarge(limit: nat, maxChunks: nat, rest: bytes)
    requires (limit + 64) / 64 <= maxChunks
    ensures var r := Run(INITIAL, Encode(Fill(98, limit + 1), 64) + rest, Limits(limit, maxChunks));
            r.verdict == TooLarge && r.core.body == Fill(98, WholeChunks(limit, 64))
  {
    hide Run, Encode;
    var body := Fill(98, limit + 1);
    PiecesIsCeiling(limit + 1, 64);
    DecodeTooLarge(INITIAL, body, 64, rest, Limits(limit, maxChunks));
    assert [] + body[..WholeChunks(limit, 64)] == Fill(98, WholeChunks(limit, 64));
  }
}

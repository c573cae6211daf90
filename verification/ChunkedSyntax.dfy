/**
 The grammar of a chunked body (section 7.1 of RFC 9112) with the program's
 limits, written down apart from the decoder: the decoder completes exactly on
 the bodies of this grammar, with exactly their data, and stops at their end.
 */
module ChunkedSyntax {
  import opened Bytes
  import opened ChunkedDecoder
  import opened ChunkedEncoders
  import opened HeaderOrder
  import opened Numerals

  // ------------------------------------------------------------------ size lines

  /** At most 256 bytes: one to sixteen hexadecimal digits, then nothing, or a semicolon and anything. */
  predicate IsSizeLine(line: bytes) {
    var k := LeadingHex(line);
    |line| <= 256 && 1 <= k <= 16 && (k == |line| || line[k] == 59)
  }

  /** The number that the digits of a size line denote. */
  function SizeOf(line: bytes): nat { Hex(line[..LeadingHex(line)], 0) }

  lemma AllHex(s: bytes)
    ensures AllDigits(s, 16) <==> forall i :: 0 <= i < |s| ==> IsHex(s[i])
  {
    forall i | 0 <= i < |s| ensures IsHex(s[i]) <==> IsDigit(s[i], 16) { HexDigitIs(s[i]); }
  }

  lemma SizeLineForm(line: bytes)
    requires ParseSize(line).Some?
    ensures FindByte(line, SEMICOLON) == LeadingHex(line)
  {
    hide DigitValue;
    var m := FindByte(line, SEMICOLON);
    AllHex(line[..m]);
    assert forall i :: 0 <= i < m ==> IsHex(line[..m][i]) && IsHex(line[i]);
  }

  lemma SizeLineDigits(line: bytes)
    requires IsSizeLine(line)
    ensures FindByte(line, SEMICOLON) == LeadingHex(line) && AllDigits(line[..LeadingHex(line)], 16)
  {
    var k := LeadingHex(line);
    assert forall i :: 0 <= i < k ==> IsHex(line[i]) && line[i] != SEMICOLON;
    AllHex(line[..k]);
  }

  /** Which lines the decoder takes for a chunk size, and for which size. */
  lemma SizeLineIs(line: bytes)
    ensures ParseSize(line) == if IsSizeLine(line) then Some(SizeOf(line)) else None
  {
    hide DigitValue;
    if IsSizeLine(line) {
      SizeLineDigits(line);
      HexIsValue(line[..LeadingHex(line)]);
    } else if ParseSize(line).Some? {
      SizeLineForm(line);
    }
    if ParseSize(line).Some? { SizeLineForm(line); }
  }

  lemma {:induction false} UpperHex(s: bytes)
    ensures LeadingHex(Upper(s)) == LeadingHex(s)
  {
    if s == [] {
    } else {
      UpperHex(s[1..]);
      assert Upper(s)[1..] == Upper(s[1..]);
    }
  }

  lemma {:induction false} UpperHexValue(s: bytes, before: nat)
    requires forall i :: 0 <= i < |s| ==> IsHex(s[i])
    ensures forall i :: 0 <= i < |s| ==> IsHex(Upper(s)[i])
    ensures Hex(Upper(s), before) == Hex(s, before)
  {
    if s == [] {
    } else {
      UpperHexValue(s[1..], before * 16 + HexDigit(s[0]));
      assert Upper(s)[1..] == Upper(s[1..]);
    }
  }

  /** A size line means the same in capitals. */
  lemma SizeLineCase(line: bytes)
    ensures ParseSize(Upper(line)) == ParseSize(line)
  {
    hide ParseSize;
    SizeLineIs(line);
    SizeLineIs(Upper(line));
    UpperHex(line);
    var k := LeadingHex(line);
    UpperHexValue(line[..k], 0);
    assert Upper(line)[..k] == Upper(line[..k]);
  }

  // --------------------------------------------------------------- chunked bodies

  datatype Piece = Piece(line: bytes, data: bytes)

  /** A size line and as many bytes, at least one, as it says. */
  predicate IsPiece(p: Piece) { NoLineEndIn(p.line) && IsSizeLine(p.line) && SizeOf(p.line) == |p.data| > 0 }

  predicate ArePieces(ps: seq<Piece>) { forall i :: 0 <= i < |ps| ==> IsPiece(ps[i]) }

  predicate IsLastLine(line: bytes) { NoLineEndIn(line) && IsSizeLine(line) && SizeOf(line) == 0 }

  predicate AreTrailers(ts: seq<bytes>) { forall i :: 0 <= i < |ts| ==> ts[i] != [] && NoLineEndIn(ts[i]) }

  function PieceWire(p: Piece): bytes { p.line + CRLF + p.data + CRLF }

  function PiecesWire(ps: seq<Piece>): bytes {
    if ps == [] then [] else PieceWire(ps[0]) + PiecesWire(ps[1..])
  }

  function DataOf(ps: seq<Piece>): bytes {
    if ps == [] then [] else ps[0].data + DataOf(ps[1..])
  }

  /** The chunks, the last chunk's line, the trailer lines and the empty line. */
  function BodyWire(ps: seq<Piece>, last: bytes, ts: seq<bytes>): bytes {
    PiecesWire(ps) + last + CRLF + Lines(ts) + CRLF
  }

  predicate IsBody(ps: seq<Piece>, last: bytes, ts: seq<bytes>) {
    ArePieces(ps) && IsLastLine(last) && AreTrailers(ts)
  }

  /** Within the limits on chunks, the last one counted, on data and on trailers. */
  predicate BodyFits(ps: seq<Piece>, ts: seq<bytes>, lim: Limits) {
    |ps| < lim.maxChunks && |DataOf(ps)| <= lim.maxBody && |ts| <= 64 && |Lines(ts)| <= 8192
  }

  // ----------------------------------------------------------- one turn of the decoder

  /** A size line is counted, then judged. */
  lemma RunLine(c: Core, line: bytes, rest: bytes, lim: Limits)
    requires c.phase.SizeLine? && NoLineEndIn(line)
    ensures var s, c1 := line + CRLF + rest, c.(chunks := c.chunks + 1);
            var size := if IsSizeLine(line) then Some(SizeOf(line)) else None;
            Run(c, s, lim) == After(if c.chunks >= lim.maxChunks then Stop(c1, s, Invalid)
                                    else ChunkTurn(c1, size, s, rest, lim), lim)
  {
    hide Find, ParseSize, NoLineEndIn, IsSizeLine, SizeOf, ChunkTurn;
    LineEndFound(line, rest);
    SizeLineIs(line);
    var s := line + CRLF + rest;
    assert s[..|line|] == line && s[|line| + 2..] == rest;
  }

  lemma RunPiece(c: Core, p: Piece, rest: bytes, lim: Limits)
    requires c.phase.SizeLine? && IsPiece(p)
    requires c.chunks < lim.maxChunks && c.bodyBytes + |p.data| <= lim.maxBody
    ensures Run(c, PieceWire(p) + rest, lim) == Run(Took(c, p.data), rest, lim)
  {
    hide TurnOf, NoLineEndIn, IsSizeLine, SizeOf;
    var tail := p.data + CRLF + rest;
    assert PieceWire(p) + rest == p.line + CRLF + tail;
    RunLine(c, p.line, tail, lim);
    RunData(c.(chunks := c.chunks + 1, phase := Data, remaining := |p.data|), p.data, rest, lim);
  }

  lemma RunTrailer(c: Core, t: bytes, rest: bytes, lim: Limits)
    requires c.phase.Trailers? && t != [] && NoLineEndIn(t)
    requires c.trailerLines < 64 && c.trailerBytes + |t| + 2 <= 8192
    ensures Run(c, t + CRLF + rest, lim)
            == Run(c.(trailerLines := c.trailerLines + 1, trailerBytes := c.trailerBytes + |t| + 2), rest, lim)
  {
    hide Find, NoLineEndIn;
    LineEndFound(t, rest);
    assert (t + CRLF + rest)[|t| + 2..] == rest;
  }

  // ------------------------------------------------------------ what is written is read

  /** The state after the pieces of a body. */
  function TookAll(c: Core, ps: seq<Piece>): Core {
    c.(phase := SizeLine, chunks := c.chunks + |ps|, remaining := if ps == [] then c.remaining else 0,
       bodyBytes := c.bodyBytes + |DataOf(ps)|, body := c.body + DataOf(ps))
  }

  lemma {:induction false} RunPieces(c: Core, ps: seq<Piece>, rest: bytes, lim: Limits)
    requires c.phase.SizeLine? && ArePieces(ps)
    requires c.chunks + |ps| <= lim.maxChunks && c.bodyBytes + |DataOf(ps)| <= lim.maxBody
    ensures Run(c, PiecesWire(ps) + rest, lim) == Run(TookAll(c, ps), rest, lim)
    decreases |ps|
  {
    hide Run, IsPiece, PieceWire;
    if ps == [] {
      assert PiecesWire(ps) + rest == rest && c.body + [] == c.body;
    } else {
      var more := PiecesWire(ps[1..]) + rest;
      assert PiecesWire(ps) + rest == PieceWire(ps[0]) + more;
      RunPiece(c, ps[0], more, lim);
      RunPieces(Took(c, ps[0].data), ps[1..], rest, lim);
      TookOneMore(c, ps);
    }
  }

  lemma TookOneMore(c: Core, ps: seq<Piece>)
    requires ps != []
    ensures TookAll(Took(c, ps[0].data), ps[1..]) == TookAll(c, ps)
  {
    assert c.body + ps[0].data + DataOf(ps[1..]) == c.body + DataOf(ps);
  }

  lemma {:induction false} ReachTrailer(c: Core, ts: seq<bytes>, rest: bytes, lim: Limits)
    requires c.phase.Trailers? && AreTrailers(ts)
    requires c.trailerLines + |ts| <= 64 && c.trailerBytes + |Lines(ts)| <= 8192
    ensures Run(c, Lines(ts) + rest, lim)
            == Run(c.(trailerLines := c.trailerLines + |ts|, trailerBytes := c.trailerBytes + |Lines(ts)|), rest, lim)
    decreases |ts|
  {
    hide Run, NoLineEndIn;
    if ts == [] {
      assert Lines(ts) + rest == rest;
    } else {
      var more := Lines(ts[1..]) + rest;
      assert Lines(ts) + rest == ts[0] + CRLF + more;
      RunTrailer(c, ts[0], more, lim);
      ReachTrailer(c.(trailerLines := c.trailerLines + 1, trailerBytes := c.trailerBytes + |ts[0]| + 2), ts[1..],
                   rest, lim);
    }
  }

  lemma RunTrailers(c: Core, ts: seq<bytes>, rest: bytes, lim: Limits)
    requires c.phase.Trailers? && AreTrailers(ts)
    requires c.trailerLines + |ts| <= 64 && c.trailerBytes + |Lines(ts)| <= 8192
    ensures Run(c, Lines(ts) + CRLF + rest, lim)
            == Outcome(c.(phase := Complete, trailerLines := c.trailerLines + |ts|,
                          trailerBytes := c.trailerBytes + |Lines(ts)|), rest, Consumed)
  {
    hide Run, AreTrailers;
    assert Lines(ts) + CRLF + rest == Lines(ts) + (CRLF + rest);
    ReachTrailer(c, ts, CRLF + rest, lim);
    RunNoTrailers(c.(trailerLines := c.trailerLines + |ts|, trailerBytes := c.trailerBytes + |Lines(ts)|), rest, lim);
  }

  /** A body of the grammar within the limits is decoded to its data, and what follows it is left. */
  lemma BodyRead(ps: seq<Piece>, last: bytes, ts: seq<bytes>, rest: bytes, lim: Limits)
    requires IsBody(ps, last, ts) && BodyFits(ps, ts, lim)
    ensures Run(INITIAL, BodyWire(ps, last, ts) + rest, lim)
            == Outcome(Core(Complete, |ps| + 1, 0, |ts|, |Lines(ts)|, |DataOf(ps)|, DataOf(ps)), rest, Consumed)
  {
    hide Run, IsPiece, NoLineEndIn, IsSizeLine, SizeOf, Lines, PiecesWire, DataOf;
    var tail := Lines(ts) + CRLF + rest;
    assert BodyWire(ps, last, ts) + rest == PiecesWire(ps) + (last + CRLF + tail);
    RunPieces(INITIAL, ps, last + CRLF + tail, lim);
    assert [] + DataOf(ps) == DataOf(ps);
    var c := TookAll(INITIAL, ps);
    RunLine(c, last, tail, lim);
    RunTrailers(c.(phase := Trailers, chunks := c.chunks + 1), ts, rest, lim);
  }

  // ----------------------------------------------------------- what is read was written

  /** A completed run began with a size line within the limits. */
  lemma LineOfCompleted(c: Core, s: bytes, lim: Limits) returns (line: bytes, rest: bytes)
    requires c.phase.SizeLine? && c.bodyBytes <= lim.maxBody && Run(c, s, lim).verdict == Consumed
    ensures NoLineEndIn(line) && IsSizeLine(line) && s == line + CRLF + rest && c.chunks < lim.maxChunks
    ensures var n, c1 := SizeOf(line), c.(chunks := c.chunks + 1);
            && c.bodyBytes + n <= lim.maxBody
            && Run(c, s, lim)
               == if n == 0 then Run(c1.(phase := Trailers), rest, lim)
                  else Run(c1.(phase := Data, remaining := n), rest, lim)
  {
    hide Find, ParseSize, NoLineEndIn, IsSizeLine, SizeOf;
    var i := Find(s, CRLF, 0);
    assert i.Some?;
    FoundLine(s, i.value);
    line, rest := s[..i.value], s[i.value + 2..];
    RunLine(c, line, rest, lim);
  }

  /** A completed run found its chunk's data and the line end after it. */
  lemma DataOfCompleted(c: Core, s: bytes, lim: Limits) returns (data: bytes, rest: bytes)
    requires c.phase.Data? && c.remaining > 0 && Run(c, s, lim).verdict == Consumed
    ensures |data| == c.remaining && s == data + CRLF + rest
    ensures Run(c, s, lim)
            == Run(c.(phase := SizeLine, remaining := 0, bodyBytes := c.bodyBytes + |data|, body := c.body + data),
                   rest, lim)
  {
    hide SizeLineTurn, TrailersTurn;
    var n := c.remaining;
    assert |s| >= n;
    var c1 := c.(phase := DataCrlf, remaining := 0, bodyBytes := c.bodyBytes + n, body := c.body + s[..n]);
    assert TurnOf(c, s, lim) == Go(c1, s[n..]);
    assert DataCrlfTurn(c1, s[n..]).Go?;
    data, rest := s[..n], s[n + 2..];
    assert s == data + CRLF + rest;
    RunData(c, data, rest, lim);
  }

  /** A completed run found the empty line or a trailer within the limits. */
  lemma TrailerOfCompleted(c: Core, s: bytes, lim: Limits) returns (t: bytes, rest: bytes)
    requires c.phase.Trailers? && Run(c, s, lim).verdict == Consumed
    ensures NoLineEndIn(t) && s == t + CRLF + rest
    ensures t != [] ==> c.trailerLines < 64 && c.trailerBytes + |t| + 2 <= 8192
  {
    hide Find, NoLineEndIn;
    var i := Find(s, CRLF, 0);
    assert i.Some?;
    FoundLine(s, i.value);
    t, rest := s[..i.value], s[i.value + 2..];
  }

  lemma {:induction false} TrailersForm(c: Core, s: bytes, lim: Limits) returns (ts: seq<bytes>, rest: bytes)
    requires c.phase.Trailers? && Run(c, s, lim).verdict == Consumed
    requires c.trailerLines <= 64 && c.trailerBytes <= 8192
    ensures AreTrailers(ts) && s == Lines(ts) + CRLF + rest
    ensures c.trailerLines + |ts| <= 64 && c.trailerBytes + |Lines(ts)| <= 8192
    decreases |s|
  {
    hide Run, NoLineEndIn;
    var t;
    t, rest := TrailerOfCompleted(c, s, lim);
    if t == [] {
      ts := [];
    } else {
      RunTrailer(c, t, rest, lim);
      var later := rest;
      ts, rest := TrailersForm(
        c.(trailerLines := c.trailerLines + 1, trailerBytes := c.trailerBytes + |t| + 2), later, lim);
      assert ([t] + ts)[1..] == ts;
      ts := [t] + ts;
    }
  }

  lemma {:induction false} PiecesForm(c: Core, s: bytes, lim: Limits)
    returns (ps: seq<Piece>, last: bytes, ts: seq<bytes>, rest: bytes)
    requires c.phase.SizeLine? && c.bodyBytes <= lim.maxBody && Run(c, s, lim).verdict == Consumed
    requires c.trailerLines == 0 && c.trailerBytes == 0
    ensures IsBody(ps, last, ts) && s == BodyWire(ps, last, ts) + rest
    ensures c.chunks + |ps| < lim.maxChunks && c.bodyBytes + |DataOf(ps)| <= lim.maxBody
    ensures |ts| <= 64 && |Lines(ts)| <= 8192
    decreases |s|
  {
    hide Run, NoLineEndIn, IsSizeLine, SizeOf, Lines;
    var line, after := LineOfCompleted(c, s, lim);
    var c1 := c.(chunks := c.chunks + 1);
    if SizeOf(line) == 0 {
      ps, last := [], line;
      ts, rest := TrailersForm(c1.(phase := Trailers), after, lim);
      assert s == BodyWire(ps, last, ts) + rest;
    } else {
      var data, later := DataOfCompleted(c1.(phase := Data, remaining := SizeOf(line)), after, lim);
      ps, last, ts, rest := PiecesForm(Took(c, data), later, lim);
      OnePieceMore(Piece(line, data), ps, last, ts, rest);
      ps := [Piece(line, data)] + ps;
    }
  }

  lemma OnePieceMore(p: Piece, ps: seq<Piece>, last: bytes, ts: seq<bytes>, rest: bytes)
    ensures BodyWire([p] + ps, last, ts) + rest == p.line + CRLF + (p.data + CRLF + (BodyWire(ps, last, ts) + rest))
    ensures DataOf([p] + ps) == p.data + DataOf(ps)
  {
    hide Lines;
    assert ([p] + ps)[1..] == ps;
  }

  /** Only a body of the grammar within the limits is decoded to the end. */
  lemma BodyForm(s: bytes, lim: Limits) returns (ps: seq<Piece>, last: bytes, ts: seq<bytes>, rest: bytes)
    requires Run(INITIAL, s, lim).verdict == Consumed
    ensures IsBody(ps, last, ts) && BodyFits(ps, ts, lim) && s == BodyWire(ps, last, ts) + rest
    ensures Run(INITIAL, s, lim).unread == rest && Run(INITIAL, s, lim).core.body == DataOf(ps)
  {
    hide Run, IsBody, BodyWire;
    ps, last, ts, rest := PiecesForm(INITIAL, s, lim);
    BodyRead(ps, last, ts, rest, lim);
  }

  // ------------------------------------------------------------------ what is refused

  /** After good chunks, a line that starts no acceptable chunk: one chunk too many or no size is
      invalid, data over the limit is too large, and what was decoded is the data before it. */
  lemma LineRefused(ps: seq<Piece>, line: bytes, rest: bytes, lim: Limits)
    requires ArePieces(ps) && |ps| <= lim.maxChunks && |DataOf(ps)| <= lim.maxBody && NoLineEndIn(line)
    ensures var r := Run(INITIAL, PiecesWire(ps) + line + CRLF + rest, lim);
            if |ps| == lim.maxChunks || !IsSizeLine(line) then r.verdict == Invalid && r.core.body == DataOf(ps)
            else |DataOf(ps)| + SizeOf(line) > lim.maxBody ==> r.verdict == TooLarge && r.core.body == DataOf(ps)
  {
    hide Run, IsPiece, NoLineEndIn, IsSizeLine, SizeOf, PiecesWire, DataOf;
    assert PiecesWire(ps) + line + CRLF + rest == PiecesWire(ps) + (line + CRLF + rest);
    RunPieces(INITIAL, ps, line + CRLF + rest, lim);
    assert [] + DataOf(ps) == DataOf(ps);
    RunLine(TookAll(INITIAL, ps), line, rest, lim);
  }

  /** Data that is not followed by a line end is invalid. */
  lemma DataEndRefused(ps: seq<Piece>, p: Piece, rest: bytes, lim: Limits)
    requires ArePieces(ps) && IsPiece(p) && |ps| < lim.maxChunks && |DataOf(ps)| + |p.data| <= lim.maxBody
    requires |rest| >= 2 && (rest[0] != CR || rest[1] != LF)
    ensures var r := Run(INITIAL, PiecesWire(ps) + p.line + CRLF + p.data + rest, lim);
            r.verdict == Invalid && r.core.body == DataOf(ps) + p.data
  {
    hide Run, NoLineEndIn, IsSizeLine, SizeOf, PiecesWire, DataOf;
    var tail := p.data + rest;
    assert PiecesWire(ps) + p.line + CRLF + p.data + rest == PiecesWire(ps) + (p.line + CRLF + tail);
    RunPieces(INITIAL, ps, p.line + CRLF + tail, lim);
    assert [] + DataOf(ps) == DataOf(ps);
    var c := TookAll(INITIAL, ps);
    RunLine(c, p.line, tail, lim);
    DataNotEnded(c.(chunks := c.chunks + 1, phase := Data, remaining := |p.data|), p.data, rest, lim);
  }

  lemma DataNotEnded(c: Core, data: bytes, rest: bytes, lim: Limits)
    requires c.phase.Data? && c.remaining == |data| > 0 && |rest| >= 2 && (rest[0] != CR || rest[1] != LF)
    ensures var r := Run(c, data + rest, lim); r.verdict == Invalid && r.core.body == c.body + data
  {
    hide SizeLineTurn, TrailersTurn;
    var s := data + rest;
    var c1 := c.(phase := DataCrlf, remaining := 0, bodyBytes := c.bodyBytes + |data|, body := c.body + data);
    assert s[..|data|] == data && s[|data|..] == rest;
    assert TurnOf(c, s, lim) == Go(c1, rest);
  }

  /** Trailers over their limits are invalid. */
  lemma TrailersRefused(ps: seq<Piece>, last: bytes, ts: seq<bytes>, t: bytes, rest: bytes, lim: Limits)
    requires IsBody(ps, last, ts) && BodyFits(ps, ts, lim) && t != [] && NoLineEndIn(t)
    requires |ts| == 64 || |Lines(ts)| + |t| + 2 > 8192
    ensures var r := Run(INITIAL, PiecesWire(ps) + last + CRLF + Lines(ts) + t + CRLF + rest, lim);
            r.verdict == Invalid && r.core.body == DataOf(ps)
  {
    hide Run, IsPiece, NoLineEndIn, IsSizeLine, SizeOf, PiecesWire, DataOf, Lines;
    var end := t + CRLF + rest;
    var tail := Lines(ts) + end;
    assert PiecesWire(ps) + last + CRLF + Lines(ts) + t + CRLF + rest == PiecesWire(ps) + (last + CRLF + tail);
    RunPieces(INITIAL, ps, last + CRLF + tail, lim);
    assert [] + DataOf(ps) == DataOf(ps);
    var c := TookAll(INITIAL, ps);
    RunLine(c, last, tail, lim);
    var c1 := c.(phase := Trailers, chunks := c.chunks + 1);
    ReachTrailer(c1, ts, end, lim);
    TrailerNotTaken(
      c1.(trailerLines := c1.trailerLines + |ts|, trailerBytes := c1.trailerBytes + |Lines(ts)|), t, rest, lim);
  }

  lemma TrailerNotTaken(c: Core, t: bytes, rest: bytes, lim: Limits)
    requires c.phase.Trailers? && t != [] && NoLineEndIn(t)
    requires c.trailerLines >= 64 || c.trailerBytes + |t| + 2 > 8192
    ensures var r := Run(c, t + CRLF + rest, lim); r.verdict == Invalid && r.core.body == c.body
  {
    hide Find, NoLineEndIn;
    LineEndFound(t, rest);
  }
}

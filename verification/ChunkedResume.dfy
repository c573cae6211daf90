/**
 Whether resuming the chunked decoder on a growing buffer gives what decoding the
 whole buffer at once gives. It does, except in one family of inputs: the decoder
 rejects a line of the greatest legal length when the buffer happens to end
 between the line's carriage return and its line feed.
 */
module ChunkedResume {
  import opened Bytes
  import opened ChunkedDecoder
  import ChunkedEncoders

  // ---------------------------------------------------------------- one turn

  /** The unread bytes are a size line of exactly the maximal length, otherwise
      acceptable, without its final line feed. */
  predicate CutSizeLine(c: Core, s: bytes, lim: Limits) {
    && c.phase.SizeLine? && Find(s, CRLF, 0).None?
    && |s| == MAX_SIZE_LINE + 1 && s[MAX_SIZE_LINE] == CR
    && c.chunks < lim.maxChunks && ParseSize(s[..MAX_SIZE_LINE]).Some?
  }

  /** The same for a first trailer line that uses the whole trailer allowance. */
  predicate CutTrailer(c: Core, s: bytes) {
    && c.phase.Trailers? && Find(s, CRLF, 0).None?
    && |s| == MAX_TRAILER_BYTES - 1 && s[MAX_TRAILER_BYTES - 2] == CR
    && c.trailerBytes == 0 && c.trailerLines < MAX_TRAILER_LINES
  }

  predicate CutLine(c: Core, s: bytes, lim: Limits) {
    CutSizeLine(c, s, lim) || CutTrailer(c, s)
  }

  /** The decoder gave up on a cut line. */
  predicate RejectedCutLine(r: Outcome, lim: Limits) {
    r.verdict == Invalid && CutLine(r.core, r.unread, lim)
  }

  /** It gave up on a cut line whose line feed comes next. */
  predicate Misjudged(r: Outcome, next: bytes, lim: Limits) {
    RejectedCutLine(r, lim) && next != [] && next[0] == LF
  }

  /** A turn that went on, completed or found the body too large does the same on more input. */
  predicate SameOn(turn: Turn, more: Turn, t: bytes) {
    match turn
    case Go(c, s) => more == Go(c, s + t)
    case Stop(c, s, v) => v == Consumed || v == TooLarge ==> more == Stop(c, s + t, v)
  }

  lemma SizeLineAppend(c: Core, s: bytes, t: bytes, lim: Limits)
    ensures SameOn(SizeLineTurn(c, s, lim), SizeLineTurn(c, s + t, lim), t)
  {
    if Find(s, CRLF, 0).Some? {
      var i := Find(s, CRLF, 0).value;
      FindStays(s, t, CRLF, 0);
      assert (s + t)[..i] == s[..i];
      assert (s + t)[i + 2..] == s[i + 2..] + t;
    }
  }

  lemma DataAppend(c: Core, s: bytes, t: bytes)
    ensures SameOn(DataTurn(c, s), DataTurn(c, s + t), t)
  {
    if s != [] && c.remaining <= |s| {
      assert (s + t)[..c.remaining] == s[..c.remaining];
      assert (s + t)[c.remaining..] == s[c.remaining..] + t;
    }
  }

  lemma TrailersAppend(c: Core, s: bytes, t: bytes)
    ensures SameOn(TrailersTurn(c, s), TrailersTurn(c, s + t), t)
  {
    if Find(s, CRLF, 0).Some? {
      var i := Find(s, CRLF, 0).value;
      FindStays(s, t, CRLF, 0);
      assert (s + t)[i + 2..] == s[i + 2..] + t;
    }
  }

  lemma TurnAppend(c: Core, s: bytes, t: bytes, lim: Limits)
    ensures SameOn(TurnOf(c, s, lim), TurnOf(c, s + t, lim), t)
  {
    match c.phase {
      case SizeLine => SizeLineAppend(c, s, t, lim);
      case Data => DataAppend(c, s, t);
      case DataCrlf => if |s| >= 2 { assert (s + t)[2..] == s[2..] + t; }
      case Trailers => TrailersAppend(c, s, t);
      case Complete =>
    }
  }

  // ------------------------------------------------- waiting for more input

  /** Data that arrives in two parts is appended in two parts. */
  lemma DataInParts(c: Core, s: bytes, t: bytes, lim: Limits)
    requires c.phase.Data? && s != [] && c.remaining > |s|
    ensures var c1 := TurnOf(c, s, lim).core;
            Run(c, s + t, lim) == Run(c1, t, lim)
  {
    var c1 := TurnOf(c, s, lim).core;
    if t == [] {
      assert s + t == s && s[|s|..] == [];
    } else {
      var n := if c.remaining <= |s + t| then c.remaining else |s + t|;
      assert (s + t)[..n] == s + t[..n - |s|];
      assert c.body + (s + t[..n - |s|]) == (c.body + s) + t[..n - |s|];
      assert s[..|s|] == s;
      assert (s + t)[n..] == t[n - |s|..];
    }
  }

  /** A call that waited resumes as if it had been given everything at once. */
  lemma {:induction false} ResumeWaiting(c: Core, s: bytes, t: bytes, lim: Limits)
    requires Run(c, s, lim).verdict == NeedMore
    ensures var r := Run(c, s, lim);
            Run(c, s + t, lim) == Run(r.core, r.unread + t, lim)
    decreases |s|, if c.phase.Data? then 1 else 0
  {
    hide TurnOf;
    var turn := TurnOf(c, s, lim);
    TurnAppend(c, s, t, lim);
    if turn.Go? {
      ResumeWaiting(turn.core, turn.unread, t, lim);
    } else {
      StoppedWaiting(c, s, t, lim);
    }
  }

  /** A turn that asks for more leaves everything to be read again, or has taken a part of the data. */
  lemma StoppedWaiting(c: Core, s: bytes, t: bytes, lim: Limits)
    requires TurnOf(c, s, lim).Stop? && TurnOf(c, s, lim).verdict == NeedMore
    ensures var turn := TurnOf(c, s, lim);
            Run(c, s + t, lim) == Run(turn.core, turn.unread + t, lim)
  {
    hide Run, Find, ParseSize;
    if c.phase.Data? && s != [] {
      DataInParts(c, s, t, lim);
      assert TurnOf(c, s, lim).unread + t == t;
    }
  }

  /** A call that completed, or found the body too large, is not changed by more input. */
  lemma {:induction false} ResumeDone(c: Core, s: bytes, t: bytes, lim: Limits)
    requires Run(c, s, lim).verdict == Consumed || Run(c, s, lim).verdict == TooLarge
    ensures var r := Run(c, s, lim);
            Run(c, s + t, lim) == Outcome(r.core, r.unread + t, r.verdict)
    decreases |s|, if c.phase.Data? then 1 else 0
  {
    var turn := TurnOf(c, s, lim);
    TurnAppend(c, s, t, lim);
    if turn.Go? { ResumeDone(turn.core, turn.unread, t, lim); }
  }

  // ------------------------------------------------------------- rejections

  lemma RejectSizeLine(c: Core, s: bytes, t: bytes, lim: Limits)
    requires SizeLineTurn(c, s, lim).Stop? && SizeLineTurn(c, s, lim).verdict == Invalid
    requires c.phase.SizeLine? && !(CutLine(c, s, lim) && t != [] && t[0] == LF)
    ensures SizeLineTurn(c, s + t, lim).Stop? && SizeLineTurn(c, s + t, lim).verdict == Invalid
  {
    if Find(s, CRLF, 0).Some? {
      FindStays(s, t, CRLF, 0);
      var i := Find(s, CRLF, 0).value;
      assert (s + t)[..i] == s[..i];
    } else if Find(s + t, CRLF, 0).Some? {
      FindAppendNone(s, t);
      var i := Find(s + t, CRLF, 0).value;
      if i == MAX_SIZE_LINE {
        assert |s| == i + 1;
        assert (s + t)[..i] == s[..i];
      } else {
        assert i > MAX_SIZE_LINE;
        assert |(s + t)[..i]| > MAX_SIZE_LINE;
      }
    }
  }

  lemma RejectTrailers(c: Core, s: bytes, t: bytes, lim: Limits)
    requires TrailersTurn(c, s).Stop? && TrailersTurn(c, s).verdict == Invalid
    requires c.phase.Trailers? && !(CutLine(c, s, lim) && t != [] && t[0] == LF)
    ensures TrailersTurn(c, s + t).Stop? && TrailersTurn(c, s + t).verdict == Invalid
  {
    if Find(s, CRLF, 0).Some? {
      FindStays(s, t, CRLF, 0);
    } else if Find(s + t, CRLF, 0).Some? {
      FindAppendNone(s, t);
    }
  }

  /** A rejection stands whatever follows, except the line feed of a cut line. */
  lemma {:induction false} RejectionStands(c: Core, s: bytes, t: bytes, lim: Limits)
    requires Run(c, s, lim).verdict == Invalid
    requires !Misjudged(Run(c, s, lim), t, lim)
    ensures Run(c, s + t, lim).verdict == Invalid
    decreases |s|, if c.phase.Data? then 1 else 0
  {
    var turn := TurnOf(c, s, lim);
    TurnAppend(c, s, t, lim);
    if turn.Go? {
      RejectionStands(turn.core, turn.unread, t, lim);
    } else if c.phase.SizeLine? {
      RejectSizeLine(c, s, t, lim);
    } else if c.phase.Trailers? {
      RejectTrailers(c, s, t, lim);
    }
  }

  lemma CutSizeLinePasses(c: Core, s: bytes, lim: Limits)
    requires CutSizeLine(c, s, lim)
    ensures Run(c, s + [LF], lim).verdict != Invalid
  {
    FindAppendCut(s, [LF]);
    assert (s + [LF])[..MAX_SIZE_LINE] == s[..MAX_SIZE_LINE];
    assert (s + [LF])[MAX_SIZE_LINE + 2..] == [];
    var turn := TurnOf(c, s + [LF], lim);
    if turn.Go? { NothingFollows(turn.core, lim); }
  }

  lemma CutTrailerPasses(c: Core, s: bytes, lim: Limits)
    requires CutTrailer(c, s)
    ensures Run(c, s + [LF], lim).verdict != Invalid
  {
    FindAppendCut(s, [LF]);
    assert (s + [LF])[MAX_TRAILER_BYTES..] == [];
    NothingFollows(TurnOf(c, s + [LF], lim).core, lim);
  }

  lemma NothingFollows(c: Core, lim: Limits)
    ensures Run(c, [], lim).verdict != Invalid
  {
  }

  lemma CutTurnPasses(c: Core, s: bytes, lim: Limits)
    requires TurnOf(c, s, lim).Stop? && RejectedCutLine(Run(c, s, lim), lim)
    ensures Run(c, s + [LF], lim).verdict != Invalid
  {
    StoppedWhereItWas(c, s, lim);
    if CutSizeLine(c, s, lim) { CutSizeLinePasses(c, s, lim); } else { CutTrailerPasses(c, s, lim); }
  }

  /** Without a line end in sight a turn leaves everything as it was. */
  lemma StoppedWhereItWas(c: Core, s: bytes, lim: Limits)
    requires TurnOf(c, s, lim).Stop? && RejectedCutLine(Run(c, s, lim), lim)
    ensures CutLine(c, s, lim)
  {
  }

  /** A cut line is no longer rejected once its line feed arrives. */
  lemma {:induction false} CutLinePasses(c: Core, s: bytes, lim: Limits)
    requires RejectedCutLine(Run(c, s, lim), lim)
    ensures Run(c, s + [LF], lim).verdict != Invalid
    decreases |s|, if c.phase.Data? then 1 else 0
  {
    var turn := TurnOf(c, s, lim);
    if turn.Go? {
      TurnAppend(c, s, [LF], lim);
      CutLinePasses(turn.core, turn.unread, lim);
    } else {
      CutTurnPasses(c, s, lim);
    }
  }

  /** Where the decoder gave up on a cut line it can be taken up again. */
  lemma {:induction false} CutContinues(c: Core, s: bytes, t: bytes, lim: Limits)
    requires RejectedCutLine(Run(c, s, lim), lim)
    ensures var r := Run(c, s, lim);
            Run(c, s + t, lim) == Run(r.core, r.unread + t, lim)
    decreases |s|, if c.phase.Data? then 1 else 0
  {
    var turn := TurnOf(c, s, lim);
    if turn.Go? {
      TurnAppend(c, s, t, lim);
      CutContinues(turn.core, turn.unread, t, lim);
    } else {
      StoppedWhereItWas(c, s, lim);
    }
  }

  /** A cut line after which the body can still be completed: a first trailer, the last chunk, or a
      chunk that fits the body limit and leaves room for the last one. */
  predicate Completable(c: Core, s: bytes, lim: Limits) {
    || CutTrailer(c, s)
    || (CutSizeLine(c, s, lim) &&
        var n := ParseSize(s[..MAX_SIZE_LINE]).value;
        n == 0 || (c.bodyBytes + n <= lim.maxBody && c.chunks + 1 < lim.maxChunks))
  }

  /** The first turn on a cut size line with its line feed. */
  lemma CutSizeLineTurn(c: Core, s: bytes, rest: bytes, lim: Limits)
    requires CutSizeLine(c, s, lim)
    ensures var c1 := c.(chunks := c.chunks + 1);
            SizeLineTurn(c, s + [LF] + rest, lim)
            == ChunkTurn(c1, ParseSize(s[..MAX_SIZE_LINE]), s + [LF] + rest, rest, lim)
  {
    hide Find, ParseSize;
    var all := s + [LF] + rest;
    assert all == s + ([LF] + rest);
    FindAppendCut(s, [LF] + rest);
    assert all[..MAX_SIZE_LINE] == s[..MAX_SIZE_LINE] && all[MAX_SIZE_LINE + 2..] == rest;
  }

  lemma CutTrailerTurn(c: Core, s: bytes, rest: bytes)
    requires CutTrailer(c, s)
    ensures TrailersTurn(c, s + [LF] + rest)
            == Go(c.(trailerLines := c.trailerLines + 1, trailerBytes := MAX_TRAILER_BYTES), rest)
  {
    hide Find;
    var all := s + [LF] + rest;
    assert all == s + ([LF] + rest);
    FindAppendCut(s, [LF] + rest);
    assert all[MAX_TRAILER_BYTES..] == rest;
  }

  /** Bytes that complete the body after a cut line. */
  function Completion(c: Core, s: bytes, lim: Limits): bytes
    requires Completable(c, s, lim)
  {
    if c.phase.Trailers? then CRLF
    else
      var n := ParseSize(s[..MAX_SIZE_LINE]).value;
      if n == 0 then CRLF else Fill(0, n) + CRLF + ChunkedEncoders.LAST_CHUNK
  }

  lemma CutCompletes(c: Core, s: bytes, lim: Limits)
    requires Completable(c, s, lim)
    ensures Run(c, s + [LF] + Completion(c, s, lim), lim).verdict == Consumed
  {
    var rest := Completion(c, s, lim);
    assert CRLF + [] == CRLF;
    if c.phase.Trailers? {
      CutTrailerTurn(c, s, rest);
      ChunkedEncoders.RunNoTrailers(TurnOf(c, s + [LF] + rest, lim).core, [], lim);
    } else {
      CutSizeLineTurn(c, s, rest, lim);
      ChunkCompletes(TurnOf(c, s + [LF] + rest, lim).core, ParseSize(s[..MAX_SIZE_LINE]).value, lim);
    }
  }

  lemma ChunkCompletes(c: Core, n: nat, lim: Limits)
    requires n == 0 ==> c.phase.Trailers?
    requires n > 0 ==> c.phase.Data? && c.remaining == n && c.chunks < lim.maxChunks
    ensures n == 0 ==> Run(c, CRLF, lim).verdict == Consumed
    ensures n > 0 ==>
              Run(c, Fill(0, n) + CRLF + ChunkedEncoders.LAST_CHUNK, lim).verdict == Consumed
  {
    hide Run;
    if n == 0 {
      assert CRLF + [] == CRLF;
      ChunkedEncoders.RunNoTrailers(c, [], lim);
    } else {
      var data, last := Fill(0, n), ChunkedEncoders.LAST_CHUNK;
      ChunkedEncoders.RunData(c, data, last, lim);
      assert last + [] == last;
      ChunkedEncoders.RunLast(
        c.(phase := SizeLine, remaining := 0, bodyBytes := c.bodyBytes + n, body := c.body + data), [], lim);
    }
  }

  /** With all its chunks used up before the last one, a body is never completed. */
  lemma {:induction false} NoChunkLeft(c: Core, s: bytes, lim: Limits)
    requires c.phase.SizeLine? || c.phase.Data? || c.phase.DataCrlf?
    requires c.chunks >= lim.maxChunks
    ensures Run(c, s, lim).verdict != Consumed
    decreases |s|, if c.phase.Data? then 1 else 0
  {
    hide Find, ParseSize;
    var turn := TurnOf(c, s, lim);
    if turn.Go? { NoChunkLeft(turn.core, turn.unread, lim); }
  }

  lemma OnlyCompletable(c: Core, s: bytes, t: bytes, lim: Limits)
    requires CutLine(c, s, lim) && t != [] && t[0] == LF
    requires Run(c, s + t, lim).verdict == Consumed
    ensures Completable(c, s, lim)
  {
    hide Run, CutTrailer, CutSizeLine, ParseSize;
    if !CutTrailer(c, s) {
      assert s + t == s + [LF] + t[1..];
      OnlyWithRoom(c, s, t[1..], lim);
    }
  }

  lemma OnlyWithRoom(c: Core, s: bytes, rest: bytes, lim: Limits)
    requires CutSizeLine(c, s, lim) && Run(c, s + [LF] + rest, lim).verdict == Consumed
    ensures Completable(c, s, lim)
  {
    hide Find, ParseSize, SizeLineTurn, CutTrailer;
    CutSizeLineTurn(c, s, rest, lim);
    var turn := TurnOf(c, s + [LF] + rest, lim);
    if turn.Go? && turn.core.phase.Data? && turn.core.chunks >= lim.maxChunks {
      NoChunkLeft(turn.core, turn.unread, lim);
    }
  }

  /** A rejected input can be continued to a complete body exactly when it ends in a cut line after
      which the body can still be completed. */
  lemma PrematureRejection(c: Core, s: bytes, lim: Limits)
    requires Run(c, s, lim).verdict == Invalid
    ensures (exists t :: Run(c, s + t, lim).verdict == Consumed)
            <==> Completable(Run(c, s, lim).core, Run(c, s, lim).unread, lim)
  {
    hide Run, CutTrailer, CutSizeLine;
    var r := Run(c, s, lim);
    if Completable(r.core, r.unread, lim) {
      var t := [LF] + Completion(r.core, r.unread, lim);
      CutContinues(c, s, t, lim);
      CutCompletes(r.core, r.unread, lim);
      assert r.unread + t == r.unread + [LF] + Completion(r.core, r.unread, lim);
    } else {
      forall t ensures Run(c, s + t, lim).verdict != Consumed {
        if Run(c, s + t, lim).verdict == Consumed {
          if !Misjudged(r, t, lim) { RejectionStands(c, s, t, lim); }
          CutContinues(c, s, t, lim);
          OnlyCompletable(r.core, r.unread, t, lim);
        }
      }
    }
  }

  // ------------------------------------------------------------ whole inputs

  function Concat(pieces: seq<bytes>): bytes {
    if pieces == [] then [] else pieces[0] + Concat(pieces[1..])
  }

  /** Calling the decoder after every arriving piece until it no longer asks for more. */
  function Feed(c: Core, unread: bytes, pieces: seq<bytes>, lim: Limits): Outcome
    decreases |pieces|
  {
    var r := Run(c, unread, lim);
    if r.verdict != NeedMore || pieces == [] then r
    else Feed(r.core, r.unread + pieces[0], pieces[1..], lim)
  }

  /** What the caller can tell about a result: the verdict, and on success the body and the leftover. */
  predicate SameResult(fed: Outcome, whole: Outcome, late: bytes) {
    && fed.verdict == whole.verdict
    && (fed.verdict != Invalid ==> fed.core == whole.core && fed.unread + late == whole.unread)
  }

  /** The pieces that arrive after the fed decoder has stopped. */
  function Late(c: Core, unread: bytes, pieces: seq<bytes>, lim: Limits): bytes
    decreases |pieces|
  {
    var r := Run(c, unread, lim);
    if r.verdict != NeedMore || pieces == [] then Concat(pieces)
    else Late(r.core, r.unread + pieces[0], pieces[1..], lim)
  }

  predicate Waits(c: Core, unread: bytes, pieces: seq<bytes>, lim: Limits) {
    Run(c, unread, lim).verdict == NeedMore && pieces != []
  }

  lemma WholeWaits(c: Core, unread: bytes, pieces: seq<bytes>, lim: Limits)
    requires Waits(c, unread, pieces, lim)
    ensures var r := Run(c, unread, lim);
            Run(c, unread + Concat(pieces), lim)
            == Run(r.core, (r.unread + pieces[0]) + Concat(pieces[1..]), lim)
  {
    var r := Run(c, unread, lim);
    ResumeWaiting(c, unread, Concat(pieces), lim);
    assert r.unread + (pieces[0] + Concat(pieces[1..])) == (r.unread + pieces[0]) + Concat(pieces[1..]);
  }

  lemma WholeStops(c: Core, unread: bytes, t: bytes, lim: Limits)
    requires var r := Run(c, unread, lim);
             r.verdict == NeedMore ==> t == []
    ensures var r, whole := Run(c, unread, lim), Run(c, unread + t, lim);
            SameResult(r, whole, t) <==> (Misjudged(r, t, lim) ==> whole.verdict == Invalid)
  {
    var r := Run(c, unread, lim);
    if r.verdict == NeedMore {
      assert unread + t == unread && r.unread + t == r.unread;
    } else if r.verdict == Invalid {
      if !Misjudged(r, t, lim) { RejectionStands(c, unread, t, lim); }
    } else {
      ResumeDone(c, unread, t, lim);
    }
  }

  lemma {:induction false} FeedAgrees(c: Core, unread: bytes, pieces: seq<bytes>, lim: Limits)
    ensures var fed, whole := Feed(c, unread, pieces, lim), Run(c, unread + Concat(pieces), lim);
            var late := Late(c, unread, pieces, lim);
            SameResult(fed, whole, late) <==> (Misjudged(fed, late, lim) ==> whole.verdict == Invalid)
    decreases |pieces|
  {
    if Waits(c, unread, pieces, lim) {
      var r := Run(c, unread, lim);
      WholeWaits(c, unread, pieces, lim);
      FeedAgrees(r.core, r.unread + pieces[0], pieces[1..], lim);
    } else {
      WholeStops(c, unread, Concat(pieces), lim);
    }
  }

  // --------------------------------------------------------------- where it is cut

  /** The next line is acceptable and as long as a size line, or a first trailer line, can be. */
  predicate MaximalLine(c: Core, s: bytes, lim: Limits) {
    || (&& c.phase.SizeLine? && Find(s, CRLF, 0) == Some(MAX_SIZE_LINE)
        && c.chunks < lim.maxChunks && ParseSize(s[..MAX_SIZE_LINE]).Some?)
    || (&& c.phase.Trailers? && Find(s, CRLF, 0) == Some(MAX_TRAILER_BYTES - 2)
        && c.trailerBytes == 0 && c.trailerLines < MAX_TRAILER_LINES)
  }

  /** Decoding all of `s` reaches an acceptable line of maximal length, and its carriage return and
      its line feed are bytes `k - 1` and `k`. */
  predicate InsideLineEnd(c: Core, s: bytes, k: nat, lim: Limits)
    decreases |s|, if c.phase.Data? then 1 else 0
  {
    || (MaximalLine(c, s, lim) && k == Find(s, CRLF, 0).value + 1)
    || (match TurnOf(c, s, lim)
        case Stop(_, _, _) => false
        case Go(c1, s1) => |s| - |s1| <= k && InsideLineEnd(c1, s1, k - (|s| - |s1|), lim))
  }

  /** A line that had not ended before the cut. */
  lemma UnendedLine(p: bytes, t: bytes)
    requires Find(p, CRLF, 0) == None
    ensures var f := Find(p + t, CRLF, 0);
            f.Some? ==> f.value + 1 >= |p| &&
                        (f.value + 1 == |p| <==> p != [] && p[|p| - 1] == CR && t != [] && t[0] == LF)
  {
    if Find(p + t, CRLF, 0).Some? { FindAppendNone(p, t); }
    if p != [] && p[|p| - 1] == CR && t != [] && t[0] == LF { FindAppendCut(p, t); }
  }

  lemma StopAtSizeLine(c: Core, p: bytes, t: bytes, lim: Limits)
    requires c.phase.SizeLine? && SizeLineTurn(c, p, lim).Stop?
    ensures Misjudged(Run(c, p, lim), t, lim) <==> InsideLineEnd(c, p + t, |p|, lim)
  {
    hide Find, ParseSize;
    if Find(p, CRLF, 0).Some? {
      FindStays(p, t, CRLF, 0);
      var i := Find(p, CRLF, 0).value;
      OccursFits(p, CRLF, i);
      assert (p + t)[..i] == p[..i];
    } else {
      UnendedLine(p, t);
      if |p| == MAX_SIZE_LINE + 1 { assert (p + t)[..MAX_SIZE_LINE] == p[..MAX_SIZE_LINE]; }
      if p != [] && p[|p| - 1] == CR && t != [] && t[0] == LF { FindAppendCut(p, t); }
    }
  }

  lemma StopAtTrailers(c: Core, p: bytes, t: bytes, lim: Limits)
    requires c.phase.Trailers? && TrailersTurn(c, p).Stop?
    ensures Misjudged(Run(c, p, lim), t, lim) <==> InsideLineEnd(c, p + t, |p|, lim)
  {
    hide Find;
    if Find(p, CRLF, 0).Some? {
      FindStays(p, t, CRLF, 0);
      OccursFits(p, CRLF, Find(p, CRLF, 0).value);
    } else {
      UnendedLine(p, t);
      if p != [] && p[|p| - 1] == CR && t != [] && t[0] == LF { FindAppendCut(p, t); }
    }
  }

  lemma StopAtData(c: Core, p: bytes, t: bytes, lim: Limits)
    requires !c.phase.SizeLine? && !c.phase.Trailers? && TurnOf(c, p, lim).Stop?
    ensures !Misjudged(Run(c, p, lim), t, lim) && !InsideLineEnd(c, p + t, |p|, lim)
  {
    hide SizeLineTurn, TrailersTurn;
    if c.phase.DataCrlf? && |p| >= 2 { assert (p + t)[0] == p[0] && (p + t)[1] == p[1]; }
  }

  lemma InsideMeansUnended(c: Core, p: bytes, t: bytes, lim: Limits)
    requires TurnOf(c, p, lim).Go?
    ensures !(MaximalLine(c, p + t, lim) && |p| == Find(p + t, CRLF, 0).value + 1)
  {
    hide Find, ParseSize;
    if c.phase.SizeLine? || c.phase.Trailers? {
      FindStays(p, t, CRLF, 0);
      OccursFits(p, CRLF, Find(p, CRLF, 0).value);
    }
  }

  /** Cutting the input after `p` misleads the decoder exactly when the cut is inside the line end
      of an acceptable line of maximal length. */
  lemma {:induction false} CutMisleads(c: Core, p: bytes, t: bytes, lim: Limits)
    ensures Misjudged(Run(c, p, lim), t, lim) <==> InsideLineEnd(c, p + t, |p|, lim)
    decreases |p|, if c.phase.Data? then 1 else 0
  {
    hide SizeLineTurn, DataTurn, DataCrlfTurn, TrailersTurn, MaximalLine;
    var turn := TurnOf(c, p, lim);
    if turn.Go? {
      TurnAppend(c, p, t, lim);
      InsideMeansUnended(c, p, t, lim);
      CutMisleads(turn.core, turn.unread, t, lim);
    } else if c.phase.SizeLine? {
      StopAtSizeLine(c, p, t, lim);
    } else if c.phase.Trailers? {
      StopAtTrailers(c, p, t, lim);
    } else {
      StopAtData(c, p, t, lim);
    }
  }

  /** Some cut between two pieces is inside the line end of an acceptable line of maximal length that
      decoding the whole input reaches. */
  predicate CutInLineEnd(c: Core, unread: bytes, pieces: seq<bytes>, lim: Limits) {
    exists j :: 0 <= j < |pieces| && CutAt(c, unread, pieces, j, lim)
  }

  predicate CutAt(c: Core, unread: bytes, pieces: seq<bytes>, j: nat, lim: Limits)
    requires j <= |pieces|
  {
    InsideLineEnd(c, unread + Concat(pieces), |unread + Concat(pieces[..j])|, lim)
  }

  lemma {:induction false} ConcatSplit(pieces: seq<bytes>, j: nat)
    requires j <= |pieces|
    ensures Concat(pieces) == Concat(pieces[..j]) + Concat(pieces[j..])
  {
    if j == 0 {
      assert pieces[0..] == pieces;
    } else {
      ConcatSplit(pieces[1..], j - 1);
      assert pieces[..j][1..] == pieces[1..][..j - 1] && pieces[1..][j - 1..] == pieces[j..];
    }
  }

  /** A cut, in terms of a decode of what comes before it. */
  lemma CutAtMeans(c: Core, unread: bytes, pieces: seq<bytes>, j: nat, lim: Limits)
    requires j <= |pieces|
    ensures CutAt(c, unread, pieces, j, lim) <==>
            Misjudged(Run(c, unread + Concat(pieces[..j]), lim), Concat(pieces[j..]), lim)
  {
    hide Run, InsideLineEnd;
    ConcatSplit(pieces, j);
    assert unread + Concat(pieces) == (unread + Concat(pieces[..j])) + Concat(pieces[j..]);
    CutMisleads(c, unread + Concat(pieces[..j]), Concat(pieces[j..]), lim);
  }

  /** After the first piece has been waited for, the later cuts are the same. */
  lemma CutAtLater(c: Core, unread: bytes, pieces: seq<bytes>, j: nat, lim: Limits)
    requires Waits(c, unread, pieces, lim) && j < |pieces|
    ensures var r := Run(c, unread, lim);
            CutAt(c, unread, pieces, j + 1, lim) <==> CutAt(r.core, r.unread + pieces[0], pieces[1..], j, lim)
  {
    hide Run, InsideLineEnd;
    var r := Run(c, unread, lim);
    CutAtMeans(c, unread, pieces, j + 1, lim);
    CutAtMeans(r.core, r.unread + pieces[0], pieces[1..], j, lim);
    assert pieces[1..][j..] == pieces[j + 1..];
    assert pieces[..j + 1][0] == pieces[0] && pieces[..j + 1][1..] == pieces[1..][..j];
    WholeWaits(c, unread, pieces[..j + 1], lim);
  }

  lemma {:induction false} MisjudgedAtCut(c: Core, unread: bytes, pieces: seq<bytes>, lim: Limits) returns (j: nat)
    requires Misjudged(Feed(c, unread, pieces, lim), Late(c, unread, pieces, lim), lim)
    ensures j < |pieces| && CutAt(c, unread, pieces, j, lim)
    decreases |pieces|
  {
    hide Run, CutAt, RejectedCutLine;
    if Waits(c, unread, pieces, lim) {
      var r := Run(c, unread, lim);
      j := MisjudgedAtCut(r.core, r.unread + pieces[0], pieces[1..], lim);
      CutAtLater(c, unread, pieces, j, lim);
      j := j + 1;
    } else {
      j := 0;
      CutAtMeans(c, unread, pieces, 0, lim);
      assert pieces[..0] == [] && pieces[0..] == pieces && unread + [] == unread;
    }
  }

  lemma {:induction false} CutIsRejected(c: Core, unread: bytes, pieces: seq<bytes>, j: nat, lim: Limits)
    requires j < |pieces| && CutAt(c, unread, pieces, j, lim)
    ensures Feed(c, unread, pieces, lim).verdict == Invalid
    decreases |pieces|
  {
    hide Run, CutAt;
    CutAtMeans(c, unread, pieces, j, lim);
    var r := Run(c, unread, lim);
    assert j == 0 ==> pieces[..j] == [] && unread + [] == unread;
    if r.verdict == NeedMore {
      CutAtLater(c, unread, pieces, j - 1, lim);
      CutIsRejected(r.core, r.unread + pieces[0], pieces[1..], j - 1, lim);
    } else if r.verdict != Invalid {
      ResumeDone(c, unread, Concat(pieces[..j]), lim);
    }
  }

  /**
   However the input is cut into pieces, the resumed decoder and a single call on
   the whole input agree on the verdict, the decoded body and the bytes left over,
   except exactly when the whole input is not rejected and some cut falls between
   the carriage return and the line feed of a line of maximal length.
   */
  lemma FeedIsWhole(c: Core, unread: bytes, pieces: seq<bytes>, lim: Limits)
    ensures var whole := Run(c, unread + Concat(pieces), lim);
            SameResult(Feed(c, unread, pieces, lim), whole, Late(c, unread, pieces, lim))
            <==> whole.verdict == Invalid || !CutInLineEnd(c, unread, pieces, lim)
  {
    hide Run, Feed, Late, CutAt;
    FeedAgrees(c, unread, pieces, lim);
    if Misjudged(Feed(c, unread, pieces, lim), Late(c, unread, pieces, lim), lim) {
      var j := MisjudgedAtCut(c, unread, pieces, lim);
    }
    if CutInLineEnd(c, unread, pieces, lim) {
      var j :| 0 <= j < |pieces| && CutAt(c, unread, pieces, j, lim);
      CutIsRejected(c, unread, pieces, j, lim);
    }
  }

  /** How many pieces the resumed decoder takes before it stops. */
  function Taken(c: Core, unread: bytes, pieces: seq<bytes>, lim: Limits): (k: nat)
    ensures k <= |pieces|
    decreases |pieces|
  {
    if !Waits(c, unread, pieces, lim) then 0
    else
      var r := Run(c, unread, lim);
      1 + Taken(r.core, r.unread + pieces[0], pieces[1..], lim)
  }

  /** Where the resumed decoder stopped at a cut line, it rejected, although a single call does not
      reject the pieces it took when a line feed follows them. */
  lemma {:induction false} FeedRejectsCutLine(c: Core, unread: bytes, pieces: seq<bytes>, lim: Limits)
    requires RejectedCutLine(Feed(c, unread, pieces, lim), lim)
    ensures Run(c, unread + Concat(pieces[..Taken(c, unread, pieces, lim)] + [[LF]]), lim).verdict != Invalid
    decreases |pieces|
  {
    hide Run, RejectedCutLine;
    if Waits(c, unread, pieces, lim) {
      var r := Run(c, unread, lim);
      var k := Taken(c, unread, pieces, lim);
      FeedRejectsCutLine(r.core, r.unread + pieces[0], pieces[1..], lim);
      var more := pieces[..k] + [[LF]];
      assert more[1..] == pieces[1..][..k - 1] + [[LF]];
      WholeWaits(c, unread, more, lim);
    } else {
      CutLinePasses(c, unread, lim);
      assert pieces[..0] + [[LF]] == [[LF]];
      assert Concat([[LF]]) == [LF] + Concat([]) == [LF];
    }
  }

  // ------------------------------------------------------------- an instance

  lemma LineEnd(line: bytes, rest: bytes)
    requires forall i :: 0 <= i < |line| ==> line[i] != CR
    ensures Find(line + CRLF + rest, CRLF, 0) == Some(|line|)
    ensures Find(line + [CR], CRLF, 0) == None
  {
    var s := line + CRLF + rest;
    assert s[|line|..|line| + 2] == CRLF;
    forall j | 0 <= j < |line| ensures !OccursAt(s, CRLF, j) {
      if OccursAt(s, CRLF, j) { OccursByte(s, CRLF, j, 0); }
    }
    FindIs(s, CRLF, 0, |line|);
    forall j | 0 <= j ensures !OccursAt(line + [CR], CRLF, j) {
      if OccursAt(line + [CR], CRLF, j) { OccursByte(line + [CR], CRLF, j, 0); }
    }
  }

  /** A chunk of one byte whose size line, `1;xxx...`, has the maximal length. */
  function LongSizeLine(): bytes { [49, SEMICOLON] + Fill(120, MAX_SIZE_LINE - 2) }

  lemma LongSizeLineParses()
    ensures ParseSize(LongSizeLine()) == Some(1)
    ensures |LongSizeLine()| == MAX_SIZE_LINE
    ensures forall i :: 0 <= i < |LongSizeLine()| ==> LongSizeLine()[i] != CR
  {
    var line := LongSizeLine();
    assert line[0] == 49 && line[1] == SEMICOLON;
    assert FindByte(line, SEMICOLON) == 1;
    assert line[..1] == [49];
    assert [49][..0] == [];
  }

  /** The bytes of a valid one-byte body: accepted in one piece, rejected when they arrive in
      two pieces cut before the line feed of the size line. */
  lemma SplitChangesVerdict(lim: Limits)
    requires lim.maxBody >= 1 && lim.maxChunks >= 2
    ensures var head, tail := LongSizeLine() + [CR], [LF] + [97] + CRLF + ChunkedEncoders.LAST_CHUNK;
            && Run(INITIAL, head + tail, lim).verdict == Consumed
            && Run(INITIAL, head + tail, lim).core.body == [97]
            && Feed(INITIAL, head, [tail], lim).verdict == Invalid
  {
    hide Run, LongSizeLine;
    var line, rest := LongSizeLine(), [97] + CRLF + ChunkedEncoders.LAST_CHUNK;
    LongSizeLineParses();
    MaximalLineCut(line, rest, lim);
    var head, tail := line + [CR], [LF] + [97] + CRLF + ChunkedEncoders.LAST_CHUNK;
    assert tail == [LF] + rest;
    assert head + tail == line + CRLF + rest;
    WholeInstance(Core(Data, 1, 1, 0, 0, 0, []), rest, lim);
  }

  /** A maximal size line of a one-byte chunk, cut and whole. */
  lemma MaximalLineCut(line: bytes, rest: bytes, lim: Limits)
    requires |line| == MAX_SIZE_LINE && ParseSize(line) == Some(1)
    requires forall i :: 0 <= i < |line| ==> line[i] != CR
    requires lim.maxBody >= 1 && lim.maxChunks >= 2
    ensures Run(INITIAL, line + [CR], lim) == Outcome(INITIAL, line + [CR], Invalid)
    ensures Run(INITIAL, line + CRLF + rest, lim) == Run(Core(Data, 1, 1, 0, 0, 0, []), rest, lim)
  {
    hide Find, ParseSize;
    var s := line + CRLF + rest;
    LineEnd(line, rest);
    assert s[..|line|] == line && s[|line| + 2..] == rest;
    assert TurnOf(INITIAL, s, lim) == Go(Core(Data, 1, 1, 0, 0, 0, []), rest);
  }

  lemma WholeInstance(c1: Core, rest: bytes, lim: Limits)
    requires lim.maxBody >= 1 && lim.maxChunks >= 2
    requires c1 == Core(Data, 1, 1, 0, 0, 0, []) && rest == [97] + CRLF + ChunkedEncoders.LAST_CHUNK
    ensures Run(c1, rest, lim).verdict == Consumed && Run(c1, rest, lim).core.body == [97]
  {
    hide Run;
    ChunkedEncoders.RunData(c1, [97], ChunkedEncoders.LAST_CHUNK, lim);
    var c2 := Core(SizeLine, 1, 0, 0, 0, 1, [97]);
    assert c2 == c1.(phase := SizeLine, remaining := 0, bodyBytes := 1, body := [] + [97]);
    assert ChunkedEncoders.LAST_CHUNK + [] == ChunkedEncoders.LAST_CHUNK;
    ChunkedEncoders.RunLast(c2, [], lim);
  }
}

/**
 Acceptable requests that the HTTP/1 parser refuses when they are cut inside a line
 end: every request at one of the limits, and for all limits that leave room for a
 GET request, the default ones among them, one such request.
 */
module CutRequests {
  import opened Bytes
  import opened Arithmetic
  import opened Http1Parser
  import opened HeaderRefusal
  import opened HeaderOrder

  // ------------------------------------------------------------------ the request line

  lemma NoLineEnd(line: bytes)
    requires CR !in line
    ensures Find(line + [CR], CRLF, 0) == None
  {
    hide Find;
    var s := line + [CR];
    forall i: nat ensures !OccursAt(s, CRLF, i) {
      if OccursAt(s, CRLF, i) {
        OccursFits(s, CRLF, i);
        OccursByte(s, CRLF, i, 0);
      }
    }
  }

  /** Every request line of the permitted length is refused when its line feed has not arrived. */
  lemma LineRefused(line: bytes, lim: Limits)
    requires CR !in line && RequestLine(line).Some? && |line| == lim.maxRequestLine
    ensures ParseRequest(line + [CR], lim) == Failed(UriTooLong)
    ensures ParseRequest(line + [CR] + [LF, CR, LF], lim).Parsed?
  {
    hide ParseRequest, RequestLine;
    var raw := line + [CR];
    NoLineEnd(line);
    assert raw[..|line|] == line;
    LongLineRefused(raw, lim);
    PrematureLineCompletes(raw, lim);
  }

  // ---------------------------------------------------------------------- the lines

  /** A prefix of a request that lacks a part of its empty line is unfinished. */
  lemma UnfinishedPart(line: bytes, ls: seq<bytes>, m: nat, lim: Limits)
    requires CR !in line && AreLines(ls) && |line| <= lim.maxRequestLine
    requires |line| + 2 <= m < |line| + |Lines(ls)| + 4
    ensures m <= |RawRequest(line, ls, [])| && Unfinished(RawRequest(line, ls, [])[..m], |line|, lim)
  {
    hide Find;
    var pre, rest := line + CRLF, Lines(ls) + CRLF + [];
    var all := RawRequest(line, ls, []);
    var raw := all[..m];
    assert all == pre + Lines(ls) + CRLF + [];
    BlockEnd(pre, ls, []);
    var tail := raw[|line| + 2..];
    assert raw == [] + line + CRLF + tail;
    LineFound([], line, tail);
    forall i | |line| <= i ensures !OccursAt(raw, CRLFCRLF, i) {
      if OccursAt(raw, CRLFCRLF, i) {
        OccursFits(raw, CRLFCRLF, i);
        OccursInPrefix(raw, all, CRLFCRLF, i);
      }
    }
  }

  /** The lines without their last byte. */
  function AllButFeed(ls: seq<bytes>): bytes { if Lines(ls) == [] then [] else Lines(ls)[..|Lines(ls)| - 1] }

  lemma FeedOfOne(l: bytes)
    ensures AllButFeed([l]) == l + [CR]
  {
    assert [l][1..] == [];
    assert Lines([l]) == l + CRLF;
  }

  lemma FeedOfMore(ls: seq<bytes>)
    requires |ls| > 1
    ensures AllButFeed(ls) == ls[0] + CRLF + AllButFeed(ls[1..])
  {
    LastByte(ls[1..]);
  }

  /** The scan of lines of which the last, one over the limit with its carriage return, is cut. */
  lemma {:induction false} ScanStopsAtLast(pre: bytes, ls: seq<bytes>, count: nat, lim: Limits)
    requires AreLines(ls) && ls != [] && |ls[|ls| - 1]| == lim.maxHeaderLine && Acceptable(ls, count, lim)
    ensures ScanLines(pre + AllButFeed(ls), |pre|, count, lim) == HeaderLineTooLarge
    decreases |ls|
  {
    hide Find, HeaderLine, AllButFeed;
    var l := ls[0];
    if |ls| == 1 {
      assert ls == [l];
      FeedOfOne(l);
      NoLineEndFrom(pre, l);
    } else {
      var tail := AllButFeed(ls[1..]);
      FeedOfMore(ls);
      AcceptableNext(ls, count, lim);
      ScanStopsAtLast(pre + l + CRLF, ls[1..], count + 1, lim);
      assert pre + AllButFeed(ls) == pre + l + CRLF + tail;
      LineFound(pre, l, tail);
    }
  }

  lemma NoLineEndFrom(pre: bytes, l: bytes)
    requires CR !in l
    ensures Find(pre + (l + [CR]), CRLF, |pre|) == None
  {
    hide Find;
    var s := pre + (l + [CR]);
    NoLineEnd(l);
    FindInSuffix(s, CRLF, |pre|);
    assert s[|pre|..] == l + [CR];
  }

  lemma BlockFails(raw: bytes, lim: Limits)
    requires FindBlock(raw, lim).NoBlock?
    ensures ParseRequest(raw, lim) == Failed(FindBlock(raw, lim).status)
  {
  }

  /** The cut request is a prefix of the whole one. */
  lemma CutRaw(line: bytes, ls: seq<bytes>)
    requires ls != []
    ensures var raw, all := line + CRLF + AllButFeed(ls), RawRequest(line, ls, []);
            && raw + [LF, CR, LF] == all && |raw| <= |all| && raw == all[..|raw|]
            && |raw| == |line| + 1 + |Lines(ls)| && |Lines(ls)| > 0
  {
    hide Lines;
    LastByte(ls);
    assert AllButFeed(ls) + [LF] == Lines(ls);
  }

  /** Every request whose last header line has the permitted length is refused when the line feed of
      that line has not arrived. */
  lemma FieldRefused(line: bytes, ls: seq<bytes>, lim: Limits)
    requires CR !in line && RequestLine(line).Some? && |line| <= lim.maxRequestLine
    requires AreLines(ls) && ls != [] && Acceptable(ls, 0, lim) && |ls[|ls| - 1]| == lim.maxHeaderLine
    requires |Lines(ls)| - 1 <= lim.maxHeaderBlock
    ensures var raw := line + CRLF + AllButFeed(ls);
            && ParseRequest(raw, lim) == Failed(HeaderLineTooLarge)
            && raw + [LF, CR, LF] == RawRequest(line, ls, []) && ParseRequest(raw + [LF, CR, LF], lim).Parsed?
  {
    hide ParseRequest, RequestLine, Find, Acceptable, AreLines, FindBlock, ScanLines, Lines, AllButFeed, RawRequest,
      Unfinished;
    var raw := line + CRLF + AllButFeed(ls);
    ParseRaw(line, ls, [], lim);
    CutRaw(line, ls);
    UnfinishedPart(line, ls, |raw|, lim);
    UnfinishedMeans(raw, |line|, lim);
    ScanStopsAtLast(line + CRLF, ls, 0, lim);
    BlockFails(raw, lim);
  }

  lemma {:induction false} LastByte(ls: seq<bytes>)
    requires ls != []
    ensures |Lines(ls)| >= 2 && Lines(ls)[|Lines(ls)| - 1] == LF
    decreases |ls|
  {
    if |ls| == 1 {
      assert Lines(ls[1..]) == [];
    } else {
      LastByte(ls[1..]);
    }
  }

  /** Every request whose header block has the permitted size is refused when its empty line has not
      arrived. */
  lemma BlockRefused(line: bytes, ls: seq<bytes>, lim: Limits)
    requires CR !in line && RequestLine(line).Some? && |line| <= lim.maxRequestLine
    requires AreLines(ls) && ls != [] && Acceptable(ls, 0, lim)
    requires |Lines(ls)| - 2 <= lim.maxHeaderBlock < |Lines(ls)|
    ensures var raw := line + CRLF + Lines(ls);
            && ParseRequest(raw, lim) == Failed(HeaderBlockTooLarge)
            && raw + CRLF == RawRequest(line, ls, []) && ParseRequest(raw + CRLF, lim).Parsed?
  {
    hide ParseRequest, RequestLine, Find, Acceptable, AreLines, FindBlock, ScanLines;
    ParseRaw(line, ls, [], lim);
    var raw, all := line + CRLF + Lines(ls), RawRequest(line, ls, []);
    assert raw + CRLF == all;
    assert raw == all[..|raw|];
    UnfinishedPart(line, ls, |raw|, lim);
    UnfinishedMeans(raw, |line|, lim);
    BlockFails(raw, lim);
  }

  // ---------------------------------------------------------------- requests at all limits

  /** "GET /aaa... HTTP/1.1", `n` bytes long. */
  function PaddedGet(n: nat): (line: bytes)
    requires n >= 14
    ensures |line| == n
  {
    [71, 69, 84, SP, 47] + Fill(97, n - 14) + [SP] + HTTP11
  }

  lemma PaddedGetIsValid(n: nat)
    requires n >= 14
    ensures RequestLine(PaddedGet(n)).Some? && CR !in PaddedGet(n)
  {
    var line, target := PaddedGet(n), [47] + Fill(97, n - 14);
    assert line == [71, 69, 84] + [SP] + (target + [SP] + HTTP11);
    FindByteAfter([71, 69, 84], SP, target + [SP] + HTTP11);
    assert line[..3] == [71, 69, 84] && line[4..] == target + [SP] + HTTP11;
    FindByteAfter(target, SP, HTTP11);
    assert (target + [SP] + HTTP11)[..|target|] == target && (target + [SP] + HTTP11)[|target| + 1..] == HTTP11;
    assert All(target, IsTargetChar);
  }

  /** "A:bbb...", `n` bytes long. */
  function PaddedField(n: nat): (l: bytes)
    requires n >= 2
    ensures |l| == n
  {
    [65, COLON] + Fill(98, n - 2)
  }

  lemma NothingToTrim(s: bytes)
    requires forall i :: 0 <= i < |s| ==> s[i] == 98
    ensures TrimRight(TrimLeft(s)) == s
  {
  }

  lemma PaddedFieldIsValid(n: nat)
    requires n >= 2
    ensures HeaderLine(PaddedField(n)).Some? && IsLine(PaddedField(n))
  {
    var l, value := PaddedField(n), Fill(98, n - 2);
    assert l == [65] + [COLON] + value;
    FindByteAfter([65], COLON, value);
    assert l[..1] == [65] && l[2..] == value;
    NothingToTrim(value);
    assert All(value, IsFieldChar);
  }

  /** At every limit from 14 bytes on there is a request line that is refused in this way. */
  lemma SomeLineRefused(lim: Limits)
    requires lim.maxRequestLine >= 14
    ensures var raw := PaddedGet(lim.maxRequestLine) + [CR];
            && ParseRequest(raw, lim) == Failed(UriTooLong) && ParseRequest(raw + [LF, CR, LF], lim).Parsed?
  {
    PaddedGetIsValid(lim.maxRequestLine);
    LineRefused(PaddedGet(lim.maxRequestLine), lim);
  }

  /** At every header line limit from 2 bytes on there is a request with such a header line. */
  lemma SomeFieldRefused(lim: Limits)
    requires lim.maxRequestLine >= 14 && lim.maxHeaders >= 1 && 2 <= lim.maxHeaderLine < lim.maxHeaderBlock
    ensures var raw := PaddedGet(14) + CRLF + PaddedField(lim.maxHeaderLine) + [CR];
            && ParseRequest(raw, lim) == Failed(HeaderLineTooLarge) && ParseRequest(raw + [LF, CR, LF], lim).Parsed?
  {
    hide ParseRequest, RequestLine, HeaderLine;
    var line, l := PaddedGet(14), PaddedField(lim.maxHeaderLine);
    var ls := [l];
    PaddedGetIsValid(14);
    PaddedFieldIsValid(lim.maxHeaderLine);
    assert Lines(ls) == l + CRLF + Lines(ls[1..]) == l + CRLF;
    FieldRefused(line, ls, lim);
    FeedOfOne(l);
    assert line + CRLF + AllButFeed(ls) == line + CRLF + l + [CR];
  }

  /** Header lines of at most `most` bytes that take `size` bytes with their line ends. */
  function Filling(size: nat, most: nat): (ls: seq<bytes>)
    requires size >= 4 && most >= 5
    ensures ls != []
    decreases size
  {
    if size <= most + 2 then [PaddedField(size - 2)]
    else if size >= most + 6 then [PaddedField(most)] + Filling(size - (most + 2), most)
    else [PaddedField(size - 6), PaddedField(2)]
  }

  /** Valid lines of at most `most` bytes that take `size` bytes. */
  ghost predicate Fills(ls: seq<bytes>, size: nat, most: nat) {
    && |Lines(ls)| == size && AreLines(ls)
    && forall i :: 0 <= i < |ls| ==> |ls[i]| <= most && HeaderLine(ls[i]).Some?
  }

  lemma FillsNone(most: nat)
    ensures Fills([], 0, most)
  {
  }

  lemma FillsMore(n: nat, ls: seq<bytes>, size: nat, most: nat)
    requires 2 <= n <= most && Fills(ls, size, most)
    ensures Fills([PaddedField(n)] + ls, n + 2 + size, most)
  {
    hide HeaderLine, PaddedField, IsLine;
    PaddedFieldIsValid(n);
    assert ([PaddedField(n)] + ls)[1..] == ls;
  }

  lemma {:induction false} FillingFills(size: nat, most: nat)
    requires size >= 4 && most >= 5
    ensures Fills(Filling(size, most), size, most) && |Filling(size, most)| == Pieces(size, most + 2)
    decreases size
  {
    hide Fills, PaddedField;
    FillsNone(most);
    if size <= most + 2 {
      FillsMore(size - 2, [], 0, most);
      assert [PaddedField(size - 2)] + [] == Filling(size, most);
    } else if size >= most + 6 {
      FillingFills(size - (most + 2), most);
      FillsMore(most, Filling(size - (most + 2), most), size - (most + 2), most);
    } else {
      FillsMore(2, [], 0, most);
      FillsMore(size - 6, [PaddedField(2)] + [], 4, most);
      assert [PaddedField(size - 6)] + ([PaddedField(2)] + []) == Filling(size, most);
    }
  }

  /** At every block limit there is a request with such a header block, if it may have enough lines. */
  lemma SomeBlockRefused(lim: Limits)
    requires lim.maxRequestLine >= 14 && lim.maxHeaderLine >= 5 && lim.maxHeaderBlock >= 2
    requires lim.maxHeaders >= Pieces(lim.maxHeaderBlock + 2, lim.maxHeaderLine + 2)
    ensures var raw := PaddedGet(14) + CRLF + Lines(Filling(lim.maxHeaderBlock + 2, lim.maxHeaderLine));
            && ParseRequest(raw, lim) == Failed(HeaderBlockTooLarge) && ParseRequest(raw + CRLF, lim).Parsed?
  {
    hide ParseRequest, RequestLine, HeaderLine, Filling, Lines, Pieces;
    PaddedGetIsValid(14);
    FillingFills(lim.maxHeaderBlock + 2, lim.maxHeaderLine);
    BlockRefused(PaddedGet(14), Filling(lim.maxHeaderBlock + 2, lim.maxHeaderLine), lim);
  }

  /** The default limits of the server. */
  const DEFAULTS: Limits := Limits(8192, 8192, 65536, 100, 100000)

  lemma DefaultsAreCovered()
    ensures var raw := PaddedGet(8192) + [CR];
            ParseRequest(raw, DEFAULTS) == Failed(UriTooLong) && ParseRequest(raw + [LF, CR, LF], DEFAULTS).Parsed?
    ensures var raw := PaddedGet(14) + CRLF + PaddedField(8192) + [CR];
            && ParseRequest(raw, DEFAULTS) == Failed(HeaderLineTooLarge)
            && ParseRequest(raw + [LF, CR, LF], DEFAULTS).Parsed?
    ensures var raw := PaddedGet(14) + CRLF + Lines(Filling(65538, 8192));
            && ParseRequest(raw, DEFAULTS) == Failed(HeaderBlockTooLarge)
            && ParseRequest(raw + CRLF, DEFAULTS).Parsed?
  {
    hide ParseRequest, Filling, Lines, PaddedGet, PaddedField, Pieces;
    PiecesIsCeiling(65538, 8194);
    SomeLineRefused(DEFAULTS);
    SomeFieldRefused(DEFAULTS);
    SomeBlockRefused(DEFAULTS);
  }
}

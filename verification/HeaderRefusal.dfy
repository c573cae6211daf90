/**
 When the HTTP/1 parser refuses a request whose header block has not arrived
 completely, although some continuation of the input would have been accepted:
 exactly when the input was cut in the middle of a line end, and everything before
 that line end is acceptable.
 */
module HeaderRefusal {
  import opened Bytes
  import opened Http1Parser

  predicate Refused(p: Http1Parser.Parsed) { p.Failed? && p.status != Incomplete }

  /** A line end lies across the end of the input. */
  predicate Straddles(raw: bytes, more: bytes) {
    raw != [] && raw[|raw| - 1] == CR && more != [] && more[0] == LF
  }

  /** The request line is acceptable and the empty line has not arrived. */
  predicate Unfinished(raw: bytes, eol: nat, lim: Limits) {
    Find(raw, CRLF, 0) == Some(eol) && eol <= lim.maxRequestLine && Find(raw, CRLFCRLF, eol) == None
  }

  lemma UnfinishedMeans(raw: bytes, eol: nat, lim: Limits)
    requires Unfinished(raw, eol, lim)
    ensures eol + 2 <= |raw|
    ensures FindBlock(raw, lim) == NoBlock(if |raw| > eol + 2 && |raw| - (eol + 2) > lim.maxHeaderBlock
                                           then HeaderBlockTooLarge else ScanLines(raw, eol + 2, 0, lim))
  {
    hide ScanLines;
    OccursFits(raw, CRLF, eol);
  }

  // -------------------------------------------------- lines that are already over

  /** Without a straddling line end, an unfinished line only gets longer. */
  lemma NextLine(raw: bytes, more: bytes, pos: nat)
    requires Find(raw, CRLF, pos) == None && !Straddles(raw, more)
    ensures var e := Find(raw + more, CRLF, pos); e.Some? ==> e.value >= |raw|
  {
    var e := Find(raw + more, CRLF, pos);
    if e.Some? && e.value < |raw| {
      OccursByte(raw + more, CRLF, e.value, 0);
      OccursByte(raw + more, CRLF, e.value, 1);
      if e.value + 2 <= |raw| { OccursInPrefix(raw, raw + more, CRLF, e.value); }
    }
  }

  lemma {:induction false} ScanStands(raw: bytes, more: bytes, pos: nat, count: nat, lim: Limits)
    requires ScanLines(raw, pos, count, lim) != Incomplete && !Straddles(raw, more)
    ensures ScanLines(raw + more, pos, count, lim) != Incomplete
    decreases |raw| - pos
  {
    hide Find, OccursAt;
    match Find(raw, CRLF, pos)
    case None => NextLine(raw, more, pos);
    case Some(e) =>
      FindStays(raw, more, CRLF, pos);
      if e - pos <= lim.maxHeaderLine && count < lim.maxHeaders {
        ScanStands(raw, more, e + 2, count + 1, lim);
      }
  }

  lemma OneLineEnd(s: bytes, i: nat)
    requires i + 2 <= |s| && s[i] == CR && s[i + 1] == LF
    ensures OccursAt(s, CRLF, i)
  {
    assert s[i..i + 2] == CRLF;
  }

  lemma TwoLineEnds(s: bytes, i: nat)
    requires i + 4 <= |s| && s[i] == CR && s[i + 1] == LF && s[i + 2] == CR && s[i + 3] == LF
    ensures OccursAt(s, CRLFCRLF, i)
  {
    assert s[i..i + 4] == CRLFCRLF;
  }

  /** A line that has begun belongs to the block, wherever the block will end. */
  lemma BlockEndsLater(raw: bytes, more: bytes, eol: nat, pos: nat, end: nat)
    requires eol + 2 <= pos < |raw| && OccursAt(raw, CRLF, pos - 2) && !Straddles(raw, more)
    requires Find(raw, CRLFCRLF, eol) == None && Find(raw + more, CRLFCRLF, eol) == Some(end)
    ensures pos < end
  {
    hide Find;
    var all := raw + more;
    OccursByte(raw, CRLF, pos - 2, 0);
    OccursByte(raw, CRLF, pos - 2, 1);
    OccursByte(all, CRLFCRLF, end, 0);
    OccursByte(all, CRLFCRLF, end, 1);
    OccursByte(all, CRLFCRLF, end, 2);
    OccursByte(all, CRLFCRLF, end, 3);
    if end + 4 <= |raw| { OccursInPrefix(raw, all, CRLFCRLF, end); }
    if end == pos { TwoLineEnds(all, pos - 2); }
  }

  lemma LineInBlock(all: bytes, pos: nat, end: nat)
    requires pos <= end && OccursAt(all, CRLFCRLF, end)
    ensures Find(all, CRLF, pos).Some? && Find(all, CRLF, pos).value <= end
  {
    hide Find;
    CrlfInside(all, end);
  }

  /** The header loop refuses a block whose beginning the scan has refused. */
  lemma {:induction false} FieldsRefused(raw: bytes, more: bytes, eol: nat, pos: nat, end: nat, lim: Limits,
                                         headers: seq<Field>)
    requires eol + 2 <= pos <= |raw| && OccursAt(raw, CRLF, pos - 2) && !Straddles(raw, more)
    requires Find(raw, CRLFCRLF, eol) == None && Find(raw + more, CRLFCRLF, eol) == Some(end) && end <= |raw + more|
    requires ScanLines(raw, pos, |headers|, lim) != Incomplete
    ensures ParseFields(raw + more, pos, end, lim, headers).BadFields?
    decreases |raw| - pos
  {
    hide Find, OccursAt, HeaderLine, Straddles;
    BlockEndsLater(raw, more, eol, pos, end);
    LineInBlock(raw + more, pos, end);
    match Find(raw, CRLF, pos)
    case None => NextLine(raw, more, pos);
    case Some(e) =>
      FindStays(raw, more, CRLF, pos);
      OccursFits(raw, CRLF, e);
      var field := HeaderLine((raw + more)[pos..e]);
      if e - pos <= lim.maxHeaderLine && |headers| < lim.maxHeaders && field.Some? {
        FieldsRefused(raw, more, eol, e + 2, end, lim, headers + [field.value]);
      }
  }

  /** A refusal by the scan stands, unless a line end straddles the end of the input. */
  lemma ScanRefusalStands(raw: bytes, more: bytes, eol: nat, lim: Limits)
    requires Unfinished(raw, eol, lim) && ScanLines(raw, eol + 2, 0, lim) != Incomplete && !Straddles(raw, more)
    ensures Refused(ParseRequest(raw + more, lim))
  {
    hide ScanLines, ParseFields, RequestLine, OccursAt;
    UnfinishedMeans(raw, eol, lim);
    FindStays(raw, more, CRLF, 0);
    var end := Find(raw + more, CRLFCRLF, eol);
    if end.None? {
      ScanStands(raw, more, eol + 2, 0, lim);
    } else {
      OccursFits(raw + more, CRLFCRLF, end.value);
      FieldsRefused(raw, more, eol, eol + 2, end.value, lim, []);
    }
  }

  // ------------------------------------------------------------ the lines that are there

  /** The last three bytes are the beginning of an empty line. */
  predicate AlmostEmptyLine(raw: bytes) {
    var n := |raw|;
    n >= 3 && raw[n - 3] == CR && raw[n - 2] == LF && raw[n - 1] == CR
  }

  /** How many bytes the input lacks to end with an empty line, if its last bytes are the beginning of
      one; 4 if they are not. */
  function Missing(raw: bytes): (m: nat)
    ensures m <= 3 ==> |raw| >= 4 - m
  {
    var n := |raw|;
    if AlmostEmptyLine(raw) then 1
    else if n >= 2 && raw[n - 2] == CR && raw[n - 1] == LF then 2
    else if n >= 1 && raw[n - 1] == CR then 3
    else 4
  }

  /** The line at `pos`, in a block whose last line ends at `end`, stops here. */
  function LineStop(raw: bytes, pos: nat, end: nat): (e: nat)
    requires pos < end
    ensures pos <= e <= end
  {
    match Find(raw, CRLF, pos)
    case None => end
    case Some(e) => if e <= end then e else end
  }

  /** The lines from `pos` to `end` are within the length and number limits. */
  predicate LinesFit(raw: bytes, pos: nat, end: nat, count: nat, lim: Limits)
    decreases end - pos
  {
    pos >= end ||
    var e := LineStop(raw, pos, end);
    e - pos <= lim.maxHeaderLine && count + 1 <= lim.maxHeaders && LinesFit(raw, e + 2, end, count + 1, lim)
  }

  /** The lines from `pos` to `end` are header fields. */
  predicate LinesValid(raw: bytes, pos: nat, end: nat)
    requires end <= |raw|
    decreases end - pos
  {
    pos >= end ||
    var e := LineStop(raw, pos, end);
    HeaderLine(raw[pos..e]).Some? && LinesValid(raw, e + 2, end)
  }

  /** A line of `raw` ends at `end`, possibly with its line feed in what follows. */
  predicate LineEndsAt(raw: bytes, more: bytes, end: nat) {
    OccursAt(raw, CRLF, end) || (end + 1 == |raw| && Straddles(raw, more))
  }

  lemma LineEndsInBoth(raw: bytes, more: bytes, end: nat)
    requires LineEndsAt(raw, more, end)
    ensures end < |raw| && OccursAt(raw + more, CRLF, end)
  {
    if OccursAt(raw, CRLF, end) {
      OccursInPrefix(raw, raw + more, CRLF, end);
    } else {
      assert (raw + more)[end..end + 2] == CRLF;
    }
  }

  /** The lines of the whole input up to there are the lines of the part. */
  lemma SameLine(raw: bytes, more: bytes, pos: nat, end: nat)
    requires LineEndsAt(raw, more, end) && pos < end
    ensures Find(raw + more, CRLF, pos) == Some(LineStop(raw, pos, end))
  {
    hide Find;
    LineEndsInBoth(raw, more, end);
    if Find(raw, CRLF, pos).Some? {
      FindStays(raw, more, CRLF, pos);
      OccursFits(raw, CRLF, Find(raw, CRLF, pos).value);
    } else {
      forall i | pos <= i < end ensures !OccursAt(raw + more, CRLF, i) { OccursInPrefix(raw, raw + more, CRLF, i); }
      FindIs(raw + more, CRLF, pos, end);
    }
  }

  /** The header loop accepts lines that fit and are valid, and no others. */
  lemma {:induction false} LinesParse(raw: bytes, more: bytes, pos: nat, end: nat, lim: Limits, headers: seq<Field>)
    requires LineEndsAt(raw, more, end) && end <= |raw|
    ensures ParseFields(raw + more, pos, end, lim, headers).Fields? <==>
            LinesFit(raw, pos, end, |headers|, lim) && LinesValid(raw, pos, end)
    decreases end - pos
  {
    hide Find, HeaderLine, LineEndsAt, LineStop;
    if pos >= end {
    } else {
      SameLine(raw, more, pos, end);
      var e := LineStop(raw, pos, end);
      assert (raw + more)[pos..e] == raw[pos..e];
      var field := HeaderLine(raw[pos..e]);
      if field.Some? { LinesParse(raw, more, e + 2, end, lim, headers + [field.value]); }
    }
  }

  /** A block that is accepted is accepted up to each of its line ends. */
  lemma {:induction false} FieldsUpTo(all: bytes, pos: nat, mid: nat, end: nat, lim: Limits, headers: seq<Field>)
    requires mid <= end <= |all| && OccursAt(all, CRLF, mid)
    requires ParseFields(all, pos, end, lim, headers).Fields?
    ensures ParseFields(all, pos, mid, lim, headers).Fields?
    decreases mid - pos
  {
    hide Find, HeaderLine, OccursAt;
    if pos >= mid {
    } else {
      var e := Find(all, CRLF, pos).value;
      var field := HeaderLine(all[pos..e]);
      FieldsUpTo(all, e + 2, mid, end, lim, headers + [field.value]);
    }
  }

  // ----------------------------------------------------------------- where it was cut

  /** The rest of an empty line of which the input has the first `4 - j` bytes. */
  function Rest(j: nat): bytes
    requires j <= 4
  {
    CRLFCRLF[4 - j..]
  }

  /** The empty line that the rest of a line end would complete is the first one. */
  lemma CompletedBlock(raw: bytes, eol: nat, lim: Limits)
    requires Unfinished(raw, eol, lim) && Missing(raw) <= 3
    ensures var m := Missing(raw);
            var end := |raw| + m - 4;
            && eol <= end && Find(raw + Rest(m), CRLFCRLF, eol) == Some(end)
            && LineEndsAt(raw, Rest(m), end)
  {
    hide Find;
    var m := Missing(raw);
    var end, all := |raw| + m - 4, raw + Rest(m);
    OccursFits(raw, CRLF, eol);
    OccursByte(raw, CRLF, eol, 1);
    TwoLineEnds(all, end);
    forall i | eol <= i < end ensures !OccursAt(all, CRLFCRLF, i) { NoEarlierEnd(raw, i, eol, m); }
    FindIs(all, CRLFCRLF, eol, end);
    if m <= 2 { OneLineEnd(raw, end); }
  }

  lemma NoEarlierEnd(raw: bytes, i: nat, eol: nat, m: nat)
    requires m == Missing(raw) <= 3 && Find(raw, CRLFCRLF, eol) == None && eol <= i < |raw| + m - 4
    ensures !OccursAt(raw + Rest(m), CRLFCRLF, i)
  {
    hide Find;
    var all := raw + Rest(m);
    if OccursAt(all, CRLFCRLF, i) {
      OccursByte(all, CRLFCRLF, i, 0);
      OccursByte(all, CRLFCRLF, i, 1);
      OccursByte(all, CRLFCRLF, i, 2);
      if i + 4 <= |raw| { OccursInPrefix(raw, all, CRLFCRLF, i); }
    }
  }

  // ----------------------------------------------------------------- accepted after all

  /**
   The input can still be continued to a request: everything before the line end in
   which it was cut is acceptable. The limits count what is before that line end,
   while the parser had counted its first bytes as well.
   */
  predicate Premature(raw: bytes, lim: Limits) {
    match Find(raw, CRLF, 0)
    case None => CutRequestLine(raw, lim) && RequestLine(raw[..lim.maxRequestLine]).Some?
    case Some(eol) =>
      && eol <= lim.maxRequestLine && eol <= |raw| && RequestLine(raw[..eol]).Some?
      && Find(raw, CRLFCRLF, eol) == None && Missing(raw) <= 3
      && var end := |raw| + Missing(raw) - 4;
         end - (eol + 2) <= lim.maxHeaderBlock && LinesFit(raw, eol + 2, end, 0, lim) && LinesValid(raw, eol + 2, end)
  }

  /** A request line of the permitted length, without its line feed. */
  predicate CutRequestLine(raw: bytes, lim: Limits) {
    |raw| == lim.maxRequestLine + 1 && raw[lim.maxRequestLine] == CR
  }

  lemma PrematureCompletes(raw: bytes, eol: nat, lim: Limits)
    requires Premature(raw, lim) && Find(raw, CRLF, 0) == Some(eol)
    ensures Unfinished(raw, eol, lim) && Missing(raw) <= 3
    ensures ParseRequest(raw + Rest(Missing(raw)), lim).Parsed?
  {
    hide Find, LinesFit, LinesValid, RequestLine, ParseFields, OccursAt, Missing;
    var m := Missing(raw);
    var all, end := raw + Rest(m), |raw| + m - 4;
    CompletedBlock(raw, eol, lim);
    FindStays(raw, Rest(m), CRLF, 0);
    OccursFits(raw, CRLF, eol);
    assert all[..eol] == raw[..eol];
    LinesParse(raw, Rest(m), eol + 2, end, lim, []);
  }

  lemma PrematureLineCompletes(raw: bytes, lim: Limits)
    requires Premature(raw, lim) && Find(raw, CRLF, 0) == None
    ensures ParseRequest(raw + [LF, CR, LF], lim).Parsed?
  {
    hide Find, RequestLine, OccursAt;
    var all := raw + [LF, CR, LF];
    var eol := |raw| - 1;
    FindAppendCut(raw, [LF, CR, LF]);
    TwoLineEnds(all, eol);
    FindIs(all, CRLFCRLF, eol, eol);
    assert all[..eol] == raw[..eol];
  }

  /** A refused input that is accepted later was cut in a line end of the block. */
  lemma CutShape(raw: bytes, more: bytes, eol: nat, end: nat, lim: Limits)
    requires Unfinished(raw, eol, lim) && Refused(ParseRequest(raw, lim)) && ParseRequest(raw + more, lim).Parsed?
    requires Find(raw + more, CRLFCRLF, eol) == Some(end)
    ensures Missing(raw) <= 3
    ensures var last := |raw| + Missing(raw) - 4; last <= end && LineEndsAt(raw, more, last)
  {
    hide ParseFields, RequestLine, ScanLines, OccursAt;
    RefusedHow(raw, eol, lim);
    if |raw| - (eol + 2) > lim.maxHeaderBlock {
      UnfinishedMeans(raw, eol, lim);
      FindStays(raw, more, CRLF, 0);
      CutInside(raw, more, eol, end);
    } else if !Straddles(raw, more) {
      ScanRefusalStands(raw, more, eol, lim);
    } else {
      UnfinishedMeans(raw, eol, lim);
      CutAcross(raw, more, eol, end);
    }
  }

  lemma RefusedHow(raw: bytes, eol: nat, lim: Limits)
    requires Unfinished(raw, eol, lim) && Refused(ParseRequest(raw, lim))
    ensures ScanLines(raw, eol + 2, 0, lim) != Incomplete || |raw| - (eol + 2) > lim.maxHeaderBlock
  {
    hide ScanLines;
    UnfinishedMeans(raw, eol, lim);
  }

  /** The last bytes before a cut inside an empty line. */
  lemma CutTail(raw: bytes, more: bytes, eol: nat, end: nat)
    requires Find(raw, CRLFCRLF, eol) == None && Find(raw + more, CRLFCRLF, eol) == Some(end) && end < |raw|
    ensures end + 4 > |raw| && raw[end] == CR
    ensures end + 1 < |raw| ==> raw[end + 1] == LF
    ensures end + 2 < |raw| ==> raw[end + 2] == CR
    ensures end + 1 == |raw| ==> more != [] && more[0] == LF
  {
    hide Find;
    var all := raw + more;
    OccursFits(all, CRLFCRLF, end);
    OccursByte(all, CRLFCRLF, end, 0);
    OccursByte(all, CRLFCRLF, end, 1);
    OccursByte(all, CRLFCRLF, end, 2);
    if end + 4 <= |raw| { OccursInPrefix(raw, all, CRLFCRLF, end); }
  }

  lemma CutInside(raw: bytes, more: bytes, eol: nat, end: nat)
    requires eol + 2 <= |raw| && OccursAt(raw, CRLF, eol)
    requires Find(raw, CRLFCRLF, eol) == None && Find(raw + more, CRLFCRLF, eol) == Some(end) && end < |raw|
    ensures Missing(raw) <= 3 && |raw| + Missing(raw) - 4 == end && LineEndsAt(raw, more, end)
  {
    hide Find;
    CutTail(raw, more, eol, end);
    OccursByte(raw, CRLF, eol, 1);
    if end + 1 < |raw| {
      OneLineEnd(raw, end);
    } else if AlmostEmptyLine(raw) {
      EmptyLineAcross(raw, more, eol);
    }
  }

  /** An input that ends with the first three bytes of an empty line, and the fourth. */
  lemma EmptyLineAcross(raw: bytes, more: bytes, eol: nat)
    requires AlmostEmptyLine(raw) && more != [] && more[0] == LF
    requires eol + 2 <= |raw| && OccursAt(raw, CRLF, eol)
    ensures eol <= |raw| - 3 && OccursAt(raw + more, CRLFCRLF, |raw| - 3) && OccursAt(raw, CRLF, |raw| - 3)
  {
    OccursByte(raw, CRLF, eol, 1);
    TwoLineEnds(raw + more, |raw| - 3);
    OneLineEnd(raw, |raw| - 3);
  }

  lemma CutAcross(raw: bytes, more: bytes, eol: nat, end: nat)
    requires eol + 2 <= |raw| && OccursAt(raw, CRLF, eol) && Straddles(raw, more)
    requires Find(raw, CRLFCRLF, eol) == None && Find(raw + more, CRLFCRLF, eol) == Some(end)
    ensures Missing(raw) <= 3
    ensures var last := |raw| + Missing(raw) - 4; last <= end && LineEndsAt(raw, more, last)
  {
    hide Find, OccursAt;
    if end < |raw| { CutTail(raw, more, eol, end); }
    if AlmostEmptyLine(raw) { EmptyLineAcross(raw, more, eol); }
  }

  lemma AcceptedIsPremature(raw: bytes, more: bytes, eol: nat, lim: Limits)
    requires Unfinished(raw, eol, lim) && Refused(ParseRequest(raw, lim)) && ParseRequest(raw + more, lim).Parsed?
    ensures Premature(raw, lim)
  {
    hide ParseFields, RequestLine, ScanLines, OccursAt, LinesFit, LinesValid, Missing;
    var all := raw + more;
    FindStays(raw, more, CRLF, 0);
    OccursFits(raw, CRLF, eol);
    assert all[..eol] == raw[..eol];
    var end := Find(all, CRLFCRLF, eol).value;
    CutShape(raw, more, eol, end, lim);
    var last := |raw| + Missing(raw) - 4;
    LineEndsInBoth(raw, more, last);
    OccursFits(all, CRLFCRLF, end);
    FieldsUpTo(all, eol + 2, last, end, lim, []);
    LinesParse(raw, more, eol + 2, last, lim, []);
  }

  /** A refusal of a finished block stands. */
  lemma FinishedBlock(raw: bytes, more: bytes, eol: nat, lim: Limits)
    requires Find(raw, CRLF, 0) == Some(eol) && Find(raw, CRLFCRLF, eol).Some?
    requires Refused(ParseRequest(raw, lim))
    ensures Refused(ParseRequest(raw + more, lim))
  {
    hide ParseFields, RequestLine, ScanLines, OccursAt;
    FindStays(raw, more, CRLF, 0);
    FindStays(raw, more, CRLFCRLF, eol);
    if FindBlock(raw, lim).Block? { ParseStays(raw, more, lim); }
  }

  /** What a refused input looks like that some continuation takes out of refusal. */
  lemma NotFinal(raw: bytes, more: bytes, lim: Limits)
    requires Refused(ParseRequest(raw, lim)) && !Refused(ParseRequest(raw + more, lim))
    ensures match Find(raw, CRLF, 0)
            case None => CutRequestLine(raw, lim) && Straddles(raw, more)
            case Some(eol) => Unfinished(raw, eol, lim)
  {
    hide ParseRequest, OccursAt;
    match Find(raw, CRLF, 0)
    case None =>
      if |raw| <= lim.maxRequestLine { ShortLineWaits(raw, lim); }
      if Find(raw + more, CRLF, 0).Some? { FindAppendNone(raw, more); }
      if !(CutRequestLine(raw, lim) && Straddles(raw, more)) { LongLineRefused(raw + more, lim); }
    case Some(eol) =>
      if eol > lim.maxRequestLine {
        FindStays(raw, more, CRLF, 0);
        LongLineRefused(raw + more, lim);
      } else if Find(raw, CRLFCRLF, eol).Some? {
        FinishedBlock(raw, more, eol, lim);
      }
  }

  lemma ShortLineWaits(raw: bytes, lim: Limits)
    requires Find(raw, CRLF, 0) == None && |raw| <= lim.maxRequestLine
    ensures ParseRequest(raw, lim) == Failed(Incomplete)
  {
  }

  lemma LineAccepted(raw: bytes, more: bytes, lim: Limits)
    requires Find(raw, CRLF, 0) == None && CutRequestLine(raw, lim) && Straddles(raw, more)
    requires ParseRequest(raw + more, lim).Parsed?
    ensures Premature(raw, lim)
  {
    hide RequestLine, ParseFields, ScanLines, OccursAt;
    FindAppendCut(raw, more);
    assert (raw + more)[..|raw| - 1] == raw[..|raw| - 1];
  }

  /**
   A refused input can be continued to an accepted request exactly when it was cut
   inside a line end, everything before that is acceptable, and the parser had only
   counted the beginning of that line end against a limit. Every other refusal is
   final.
   */
  lemma PrematureRefusal(raw: bytes, lim: Limits)
    requires Refused(ParseRequest(raw, lim))
    ensures (exists more :: ParseRequest(raw + more, lim).Parsed?) <==> Premature(raw, lim)
  {
    hide ParseRequest, Premature, Missing, OccursAt;
    var first := Find(raw, CRLF, 0);
    if Premature(raw, lim) {
      if first.None? { PrematureLineCompletes(raw, lim); } else { PrematureCompletes(raw, first.value, lim); }
    } else {
      forall more ensures !ParseRequest(raw + more, lim).Parsed? {
        if ParseRequest(raw + more, lim).Parsed? {
          NotFinal(raw, more, lim);
          if first.None? {
            LineAccepted(raw, more, lim);
          } else {
            AcceptedIsPremature(raw, more, first.value, lim);
          }
        }
      }
    }
  }

  // ------------------------------------------------------------------ waited for after all

  /** The input can still be continued to one that is not refused: to an accepted request, or to one
      that the parser would wait for, whatever it contains, because the cut line fits. */
  predicate Reopened(raw: bytes, lim: Limits) {
    || Premature(raw, lim)
    || (match Find(raw, CRLF, 0)
        case None => CutRequestLine(raw, lim)
        case Some(eol) =>
          && Unfinished(raw, eol, lim) && Missing(raw) == 3 && |raw| + 1 - (eol + 2) <= lim.maxHeaderBlock
          && LinesFit(raw, eol + 2, |raw| - 1, 0, lim))
  }

  /** The scan of the lines with the missing line feed. */
  lemma {:induction false} ScanIsFit(raw: bytes, pos: nat, count: nat, lim: Limits)
    requires Missing(raw) == 3 && 2 <= pos <= |raw| + 1
    requires pos <= |raw| ==> OccursAt(raw, CRLF, pos - 2)
    ensures ScanLines(raw + [LF], pos, count, lim) == Incomplete <==> LinesFit(raw, pos, |raw| - 1, count, lim)
    decreases |raw| + 1 - pos
  {
    hide Find, Missing, LineStop, OccursAt, Straddles;
    if pos == |raw| + 1 {
    } else {
      LineStartsBefore(raw, pos);
      SameLine(raw, [LF], pos, |raw| - 1);
      NextLineStart(raw, pos);
      ScanIsFit(raw, LineStop(raw, pos, |raw| - 1) + 2, count + 1, lim);
    }
  }

  lemma NextLineStart(raw: bytes, pos: nat)
    requires pos < |raw| - 1
    ensures var e := LineStop(raw, pos, |raw| - 1); e + 2 <= |raw| ==> OccursAt(raw, CRLF, e)
  {
    hide Find;
  }

  lemma LineStartsBefore(raw: bytes, pos: nat)
    requires Missing(raw) == 3 && 2 <= pos <= |raw| && OccursAt(raw, CRLF, pos - 2)
    ensures pos < |raw| - 1 && Straddles(raw, [LF])
  {
    OccursByte(raw, CRLF, pos - 2, 0);
    OccursByte(raw, CRLF, pos - 2, 1);
  }

  lemma NoBlockYet(raw: bytes, eol: nat, lim: Limits)
    requires Unfinished(raw, eol, lim) && Missing(raw) == 3
    ensures Unfinished(raw + [LF], eol, lim)
  {
    hide Find;
    FindStays(raw, [LF], CRLF, 0);
    CompletedBlock(raw, eol, lim);
    var all := raw + Rest(3);
    assert all == (raw + [LF]) + CRLF;
    forall i | eol <= i ensures !OccursAt(raw + [LF], CRLFCRLF, i) {
      if i + 4 <= |raw + [LF]| { OccursInPrefix(raw + [LF], all, CRLFCRLF, i); }
    }
  }

  lemma ReopenedWaits(raw: bytes, eol: nat, lim: Limits)
    requires Unfinished(raw, eol, lim) && Missing(raw) == 3 && |raw| + 1 - (eol + 2) <= lim.maxHeaderBlock
    requires LinesFit(raw, eol + 2, |raw| - 1, 0, lim)
    ensures ParseRequest(raw + [LF], lim) == Failed(Incomplete)
  {
    hide Find, LinesFit, Missing, OccursAt, ScanLines;
    NoBlockYet(raw, eol, lim);
    OccursFits(raw, CRLF, eol);
    ScanIsFit(raw, eol + 2, 0, lim);
    UnfinishedMeans(raw + [LF], eol, lim);
  }

  lemma WaitedIsReopened(raw: bytes, more: bytes, eol: nat, lim: Limits)
    requires Unfinished(raw, eol, lim) && Refused(ParseRequest(raw, lim))
    requires ParseRequest(raw + more, lim) == Failed(Incomplete)
    ensures Reopened(raw, lim)
  {
    hide Find, ParseFields, RequestLine, ScanLines, OccursAt, LinesFit, LinesValid, Missing, Premature;
    FindStays(raw, more, CRLF, 0);
    OccursFits(raw, CRLF, eol);
    assert Unfinished(raw + more, eol, lim);
    UnfinishedMeans(raw + more, eol, lim);
    RefusedHow(raw, eol, lim);
    if !Straddles(raw, more) { ScanRefusalStands(raw, more, eol, lim); }
    CutBeforeFeed(raw, more, eol);
    NoBlockYet(raw, eol, lim);
    var next, later := raw + [LF], more[1..];
    assert raw + more == next + later;
    if ScanLines(next, eol + 2, 0, lim) != Incomplete {
      assert !Straddles(next, later);
      ScanRefusalStands(next, later, eol, lim);
    }
    ScanIsFit(raw, eol + 2, 0, lim);
  }

  lemma CutBeforeFeed(raw: bytes, more: bytes, eol: nat)
    requires eol + 2 <= |raw| && OccursAt(raw, CRLF, eol) && Straddles(raw, more)
    requires Find(raw + more, CRLFCRLF, eol) == None
    ensures Missing(raw) == 3
  {
    hide Find;
    if AlmostEmptyLine(raw) { EmptyLineAcross(raw, more, eol); }
  }

  /** A refused input can be continued to one that is not refused exactly when it is reopened. */
  lemma RefusalReopened(raw: bytes, lim: Limits)
    requires Refused(ParseRequest(raw, lim))
    ensures (exists more :: !Refused(ParseRequest(raw + more, lim))) <==> Reopened(raw, lim)
  {
    hide ParseRequest, Premature, Missing, OccursAt, LinesFit;
    var first := Find(raw, CRLF, 0);
    if Reopened(raw, lim) {
      ReopenedSomehow(raw, lim);
    } else {
      forall more ensures Refused(ParseRequest(raw + more, lim)) {
        if !Refused(ParseRequest(raw + more, lim)) {
          NotFinal(raw, more, lim);
          if first.Some? {
            if ParseRequest(raw + more, lim).Parsed? {
              AcceptedIsPremature(raw, more, first.value, lim);
            } else {
              WaitedIsReopened(raw, more, first.value, lim);
            }
          }
        }
      }
    }
  }

  lemma ReopenedSomehow(raw: bytes, lim: Limits)
    requires Refused(ParseRequest(raw, lim)) && Reopened(raw, lim)
    ensures exists more :: !Refused(ParseRequest(raw + more, lim))
  {
    hide ParseRequest, Premature, Missing, OccursAt, LinesFit;
    match Find(raw, CRLF, 0)
    case None =>
      if Premature(raw, lim) {
        PrematureLineCompletes(raw, lim);
      } else {
        FindAppendCut(raw, [LF]);
        CutLineGoesOn(raw + [LF], lim);
      }
    case Some(eol) =>
      if Premature(raw, lim) { PrematureCompletes(raw, eol, lim); } else { ReopenedWaits(raw, eol, lim); }
  }
}

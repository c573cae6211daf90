/**
 The HTTP/1 request parser: the request line and the header fields of a request
 whose header block may not have arrived completely (section 3 of RFC 9112).
 */
module Http1Parser {
  import opened Bytes

  datatype Limits = Limits(
    maxRequestLine: nat,
    maxHeaderLine: nat,
    maxHeaderBlock: nat,
    maxHeaders: nat,
    maxChunks: nat)

  datatype Status =
    | Ok | Incomplete | BadRequest | UriTooLong | HeaderLineTooLarge | HeaderBlockTooLarge | TooManyHeaders

  type Field = (bytes, bytes)

  datatype Request = Request(verb: bytes, target: bytes, version: bytes, headers: seq<Field>, headerEnd: nat)

  datatype Parsed = Parsed(request: Request) | Failed(status: Status)

  const SP: byte := 32
  const HTAB: byte := 9
  const COLON: byte := 58
  /** "HTTP/1.0" and "HTTP/1.1" */
  const HTTP10: bytes := [72, 84, 84, 80, 47, 49, 46, 48]
  const HTTP11: bytes := [72, 84, 84, 80, 47, 49, 46, 49]

  // ------------------------------------------------------------------ characters

  predicate IsTchar(c: byte) {
    || c in {33, 35, 36, 37, 38, 39, 42, 43, 45, 46, 94, 95, 96, 124, 126}
    || 48 <= c <= 57 || 97 <= c <= 122 || 65 <= c <= 90
  }

  predicate IsTargetChar(c: byte) { c > 0x20 && c != 0x7F }

  predicate IsFieldChar(c: byte) { !((c < 0x20 && c != HTAB) || c == 0x7F) }

  predicate All(s: bytes, p: byte -> bool) { forall i :: 0 <= i < |s| ==> p(s[i]) }

  predicate IsOws(c: byte) { c == SP || c == HTAB }

  function TrimLeft(s: bytes): bytes { if s != [] && IsOws(s[0]) then TrimLeft(s[1..]) else s }

  function TrimRight(s: bytes): bytes { if s != [] && IsOws(s[|s| - 1]) then TrimRight(s[..|s| - 1]) else s }

  // ---------------------------------------------------------------- the two lines

  /** `parse_http1_request_line`. */
  function RequestLine(line: bytes): Option<(bytes, bytes, bytes)> {
    var sp1 := FindByte(line, SP);
    if sp1 == |line| || sp1 == 0 || !All(line[..sp1], IsTchar) then None
    else
      var rest := line[sp1 + 1..];
      var sp2 := FindByte(rest, SP);
      var target, version := rest[..sp2], if sp2 < |rest| then rest[sp2 + 1..] else [];
      if target == [] || !All(target, IsTargetChar) || (version != HTTP10 && version != HTTP11) then None
      else Some((line[..sp1], target, version))
  }

  /** `append_http1_header`. */
  function HeaderLine(line: bytes): Option<Field> {
    var colon := FindByte(line, COLON);
    if line == [] || IsOws(line[0]) || 0 in line || CR in line || colon == |line| || colon == 0 then None
    else
      var value := TrimRight(TrimLeft(line[colon + 1..]));
      if !All(line[..colon], IsTchar) || !All(value, IsFieldChar) then None else Some((line[..colon], value))
  }

  // --------------------------------------------------------------- the header block

  datatype Block = Block(lineEnd: nat, headerEnd: nat) | NoBlock(status: Status)

  /** The scan of an incomplete block for lines that are already too long or too many. */
  function ScanLines(raw: bytes, pos: nat, count: nat, lim: Limits): (s: Status)
    ensures s != Ok
    decreases |raw| - pos
  {
    if pos >= |raw| then Incomplete
    else
      match Find(raw, CRLF, pos)
      case None => if |raw| - pos > lim.maxHeaderLine then HeaderLineTooLarge else Incomplete
      case Some(end) =>
        if end - pos > lim.maxHeaderLine then HeaderLineTooLarge
        else if count + 1 > lim.maxHeaders then TooManyHeaders
        else ScanLines(raw, end + 2, count + 1, lim)
  }

  /** `find_complete_http1_header_block`. */
  function FindBlock(raw: bytes, lim: Limits): Block {
    match Find(raw, CRLF, 0)
    case None => NoBlock(if |raw| > lim.maxRequestLine then UriTooLong else Incomplete)
    case Some(eol) =>
      if eol > lim.maxRequestLine then NoBlock(UriTooLong)
      else
        match Find(raw, CRLFCRLF, eol)
        case Some(end) =>
          if end > eol + 2 && end - (eol + 2) > lim.maxHeaderBlock then NoBlock(HeaderBlockTooLarge)
          else Block(eol, end)
        case None =>
          if |raw| > eol + 2 && |raw| - (eol + 2) > lim.maxHeaderBlock then NoBlock(HeaderBlockTooLarge)
          else NoBlock(ScanLines(raw, eol + 2, 0, lim))
  }

  datatype Fields = Fields(headers: seq<Field>) | BadFields(status: Status)

  /** The header loop of `parse_request`, from `pos` to the end of the block. */
  function ParseFields(raw: bytes, pos: nat, end: nat, lim: Limits, headers: seq<Field>): (r: Fields)
    requires end <= |raw|
    ensures r.BadFields? ==> r.status != Ok && r.status != Incomplete
    decreases end - pos
  {
    if pos >= end then Fields(headers)
    else
      match Find(raw, CRLF, pos)
      case None => BadFields(BadRequest)
      case Some(lineEnd) =>
        if lineEnd > end then BadFields(BadRequest)
        else if lineEnd - pos > lim.maxHeaderLine then BadFields(HeaderLineTooLarge)
        else if |headers| + 1 > lim.maxHeaders then BadFields(TooManyHeaders)
        else
          match HeaderLine(raw[pos..lineEnd])
          case None => BadFields(BadRequest)
          case Some(field) => ParseFields(raw, lineEnd + 2, end, lim, headers + [field])
  }

  /** `parse_request`, as a function of the input. */
  function ParseRequest(raw: bytes, lim: Limits): (r: Parsed)
    ensures r != Failed(Ok)
  {
    match FindBlock(raw, lim)
    case NoBlock(status) => Failed(status)
    case Block(eol, end) =>
      match RequestLine(raw[..eol])
      case None => Failed(BadRequest)
      case Some((verb, target, version)) =>
        match ParseFields(raw, eol + 2, end, lim, [])
        case BadFields(status) => Failed(status)
        case Fields(headers) => Parsed(Request(verb, target, version, headers, end))
  }

  /** The header loop as the program runs it. */
  method ParseFieldLines(raw: bytes, start: nat, end: nat, lim: Limits) returns (r: Fields)
    requires end <= |raw|
    ensures r == ParseFields(raw, start, end, lim, [])
  {
    hide Find, HeaderLine;
    var headers: seq<Field> := [];
    var count, pos := 0, start;
    while pos < end
      invariant count == |headers|
      invariant ParseFields(raw, pos, end, lim, headers) == ParseFields(raw, start, end, lim, [])
      decreases end - pos
    {
      var lineEnd := Find(raw, CRLF, pos);
      if lineEnd.None? || lineEnd.value > end { return BadFields(BadRequest); }
      var line := raw[pos..lineEnd.value];
      if |line| > lim.maxHeaderLine { return BadFields(HeaderLineTooLarge); }
      count := count + 1;
      if count > lim.maxHeaders { return BadFields(TooManyHeaders); }
      var field := HeaderLine(line);
      if field.None? { return BadFields(BadRequest); }
      headers := headers + [field.value];
      pos := lineEnd.value + 2;
    }
    r := Fields(headers);
  }

  /** The scan of an incomplete block as the program runs it. */
  method ScanHeaderLines(raw: bytes, start: nat, lim: Limits) returns (r: Status)
    ensures r == ScanLines(raw, start, 0, lim)
  {
    hide Find;
    var count, pos := 0, start;
    while pos < |raw|
      invariant ScanLines(raw, pos, count, lim) == ScanLines(raw, start, 0, lim)
      decreases |raw| - pos
    {
      var end := Find(raw, CRLF, pos);
      var size := if end.None? then |raw| - pos else end.value - pos;
      if size > lim.maxHeaderLine { return HeaderLineTooLarge; }
      if end.None? { return Incomplete; }
      count := count + 1;
      if count > lim.maxHeaders { return TooManyHeaders; }
      pos := end.value + 2;
    }
    r := Incomplete;
  }

  /** `parse_request`. */
  method Parse(raw: bytes, lim: Limits) returns (r: Parsed)
    ensures r == ParseRequest(raw, lim)
  {
    hide Find, ParseFields, RequestLine, ScanLines;
    var eol := Find(raw, CRLF, 0);
    if eol.None? { return Failed(if |raw| > lim.maxRequestLine then UriTooLong else Incomplete); }
    if eol.value > lim.maxRequestLine { return Failed(UriTooLong); }
    var start := eol.value + 2;
    var end := Find(raw, CRLFCRLF, eol.value);
    if end.None? {
      if |raw| > start && |raw| - start > lim.maxHeaderBlock { return Failed(HeaderBlockTooLarge); }
      var status := ScanHeaderLines(raw, start, lim);
      return Failed(status);
    }
    if end.value > start && end.value - start > lim.maxHeaderBlock { return Failed(HeaderBlockTooLarge); }
    var line := RequestLine(raw[..eol.value]);
    if line.None? { return Failed(BadRequest); }
    var fields := ParseFieldLines(raw, start, end.value, lim);
    if fields.BadFields? { return Failed(fields.status); }
    var (verb, target, version) := line.value;
    r := Parsed(Request(verb, target, version, fields.headers, end.value));
  }

  // --------------------------------------------------------------------- properties

  /** The empty line that ends a parsed request lies inside the input. */
  lemma HeaderEndInside(raw: bytes, lim: Limits)
    requires ParseRequest(raw, lim).Parsed?
    ensures ParseRequest(raw, lim).request.headerEnd + 4 <= |raw|
    ensures |ParseRequest(raw, lim).request.headers| <= lim.maxHeaders
  {
    hide RequestLine, HeaderLine;
    var block := FindBlock(raw, lim);
    OccursFits(raw, CRLFCRLF, block.headerEnd);
    FieldCount(raw, block.lineEnd + 2, block.headerEnd, lim, []);
  }

  lemma {:induction false} FieldCount(raw: bytes, pos: nat, end: nat, lim: Limits, headers: seq<Field>)
    requires end <= |raw| && |headers| <= lim.maxHeaders
    ensures var r := ParseFields(raw, pos, end, lim, headers); r.Fields? ==> |r.headers| <= lim.maxHeaders
    decreases end - pos
  {
    hide HeaderLine;
    if pos < end && Find(raw, CRLF, pos).Some? {
      var lineEnd := Find(raw, CRLF, pos).value;
      if lineEnd <= end && |headers| < lim.maxHeaders && HeaderLine(raw[pos..lineEnd]).Some? {
        FieldCount(raw, lineEnd + 2, end, lim, headers + [HeaderLine(raw[pos..lineEnd]).value]);
      }
    }
  }

  lemma {:induction false} FieldsStay(raw: bytes, more: bytes, pos: nat, end: nat, lim: Limits, headers: seq<Field>)
    requires end + 2 <= |raw| && OccursAt(raw, CRLF, end)
    ensures ParseFields(raw + more, pos, end, lim, headers) == ParseFields(raw, pos, end, lim, headers)
    decreases end - pos
  {
    hide HeaderLine, Find, OccursAt;
    if pos < end {
      assert Find(raw, CRLF, pos).Some?;
      FindStays(raw, more, CRLF, pos);
      var lineEnd := Find(raw, CRLF, pos).value;
      if lineEnd <= end {
        assert (raw + more)[pos..lineEnd] == raw[pos..lineEnd];
        var field := HeaderLine(raw[pos..lineEnd]);
        if field.Some? { FieldsStay(raw, more, lineEnd + 2, end, lim, headers + [field.value]); }
      }
    }
  }

  /** Once the header block is complete, what follows it never changes how it is parsed, neither the
      request nor the reason to reject it. */
  lemma ParseStays(raw: bytes, more: bytes, lim: Limits)
    requires FindBlock(raw, lim).Block?
    ensures ParseRequest(raw + more, lim) == ParseRequest(raw, lim)
    ensures FindBlock(raw + more, lim) == FindBlock(raw, lim)
  {
    hide RequestLine, ParseFields;
    var eol := Find(raw, CRLF, 0).value;
    var end := Find(raw, CRLFCRLF, eol).value;
    FindStays(raw, more, CRLF, 0);
    FindStays(raw, more, CRLFCRLF, eol);
    assert (raw + more)[..eol] == raw[..eol];
    OccursFits(raw, CRLFCRLF, end);
    CrlfInside(raw, end);
    FieldsStay(raw, more, eol + 2, end, lim, []);
  }

  lemma CrlfInside(raw: bytes, end: nat)
    requires OccursAt(raw, CRLFCRLF, end)
    ensures OccursAt(raw, CRLF, end)
  {
    OccursByte(raw, CRLFCRLF, end, 0);
    OccursByte(raw, CRLFCRLF, end, 1);
    assert raw[end..end + 2] == CRLF;
  }

  lemma LongLineRefused(raw: bytes, lim: Limits)
    requires match Find(raw, CRLF, 0)
             case None => |raw| > lim.maxRequestLine
             case Some(eol) => eol > lim.maxRequestLine
    ensures ParseRequest(raw, lim) == Failed(UriTooLong)
  {
    hide Find, RequestLine, ParseFields, ScanLines;
  }

  /** Without a line end, a request line over the limit is refused at once; the refusal stands
      whatever follows, except when the input ends between the carriage return and the line feed of
      a line of exactly the permitted length, which would have been accepted. */
  lemma RequestLineRefusal(raw: bytes, lim: Limits)
    requires Find(raw, CRLF, 0) == None && |raw| > lim.maxRequestLine
    ensures ParseRequest(raw, lim) == Failed(UriTooLong)
    ensures (exists more :: ParseRequest(raw + more, lim) != Failed(UriTooLong))
            <==> |raw| == lim.maxRequestLine + 1 && raw[lim.maxRequestLine] == CR
  {
    hide Find, ParseRequest, OccursAt;
    LongLineRefused(raw, lim);
    if |raw| == lim.maxRequestLine + 1 && raw[lim.maxRequestLine] == CR {
      FindAppendCut(raw, [LF]);
      CutLineGoesOn(raw + [LF], lim);
    } else {
      forall more ensures ParseRequest(raw + more, lim) == Failed(UriTooLong) {
        if Find(raw + more, CRLF, 0).Some? { FindAppendNone(raw, more); }
        LongLineRefused(raw + more, lim);
      }
    }
  }

  lemma CutLineGoesOn(raw: bytes, lim: Limits)
    requires |raw| >= 2 && Find(raw, CRLF, 0) == Some(|raw| - 2) && |raw| - 2 <= lim.maxRequestLine
    ensures ParseRequest(raw, lim) == Failed(Incomplete)
  {
    hide Find, RequestLine, ParseFields;
    NoRoomForBlock(raw, |raw| - 2);
  }

  lemma NoRoomForBlock(raw: bytes, from: nat)
    requires |raw| < from + 4
    ensures Find(raw, CRLFCRLF, from) == None
  {
  }
}

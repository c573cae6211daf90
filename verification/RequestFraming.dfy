/**
 How the adversarial benchmark frames a request: which requests are rejected and
 why, and how many bytes an accepted request takes (sections 3.2 and 6.3 of
 RFC 9112).
 */
module RequestFraming {
  import opened Bytes
  import opened Http1Parser
  import ChunkedDecoder
  import ChunkedResume
  import HeaderRefusal

  datatype Reason =
    | Accepted
    | MalformedRequest | RequestLineTooLarge | HeaderLineTooLarge' | HeaderBlockTooLarge' | TooManyHeaders'
    | HeaderTimeout
    | MissingHost | DuplicateHost
    | ContentLengthWithTransferEncoding | DuplicateContentLength | InvalidTransferEncoding
    | MalformedContentLength | BodyTooLarge | UnsupportedTransferEncoding | InvalidChunk

  /** An `AdversarialCase`, apart from its raw bytes. */
  datatype Case = Case(limits: Limits, maxBody: nat, decodeChunked: bool, incompleteIsTimeout: bool)

  datatype Eval = Eval(status: Status, reason: Reason, headers: nat, consumed: nat, decoded: nat, complete: bool)

  /** "host", "content-length", "transfer-encoding", "chunked" */
  const HOST: bytes := [104, 111, 115, 116]
  const CONTENT_LENGTH: bytes := [99, 111, 110, 116, 101, 110, 116, 45, 108, 101, 110, 103, 116, 104]
  const TRANSFER_ENCODING: bytes :=
    [116, 114, 97, 110, 115, 102, 101, 114, 45, 101, 110, 99, 111, 100, 105, 110, 103]
  const CHUNKED: bytes := [99, 104, 117, 110, 107, 101, 100]

  predicate SameName(a: bytes, b: bytes) {
    |a| == |b| && forall i :: 0 <= i < |a| ==> LowerByte(a[i]) == LowerByte(b[i])
  }

  /** The values of a field, in order. */
  function Values(headers: seq<Field>, name: bytes): seq<bytes> {
    if headers == [] then []
    else (if SameName(headers[0].0, name) then [headers[0].1] else []) + Values(headers[1..], name)
  }

  /** `is_valid_chunked_transfer_encoding`. */
  predicate IsChunked(value: bytes) {
    var v := TrimRight(TrimLeft(value));
    |v| == |CHUNKED| && forall i :: 0 <= i < |v| ==> LowerByte(v[i]) == CHUNKED[i]
  }

  /** `parser_reject_reason`. */
  function ParserReason(status: Status): Reason {
    match status
    case Ok => Accepted
    case Incomplete => Accepted
    case BadRequest => MalformedRequest
    case UriTooLong => RequestLineTooLarge
    case HeaderLineTooLarge => HeaderLineTooLarge'
    case HeaderBlockTooLarge => HeaderBlockTooLarge'
    case TooManyHeaders => TooManyHeaders'
  }

  // ------------------------------------------------------- the decision on headers

  /** What the header fields decide about the body. */
  datatype Framing = Reject(reason: Reason) | NoBody | Fixed(length: nat) | Chunked

  function HostCheck(version: bytes, hosts: seq<bytes>): Option<Reason> {
    if version != HTTP11 then None
    else if |hosts| == 0 then Some(MissingHost)
    else if |hosts| > 1 then Some(DuplicateHost)
    else None
  }

  /** The checks from the host count to the transfer coding, in the program's order. */
  function FramingOf(version: bytes, headers: seq<Field>, maxBody: nat): (f: Framing)
    ensures f != Reject(Accepted)
  {
    var host := HostCheck(version, Values(headers, HOST));
    var lengths, codings := Values(headers, CONTENT_LENGTH), Values(headers, TRANSFER_ENCODING);
    if host.Some? then Reject(host.value)
    else if lengths != [] && codings != [] then Reject(ContentLengthWithTransferEncoding)
    else if |lengths| > 1 then Reject(DuplicateContentLength)
    else if |codings| > 1 then Reject(InvalidTransferEncoding)
    else if lengths != [] then
      (match FromChars(lengths[0], 10)
       case Number(n, used) =>
         if used != |lengths[0]| then Reject(MalformedContentLength)
         else if n > maxBody then Reject(BodyTooLarge)
         else Fixed(n)
       case _ => Reject(MalformedContentLength))
    else if codings != [] then
      (if IsChunked(codings[0]) then Chunked else Reject(UnsupportedTransferEncoding))
    else NoBody
  }

  lemma {:induction false} RunTakesPrefix(core: ChunkedDecoder.Core, s: bytes, lim: ChunkedDecoder.Limits)
    ensures |ChunkedDecoder.Run(core, s, lim).unread| <= |s|
    decreases |s|, if core.phase.Data? then 1 else 0
  {
    var turn := ChunkedDecoder.TurnOf(core, s, lim);
    if turn.Go? { RunTakesPrefix(turn.core, turn.unread, lim); }
  }

  /** The body part of `evaluate_case`, for a header block that ends before `start`. */
  function BodyOf(c: Case, raw: bytes, start: nat, framing: Framing, headers: nat): (e: Eval)
    requires start <= |raw|
    ensures e.status == Ok
  {
    var out := Eval(Ok, Accepted, headers, start, 0, true);
    match framing
    case Reject(reason) => out.(reason := reason)
    case NoBody => out
    case Fixed(n) => if |raw| - start < n then out.(complete := false) else out.(consumed := start + n)
    case Chunked =>
      if !c.decodeChunked then out
      else
        var r := ChunkedDecoder.Run(ChunkedDecoder.INITIAL, raw[start..], ChunkLimits(c));
        RunTakesPrefix(ChunkedDecoder.INITIAL, raw[start..], ChunkLimits(c));
        var decoded := out.(decoded := |r.core.body|);
        match r.verdict
        case NeedMore => decoded.(complete := false)
        case Invalid => decoded.(reason := InvalidChunk, consumed := |raw|)
        case TooLarge => decoded.(reason := BodyTooLarge, consumed := |raw|)
        case Consumed => decoded.(consumed := start + (|raw| - start - |r.unread|))
  }

  function ChunkLimits(c: Case): ChunkedDecoder.Limits { ChunkedDecoder.Limits(c.maxBody, c.limits.maxChunks) }

  /** `evaluate_case`. */
  function Evaluate(c: Case, raw: bytes): Eval {
    match ParseRequest(raw, c.limits)
    case Failed(status) =>
      Eval(status,
           if c.incompleteIsTimeout && status == Incomplete then HeaderTimeout else ParserReason(status),
           0, |raw|, 0, status != Incomplete)
    case Parsed(req) =>
      HeaderEndInside(raw, c.limits);
      BodyOf(c, raw, req.headerEnd + 4, FramingOf(req.version, req.headers, c.maxBody), |req.headers|)
  }

  // -------------------------------------------------------------------- properties

  /** A verdict never reports more bytes consumed than there are. */
  lemma ConsumedWithinInput(c: Case, raw: bytes)
    ensures Evaluate(c, raw).consumed <= |raw|
  {
    hide FramingOf, ChunkedDecoder.Run;
    match ParseRequest(raw, c.limits)
    case Failed(_) =>
    case Parsed(req) =>
      HeaderEndInside(raw, c.limits);
      RunTakesPrefix(ChunkedDecoder.INITIAL, raw[req.headerEnd + 4..], ChunkLimits(c));
  }

  // ------------------------------------------------- independence of header order

  lemma {:induction false} ValuesConcat(a: seq<Field>, b: seq<Field>, name: bytes)
    ensures Values(a + b, name) == Values(a, name) + Values(b, name)
  {
    hide SameName;
    if a == [] {
      assert a + b == b;
    } else {
      ValuesConcat(a[1..], b, name);
      assert (a + b)[0] == a[0] && (a + b)[1..] == a[1..] + b;
      var head := if SameName(a[0].0, name) then [a[0].1] else [];
      assert head + (Values(a[1..], name) + Values(b, name)) == head + Values(a[1..], name) + Values(b, name);
    }
  }

  lemma RemoveOne<T>(a: seq<T>, b: seq<T>, j: nat)
    requires a != [] && j < |b| && b[j] == a[0] && multiset(a) == multiset(b)
    ensures multiset(a[1..]) == multiset(b[..j] + b[j + 1..])
  {
    assert a == [a[0]] + a[1..];
    assert b == b[..j] + [b[j]] + b[j + 1..];
    assert multiset(a) == multiset{a[0]} + multiset(a[1..]);
    assert multiset(b) == multiset{a[0]} + multiset(b[..j] + b[j + 1..]);
    assert multiset(a[1..]) == multiset(a) - multiset{a[0]};
  }

  lemma ValuesWithout(b: seq<Field>, j: nat, name: bytes)
    requires j < |b|
    ensures multiset(Values(b, name)) == multiset(Values([b[j]], name)) + multiset(Values(b[..j] + b[j + 1..], name))
  {
    hide Values;
    assert b == b[..j] + ([b[j]] + b[j + 1..]);
    ValuesConcat(b[..j], [b[j]] + b[j + 1..], name);
    ValuesConcat([b[j]], b[j + 1..], name);
    ValuesConcat(b[..j], b[j + 1..], name);
  }

  /** A rearrangement of the fields rearranges the values of each name. */
  lemma {:induction false} ValuesRearranged(a: seq<Field>, b: seq<Field>, name: bytes)
    requires multiset(a) == multiset(b)
    ensures multiset(Values(a, name)) == multiset(Values(b, name))
    decreases |a|
  {
    hide Values;
    if a == [] {
      assert |multiset(a)| == |multiset(b)|;
      assert b == [];
    } else {
      assert a[0] in multiset(b);
      var j :| 0 <= j < |b| && b[j] == a[0];
      RemoveOne(a, b, j);
      ValuesRearranged(a[1..], b[..j] + b[j + 1..], name);
      ValuesWithout(b, j, name);
      ValuesWithout(a, 0, name);
      assert a[..0] + a[1..] == a[1..];
    }
  }

  lemma SameUpToOne(x: seq<bytes>, y: seq<bytes>)
    requires multiset(x) == multiset(y)
    ensures |x| == |y| && (|x| <= 1 ==> x == y)
  {
    assert |multiset(x)| == |multiset(y)|;
    if |x| == 1 { assert x[0] in multiset(y); }
  }

  /** The decision on the header fields depends only on which fields there are, not on their order. */
  lemma OrderIrrelevant(version: bytes, a: seq<Field>, b: seq<Field>, maxBody: nat)
    requires multiset(a) == multiset(b)
    ensures FramingOf(version, a, maxBody) == FramingOf(version, b, maxBody)
  {
    hide Values, SameName, IsChunked, FromChars;
    forall name ensures |Values(a, name)| == |Values(b, name)| &&
                        (|Values(a, name)| <= 1 ==> Values(a, name) == Values(b, name)) {
      ValuesRearranged(a, b, name);
      SameUpToOne(Values(a, name), Values(b, name));
    }
  }

  // ----------------------------------------------------------------- what is accepted

  /** A fixed length is accepted exactly with one Content-Length that is a number within the limit
      and no Transfer-Encoding; a chunked body exactly with one Transfer-Encoding that is `chunked`
      and no Content-Length. No request is framed by both. */
  lemma FramedByOne(version: bytes, headers: seq<Field>, maxBody: nat)
    ensures var f := FramingOf(version, headers, maxBody);
            var lengths, codings := Values(headers, CONTENT_LENGTH), Values(headers, TRANSFER_ENCODING);
            var hostOk := version == HTTP11 ==> |Values(headers, HOST)| == 1;
            && (forall n: nat :: f == Fixed(n) <==>
                  hostOk && codings == [] && |lengths| == 1
                  && FromChars(lengths[0], 10) == Number(n, |lengths[0]|) && n <= maxBody)
            && (f == Chunked <==> hostOk && lengths == [] && |codings| == 1 && IsChunked(codings[0]))
            && (f == NoBody <==> hostOk && lengths == [] && codings == [])
  {
    hide Values, IsChunked, FromChars;
  }

  /** A chunked request is complete exactly when the decoder completes, and then takes what it took. */
  ghost predicate ExtentOfChunked(c: Case, raw: bytes, start: nat, e: Eval) {
    start <= |raw| &&
    var r := ChunkedDecoder.Run(ChunkedDecoder.INITIAL, raw[start..], ChunkLimits(c));
    if !c.decodeChunked then e.complete && e.consumed == start
    else
      && (e.complete <==> r.verdict == ChunkedDecoder.Consumed)
      && (e.complete ==> e.consumed + |r.unread| == |raw| && e.decoded == |r.core.body|)
  }

  /** An accepted request has at most one Content-Length or Transfer-Encoding field in all, and an
      HTTP/1.1 one has one Host. With a length, it is complete exactly when that many bytes follow its
      header block, and then takes exactly those; with a coding, it takes exactly what the decoder takes. */
  lemma AcceptedByOne(c: Case, raw: bytes)
    requires Evaluate(c, raw).status == Ok && Evaluate(c, raw).reason == Accepted
    ensures ParseRequest(raw, c.limits).Parsed?
    ensures var e, req := Evaluate(c, raw), ParseRequest(raw, c.limits).request;
            var lengths, codings := Values(req.headers, CONTENT_LENGTH), Values(req.headers, TRANSFER_ENCODING);
            && |lengths| + |codings| <= 1 && (req.version == HTTP11 ==> |Values(req.headers, HOST)| == 1)
            && (lengths == [] && codings == [] ==> e.complete && e.consumed == req.headerEnd + 4)
            && (lengths != [] ==>
                  exists n: nat ::
                    && FromChars(lengths[0], 10) == Number(n, |lengths[0]|) && n <= c.maxBody
                    && (e.complete <==> req.headerEnd + 4 + n <= |raw|)
                    && (e.complete ==> e.consumed == req.headerEnd + 4 + n))
            && (codings != [] ==> IsChunked(codings[0]) && ExtentOfChunked(c, raw, req.headerEnd + 4, e))
  {
    hide ParseRequest, FramingOf, Values, IsChunked, FromChars, ChunkedDecoder.Run;
    var req := ParseRequest(raw, c.limits).request;
    HeaderEndInside(raw, c.limits);
    FramedByOne(req.version, req.headers, c.maxBody);
    var f := FramingOf(req.version, req.headers, c.maxBody);
    assert f.Fixed? ==> f == Fixed(f.length);
  }

  // -------------------------------------------------------------------- more input

  lemma BodyStands(c: Case, raw: bytes, more: bytes, start: nat, framing: Framing, headers: nat)
    requires start <= |raw|
    requires BodyOf(c, raw, start, framing, headers).complete
    requires framing.Chunked? && c.decodeChunked ==> !ChunkCut(c, raw[start..])
    ensures var e, e' := BodyOf(c, raw, start, framing, headers), BodyOf(c, raw + more, start, framing, headers);
            e'.reason == e.reason && e'.complete && (e.reason == Accepted ==> e' == e)
  {
    hide ChunkedDecoder.Run, ChunkedResume.RejectedCutLine;
    assert (raw + more)[start..] == raw[start..] + more;
    var r := ChunkedDecoder.Run(ChunkedDecoder.INITIAL, raw[start..], ChunkLimits(c));
    if !framing.Chunked? || !c.decodeChunked {
    } else if r.verdict == ChunkedDecoder.Invalid {
      ChunkedResume.RejectionStands(ChunkedDecoder.INITIAL, raw[start..], more, ChunkLimits(c));
    } else if r.verdict != ChunkedDecoder.NeedMore {
      ChunkedResume.ResumeDone(ChunkedDecoder.INITIAL, raw[start..], more, ChunkLimits(c));
    }
  }

  /** More input leaves the decision as it is: what the parser refused it still refuses, a rejection
      of a parsed request keeps its reason, and an accepted request keeps exactly its extent and
      its decoded size, so where the next request starts does not depend on what follows. */
  predicate Upheld(c: Case, raw: bytes, more: bytes) {
    var e, e' := Evaluate(c, raw), Evaluate(c, raw + more);
    && e'.complete
    && (if e.status == Ok then e'.reason == e.reason else e'.status != Ok && e'.reason != Accepted)
    && (e.reason == Accepted ==> e' == e)
  }

  /** The input was rejected in the middle of a line end that was still acceptable. */
  predicate Premature(c: Case, raw: bytes) {
    match ParseRequest(raw, c.limits)
    case Failed(_) => HeaderRefusal.Reopened(raw, c.limits)
    case Parsed(req) =>
      && FramingOf(req.version, req.headers, c.maxBody) == Chunked && c.decodeChunked
      && req.headerEnd + 4 <= |raw| && ChunkCut(c, raw[req.headerEnd + 4..])
  }

  predicate ChunkCut(c: Case, body: bytes) {
    ChunkedResume.RejectedCutLine(
      ChunkedDecoder.Run(ChunkedDecoder.INITIAL, body, ChunkLimits(c)), ChunkLimits(c))
  }

  lemma RefusalUpheld(c: Case, raw: bytes, more: bytes)
    requires HeaderRefusal.Refused(ParseRequest(raw, c.limits))
    ensures Upheld(c, raw, more) <==> HeaderRefusal.Refused(ParseRequest(raw + more, c.limits))
  {
    hide FramingOf, BodyOf, ParseRequest;
    var p := ParseRequest(raw + more, c.limits);
    if p.Parsed? { HeaderEndInside(raw + more, c.limits); }
  }

  lemma ParsedUpheld(c: Case, raw: bytes, more: bytes)
    requires ParseRequest(raw, c.limits).Parsed? && Evaluate(c, raw).complete && !Premature(c, raw)
    ensures Upheld(c, raw, more)
  {
    hide FramingOf, BodyOf, FindBlock, ParseRequest, ChunkCut;
    HeaderEndIsBlockEnd(raw, c.limits);
    ParseStays(raw, more, c.limits);
    HeaderEndInside(raw, c.limits);
    var req := ParseRequest(raw, c.limits).request;
    BodyStands(c, raw, more, req.headerEnd + 4, FramingOf(req.version, req.headers, c.maxBody), |req.headers|);
  }

  lemma CutOverturned(c: Case, raw: bytes)
    requires ParseRequest(raw, c.limits).Parsed? && Premature(c, raw)
    ensures !Upheld(c, raw, [LF])
  {
    hide FramingOf, FindBlock, ParseRequest, ChunkedDecoder.Run, ChunkedResume.CutLine;
    HeaderEndIsBlockEnd(raw, c.limits);
    ParseStays(raw, [LF], c.limits);
    HeaderEndInside(raw, c.limits);
    var start := ParseRequest(raw, c.limits).request.headerEnd + 4;
    assert (raw + [LF])[start..] == raw[start..] + [LF];
    ChunkedResume.CutLinePasses(ChunkedDecoder.INITIAL, raw[start..], ChunkLimits(c));
  }

  /**
   Once a request is decided, nothing that follows can change the decision, except
   exactly when it was rejected in the middle of a line end: a header block that the
   rest of a line end would have saved, or a chunked body cut before the line feed
   of a line of maximal length.
   */
  lemma DecisionStands(c: Case, raw: bytes)
    requires Evaluate(c, raw).complete
    ensures (forall more :: Upheld(c, raw, more)) <==> !Premature(c, raw)
  {
    hide Evaluate, Upheld, HeaderRefusal.Reopened, ParseRequest, ChunkCut, FramingOf;
    match ParseRequest(raw, c.limits)
    case Parsed(_) =>
      if Premature(c, raw) {
        CutOverturned(c, raw);
      } else {
        forall more ensures Upheld(c, raw, more) { ParsedUpheld(c, raw, more); }
      }
    case Failed(_) =>
      DecidedIsRefused(c, raw);
      HeaderRefusal.RefusalReopened(raw, c.limits);
      forall more ensures Upheld(c, raw, more) <==> HeaderRefusal.Refused(ParseRequest(raw + more, c.limits)) {
        RefusalUpheld(c, raw, more);
      }
  }

  lemma DecidedIsRefused(c: Case, raw: bytes)
    requires ParseRequest(raw, c.limits).Failed? && Evaluate(c, raw).complete
    ensures HeaderRefusal.Refused(ParseRequest(raw, c.limits))
  {
    hide ParseRequest;
  }

  lemma HeaderEndIsBlockEnd(raw: bytes, lim: Limits)
    requires ParseRequest(raw, lim).Parsed?
    ensures FindBlock(raw, lim).Block? && ParseRequest(raw, lim).request.headerEnd == FindBlock(raw, lim).headerEnd
  {
  }
}

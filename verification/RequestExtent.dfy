/**
 How the adversarial benchmark judges a whole request, told from its bytes: which
 fields decide about the body and for what reason a request is rejected, how far
 an accepted request extends, and that nothing shorter would have been accepted.
 */
module RequestExtent {
  import opened Bytes
  import ChunkedDecoder
  import ChunkedEncoders
  import opened ChunkedSyntax
  import opened HeaderOrder
  import opened Http1Parser
  import opened MessageSyntax
  import opened Numerals
  import opened RequestFraming

  // -------------------------------------------------------------- fields by their name

  /** Equal up to letter case. */
  predicate Named(name: bytes, text: string) { Upper(name) == Upper(Ascii(text)) }

  /** The values of the fields with the given name, in order. */
  function ValuesNamed(headers: seq<Field>, text: string): seq<bytes> {
    if headers == [] then []
    else if Named(headers[0].0, text) then [headers[0].1] + ValuesNamed(headers[1..], text)
    else ValuesNamed(headers[1..], text)
  }

  lemma SameNameIs(a: bytes, b: bytes)
    ensures SameName(a, b) <==> Upper(a) == Upper(b)
  {
    forall i | 0 <= i < |a| && i < |b|
      ensures LowerByte(a[i]) == LowerByte(b[i]) <==> UpperByte(a[i]) == UpperByte(b[i])
    {
      CaseFold(a[i], b[i]);
    }
    if |a| == |b| && SameName(a, b) { assert Upper(a) == Upper(b); }
    if Upper(a) == Upper(b) {
      assert |a| == |Upper(a)| == |b|;
      forall i | 0 <= i < |a| ensures LowerByte(a[i]) == LowerByte(b[i]) { assert Upper(a)[i] == Upper(b)[i]; }
    }
  }

  lemma CaseFold(a: byte, b: byte)
    ensures LowerByte(a) == LowerByte(b) <==> UpperByte(a) == UpperByte(b)
  {
  }

  lemma {:induction false} ValuesAre(headers: seq<Field>, name: bytes, text: string)
    requires name == Ascii(text)
    ensures Values(headers, name) == ValuesNamed(headers, text)
  {
    hide SameName, Upper;
    if headers == [] {
    } else {
      SameNameIs(headers[0].0, name);
      ValuesAre(headers[1..], name, text);
    }
  }

  lemma FieldNames()
    ensures HOST == Ascii("host") && CONTENT_LENGTH == Ascii("content-length")
    ensures TRANSFER_ENCODING == Ascii("transfer-encoding") && CHUNKED == Ascii("chunked")
  {
  }

  // --------------------------------------------------------------- the decision table

  /** A Content-Length: decimal digits and nothing else, below 2^64. */
  predicate IsLength(v: bytes) { v != [] && LeadingDigits(v) == |v| && Decimal(v, 0) < TWO64 }

  /** The coding "chunked" in any letter case, between blanks. */
  predicate IsCoding(v: bytes) {
    exists i, j :: 0 <= i <= j <= |v| && IsBlank(v[..i]) && IsBlank(v[j..]) && Named(v[i..j], "chunked")
  }

  lemma LengthIs(v: bytes)
    ensures IsLength(v) ==> FromChars(v, 10) == Number(Decimal(v, 0), |v|)
    ensures !IsLength(v) ==> !FromChars(v, 10).Number? || FromChars(v, 10).length != |v|
  {
    hide FromChars;
    FromCharsReads(v);
    assert v[..|v|] == v;
  }

  lemma LowerChunked(t: bytes)
    ensures (|t| == |CHUNKED| && forall i :: 0 <= i < |t| ==> LowerByte(t[i]) == CHUNKED[i]) <==> Named(t, "chunked")
    ensures Named(t, "chunked") ==> |t| == 7 && LowerByte(t[0]) == 99 && LowerByte(t[6]) == 100
  {
    FieldNames();
    SameNameIs(t, CHUNKED);
  }

  lemma CodingForm(v: bytes)
    requires IsChunked(v)
    ensures IsCoding(v)
  {
    hide TrimLeft, TrimRight, IsBlank, Named, IsTrimmed;
    var a, b := TrimForm(v);
    var t := TrimRight(TrimLeft(v));
    LowerChunked(t);
    var i, j := |a|, |a| + |t|;
    assert v[..i] == a && v[j..] == b && v[i..j] == t;
  }

  lemma CodingRead(v: bytes, i: nat, j: nat)
    requires i <= j <= |v| && IsBlank(v[..i]) && IsBlank(v[j..]) && Named(v[i..j], "chunked")
    ensures IsChunked(v)
  {
    hide TrimLeft, TrimRight, IsBlank, Named;
    LowerChunked(v[i..j]);
    assert IsTrimmed(v[i..j]);
    assert v == v[..i] + v[i..j] + v[j..];
    TrimPadded(v[..i], v[i..j], v[j..]);
  }

  lemma CodingIs(v: bytes)
    ensures IsChunked(v) <==> IsCoding(v)
  {
    hide IsChunked, IsBlank, Named;
    if IsChunked(v) { CodingForm(v); }
    if IsCoding(v) {
      var i, j :| 0 <= i <= j <= |v| && IsBlank(v[..i]) && IsBlank(v[j..]) && Named(v[i..j], "chunked");
      CodingRead(v, i, j);
    }
  }

  /**
   What the fields decide, for each outcome exactly when. The order of the rules
   is: the number of hosts, a length together with a coding, more than one of
   either, and then the one value there is.
   */
  lemma DecisionTable(version: bytes, headers: seq<Field>, maxBody: nat)
    ensures var f := FramingOf(version, headers, maxBody);
            var hosts := |ValuesNamed(headers, "host")|;
            var lengths, codings := ValuesNamed(headers, "content-length"), ValuesNamed(headers, "transfer-encoding");
            var needsHost := version == Ascii("HTTP/1.1");
            && (f == Reject(MissingHost) <==> needsHost && hosts == 0)
            && (f == Reject(DuplicateHost) <==> needsHost && hosts > 1)
            && ((needsHost ==> hosts == 1) ==> DecidedBy(f, lengths, codings, maxBody))
  {
    hide Values, ValuesNamed, IsChunked, IsCoding, IsLength, FromChars;
    FieldNames();
    Versions(version);
    assert Ascii("HTTP/1.1") == HTTP11;
    ValuesAre(headers, HOST, "host");
    ValuesAre(headers, CONTENT_LENGTH, "content-length");
    ValuesAre(headers, TRANSFER_ENCODING, "transfer-encoding");
    var lengths, codings := Values(headers, CONTENT_LENGTH), Values(headers, TRANSFER_ENCODING);
    if lengths != [] { LengthIs(lengths[0]); }
    if codings != [] { CodingIs(codings[0]); }
  }

  /** The rules after the host has been counted. */
  predicate DecidedBy(f: Framing, lengths: seq<bytes>, codings: seq<bytes>, maxBody: nat) {
    && (f == Reject(ContentLengthWithTransferEncoding) <==> lengths != [] && codings != [])
    && (f == Reject(DuplicateContentLength) <==> |lengths| > 1 && codings == [])
    && (f == Reject(InvalidTransferEncoding) <==> |codings| > 1 && lengths == [])
    && (f == Reject(MalformedContentLength) <==> |lengths| == 1 && codings == [] && !IsLength(lengths[0]))
    && (|lengths| == 1 && codings == [] && IsLength(lengths[0]) ==>
          f == if Decimal(lengths[0], 0) > maxBody then Reject(BodyTooLarge) else Fixed(Decimal(lengths[0], 0)))
    && (f == Reject(UnsupportedTransferEncoding) <==> |codings| == 1 && lengths == [] && !IsCoding(codings[0]))
    && (f == Chunked <==> |codings| == 1 && lengths == [] && IsCoding(codings[0]))
    && (f == NoBody <==> lengths == [] && codings == [])
  }

  /** A refusal by the parser is reported under its own name, and an unfinished head as complete or not. */
  lemma RefusalReason(c: Case, raw: bytes)
    requires ParseRequest(raw, c.limits).Failed?
    ensures var e, s := Evaluate(c, raw), ParseRequest(raw, c.limits).status;
            && e.status == s && e.consumed == |raw| && e.headers == 0 && e.decoded == 0
            && (s == Incomplete ==>
                  !e.complete && e.reason == if c.incompleteIsTimeout then HeaderTimeout else Accepted)
            && (s != Incomplete ==> e.complete && (s, e.reason) in REFUSALS)
  {
    hide ParseRequest;
  }

  const REFUSALS: set<(Status, Reason)> :=
    {(BadRequest, MalformedRequest), (UriTooLong, RequestLineTooLarge), (HeaderLineTooLarge, HeaderLineTooLarge'),
     (HeaderBlockTooLarge, HeaderBlockTooLarge'), (TooManyHeaders, TooManyHeaders')}

  // ---------------------------------------------------------------- whole requests

  /** A head of the grammar within the limits. */
  datatype Head = Head(verb: bytes, target: bytes, version: bytes, fields: seq<Written>)

  function LineOfHead(h: Head): bytes { h.verb + [SP] + h.target + [SP] + h.version }

  predicate IsHead(h: Head, lim: Limits) {
    && IsToken(h.verb) && IsTarget(h.target) && IsVersion(h.version) && AreWritten(h.fields)
    && Fits(LineOfHead(h), LinesOf(h.fields), lim)
  }

  /** The head as written, with the empty line that ends it. */
  function HeadWire(h: Head): bytes { LineOfHead(h) + CRLF + Lines(LinesOf(h.fields)) + CRLF }

  /** What the head's fields decide. */
  function FramingFor(h: Head, maxBody: nat): (f: Framing)
    ensures f != Reject(Accepted)
  {
    FramingOf(h.version, PairsOf(h.fields), maxBody)
  }

  lemma HeadEvaluated(c: Case, h: Head, tail: bytes)
    requires IsHead(h, c.limits)
    ensures Evaluate(c, HeadWire(h) + tail)
            == BodyOf(c, HeadWire(h) + tail, |HeadWire(h)|, FramingFor(h, c.maxBody), |h.fields|)
  {
    hide ParseRequest, FramingOf, BodyOf, Lines, LinesOf, PairsOf;
    HeadRead(h.verb, h.target, h.version, h.fields, tail, c.limits);
    assert RawRequest(LineOfHead(h), LinesOf(h.fields), tail) == HeadWire(h) + tail;
    PairsCount(h.fields);
  }

  lemma PairsCount(fs: seq<Written>)
    ensures |PairsOf(fs)| == |fs|
  {
  }

  /** A request that its fields reject is rejected for that reason at the end of its head. */
  lemma RejectedEvaluated(c: Case, h: Head, tail: bytes)
    requires IsHead(h, c.limits) && FramingFor(h, c.maxBody).Reject?
    ensures Evaluate(c, HeadWire(h) + tail)
            == Eval(Ok, FramingFor(h, c.maxBody).reason, |h.fields|, |HeadWire(h)|, 0, true)
  {
    hide Evaluate, HeadWire, FramingFor;
    HeadEvaluated(c, h, tail);
  }

  /** Without a body, a request ends with its head. */
  lemma BareEvaluated(c: Case, h: Head, tail: bytes)
    requires IsHead(h, c.limits)
    requires FramingFor(h, c.maxBody) == NoBody || (FramingFor(h, c.maxBody) == Chunked && !c.decodeChunked)
    ensures Evaluate(c, HeadWire(h) + tail) == Eval(Ok, Accepted, |h.fields|, |HeadWire(h)|, 0, true)
  {
    hide Evaluate, HeadWire, FramingFor;
    HeadEvaluated(c, h, tail);
  }

  /** With a length, it ends that many bytes after its head, and waits for them. */
  lemma FixedEvaluated(c: Case, h: Head, tail: bytes, n: nat)
    requires IsHead(h, c.limits) && FramingFor(h, c.maxBody) == Fixed(n)
    ensures Evaluate(c, HeadWire(h) + tail)
            == if n <= |tail| then Eval(Ok, Accepted, |h.fields|, |HeadWire(h)| + n, 0, true)
               else Eval(Ok, Accepted, |h.fields|, |HeadWire(h)|, 0, false)
  {
    hide Evaluate, HeadWire, FramingFor;
    HeadEvaluated(c, h, tail);
  }

  /** A chunked request ends with its body, and what follows is not looked at. */
  lemma ChunkedEvaluated(c: Case, h: Head, ps: seq<Piece>, last: bytes, ts: seq<bytes>, rest: bytes)
    requires IsHead(h, c.limits) && FramingFor(h, c.maxBody) == Chunked && c.decodeChunked
    requires IsBody(ps, last, ts) && BodyFits(ps, ts, ChunkLimits(c))
    ensures var body := BodyWire(ps, last, ts);
            Evaluate(c, HeadWire(h) + (body + rest))
            == Eval(Ok, Accepted, |h.fields|, |HeadWire(h)| + |body|, |DataOf(ps)|, true)
  {
    hide Evaluate, HeadWire, FramingFor, IsBody, BodyFits, BodyWire, ChunkedDecoder.Run;
    var body := BodyWire(ps, last, ts);
    var raw := HeadWire(h) + (body + rest);
    HeadEvaluated(c, h, body + rest);
    assert raw[|HeadWire(h)|..] == body + rest;
    BodyRead(ps, last, ts, rest, ChunkLimits(c));
  }

  /** Otherwise the decoder's verdict is the request's: an invalid chunk or too much data rejects all
      that has arrived, and an unfinished body waits; in each case what has been decoded is reported. */
  lemma UndecodedEvaluated(c: Case, h: Head, tail: bytes)
    requires IsHead(h, c.limits) && FramingFor(h, c.maxBody) == Chunked && c.decodeChunked
    ensures var r := ChunkedDecoder.Run(ChunkedDecoder.INITIAL, tail, ChunkLimits(c));
            var e, size := Evaluate(c, HeadWire(h) + tail), |HeadWire(h)| + |tail|;
            && (r.verdict == ChunkedDecoder.Invalid ==>
                  e == Eval(Ok, InvalidChunk, |h.fields|, size, |r.core.body|, true))
            && (r.verdict == ChunkedDecoder.TooLarge ==>
                  e == Eval(Ok, BodyTooLarge, |h.fields|, size, |r.core.body|, true))
            && (r.verdict == ChunkedDecoder.NeedMore ==>
                  e == Eval(Ok, Accepted, |h.fields|, |HeadWire(h)|, |r.core.body|, false))
  {
    hide Evaluate, HeadWire, FramingFor, ChunkedDecoder.Run;
    HeadEvaluated(c, h, tail);
    assert (HeadWire(h) + tail)[|HeadWire(h)|..] == tail;
  }

  /** Any body, sent in chunks of any size within the limits, is decoded whole and the request ends with it. */
  lemma EncodedEvaluated(c: Case, h: Head, body: bytes, k: nat, rest: bytes)
    requires IsHead(h, c.limits) && FramingFor(h, c.maxBody) == Chunked && c.decodeChunked
    requires 0 < k < TWO64 && |body| <= c.maxBody && (|body| + k - 1) / k < c.limits.maxChunks
    ensures var encoded := ChunkedEncoders.Encode(body, k);
            Evaluate(c, HeadWire(h) + (encoded + rest))
            == Eval(Ok, Accepted, |h.fields|, |HeadWire(h)| + |encoded|, |body|, true)
  {
    hide Evaluate, HeadWire, FramingFor, ChunkedDecoder.Run, ChunkedEncoders.Encode;
    var encoded := ChunkedEncoders.Encode(body, k);
    var raw := HeadWire(h) + (encoded + rest);
    HeadEvaluated(c, h, encoded + rest);
    assert raw[|HeadWire(h)|..] == encoded + rest;
    ChunkedEncoders.RoundTrip(body, k, rest, ChunkLimits(c));
  }

  // ------------------------------------------------------------------ the extent

  lemma HeadOf(raw: bytes, lim: Limits) returns (h: Head, tail: bytes)
    requires ParseRequest(raw, lim).Parsed?
    ensures IsHead(h, lim) && raw == HeadWire(h) + tail
  {
    hide ParseRequest, IsToken, IsTarget, IsVersion, AreWritten, Fits, Lines;
    var line, fs, body := HeadForm(raw, lim);
    var r := ParseRequest(raw, lim).request;
    h, tail := Head(r.verb, r.target, r.version, fs), body;
  }

  lemma AcceptedIsParsed(c: Case, raw: bytes)
    requires Evaluate(c, raw).complete && Evaluate(c, raw).reason == Accepted
    ensures ParseRequest(raw, c.limits).Parsed?
  {
    hide ParseRequest;
  }

  /** How far an accepted request goes beyond its head. */
  lemma AcceptedForm(c: Case, h: Head, tail: bytes) returns (m: nat)
    requires IsHead(h, c.limits)
    requires Evaluate(c, HeadWire(h) + tail).complete && Evaluate(c, HeadWire(h) + tail).reason == Accepted
    ensures m <= |tail| && Evaluate(c, HeadWire(h) + tail).consumed == |HeadWire(h)| + m
    ensures Evaluate(c, HeadWire(h) + tail[..m]) == Evaluate(c, HeadWire(h) + tail)
  {
    hide Evaluate, HeadWire, FramingFor, BodyWire, IsBody, BodyFits, ChunkedDecoder.Run;
    var f := FramingFor(h, c.maxBody);
    HeadEvaluated(c, h, tail);
    if f.Fixed? {
      m := f.length;
      FixedEvaluated(c, h, tail, m);
      FixedEvaluated(c, h, tail[..m], m);
    } else if f.Chunked? && c.decodeChunked {
      assert (HeadWire(h) + tail)[|HeadWire(h)|..] == tail;
      var ps, last, ts, rest := BodyForm(tail, ChunkLimits(c));
      var body := BodyWire(ps, last, ts);
      m := |body|;
      ChunkedEvaluated(c, h, ps, last, ts, rest);
      ChunkedEvaluated(c, h, ps, last, ts, []);
      assert tail[..m] == body + [];
    } else {
      m := 0;
      BareEvaluated(c, h, tail);
      BareEvaluated(c, h, tail[..m]);
    }
  }

  lemma TakeBoth(a: bytes, b: bytes, m: nat)
    requires m <= |b|
    ensures (a + b)[..|a| + m] == a + b[..m]
  {
  }

  /** The bytes an accepted request reports as its own are accepted alone, with the same result. */
  lemma OwnExtent(c: Case, raw: bytes)
    requires Evaluate(c, raw).complete && Evaluate(c, raw).reason == Accepted
    ensures Evaluate(c, raw).consumed <= |raw|
    ensures Evaluate(c, raw[..Evaluate(c, raw).consumed]) == Evaluate(c, raw)
  {
    hide Evaluate, HeadWire, IsHead, ParseRequest;
    AcceptedIsParsed(c, raw);
    var h, tail := HeadOf(raw, c.limits);
    var m := AcceptedForm(c, h, tail);
    TakeBoth(HeadWire(h), tail, m);
  }

  /**
   Nothing shorter is accepted: a proper prefix of the bytes of an accepted request is
   incomplete, or refused in the middle of a line end that was still acceptable.
   */
  lemma NoShorter(c: Case, raw: bytes, m: nat)
    requires Evaluate(c, raw).complete && Evaluate(c, raw).reason == Accepted
    requires m < Evaluate(c, raw).consumed && m <= |raw|
    ensures var e := Evaluate(c, raw[..m]); e.complete ==> e.reason != Accepted && Premature(c, raw[..m])
  {
    hide Evaluate, Premature;
    var part := raw[..m];
    assert raw == part + raw[m..];
    if Evaluate(c, part).complete {
      DecisionStands(c, part);
      ConsumedWithinInput(c, part);
      if !Premature(c, part) {
        assert Upheld(c, part, raw[m..]);
        RefusedStaysRefused(c, part, raw[m..]);
      } else {
        PrematureIsRefused(c, part);
      }
    }
  }

  lemma RefusedStaysRefused(c: Case, raw: bytes, more: bytes)
    requires Upheld(c, raw, more) && Evaluate(c, raw).complete && Evaluate(c, raw + more).reason == Accepted
    ensures Evaluate(c, raw + more) == Evaluate(c, raw)
  {
    hide ParseRequest, BodyOf, FramingOf;
  }

  lemma PrematureIsRefused(c: Case, raw: bytes)
    requires Evaluate(c, raw).complete && Premature(c, raw)
    ensures Evaluate(c, raw).reason != Accepted
  {
    hide ParseRequest, FramingOf, ChunkedDecoder.Run;
  }
}

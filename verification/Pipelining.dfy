/**
 The benchmark client's receiver for pipelined HTTP/1.1 responses: it reads into
 one buffer until it has seen `count` responses, framed by their header end and
 Content-Length (section 6.3 of RFC 9112).
 */
module Pipelining {
  import opened Bytes
  import opened Channel

  /** "Content-Length: " */
  const CONTENT_LENGTH: bytes := [67, 111, 110, 116, 101, 110, 116, 45, 76, 101, 110, 103, 116, 104, 58, 32]

  predicate InOneLine(pat: bytes) {
    forall i :: 0 <= i < |pat| ==> pat[i] != CR && pat[i] != LF
  }

  lemma FieldInOneLine()
    ensures InOneLine(CONTENT_LENGTH) && |CONTENT_LENGTH| == 16
  {
  }

  // ------------------------------------------------------------------ responses

  /** A response on the wire: its header block with the empty line, then its body. */
  datatype Response = Response(head: bytes, body: bytes)

  function Encoded(r: Response): bytes { r.head + r.body }

  /** The number after the first "Content-Length: " of a header block; 0 if there is none. */
  function Declared(head: bytes): nat { DeclaredBy(head, CONTENT_LENGTH) }

  function DeclaredBy(head: bytes, field: bytes): nat {
    match Find(head, field, 0)
    case None => 0
    case Some(i) => NumberAt(head, i + |field|)
  }

  /** A header block ends with its only empty line. */
  predicate IsHead(head: bytes) { |head| >= 4 && Find(head, CRLFCRLF, 0) == Some(|head| - 4) }

  predicate WellFormed(r: Response) { IsHead(r.head) && Declared(r.head) == |r.body| }

  function Stream(rs: seq<Response>): bytes {
    if rs == [] then [] else Encoded(rs[0]) + Stream(rs[1..])
  }

  /** Where response number `k` starts, and response number `k - 1` ends. */
  function Start(rs: seq<Response>, k: nat): nat
    requires k <= |rs|
  {
    |Stream(rs[..k])|
  }

  lemma {:induction false} StreamSplit(rs: seq<Response>, k: nat)
    requires k <= |rs|
    ensures Stream(rs) == Stream(rs[..k]) + Stream(rs[k..])
  {
    if k > 0 {
      StreamSplit(rs[1..], k - 1);
      assert rs[..k][1..] == rs[1..][..k - 1] && rs[1..][k - 1..] == rs[k..];
    } else {
      assert rs[0..] == rs;
    }
  }

  lemma StartNext(rs: seq<Response>, k: nat)
    requires k < |rs|
    ensures Start(rs, k + 1) == Start(rs, k) + |Encoded(rs[k])|
    ensures Stream(rs[k..]) == Encoded(rs[k]) + Stream(rs[k + 1..])
  {
    StreamSplit(rs[..k + 1], k);
    assert rs[..k + 1][..k] == rs[..k] && rs[..k + 1][k..] == [rs[k]];
    assert [rs[k]][1..] == [];
    assert rs[k..][1..] == rs[k + 1..];
  }

  lemma {:induction false} StartMonotone(rs: seq<Response>, j: nat, k: nat)
    requires j <= k <= |rs|
    ensures Start(rs, j) <= Start(rs, k)
    decreases k
  {
    if j < k {
      StartMonotone(rs, j, k - 1);
      StartNext(rs, k - 1);
    }
  }

  // ---------------------------------------------------------------- one response

  /** The framing of the response at the front of `view`: header length and body length. */
  datatype Frame = NoHead | Frame(headLength: nat, bodyLength: nat)

  function FrameOf(view: bytes): Frame { FrameBy(view, CONTENT_LENGTH) }

  /** The framing when `field` introduces the body length. */
  function FrameBy(view: bytes, field: bytes): Frame {
    match Find(view, CRLFCRLF, 0)
    case None => NoHead
    case Some(h) =>
      match Find(view, field, 0)
      case None => Frame(h + 4, 0)
      case Some(cl) => if cl >= h + 4 then Frame(h + 4, 0) else Frame(h + 4, NumberAt(view, cl + |field|))
  }

  /** The number between `from` and the next line end, 0 if there is none. */
  function NumberAt(view: bytes, from: nat): nat {
    match Find(view, CRLF, from)
    case None => 0
    case Some(end) => match FromChars(view[from..end], 10) case Number(n, _) => n case _ => 0
  }

  /** Where the response at `from` ends, in `size_t` arithmetic, if all of it has arrived. */
  function NextEnd(data: bytes, from: nat): Option<nat>
    requires from <= |data|
  {
    match FrameOf(data[from..])
    case NoHead => None
    case Frame(h, length) =>
      var end := (from + h + length) % TWO64;
      if end > |data| then None else Some(end)
  }

  /** In a header block, a pattern without line breaks lies before the empty line. */
  lemma FieldInside(pat: bytes, head: bytes, i: nat)
    requires InOneLine(pat) && |pat| > 3
    requires |head| >= 4 && OccursAt(head, CRLFCRLF, |head| - 4) && OccursAt(head, pat, i)
    ensures i + |pat| <= |head| - 4 && Find(head, CRLF, i + |pat|).Some?
  {
    hide Find;
    var p := |head| - 4;
    OccursByte(head, CRLFCRLF, p, 0);
    OccursByte(head, CRLFCRLF, p, 1);
    if i + |pat| > p {
      OccursByte(head, pat, i, p - i);
      assert false;
    }
    assert head[p..p + 2] == CRLF;
    assert OccursAt(head, CRLF, p);
  }

  /** What a header block does not contain is not found before the end of the block either. */
  lemma FieldBeyond(pat: bytes, head: bytes, w: bytes, j: nat)
    requires InOneLine(pat)
    requires |head| >= 4 && OccursAt(head, CRLFCRLF, |head| - 4)
    requires Find(head, pat, 0) == None && OccursAt(head + w, pat, j)
    ensures j >= |head|
  {
    hide Find;
    OccursByte(head, CRLFCRLF, |head| - 4, 3);
    if j + |pat| <= |head| {
      OccursInPrefix(head, head + w, pat, j);
      assert false;
    } else if j < |head| {
      OccursByte(head + w, pat, j, |head| - 1 - j);
      assert false;
    }
  }

  /** A prefix of a header block that is not all of it has no empty line. */
  lemma HeadCut(head: bytes, k: nat)
    requires IsHead(head) && k < |head|
    ensures Find(head[..k], CRLFCRLF, 0) == None
  {
    forall j | 0 <= j ensures !OccursAt(head[..k], CRLFCRLF, j) {
      if j + 4 <= k { OccursInPrefix(head[..k], head, CRLFCRLF, j); }
    }
  }

  lemma NumberInHead(head: bytes, w: bytes, from: nat)
    requires from <= |head| && Find(head, CRLF, from).Some?
    ensures NumberAt(head + w, from) == NumberAt(head, from)
  {
    hide Find, FromChars;
    FindStays(head, w, CRLF, from);
    var end := Find(head, CRLF, from).value;
    assert (head + w)[from..end] == head[from..end];
  }

  /** A view that starts with a whole header block is framed by it, whatever follows. */
  lemma FrameByHead(head: bytes, w: bytes, field: bytes)
    requires IsHead(head)
    requires InOneLine(field) && |field| > 3
    ensures FrameBy(head + w, field) == Frame(|head|, DeclaredBy(head, field))
  {
    hide Find, NumberAt, OccursAt;
    FindStays(head, w, CRLFCRLF, 0);
    var at := Find(head, field, 0);
    if at.Some? {
      FieldInside(field, head, at.value);
      FindStays(head, w, field, 0);
      NumberInHead(head, w, at.value + |field|);
    } else if Find(head + w, field, 0).Some? {
      FieldBeyond(field, head, w, Find(head + w, field, 0).value);
    }
  }

  /** The framing is right exactly for the responses that declare the length of their body. */
  lemma FrameOfHead(r: Response, w: bytes)
    requires IsHead(r.head)
    ensures FrameOf(r.head + w) == Frame(|r.head|, |r.body|) <==> WellFormed(r)
  {
    hide Find, FrameBy, DeclaredBy;
    FieldInOneLine();
    FrameByHead(r.head, w, CONTENT_LENGTH);
  }

  /** A view cut inside the header block has no frame yet. */
  lemma FrameOfCutHead(r: Response, k: nat)
    requires WellFormed(r) && k < |r.head|
    ensures FrameOf(r.head[..k]) == NoHead
  {
    HeadCut(r.head, k);
  }

  // ------------------------------------------------------------- the whole stream

  lemma DropFront(a: bytes, b: bytes, c: bytes)
    ensures (a + b + c)[|a|..] == b + c
  {
  }

  lemma Regroup(a: bytes, b: bytes, c: bytes, d: bytes)
    ensures (a + b) + c + d == a + (b + c + d)
  {
  }

  lemma View(rs: seq<Response>, tail: bytes, got: nat)
    requires got < |rs|
    ensures Start(rs, got) <= |Stream(rs)|
    ensures (Stream(rs) + tail)[Start(rs, got)..]
            == rs[got].head + (rs[got].body + Stream(rs[got + 1..]) + tail)
  {
    hide Stream;
    StreamSplit(rs, got);
    StartNext(rs, got);
    DropFront(Stream(rs[..got]), Stream(rs[got..]), tail);
    Regroup(rs[got].head, rs[got].body, Stream(rs[got + 1..]), tail);
  }

  /** The frame of what has arrived of a response: none before its header block is whole. */
  lemma FrameOfPart(r: Response, rest: bytes, k: nat)
    requires WellFormed(r) && k <= |r.head + rest|
    ensures FrameOf((r.head + rest)[..k]) == if k < |r.head| then NoHead else Frame(|r.head|, |r.body|)
  {
    hide FrameOf, IsHead;
    if k < |r.head| {
      assert (r.head + rest)[..k] == r.head[..k];
      FrameOfCutHead(r, k);
    } else {
      assert (r.head + rest)[..k] == r.head + rest[..k - |r.head|];
      FrameOfHead(r, rest[..k - |r.head|]);
    }
  }

  lemma SliceSlice(s: bytes, from: nat, to: nat)
    requires from <= to <= |s|
    ensures s[..to][from..] == s[from..][..to - from]
  {
  }

  /** The next turn takes response `got` exactly when all of it has arrived. */
  lemma NextResponse(rs: seq<Response>, tail: bytes, total: nat, got: nat)
    requires got < |rs| && WellFormed(rs[got])
    requires Start(rs, got) <= total <= |Stream(rs) + tail| < TWO64
    ensures NextEnd((Stream(rs) + tail)[..total], Start(rs, got))
            == if Start(rs, got + 1) <= total then Some(Start(rs, got + 1)) else None
  {
    hide FrameOf, WellFormed, Stream;
    var r, from := rs[got], Start(rs, got);
    View(rs, tail, got);
    SliceSlice(Stream(rs) + tail, from, total);
    FrameOfPart(r, r.body + Stream(rs[got + 1..]) + tail, total - from);
    StartNext(rs, got);
    StartMonotone(rs, got + 1, |rs|);
    assert rs[..|rs|] == rs;
  }

  // -------------------------------------------------------------------- the program

  /** The searches of the inner loop, on the whole buffer as the program does them. */
  method Search(data: bytes, from: nat) returns (frame: Frame)
    requires from <= |data|
    ensures frame == FrameOf(data[from..])
    ensures frame.Frame? ==> from + frame.headLength <= |data|
  {
    hide Find, NumberAt, FrameBy;
    FieldInOneLine();
    var h := Find(data, CRLFCRLF, from);
    var cl := Find(data, CONTENT_LENGTH, from);
    SearchIsFrame(data, from, CONTENT_LENGTH);
    if h.None? { return NoHead; }
    var headEnd := h.value + 4;
    if cl.None? || cl.value >= headEnd { return Frame(headEnd - from, 0); }
    frame := Frame(headEnd - from, NumberAt(data, cl.value + 16));
  }

  lemma SearchIsFrame(data: bytes, from: nat, field: bytes)
    requires from <= |data|
    ensures var h, cl := Find(data, CRLFCRLF, from), Find(data, field, from);
            FrameBy(data[from..], field)
            == if h.None? then NoHead
               else if cl.None? || cl.value >= h.value + 4 then Frame(h.value + 4 - from, 0)
               else Frame(h.value + 4 - from, NumberAt(data, cl.value + |field|))
  {
    hide Find, NumberAt, OccursAt;
    FindInSuffix(data, CRLFCRLF, from);
    FindInSuffix(data, field, from);
    var cl := Find(data, field, from);
    if cl.Some? {
      OccursFits(data, field, cl.value);
      ShiftedNumber(data, from, cl.value + |field|);
    }
  }

  /** One turn of the inner loop. */
  method TakeResponse(data: bytes, from: nat) returns (end: Option<nat>)
    requires from <= |data| < TWO64
    ensures end == NextEnd(data, from)
  {
    hide FrameOf;
    var frame := Search(data, from);
    if frame.NoHead? { return None; }
    var headEnd := from + frame.headLength;
    var respEnd := (headEnd + frame.bodyLength) % TWO64;
    end := if respEnd > |data| then None else Some(respEnd);
  }

  lemma ShiftedNumber(data: bytes, from: nat, at: nat)
    requires from <= at <= |data|
    ensures NumberAt(data, at) == NumberAt(data[from..], at - from)
  {
    hide Find, FromChars;
    FindInSuffix(data, CRLF, at);
    FindInSuffix(data[from..], CRLF, at - from);
    assert data[from..][at - from..] == data[at..];
    var r := Find(data, CRLF, at);
    if r.Some? { assert data[at..r.value] == data[from..][at - from..r.value - from]; }
  }

  datatype Result =
    | Received(total: nat)
    | Short(got: int)   // "recv_n_responses expected {} responses, got {}"
    | Exhausted         // "response buffer exhausted"
    | RecvFailed        // "recv timed out or failed"

  /** How many of the first `count` responses lie within the first `total` bytes. */
  ghost predicate Counted(rs: seq<Response>, count: int, total: nat, got: int, from: nat) {
    && 0 <= got <= |rs| && (count <= 0 ==> got == 0) && (count > 0 ==> got <= count)
    && from == Start(rs, got) <= total
    && (got < count && got < |rs| ==> Start(rs, got + 1) > total)
  }

  /** The inner loop: every complete response among the received bytes is counted. */
  method CountResponses(data: bytes, count: int, got0: int, from0: nat, ghost rs: seq<Response>, ghost tail: bytes)
    returns (got: int, from: nat)
    requires forall i :: 0 <= i < |rs| ==> WellFormed(rs[i])
    requires |Stream(rs) + tail| < TWO64 && data <= Stream(rs) + tail
    requires |rs| >= count || tail == []
    requires 0 <= got0 <= |rs| && got0 <= count && from0 == Start(rs, got0) <= |data|
    ensures Counted(rs, count, |data|, got, from)
  {
    hide Stream, NextEnd, WellFormed;
    got, from := got0, from0;
    while got < count
      invariant 0 <= got <= |rs| && got <= count && from == Start(rs, got) <= |data|
    {
      var end := TakeResponse(data, from);
      if got < |rs| {
        NextResponse(rs, tail, |data|, got);
        assert (Stream(rs) + tail)[..|data|] == data;
      } else {
        NothingLeft(rs, data);
      }
      if end.None? { break; }
      got, from := got + 1, end.value;
    }
  }

  lemma EmptyFrame(view: bytes)
    requires view == []
    ensures FrameOf(view) == NoHead
  {
  }

  lemma NothingLeft(rs: seq<Response>, data: bytes)
    requires Start(rs, |rs|) <= |data| && data <= Stream(rs)
    ensures NextEnd(data, Start(rs, |rs|)) == None
  {
    hide Stream, FrameOf;
    assert rs[..|rs|] == rs;
    EmptyFrame(data[Start(rs, |rs|)..]);
  }

  /**
   `recv_n_responses`. For any pipelined responses, however the socket cuts them:
   after every receive `got` is the number of responses, up to `count`, that are
   complete in the buffer and `search_from` is where they end. The call returns
   after the first receive that completes them: the `last` bytes received before
   it did not. If the peer sends at least `count` responses and the buffer has
   room for them, the call returns; the only way to fail is the socket's own. If
   the peer sends fewer, the number reported is the number sent.
   */
  method RecvNResponses(sock: Socket, buf: array<byte>, count: int, ghost rs: seq<Response>, ghost tail: bytes)
    returns (result: Result, ghost last: nat)
    requires sock.Valid() && sock.pos == 0 && sock.incoming == Stream(rs) + tail
    requires forall i :: 0 <= i < |rs| ==> WellFormed(rs[i])
    requires |Stream(rs) + tail| < TWO64 && (|rs| >= count || tail == [])
    modifies sock`pos, sock`failed, sock`receives, buf
    ensures sock.failed == (old(sock.failed) || result.RecvFailed?)
    ensures sock.Valid()
    ensures result.Received? ==>
              && result.total == sock.pos <= buf.Length && count <= |rs|
              && (count >= 0 ==> Start(rs, count) <= sock.pos)
              && buf[..sock.pos] == sock.incoming[..sock.pos]
    ensures 0 <= count <= |rs| && Start(rs, count) <= buf.Length ==> result.Received? || result.RecvFailed?
    ensures count <= 0 ==> result == Received(0) && sock.receives == old(sock.receives)
    ensures last <= sock.pos && (0 < count <= |rs| ==> last < Start(rs, count))
    ensures result.Received? && count > 0 ==> last < sock.pos
    ensures result.Short? ==> |rs| < count && result.got == |rs|
    ensures result.Exhausted? ==> sock.pos == buf.Length
  {
    hide Stream, WellFormed;
    var total, got, from := 0, 0, 0;
    last := 0;
    assert Start(rs, 0) == 0 by { EmptyStream(rs[..0]); }
    if count > 0 && |rs| > 0 { StartNext(rs, 0); HeadNotEmpty(rs[0]); }
    if 0 < count <= |rs| { StartMonotone(rs, 1, count); }
    while got < count
      invariant sock.Valid() && total == sock.pos <= buf.Length && sock.failed == old(sock.failed)
      invariant buf[..total] == sock.incoming[..total]
      invariant Counted(rs, count, total, got, from)
      invariant last <= total && (0 < count <= |rs| ==> last < Start(rs, count)) && (got > 0 ==> last < total)
      invariant count <= 0 ==> sock.receives == old(sock.receives) && total == 0
      decreases |sock.incoming| - sock.pos
    {
      NotAllCounted(rs, count, total, got, from);
      last := total;
      if total >= buf.Length { return Exhausted, last; }
      var n := sock.Recv(buf, total, buf.Length - total);
      if n < 0 { return RecvFailed, last; }
      if n == 0 { break; }
      assert buf[..total + n] == buf[..total] + buf[total..total + n];
      assert sock.incoming[..total + n] == sock.incoming[..total] + sock.incoming[total..total + n];
      total := total + n;
      var data := buf[..total];
      got, from := CountResponses(data, count, got, from, rs, tail);
    }
    if got < count {
      if got < |rs| { StartMonotone(rs, got + 1, |rs|); }
      assert rs[..|rs|] == rs;
      return Short(got), last;
    }
    result := Received(total);
  }

  lemma NotAllCounted(rs: seq<Response>, count: int, total: nat, got: int, from: nat)
    requires Counted(rs, count, total, got, from) && got < count
    ensures count <= |rs| ==> total < Start(rs, count)
  {
    hide Stream;
    if count <= |rs| { StartMonotone(rs, got + 1, count); }
  }

  lemma EmptyStream(rs: seq<Response>)
    requires rs == []
    ensures Stream(rs) == []
  {
  }

  lemma HeadNotEmpty(r: Response)
    requires WellFormed(r)
    ensures |Encoded(r)| > 0
  {
  }
}

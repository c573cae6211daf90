/**
 The framing of the language server protocol ("Base Protocol", "Header Part") in
 the clangd driver: messages written with a Content-Length header, read back from
 a pipe that returns short reads.
 */
module LspFraming {
  import opened Bytes

  /** "Content-Length" and its lower-case form */
  const NAME: bytes := [67, 111, 110, 116, 101, 110, 116, 45, 76, 101, 110, 103, 116, 104]
  const LOWER_NAME: bytes := [99, 111, 110, 116, 101, 110, 116, 45, 108, 101, 110, 103, 116, 104]
  const COLON: byte := 58
  const SPACE: byte := 32

  /** `send_msg`, for the encoded message `body`. */
  function Framed(body: bytes): bytes {
    NAME + [COLON, SPACE] + Print(|body|, 10) + CRLF + CRLF + body
  }

  function Lower(s: bytes): (r: bytes)
    ensures |r| == |s|
  {
    seq(|s|, i requires 0 <= i < |s| => LowerByte(s[i]))
  }

  /** White space for `str.strip` among the ASCII characters. */
  predicate IsSpace(b: byte) { 9 <= b <= 13 || 28 <= b <= 32 }

  function StripLeft(s: bytes): bytes { if s != [] && IsSpace(s[0]) then StripLeft(s[1..]) else s }

  function StripRight(s: bytes): bytes {
    if s != [] && IsSpace(s[|s| - 1]) then StripRight(s[..|s| - 1]) else s
  }

  function Strip(s: bytes): bytes { StripRight(StripLeft(s)) }

  // ------------------------------------------------------------ reading on values

  /** `readline`: up to and including the next line feed, or all that is left. */
  function LineLength(s: bytes): nat { if FindByte(s, LF) < |s| then FindByte(s, LF) + 1 else |s| }

  datatype Head = Ended | Head(length: Option<bytes>, rest: bytes)

  /** The value of a Content-Length line, `None` for any other line. */
  function LengthField(line: bytes): Option<bytes> {
    var colon := FindByte(line, COLON);
    if colon < |line| && Lower(line[..colon]) == LOWER_NAME then Some(Strip(line[colon + 1..])) else None
  }

  predicate IsBlank(line: bytes) { line == CRLF || line == [LF] }

  /** The header loop: the last Content-Length wins, other lines are passed over. */
  function ReadHead(s: bytes, length: Option<bytes>): Head
    decreases |s|
  {
    if s == [] then Ended
    else
      var n := LineLength(s);
      if IsBlank(s[..n]) then Head(length, s[n..])
      else ReadHead(s[n..], if LengthField(s[..n]).Some? then LengthField(s[..n]) else length)
  }

  datatype Read =
    | Message(body: bytes, rest: bytes)
    | Nothing     // `None`: end of file, a header block without a length, or a body that is `null`
    | BadLength   // `int` raises
    | Truncated   // `EOFError`
    | NotJson     // `decode` or `json.loads` raises

  /** What `json.loads` makes of a body: `None`, another value, or an error. */
  datatype Decoded = JsonNull | JsonValue | JsonError

  type Json = bytes -> Decoded

  /** `read_msg` once it has the body. */
  function Deliver(json: Json, body: bytes, rest: bytes): Read {
    match json(body)
    case JsonNull => Nothing
    case JsonValue => Message(body, rest)
    case JsonError => NotJson
  }

  const PLUS: byte := 43
  const MINUS: byte := 45
  const UNDERSCORE: byte := 95

  /** Digits with single underscores between them, as `int` takes them. */
  predicate IsNumeral(v: bytes) {
    && v != [] && v[0] != UNDERSCORE && v[|v| - 1] != UNDERSCORE
    && (forall i :: 0 <= i < |v| ==> v[i] == UNDERSCORE || IsDigit(v[i], 10))
    && (forall i :: 0 <= i < |v| - 1 ==> v[i] != UNDERSCORE || v[i + 1] != UNDERSCORE)
  }

  function WithoutUnderscores(v: bytes): (r: bytes)
    ensures (forall i :: 0 <= i < |v| ==> v[i] == UNDERSCORE || IsDigit(v[i], 10)) ==> AllDigits(r, 10)
    ensures UNDERSCORE !in v ==> r == v
  {
    if v == [] then []
    else WithoutUnderscores(v[..|v| - 1]) + (if v[|v| - 1] == UNDERSCORE then [] else [v[|v| - 1]])
  }

  /** `int` on text without surrounding white space: a sign, then a numeral. */
  function ParseLength(v: bytes): Option<int> {
    var signed := v != [] && (v[0] == PLUS || v[0] == MINUS);
    var numeral := if signed then v[1..] else v;
    if !IsNumeral(numeral) then None
    else
      var n := Value(WithoutUnderscores(numeral), 10);
      Some(if signed && v[0] == MINUS then 0 - n else n)
  }

  lemma ParsePlain(v: bytes)
    requires v != [] && AllDigits(v, 10)
    ensures ParseLength(v) == Some(Value(v, 10))
  {
    assert IsDigit(v[0], 10) && IsDigit(v[|v| - 1], 10);
    assert UNDERSCORE !in v;
  }

  /** `read_msg`. A negative length reads to the end of the stream and then fails. */
  function ReadMsg(json: Json, s: bytes): Read {
    match ReadHead(s, None)
    case Ended => Nothing
    case Head(None, _) => Nothing
    case Head(Some(v), rest) =>
      match ParseLength(v)
      case None => BadLength
      case Some(n) => if n < 0 || |rest| < n then Truncated else Deliver(json, rest[..n], rest[n..])
  }

  // ------------------------------------------------------------------- round trip

  lemma LineOf(line: bytes, rest: bytes)
    requires forall i :: 0 <= i < |line| ==> line[i] != LF
    ensures LineLength(line + [LF] + rest) == |line| + 1
    ensures (line + [LF] + rest)[..|line| + 1] == line + [LF] && (line + [LF] + rest)[|line| + 1..] == rest
  {
    FindByteAfter(line, LF, rest);
  }

  lemma StripDigits(d: bytes)
    requires d != [] && AllDigits(d, 10)
    ensures Strip([SPACE] + d + [CR, LF]) == d
  {
    var s := [SPACE] + d + [CR, LF];
    assert s[1..] == d + [CR, LF];
    assert !IsSpace(d[0]) && !IsSpace(d[|d| - 1]);
    assert StripLeft(d + [CR, LF]) == d + [CR, LF];
    assert (d + [CR, LF])[..|d| + 1] == d + [CR];
    assert (d + [CR])[..|d|] == d;
    assert StripRight(d + [CR]) == d;
  }

  lemma NameLower()
    ensures Lower(NAME) == LOWER_NAME
    ensures forall i :: 0 <= i < |NAME| ==> NAME[i] != COLON && NAME[i] != LF
  {
  }

  lemma LengthLine(n: nat)
    ensures var line := NAME + [COLON, SPACE] + Print(n, 10) + [CR, LF];
            LengthField(line) == Some(Print(n, 10)) && !IsBlank(line)
  {
    hide Lower, Strip, Print;
    var d := Print(n, 10);
    var line := NAME + [COLON, SPACE] + d + [CR, LF];
    NameLower();
    var after := [SPACE] + d + [CR, LF];
    assert line == NAME + [COLON] + after;
    FindByteAfter(NAME, COLON, after);
    assert line[..|NAME|] == NAME && line[|NAME| + 1..] == after;
    StripDigits(d);
  }

  /** A framed body is read as what it decodes to, whatever follows. */
  lemma ReadFramed(json: Json, body: bytes, rest: bytes)
    ensures ReadMsg(json, Framed(body) + rest) == Deliver(json, body, rest)
  {
    hide LengthField, Print, LineLength, IsBlank;
    var d := Print(|body|, 10);
    var first := NAME + [COLON, SPACE] + d + [CR];
    var tail := body + rest;
    var s := Framed(body) + rest;
    var s2 := [CR] + [LF] + tail;
    assert s == first + [LF] + s2;
    FirstLineText(d);
    LineOf(first, s2);
    LengthLine(|body|);
    assert first + [LF] == NAME + [COLON, SPACE] + d + [CR, LF];
    LineOf([CR], tail);
    BlankLine();
    assert ReadHead(s2, Some(d)) == Head(Some(d), tail);
    assert ReadHead(s, None) == ReadHead(s2, Some(d));
    PrintValue(|body|, 10);
    ParsePlain(d);
    assert tail[..|body|] == body && tail[|body|..] == rest;
  }

  lemma FirstLineText(d: bytes)
    requires AllDigits(d, 10)
    ensures var first := NAME + [COLON, SPACE] + d + [CR];
            forall i :: 0 <= i < |first| ==> first[i] != LF
  {
    NameLower();
  }

  lemma BlankLine()
    ensures IsBlank([CR] + [LF])
  {
  }

  function AllFramed(bodies: seq<bytes>): bytes {
    if bodies == [] then [] else Framed(bodies[0]) + AllFramed(bodies[1..])
  }

  /** The messages a reader takes from a stream before `read_msg` stops returning messages. */
  function ReadAll(json: Json, s: bytes): seq<bytes>
    decreases |s|
  {
    match ReadMsg(json, s)
    case Message(body, rest) => MessageShrinks(json, s); [body] + ReadAll(json, rest)
    case _ => []
  }

  /** What `read_msg` does when it stops returning messages. Only on `Nothing` does the reader
      announce the end; on the others its thread dies. */
  function StopOf(json: Json, s: bytes): Read
    decreases |s|
  {
    match ReadMsg(json, s)
    case Message(_, rest) => MessageShrinks(json, s); StopOf(json, rest)
    case stop => stop
  }

  lemma {:induction false} HeadShrinks(s: bytes, length: Option<bytes>)
    requires ReadHead(s, length).Head?
    ensures |ReadHead(s, length).rest| < |s|
    decreases |s|
  {
    hide LengthField;
    var n := LineLength(s);
    if !IsBlank(s[..n]) {
      HeadShrinks(s[n..], if LengthField(s[..n]).Some? then LengthField(s[..n]) else length);
    }
  }

  lemma MessageShrinks(json: Json, s: bytes)
    requires ReadMsg(json, s).Message?
    ensures |ReadMsg(json, s).rest| < |s|
  {
    HeadShrinks(s, None);
  }

  /** The first body that does not decode to a message. */
  function FirstImproper(json: Json, bodies: seq<bytes>): (k: nat)
    ensures k <= |bodies|
    ensures forall i :: 0 <= i < k ==> json(bodies[i]) == JsonValue
    ensures k < |bodies| ==> json(bodies[k]) != JsonValue
  {
    if bodies == [] || json(bodies[0]) != JsonValue then 0 else 1 + FirstImproper(json, bodies[1..])
  }

  /** Whatever is sent, the reader gets the messages before the first body that is not one, in order.
      It then announces the end if there was none or it was `null`, and dies if it was not JSON. */
  lemma {:induction false} ReadAllFramed(json: Json, bodies: seq<bytes>)
    ensures var k := FirstImproper(json, bodies);
            && ReadAll(json, AllFramed(bodies)) == bodies[..k]
            && StopOf(json, AllFramed(bodies))
               == if k == |bodies| || json(bodies[k]) == JsonNull then Nothing else NotJson
  {
    hide ReadMsg, Framed;
    if bodies == [] {
      NothingToRead(json);
    } else {
      ReadFramed(json, bodies[0], AllFramed(bodies[1..]));
      if json(bodies[0]) == JsonValue {
        ReadAllFramed(json, bodies[1..]);
        var k := FirstImproper(json, bodies[1..]);
        assert bodies[..k + 1] == [bodies[0]] + bodies[1..][..k];
      }
    }
  }

  lemma NothingToRead(json: Json)
    ensures ReadMsg(json, []) == Nothing
  {
  }

  // --------------------------------------------------------------------- the pipe

  /** The unbuffered standard output of the server process. */
  class Pipe {
    const stream: bytes
    var pos: nat

    ghost predicate Valid()
      reads this
    {
      pos <= |stream|
    }

    function Rest(): bytes
      reads this
      requires Valid()
    {
      stream[pos..]
    }

    constructor (output: bytes)
      ensures Valid() && Rest() == output
    {
      stream, pos := output, 0;
    }

    /** `read(n)`: any non-empty part of what was asked for, everything for a negative number; empty
        only at the end of file. */
    method Read(n: int) returns (chunk: bytes)
      requires Valid() && n != 0
      modifies this`pos
      ensures Valid() && (n > 0 ==> |chunk| <= n) && old(Rest()) == chunk + Rest()
      ensures n < 0 ==> Rest() == []
      ensures chunk == [] ==> old(Rest()) == []
    {
      if pos == |stream| { return []; }
      var k: nat := |stream| - pos;
      if n > 0 { k :| 0 < k <= n && k <= |stream| - pos; }
      chunk := stream[pos..pos + k];
      pos := pos + k;
    }

    /** `readline`. */
    method ReadLine() returns (line: bytes)
      requires Valid()
      modifies this`pos
      ensures Valid()
      ensures var s := old(Rest()); line == s[..LineLength(s)] && Rest() == s[LineLength(s)..]
    {
      var s := stream[pos..];
      line := s[..LineLength(s)];
      pos := pos + |line|;
    }

    /** `read_exact`: `None` is the `EOFError`. */
    method ReadExact(n: int) returns (body: Option<bytes>)
      requires Valid()
      modifies this`pos
      ensures Valid()
      ensures var s := old(Rest());
              if 0 <= n <= |s| then body == Some(s[..n]) && Rest() == s[n..] else body == None
    {
      ghost var s := Rest();
      var chunks := [];
      var remaining := n;
      while remaining != 0
        invariant Valid() && s == chunks + Rest() && |chunks| + remaining == n && (n >= 0 ==> remaining >= 0)
        decreases |Rest()|
      {
        var chunk := Read(remaining);
        if chunk == [] { return None; }
        chunks := chunks + chunk;
        remaining := remaining - |chunk|;
      }
      body := Some(chunks);
    }

    /** The header loop of `read_msg`; `ended` is its early `None`. */
    method ReadHeaders() returns (length: Option<bytes>, ended: bool)
      requires Valid()
      modifies this`pos
      ensures Valid()
      ensures ReadHead(old(Rest()), None) == if ended then Ended else Head(length, Rest())
    {
      hide LengthField, IsBlank;
      length, ended := None, false;
      ghost var goal := ReadHead(Rest(), None);
      while true
        invariant Valid() && ReadHead(Rest(), length) == goal
        decreases |Rest()|
      {
        var line := ReadLine();
        if line == [] { return length, true; }
        if IsBlank(line) { return; }
        var field := LengthField(line);
        if field.Some? { length := field; }
      }
    }

    /** `read_msg`. */
    method ReadMessage(json: Json) returns (r: Read)
      requires Valid()
      modifies this`pos
      ensures Valid() && r == ReadMsg(json, old(Rest()))
      ensures r.Message? ==> Rest() == r.rest
    {
      hide ReadHead, ParseLength;
      var length, ended := ReadHeaders();
      if ended || length.None? { return Nothing; }
      var n := ParseLength(length.value);
      if n.None? { return BadLength; }
      var body := ReadExact(n.value);
      if body.None? { return Truncated; }
      r := Deliver(json, body.value, stream[pos..]);
    }

    /** The `reader` thread: however the pipe cuts the stream, the queue receives the messages
        that `ReadAll` finds in it, and the thread ends as `StopOf` says. */
    method Reader(json: Json) returns (queue: seq<bytes>, stop: Read)
      requires Valid()
      modifies this`pos
      ensures queue == ReadAll(json, old(Rest())) && stop == StopOf(json, old(Rest()))
    {
      hide ReadMsg;
      queue := [];
      ghost var s := Rest();
      while true
        invariant Valid() && queue + ReadAll(json, Rest()) == ReadAll(json, s)
        invariant StopOf(json, Rest()) == StopOf(json, s)
        decreases |Rest()|
      {
        ghost var before := Rest();
        var msg := ReadMessage(json);
        if !msg.Message? { return queue, msg; }
        MessageShrinks(json, before);
        queue := queue + [msg.body];
      }
    }
  }
}

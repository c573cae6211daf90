/**
 The resumable decoder of `Transfer-Encoding: chunked` bodies (section 7.1 of
 RFC 9112). It is called again on a longer buffer whenever more bytes arrive and
 keeps its place in a state object.
 */
module ChunkedDecoder {
  import opened Bytes

  const MAX_HEX_DIGITS: nat := 16
  const MAX_SIZE_LINE: nat := 256
  const MAX_TRAILER_LINES: nat := 64
  const MAX_TRAILER_BYTES: nat := 8192
  const SEMICOLON: byte := 59

  // ------------------------------------------------------------ the size line

  /** `parse_chunk_size_line`: hex digits, then optionally `;` and an ignored extension. */
  function ParseSize(line: bytes): (r: Option<nat>) {
    var digits := line[..FindByte(line, SEMICOLON)];
    if |line| > MAX_SIZE_LINE || digits == [] || |digits| > MAX_HEX_DIGITS || !AllDigits(digits, 16) then None
    else Some(Value(digits, 16))
  }

  lemma {:induction false} ValueBelowPower(s: bytes)
    requires AllDigits(s, 16)
    ensures Value(s, 16) < Pow(16, |s|)
  {
    if s == [] {
    } else {
      ValueBelowPower(s[..|s| - 1]);
      assert Pow(16, |s|) == 16 * Pow(16, |s| - 1);
    }
  }

  lemma {:induction false} PowGrows(j: nat, k: nat)
    requires j <= k
    ensures Pow(16, j) <= Pow(16, k)
    decreases k
  {
    if j < k {
      PowGrows(j, k - 1);
      assert Pow(16, k) == 16 * Pow(16, k - 1);
    }
  }

  /** Sixteen hexadecimal digits always fit a `size_t`. */
  lemma HexFits(s: bytes)
    requires AllDigits(s, 16) && |s| <= MAX_HEX_DIGITS
    ensures Value(s, 16) < TWO64
  {
    ValueBelowPower(s);
    PowGrows(|s|, 16);
    SixteenDigits();
  }

  /** The digit loop with its two overflow tests. Neither test ever rejects. */
  method ParseChunkSizeLine(line: bytes) returns (r: Option<nat>)
    ensures r == ParseSize(line)
    ensures r.Some? ==> r.value < TWO64
  {
    if |line| > MAX_SIZE_LINE { return None; }
    var digits := line[..FindByte(line, SEMICOLON)];
    if digits == [] || |digits| > MAX_HEX_DIGITS { return None; }
    var size := 0;
    for i := 0 to |digits|
      invariant AllDigits(digits[..i], 16) && size == Value(digits[..i], 16)
    {
      var d := DigitValue(digits[i]);
      if d < 0 {
        assert !IsDigit(digits[i], 16);
        return None;
      }
      assert digits[..i + 1][..i] == digits[..i];
      assert AllDigits(digits[..i + 1], 16);
      HexFits(digits[..i + 1]);
      if size * 16 >= TWO64 { assert false; return None; }
      if size * 16 + d >= TWO64 { assert false; return None; }
      size := size * 16 + d;
    }
    assert digits[..|digits|] == digits;
    HexFits(digits);
    r := Some(size);
  }

  // ---------------------------------------------------- the decoder on values

  datatype Phase = SizeLine | Data | DataCrlf | Trailers | Complete

  /** `ChunkedDecodeState`, apart from the position, which is the unread suffix of the input. */
  datatype Core = Core(
    phase: Phase,
    chunks: nat,
    remaining: nat,
    trailerLines: nat,
    trailerBytes: nat,
    bodyBytes: nat,
    body: bytes)

  const INITIAL: Core := Core(SizeLine, 0, 0, 0, 0, 0, [])

  datatype Limits = Limits(maxBody: nat, maxChunks: nat)

  /** The return value: 0, -1, -2, or the number of bytes consumed. */
  datatype Verdict = NeedMore | Invalid | TooLarge | Consumed

  /** One turn of the `switch`, on the unread bytes. */
  datatype Turn = Go(core: Core, unread: bytes) | Stop(core: Core, unread: bytes, verdict: Verdict)

  /** What a counted chunk of the parsed size starts; `rest` follows its size line. */
  function ChunkTurn(c: Core, size: Option<nat>, s: bytes, rest: bytes, lim: Limits): Turn {
    match size
    case None => Stop(c, s, Invalid)
    case Some(n) =>
      if n == 0 then Go(c.(phase := Trailers), rest)
      else if c.bodyBytes > lim.maxBody || n > lim.maxBody - c.bodyBytes then Stop(c, rest, TooLarge)
      else Go(c.(phase := Data, remaining := n), rest)
  }

  function SizeLineTurn(c: Core, s: bytes, lim: Limits): Turn {
    match Find(s, CRLF, 0)
    case None => Stop(c, s, if |s| > MAX_SIZE_LINE then Invalid else NeedMore)
    case Some(i) =>
      var c1 := c.(chunks := c.chunks + 1);
      if c1.chunks > lim.maxChunks then Stop(c1, s, Invalid)
      else ChunkTurn(c1, ParseSize(s[..i]), s, s[i + 2..], lim)
  }

  function DataTurn(c: Core, s: bytes): Turn {
    if s == [] then Stop(c, s, NeedMore)
    else
      var n := if c.remaining <= |s| then c.remaining else |s|;
      var c1 := c.(remaining := c.remaining - n, bodyBytes := c.bodyBytes + n, body := c.body + s[..n]);
      if c1.remaining > 0 then Stop(c1, s[n..], NeedMore) else Go(c1.(phase := DataCrlf), s[n..])
  }

  function DataCrlfTurn(c: Core, s: bytes): Turn {
    if |s| < 2 then Stop(c, s, NeedMore)
    else if s[0] != CR || s[1] != LF then Stop(c, s, Invalid)
    else Go(c.(phase := SizeLine), s[2..])
  }

  function TrailersTurn(c: Core, s: bytes): Turn {
    match Find(s, CRLF, 0)
    case None => Stop(c, s, if |s| + 2 > MAX_TRAILER_BYTES then Invalid else NeedMore)
    case Some(i) =>
      if i == 0 then Stop(c.(phase := Complete), s[2..], Consumed)
      else
        var line := i + 2;
        var c1 := c.(trailerLines := c.trailerLines + 1);
        if c1.trailerLines > MAX_TRAILER_LINES || line > MAX_TRAILER_BYTES
           || c.trailerBytes > MAX_TRAILER_BYTES - line
        then Stop(c1, s, Invalid)
        else Go(c1.(trailerBytes := c.trailerBytes + line), s[i + 2..])
  }

  function TurnOf(c: Core, s: bytes, lim: Limits): (t: Turn)
    ensures t.Go? ==> |t.unread| < |s| || (|t.unread| == |s| && c.phase.Data? && !t.core.phase.Data?)
  {
    match c.phase
    case SizeLine => SizeLineTurn(c, s, lim)
    case Data => DataTurn(c, s)
    case DataCrlf => DataCrlfTurn(c, s)
    case Trailers => TrailersTurn(c, s)
    case Complete => Stop(c, s, Consumed)
  }

  datatype Outcome = Outcome(core: Core, unread: bytes, verdict: Verdict)

  /** A whole call: turns until one stops. */
  function Run(c: Core, s: bytes, lim: Limits): (r: Outcome)
    decreases |s|, if c.phase.Data? then 1 else 0
  {
    match TurnOf(c, s, lim)
    case Stop(c1, s1, v) => Outcome(c1, s1, v)
    case Go(c1, s1) => Run(c1, s1, lim)
  }

  /** The body never exceeds its limit, not even by what the current chunk still promises. */
  predicate WithinLimit(c: Core, lim: Limits) {
    |c.body| == c.bodyBytes && c.bodyBytes + (if c.phase.Data? then c.remaining else 0) <= lim.maxBody
  }

  lemma {:induction false} RunKeepsLimit(c: Core, s: bytes, lim: Limits)
    requires WithinLimit(c, lim)
    ensures WithinLimit(Run(c, s, lim).core, lim)
    decreases |s|, if c.phase.Data? then 1 else 0
  {
    hide Find, ParseSize;
    var turn := TurnOf(c, s, lim);
    assert WithinLimit(turn.core, lim);
    if turn.Go? { RunKeepsLimit(turn.core, turn.unread, lim); }
  }

  // ------------------------------------------------------- the decoder object

  /** `raw.find("\\r\\n", pos)`, as the length of the line that starts at `pos`. */
  method LineLength(raw: bytes, pos: nat) returns (r: Option<nat>)
    requires pos <= |raw|
    ensures r == Find(raw[pos..], CRLF, 0)
    ensures r.Some? ==> pos + r.value + 2 <= |raw|
  {
    FindInSuffix(raw, CRLF, pos);
    match Find(raw, CRLF, pos)
    case None => r := None;
    case Some(i) => r := Some(i - pos);
  }

  class Decoder {
    var active: bool
    var bodyStart: nat
    var pos: nat
    var phase: Phase
    var chunksSeen: nat
    var remaining: nat
    var trailerLines: nat
    var trailerBytes: nat
    var bodyBytes: nat
    var body: bytes

    function State(): Core
      reads this
    {
      Core(phase, chunksSeen, remaining, trailerLines, trailerBytes, bodyBytes, body)
    }

    constructor ()
      ensures !active && State() == INITIAL
    {
      active, bodyStart, pos, phase := false, 0, 0, SizeLine;
      chunksSeen, remaining, trailerLines, trailerBytes, bodyBytes, body := 0, 0, 0, 0, 0, [];
    }

    /** `reset`, then the activation at the top of the decoder. */
    method Activate(start: nat)
      modifies this
      ensures active && bodyStart == start && pos == start && State() == INITIAL
    {
      active, bodyStart, pos, phase := true, start, start, SizeLine;
      chunksSeen, remaining, trailerLines, trailerBytes, bodyBytes, body := 0, 0, 0, 0, 0, [];
    }

    /** Where a call on `raw` picks up. */
    predicate Resumes(start: nat)
      reads this
    {
      active && bodyStart == start
    }

    /** The second half of the `SizeLine` case; `next` is the position after the size line. */
    method ChunkCase(raw: bytes, size: Option<nat>, next: nat, lim: Limits) returns (stop: Option<Verdict>)
      requires pos <= next <= |raw|
      modifies this`pos, this`phase, this`remaining
      ensures old(pos) <= pos <= |raw|
      ensures ChunkTurn(old(State()), size, raw[old(pos)..], raw[next..], lim)
              == if stop.None? then Go(State(), raw[pos..]) else Stop(State(), raw[pos..], stop.value)
    {
      if size.None? { return Some(Invalid); }
      pos := next;
      if size.value == 0 {
        phase := Trailers;
        return None;
      }
      if bodyBytes > lim.maxBody || size.value > lim.maxBody - bodyBytes { return Some(TooLarge); }
      remaining, phase := size.value, Data;
      return None;
    }

    method SizeLineCase(raw: bytes, lim: Limits) returns (stop: Option<Verdict>)
      requires pos <= |raw| && phase.SizeLine?
      modifies this`pos, this`phase, this`chunksSeen, this`remaining
      ensures old(pos) <= pos <= |raw|
      ensures SizeLineTurn(old(State()), raw[old(pos)..], lim)
              == if stop.None? then Go(State(), raw[pos..]) else Stop(State(), raw[pos..], stop.value)
    {
      var length := LineLength(raw, pos);
      if length.None? {
        return Some(if |raw| - pos > MAX_SIZE_LINE then Invalid else NeedMore);
      }
      chunksSeen := chunksSeen + 1;
      if chunksSeen > lim.maxChunks { return Some(Invalid); }
      var size := ParseChunkSizeLine(raw[pos..][..length.value]);
      assert raw[pos + length.value + 2..] == raw[pos..][length.value + 2..];
      stop := ChunkCase(raw, size, pos + length.value + 2, lim);
    }

    method DataCase(raw: bytes) returns (stop: Option<Verdict>)
      requires pos <= |raw| && phase.Data?
      modifies this`pos, this`phase, this`remaining, this`bodyBytes, this`body
      ensures old(pos) <= pos <= |raw|
      ensures DataTurn(old(State()), raw[old(pos)..])
              == if stop.None? then Go(State(), raw[pos..]) else Stop(State(), raw[pos..], stop.value)
    {
      if pos >= |raw| { return Some(NeedMore); }
      var available := if remaining <= |raw| - pos then remaining else |raw| - pos;
      assert raw[pos..pos + available] == raw[pos..][..available];
      assert raw[pos + available..] == raw[pos..][available..];
      if available > 0 {
        body := body + raw[pos..pos + available];
        pos := pos + available;
        remaining := remaining - available;
        bodyBytes := bodyBytes + available;
      }
      if remaining > 0 { return Some(NeedMore); }
      phase := DataCrlf;
      return None;
    }

    method DataCrlfCase(raw: bytes) returns (stop: Option<Verdict>)
      requires pos <= |raw| && phase.DataCrlf?
      modifies this`pos, this`phase
      ensures old(pos) <= pos <= |raw|
      ensures DataCrlfTurn(old(State()), raw[old(pos)..])
              == if stop.None? then Go(State(), raw[pos..]) else Stop(State(), raw[pos..], stop.value)
    {
      if |raw| - pos < 2 { return Some(NeedMore); }
      if raw[pos] != CR || raw[pos + 1] != LF { return Some(Invalid); }
      assert raw[pos + 2..] == raw[pos..][2..];
      pos := pos + 2;
      phase := SizeLine;
      return None;
    }

    method TrailersCase(raw: bytes) returns (stop: Option<Verdict>)
      requires pos <= |raw| && phase.Trailers?
      modifies this`pos, this`phase, this`trailerLines, this`trailerBytes
      ensures old(pos) <= pos <= |raw|
      ensures TrailersTurn(old(State()), raw[old(pos)..])
              == if stop.None? then Go(State(), raw[pos..]) else Stop(State(), raw[pos..], stop.value)
    {
      var length := LineLength(raw, pos);
      if length.None? {
        return Some(if |raw| - pos + 2 > MAX_TRAILER_BYTES then Invalid else NeedMore);
      }
      var lineBytes := length.value + 2;
      assert raw[pos + lineBytes..] == raw[pos..][lineBytes..];
      if length.value == 0 {
        pos := pos + 2;
        phase := Complete;
        return Some(Consumed);
      }
      trailerLines := trailerLines + 1;
      if trailerLines > MAX_TRAILER_LINES { return Some(Invalid); }
      if lineBytes > MAX_TRAILER_BYTES || trailerBytes > MAX_TRAILER_BYTES - lineBytes { return Some(Invalid); }
      trailerBytes := trailerBytes + lineBytes;
      pos := pos + lineBytes;
      return None;
    }

    /** `decode_chunked_incremental`. */
    method Decode(raw: bytes, start: nat, lim: Limits) returns (verdict: Verdict)
      requires start <= |raw|
      requires Resumes(start) ==> start <= pos <= |raw|
      modifies this
      ensures Resumes(start) && start <= pos <= |raw|
      ensures Outcome(State(), raw[pos..], verdict)
              == if old(Resumes(start)) then Run(old(State()), raw[old(pos)..], lim)
                 else Run(INITIAL, raw[start..], lim)
    {
      hide SizeLineTurn, DataTurn, DataCrlfTurn, TrailersTurn;
      if !Resumes(start) { Activate(start); }
      ghost var goal := Run(State(), raw[pos..], lim);
      while true
        invariant Resumes(start) && start <= pos <= |raw|
        invariant Run(State(), raw[pos..], lim) == goal
        decreases |raw| - pos, if phase.Data? then 1 else 0
      {
        var stop: Option<Verdict>;
        match phase {
          case SizeLine => stop := SizeLineCase(raw, lim);
          case Data => stop := DataCase(raw);
          case DataCrlf => stop := DataCrlfCase(raw);
          case Trailers => stop := TrailersCase(raw);
          case Complete => stop := Some(Consumed);
        }
        if stop.Some? { return stop.value; }
      }
    }
  }
}

/**
 The grammar of a request head (sections 2, 3 and 5 of RFC 9112), written down
 apart from the parser, and the parser held against it in both directions: what
 the grammar writes is read back, and what is read was written by the grammar.
 */
module MessageSyntax {
  import opened Bytes
  import opened HeaderOrder
  import opened HeaderRefusal
  import opened Http1Parser
  import opened Numerals

  // ---------------------------------------------------------------- characters

  /** A token character (section 5.6.2 of RFC 9110): visible, and not one of "(),/:;<=>?@[\]{} or a quote. */
  predicate IsTokenByte(c: byte) {
    33 <= c <= 126 && c !in {34, 40, 41, 44, 47, 58, 59, 60, 61, 62, 63, 64, 91, 92, 93, 123, 125}
  }

  predicate IsToken(s: bytes) { s != [] && forall i :: 0 <= i < |s| ==> IsTokenByte(s[i]) }

  /** Visible characters and the bytes above ASCII, which the parser lets through. */
  predicate IsTarget(s: bytes) { s != [] && forall i :: 0 <= i < |s| ==> 33 <= s[i] && s[i] != 127 }

  predicate IsBlank(s: bytes) { forall i :: 0 <= i < |s| ==> s[i] == 32 || s[i] == 9 }

  /** Begins and ends, if it is not empty, with something other than a blank. */
  predicate IsTrimmed(s: bytes) { s == [] || !(s[0] in {32, 9} || s[|s| - 1] in {32, 9}) }

  predicate IsFieldValue(s: bytes) {
    IsTrimmed(s) && forall i :: 0 <= i < |s| ==> s[i] == 9 || (32 <= s[i] && s[i] != 127)
  }

  predicate IsVersion(s: bytes) { s == Ascii("HTTP/1.0") || s == Ascii("HTTP/1.1") }

  lemma TokenBytes(c: byte)
    ensures IsTchar(c) <==> IsTokenByte(c)
  {
  }

  lemma Versions(s: bytes)
    ensures IsVersion(s) <==> s == HTTP10 || s == HTTP11
  {
    assert Ascii("HTTP/1.0") == HTTP10;
    assert Ascii("HTTP/1.1") == HTTP11;
  }

  lemma Tokens(s: bytes)
    ensures s != [] && All(s, IsTchar) <==> IsToken(s)
  {
    forall i | 0 <= i < |s| ensures IsTchar(s[i]) <==> IsTokenByte(s[i]) { TokenBytes(s[i]); }
  }

  // ------------------------------------------------------------- the request line

  /** A request line is `verb SP target SP version`. */
  predicate IsRequestLine(line: bytes, verb: bytes, target: bytes, version: bytes) {
    && line == verb + [SP] + target + [SP] + version
    && IsToken(verb) && IsTarget(target) && IsVersion(version)
  }

  /** A request line is read into its three parts. */
  lemma RequestLineRead(line: bytes, verb: bytes, target: bytes, version: bytes)
    requires IsRequestLine(line, verb, target, version)
    ensures RequestLine(line) == Some((verb, target, version))
  {
    var rest := target + [SP] + version;
    assert line == verb + [SP] + rest;
    FindByteAfter(verb, SP, rest);
    FindByteAfter(target, SP, version);
    assert line[..|verb|] == verb && line[|verb| + 1..] == rest;
    assert rest[..|target|] == target && rest[|target| + 1..] == version;
    Tokens(verb);
    Versions(version);
  }

  /** Only a request line is read, into parts that make it up. */
  lemma RequestLineForm(line: bytes)
    requires RequestLine(line).Some?
    ensures var (verb, target, version) := RequestLine(line).value; IsRequestLine(line, verb, target, version)
  {
    var (verb, target, version) := RequestLine(line).value;
    var rest := line[|verb| + 1..];
    Tokens(verb);
    Versions(version);
    assert rest == target + [SP] + version;
    assert line == verb + [SP] + rest;
  }

  // -------------------------------------------------------------- a header field

  /** A header line is `name ":" blanks value blanks`. */
  predicate IsField(line: bytes, name: bytes, a: bytes, value: bytes, b: bytes) {
    && line == name + [COLON] + a + value + b
    && IsToken(name) && IsBlank(a) && IsFieldValue(value) && IsBlank(b)
  }

  lemma {:induction false} TrimLeftBlank(a: bytes, s: bytes)
    requires IsBlank(a)
    ensures TrimLeft(a + s) == TrimLeft(s)
  {
    if a == [] {
      assert a + s == s;
    } else {
      assert (a + s)[0] == a[0] && (a + s)[1..] == a[1..] + s;
      TrimLeftBlank(a[1..], s);
    }
  }

  lemma {:induction false} TrimRightBlank(s: bytes, b: bytes)
    requires IsBlank(b)
    ensures TrimRight(s + b) == TrimRight(s)
  {
    if b == [] {
      assert s + b == s;
    } else {
      var t := s + b;
      assert t[|t| - 1] == b[|b| - 1] && t[..|t| - 1] == s + b[..|b| - 1];
      TrimRightBlank(s, b[..|b| - 1]);
    }
  }

  lemma {:induction false} TrimLeftForm(s: bytes) returns (a: bytes)
    ensures IsBlank(a) && s == a + TrimLeft(s)
    ensures TrimLeft(s) != [] ==> !IsOws(TrimLeft(s)[0])
  {
    if s == [] || !IsOws(s[0]) {
      a := [];
    } else {
      a := TrimLeftForm(s[1..]);
      a := [s[0]] + a;
    }
  }

  lemma {:induction false} TrimRightForm(s: bytes) returns (b: bytes)
    ensures IsBlank(b) && s == TrimRight(s) + b
    ensures TrimRight(s) != [] ==> !IsOws(TrimRight(s)[|TrimRight(s)| - 1])
  {
    if s == [] || !IsOws(s[|s| - 1]) {
      b := [];
    } else {
      b := TrimRightForm(s[..|s| - 1]);
      b := b + [s[|s| - 1]];
      assert s == s[..|s| - 1] + [s[|s| - 1]];
    }
  }

  /** Blanks around a trimmed value are dropped, and nothing else. */
  lemma TrimPadded(a: bytes, value: bytes, b: bytes)
    requires IsBlank(a) && IsBlank(b) && IsTrimmed(value)
    ensures TrimRight(TrimLeft(a + value + b)) == value
  {
    hide IsBlank;
    assert a + value + b == a + (value + b);
    TrimLeftBlank(a, value + b);
    if value == [] {
      TrimLeftBlank(b, []);
      assert value + b == b + [];
    } else {
      assert (value + b)[0] == value[0];
      TrimRightBlank(value, b);
    }
  }

  lemma TrimForm(s: bytes) returns (a: bytes, b: bytes)
    ensures IsBlank(a) && IsBlank(b) && s == a + TrimRight(TrimLeft(s)) + b && IsTrimmed(TrimRight(TrimLeft(s)))
  {
    hide TrimLeft, TrimRight;
    a := TrimLeftForm(s);
    b := TrimRightForm(TrimLeft(s));
    var left, value := TrimLeft(s), TrimRight(TrimLeft(s));
    if value != [] { assert value[0] == left[0]; }
    assert s == a + value + b;
  }

  /** A field's bytes are neither NUL nor CR. */
  lemma FieldBytes(line: bytes, name: bytes, a: bytes, value: bytes, b: bytes)
    requires IsField(line, name, a, value, b)
    ensures 0 !in line && CR !in line && line != [] && !IsOws(line[0])
  {
    forall c | c in line ensures c != 0 && c != CR {
      assert c in name || c == COLON || c in a || c in value || c in b;
    }
  }

  lemma FieldBytesOf(value: bytes)
    ensures IsTrimmed(value) && All(value, IsFieldChar) <==> IsFieldValue(value)
  {
  }

  /** A header line is read into its name and its value, without the blanks around the value. */
  lemma FieldRead(line: bytes, name: bytes, a: bytes, value: bytes, b: bytes)
    requires IsField(line, name, a, value, b)
    ensures HeaderLine(line) == Some((name, value))
  {
    hide TrimLeft, TrimRight, IsBlank, IsTrimmed, All;
    FieldBytes(line, name, a, value, b);
    var rest := a + value + b;
    assert line == name + [COLON] + rest;
    FindByteAfter(name, COLON, rest);
    assert line[..|name|] == name && line[|name| + 1..] == rest;
    TrimPadded(a, value, b);
    Tokens(name);
    FieldBytesOf(value);
  }

  /** Only a header line is read, into a name and a value that make it up. */
  lemma FieldForm(line: bytes) returns (a: bytes, b: bytes)
    requires HeaderLine(line).Some?
    ensures var (name, value) := HeaderLine(line).value; IsField(line, name, a, value, b)
  {
    hide TrimLeft, TrimRight, IsBlank, IsTrimmed, All;
    var (name, value) := HeaderLine(line).value;
    a, b := TrimForm(line[|name| + 1..]);
    Tokens(name);
    FieldBytesOf(value);
    assert line == name + [COLON] + line[|name| + 1..];
    assert line == name + [COLON] + a + value + b;
  }

  // ------------------------------------------------------------- the request head

  /** A header field as it may be written: its value between blanks. */
  datatype Written = Written(name: bytes, a: bytes, value: bytes, b: bytes)

  predicate IsWritten(f: Written) { IsToken(f.name) && IsBlank(f.a) && IsFieldValue(f.value) && IsBlank(f.b) }

  function LineOf(f: Written): bytes { f.name + [COLON] + f.a + f.value + f.b }

  function LinesOf(fs: seq<Written>): (ls: seq<bytes>)
    ensures |ls| == |fs| && forall i :: 0 <= i < |fs| ==> ls[i] == LineOf(fs[i])
  {
    seq(|fs|, i requires 0 <= i < |fs| => LineOf(fs[i]))
  }

  function PairsOf(fs: seq<Written>): (r: seq<Field>)
    ensures |r| == |fs| && forall i :: 0 <= i < |fs| ==> r[i] == (fs[i].name, fs[i].value)
  {
    seq(|fs|, i requires 0 <= i < |fs| => (fs[i].name, fs[i].value))
  }

  predicate AreWritten(fs: seq<Written>) { forall i :: 0 <= i < |fs| ==> IsWritten(fs[i]) }

  /** The limits, in the order in which a complete head is held against them. */
  predicate Fits(line: bytes, ls: seq<bytes>, lim: Limits) {
    && |line| <= lim.maxRequestLine && |Lines(ls)| <= lim.maxHeaderBlock + 2 && |ls| <= lim.maxHeaders
    && forall i :: 0 <= i < |ls| ==> |ls[i]| <= lim.maxHeaderLine
  }

  lemma {:induction false} FieldsWritten(fs: seq<Written>, lim: Limits)
    requires AreWritten(fs)
    ensures FieldsOf(LinesOf(fs)) == PairsOf(fs) && AreLines(LinesOf(fs))
    ensures forall i :: 0 <= i < |fs| ==> HeaderLine(LinesOf(fs)[i]).Some?
  {
    hide HeaderLine;
    forall i | 0 <= i < |fs|
      ensures HeaderLine(LinesOf(fs)[i]) == Some(PairsOf(fs)[i]) && IsLine(LinesOf(fs)[i])
    {
      var f := fs[i];
      FieldRead(LineOf(f), f.name, f.a, f.value, f.b);
      FieldBytes(LineOf(f), f.name, f.a, f.value, f.b);
    }
    FieldsAre(LinesOf(fs), PairsOf(fs));
  }

  lemma {:induction false} FieldsAre(ls: seq<bytes>, pairs: seq<Field>)
    requires |pairs| == |ls| && forall i :: 0 <= i < |ls| ==> HeaderLine(ls[i]) == Some(pairs[i])
    ensures FieldsOf(ls) == pairs
  {
    hide HeaderLine;
    if ls == [] {
    } else {
      FieldsAre(ls[1..], pairs[1..]);
    }
  }

  /**
   What the grammar writes is read back: the three parts of the request line and
   the fields in order, with the end of the head, if and only if it is within the limits.
   */
  lemma HeadRead(verb: bytes, target: bytes, version: bytes, fs: seq<Written>, body: bytes, lim: Limits)
    requires IsToken(verb) && IsTarget(target) && IsVersion(version) && AreWritten(fs)
    ensures var line, ls := verb + [SP] + target + [SP] + version, LinesOf(fs);
            var p := ParseRequest(RawRequest(line, ls, body), lim);
            if Fits(line, ls, lim)
            then p == Parsed(Request(verb, target, version, PairsOf(fs), |line| + |Lines(ls)|))
            else p.Failed?
  {
    hide HeaderLine, RequestLine, ParseRequest, Lines, RawRequest;
    var line, ls := verb + [SP] + target + [SP] + version, LinesOf(fs);
    RequestLineRead(line, verb, target, version);
    NoBreakInLine(verb, target, version);
    FieldsWritten(fs, lim);
    ParseRaw(line, ls, body, lim);
    assert Fits(line, ls, lim) <==>
           |line| <= lim.maxRequestLine && |Lines(ls)| - 2 <= lim.maxHeaderBlock && Acceptable(ls, 0, lim);
  }

  lemma NoBreakInLine(verb: bytes, target: bytes, version: bytes)
    requires IsToken(verb) && IsTarget(target) && IsVersion(version)
    ensures CR !in verb + [SP] + target + [SP] + version
  {
    Versions(version);
    assert CR !in verb && CR !in target && CR !in version;
  }

  // ------------------------------------------------------ whatever is parsed is a head

  /** Inside the header block the next line starts before the block's end. */
  lemma NextLineInside(raw: bytes, pos: nat, end: nat)
    requires 2 <= pos && pos - 2 < end && OccursAt(raw, CRLF, pos - 2) && OccursAt(raw, CRLFCRLF, end)
    requires !OccursAt(raw, CRLFCRLF, pos - 2)
    ensures pos < end
  {
    OccursByte(raw, CRLF, pos - 2, 0);
    OccursByte(raw, CRLF, pos - 2, 1);
    OccursByte(raw, CRLFCRLF, end, 0);
    OccursByte(raw, CRLFCRLF, end, 1);
    if end == pos { TwoLineEnds(raw, pos - 2); }
  }

  lemma {:induction false} FieldLinesForm(raw: bytes, pos: nat, end: nat, lim: Limits, headers: seq<Field>)
    returns (ls: seq<bytes>)
    requires 2 <= pos <= end + 2 <= |raw| && OccursAt(raw, CRLF, pos - 2) && OccursAt(raw, CRLFCRLF, end)
    requires forall j :: pos - 2 <= j < end ==> !OccursAt(raw, CRLFCRLF, j)
    requires ParseFields(raw, pos, end, lim, headers).Fields?
    ensures AreLines(ls) && raw[pos..end + 2] == Lines(ls)
    decreases end + 2 - pos
  {
    hide OccursAt, Find, ParseFields, HeaderLine, Lines;
    if pos == end + 2 {
      ls := [];
      NoLines(raw[pos..end + 2]);
    } else {
      NextLineInside(raw, pos, end);
      LineTaken(raw, pos, end, lim, headers);
      var lineEnd := Find(raw, CRLF, pos).value;
      var line := raw[pos..lineEnd];
      LineIsLine(line);
      ls := FieldLinesForm(raw, lineEnd + 2, end, lim, headers + [HeaderLine(line).value]);
      LineThenLines(raw, pos, lineEnd, end, ls);
      ls := [line] + ls;
    }
  }

  lemma NoLines(s: bytes)
    requires s == []
    ensures s == Lines([])
  {
  }

  lemma LineTaken(raw: bytes, pos: nat, end: nat, lim: Limits, headers: seq<Field>)
    requires pos < end <= |raw| && ParseFields(raw, pos, end, lim, headers).Fields?
    ensures var e := Find(raw, CRLF, pos);
            && e.Some? && e.value <= end && HeaderLine(raw[pos..e.value]).Some?
            && ParseFields(raw, e.value + 2, end, lim, headers + [HeaderLine(raw[pos..e.value]).value]).Fields?
  {
    hide Find, HeaderLine;
  }

  lemma LineIsLine(line: bytes)
    requires HeaderLine(line).Some?
    ensures IsLine(line)
  {
  }

  lemma LineThenLines(raw: bytes, pos: nat, lineEnd: nat, end: nat, ls: seq<bytes>)
    requires pos <= lineEnd && lineEnd + 2 <= end + 2 <= |raw| && OccursAt(raw, CRLF, lineEnd)
    requires raw[lineEnd + 2..end + 2] == Lines(ls)
    ensures raw[pos..end + 2] == Lines([raw[pos..lineEnd]] + ls)
  {
    var line := raw[pos..lineEnd];
    assert ([line] + ls)[1..] == ls;
    assert raw[pos..end + 2] == line + raw[lineEnd..lineEnd + 2] + raw[lineEnd + 2..end + 2];
  }

  /**
   What is read was written by the grammar: a parsed input is a request line, header
   lines, the empty line and a body, and the request is made of the parts of those lines.
   */
  lemma HeadForm(raw: bytes, lim: Limits) returns (line: bytes, fs: seq<Written>, body: bytes)
    requires ParseRequest(raw, lim).Parsed?
    ensures raw == RawRequest(line, LinesOf(fs), body) && AreWritten(fs) && Fits(line, LinesOf(fs), lim)
    ensures var r := ParseRequest(raw, lim).request;
            && IsRequestLine(line, r.verb, r.target, r.version) && r.headers == PairsOf(fs)
            && r.headerEnd == |line| + |Lines(LinesOf(fs))|
  {
    hide RequestLine, HeaderLine, ParseRequest;
    var ls;
    line, ls, body := LinesForm(raw, lim);
    ParseRaw(line, ls, body, lim);
    RequestLineForm(line);
    fs := WrittenForm(ls);
    FieldsWritten(fs, lim);
  }

  lemma {:induction false} WrittenForm(ls: seq<bytes>) returns (fs: seq<Written>)
    requires forall i :: 0 <= i < |ls| ==> HeaderLine(ls[i]).Some?
    ensures AreWritten(fs) && LinesOf(fs) == ls
  {
    hide HeaderLine;
    if ls == [] {
      fs := [];
    } else {
      var a, b := FieldForm(ls[0]);
      var (name, value) := HeaderLine(ls[0]).value;
      fs := WrittenForm(ls[1..]);
      fs := [Written(name, a, value, b)] + fs;
    }
  }

  lemma LinesForm(raw: bytes, lim: Limits) returns (line: bytes, ls: seq<bytes>, body: bytes)
    requires ParseRequest(raw, lim).Parsed?
    ensures raw == RawRequest(line, ls, body) && CR !in line && AreLines(ls)
  {
    hide RequestLine, ParseFields, OccursAt, Find;
    var block := FindBlock(raw, lim);
    var eol, end := block.lineEnd, block.headerEnd;
    OccursFits(raw, CRLFCRLF, end);
    OccursFits(raw, CRLF, eol);
    line, body := raw[..eol], raw[end + 4..];
    LineHasNoBreak(line);
    ls := FieldLinesForm(raw, eol + 2, end, lim, []);
    PutTogether(raw, eol, end, ls);
  }

  lemma LineHasNoBreak(line: bytes)
    requires RequestLine(line).Some?
    ensures CR !in line
  {
    hide RequestLine;
    RequestLineForm(line);
    var (verb, target, version) := RequestLine(line).value;
    NoBreakInLine(verb, target, version);
  }

  lemma PutTogether(raw: bytes, eol: nat, end: nat, ls: seq<bytes>)
    requires eol + 2 <= end + 2 && end + 4 <= |raw| && OccursAt(raw, CRLF, eol) && OccursAt(raw, CRLFCRLF, end)
    requires raw[eol + 2..end + 2] == Lines(ls)
    ensures raw == RawRequest(raw[..eol], ls, raw[end + 4..])
  {
    OccursByte(raw, CRLFCRLF, end, 2);
    OccursByte(raw, CRLFCRLF, end, 3);
    assert raw[end + 2..end + 4] == CRLF;
    assert raw == raw[..eol] + raw[eol..eol + 2] + raw[eol + 2..end + 2] + raw[end + 2..end + 4] + raw[end + 4..];
  }

  // ------------------------------------------------------------ why a head is refused

  /** What is wrong with a header line, as the `n`-th of its block: its length, its number, its form. */
  function LineProblem(l: bytes, n: nat, lim: Limits): Status {
    if |l| > lim.maxHeaderLine then HeaderLineTooLarge
    else if n > lim.maxHeaders then TooManyHeaders
    else if HeaderLine(l).None? then BadRequest
    else Ok
  }

  /** The first problem among the lines, which come after `count` others. */
  function FirstProblem(ls: seq<bytes>, count: nat, lim: Limits): Status {
    if ls == [] then Ok
    else if LineProblem(ls[0], count + 1, lim) != Ok then LineProblem(ls[0], count + 1, lim)
    else FirstProblem(ls[1..], count + 1, lim)
  }

  lemma {:induction false} LoopRefuses(pre: bytes, ls: seq<bytes>, rest: bytes, lim: Limits, headers: seq<Field>)
    requires AreLines(ls) && FirstProblem(ls, |headers|, lim) != Ok
    ensures var s, end := pre + Lines(ls) + CRLF + rest, |pre| + |Lines(ls)| - 2;
            && 0 <= end <= |s|
            && ParseFields(s, |pre|, end, lim, headers) == BadFields(FirstProblem(ls, |headers|, lim))
    decreases |ls|
  {
    hide HeaderLine, Find, Lines, AreLines;
    NextLineOf(pre, ls, rest);
    if LineProblem(ls[0], |headers| + 1, lim) == Ok {
      LoopRefuses(pre + ls[0] + CRLF, ls[1..], rest, lim, headers + [HeaderLine(ls[0]).value]);
    }
  }

  /** A complete head is refused for the first of: its request line's length, its block's size,
      its request line's form, and its header lines in order. */
  lemma HeadRefused(line: bytes, ls: seq<bytes>, body: bytes, lim: Limits)
    requires CR !in line && AreLines(ls)
    ensures var p := ParseRequest(RawRequest(line, ls, body), lim);
            if |line| > lim.maxRequestLine then p == Failed(UriTooLong)
            else if |Lines(ls)| > lim.maxHeaderBlock + 2 then p == Failed(HeaderBlockTooLarge)
            else if RequestLine(line).None? then p == Failed(BadRequest)
            else if FirstProblem(ls, 0, lim) != Ok then p == Failed(FirstProblem(ls, 0, lim))
            else p.Parsed?
  {
    hide Find, RequestLine, ParseFields, Acceptable, ScanLines, Lines, FirstProblem;
    var raw, pre := RawRequest(line, ls, body), line + CRLF;
    var rest := Lines(ls) + CRLF + body;
    assert raw == [] + line + CRLF + rest;
    LineFound([], line, rest);
    assert raw == pre + Lines(ls) + CRLF + body;
    BlockEnd(pre, ls, body);
    assert raw[..|line|] == line;
    if FirstProblem(ls, 0, lim) != Ok {
      LoopRefuses(pre, ls, body, lim, []);
    } else {
      NoProblem(ls, 0, lim);
      ParseRaw(line, ls, body, lim);
    }
  }

  lemma {:induction false} NoProblem(ls: seq<bytes>, count: nat, lim: Limits)
    requires FirstProblem(ls, count, lim) == Ok
    ensures Acceptable(ls, count, lim) || ls == []
  {
    hide HeaderLine;
    if ls == [] {
    } else {
      NoProblem(ls[1..], count + 1, lim);
      AcceptableNext(ls, count, lim);
    }
  }

  // ----------------------------------------------------- a head that has not all arrived

  /** The first problem of an unfinished block: a line over its limit, one line too many,
      or the unfinished last line over its limit. */
  function ScanProblem(ls: seq<bytes>, tail: bytes, count: nat, lim: Limits): Status {
    if ls == [] then (if |tail| > lim.maxHeaderLine then HeaderLineTooLarge else Incomplete)
    else if |ls[0]| > lim.maxHeaderLine then HeaderLineTooLarge
    else if count + 1 > lim.maxHeaders then TooManyHeaders
    else ScanProblem(ls[1..], tail, count + 1, lim)
  }

  lemma NoLineEndAfter(pre: bytes, tail: bytes)
    requires NoLineEndIn(tail)
    ensures Find(pre + tail, CRLF, |pre|) == None
  {
    assert (pre + tail)[|pre|..] == tail;
    FindInSuffix(pre + tail, CRLF, |pre|);
  }

  lemma {:induction false} ScanIs(pre: bytes, ls: seq<bytes>, tail: bytes, count: nat, lim: Limits)
    requires AreLines(ls) && NoLineEndIn(tail)
    ensures ScanLines(pre + Lines(ls) + tail, |pre|, count, lim) == ScanProblem(ls, tail, count, lim)
    decreases |ls|
  {
    hide Find, NoLineEndIn, OccursAt;
    if ls == [] {
      assert pre + Lines(ls) + tail == pre + tail;
      NoLineEndAfter(pre, tail);
    } else {
      var l, rest := ls[0], Lines(ls[1..]) + tail;
      assert pre + Lines(ls) + tail == pre + l + CRLF + rest;
      LineFound(pre, l, rest);
      assert pre + l + CRLF + rest == (pre + l + CRLF) + Lines(ls[1..]) + tail;
      ScanIs(pre + l + CRLF, ls[1..], tail, count + 1, lim);
    }
  }

  lemma NoEmptyLineAt(pre: bytes, tail: bytes, i: nat)
    requires EndsLine(pre) && NoLineEndIn(tail) && |pre| - 2 <= i
    ensures !OccursAt(pre + tail, CRLFCRLF, i)
  {
    var s := pre + tail;
    if OccursAt(s, CRLFCRLF, i) {
      OccursByte(s, CRLFCRLF, i, 0);
      OccursByte(s, CRLFCRLF, i, 2);
      OccursByte(s, CRLFCRLF, i, 3);
      OneLineEnd(s, i + 2);
      OccursShift(pre, tail, CRLF, i + 2 - |pre|);
    }
  }

  lemma {:induction false} NoBlockIn(pre: bytes, ls: seq<bytes>, tail: bytes)
    requires EndsLine(pre) && AreLines(ls) && NoLineEndIn(tail)
    ensures Find(pre + Lines(ls) + tail, CRLFCRLF, |pre| - 2) == None
    decreases |ls|
  {
    hide Find, NoLineEndIn, OccursAt;
    var s := pre + Lines(ls) + tail;
    if ls == [] {
      assert s == pre + tail;
      forall i | |pre| - 2 <= i ensures !OccursAt(s, CRLFCRLF, i) { NoEmptyLineAt(pre, tail, i); }
    } else {
      var next := pre + ls[0] + CRLF;
      assert s == next + Lines(ls[1..]) + tail;
      NoBlockIn(next, ls[1..], tail);
      forall i | |pre| - 2 <= i < |next| - 2 ensures !OccursAt(s, CRLFCRLF, i) { NotYet(pre, ls[0], s, i); }
    }
  }

  /** An unfinished head is refused for the first of: its request line's length, the size of what
      has arrived of its block, and its lines in order; otherwise it waits. */
  lemma UnfinishedHead(line: bytes, ls: seq<bytes>, tail: bytes, lim: Limits)
    requires CR !in line && AreLines(ls) && NoLineEndIn(tail)
    ensures ParseRequest(line + CRLF + Lines(ls) + tail, lim)
            == Failed(if |line| > lim.maxRequestLine then UriTooLong
                      else if |Lines(ls)| + |tail| > lim.maxHeaderBlock then HeaderBlockTooLarge
                      else ScanProblem(ls, tail, 0, lim))
  {
    hide Find, RequestLine, ParseFields, ScanLines, Lines, NoLineEndIn, ScanProblem;
    var raw, pre := line + CRLF + Lines(ls) + tail, line + CRLF;
    var rest := Lines(ls) + tail;
    assert raw == [] + line + CRLF + rest;
    LineFound([], line, rest);
    NoBlockIn(pre, ls, tail);
    ScanIs(pre, ls, tail, 0, lim);
  }
}

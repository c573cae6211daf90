/**
 Two requests that differ only in the order of their header lines: the HTTP/1
 parser accepts both or neither, and the adversarial benchmark evaluates them
 alike.
 */
module HeaderOrder {
  import opened Bytes
  import opened Http1Parser
  import opened RequestFraming

  /** Header lines, each with its line end. */
  function Lines(ls: seq<bytes>): bytes {
    if ls == [] then [] else ls[0] + CRLF + Lines(ls[1..])
  }

  function RawRequest(line: bytes, ls: seq<bytes>, body: bytes): bytes {
    line + CRLF + Lines(ls) + CRLF + body
  }

  predicate IsLine(l: bytes) { l != [] && CR !in l }

  predicate AreLines(ls: seq<bytes>) { forall i :: 0 <= i < |ls| ==> IsLine(ls[i]) }

  /** The lines are fields within the limits, after `count` others. */
  predicate Acceptable(ls: seq<bytes>, count: nat, lim: Limits) {
    && count + |ls| <= lim.maxHeaders
    && forall i :: 0 <= i < |ls| ==> |ls[i]| <= lim.maxHeaderLine && HeaderLine(ls[i]).Some?
  }

  function FieldOf(l: bytes): Field { if HeaderLine(l).Some? then HeaderLine(l).value else ([], []) }

  function FieldsOf(ls: seq<bytes>): seq<Field> {
    if ls == [] then [] else [FieldOf(ls[0])] + FieldsOf(ls[1..])
  }

  // ------------------------------------------------------------------- parsing

  /** A line without carriage returns ends at its line end. */
  lemma LineFound(pre: bytes, l: bytes, rest: bytes)
    requires CR !in l
    ensures Find(pre + l + CRLF + rest, CRLF, |pre|) == Some(|pre| + |l|)
  {
    hide Find;
    var s, e := pre + l + CRLF + rest, |pre| + |l|;
    assert s[e..e + 2] == CRLF;
    forall i | |pre| <= i < e ensures !OccursAt(s, CRLF, i) {
      assert s[i] == l[i - |pre|];
      if OccursAt(s, CRLF, i) { OccursByte(s, CRLF, i, 0); }
    }
    FindIs(s, CRLF, |pre|, e);
  }

  predicate EndsLine(pre: bytes) { |pre| >= 2 && pre[|pre| - 2] == CR && pre[|pre| - 1] == LF }

  /** The header block after `pre` ends with its last line. */
  lemma {:induction false} BlockEnd(pre: bytes, ls: seq<bytes>, rest: bytes)
    requires EndsLine(pre) && AreLines(ls)
    ensures Find(pre + Lines(ls) + CRLF + rest, CRLFCRLF, |pre| - 2) == Some(|pre| + |Lines(ls)| - 2)
    decreases |ls|
  {
    hide Find;
    var s := pre + Lines(ls) + CRLF + rest;
    if ls == [] {
      assert s[|pre| - 2..|pre| + 2] == CRLFCRLF;
      FindIs(s, CRLFCRLF, |pre| - 2, |pre| - 2);
    } else {
      var next := pre + ls[0] + CRLF;
      assert s == next + Lines(ls[1..]) + CRLF + rest;
      BlockEnd(next, ls[1..], rest);
      forall i | |pre| - 2 <= i < |next| - 2 ensures !OccursAt(s, CRLFCRLF, i) { NotYet(pre, ls[0], s, i); }
      FindIs(s, CRLFCRLF, |pre| - 2, |pre| + |Lines(ls)| - 2);
    }
  }

  /** The empty line is not found before the end of the next line. */
  lemma NotYet(pre: bytes, l: bytes, s: bytes, i: nat)
    requires EndsLine(pre) && IsLine(l) && pre + l <= s && |pre| - 2 <= i < |pre| + |l|
    ensures !OccursAt(s, CRLFCRLF, i)
  {
    if OccursAt(s, CRLFCRLF, i) {
      OccursByte(s, CRLFCRLF, i, 0);
      OccursByte(s, CRLFCRLF, i, 2);
    }
  }

  /** The header loop takes the lines after `pre`, all of them or not at all. */
  ghost predicate Takes(pre: bytes, ls: seq<bytes>, rest: bytes, lim: Limits, headers: seq<Field>) {
    var s, end := pre + Lines(ls) + CRLF + rest, |pre| + |Lines(ls)| - 2;
    end <= |s| &&
    var r := ParseFields(s, |pre|, if end < 0 then 0 else end, lim, headers);
    && (r.Fields? <==> Acceptable(ls, |headers|, lim) || ls == [])
    && (r.Fields? ==> r == Fields(headers + FieldsOf(ls)))
  }

  lemma TakesNone(pre: bytes, rest: bytes, lim: Limits, headers: seq<Field>)
    ensures Takes(pre, [], rest, lim, headers)
  {
    assert headers + FieldsOf([]) == headers;
  }

  lemma TakesNext(pre: bytes, ls: seq<bytes>, rest: bytes, lim: Limits, headers: seq<Field>)
    requires ls != [] && AreLines(ls)
    requires HeaderLine(ls[0]).Some? ==>
               Takes(pre + ls[0] + CRLF, ls[1..], rest, lim, headers + [HeaderLine(ls[0]).value])
    ensures Takes(pre, ls, rest, lim, headers)
  {
    hide Find, HeaderLine, Lines, Acceptable, FieldsOf, AreLines;
    NextLineOf(pre, ls, rest);
    AcceptableNext(ls, |headers|, lim);
    AllTaken(ls[1..], |headers| + 1, lim);
    var field := HeaderLine(ls[0]);
    if field.Some? { NextField(headers, ls); }
  }

  lemma NextField(headers: seq<Field>, ls: seq<bytes>)
    requires ls != [] && HeaderLine(ls[0]).Some?
    ensures headers + [HeaderLine(ls[0]).value] + FieldsOf(ls[1..]) == headers + FieldsOf(ls)
  {
    hide HeaderLine;
  }

  lemma {:induction false} LoopTakes(pre: bytes, ls: seq<bytes>, rest: bytes, lim: Limits, headers: seq<Field>)
    requires AreLines(ls)
    ensures Takes(pre, ls, rest, lim, headers)
    decreases |ls|
  {
    hide Takes, HeaderLine;
    if ls == [] {
      TakesNone(pre, rest, lim, headers);
    } else {
      if HeaderLine(ls[0]).Some? {
        LoopTakes(pre + ls[0] + CRLF, ls[1..], rest, lim, headers + [HeaderLine(ls[0]).value]);
      }
      TakesNext(pre, ls, rest, lim, headers);
    }
  }

  lemma AllTaken(ls: seq<bytes>, count: nat, lim: Limits)
    ensures ls == [] ==> (Acceptable(ls, count, lim) <==> count <= lim.maxHeaders)
  {
  }

  /** The next line of the block, and the block after it. */
  lemma NextLineOf(pre: bytes, ls: seq<bytes>, rest: bytes)
    requires ls != [] && AreLines(ls)
    ensures var s, l, next := pre + Lines(ls) + CRLF + rest, ls[0], pre + ls[0] + CRLF;
            && Find(s, CRLF, |pre|) == Some(|pre| + |l|) && s[|pre|..|pre| + |l|] == l
            && s == next + Lines(ls[1..]) + CRLF + rest && |Lines(ls)| == |l| + 2 + |Lines(ls[1..])|
            && l != [] && AreLines(ls[1..])
  {
    hide Find;
    var l, tail := ls[0], Lines(ls[1..]) + CRLF + rest;
    assert pre + Lines(ls) + CRLF + rest == pre + l + CRLF + tail;
    LineFound(pre, l, tail);
  }

  lemma AcceptableNext(ls: seq<bytes>, count: nat, lim: Limits)
    requires ls != []
    ensures Acceptable(ls, count, lim) <==>
            && |ls[0]| <= lim.maxHeaderLine && HeaderLine(ls[0]).Some? && count + 1 <= lim.maxHeaders
            && Acceptable(ls[1..], count + 1, lim)
  {
    hide HeaderLine;
    assert forall i :: 0 < i < |ls| ==> ls[i] == ls[1..][i - 1];
  }

  /** What the parser makes of a raw request. */
  lemma ParseRaw(line: bytes, ls: seq<bytes>, body: bytes, lim: Limits)
    requires CR !in line && AreLines(ls)
    ensures var p := ParseRequest(RawRequest(line, ls, body), lim);
            && (p.Parsed? <==>
                  && |line| <= lim.maxRequestLine && RequestLine(line).Some?
                  && |Lines(ls)| - 2 <= lim.maxHeaderBlock && (Acceptable(ls, 0, lim) || ls == []))
            && (p.Parsed? ==>
                  p.request == Request(RequestLine(line).value.0, RequestLine(line).value.1, RequestLine(line).value.2,
                                       FieldsOf(ls), |line| + |Lines(ls)|))
  {
    hide Find, RequestLine, ParseFields, Acceptable, ScanLines, Lines;
    var raw, pre := RawRequest(line, ls, body), line + CRLF;
    var rest := Lines(ls) + CRLF + body;
    assert raw == [] + line + CRLF + rest;
    LineFound([], line, rest);
    assert raw == pre + Lines(ls) + CRLF + body;
    BlockEnd(pre, ls, body);
    LoopTakes(pre, ls, body, lim, []);
    assert raw[..|line|] == line && [] + FieldsOf(ls) == FieldsOf(ls);
  }

  // --------------------------------------------------------------- rearrangement

  lemma {:induction false} LinesConcat(a: seq<bytes>, b: seq<bytes>)
    ensures |Lines(a + b)| == |Lines(a)| + |Lines(b)| && FieldsOf(a + b) == FieldsOf(a) + FieldsOf(b)
  {
    hide FieldOf;
    if a == [] {
      assert a + b == b;
    } else {
      LinesConcat(a[1..], b);
      assert (a + b)[0] == a[0] && (a + b)[1..] == a[1..] + b;
    }
  }

  lemma TakeOut(b: seq<bytes>, j: nat)
    requires j < |b|
    ensures var rest := b[..j] + b[j + 1..];
            && |Lines(b)| == |Lines(rest)| + |b[j]| + 2
            && multiset(FieldsOf(b)) == multiset(FieldsOf(rest)) + multiset{FieldOf(b[j])}
  {
    hide FieldOf;
    assert b == b[..j] + ([b[j]] + b[j + 1..]);
    LinesConcat(b[..j], [b[j]] + b[j + 1..]);
    LinesConcat([b[j]], b[j + 1..]);
    LinesConcat(b[..j], b[j + 1..]);
    var one: seq<bytes> := [b[j]];
    assert one[1..] == [] && Lines([]) == [] && FieldsOf([]) == [];
  }

  /** Lines in another order take the same room and give the same fields in another order. */
  lemma {:induction false} Rearranged(a: seq<bytes>, b: seq<bytes>)
    requires multiset(a) == multiset(b)
    ensures |a| == |b| && |Lines(a)| == |Lines(b)| && multiset(FieldsOf(a)) == multiset(FieldsOf(b))
    decreases |a|
  {
    hide Lines, FieldsOf, FieldOf;
    assert |multiset(a)| == |multiset(b)|;
    if a == [] {
      assert b == [];
    } else {
      assert a[0] in multiset(b);
      var j :| 0 <= j < |b| && b[j] == a[0];
      RemoveOne(a, b, j);
      Rearranged(a[1..], b[..j] + b[j + 1..]);
      TakeOut(b, j);
      TakeOut(a, 0);
      assert a[..0] + a[1..] == a[1..];
    }
  }

  lemma RearrangedAcceptable(a: seq<bytes>, b: seq<bytes>, lim: Limits)
    requires multiset(a) == multiset(b) && |a| == |b|
    ensures Acceptable(a, 0, lim) <==> Acceptable(b, 0, lim)
    ensures AreLines(a) <==> AreLines(b)
  {
    hide HeaderLine;
    forall i | 0 <= i < |a| ensures a[i] in b { assert a[i] in multiset(b); }
    forall i | 0 <= i < |b| ensures b[i] in a { assert b[i] in multiset(a); }
  }

  // -------------------------------------------------------------------- evaluation

  lemma SameBody(c: Case, x: bytes, y: bytes, start: nat, framing: Framing, headers: nat)
    requires |x| == |y| && start <= |x| && x[start..] == y[start..]
    ensures BodyOf(c, x, start, framing, headers) == BodyOf(c, y, start, framing, headers)
  {
  }

  /**
   Putting the header lines of a request in another order changes nothing: it still
   parses, and its evaluation, from the reason to the bytes consumed, is the same.
   */
  lemma LineOrderIrrelevant(c: Case, line: bytes, a: seq<bytes>, b: seq<bytes>, body: bytes)
    requires CR !in line && AreLines(a) && multiset(a) == multiset(b)
    requires ParseRequest(RawRequest(line, a, body), c.limits).Parsed?
    ensures ParseRequest(RawRequest(line, b, body), c.limits).Parsed?
    ensures Evaluate(c, RawRequest(line, a, body)) == Evaluate(c, RawRequest(line, b, body))
  {
    hide ParseRequest, FramingOf, BodyOf, Lines, FieldsOf, Acceptable, RequestLine;
    var x, y := RawRequest(line, a, body), RawRequest(line, b, body);
    Rearranged(a, b);
    RearrangedAcceptable(a, b, c.limits);
    ParseRaw(line, a, body, c.limits);
    ParseRaw(line, b, body, c.limits);
    HeaderEndInside(x, c.limits);
    var version, start := RequestLine(line).value.2, |line| + |Lines(a)| + 4;
    OrderIrrelevant(version, FieldsOf(a), FieldsOf(b), c.maxBody);
    assert |multiset(FieldsOf(a))| == |multiset(FieldsOf(b))|;
    assert x[start..] == body && y[start..] == body;
    SameBody(c, x, y, start, FramingOf(version, FieldsOf(a), c.maxBody), |FieldsOf(a)|);
  }
}

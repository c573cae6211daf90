/**
 The increment server of the TCP round-trip benchmark: it reads decimal lines in
 whatever pieces the socket delivers, keeps the unfinished line at the front of a
 fixed buffer and answers every line with its successor.
 */
module LineServer {
  import opened Bytes
  import opened Channel

  /** What the server does about the bytes it has not answered. */
  datatype Outcome =
    | Open(rest: bytes)  // an unfinished line waits for more input
    | Unparsable         // a line that is not a 64-bit decimal closes the connection
    | LineTooLong        // the buffer is full and holds no newline

  datatype Reply = Reply(out: bytes, outcome: Outcome)

  /** A line handler: what to send for a complete line, or `None` to close. */
  type Handler = bytes -> Option<bytes>

  function Line(n: nat): bytes { Print(n, 10) + [LF] }

  /** The benchmark's handler: leading decimal digits, plus one in 64-bit arithmetic. */
  function Increment(line: bytes): (r: Option<bytes>)
  {
    match FromChars(line, 10)
    case Number(n, _) => Some(Line((n + 1) % TWO64))
    case _ => None
  }

  /**
   The protocol as a function of the byte stream alone. Fragmentation, the
   buffer and compaction do not appear; `cap` is only the longest run of bytes
   without a newline that is refused.
   */
  function Respond(h: Handler, s: bytes, cap: nat): Reply
    decreases |s|
  {
    var nl := FindByte(s, LF);
    if nl >= cap then Reply([], LineTooLong)
    else if nl == |s| then Reply([], Open(s))
    else
      match h(s[..nl])
      case None => Reply([], Unparsable)
      case Some(answer) =>
        var tail := Respond(h, s[nl + 1..], cap);
        Reply(answer + tail.out, tail.outcome)
  }

  lemma FindByteAppend(p: bytes, q: bytes, c: byte)
    ensures FindByte(p, c) < |p| ==> FindByte(p + q, c) == FindByte(p, c)
    ensures FindByte(p, c) == |p| ==> FindByte(p + q, c) == |p| + FindByte(q, c)
  {
    var i, r, j := FindByte(p, c), FindByte(p + q, c), FindByte(q, c);
    if i < |p| {
      assert (p + q)[i] == c;
    } else if j < |q| {
      assert (p + q)[|p| + j] == c;
    }
    assert forall k :: 0 <= k < |p| ==> (p + q)[k] == p[k];
    assert forall k :: 0 <= k < |q| ==> (p + q)[|p| + k] == q[k];
    if r < |p + q| && r >= |p| {
      assert q[r - |p|] == c;
    }
  }

  /** A complete line is answered the same however much input follows it. */
  lemma RespondFirst(h: Handler, p: bytes, q: bytes, cap: nat)
    requires FindByte(p, LF) < |p| && FindByte(p, LF) < cap
    ensures var nl := FindByte(p, LF);
            var tail := Respond(h, p[nl + 1..] + q, cap);
            Respond(h, p + q, cap) == match h(p[..nl])
                                      case None => Reply([], Unparsable)
                                      case Some(answer) => Reply(answer + tail.out, tail.outcome)
  {
    FindByteAppend(p, q, LF);
    var nl := FindByte(p, LF);
    assert (p + q)[..nl] == p[..nl];
    assert (p + q)[nl + 1..] == p[nl + 1..] + q;
  }

  /** What is replied after `p` when `q` follows it. */
  function Continue(h: Handler, r: Reply, q: bytes, cap: nat): Reply {
    match r.outcome
    case Open(rest) => var more := Respond(h, rest + q, cap); Reply(r.out + more.out, more.outcome)
    case _ => r
  }

  /**
   Input that arrives later continues exactly where the answered input stopped:
   the unfinished line is all the state there is, and a closed connection stays closed.
   */
  lemma {:induction false} RespondAppend(h: Handler, p: bytes, q: bytes, cap: nat)
    ensures Respond(h, p + q, cap) == Continue(h, Respond(h, p, cap), q, cap)
    decreases |p|
  {
    var nl := FindByte(p, LF);
    if nl >= cap || nl == |p| {
      FindByteAppend(p, q, LF);
      assert [] + Respond(h, p + q, cap).out == Respond(h, p + q, cap).out;
    } else {
      RespondFirst(h, p, q, cap);
      if h(p[..nl]).Some? {
        RespondAppend(h, p[nl + 1..], q, cap);
        ContinueAfter(h, h(p[..nl]).value, Respond(h, p[nl + 1..], cap), q, cap);
      }
    }
  }

  lemma ContinueAfter(h: Handler, sent: bytes, r: Reply, q: bytes, cap: nat)
    ensures var c := Continue(h, r, q, cap);
            Continue(h, Reply(sent + r.out, r.outcome), q, cap) == Reply(sent + c.out, c.outcome)
  {
    if r.outcome.Open? {
      var more := Respond(h, r.outcome.rest + q, cap).out;
      assert (sent + r.out) + more == sent + (r.out + more);
    }
  }

  // ------------------------------------------------------------- the program

  /** `consume_prefix`: drop the first `drop` held bytes by moving the rest down in place. */
  method ConsumePrefix(buf: array<byte>, held: nat, drop: nat) returns (left: nat)
    requires held <= buf.Length
    modifies buf
    ensures left <= held
    ensures buf[..left] == if drop <= held then old(buf[..held])[drop..] else []
  {
    if drop >= held { return 0; }
    left := held - drop;
    for i := 0 to left
      invariant forall j :: 0 <= j < i ==> buf[j] == old(buf[j + drop])
      invariant forall j :: i <= j < buf.Length ==> buf[j] == old(buf[j])
    {
      buf[i] := buf[i + drop];
    }
  }

  datatype End = EndOfStream | Stopped | ReadFailed | WriteFailed | Refused(why: Outcome)

  /** `done` has been sent for the part of `data` before its suffix `view`. */
  ghost predicate Unanswered(h: Handler, data: bytes, view: bytes, cap: nat, done: bytes) {
    var r := Respond(h, view, cap);
    Respond(h, data, cap) == Reply(done + r.out, r.outcome)
  }

  /** Answering the next line moves it from the unanswered input to the output. */
  lemma AnswerNext(h: Handler, data: bytes, view: bytes, cap: nat, done: bytes)
    requires Unanswered(h, data, view, cap, done) && |view| <= cap
    requires FindByte(view, LF) < |view|
    ensures var nl := FindByte(view, LF);
            match h(view[..nl])
            case None => Respond(h, data, cap) == Reply(done, Unparsable)
            case Some(answer) =>
              && done + answer <= Respond(h, data, cap).out
              && Unanswered(h, data, view[nl + 1..], cap, done + answer)
  {
    var nl := FindByte(view, LF);
    if h(view[..nl]).Some? {
      var answer, tail := h(view[..nl]).value, Respond(h, view[nl + 1..], cap);
      assert done + (answer + tail.out) == done + answer + tail.out;
    }
  }

  lemma AnswerNone(h: Handler, data: bytes, view: bytes, cap: nat, done: bytes)
    requires Unanswered(h, data, view, cap, done) && FindByte(view, LF) == |view|
    ensures Respond(h, data, cap) == Reply(done, if |view| < cap then Open(view) else LineTooLong)
  {
  }

  /** The short-write loop for one answer; on failure a proper prefix of it was sent. */
  method SendAnswer(sock: Socket, answer: bytes, ghost sent: bytes, ghost due: bytes, ghost before: bytes)
    returns (ok: bool, ghost sent': bytes)
    requires sock.outgoing == before + sent && sent + answer <= due
    modifies sock`outgoing, sock`failed
    ensures sock.outgoing == before + sent' && sent' <= due
    ensures ok ==> sent' == sent + answer
    ensures sock.failed == (old(sock.failed) || !ok)
  {
    ghost var taken;
    ok, taken := sock.SendAll(answer);
    sent' := sent + taken;
    assert sent + taken <= sent + answer;
    assert (before + sent) + taken == before + (sent + taken);
  }

  /** The inner loop of `serve_one`: answer every complete line among the held bytes. */
  method AnswerLines(h: Handler, sock: Socket, data: bytes, cap: nat)
    returns (scan: nat, end: Option<End>, ghost sent: bytes)
    requires |data| <= cap
    modifies sock`outgoing, sock`failed
    ensures sock.failed == (old(sock.failed) || end == Some(WriteFailed))
    ensures scan <= |data| && sock.outgoing == old(sock.outgoing) + sent
    ensures sent <= Respond(h, data, cap).out
    ensures end == None ==>
              Respond(h, data, cap) == Reply(sent, if |data| - scan < cap then Open(data[scan..]) else LineTooLong)
    ensures end.Some? && !end.value.WriteFailed? ==>
              end.value == Refused(Unparsable) && Respond(h, data, cap) == Reply(sent, Unparsable)
  {
    sent, scan, end := [], 0, None;
    var view := data;
    while scan < |data|
      invariant scan <= |data| && end == None && view == data[scan..]
      invariant sock.outgoing == old(sock.outgoing) + sent && sock.failed == old(sock.failed)
      invariant Unanswered(h, data, view, cap, sent)
    {
      var nl := FindByte(view, LF);
      if nl == |view| { break; }
      AnswerNext(h, data, view, cap, sent);
      var answer := h(view[..nl]);
      if answer.None? { return scan, Some(Refused(Unparsable)), sent; }
      var ok;
      ok, sent := SendAnswer(sock, answer.value, sent, Respond(h, data, cap).out, old(sock.outgoing));
      if !ok { return scan, Some(WriteFailed), sent; }
      scan, view := scan + nl + 1, view[nl + 1..];
    }
    AnswerNone(h, data, view, cap, sent);
  }

  /**
   `serve_one` (64-byte buffer) and `serve_one_async` (128-byte buffer). However
   the stream is cut into reads, the connection sends `Respond` of the bytes it
   was given; unless it is stopped or an I/O call fails, that is `Respond` of the
   whole stream and it closes for the reason `Respond` names. `stopAt` is the turn
   at which the stop flag is first seen set, if ever; it never reads again after that.
   */
  method Serve(h: Handler, sock: Socket, buf: array<byte>, stopAt: Option<nat>) returns (end: End)
    requires sock.Valid() && sock.pos == 0 && sock.outgoing == [] && buf.Length > 0 && !sock.failed
    modifies sock, buf
    ensures sock.Valid()
    ensures end.ReadFailed? || end.WriteFailed? <==> sock.failed
    ensures stopAt.Some? ==> sock.receives - old(sock.receives) <= stopAt.value
    ensures end.Stopped? ==> stopAt.Some? && sock.receives - old(sock.receives) == stopAt.value
    ensures sock.outgoing <= Respond(h, sock.incoming, buf.Length).out
    ensures end.Stopped? || end.ReadFailed? ==>
              sock.outgoing == Respond(h, sock.incoming[..sock.pos], buf.Length).out
    ensures end.EndOfStream? || end.Refused? ==>
              sock.outgoing == Respond(h, sock.incoming, buf.Length).out
    ensures end.EndOfStream? ==> Respond(h, sock.incoming, buf.Length).outcome.Open?
    ensures end.Refused? ==> end.why == Respond(h, sock.incoming, buf.Length).outcome && !end.why.Open?
  {
    hide Respond;
    var held, turn := 0, 0;
    NothingYet(h, sock.incoming[..0], buf.Length);
    while true
      invariant sock.Valid() && held < buf.Length && !sock.failed
      invariant sock.receives == old(sock.receives) + turn && (stopAt.Some? ==> turn <= stopAt.value)
      invariant Respond(h, sock.incoming[..sock.pos], buf.Length) == Reply(sock.outgoing, Open(buf[..held]))
      decreases |sock.incoming| - sock.pos
    {
      ghost var from, answered, kept := sock.pos, sock.outgoing, buf[..held];
      Split(h, sock.incoming, from, buf.Length);
      if stopAt == Some(turn) {
        end := Stopped;
        break;
      }
      turn := turn + 1;
      var got := sock.Recv(buf, held, buf.Length - held);
      if got <= 0 {
        assert got == 0 ==> sock.incoming[..sock.pos] == sock.incoming;
        end := if got == 0 then EndOfStream else ReadFailed;
        break;
      }
      held := held + got;
      var data := buf[..held];
      assert data == kept + sock.incoming[from..sock.pos];
      Delivered(h, sock.incoming, from, sock.pos, answered, kept, buf.Length);
      var scan, stopped, sent := AnswerLines(h, sock, data, buf.Length);
      if stopped.Some? {
        end := stopped.value;
        break;
      }
      if scan > 0 { held := ConsumePrefix(buf, held, scan); }
      assert buf[..held] == data[scan..];
      if held == buf.Length {
        end := Refused(LineTooLong);
        break;
      }
    }
  }

  const SYNC_BUFFER: nat := 64
  const ASYNC_BUFFER: nat := 128

  /** `serve_one`. */
  method ServeOne(sock: Socket, stopAt: Option<nat>) returns (end: End)
    requires sock.Valid() && sock.pos == 0 && sock.outgoing == [] && !sock.failed
    modifies sock
    ensures end.EndOfStream? || end.Refused? <==> !sock.failed && !end.Stopped?
    ensures stopAt.Some? ==> sock.receives - old(sock.receives) <= stopAt.value
    ensures end.Stopped? ==> stopAt.Some? && sock.receives - old(sock.receives) == stopAt.value
    ensures sock.outgoing <= Respond(Increment, sock.incoming, SYNC_BUFFER).out
    ensures end.EndOfStream? || end.Refused? ==>
              sock.outgoing == Respond(Increment, sock.incoming, SYNC_BUFFER).out
    ensures end.Refused? ==> end.why == Respond(Increment, sock.incoming, SYNC_BUFFER).outcome
    ensures end.EndOfStream? ==> Respond(Increment, sock.incoming, SYNC_BUFFER).outcome.Open?
  {
    var buf := new byte[SYNC_BUFFER];
    end := Serve(Increment, sock, buf, stopAt);
  }

  /** `serve_one_async`, which has no stop flag. */
  method ServeOneAsync(sock: Socket) returns (end: End)
    requires sock.Valid() && sock.pos == 0 && sock.outgoing == [] && !sock.failed
    modifies sock
    ensures end.EndOfStream? || end.Refused? <==> !sock.failed
    ensures sock.outgoing <= Respond(Increment, sock.incoming, ASYNC_BUFFER).out
    ensures end.EndOfStream? || end.Refused? ==>
              sock.outgoing == Respond(Increment, sock.incoming, ASYNC_BUFFER).out
    ensures end.Refused? ==> end.why == Respond(Increment, sock.incoming, ASYNC_BUFFER).outcome
    ensures end.EndOfStream? ==> Respond(Increment, sock.incoming, ASYNC_BUFFER).outcome.Open?
  {
    var buf := new byte[ASYNC_BUFFER];
    end := Serve(Increment, sock, buf, None);
  }

  lemma NothingYet(h: Handler, s: bytes, cap: nat)
    requires s == [] && cap > 0
    ensures Respond(h, s, cap) == Reply([], Open([]))
  {
  }

  /** The delivered part and the undelivered part of a stream, seen by `Respond`. */
  lemma Split(h: Handler, stream: bytes, k: nat, cap: nat)
    requires k <= |stream|
    ensures Respond(h, stream[..k], cap).out <= Respond(h, stream, cap).out
    ensures !Respond(h, stream[..k], cap).outcome.Open? ==> Respond(h, stream, cap) == Respond(h, stream[..k], cap)
  {
    assert stream[..k] + stream[k..] == stream;
    RespondAppend(h, stream[..k], stream[k..], cap);
  }

  /** One more read: the reply so far grows by the reply to the kept and the new bytes. */
  lemma Delivered(h: Handler, stream: bytes, from: nat, to: nat, answered: bytes, kept: bytes, cap: nat)
    requires from <= to <= |stream|
    requires Respond(h, stream[..from], cap) == Reply(answered, Open(kept))
    ensures var r := Respond(h, kept + stream[from..to], cap);
            && Respond(h, stream[..to], cap) == Reply(answered + r.out, r.outcome)
            && (forall sent | sent <= r.out :: answered + sent <= Respond(h, stream, cap).out)
            && (!r.outcome.Open? ==> Respond(h, stream, cap) == Respond(h, stream[..to], cap))
  {
    assert stream[..from] + stream[from..to] == stream[..to];
    RespondAppend(h, stream[..from], stream[from..to], cap);
    Split(h, stream, to, cap);
  }

  // ------------------------------------------- what the increment server says

  /** Each text ended by a newline, one after the other. */
  function Joined(texts: seq<bytes>): bytes {
    if texts == [] then [] else texts[0] + [LF] + Joined(texts[1..])
  }

  /** The answers of `h` to `texts`, one after the other. */
  function Answers(h: Handler, texts: seq<bytes>): bytes
    requires forall i :: 0 <= i < |texts| ==> h(texts[i]).Some?
  {
    if texts == [] then [] else h(texts[0]).value + Answers(h, texts[1..])
  }

  predicate IsText(t: bytes, cap: nat) {
    |t| < cap && forall i :: 0 <= i < |t| ==> t[i] != LF
  }

  /** The first complete line of a stream is answered first. */
  lemma RespondLine(h: Handler, text: bytes, rest: bytes, cap: nat)
    requires IsText(text, cap) && h(text).Some?
    ensures var tail := Respond(h, rest, cap);
            Respond(h, text + [LF] + rest, cap) == Reply(h(text).value + tail.out, tail.outcome)
  {
    FindByteAfter(text, LF, rest);
    var s := text + [LF] + rest;
    assert s[..|text|] == text && s[|text| + 1..] == rest;
  }

  /** A stream of acceptable lines is answered line by line, in order, and nothing is left over. */
  lemma {:induction false} RespondJoined(h: Handler, texts: seq<bytes>, cap: nat)
    requires cap > 0
    requires forall i :: 0 <= i < |texts| ==> IsText(texts[i], cap) && h(texts[i]).Some?
    ensures Respond(h, Joined(texts), cap) == Reply(Answers(h, texts), Open([]))
  {
    if texts == [] {
    } else {
      RespondJoined(h, texts[1..], cap);
      RespondLine(h, texts[0], Joined(texts[1..]), cap);
    }
  }

  lemma IncrementLine(n: nat)
    requires n < TWO64
    ensures Increment(Print(n, 10)) == Some(Line((n + 1) % TWO64))
    ensures IsText(Print(n, 10), 21)
  {
    assert Print(n, 10) + [] == Print(n, 10);
    ParsePrinted(n, 10, []);
    PrintU64Fits(n);
  }

  function Printed(ns: seq<nat>): (texts: seq<bytes>)
    ensures |texts| == |ns| && forall i :: 0 <= i < |ns| ==> texts[i] == Print(ns[i], 10)
  {
    seq(|ns|, i requires 0 <= i < |ns| => Print(ns[i], 10))
  }

  function Successors(ns: seq<nat>): (r: seq<nat>)
    ensures |r| == |ns| && forall i :: 0 <= i < |ns| ==> r[i] == (ns[i] + 1) % TWO64
  {
    seq(|ns|, i requires 0 <= i < |ns| => (ns[i] + 1) % TWO64)
  }

  lemma {:induction false} AnswersAre(h: Handler, texts: seq<bytes>, replies: seq<bytes>)
    requires |replies| == |texts|
    requires forall i :: 0 <= i < |texts| ==> h(texts[i]) == Some(replies[i] + [LF])
    ensures Answers(h, texts) == Joined(replies)
  {
    if texts == [] {
    } else {
      AnswersAre(h, texts[1..], replies[1..]);
    }
  }

  /** A stream of 64-bit decimal lines is answered by the line of each successor, in order. */
  lemma IncrementAll(ns: seq<nat>, cap: nat)
    requires forall i :: 0 <= i < |ns| ==> ns[i] < TWO64
    requires cap > 20
    ensures Respond(Increment, Joined(Printed(ns)), cap) == Reply(Joined(Printed(Successors(ns))), Open([]))
  {
    var texts, replies := Printed(ns), Printed(Successors(ns));
    forall i | 0 <= i < |ns|
      ensures Increment(texts[i]) == Some(replies[i] + [LF]) && IsText(texts[i], cap)
    {
      IncrementLine(ns[i]);
    }
    AnswersAre(Increment, texts, replies);
    RespondJoined(Increment, texts, cap);
  }

  // ------------------------------------------------- the two servers compared

  /** The length of the first line, finished or not, that has at least `cap` bytes
      and comes before the handler refuses a line. */
  function FirstLong(h: Handler, s: bytes, cap: nat): Option<nat>
    decreases |s|
  {
    var nl := FindByte(s, LF);
    if nl >= cap then Some(nl)
    else if nl == |s| || h(s[..nl]).None? then None
    else FirstLong(h, s[nl + 1..], cap)
  }

  /**
   Two servers that differ only in their buffer size give the same replies and
   close alike exactly when no line they reach fits one buffer and not the other.
   */
  lemma {:induction false} BufferSizeMatters(h: Handler, s: bytes, small: nat, large: nat)
    requires small <= large
    requires forall line :: h(line).Some? ==> h(line).value != []
    ensures Respond(h, s, small) == Respond(h, s, large) <==>
            (FirstLong(h, s, small).None? || FirstLong(h, s, small).value >= large)
    decreases |s|
  {
    var nl := FindByte(s, LF);
    if nl < small && nl < |s| && h(s[..nl]).Some? {
      BufferSizeMatters(h, s[nl + 1..], small, large);
      var a, b := Respond(h, s[nl + 1..], small), Respond(h, s[nl + 1..], large);
      if a.out != b.out {
        PrependKeepsDifference(h(s[..nl]).value, a.out, b.out);
      }
    }
  }

  lemma PrependKeepsDifference(p: bytes, a: bytes, b: bytes)
    requires a != b
    ensures p + a != p + b
  {
    assert (p + a)[|p|..] == a && (p + b)[|p|..] == b;
  }

  /** `serve_one` and `serve_one_async` disagree only about a reached line of 64 to 127 bytes. */
  lemma SyncAndAsyncAgree(s: bytes)
    ensures Respond(Increment, s, SYNC_BUFFER) == Respond(Increment, s, ASYNC_BUFFER) <==>
            (FirstLong(Increment, s, SYNC_BUFFER).None? || FirstLong(Increment, s, SYNC_BUFFER).value >= ASYNC_BUFFER)
  {
    BufferSizeMatters(Increment, s, SYNC_BUFFER, ASYNC_BUFFER);
  }

  function Zeros(n: nat): (s: bytes)
    ensures |s| == n && AllDigits(s, 10) && forall i :: 0 <= i < n ==> s[i] == 48
  {
    Fill(48, n)
  }

  lemma {:induction false} ZerosValue(n: nat)
    ensures Value(Zeros(n), 10) == 0
  {
    if n == 0 {
    } else {
      ZerosValue(n - 1);
      assert Zeros(n)[..n - 1] == Zeros(n - 1);
    }
  }

  lemma IncrementZeros(n: nat)
    requires n > 0
    ensures Increment(Zeros(n)) == Some(Line(1))
  {
    ZerosValue(n);
    assert Zeros(n)[..n] == Zeros(n);
  }

  /** A number written with 64 to 127 digits: one server refuses it and the other answers. */
  lemma ServersDiffer(n: nat)
    requires 64 <= n < 128
    ensures Respond(Increment, Zeros(n) + [LF], SYNC_BUFFER) == Reply([], LineTooLong)
    ensures Respond(Increment, Zeros(n) + [LF], ASYNC_BUFFER) == Reply(Line(1), Open([]))
  {
    hide Increment;
    assert Zeros(n) + [LF] + [] == Zeros(n) + [LF];
    FindByteAfter(Zeros(n), LF, []);
    IncrementZeros(n);
    RespondLine(Increment, Zeros(n), [], ASYNC_BUFFER);
    NothingYet(Increment, [], ASYNC_BUFFER);
    assert Line(1) + [] == Line(1);
  }
}

/**
 What the increment server says to every stream, told from the bytes alone:
 which lines are numbers, what each is answered, and where and why the
 conversation stops.
 */
module IncrementServer {
  import opened Bytes
  import opened LineServer
  import LockStep
  import opened Numerals

  /** A line is a number if its leading digits denote one below 2^64, whatever follows them. */
  predicate IsNumber(line: bytes) { Denoted(line).Some? && Denoted(line).value < TWO64 }

  /** The successor's line, with the carry out of 64 bits dropped. */
  function Successor(line: bytes): bytes
    requires IsNumber(line)
  {
    if Denoted(line).value == TWO64 - 1 then [48, LF] else Print(Denoted(line).value + 1, 10) + [LF]
  }

  lemma SuccessorWraps(line: bytes)
    requires IsNumber(line)
    ensures Successor(line) == Line((Denoted(line).value + 1) % TWO64)
  {
    hide Denoted;
    assert Print(0, 10) == [48];
  }

  lemma StartsWithDigit(line: bytes)
    ensures Denoted(line).None? <==> line == [] || !IsDecimal(line[0])
  {
    if line != [] && IsDecimal(line[0]) { assert LeadingDigits(line) > 0; }
  }

  /** One line: a number is answered by its successor modulo 2^64, anything else is refused. */
  lemma IncrementIs(line: bytes)
    ensures Increment(line) == if IsNumber(line) then Some(Successor(line)) else None
    ensures Denoted(line).None? <==> line == [] || !IsDecimal(line[0])
  {
    hide Denoted, FromChars, Successor, Line;
    FromCharsReads(line);
    StartsWithDigit(line);
    if IsNumber(line) { SuccessorWraps(line); }
  }

  /** The lines of a conversation that the server answers. */
  predicate AreNumbers(texts: seq<bytes>, cap: nat) {
    forall i :: 0 <= i < |texts| ==> IsText(texts[i], cap) && IsNumber(texts[i])
  }

  function SuccessorLines(texts: seq<bytes>, cap: nat): bytes
    requires AreNumbers(texts, cap)
  {
    if texts == [] then [] else Successor(texts[0]) + SuccessorLines(texts[1..], cap)
  }

  /** The first `cap` bytes, or all there are, hold no newline. */
  predicate NoLine(tail: bytes, cap: nat) {
    forall i :: 0 <= i < |tail| && i < cap ==> tail[i] != LF
  }

  /** A line of fewer than `cap` bytes that is not a number. */
  predicate StartsBad(tail: bytes, cap: nat) {
    exists k :: 0 <= k < |tail| && tail[k] == LF && IsText(tail[..k], cap) && !IsNumber(tail[..k])
  }

  /** Nothing the server answers comes first. */
  predicate NoNumberFirst(tail: bytes, cap: nat) { NoLine(tail, cap) || StartsBad(tail, cap) }

  /** Why the server stops: a full buffer, a line cut short by the end of the stream, or a bad line. */
  function Ending(tail: bytes, cap: nat): Outcome {
    if NoLine(tail, cap) then (if |tail| >= cap then LineTooLong else Open(tail)) else Unparsable
  }

  lemma EndsThere(tail: bytes, cap: nat)
    requires cap > 0 && NoNumberFirst(tail, cap)
    ensures Respond(Increment, tail, cap) == Reply([], Ending(tail, cap))
  {
    hide Increment;
    var nl := FindByte(tail, LF);
    if NoLine(tail, cap) {
      assert nl >= cap || nl == |tail|;
    } else {
      var k :| 0 <= k < |tail| && tail[k] == LF && IsText(tail[..k], cap) && !IsNumber(tail[..k]);
      assert forall i :: 0 <= i < k ==> tail[i] == tail[..k][i];
      assert nl == k;
      IncrementIs(tail[..k]);
    }
  }

  /**
   Numbers, then something that is not: each number is answered by its
   successor, in order, and nothing after them is answered.
   */
  lemma {:induction false} Conversation(texts: seq<bytes>, tail: bytes, cap: nat)
    requires cap > 0 && AreNumbers(texts, cap) && NoNumberFirst(tail, cap)
    ensures Respond(Increment, Joined(texts) + tail, cap) == Reply(SuccessorLines(texts, cap), Ending(tail, cap))
  {
    hide Increment, Respond, NoNumberFirst, Ending, Successor, IsNumber;
    if texts == [] {
      assert Joined(texts) + tail == tail;
      EndsThere(tail, cap);
    } else {
      Conversation(texts[1..], tail, cap);
      IncrementIs(texts[0]);
      RespondLine(Increment, texts[0], Joined(texts[1..]) + tail, cap);
      assert Joined(texts) + tail == texts[0] + [LF] + (Joined(texts[1..]) + tail);
    }
  }

  /** Every stream is such a conversation. */
  lemma {:induction false} EveryStream(s: bytes, cap: nat) returns (texts: seq<bytes>, tail: bytes)
    ensures s == Joined(texts) + tail && AreNumbers(texts, cap) && NoNumberFirst(tail, cap)
    decreases |s|
  {
    var nl := FindByte(s, LF);
    if nl >= cap || nl == |s| || !IsNumber(s[..nl]) {
      texts, tail := [], s;
      assert nl < cap && nl < |s| ==> IsText(s[..nl], cap);
    } else {
      texts, tail := EveryStream(s[nl + 1..], cap);
      var line := s[..nl];
      assert IsText(line, cap);
      assert ([line] + texts)[1..] == texts;
      texts := [line] + texts;
      assert s == line + [LF] + s[nl + 1..];
    }
  }

  // ------------------------------------------------------------- the client of the benchmark

  /** The client takes an answer exactly when it is a line whose leading digits denote the successor
      of its number; anything else ends the run as a failure. */
  lemma ClientChecks(s: LockStep.State, cap: nat, iters: nat)
    requires LockStep.Enabled(s, LockStep.ClientDecode, cap) && s.n < TWO64
    ensures var nl := FindByte(s.clientBuf, LF);
            LockStep.Next(s, LockStep.ClientDecode, cap, iters).mode != LockStep.Failed <==>
            nl < |s.clientBuf| && Denoted(s.clientBuf[..nl]) == Some((s.n + 1) % TWO64)
  {
    hide Denoted, FromChars, Increment;
    FromCharsReads(s.clientBuf[..FindByte(s.clientBuf, LF)]);
    LockStep.LineFacts((s.n + 1) % TWO64);
  }

  /** The server's step answers a number and fails on anything else. */
  lemma ServerChecks(s: LockStep.State, cap: nat, iters: nat)
    requires LockStep.Enabled(s, LockStep.ServerAnswer, cap)
    ensures var nl, s' := FindByte(s.serverBuf, LF), LockStep.Next(s, LockStep.ServerAnswer, cap, iters);
            if nl < |s.serverBuf| && IsNumber(s.serverBuf[..nl])
            then s'.mode == s.mode && s'.toWrite == Successor(s.serverBuf[..nl])
            else s'.mode == LockStep.Failed
  {
    hide Denoted, Increment, IsNumber, Successor;
    IncrementIs(s.serverBuf[..FindByte(s.serverBuf, LF)]);
  }
}

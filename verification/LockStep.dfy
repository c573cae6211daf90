/**
 One client loop and one increment server joined by two byte streams that cut
 their data anywhere: the run of `str_coro_loop` / `run_str_callback` against
 `serve_one`, as a state machine whose steps are single I/O calls.
 */
module LockStep {
  import opened Bytes
  import opened LineServer

  const CLIENT_BUFFER: nat := 128
  const TO_CHARS_BUFFER: nat := 24

  datatype Mode = Running | Finished | Failed

  datatype State = State(
    mode: Mode,
    done: nat,         // client iterations completed
    n: nat,            // the client's current number
    toSend: bytes,     // the part of the request not yet written
    up: bytes,         // client to server, in flight
    serverBuf: bytes,  // held by the server
    toWrite: bytes,    // the part of the answer not yet written
    down: bytes,       // server to client, in flight
    clientBuf: bytes)  // held by the client

  /** One I/O call of either side. `k` is how many bytes the call moves. */
  datatype Step =
    | ClientWrite(k: nat)
    | ServerRead(k: nat)
    | ServerAnswer
    | ServerWrite(k: nat)
    | ClientRead(k: nat)
    | ClientDecode

  /** `encode_line` throws unless the digits fit the buffer with room for the newline. */
  predicate Encodable(n: nat) { |Print(n, 10)| <= TO_CHARS_BUFFER - 1 }

  function Start(start: nat, iters: nat): State {
    if iters == 0 then State(Finished, 0, start, [], [], [], [], [], [])
    else if !Encodable(start) then State(Failed, 0, start, [], [], [], [], [], [])
    else State(Running, 0, start, Line(start), [], [], [], [], [])
  }

  predicate HasLine(buf: bytes) { FindByte(buf, LF) < |buf| }

  predicate Enabled(s: State, step: Step, cap: nat) {
    s.mode.Running? &&
    match step
    case ClientWrite(k) => 0 < k <= |s.toSend|
    case ServerRead(k) =>
      s.toWrite == [] && !HasLine(s.serverBuf) && 0 < k <= |s.up| && |s.serverBuf| + k <= cap
    case ServerAnswer => s.toWrite == [] && (HasLine(s.serverBuf) || |s.serverBuf| == cap)
    case ServerWrite(k) => 0 < k <= |s.toWrite|
    case ClientRead(k) =>
      s.toSend == [] && !HasLine(s.clientBuf) && 0 < k <= |s.down| && |s.clientBuf| + k <= CLIENT_BUFFER
    case ClientDecode => s.toSend == [] && (HasLine(s.clientBuf) || |s.clientBuf| == CLIENT_BUFFER)
  }

  /**
   The effect of a step. A full server buffer, a line the server cannot parse, a
   full client buffer (a zero-length receive, reported as end of stream), a line
   the client cannot parse and an unexpected number all end in `Failed`.
   */
  function Next(s: State, step: Step, cap: nat, iters: nat): State
    requires Enabled(s, step, cap)
  {
    match step
    case ClientWrite(k) => s.(up := s.up + s.toSend[..k], toSend := s.toSend[k..])
    case ServerRead(k) => s.(serverBuf := s.serverBuf + s.up[..k], up := s.up[k..])
    case ServerAnswer =>
      var nl := FindByte(s.serverBuf, LF);
      if nl == |s.serverBuf| then s.(mode := Failed)
      else
        (match Increment(s.serverBuf[..nl])
         case None => s.(mode := Failed)
         case Some(line) => s.(toWrite := line, serverBuf := s.serverBuf[nl + 1..]))
    case ServerWrite(k) => s.(down := s.down + s.toWrite[..k], toWrite := s.toWrite[k..])
    case ClientRead(k) => s.(clientBuf := s.clientBuf + s.down[..k], down := s.down[k..])
    case ClientDecode =>
      var nl := FindByte(s.clientBuf, LF);
      if nl == |s.clientBuf| then s.(mode := Failed)
      else
        var got := FromChars(s.clientBuf[..nl], 10);
        if !got.Number? || got.value != (s.n + 1) % TWO64 then s.(mode := Failed)
        else
          var s' := s.(done := s.done + 1, n := got.value, clientBuf := s.clientBuf[nl + 1..]);
          if s'.done == iters then s'.(mode := Finished)
          else if !Encodable(s'.n) then s'.(mode := Failed)
          else s'.(toSend := Line(s'.n))
  }

  // ---------------------------------------------------------------- invariant

  predicate Asking(s: State) {
    s.serverBuf + s.up + s.toSend == Line(s.n) && s.toWrite == [] && s.down == [] && s.clientBuf == []
  }

  predicate Answering(s: State) {
    s.clientBuf + s.down + s.toWrite == Line((s.n + 1) % TWO64) && s.toSend == [] && s.up == [] && s.serverBuf == []
  }

  /** Exactly one line is under way, cut into consecutive pieces along its path. */
  predicate Inv(s: State, start: nat, iters: nat) {
    && !s.mode.Failed?
    && s.n == (start + s.done) % TWO64
    && s.done <= iters
    && (s.mode.Finished? <==> s.done == iters)
    && (s.mode.Running? ==> Asking(s) || Answering(s))
  }

  lemma LineFacts(n: nat)
    requires n < TWO64
    ensures Encodable(n) && |Line(n)| <= 21
    ensures FindByte(Line(n), LF) == |Line(n)| - 1
    ensures Line(n)[..|Line(n)| - 1] == Print(n, 10)
  {
    PrintU64Fits(n);
    PrintHasNo(n, 10, LF);
    assert Line(n) + [] == Line(n);
    FindByteAfter(Print(n, 10), LF, []);
  }

  /** A held part of the line has its newline only when it is the whole line. */
  lemma PartOfLine(n: nat, a: bytes, b: bytes)
    requires n < TWO64 && a + b == Line(n)
    ensures HasLine(a) <==> b == []
    ensures |a| <= 21
  {
    LineFacts(n);
    if b != [] {
      assert forall i :: 0 <= i < |a| ==> a[i] == Line(n)[i];
    } else {
      assert a == Line(n);
    }
  }

  lemma InvStart(start: nat, iters: nat)
    requires start < TWO64
    ensures Inv(Start(start, iters), start, iters)
  {
    LineFacts(start);
    if iters > 0 { assert [] + [] + Line(start) == Line(start); }
  }

  lemma MoveBytes(a: bytes, b: bytes, c: bytes, k: nat)
    requires k <= |b|
    ensures (a + b[..k]) + b[k..] + c == a + b + c
    ensures a + (c + b[..k]) + b[k..] == a + c + b
  {
    assert b[..k] + b[k..] == b;
  }

  // --------------------------------------------------------------------- runs

  /** A run: the states visited and the step taken from each. */
  predicate IsRun(states: seq<State>, steps: seq<Step>, start: nat, iters: nat, cap: nat) {
    && |states| == |steps| + 1
    && states[0] == Start(start, iters)
    && forall i :: 0 <= i < |steps| ==>
         Enabled(states[i], steps[i], cap) && states[i + 1] == Next(states[i], steps[i], cap, iters)
  }

  /** What is left to do: every step uses up some of it. */
  function Work(s: State, iters: nat): int {
    150 * (iters - s.done)
    + (if !s.mode.Running? then 0
       else if s.toWrite + s.down + s.clientBuf == [] then 2 * |s.toSend| + |s.up| - 100
       else 2 * |s.toWrite| + |s.down| - 149)
  }

  /** The invariant is kept and some work is used up. */
  ghost predicate Good(s: State, s': State, start: nat, iters: nat) {
    Inv(s', start, iters) && 0 <= Work(s', iters) < Work(s, iters)
  }

  lemma RequestMoves(s: State, step: Step, cap: nat, start: nat, iters: nat)
    requires start < TWO64 && Inv(s, start, iters) && Asking(s) && Enabled(s, step, cap)
    requires step.ClientWrite? || step.ServerRead?
    ensures Good(s, Next(s, step, cap, iters), start, iters)
  {
    if step.ClientWrite? {
      MoveBytes(s.serverBuf, s.toSend, s.up, step.k);
    } else {
      MoveBytes(s.serverBuf, s.up, s.toSend, step.k);
    }
  }

  lemma AnswerMoves(s: State, step: Step, cap: nat, start: nat, iters: nat)
    requires start < TWO64 && Inv(s, start, iters) && Answering(s) && Enabled(s, step, cap)
    requires step.ServerWrite? || step.ClientRead?
    ensures Good(s, Next(s, step, cap, iters), start, iters)
  {
    if step.ServerWrite? {
      MoveBytes(s.clientBuf, s.toWrite, s.down, step.k);
    } else {
      MoveBytes(s.clientBuf, s.down, s.toWrite, step.k);
    }
  }

  /** What the two parsing steps make of a buffer that holds exactly one line. */
  lemma ParseHeldLine(buf: bytes, n: nat)
    requires n < TWO64 && buf == Line(n)
    ensures var nl := FindByte(buf, LF);
            && nl == |buf| - 1 && buf[nl + 1..] == []
            && FromChars(buf[..nl], 10) == Number(n, nl)
            && Increment(buf[..nl]) == Some(Line((n + 1) % TWO64))
  {
    LineFacts(n);
    IncrementLine(n);
    assert Print(n, 10) + [] == Print(n, 10);
    ParsePrinted(n, 10, []);
  }

  lemma WholeLineHeld(s: State, cap: nat, start: nat, iters: nat)
    requires start < TWO64 && cap > 21 && Inv(s, start, iters)
    ensures Asking(s) && Enabled(s, ServerAnswer, cap) ==> s.serverBuf == Line(s.n) && s.up == [] && s.toSend == []
    ensures Answering(s) && Enabled(s, ClientDecode, cap) ==>
              s.clientBuf == Line((s.n + 1) % TWO64) && s.down == [] && s.toWrite == []
  {
    var m := (s.n + 1) % TWO64;
    if Asking(s) && Enabled(s, ServerAnswer, cap) {
      assert s.serverBuf + (s.up + s.toSend) == Line(s.n);
      PartOfLine(s.n, s.serverBuf, s.up + s.toSend);
    }
    if Answering(s) && Enabled(s, ClientDecode, cap) {
      assert s.clientBuf + (s.down + s.toWrite) == Line(m);
      PartOfLine(m, s.clientBuf, s.down + s.toWrite);
    }
  }

  lemma AnswerEffect(s: State, cap: nat, iters: nat)
    requires s.n < TWO64 && Enabled(s, ServerAnswer, cap) && s.serverBuf == Line(s.n)
    ensures Next(s, ServerAnswer, cap, iters) == s.(toWrite := Line((s.n + 1) % TWO64), serverBuf := [])
  {
    ParseHeldLine(s.serverBuf, s.n);
  }

  lemma DecodeEffect(s: State, cap: nat, iters: nat)
    requires Enabled(s, ClientDecode, cap) && s.clientBuf == Line((s.n + 1) % TWO64)
    ensures Next(s, ClientDecode, cap, iters) == AfterDecode(s, Line((s.n + 1) % TWO64), iters)
  {
    ParseHeldLine(s.clientBuf, (s.n + 1) % TWO64);
    LineFacts((s.n + 1) % TWO64);
  }

  lemma AnswerWork(s: State, line: bytes, iters: nat)
    requires s.mode.Running? && s.done < iters && s.toWrite + s.down + s.clientBuf == []
    requires 0 < |line| <= 21
    ensures 0 <= Work(s.(toWrite := line, serverBuf := []), iters) < Work(s, iters)
  {
  }

  lemma AnswerGood(s: State, start: nat, iters: nat)
    requires start < TWO64 && Inv(s, start, iters) && s.mode.Running? && Asking(s)
    requires s.up == [] && s.toSend == []
    ensures Good(s, s.(toWrite := Line((s.n + 1) % TWO64), serverBuf := []), start, iters)
  {
    var line := Line((s.n + 1) % TWO64);
    LineFacts((s.n + 1) % TWO64);
    AnswerWork(s, line, iters);
    assert [] + [] + line == line;
  }

  function AfterDecode(s: State, line: bytes, iters: nat): State {
    var s' := s.(done := s.done + 1, n := (s.n + 1) % TWO64, clientBuf := []);
    if s'.done == iters then s'.(mode := Finished) else s'.(toSend := line)
  }

  lemma DecodeWork(s: State, line: bytes, iters: nat)
    requires s.mode.Running? && s.done < iters && s.toWrite == [] && s.down == [] && s.clientBuf != []
    requires s.up == [] && |line| <= 21
    ensures 0 <= Work(AfterDecode(s, line, iters), iters) < Work(s, iters)
  {
  }

  lemma DecodeGood(s: State, start: nat, iters: nat)
    requires start < TWO64 && Inv(s, start, iters) && s.mode.Running? && Answering(s)
    requires s.down == [] && s.toWrite == []
    ensures Good(s, AfterDecode(s, Line((s.n + 1) % TWO64), iters), start, iters)
  {
    var line := Line((s.n + 1) % TWO64);
    LineFacts((s.n + 1) % TWO64);
    DecodeWork(s, line, iters);
    assert [] + [] + line == line;
    WrapAdd(start + s.done, 1);
  }

  lemma ServerAnswers(s: State, cap: nat, start: nat, iters: nat)
    requires start < TWO64 && cap > 21
    requires Inv(s, start, iters) && Asking(s) && Enabled(s, ServerAnswer, cap)
    ensures Good(s, Next(s, ServerAnswer, cap, iters), start, iters)
  {
    WholeLineHeld(s, cap, start, iters);
    AnswerEffect(s, cap, iters);
    AnswerGood(s, start, iters);
  }

  lemma ClientDecodes(s: State, cap: nat, start: nat, iters: nat)
    requires start < TWO64 && cap > 21
    requires Inv(s, start, iters) && Answering(s) && Enabled(s, ClientDecode, cap)
    ensures Good(s, Next(s, ClientDecode, cap, iters), start, iters)
  {
    WholeLineHeld(s, cap, start, iters);
    DecodeEffect(s, cap, iters);
    DecodeGood(s, start, iters);
  }

  lemma StepWorks(s: State, step: Step, cap: nat, start: nat, iters: nat)
    requires start < TWO64 && cap > 21 && Inv(s, start, iters) && Enabled(s, step, cap)
    ensures Good(s, Next(s, step, cap, iters), start, iters)
  {
    if Asking(s) {
      match step {
        case ClientWrite(_) => RequestMoves(s, step, cap, start, iters);
        case ServerRead(_) => RequestMoves(s, step, cap, start, iters);
        case ServerAnswer => ServerAnswers(s, cap, start, iters);
        case _ =>
      }
    } else {
      match step {
        case ServerWrite(_) => AnswerMoves(s, step, cap, start, iters);
        case ClientRead(_) => AnswerMoves(s, step, cap, start, iters);
        case ClientDecode => ClientDecodes(s, cap, start, iters);
        case _ =>
      }
    }
  }

  /** No deadlock: until the client is finished some step is possible. */
  lemma Progress(s: State, cap: nat, start: nat, iters: nat)
    requires start < TWO64 && cap > 21 && Inv(s, start, iters) && s.mode.Running?
    ensures exists step :: Enabled(s, step, cap)
  {
    var m := (s.n + 1) % TWO64;
    if Asking(s) {
      assert s.serverBuf + (s.up + s.toSend) == Line(s.n);
      PartOfLine(s.n, s.serverBuf, s.up + s.toSend);
      assert Enabled(s, if s.toSend != [] then ClientWrite(1)
                        else if s.up != [] then ServerRead(1) else ServerAnswer, cap);
    } else {
      assert s.clientBuf + (s.down + s.toWrite) == Line(m);
      PartOfLine(m, s.clientBuf, s.down + s.toWrite);
      assert Enabled(s, if s.toWrite != [] then ServerWrite(1)
                        else if s.down != [] then ClientRead(1) else ClientDecode, cap);
    }
  }

  /**
   Every run, whatever the fragmentation and the interleaving: no state is a
   failure, the client's number is the start plus the iterations done in 64-bit
   arithmetic, and the run is no longer than the work there was.
   */
  lemma {:induction false} RunIsSafe(states: seq<State>, steps: seq<Step>, start: nat, iters: nat, cap: nat)
    requires start < TWO64 && cap > 21 && IsRun(states, steps, start, iters, cap)
    ensures forall i :: 0 <= i < |states| ==> Inv(states[i], start, iters)
    ensures |steps| <= 150 * iters
    ensures 0 <= Work(states[|steps|], iters) <= 150 * iters - |steps|
    decreases |steps|
  {
    if steps == [] {
      InvStart(start, iters);
      LineFacts(start);
    } else {
      var last := |steps| - 1;
      RunIsSafe(states[..|steps|], steps[..last], start, iters, cap);
      StepWorks(states[last], steps[last], cap, start, iters);
    }
  }

  /** A run that cannot be extended has finished all its iterations. */
  lemma MaximalRunFinishes(states: seq<State>, steps: seq<Step>, start: nat, iters: nat, cap: nat)
    requires start < TWO64 && cap > 21 && IsRun(states, steps, start, iters, cap)
    requires forall step :: !Enabled(states[|steps|], step, cap)
    ensures var last := states[|steps|];
            last.mode == Finished && last.done == iters && last.n == (start + iters) % TWO64
  {
    RunIsSafe(states, steps, start, iters, cap);
    var last := states[|steps|];
    if last.mode.Running? { Progress(last, cap, start, iters); }
  }
}

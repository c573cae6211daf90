/**
 The HTTP/2 benchmark client's bookkeeping: callbacks that file every header,
 data chunk, stream close and GOAWAY frame (sections 5 and 6.8 of RFC 9113)
 under its stream, in whatever interleaving the session delivers them.
 */
module H2Demux {
  import opened Bytes
  import opened Arithmetic

  type StreamId = int

  datatype Response = Response(
    status: int,
    body: bytes,
    closed: bool,
    errorCode: nat,
    trailers: seq<(bytes, bytes)>)

  /** What `operator[]` inserts for a stream it has not seen. */
  const EMPTY: Response := Response(0, [], false, 0, [])

  datatype Event =
    | Header(sid: StreamId, trailer: bool, name: bytes, value: bytes)
    | Data(sid: StreamId, data: bytes)
    | Close(sid: StreamId, errorCode: nat)
    | Goaway(code: nat)

  /** ":status" */
  const STATUS: bytes := [58, 115, 116, 97, 116, 117, 115]
  const MINUS: byte := 45

  /** `from_chars` into an `int` that was 0: an optional minus sign, digits, in range. */
  function ParseStatus(v: bytes): int {
    var negative := v != [] && v[0] == MINUS;
    match FromChars(if negative then v[1..] else v, 10)
    case Number(n, _) =>
      if negative then (if n <= 0x8000_0000 then 0 - n else 0) else (if n <= 0x7fff_ffff then n else 0)
    case _ => 0
  }

  // ------------------------------------------------------------ events on values

  /** The client's maps and fields. */
  datatype Conn = Conn(responses: map<StreamId, Response>, goaway: bool, goawayCode: nat)

  function Get(m: map<StreamId, Response>, sid: StreamId): Response { if sid in m then m[sid] else EMPTY }

  /** Whether an event touches an entry of the response map, and which. */
  predicate Touches(e: Event, sid: StreamId) {
    match e
    case Header(s, trailer, name, _) => s == sid && (trailer || name == STATUS)
    case Data(s, _) => s == sid
    case Close(s, _) => s == sid
    case Goaway(_) => false
  }

  /** What an event does to the response of its own stream. */
  function Update(r: Response, e: Event): Response {
    match e
    case Header(_, trailer, name, value) =>
      if trailer then r.(trailers := r.trailers + [(name, value)])
      else if name == STATUS then r.(status := ParseStatus(value))
      else r
    case Data(_, data) => r.(body := r.body + data)
    case Close(_, code) => r.(closed := true, errorCode := code)
    case Goaway(_) => r
  }

  function Apply(c: Conn, e: Event): Conn {
    match e
    case Goaway(code) => c.(goaway := true, goawayCode := code)
    case _ =>
      if Touches(e, e.sid) then c.(responses := c.responses[e.sid := Update(Get(c.responses, e.sid), e)]) else c
  }

  function Fold(c: Conn, es: seq<Event>): Conn
    decreases |es|
  {
    if es == [] then c else Fold(Apply(c, es[0]), es[1..])
  }

  /** The events that concern one stream, in order. */
  function Own(es: seq<Event>, sid: StreamId): seq<Event> {
    if es == [] then []
    else (if Touches(es[0], sid) then [es[0]] else []) + Own(es[1..], sid)
  }

  function FoldOwn(r: Option<Response>, own: seq<Event>): Option<Response>
    decreases |own|
  {
    if own == [] then r
    else FoldOwn(Some(Update(if r.Some? then r.value else EMPTY, own[0])), own[1..])
  }

  function Goaways(es: seq<Event>): seq<nat> {
    if es == [] then []
    else (if es[0].Goaway? then [es[0].code] else []) + Goaways(es[1..])
  }

  function Lookup(m: map<StreamId, Response>, sid: StreamId): Option<Response> {
    if sid in m then Some(m[sid]) else None
  }

  lemma ApplyLookup(c: Conn, e: Event, sid: StreamId)
    ensures Lookup(Apply(c, e).responses, sid)
            == if Touches(e, sid) then Some(Update(Get(c.responses, sid), e)) else Lookup(c.responses, sid)
  {
  }

  /** Each stream's stored response is the fold of that stream's own events, whatever the
      interleaving with other streams. */
  lemma {:induction false} Demultiplexed(c: Conn, es: seq<Event>, sid: StreamId)
    ensures Lookup(Fold(c, es).responses, sid) == FoldOwn(Lookup(c.responses, sid), Own(es, sid))
    decreases |es|
  {
    if es == [] {
    } else {
      hide Apply, Update;
      var rest := Own(es[1..], sid);
      ApplyLookup(c, es[0], sid);
      Demultiplexed(Apply(c, es[0]), es[1..], sid);
      if Touches(es[0], sid) {
        assert ([es[0]] + rest)[1..] == rest;
      } else {
        assert [] + rest == rest;
      }
    }
  }

  lemma ApplyGoaway(c: Conn, e: Event)
    ensures Apply(c, e).goaway == (c.goaway || e.Goaway?)
    ensures Apply(c, e).goawayCode == if e.Goaway? then e.code else c.goawayCode
  {
  }

  lemma {:induction false} GoawayFold(c: Conn, es: seq<Event>)
    ensures var g := Goaways(es);
            && Fold(c, es).goaway == (c.goaway || g != [])
            && Fold(c, es).goawayCode == if g == [] then c.goawayCode else g[|g| - 1]
    decreases |es|
  {
    hide Apply;
    if es == [] {
    } else {
      ApplyGoaway(c, es[0]);
      GoawayFold(Apply(c, es[0]), es[1..]);
    }
  }

  /** Two deliveries that agree stream by stream, and on GOAWAY frames, leave the same state. */
  lemma InterleavingIrrelevant(c: Conn, es: seq<Event>, fs: seq<Event>)
    requires forall sid :: Own(es, sid) == Own(fs, sid)
    requires Goaways(es) == Goaways(fs)
    ensures Fold(c, es) == Fold(c, fs)
  {
    hide Fold, Own, Goaways;
    var a, b := Fold(c, es), Fold(c, fs);
    forall sid ensures Lookup(a.responses, sid) == Lookup(b.responses, sid) {
      assert Own(es, sid) == Own(fs, sid);
      Demultiplexed(c, es, sid);
      Demultiplexed(c, fs, sid);
    }
    SameLookups(a.responses, b.responses);
    GoawayFold(c, es);
    GoawayFold(c, fs);
  }

  lemma SameLookups(a: map<StreamId, Response>, b: map<StreamId, Response>)
    requires forall sid :: Lookup(a, sid) == Lookup(b, sid)
    ensures a == b
  {
    forall sid: StreamId ensures sid in a <==> sid in b { assert Lookup(a, sid) == Lookup(b, sid); }
    forall sid | sid in a ensures a[sid] == b[sid] { assert Lookup(a, sid) == Lookup(b, sid); }
  }

  predicate Independent(a: Event, b: Event) {
    !(a.Goaway? && b.Goaway?) && (a.Goaway? || b.Goaway? || a.sid != b.sid)
  }

  lemma IndependentPair(a: Event, b: Event, sid: StreamId)
    requires Independent(a, b)
    ensures Own([a, b], sid) == Own([b, a], sid)
    ensures Goaways([a, b]) == Goaways([b, a])
  {
    assert [a, b][1..] == [b] && [b, a][1..] == [a] && [a][1..] == [] && [b][1..] == [];
  }

  /** Adjacent events of different streams may be swapped anywhere in a delivery. */
  lemma SwapIrrelevant(c: Conn, before: seq<Event>, a: Event, b: Event, after: seq<Event>)
    requires Independent(a, b)
    ensures Fold(c, before + [a, b] + after) == Fold(c, before + [b, a] + after)
  {
    hide Fold, Own, Goaways;
    forall sid ensures Own(before + [a, b] + after, sid) == Own(before + [b, a] + after, sid) {
      IndependentPair(a, b, sid);
      OwnConcat(before + [a, b], after, sid);
      OwnConcat(before, [a, b], sid);
      OwnConcat(before + [b, a], after, sid);
      OwnConcat(before, [b, a], sid);
    }
    IndependentPair(a, b, 0);
    GoawaysConcat(before + [a, b], after);
    GoawaysConcat(before, [a, b]);
    GoawaysConcat(before + [b, a], after);
    GoawaysConcat(before, [b, a]);
    InterleavingIrrelevant(c, before + [a, b] + after, before + [b, a] + after);
  }

  lemma {:induction false} OwnConcat(es: seq<Event>, fs: seq<Event>, sid: StreamId)
    ensures Own(es + fs, sid) == Own(es, sid) + Own(fs, sid)
  {
    hide Touches;
    if es == [] {
      assert es + fs == fs;
    } else {
      OwnConcat(es[1..], fs, sid);
      assert (es + fs)[0] == es[0] && (es + fs)[1..] == es[1..] + fs;
      var head := if Touches(es[0], sid) then [es[0]] else [];
      assert head + (Own(es[1..], sid) + Own(fs, sid)) == head + Own(es[1..], sid) + Own(fs, sid);
    }
  }

  lemma {:induction false} GoawaysConcat(es: seq<Event>, fs: seq<Event>)
    ensures Goaways(es + fs) == Goaways(es) + Goaways(fs)
  {
    if es == [] {
      assert es + fs == fs;
    } else {
      GoawaysConcat(es[1..], fs);
      assert (es + fs)[0] == es[0] && (es + fs)[1..] == es[1..] + fs;
      var head: seq<nat> := if es[0].Goaway? then [es[0].code] else [];
      assert head + (Goaways(es[1..]) + Goaways(fs)) == head + Goaways(es[1..]) + Goaways(fs);
    }
  }

  lemma {:induction false} FoldConcat(c: Conn, es: seq<Event>, fs: seq<Event>)
    ensures Fold(c, es + fs) == Fold(Fold(c, es), fs)
    decreases |es|
  {
    if es == [] {
      assert es + fs == fs;
    } else {
      FoldConcat(Apply(c, es[0]), es[1..], fs);
      assert (es + fs)[1..] == es[1..] + fs;
    }
  }

  // ------------------------------------------------------------------ the client

  datatype TakeError = Missing | BadStatus(sid: StreamId, response: Response)

  datatype Taken = Bytes(total: nat) | Failed(error: TakeError)

  predicate Successful(r: Response) { r.status == 200 && r.errorCode == 0 }

  /** The sum of the body sizes of some streams. */
  function BodySizes(m: map<StreamId, Response>, sids: seq<StreamId>): nat {
    if sids == [] then 0
    else BodySizes(m, sids[..|sids| - 1]) + |Get(m, sids[|sids| - 1]).body|
  }

  /** The set of the streams in a list. */
  function Streams(sids: seq<StreamId>): set<StreamId> { set sid | sid in sids }

  predicate Distinct(sids: seq<StreamId>) {
    forall i, j :: 0 <= i < j < |sids| ==> sids[i] != sids[j]
  }

  /** The first `n` streams are distinct and each has a successful response. */
  predicate Clearable(m: map<StreamId, Response>, sids: seq<StreamId>, n: nat)
    requires n <= |sids|
  {
    Distinct(sids[..n]) && forall i :: 0 <= i < n ==> sids[i] in m && Successful(m[sids[i]])
  }

  function Flatten(script: seq<seq<Event>>): seq<Event> {
    if script == [] then [] else Flatten(script[..|script| - 1]) + script[|script| - 1]
  }

  /** Looking up a stream with `operator[]` creates its entry. */
  function Touched(c: Conn, sid: StreamId): Conn { c.(responses := c.responses[sid := Get(c.responses, sid)]) }

  /** The state after `k` pumps for stream `sid`. */
  function After(c: Conn, sid: StreamId, script: seq<seq<Event>>, k: nat): Conn
    requires k <= |script|
  {
    Fold(Touched(c, sid), Flatten(script[..k]))
  }

  predicate Pending(c: Conn, sid: StreamId) { !Get(c.responses, sid).closed && !c.goaway }

  /** A stream left open by GOAWAY is closed with the GOAWAY's error code. */
  function Settle(c: Conn, sid: StreamId): Conn {
    if c.goaway && !Get(c.responses, sid).closed
    then c.(responses := c.responses[sid := Get(c.responses, sid).(closed := true, errorCode := c.goawayCode)])
    else c
  }

  lemma AfterZero(c: Conn, sid: StreamId, script: seq<seq<Event>>)
    ensures After(c, sid, script, 0) == Touched(c, sid)
  {
    assert script[..0] == [];
  }

  lemma AfterNext(c: Conn, sid: StreamId, script: seq<seq<Event>>, k: nat)
    requires k < |script|
    ensures After(c, sid, script, k + 1) == Fold(After(c, sid, script, k), script[k])
  {
    assert script[..k + 1][..k] == script[..k];
    FoldConcat(Touched(c, sid), Flatten(script[..k]), script[k]);
  }

  /** Callbacks never remove a stream. */
  lemma {:induction false} KeepsStream(c: Conn, es: seq<Event>, sid: StreamId)
    requires sid in c.responses
    ensures sid in Fold(c, es).responses
    decreases |es|
  {
    if es == [] {
    } else {
      KeepsStream(Apply(c, es[0]), es[1..], sid);
    }
  }

  // --------------------------------------------------------- success without a close

  predicate Closes(e: Event, sid: StreamId) { e.Close? && e.sid == sid }

  /** The stream's own close event is among the events. */
  predicate HasClose(es: seq<Event>, sid: StreamId) {
    es != [] && (Closes(es[0], sid) || HasClose(es[1..], sid))
  }

  function StatusAfter(e: Event, sid: StreamId, status: int): int {
    if e.Header? && e.sid == sid && !e.trailer && e.name == STATUS then ParseStatus(e.value) else status
  }

  /** The last status the events announce for the stream. */
  function LastStatus(es: seq<Event>, sid: StreamId, status: int): int
    decreases |es|
  {
    if es == [] then status else LastStatus(es[1..], sid, StatusAfter(es[0], sid, status))
  }

  /** The error code of the last GOAWAY. */
  function LastCode(es: seq<Event>, code: nat): nat {
    var g := Goaways(es);
    if g == [] then code else g[|g| - 1]
  }

  lemma ApplyOne(c: Conn, e: Event, sid: StreamId)
    ensures var r, r' := Get(c.responses, sid), Get(Apply(c, e).responses, sid);
            r'.closed == (r.closed || Closes(e, sid)) && r'.status == StatusAfter(e, sid, r.status)
  {
    hide ParseStatus;
  }

  lemma {:induction false} FoldStatus(c: Conn, es: seq<Event>, sid: StreamId)
    ensures var r, r' := Get(c.responses, sid), Get(Fold(c, es).responses, sid);
            r'.closed == (r.closed || HasClose(es, sid)) && r'.status == LastStatus(es, sid, r.status)
    decreases |es|
  {
    hide Apply, StatusAfter;
    if es == [] {
    } else {
      ApplyOne(c, es[0], sid);
      FoldStatus(Apply(c, es[0]), es[1..], sid);
    }
  }

  /**
   A response whose stream never closed, handed out because a GOAWAY has arrived:
   it counts as successful exactly when the last GOAWAY has error code 0 and the
   status was 200, however much of its body is missing.
   */
  lemma SuccessWithoutClose(c: Conn, sid: StreamId, es: seq<Event>)
    requires !Get(c.responses, sid).closed && !HasClose(es, sid)
    requires !Pending(Fold(Touched(c, sid), es), sid)
    ensures var r := Get(Settle(Fold(Touched(c, sid), es), sid).responses, sid);
            && r.closed && r.body == Get(Fold(Touched(c, sid), es).responses, sid).body
            && (Successful(r) <==>
                  LastStatus(es, sid, Get(c.responses, sid).status) == 200 && LastCode(es, c.goawayCode) == 0)
  {
    hide Fold, LastStatus, Goaways, HasClose;
    FoldStatus(Touched(c, sid), es, sid);
    GoawayFold(Touched(c, sid), es);
  }

  /** A response cut off by a graceful GOAWAY after two bytes of its body passes for a whole one. */
  lemma CutBodyPasses(sid: StreamId)
    ensures var es := [Header(sid, false, STATUS, [50, 48, 48]), Data(sid, [97, 98]), Goaway(0)];
            var c := Fold(Touched(Conn(map[], false, 0), sid), es);
            var r := Get(Settle(c, sid).responses, sid);
            !Pending(c, sid) && !HasClose(es, sid) && Successful(r) && r.body == [97, 98]
  {
    var head, data, bye := Header(sid, false, STATUS, [50, 48, 48]), Data(sid, [97, 98]), Goaway(0);
    var c0 := Touched(Conn(map[], false, 0), sid);
    StatusText();
    var two, one: seq<Event> := [data, bye], [bye];
    assert [head, data, bye][1..] == two && two[1..] == one && one[1..] == [];
    assert [bye] + [] == one && [data] + one == two && [head] + two == [head, data, bye];
    NoCloseFirst(bye, [], sid);
    NoCloseFirst(data, one, sid);
    NoCloseFirst(head, two, sid);
    var c1 := Apply(c0, head);
    var c2 := Apply(c1, data);
    var c3 := Apply(c2, bye);
    assert Get(c1.responses, sid) == EMPTY.(status := 200);
    assert Get(c2.responses, sid) == EMPTY.(status := 200, body := [] + [97, 98]);
    assert Fold(c2, [bye]) == Fold(c3, []) == c3;
    assert Fold(c0, [head, data, bye]) == Fold(c1, [data, bye]) == Fold(c2, [bye]);
  }

  lemma NoCloseFirst(e: Event, es: seq<Event>, sid: StreamId)
    requires !Closes(e, sid) && !HasClose(es, sid)
    ensures !HasClose([e] + es, sid)
  {
    assert ([e] + es)[1..] == es;
  }

  lemma StatusText()
    ensures ParseStatus([50, 48, 48]) == 200
  {
    var v: bytes := [50, 48, 48];
    assert Print(200, 10) == v by {
      assert Print(2, 10) == [50];
      assert Print(20, 10) == Print(2, 10) + [48];
      assert Print(200, 10) == Print(20, 10) + [48];
    }
    assert v + [] == v;
    ParsePrinted(200, 10, []);
  }

  class H2Client {
    var responses: map<StreamId, Response>
    var reqBodies: map<StreamId, bytes>
    var goawayReceived: bool
    var goawayErrorCode: nat

    function State(): Conn
      reads this
    {
      Conn(responses, goawayReceived, goawayErrorCode)
    }

    constructor ()
      ensures State() == Conn(map[], false, 0) && reqBodies == map[]
    {
      responses, reqBodies, goawayReceived, goawayErrorCode := map[], map[], false, 0;
    }

    /** The four callbacks, `on_header_cb` to `on_frame_recv_cb`, by the event they are called for. */
    method Callback(e: Event)
      modifies this`responses, this`goawayReceived, this`goawayErrorCode
      ensures State() == Apply(old(State()), e)
    {
      match e {
        case Header(sid, trailer, name, value) =>
          if trailer {
            var r := Get(responses, sid);
            responses := responses[sid := r.(trailers := r.trailers + [(name, value)])];
          } else if name == STATUS {
            responses := responses[sid := Get(responses, sid).(status := ParseStatus(value))];
          }
        case Data(sid, data) =>
          var r := Get(responses, sid);
          responses := responses[sid := r.(body := r.body + data)];
        case Close(sid, code) =>
          responses := responses[sid := Get(responses, sid).(closed := true)];
          responses := responses[sid := responses[sid].(errorCode := code)];
        case Goaway(code) =>
          goawayReceived := true;
          goawayErrorCode := code;
      }
    }

    /** `pump_once` feeds one batch of events to the callbacks. */
    method PumpOnce(batch: seq<Event>)
      modifies this`responses, this`goawayReceived, this`goawayErrorCode
      ensures State() == Fold(old(State()), batch)
    {
      for i := 0 to |batch|
        invariant Fold(State(), batch[i..]) == Fold(old(State()), batch)
      {
        assert batch[i..][1..] == batch[i + 1..];
        Callback(batch[i]);
      }
    }

    /**
     `pump_until_closed`: pump until the stream is closed or a GOAWAY has arrived;
     each element of `script` is what one pump delivers before the deadline. A
     stream that GOAWAY leaves open is closed with the GOAWAY's error code. A
     GOAWAY that arrived during an earlier request ends this one before it pumps.
     */
    method PumpUntilClosed(sid: StreamId, script: seq<seq<Event>>) returns (timedOut: bool, used: nat)
      modifies this`responses, this`goawayReceived, this`goawayErrorCode
      ensures used <= |script|
      ensures forall k :: 0 <= k < used ==> Pending(After(old(State()), sid, script, k), sid)
      ensures timedOut ==>
                used == |script| && State() == After(old(State()), sid, script, used) && Pending(State(), sid)
      ensures !timedOut ==>
                && !Pending(After(old(State()), sid, script, used), sid)
                && State() == Settle(After(old(State()), sid, script, used), sid)
                && responses[sid].closed
      ensures old(goawayReceived) ==> used == 0
      ensures var es := Flatten(script[..used]);
              !timedOut && !Get(old(responses), sid).closed && !HasClose(es, sid) ==>
                (Successful(responses[sid]) <==>
                   LastStatus(es, sid, Get(old(responses), sid).status) == 200
                   && LastCode(es, old(goawayErrorCode)) == 0)
    {
      hide Fold, Update, LastStatus, LastCode, HasClose, Flatten;
      responses := responses[sid := Get(responses, sid)];
      used := 0;
      AfterZero(old(State()), sid, script);
      while used < |script| && !responses[sid].closed && !goawayReceived
        invariant used <= |script| && sid in responses
        invariant State() == After(old(State()), sid, script, used)
        invariant forall k :: 0 <= k < used ==> Pending(After(old(State()), sid, script, k), sid)
        invariant old(goawayReceived) ==> used == 0 && goawayReceived
      {
        AfterNext(old(State()), sid, script, used);
        KeepsStream(State(), script[used], sid);
        PumpOnce(script[used]);
        used := used + 1;
      }
      if goawayReceived && !responses[sid].closed {
        responses := responses[sid := responses[sid].(closed := true)];
        responses := responses[sid := responses[sid].(errorCode := goawayErrorCode)];
      }
      timedOut := !responses[sid].closed;
      ghost var es := Flatten(script[..used]);
      if !timedOut && !Get(old(responses), sid).closed && !HasClose(es, sid) {
        SuccessWithoutClose(old(State()), sid, es);
      }
    }

    /** `take_response`. */
    method TakeResponse(sid: StreamId) returns (r: Option<Response>)
      modifies this`responses, this`reqBodies
      ensures r == Lookup(old(responses), sid)
      ensures r.Some? ==> responses == old(responses) - {sid} && reqBodies == old(reqBodies) - {sid}
      ensures r.None? ==> responses == old(responses) && reqBodies == old(reqBodies)
    {
      if sid !in responses { return None; }
      r := Some(responses[sid]);
      responses := responses - {sid};
      reqBodies := reqBodies - {sid};
    }

    /**
     `checked_body_bytes_and_clear`. It succeeds exactly when the streams are
     distinct and each has a successful response; then it returns the sum of
     their body sizes, forgets those streams and touches no other. Otherwise it
     stops at the first stream that is not so, number `at`, having forgotten the
     streams up to there; a missing response leaves its request body in place.
     */
    method CheckedBodyBytesAndClear(sids: seq<StreamId>) returns (r: Taken, ghost at: nat)
      modifies this`responses, this`reqBodies
      ensures r.Bytes? <==> Clearable(old(responses), sids, |sids|)
      ensures r.Bytes? ==>
                && r.total == BodySizes(old(responses), sids)
                && responses == old(responses) - Streams(sids) && reqBodies == old(reqBodies) - Streams(sids)
      ensures r.Failed? ==>
                && at < |sids| && Clearable(old(responses), sids, at)
                && responses == old(responses) - Streams(sids[..at + 1])
                && (match r.error
                    case Missing =>
                      && (sids[at] in Streams(sids[..at]) || sids[at] !in old(responses))
                      && reqBodies == old(reqBodies) - Streams(sids[..at])
                    case BadStatus(sid, resp) =>
                      && sid == sids[at] && sid !in Streams(sids[..at]) && Lookup(old(responses), sid) == Some(resp)
                      && !Successful(resp) && reqBodies == old(reqBodies) - Streams(sids[..at + 1]))
    {
      hide Clearable, Successful;
      var total := 0;
      at := 0;
      assert Clearable(old(responses), sids, 0) by { NoneToClear(old(responses), sids); }
      assert Streams(sids[..0]) == {};
      for i := 0 to |sids|
        invariant Clearable(old(responses), sids, i)
        invariant total == BodySizes(old(responses), sids[..i])
        invariant responses == old(responses) - Streams(sids[..i])
        invariant reqBodies == old(reqBodies) - Streams(sids[..i])
      {
        StreamsNext(sids, i);
        ClearableNext(old(responses), sids, i);
        var resp := TakeResponse(sids[i]);
        if resp.None? {
          assert sids[i] in Streams(sids[..i]) || sids[i] !in old(responses);
          return Failed(Missing), i;
        }
        if !Successful(resp.value) { return Failed(BadStatus(sids[i], resp.value)), i; }
        total := total + |resp.value.body|;
        assert sids[..i + 1][..i] == sids[..i];
      }
      assert sids[..|sids|] == sids;
      r := Bytes(total);
    }
  }

  lemma NoneToClear(m: map<StreamId, Response>, sids: seq<StreamId>)
    ensures Clearable(m, sids, 0)
  {
  }

  /** One stream more can be cleared exactly when it is new and has a successful response; if it
      cannot, then neither can the whole list. */
  lemma ClearableNext(m: map<StreamId, Response>, sids: seq<StreamId>, i: nat)
    requires i < |sids| && Clearable(m, sids, i)
    ensures var next := sids[i] !in Streams(sids[..i]) && sids[i] in m && Successful(m[sids[i]]);
            (Clearable(m, sids, i + 1) <==> next) && (Clearable(m, sids, |sids|) ==> next)
  {
    hide Successful;
    StreamsNext(sids, i);
    var seen := sids[..i];
    assert forall j :: 0 <= j < i ==> seen[j] == sids[j] == sids[..i + 1][j];
    assert sids[..i + 1][i] == sids[i];
    assert sids[..|sids|] == sids;
  }

  lemma StreamsNext(sids: seq<StreamId>, i: nat)
    requires i < |sids|
    ensures Streams(sids[..i + 1]) == Streams(sids[..i]) + {sids[i]}
    ensures sids[i] in Streams(sids[..i]) <==> exists j :: 0 <= j < i && sids[j] == sids[i]
  {
    assert sids[..i + 1] == sids[..i] + [sids[i]];
  }

  // ---------------------------------------------------------- the request body

  /** `ReqBody`: the body of a POST and how much of it has been handed out. */
  class ReqBody {
    const data: bytes
    var off: nat

    ghost predicate Valid()
      reads this
    {
      off <= |data|
    }

    constructor (body: bytes)
      ensures Valid() && data == body && off == 0
    {
      data, off := body, 0;
    }

    /** `read_cb`, for a buffer of `length` bytes. */
    method Read(length: nat) returns (chunk: bytes, eof: bool)
      requires Valid()
      modifies this`off
      ensures Valid() && off == ReadEnd(|data|, old(off), length)
      ensures chunk == data[old(off)..off] && (eof <==> off == |data|)
    {
      var remaining := |data| - off;
      var n := if remaining <= length then remaining else length;
      chunk := data[off..off + n];
      off := off + n;
      eof := off >= |data|;
    }

    /** The session's loop over `read_cb`, with whatever buffer sizes it has: the chunks are
        exactly the body up to the end of file, which is flagged by the first call that reaches
        the end of the body and by no earlier one. */
    method Upload(lengths: seq<nat>) returns (sent: bytes, calls: nat, eof: bool)
      requires Valid() && off == 0
      modifies this`off
      ensures Valid() && calls <= |lengths| && sent == data[..off]
      ensures off == ReadEnd(|data|, 0, Sum(lengths[..calls]))
      ensures eof ==> sent == data && calls > 0 && Sum(lengths[..calls - 1]) <= |data|
      ensures eof && calls > 1 ==> Sum(lengths[..calls - 1]) < |data|
      ensures eof <==> lengths != [] && Sum(lengths) >= |data|
    {
      sent, calls, eof := [], 0, false;
      assert lengths[..0] == [];
      while calls < |lengths| && !eof
        invariant calls <= |lengths| && Valid() && sent == data[..off]
        invariant !eof ==> off == Sum(lengths[..calls]) && (calls > 0 ==> off < |data|)
        invariant eof ==> calls > 0 && off == |data| && Sum(lengths[..calls - 1]) <= |data| <= Sum(lengths[..calls])
        invariant eof && calls > 1 ==> Sum(lengths[..calls - 1]) < |data|
      {
        SumPrefix(lengths, calls);
        ghost var before := off;
        var chunk;
        chunk, eof := Read(lengths[calls]);
        assert data[..before] + data[before..off] == data[..off];
        sent := sent + chunk;
        calls := calls + 1;
      }
      SumMonotone(lengths, calls, |lengths|);
      assert lengths[..|lengths|] == lengths;
    }
  }

  function ReadEnd(size: nat, off: nat, length: nat): nat {
    if off + length <= size then off + length else size
  }
}

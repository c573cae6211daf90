/**
 What the HTTP/2 benchmark client has stored for a stream after any delivery of
 events, field by field and told from the events alone.
 */
module H2Responses {
  import opened Bytes
  import opened H2Demux
  import opened Numerals

  // ------------------------------------------------------- a stream's share of the events

  /** The stream's data, in order of arrival. */
  function DataFor(es: seq<Event>, sid: StreamId): bytes {
    if es == [] then []
    else (if es[0].Data? && es[0].sid == sid then es[0].data else []) + DataFor(es[1..], sid)
  }

  /** The stream's trailer fields, in order of arrival. */
  function TrailersFor(es: seq<Event>, sid: StreamId): seq<(bytes, bytes)> {
    if es == [] then []
    else (if es[0].Header? && es[0].sid == sid && es[0].trailer then [(es[0].name, es[0].value)] else [])
         + TrailersFor(es[1..], sid)
  }

  /** The error code of the stream's last close. */
  function LastClose(es: seq<Event>, sid: StreamId): Option<nat> {
    if es == [] then None
    else if LastClose(es[1..], sid).Some? then LastClose(es[1..], sid)
    else if es[0].Close? && es[0].sid == sid then Some(es[0].errorCode)
    else None
  }

  /** A header field, not a trailer, that carries the stream's status. */
  predicate IsStatus(e: Event, sid: StreamId) {
    e.Header? && e.sid == sid && !e.trailer && e.name == Ascii(":status")
  }

  /** The text of the stream's last status. */
  function LastStatusText(es: seq<Event>, sid: StreamId): Option<bytes> {
    if es == [] then None
    else if LastStatusText(es[1..], sid).Some? then LastStatusText(es[1..], sid)
    else if IsStatus(es[0], sid) then Some(es[0].value)
    else None
  }

  /** Whether the stream is heard of: by a status, a trailer, data or a close. */
  predicate HeardOf(es: seq<Event>, sid: StreamId) {
    exists i :: 0 <= i < |es| && IsNews(es[i], sid)
  }

  predicate IsNews(e: Event, sid: StreamId) {
    || IsStatus(e, sid)
    || (e.Header? && e.sid == sid && e.trailer)
    || ((e.Data? || e.Close?) && e.sid == sid)
  }

  // ------------------------------------------------------------------ the status as text

  /** A status is read as its leading digits, with an optional minus sign, and is 0 when there are
      none or they denote a number outside the 32-bit range. */
  lemma StatusIs(v: bytes)
    ensures v == [] || (v[0] != 45 && !IsDecimal(v[0])) ==> ParseStatus(v) == 0
    ensures v != [] && IsDecimal(v[0]) ==>
              Denoted(v).Some? && ParseStatus(v) == if Denoted(v).value < TWO31 then Denoted(v).value else 0
    ensures v != [] && v[0] == 45 ==>
              ParseStatus(v) == match Denoted(v[1..])
                                case None => 0
                                case Some(n) => if n <= TWO31 then 0 - n else 0
  {
    hide FromChars, Decimal;
    FromCharsReads(v);
    if v != [] {
      FromCharsReads(v[1..]);
      if IsDecimal(v[0]) { assert LeadingDigits(v) > 0; }
    }
  }

  /** A printed status is read back, whatever other than a digit follows it. */
  lemma PrintedStatus(n: nat, rest: bytes)
    requires n < TWO31 && (rest == [] || !IsDecimal(rest[0]))
    ensures ParseStatus(Print(n, 10) + rest) == n
  {
    hide ParseStatus, Denoted;
    PrintedDenotes(n, rest);
    var p := Print(n, 10);
    assert IsDigit(p[0], 10) && (p + rest)[0] == p[0];
    StatusIs(p + rest);
  }

  // ----------------------------------------------------------------- the stored response

  lemma StatusName()
    ensures STATUS == Ascii(":status")
  {
  }

  lemma OneEvent(c: Conn, e: Event, sid: StreamId)
    ensures var r, r' := Get(c.responses, sid), Get(Apply(c, e).responses, sid);
            && r'.body == r.body + DataFor([e], sid) && r'.trailers == r.trailers + TrailersFor([e], sid)
            && r'.closed == (r.closed || LastClose([e], sid).Some?)
            && r'.errorCode == (if LastClose([e], sid).Some? then LastClose([e], sid).value else r.errorCode)
            && r'.status == if IsStatus(e, sid) then ParseStatus(e.value) else r.status
  {
    hide ParseStatus;
    StatusName();
    assert [e][1..] == [];
    var r := Get(c.responses, sid);
    assert r.body + [] == r.body && r.trailers + [] == r.trailers;
  }

  lemma FirstOf(es: seq<Event>, sid: StreamId)
    requires es != []
    ensures DataFor(es, sid) == DataFor([es[0]], sid) + DataFor(es[1..], sid)
    ensures TrailersFor(es, sid) == TrailersFor([es[0]], sid) + TrailersFor(es[1..], sid)
    ensures LastClose(es, sid)
            == if LastClose(es[1..], sid).Some? then LastClose(es[1..], sid) else LastClose([es[0]], sid)
  {
    assert [es[0]][1..] == [];
  }

  /**
   The body is the stream's data, the trailers its trailer fields, the error code
   that of its last close and the status that of its last status field, whatever
   happened on other streams in between.
   */
  lemma {:induction false} Stored(c: Conn, es: seq<Event>, sid: StreamId)
    ensures var r, r' := Get(c.responses, sid), Get(Fold(c, es).responses, sid);
            && r'.body == r.body + DataFor(es, sid) && r'.trailers == r.trailers + TrailersFor(es, sid)
            && r'.closed == (r.closed || LastClose(es, sid).Some?)
            && r'.errorCode == (if LastClose(es, sid).Some? then LastClose(es, sid).value else r.errorCode)
            && r'.status == match LastStatusText(es, sid)
                            case None => r.status
                            case Some(v) => ParseStatus(v)
    decreases |es|
  {
    hide Apply, ParseStatus, DataFor, TrailersFor, LastClose, IsStatus;
    if es == [] {
      NothingFor(sid);
      var r := Get(c.responses, sid);
      assert r.body + [] == r.body && r.trailers + [] == r.trailers;
    } else {
      OneEvent(c, es[0], sid);
      FirstOf(es, sid);
      Stored(Apply(c, es[0]), es[1..], sid);
    }
  }

  lemma NothingFor(sid: StreamId)
    ensures DataFor([], sid) == [] && TrailersFor([], sid) == [] && LastClose([], sid) == None
  {
  }

  /** A stream has an entry exactly when it had one or was heard of. */
  lemma {:induction false} Listed(c: Conn, es: seq<Event>, sid: StreamId)
    ensures sid in Fold(c, es).responses <==> sid in c.responses || HeardOf(es, sid)
    decreases |es|
  {
    if es == [] {
    } else {
      StatusName();
      Listed(Apply(c, es[0]), es[1..], sid);
      HeardFirst(es, sid);
      assert IsNews(es[0], sid) <==> Touches(es[0], sid);
    }
  }

  lemma HeardFirst(es: seq<Event>, sid: StreamId)
    requires es != []
    ensures HeardOf(es, sid) <==> IsNews(es[0], sid) || HeardOf(es[1..], sid)
  {
    hide IsNews;
    assert es == [es[0]] + es[1..];
    if HeardOf(es[1..], sid) {
      var i :| 0 <= i < |es[1..]| && IsNews(es[1..][i], sid);
      assert IsNews(es[i + 1], sid);
    }
  }

  /** A new stream that has been closed is successful exactly when its last close has no error
      and the digits of its last status denote 200. */
  lemma ClosedSuccess(c: Conn, es: seq<Event>, sid: StreamId)
    requires sid !in c.responses && LastClose(es, sid).Some?
    ensures Successful(Get(Fold(c, es).responses, sid)) <==>
            && LastClose(es, sid) == Some(0) && LastStatusText(es, sid).Some?
            && Denoted(LastStatusText(es, sid).value) == Some(200)
  {
    hide Fold, LastClose, LastStatusText, ParseStatus, Denoted;
    Stored(c, es, sid);
    if LastStatusText(es, sid).Some? {
      var v := LastStatusText(es, sid).value;
      StatusIs(v);
      StatusIsNot(v);
    }
  }

  lemma StatusIsNot(v: bytes)
    ensures v == [] || !IsDecimal(v[0]) ==> Denoted(v) == None
  {
  }
}

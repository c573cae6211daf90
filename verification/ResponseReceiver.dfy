/**
 The benchmark clients' receivers for one response. The ordinary one knows that a
 204 or 304 response has no body whatever its Content-Length says (section 6.3 of
 RFC 9112); the slow one, which limits every receive, does not.
 */
module ResponseReceiver {
  import opened Bytes
  import opened Arithmetic
  import opened Channel
  import opened Pipelining

  /** "HTTP/1.1 304" and "HTTP/1.1 204" */
  const NOT_MODIFIED: bytes := [72, 84, 84, 80, 47, 49, 46, 49, 32, 51, 48, 52]
  const NO_CONTENT: bytes := [72, 84, 84, 80, 47, 49, 46, 49, 32, 50, 48, 52]

  predicate Bodiless(head: bytes) { NOT_MODIFIED <= head || NO_CONTENT <= head }

  /** Which of the two receivers: `recv_response` looks at the status, `recv_slow` does not. */
  datatype Kind = Ordinary | Slow

  /** The received bytes make a receiver return, in `size_t` arithmetic. */
  predicate Complete(data: bytes, kind: Kind) {
    match Find(data, CRLFCRLF, 0)
    case None => false
    case Some(h) => EnoughFor(data[..h + 4], |data|, kind)
  }

  predicate EnoughFor(head: bytes, total: nat, kind: Kind) {
    (kind.Ordinary? && Bodiless(head)) || total >= (|head| + Declared(head)) % TWO64
  }

  // ------------------------------------------------------------------ the program

  datatype Outcome =
    | Got(total: nat)
    | Closed      // "connection closed before response completed"
    | Full        // "response buffer exhausted"
    | Failed      // "recv timed out or failed"

  /** What the receiver remembers once it has seen the end of the header block. */
  datatype Seen = Unseen | Head(end: nat, bodyLength: nat)

  ghost predicate Remembers(data: bytes, seen: Seen, kind: Kind) {
    match Find(data, CRLFCRLF, 0)
    case None => seen.Unseen?
    case Some(h) => seen == Head(h + 4, Declared(data[..h + 4])) && !EnoughFor(data[..h + 4], |data|, kind)
  }

  /** The work after one receive. */
  method Look(data: bytes, before: Seen, kind: Kind, ghost old': nat) returns (seen: Seen, done: bool)
    requires old' <= |data| && Remembers(data[..old'], before, kind)
    ensures done <==> Complete(data, kind)
    ensures !done ==> Remembers(data, seen, kind)
  {
    hide Find, Declared, Bodiless;
    seen := before;
    if seen.Unseen? {
      var h := Find(data, CRLFCRLF, 0);
      if h.None? { return seen, false; }
      var head := data[..h.value + 4];
      seen := Head(h.value + 4, Declared(head));
      if kind.Ordinary? && Bodiless(head) { return seen, true; }
    } else {
      HeadStays(data, old');
    }
    done := |data| >= (seen.end + seen.bodyLength) % TWO64;
  }

  /** A header block once seen is seen in the same place later. */
  lemma HeadStays(data: bytes, k: nat)
    requires k <= |data| && Find(data[..k], CRLFCRLF, 0).Some?
    ensures var h := Find(data[..k], CRLFCRLF, 0);
            Find(data, CRLFCRLF, 0) == h && h.value + 4 <= k && data[..k][..h.value + 4] == data[..h.value + 4]
  {
    hide Find;
    assert data[..k] + data[k..] == data;
    FindStays(data[..k], data[k..], CRLFCRLF, 0);
    OccursFits(data[..k], CRLFCRLF, Find(data[..k], CRLFCRLF, 0).value);
  }

  /**
   `recv_response` and `recv_slow`, whose receives take at most `step` bytes. For
   every stream and every way it is cut: the call returns after the first receive
   that makes the received bytes complete. It reports a closed connection only if
   the whole stream is not complete, and a full buffer only if what fits is not.
   */
  method RecvResponse(sock: Socket, buf: array<byte>, step: nat, kind: Kind) returns (result: Outcome, ghost last: nat)
    requires sock.Valid() && sock.pos == 0
    modifies sock`pos, sock`failed, sock`receives, buf
    ensures sock.failed == (old(sock.failed) || result.Failed?)
    ensures sock.Valid() && last <= sock.pos && !Complete(sock.incoming[..last], kind)
    ensures result.Got? ==>
              && result.total == sock.pos <= buf.Length && last < sock.pos
              && buf[..sock.pos] == sock.incoming[..sock.pos] && Complete(sock.incoming[..sock.pos], kind)
    ensures result.Closed? ==> !Complete(sock.incoming, kind)
    ensures result.Full? ==> last == sock.pos && (sock.pos == buf.Length || step == 0)
  {
    hide Complete, Remembers;
    var total, seen := 0, Unseen;
    last := 0;
    NothingSeen(sock.incoming[..0], kind);
    while true
      invariant sock.Valid() && last == total == sock.pos <= buf.Length && sock.failed == old(sock.failed)
      invariant buf[..total] == sock.incoming[..total]
      invariant Remembers(sock.incoming[..total], seen, kind) && !Complete(sock.incoming[..total], kind)
      decreases |sock.incoming| - sock.pos
    {
      var want := Min(step, buf.Length - total);
      if want == 0 { return Full, last; }
      var n := sock.Recv(buf, total, want);
      if n < 0 { return Failed, last; }
      if n == 0 {
        assert sock.incoming[..total] == sock.incoming;
        return Closed, last;
      }
      assert buf[..total + n] == buf[..total] + buf[total..total + n];
      assert sock.incoming[..total + n] == sock.incoming[..total] + sock.incoming[total..total + n];
      total := total + n;
      var data := buf[..total];
      assert data[..last] == sock.incoming[..last];
      var done;
      seen, done := Look(data, seen, kind, last);
      if done { return Got(total), last; }
      last := total;
    }
  }

  lemma NothingSeen(data: bytes, kind: Kind)
    requires data == []
    ensures Remembers(data, Unseen, kind) && !Complete(data, kind)
  {
  }

  // ------------------------------------------------------------- what is received

  /** Of a response and what follows it, the received part is complete exactly when it has the
      header block and, unless the receiver knows better, as many bytes as the header declares,
      added up in `size_t` arithmetic. */
  lemma CompleteAt(head: bytes, rest: bytes, k: nat, kind: Kind)
    requires IsHead(head) && k <= |head + rest|
    ensures Complete((head + rest)[..k], kind) <==>
            k >= |head| && ((kind.Ordinary? && Bodiless(head)) || k >= (|head| + Declared(head)) % TWO64)
  {
    hide Find, Declared, Bodiless;
    var data := (head + rest)[..k];
    if k < |head| {
      assert data == head[..k];
      HeadCut(head, k);
    } else {
      assert data == head + rest[..k - |head|];
      FindStays(head, rest[..k - |head|], CRLFCRLF, 0);
      assert data[..|head|] == head;
    }
  }

  /** A response with its declared body is received whole, and as soon as it is whole. */
  lemma WholeResponse(r: Response, rest: bytes, k: nat, kind: Kind)
    requires WellFormed(r) && |Encoded(r)| < TWO64 && k <= |Encoded(r) + rest|
    requires kind.Ordinary? && Bodiless(r.head) ==> r.body == []
    ensures Complete((Encoded(r) + rest)[..k], kind) <==> k >= |Encoded(r)|
  {
    hide Complete, Bodiless, IsHead, Declared;
    assert Encoded(r) + rest == r.head + (r.body + rest);
    CompleteAt(r.head, r.body + rest, k, kind);
  }

  lemma DeclaredFits(head: bytes)
    ensures Declared(head) < TWO64
  {
    hide Find, FromChars;
  }

  lemma WrappedSum(a: nat, b: nat)
    requires a < TWO64 && b < TWO64
    ensures a >= (a + b) % TWO64 <==> b == 0 || a + b >= TWO64
  {
    if a + b >= TWO64 { assert (a + b) % TWO64 == a + b - TWO64; }
  }

  /** A 204 or 304 response, which is all header: the ordinary receiver always takes it; the slow
      one takes it exactly when it declares no body or so long a body that the sum wraps, and
      otherwise waits for bytes that never come. */
  lemma BodilessResponse(head: bytes)
    requires IsHead(head) && Bodiless(head) && |head| < TWO64
    ensures Complete(head, Ordinary)
    ensures Complete(head, Slow) <==> Declared(head) == 0 || |head| + Declared(head) >= TWO64
  {
    hide Complete, Bodiless, IsHead, Declared;
    assert (head + [])[..|head|] == head;
    CompleteAt(head, [], |head|, Ordinary);
    CompleteAt(head, [], |head|, Slow);
    DeclaredFits(head);
    WrappedSum(|head|, Declared(head));
  }

  // -------------------------------------------------------------------- an instance

  /** A 304 response that repeats the length of the representation it does not send. */
  function NotModified(n: nat): bytes { NOT_MODIFIED + CRLF + CONTENT_LENGTH + Print(n, 10) + CRLFCRLF }

  lemma NotModifiedBytes(n: nat, i: nat)
    requires i < |NotModified(n)|
    ensures var d := |Print(n, 10)|;
            && |NotModified(n)| == 34 + d
            && (i < 12 ==> NotModified(n)[i] == NOT_MODIFIED[i])
            && (12 <= i < 14 ==> NotModified(n)[i] == CRLF[i - 12])
            && (14 <= i < 30 ==> NotModified(n)[i] == CONTENT_LENGTH[i - 14])
            && (30 <= i < 30 + d ==> IsDigit(NotModified(n)[i], 10))
            && (30 + d <= i ==> NotModified(n)[i] == CRLFCRLF[i - 30 - d])
  {
    hide Print;
  }

  /** Carriage returns stand only at the two line ends and in the empty line. */
  lemma NotModifiedReturns(n: nat, i: nat)
    requires i < |NotModified(n)|
    ensures NotModified(n)[i] == CR <==>
            i == 12 || i == 30 + |Print(n, 10)| || i == 32 + |Print(n, 10)|
    ensures i < 14 ==> NotModified(n)[i] != 67
  {
    hide NotModified;
    NotModifiedBytes(n, i);
    FieldInOneLine();
  }

  lemma NotModifiedIsHead(n: nat)
    ensures IsHead(NotModified(n)) && Bodiless(NotModified(n))
  {
    var head, e := NotModified(n), 30 + |Print(n, 10)|;
    assert head[e..e + 4] == CRLFCRLF;
    forall j | 0 <= j < e ensures !OccursAt(head, CRLFCRLF, j) {
      if OccursAt(head, CRLFCRLF, j) {
        OccursByte(head, CRLFCRLF, j, 0);
        OccursByte(head, CRLFCRLF, j, 2);
        NotModifiedReturns(n, j);
        NotModifiedReturns(n, j + 2);
      }
    }
    FindIs(head, CRLFCRLF, 0, e);
    assert NOT_MODIFIED <= head;
  }

  lemma NotModifiedDeclares(n: nat)
    requires n < TWO64
    ensures Declared(NotModified(n)) == n
  {
    hide Find, Print, FromChars;
    var head, d := NotModified(n), Print(n, 10);
    FieldInOneLine();
    assert head[14..30] == CONTENT_LENGTH;
    forall j | 0 <= j < 14 ensures !OccursAt(head, CONTENT_LENGTH, j) {
      if OccursAt(head, CONTENT_LENGTH, j) {
        OccursByte(head, CONTENT_LENGTH, j, 0);
        NotModifiedReturns(n, j);
      }
    }
    FindIs(head, CONTENT_LENGTH, 0, 14);
    var e := 30 + |d|;
    assert head[e..e + 2] == CRLF;
    forall j | 30 <= j < e ensures !OccursAt(head, CRLF, j) {
      if OccursAt(head, CRLF, j) {
        OccursByte(head, CRLF, j, 0);
        NotModifiedReturns(n, j);
      }
    }
    FindIs(head, CRLF, 30, e);
    assert head[30..e] == d == d + [];
    ParsePrinted(n, 10, []);
  }

  /** So the ordinary receiver takes this response and the slow one never returns for it, nor does
      the pipelined one count it, when nothing follows. */
  lemma NotModifiedMissed(n: nat)
    requires 0 < n < TWO64 - 64
    ensures Complete(NotModified(n), Ordinary) && !Complete(NotModified(n), Slow)
    ensures NextEnd(NotModified(n), 0) == None
  {
    hide Complete, IsHead, Bodiless, NotModified, Declared, FrameOf;
    var head := NotModified(n);
    NotModifiedIsHead(n);
    NotModifiedDeclares(n);
    PrintU64Fits(n);
    NotModifiedSize(n);
    BodilessResponse(head);
    assert head[0..] == head;
    FrameIs(head, n);
  }

  lemma NotModifiedSize(n: nat)
    ensures |NotModified(n)| == 34 + |Print(n, 10)|
  {
  }

  lemma FrameIs(head: bytes, n: nat)
    requires IsHead(head) && Declared(head) == n
    ensures FrameOf(head) == Frame(|head|, n)
  {
    hide Find;
    FieldInOneLine();
    FrameByHead(head, [], CONTENT_LENGTH);
    assert head + [] == head;
  }
}

/**
 WebSocket frames (sections 5.2 and 5.3 of RFC 6455): the benchmark's masked text
 frame builder, the server's frame header parser and the unmasking loop.
 */
module WebSocket {
  import opened Bytes
  import opened Bitwise

  // -------------------------------------------------------------------- masking

  function XorByte(a: byte, b: byte): byte {
    assert Pow2(8) == 256;
    XorBound(a, b, 8);
    Xor(a, b)
  }

  type Key = k: bytes | |k| == 4 witness [0, 0, 0, 0]

  /** Byte `i` of the payload is masked with byte `i mod 4` of the key. */
  function Masked(s: bytes, key: Key): (r: bytes)
    ensures |r| == |s|
  {
    seq(|s|, i requires 0 <= i < |s| => XorByte(s[i], key[i % 4]))
  }

  /** `scalar_ws_unmask`: in place. */
  method Unmask(p: array<byte>, key: Key)
    modifies p
    ensures p[..] == Masked(old(p[..]), key)
  {
    hide Xor;
    for i := 0 to p.Length
      invariant forall j :: 0 <= j < i ==> p[j] == XorByte(old(p[j]), key[j % 4])
      invariant forall j :: i <= j < p.Length ==> p[j] == old(p[j])
    {
      p[i] := XorByte(p[i], key[i % 4]);
    }
  }

  /** Unmasking undoes masking. */
  lemma MaskInvolution(s: bytes, key: Key)
    ensures Masked(Masked(s, key), key) == s
  {
    forall i | 0 <= i < |s| ensures Masked(Masked(s, key), key)[i] == s[i] { XorTwice(s[i], key[i % 4]); }
  }

  lemma XorCancels(a: nat, x: nat, y: nat)
    requires Xor(a, x) == Xor(a, y)
    ensures x == y
  {
    hide Xor;
    XorAssociates(a, a, x);
    XorAssociates(a, a, y);
    XorSelf(a);
    XorZero(x);
    XorZero(y);
  }

  /** The key read on from position `n` agrees with the key from its start, for `length` bytes. */
  predicate KeyRepeats(key: Key, n: nat, length: nat) {
    forall i :: 0 <= i < length ==> KeyByte(key, n + i) == KeyByte(key, i)
  }

  function KeyByte(key: Key, i: nat): byte { key[i % 4] }

  lemma MaskedAt(s: bytes, t: bytes, key: Key, i: nat)
    requires i < |t|
    ensures Masked(s + t, key)[|s| + i] == XorByte(t[i], KeyByte(key, |s| + i))
    ensures (Masked(s, key) + Masked(t, key))[|s| + i] == XorByte(t[i], KeyByte(key, i))
  {
    hide XorByte;
  }

  lemma SameByte(s: bytes, t: bytes, key: Key, i: nat)
    requires i < |t|
    ensures Masked(s + t, key)[|s| + i] == (Masked(s, key) + Masked(t, key))[|s| + i] <==>
            KeyByte(key, |s| + i) == KeyByte(key, i)
  {
    hide Masked, KeyByte, Xor;
    MaskedAt(s, t, key, i);
    var x, y := KeyByte(key, |s| + i), KeyByte(key, i);
    if XorByte(t[i], x) == XorByte(t[i], y) { XorCancels(t[i], x, y); }
  }

  lemma MaskedFront(s: bytes, t: bytes, key: Key)
    ensures Masked(s + t, key)[..|s|] == Masked(s, key)
  {
    hide XorByte;
  }

  /** A payload may be unmasked in parts, each with the key from its start, exactly when the key read
      on from the cut agrees with the key from its start. */
  lemma MaskInParts(s: bytes, t: bytes, key: Key)
    ensures Masked(s + t, key) == Masked(s, key) + Masked(t, key) <==> KeyRepeats(key, |s|, |t|)
  {
    hide Masked, KeyByte;
    var whole, parts := Masked(s + t, key), Masked(s, key) + Masked(t, key);
    MaskedFront(s, t, key);
    forall i | 0 <= i < |t|
      ensures whole[|s| + i] == parts[|s| + i] <==> KeyByte(key, |s| + i) == KeyByte(key, i)
    {
      SameByte(s, t, key, i);
    }
    if KeyRepeats(key, |s|, |t|) {
      forall k | 0 <= k < |whole| ensures whole[k] == parts[k] {
        if k < |s| {
          assert whole[..|s|][k] == whole[k];
        } else {
          assert KeyByte(key, |s| + (k - |s|)) == KeyByte(key, k - |s|);
          assert whole[|s| + (k - |s|)] == parts[|s| + (k - |s|)];
        }
      }
    }
  }

  /** So it may be cut at every multiple of four, whatever the key, and with four different key bytes
      nowhere else. */
  lemma CutsAllowed(key: Key, n: nat, length: nat)
    ensures n % 4 == 0 ==> KeyRepeats(key, n, length)
    ensures length > 0 && n % 4 != 0 && (forall i, j :: 0 <= i < j < 4 ==> key[i] != key[j]) ==>
              !KeyRepeats(key, n, length)
  {
    if n % 4 == 0 {
      forall i | 0 <= i < length ensures KeyByte(key, n + i) == KeyByte(key, i) { SameKeyByte(n, i); }
    } else if length > 0 && forall i, j :: 0 <= i < j < 4 ==> key[i] != key[j] {
      assert KeyByte(key, n + 0) == key[n % 4] && KeyByte(key, 0) == key[0];
    }
  }

  lemma SameKeyByte(n: nat, i: nat)
    requires n % 4 == 0
    ensures (n + i) % 4 == i % 4
  {
  }

  // --------------------------------------------------------------- frame headers

  datatype Header = Header(opcode: nat, fin: bool, payloadLength: nat, mask: Key, headerSize: nat)

  datatype Parsed = Ok(header: Header) | Incomplete | ProtocolError | ControlTooLarge

  /** What the first two bytes alone decide: an error, or nothing yet. */
  function FirstBytes(b0: byte, b1: byte): Option<Parsed> {
    var opcode, fin, length := b0 % 16, b0 >= 128, b1 % 128;
    if (b0 / 16) % 8 != 0 then Some(ProtocolError)
    else if 3 <= opcode <= 7 || opcode >= 11 then Some(ProtocolError)
    else if opcode >= 8 && (!fin || length > 125) then Some(ControlTooLarge)
    else if b1 < 128 then Some(ProtocolError)
    else None
  }

  /** How many bytes the header has, by its second byte. */
  function HeaderNeeded(b1: byte): nat { 2 + (if b1 % 128 == 126 then 2 else if b1 % 128 == 127 then 8 else 0) + 4 }

  /** `parse_frame_header`. */
  function ParseHeader(buf: bytes): (r: Parsed)
    ensures r.Ok? ==> |buf| >= 2 && r.header.headerSize == HeaderNeeded(buf[1]) <= |buf|
  {
    if |buf| < 2 then Incomplete
    else if FirstBytes(buf[0], buf[1]).Some? then FirstBytes(buf[0], buf[1]).value
    else
      var short := buf[1] % 128;
      var off := HeaderNeeded(buf[1]) - 4;
      if |buf| < off then Incomplete
      else
        var length := if short < 126 then short else FromBigEndian(buf[2..off]);
        if (short == 126 && length < 126) || (short == 127 && length <= 0xFFFF) then ProtocolError
        else if |buf| < off + 4 then Incomplete
        else Ok(Header(buf[0] % 16, buf[0] >= 128, length, buf[off..off + 4], off + 4))
  }

  // ------------------------------------------------------------- the header format

  /** A data or control frame that the format allows; the size is that of its shortest header. */
  predicate IsHeader(h: Header) {
    && h.opcode in {0, 1, 2, 8, 9, 10} && (h.opcode >= 8 ==> h.fin && h.payloadLength <= 125)
    && h.payloadLength < TWO64
    && h.headerSize == if h.payloadLength < 126 then 6 else if h.payloadLength <= 0xFFFF then 8 else 14
  }

  /** The header of a masked frame, with the shortest length field. */
  function EncodeHeader(h: Header): bytes
    requires IsHeader(h)
  {
    var n := h.payloadLength;
    [(if h.fin then 128 else 0) + h.opcode]
    + (if n < 126 then [128 + n] else if n <= 0xFFFF then [254] + BigEndian(n, 2) else [255] + BigEndian(n, 8))
    + h.mask
  }

  lemma LengthReads(n: nat)
    ensures n <= 0xFFFF ==> FromBigEndian(BigEndian(n, 2)) == n
    ensures n < TWO64 ==> FromBigEndian(BigEndian(n, 8)) == n
  {
    Widths();
    if n <= 0xFFFF { BigEndianRoundTrip(n, 2); }
    if n < TWO64 { BigEndianRoundTrip(n, 8); }
  }

  lemma HeaderDecodes(h: Header, rest: bytes)
    requires IsHeader(h)
    ensures ParseHeader(EncodeHeader(h) + rest) == Ok(h)
  {
    hide BigEndian, FromBigEndian;
    var n, buf, off := h.payloadLength, EncodeHeader(h) + rest, h.headerSize - 4;
    LengthReads(n);
    assert buf[0] == (if h.fin then 128 else 0) + h.opcode;
    if n < 126 {
      assert buf[1] == 128 + n;
    } else if n <= 0xFFFF {
      assert buf[1] == 254 && buf[2..4] == BigEndian(n, 2);
    } else {
      assert buf[1] == 255 && buf[2..10] == BigEndian(n, 8);
    }
    assert buf[off..off + 4] == h.mask;
  }

  lemma HeaderEncodes(buf: bytes)
    requires ParseHeader(buf).Ok?
    ensures IsHeader(ParseHeader(buf).header) && EncodeHeader(ParseHeader(buf).header) <= buf
  {
    hide BigEndian, FromBigEndian;
    var h := ParseHeader(buf).header;
    var off := h.headerSize - 4;
    Widths();
    BigEndianInverse(buf[2..off]);
    FromBigEndianBound(buf[2..off]);
    assert buf[..h.headerSize] == [buf[0], buf[1]] + buf[2..off] + buf[off..off + 4];
  }

  /** The parser accepts exactly the buffers that begin with the encoding of an allowed header, and
      yields that header: masked, known opcode, whole short control frames, shortest length field. */
  lemma HeaderFormat(buf: bytes, h: Header)
    ensures ParseHeader(buf) == Ok(h) <==> IsHeader(h) && EncodeHeader(h) <= buf
  {
    hide ParseHeader, EncodeHeader, IsHeader;
    if ParseHeader(buf) == Ok(h) { HeaderEncodes(buf); }
    if IsHeader(h) && EncodeHeader(h) <= buf {
      var rest := buf[|EncodeHeader(h)|..];
      assert buf == EncodeHeader(h) + rest;
      HeaderDecodes(h, rest);
    }
  }

  /** A verdict does not change when more bytes arrive. */
  lemma VerdictStands(buf: bytes, more: bytes)
    requires ParseHeader(buf) != Incomplete
    ensures ParseHeader(buf + more) == ParseHeader(buf)
  {
    var off := HeaderNeeded(buf[1]) - 4;
    if |buf| >= off {
      assert (buf + more)[2..off] == buf[2..off];
      if |buf| >= off + 4 { assert (buf + more)[off..off + 4] == buf[off..off + 4]; }
    }
  }

  /** `read_ws_frame_header` looks at two bytes and then at exactly as many as they call for: this
      gives the verdict of the whole buffer, and never asks for bytes beyond the header. */
  lemma TwoStepRead(buf: bytes)
    requires |buf| >= 2 && |buf| >= HeaderNeeded(buf[1])
    ensures ParseHeader(buf[..HeaderNeeded(buf[1])]) == ParseHeader(buf) != Incomplete
    ensures ParseHeader(buf[..2]) == ProtocolError || ParseHeader(buf[..2]) == ControlTooLarge
            <==> FirstBytes(buf[0], buf[1]).Some?
  {
    var n := HeaderNeeded(buf[1]);
    assert buf[..n] + buf[n..] == buf;
    VerdictStands(buf[..n], buf[n..]);
  }

  /** Which buffers are refused, and how: reserved bits, a reserved opcode, no mask or a length field
      longer than it need be is a protocol error; a control frame that is fragmented or longer than
      125 bytes is too large; and anything else that is not a header yet is incomplete. */
  lemma RefusedHeaders(buf: bytes)
    requires |buf| >= 2
    ensures var flags, opcode, masked, n := buf[0] / 16, buf[0] % 16, buf[1] >= 128, buf[1] % 128;
            var reserved := flags !in {0, 8} || opcode !in {0, 1, 2, 8, 9, 10};
            var control := !reserved && opcode >= 8 && (flags == 0 || n > 125);
            var wide := (n == 126 && |buf| >= 4 && FromBigEndian(buf[2..4]) < 126)
                        || (n == 127 && |buf| >= 10 && FromBigEndian(buf[2..10]) < 65536);
            && (ParseHeader(buf) == ControlTooLarge <==> control)
            && (ParseHeader(buf) == ProtocolError <==> !control && (reserved || !masked || wide))
            && (ParseHeader(buf) == Incomplete ==>
                  |buf| < (if n < 126 then 6 else if n == 126 then 8 else 14))
  {
    hide FromBigEndian;
  }

  /** Masked zeros show the key, over and over from its first byte. */
  lemma ZerosMasked(n: nat, key: Key, i: nat)
    requires i < n
    ensures Masked(Fill(0, n), key)[i] == key[i - i / 4 * 4]
  {
    XorZero(key[i % 4]);
  }

  // ------------------------------------------------------------------- the frames

  const MASK: Key := [0x12, 0x34, 0x56, 0x78]

  /** The header that the builder writes; a length above 65535 loses its high bits. */
  function MaskedTextHeader(n: nat): bytes {
    (if n < 126 then [0x81, 0x80 + n] else [0x81, 0x80 + 126, (n / 256) % 256, n % 256]) + MASK
  }

  /** `ws_build_masked_text`. */
  method BuildMaskedText(payload: bytes) returns (frame: bytes)
    ensures frame == MaskedTextHeader(|payload|) + Masked(payload, MASK)
  {
    hide Xor;
    frame := [0x81];
    if |payload| < 126 {
      frame := frame + [0x80 + |payload|];
    } else {
      frame := frame + [0x80 + 126];
      frame := frame + [(|payload| / 256) % 256];
      frame := frame + [|payload| % 256];
    }
    frame := frame + MASK;
    ghost var head := frame;
    for i := 0 to |payload|
      invariant frame == head + Masked(payload, MASK)[..i]
    {
      frame := frame + [XorByte(payload[i], MASK[i % 4])];
    }
    assert Masked(payload, MASK)[..|payload|] == Masked(payload, MASK);
  }

  lemma BigEndianPair(hi: byte, lo: byte)
    ensures FromBigEndian([hi, lo]) == hi * 256 + lo
  {
    assert [hi, lo][..1] == [hi] && [hi][..0] == [];
    assert FromBigEndian([hi]) == hi;
  }

  lemma ParseShort(n: nat, rest: bytes)
    requires n < 126
    ensures ParseHeader([0x81, 0x80 + n] + MASK + rest) == Ok(Header(1, true, n, MASK, 6))
  {
    var buf := [0x81, 0x80 + n] + MASK + rest;
    assert buf[0] == 0x81 && buf[1] == 0x80 + n;
    assert buf[2..6] == MASK;
  }

  lemma ParseLong(hi: byte, lo: byte, rest: bytes)
    ensures var n := hi * 256 + lo;
            ParseHeader([0x81, 0x80 + 126, hi, lo] + MASK + rest)
            == if n < 126 then ProtocolError else Ok(Header(1, true, n, MASK, 8))
  {
    hide FromBigEndian;
    var buf := [0x81, 0x80 + 126, hi, lo] + MASK + rest;
    assert buf[0] == 0x81 && buf[1] == 0x80 + 126;
    assert buf[2..4] == [hi, lo] && buf[4..8] == MASK;
    BigEndianPair(hi, lo);
  }

  lemma LowBytes(n: nat)
    ensures ((n / 256) % 256) * 256 + n % 256 == n % 65536
  {
  }

  /** What the server's parser makes of the builder's header. */
  lemma ParseBuilt(n: nat, rest: bytes)
    ensures var r := ParseHeader(MaskedTextHeader(n) + rest);
            if n < 65536 then r == Ok(Header(1, true, n, MASK, if n < 126 then 6 else 8))
            else if n % 65536 < 126 then r == ProtocolError
            else r == Ok(Header(1, true, n % 65536, MASK, 8))
  {
    hide ParseHeader;
    if n < 126 {
      ParseShort(n, rest);
    } else {
      ParseLong((n / 256) % 256, n % 256, rest);
      LowBytes(n);
    }
  }

  /** The receiving side: header, then payload, unmasked with the header's key. */
  function Receive(buf: bytes): Option<(bytes, bytes)> {
    match ParseHeader(buf)
    case Ok(h) =>
      var end := h.headerSize + h.payloadLength;
      if |buf| < end then None else Some((Masked(buf[h.headerSize..end], h.mask), buf[end..]))
    case _ => None
  }

  /** A built frame is received as its payload, leaving what follows it, exactly when the payload
      is shorter than 65536 bytes. */
  lemma FrameRoundTrip(payload: bytes, rest: bytes)
    ensures Receive(MaskedTextHeader(|payload|) + Masked(payload, MASK) + rest) == Some((payload, rest))
            <==> |payload| < 65536
  {
    hide ParseHeader, Masked, MaskedTextHeader;
    var n := |payload|;
    var head, body := MaskedTextHeader(n), Masked(payload, MASK);
    var buf := head + body + rest;
    assert buf == head + (body + rest);
    ParseBuilt(n, body + rest);
    BuiltSize(n);
    MaskInvolution(payload, MASK);
    if n < 65536 {
      assert buf[|head|..|head| + n] == body && buf[|head| + n..] == rest;
    }
  }

  lemma BuiltSize(n: nat)
    ensures |MaskedTextHeader(n)| == if n < 126 then 6 else 8
  {
  }

  /** The header of a frame the server sends (`ws_build_frame`), which is not masked. */
  function ServerHeader(opcode: nat, n: nat): bytes
    requires opcode < 16
  {
    if n < 126 then [0x80 + opcode, n]
    else if n <= 0xFFFF then [0x80 + opcode, 126] + BigEndian(n, 2)
    else [0x80 + opcode, 127] + BigEndian(n, 8)
  }

  /** An unmasked frame is refused, so a reflected frame is never taken for a client's. */
  lemma ServerFramesRefused(opcode: nat, payload: bytes)
    requires opcode < 16
    ensures var r := ParseHeader(ServerHeader(opcode, |payload|) + payload); r == ProtocolError || r == ControlTooLarge
  {
  }

  /** The header with its mask bit set and a key after it. */
  function WithMask(head: bytes, key: Key): bytes
    requires |head| >= 2 && head[1] < 128
  {
    [head[0], head[1] + 128] + head[2..] + key
  }

  /** The server's own header has the form that its parser demands of a client, but for the mask:
      refused as it is, it is read back exactly once it is masked. */
  lemma ServerFrames(opcode: nat, payload: bytes, key: Key)
    requires opcode in {0, 1, 2, 8, 9, 10} && (opcode >= 8 ==> |payload| <= 125) && |payload| < TWO64
    ensures !ParseHeader(ServerHeader(opcode, |payload|) + payload).Ok?
    ensures var head := ServerHeader(opcode, |payload|);
            && |head| >= 2 && head[1] < 128
            && ParseHeader(WithMask(head, key) + payload) == Ok(Header(opcode, true, |payload|, key, |head| + 4))
  {
    hide ParseHeader, BigEndian, EncodeHeader, WithMask;
    ServerFramesRefused(opcode, payload);
    MaskedHeader(opcode, |payload|, key);
    HeaderDecodes(Header(opcode, true, |payload|, key, |ServerHeader(opcode, |payload|)| + 4), payload);
  }

  lemma MaskedHeader(opcode: nat, n: nat, key: Key)
    requires opcode in {0, 1, 2, 8, 9, 10} && (opcode >= 8 ==> n <= 125) && n < TWO64
    ensures var head := ServerHeader(opcode, n);
            var h := Header(opcode, true, n, key, |head| + 4);
            |head| >= 2 && head[1] < 128 && IsHeader(h) && WithMask(head, key) == EncodeHeader(h)
  {
    hide BigEndian;
    var head := ServerHeader(opcode, n);
    if n < 126 {
      assert head[2..] == [];
    } else if n <= 0xFFFF {
      assert head[2..] == BigEndian(n, 2);
    } else {
      assert head[2..] == BigEndian(n, 8);
    }
  }
}

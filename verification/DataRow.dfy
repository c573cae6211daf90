/**
 PostgreSQL DataRow messages (Frontend/Backend Protocol, "Message Formats"): the
 benchmark's text and binary encoders and the two scanners that add up what they
 find.
 */
module DataRow {
  import opened Bytes
  import opened Bitwise

  const TWO63: nat := 0x8000_0000_0000_0000
  const TAG: byte := 68  // 'D'
  const NULL_LENGTH: nat := 0xffff_ffff

  // ------------------------------------------------------------ integer codecs

  /** `append_u32`: four shifted and masked bytes. */
  method AppendU32(out0: bytes, v: nat) returns (out: bytes)
    requires v < TWO32
    ensures out == out0 + BigEndian(v, 4)
  {
    hide BigEndian;
    out := out0 + [(v / 0x100_0000) % 256] + [(v / 0x1_0000) % 256] + [(v / 0x100) % 256] + [v % 256];
    FourBytes(v);
  }

  lemma FourBytes(v: nat)
    ensures BigEndian(v, 4) == [v / 0x100_0000 % 256, v / 0x1_0000 % 256, v / 0x100 % 256, v % 256]
  {
    var a := v / 256;
    var b := a / 256;
    var c := b / 256;
    assert BigEndian(c, 1) == [c % 256];
    assert BigEndian(b, 2) == BigEndian(c, 1) + [b % 256];
    assert BigEndian(a, 3) == BigEndian(b, 2) + [a % 256];
    assert b == v / 0x1_0000 && c == v / 0x100_0000;
  }

  /** The unsigned 64-bit reading of a signed 64-bit integer, and back. */
  function Unsigned(v: int): nat
    requires 0 - TWO63 <= v < TWO63
  {
    if v < 0 then v + TWO64 else v
  }

  function Signed(u: nat): int { if u % TWO64 < TWO63 then u % TWO64 else u % TWO64 - TWO64 }

  lemma SignedUnsigned(v: int)
    requires 0 - TWO63 <= v < TWO63
    ensures Signed(Unsigned(v)) == v && Unsigned(v) < TWO64
  {
  }

  lemma UnsignedSigned(u: nat)
    requires u < TWO64
    ensures 0 - TWO63 <= Signed(u) < TWO63 && Unsigned(Signed(u)) == u
  {
  }

  lemma ShiftTwo(x: nat)
    ensures Shift(x, 2) == x / 4
  {
    assert Shift(x / 2, 1) == x / 2 / 2;
  }

  lemma ShiftNibble(x: nat)
    ensures Shift(x, 4) == x / 16
  {
    ShiftShift(x, 2, 2);
    ShiftTwo(x);
    ShiftTwo(x / 4);
  }

  lemma ShiftByte(u: nat, k: nat)
    ensures Shift(u, k) / 256 == Shift(u, k + 8)
  {
    var x := Shift(u, k);
    ShiftShift(u, k, 8);
    ShiftShift(x, 4, 4);
    ShiftNibble(x);
    ShiftNibble(x / 16);
  }

  /** `append_i64_be`: the loop over shifts 56, 48, ..., 0. */
  method AppendI64BE(out0: bytes, v: int) returns (out: bytes)
    requires 0 - TWO63 <= v < TWO63
    ensures out == out0 + BigEndian(Unsigned(v), 8)
  {
    var u := Unsigned(v);
    out := out0;
    var shift := 56;
    while shift >= 0
      invariant -8 <= shift <= 56 && shift % 8 == 0
      invariant out == out0 + BigEndian(Shift(u, shift + 8), 7 - shift / 8)
      decreases shift + 8
    {
      ShiftByte(u, shift);
      out := out + [Shift(u, shift) % 256];
      shift := shift - 8;
    }
  }

  /** `read_i64_be`. */
  method ReadI64BE(p: bytes) returns (v: int)
    requires |p| >= 8
    ensures v == Signed(FromBigEndian(p[..8]))
  {
    var u: nat := 0;
    for i := 0 to 8
      invariant u == FromBigEndian(p[..i])
    {
      assert p[..i + 1][..i] == p[..i];
      u := u * 256 + p[i];
    }
    v := Signed(u);
  }

  /** The big-endian codec gives back every signed 64-bit integer. */
  lemma I64RoundTrip(v: int, rest: bytes)
    requires 0 - TWO63 <= v < TWO63
    ensures Signed(FromBigEndian((BigEndian(Unsigned(v), 8) + rest)[..8])) == v
  {
    SignedUnsigned(v);
    Widths();
    BigEndianRoundTrip(Unsigned(v), 8);
    assert (BigEndian(Unsigned(v), 8) + rest)[..8] == BigEndian(Unsigned(v), 8);
  }

  // ------------------------------------------------------------------- encoders

  /** "row{}_" */
  function Unit(row: nat): bytes { [114, 111, 119] + Print(row, 10) + [95] }

  /** `unit` repeated and cut to `n` bytes. */
  function Repeat(unit: bytes, n: nat): (s: bytes)
    requires unit != []
    ensures |s| == n
    decreases n
  {
    if n <= |unit| then unit[..n] else unit + Repeat(unit, n - |unit|)
  }

  function Payload(row: nat, n: nat): (s: bytes)
    ensures |s| == n
  {
    Repeat(Unit(row), n)
  }

  lemma {:induction false} RepeatHasNo(unit: bytes, n: nat, c: byte)
    requires unit != [] && forall i :: 0 <= i < |unit| ==> unit[i] != c
    ensures forall i :: 0 <= i < n ==> Repeat(unit, n)[i] != c
    decreases n
  {
    if n > |unit| { RepeatHasNo(unit, n - |unit|, c); }
  }

  lemma PayloadHasNoTag(row: nat, n: nat)
    ensures forall i :: 0 <= i < n ==> Payload(row, n)[i] != TAG
  {
    PrintHasNo(row, 10, TAG);
    RepeatHasNo(Unit(row), n, TAG);
  }

  /** `make_payload`: append units, then resize. */
  method MakePayload(row: nat, n: nat) returns (out: bytes)
    ensures out == Payload(row, n)
  {
    var unit := Unit(row);
    out := Repeated(unit, n);
  }

  method Repeated(unit: bytes, n: nat) returns (out: bytes)
    requires unit != []
    ensures out == Repeat(unit, n)
  {
    out := [];
    while |out| < n
      invariant |out| <= n ==> out + Repeat(unit, n - |out|) == Repeat(unit, n)
      invariant |out| > n ==> out[..n] == Repeat(unit, n)
      decreases n - |out|
    {
      out := out + unit;
    }
    out := out[..n];
  }

  datatype Format = Text | Binary

  /** The first column of row `r`: its number, counted from 1. */
  function Id(f: Format, r: nat): bytes {
    match f
    case Text => Print(r + 1, 10)
    case Binary => BigEndian(r + 1, 8)
  }

  /** The message length before it is cut to 32 bits. */
  function MessageLength(f: Format, r: nat, n: nat): nat { 14 + |Id(f, r)| + n }

  /** One DataRow message; both lengths are cut to 32 bits by the casts. */
  function Row(f: Format, r: nat, n: nat): bytes {
    [TAG] + BigEndian(MessageLength(f, r, n) % TWO32, 4) + BigEndian(2, 2)
    + BigEndian(|Id(f, r)| % TWO32, 4) + Id(f, r) + BigEndian(n % TWO32, 4) + Payload(r, n)
  }

  /** Rows `r` up to `rows`. */
  function RowsFrom(f: Format, r: nat, rows: nat, n: nat): bytes
    requires r <= rows
    decreases rows - r
  {
    if r == rows then [] else Row(f, r, n) + RowsFrom(f, r + 1, rows, n)
  }

  /** The first column, as each encoder appends it. */
  method AppendId(out0: bytes, f: Format, r: nat) returns (out: bytes)
    requires r + 1 < TWO64
    ensures out == out0 + Id(f, r)
  {
    hide BigEndian, Print;
    UnsignedSigned(r + 1);
    if f.Text? {
      out := out0 + Print(r + 1, 10);
    } else {
      out := AppendI64BE(out0, Signed(r + 1));
    }
  }

  /** The body of the encoders' loop. */
  method AppendRow(out0: bytes, f: Format, r: nat, n: nat) returns (out: bytes)
    requires r + 1 < TWO64
    ensures out == out0 + Row(f, r, n)
  {
    hide BigEndian, Payload, Id;
    var payload := MakePayload(r, n);
    var idSize := |Id(f, r)|;
    out := AppendU32(out0 + [TAG], (14 + idSize + n) % TWO32);
    out := AppendU32(out + BigEndian(2, 2), idSize % TWO32);
    out := AppendId(out, f, r);
    out := AppendU32(out, n % TWO32);
    out := out + payload;
  }

  /** `make_wire_rows_text` and `make_wire_rows_binary`. */
  method MakeWireRows(f: Format, rows: nat, n: nat) returns (out: bytes)
    requires rows < TWO64
    ensures out == RowsFrom(f, 0, rows, n)
  {
    hide Row;
    out := [];
    for r := 0 to rows
      invariant out + RowsFrom(f, r, rows, n) == RowsFrom(f, 0, rows, n)
    {
      out := AppendRow(out, f, r, n);
    }
  }

  // ------------------------------------------------------------------- scanners

  /** What a scanner ends with. `OutOfBounds` stands for a read past the end of the data, which the
      program does not check for. Moving its cursor past the end is no read: a length that leads
      there is added and ends the scan. */
  datatype Scan = Sum(acc: nat) | BadTag | BadLength | BadInteger | OutOfBounds

  datatype Columns = Columns(at: nat, acc: nat) | Broken(why: Scan)

  /** The integer column: all of the field must be digits, or it must have eight bytes. */
  function Integer(f: Format, field: bytes): Option<nat> {
    match f
    case Text =>
      var p := FromChars(field, 10);
      if p.Number? && p.length == |field| then Some(p.value) else None
    case Binary => if |field| == 8 then Some(FromBigEndian(field)) else None
  }

  /** The integer column of a message that ends inside it, `rest` being what is left of the data: the
      text scanner stops in bounds only if it meets something that is not a digit. */
  function CutInteger(f: Format, rest: bytes): Scan {
    if f.Text? && DigitRun(rest, 10) < |rest| then BadInteger else OutOfBounds
  }

  /** The column loop, at offset `at` with columns `c` to `cols` to go. */
  function ScanColumns(f: Format, s: bytes, at: nat, c: nat, cols: nat, acc: nat): Columns
    requires c <= cols
    decreases cols - c
  {
    if c == cols then Columns(at, acc)
    else if at + 4 > |s| then Broken(OutOfBounds)
    else
      var length := FromBigEndian(s[at..at + 4]);
      if length == NULL_LENGTH then ScanColumns(f, s, at + 4, c + 1, cols, acc)
      else if c > 0 then ScanColumns(f, s, at + 4 + length, c + 1, cols, (acc + length) % TWO64)
      else if f.Binary? && length != 8 then Broken(BadInteger)
      else if at + 4 + length > |s| then Broken(CutInteger(f, s[at + 4..]))
      else
        match Integer(f, s[at + 4..at + 4 + length])
        case None => Broken(BadInteger)
        case Some(v) => ScanColumns(f, s, at + 4 + length, c + 1, cols, (acc + v) % TWO64)
  }

  lemma {:induction false} ScanColumnsAdvances(f: Format, s: bytes, at: nat, c: nat, cols: nat, acc: nat)
    requires c <= cols
    ensures var r := ScanColumns(f, s, at, c, cols, acc); r.Columns? ==> at <= r.at
    decreases cols - c
  {
    hide FromBigEndian, Integer;
    if c < cols && at + 4 <= |s| {
      var length := FromBigEndian(s[at..at + 4]);
      ScanColumnsAdvances(f, s, at + 4, c + 1, cols, acc);
      ScanColumnsAdvances(f, s, at + 4 + length, c + 1, cols, (acc + length) % TWO64);
      if at + 4 + length <= |s| {
        var v := Integer(f, s[at + 4..at + 4 + length]);
        if v.Some? { ScanColumnsAdvances(f, s, at + 4 + length, c + 1, cols, (acc + v.value) % TWO64); }
      }
    }
  }

  /** One message at the front of `s`: where it ends, possibly past the data, and the new sum. */
  function ScanRow(f: Format, s: bytes, acc: nat): (r: Columns)
    requires s != []
    ensures r.Columns? ==> 0 < r.at
  {
    if s[0] != TAG then Broken(BadTag)
    else if |s| < 7 then Broken(OutOfBounds)
    else
      var length, cols := FromBigEndian(s[1..5]), FromBigEndian(s[5..7]);
      var r := ScanColumns(f, s, 7, 0, cols, acc);
      ScanColumnsAdvances(f, s, 7, 0, cols, acc);
      if r.Columns? && r.at != 5 + length - 4 then Broken(BadLength) else r
  }

  function ScanAll(f: Format, s: bytes, acc: nat): Scan
    decreases |s|
  {
    if s == [] then Sum(acc)
    else
      match ScanRow(f, s, acc)
      case Broken(why) => why
      case Columns(at, acc') => if at >= |s| then Sum(acc') else ScanAll(f, s[at..], acc')
  }

  /** What is left to scan when the cursor is at `p`. */
  function ScanFrom(f: Format, data: bytes, p: nat, acc: nat): Scan {
    if p >= |data| then Sum(acc) else ScanAll(f, data[p..], acc)
  }

  /** `consume_wire_text` and `consume_wire_binary`. */
  method ConsumeWire(f: Format, data: bytes) returns (r: Scan)
    ensures r == ScanAll(f, data, 0)
  {
    hide FromBigEndian, ScanColumns;
    var acc: nat, p: nat := 0, 0;
    assert data[0..] == data;
    while p < |data|
      invariant ScanFrom(f, data, p, acc) == ScanAll(f, data, 0)
      decreases |data| - p
    {
      var s := data[p..];
      if s[0] != TAG { return BadTag; }
      if |s| < 7 { return OutOfBounds; }
      var length, cols := FromBigEndian(s[1..5]), FromBigEndian(s[5..7]);
      var row := ConsumeColumns(f, s, cols, acc);
      ScanColumnsAdvances(f, s, 7, 0, cols, acc);
      if row.Broken? { return row.why; }
      if row.at != 5 + length - 4 { return BadLength; }
      if row.at < |s| { assert s[row.at..] == data[p + row.at..]; }
      acc := row.acc;
      p := p + row.at;
    }
    r := Sum(acc);
  }

  /** The integer column as each scanner reads it. */
  method ReadInteger(f: Format, field: bytes) returns (v: Option<nat>)
    requires f.Binary? ==> |field| == 8
    ensures v == Integer(f, field)
  {
    if f.Text? {
      var p := FromChars(field, 10);
      v := if p.Number? && p.length == |field| then Some(p.value) else None;
    } else {
      var x := ReadI64BE(field);
      assert field[..8] == field;
      FromBigEndianBound(field);
      Widths();
      v := Some(Unsigned(x));
    }
  }

  method ConsumeColumns(f: Format, s: bytes, cols: nat, acc0: nat) returns (r: Columns)
    requires |s| >= 7
    ensures r == ScanColumns(f, s, 7, 0, cols, acc0)
  {
    hide FromBigEndian, Integer, CutInteger;
    var at: nat, acc: nat := 7, acc0;
    for c := 0 to cols
      invariant ScanColumns(f, s, at, c, cols, acc) == ScanColumns(f, s, 7, 0, cols, acc0)
    {
      if at + 4 > |s| { return Broken(OutOfBounds); }
      var length := FromBigEndian(s[at..at + 4]);
      at := at + 4;
      if length == NULL_LENGTH { continue; }
      if c == 0 {
        if f.Binary? && length != 8 { return Broken(BadInteger); }
        if at + length > |s| { return Broken(CutInteger(f, s[at..])); }
        var v := ReadInteger(f, s[at..at + length]);
        if v.None? { return Broken(BadInteger); }
        acc := (acc + v.value) % TWO64;
      } else {
        acc := (acc + length) % TWO64;
      }
      at := at + length;
    }
    r := Columns(at, acc);
  }

  // ----------------------------------------------- scanning the encoders' output

  /** Where the payload of a row starts. */
  function PayloadStart(f: Format, r: nat): nat { 15 + |Id(f, r)| }

  /** `s` begins with a row, as far as its payload. */
  ghost predicate BeginsRow(s: bytes, f: Format, r: nat, n: nat) {
    var l := |Id(f, r)|;
    && |s| >= 15 + l && s[0] == TAG
    && s[1..5] == BigEndian(MessageLength(f, r, n) % TWO32, 4) && s[5..7] == BigEndian(2, 2)
    && s[7..11] == BigEndian(l % TWO32, 4) && s[11..11 + l] == Id(f, r)
    && s[11 + l..15 + l] == BigEndian(n % TWO32, 4)
  }

  lemma RowLayout(f: Format, r: nat, n: nat, rest: bytes)
    ensures var s := Row(f, r, n) + rest;
            BeginsRow(s, f, r, n) && s[PayloadStart(f, r)..] == Payload(r, n) + rest
  {
    hide BigEndian, Id, Payload;
  }

  /** A row that is cut in its payload begins like the whole one. */
  lemma CutRowLayout(s: bytes, f: Format, r: nat, n: nat, k: nat)
    requires BeginsRow(s, f, r, n) && PayloadStart(f, r) <= k <= |s|
    ensures BeginsRow(s[..k], f, r, n)
  {
    hide BigEndian, Id;
    var p, l := s[..k], |Id(f, r)|;
    assert p[1..5] == s[1..5] && p[5..7] == s[5..7] && p[7..11] == s[7..11];
    assert p[11..11 + l] == s[11..11 + l] && p[11 + l..15 + l] == s[11 + l..15 + l];
  }

  lemma IdReads(f: Format, r: nat)
    requires r + 1 < TWO64
    ensures Integer(f, Id(f, r)) == Some(r + 1)
    ensures 0 < |Id(f, r)| <= 20 && (f.Binary? ==> |Id(f, r)| == 8)
  {
    match f {
      case Text =>
        assert Print(r + 1, 10) + [] == Print(r + 1, 10);
        ParsePrinted(r + 1, 10, []);
        PrintU64Fits(r + 1);
      case Binary =>
        Widths();
        BigEndianRoundTrip(r + 1, 8);
    }
  }

  lemma LengthReads(v: nat)
    ensures v < TWO32 ==> FromBigEndian(BigEndian(v, 4)) == v
    ensures FromBigEndian(BigEndian(2, 2)) == 2
  {
    Widths();
    if v < TWO32 { BigEndianRoundTrip(v, 4); }
    BigEndianRoundTrip(2, 2);
  }

  /** The bytes a scanner takes for the payload: its length cut to 32 bits, none for NULL. */
  function SeenPayload(n: nat): nat { if n % TWO32 == NULL_LENGTH then 0 else n % TWO32 }

  /** The id column of a row. */
  lemma IdColumn(f: Format, r: nat, n: nat, s: bytes, acc: nat)
    requires r + 1 < TWO64 && BeginsRow(s, f, r, n)
    ensures ScanColumns(f, s, 7, 0, 2, acc) == ScanColumns(f, s, 11 + |Id(f, r)|, 1, 2, (acc + r + 1) % TWO64)
  {
    hide BigEndian, FromBigEndian, Id, Integer;
    IdReads(f, r);
    LengthReads(|Id(f, r)| % TWO32);
    assert acc + (r + 1) == acc + r + 1;
  }

  /** Its payload column, of which only the length is read. */
  lemma PayloadColumn(f: Format, r: nat, n: nat, s: bytes, acc: nat)
    requires BeginsRow(s, f, r, n) && acc < TWO64
    ensures ScanColumns(f, s, 11 + |Id(f, r)|, 1, 2, acc)
            == Columns(PayloadStart(f, r) + SeenPayload(n), (acc + SeenPayload(n)) % TWO64)
  {
    hide BigEndian, FromBigEndian, Id, Integer;
    LengthReads(n % TWO32);
  }

  lemma RowColumns(f: Format, r: nat, n: nat, s: bytes, acc: nat)
    requires r + 1 < TWO64 && BeginsRow(s, f, r, n)
    ensures ScanColumns(f, s, 7, 0, 2, acc)
            == Columns(PayloadStart(f, r) + SeenPayload(n), ((acc + r + 1) % TWO64 + SeenPayload(n)) % TWO64)
  {
    hide ScanColumns, BeginsRow, Id;
    IdColumn(f, r, n, s, acc);
    PayloadColumn(f, r, n, s, (acc + r + 1) % TWO64);
  }

  /** The message length of row `r` fits its 32-bit field. */
  predicate Fits(f: Format, r: nat, n: nat) { MessageLength(f, r, n) < TWO32 }

  lemma ScanRowOf(f: Format, r: nat, n: nat, s: bytes, acc: nat)
    requires r + 1 < TWO64 && BeginsRow(s, f, r, n)
    ensures var at := PayloadStart(f, r) + SeenPayload(n);
            && s != []
            && ScanRow(f, s, acc)
               == if at == 1 + MessageLength(f, r, n) % TWO32
                  then Columns(at, ((acc + r + 1) % TWO64 + SeenPayload(n)) % TWO64) else Broken(BadLength)
  {
    hide BigEndian, FromBigEndian, Id, ScanColumns;
    LengthReads(MessageLength(f, r, n) % TWO32);
    RowColumns(f, r, n, s, acc);
  }

  /** A fitting row, whole or cut in its payload: the scanner counts all of it. */
  lemma ScanRowFits(f: Format, r: nat, n: nat, s: bytes, acc: nat)
    requires r + 1 < TWO64 && Fits(f, r, n) && BeginsRow(s, f, r, n)
    ensures s != [] && ScanRow(f, s, acc) == Columns(PayloadStart(f, r) + n, (acc + r + 1 + n) % TWO64)
  {
    hide Id, ScanRow, BeginsRow;
    ScanRowOf(f, r, n, s, acc);
    WrapAdd(acc + r + 1, n);
  }

  /** A row that fits is taken whole; what it adds is its number and its payload size. */
  lemma ScanFittingRow(f: Format, r: nat, n: nat, rest: bytes, acc: nat)
    requires r + 1 < TWO64 && Fits(f, r, n)
    ensures ScanAll(f, Row(f, r, n) + rest, acc) == ScanAll(f, rest, (acc + r + 1 + n) % TWO64)
  {
    hide Id, ScanRow, Row, ScanAll, BeginsRow, Payload;
    var s := Row(f, r, n) + rest;
    RowLayout(f, r, n, rest);
    RowLength(f, r, n);
    ScanRowFits(f, r, n, s, acc);
    ScanStep(f, s, acc);
    assert s[|Row(f, r, n)|..] == rest;
    NothingToScan(f, (acc + r + 1 + n) % TWO64);
  }

  lemma RowLength(f: Format, r: nat, n: nat)
    ensures |Row(f, r, n)| == 15 + |Id(f, r)| + n
  {
  }

  /** A row that does not fit is refused: either its length disagrees with its columns, or both
      were cut alike and the scanner runs into the rest of the payload, which has no tag. */
  lemma ScanOversizedRow(f: Format, r: nat, n: nat, rest: bytes, acc: nat)
    requires r + 1 < TWO64 && !Fits(f, r, n)
    ensures ScanAll(f, Row(f, r, n) + rest, acc) == BadLength || ScanAll(f, Row(f, r, n) + rest, acc) == BadTag
  {
    hide Id, ScanRow, Row, ScanAll, Payload, BeginsRow;
    IdReads(f, r);
    var s, l, seen := Row(f, r, n) + rest, |Id(f, r)|, SeenPayload(n);
    RowLayout(f, r, n, rest);
    RowLength(f, r, n);
    ScanRowOf(f, r, n, s, acc);
    ScanStep(f, s, acc);
    if 15 + l + seen == 1 + MessageLength(f, r, n) % TWO32 {
      CutAlike(l, n);
      PayloadHasNoTag(r, n);
      assert s[15 + l + seen] == s[15 + l..][seen] == Payload(r, n)[seen];
      NoTagNoRow(f, s[15 + l + seen..], ((acc + r + 1) % TWO64 + seen) % TWO64);
    }
  }

  lemma ScanStep(f: Format, s: bytes, acc: nat)
    requires s != []
    ensures ScanAll(f, s, acc) == match ScanRow(f, s, acc)
                                  case Broken(why) => why
                                  case Columns(at, acc') => ScanFrom(f, s, at, acc')
  {
  }

  lemma NoTagNoRow(f: Format, s: bytes, acc: nat)
    requires s != [] && s[0] != TAG
    ensures ScanAll(f, s, acc) == BadTag
  {
  }

  /** Both lengths can only be cut alike when payload bytes are left over. */
  lemma CutAlike(l: nat, n: nat)
    requires 14 + l + n >= TWO32 && l <= 20 && 15 + l + SeenPayload(n) == 1 + (14 + l + n) % TWO32
    ensures SeenPayload(n) < n
  {
  }

  /** What rows `r` up to `rows` add up to. */
  function RowsSum(r: nat, rows: nat, n: nat): nat
    requires r <= rows
    decreases rows - r
  {
    if r == rows then 0 else r + 1 + n + RowsSum(r + 1, rows, n)
  }

  lemma {:induction false} ScanRows(f: Format, r: nat, rows: nat, n: nat, acc: nat)
    requires r <= rows < TWO64
    ensures if forall i :: r <= i < rows ==> Fits(f, i, n)
            then ScanAll(f, RowsFrom(f, r, rows, n), acc % TWO64) == Sum((acc + RowsSum(r, rows, n)) % TWO64)
            else var e := ScanAll(f, RowsFrom(f, r, rows, n), acc % TWO64); e == BadLength || e == BadTag
    decreases rows - r
  {
    hide ScanAll, Row, MessageLength;
    if r == rows {
      NothingToScan(f, acc % TWO64);
    } else if Fits(f, r, n) {
      var rest := RowsFrom(f, r + 1, rows, n);
      ScanFittingRow(f, r, n, rest, acc % TWO64);
      ScanRows(f, r + 1, rows, n, acc + r + 1 + n);
      WrapAdd(acc, r + 1 + n);
    } else {
      ScanOversizedRow(f, r, n, RowsFrom(f, r + 1, rows, n), acc % TWO64);
    }
  }

  lemma NothingToScan(f: Format, acc: nat)
    ensures ScanAll(f, [], acc) == Sum(acc)
  {
  }

  lemma {:induction false} RowsSumIs(r: nat, rows: nat, n: nat)
    requires r <= rows
    ensures 2 * RowsSum(r, rows, n) == rows * (rows + 1) - r * (r + 1) + 2 * (rows - r) * n
    decreases rows - r
  {
    if r < rows {
      RowsSumIs(r + 1, rows, n);
      assert 2 * (rows - r) * n == 2 * (rows - (r + 1)) * n + 2 * n;
      assert (r + 1) * (r + 2) == r * (r + 1) + 2 * (r + 1);
    }
  }

  /**
   The scanner of each format accepts the output of its encoder exactly when every
   message length fits in 32 bits; then it adds `rows (rows + 1) / 2 + rows n` to the sum
   in 64-bit arithmetic. It never reads outside the data.
   */
  lemma WireRoundTrip(f: Format, rows: nat, n: nat)
    requires rows < TWO64
    ensures var r := ScanAll(f, RowsFrom(f, 0, rows, n), 0);
            if forall i :: 0 <= i < rows ==> Fits(f, i, n)
            then r == Sum((rows * (rows + 1) / 2 + rows * n) % TWO64)
            else r == BadLength || r == BadTag
  {
    hide ScanAll, RowsFrom, MessageLength, RowsSum;
    ScanRows(f, 0, rows, n, 0);
    RowsSumIs(0, rows, n);
    HalfSum(rows, n, RowsSum(0, rows, n));
  }

  lemma HalfSum(rows: nat, n: nat, sum: nat)
    requires 2 * sum == rows * (rows + 1) - 0 * (0 + 1) + 2 * (rows - 0) * n
    ensures sum == rows * (rows + 1) / 2 + rows * n
  {
    assert 2 * (rows - 0) * n == 2 * (rows * n);
    assert rows * (rows + 1) == 2 * (sum - rows * n);
  }

  // ------------------------------------------------------------------ truncated output

  /** Leading rows that fit are added up before the rest is scanned. */
  lemma {:induction false} ScanLeading(f: Format, r: nat, rows: nat, n: nat, tail: bytes, acc: nat)
    requires r <= rows < TWO64 && forall i :: r <= i < rows ==> Fits(f, i, n)
    ensures ScanAll(f, RowsFrom(f, r, rows, n) + tail, acc % TWO64)
            == ScanAll(f, tail, (acc + RowsSum(r, rows, n)) % TWO64)
    decreases rows - r
  {
    hide ScanAll, Row, MessageLength;
    if r == rows {
      assert RowsFrom(f, r, rows, n) + tail == tail;
    } else {
      var rest := RowsFrom(f, r + 1, rows, n);
      assert RowsFrom(f, r, rows, n) + tail == Row(f, r, n) + (rest + tail);
      ScanFittingRow(f, r, n, rest + tail, acc % TWO64);
      ScanLeading(f, r + 1, rows, n, tail, acc + r + 1 + n);
      WrapAdd(acc, r + 1 + n);
    }
  }

  /** A row cut before its payload makes the scanner read past the end. */
  lemma CutBeforePayload(f: Format, r: nat, n: nat, s: bytes, k: nat, acc: nat)
    requires r + 1 < TWO64 && BeginsRow(s, f, r, n) && 0 < k < PayloadStart(f, r)
    ensures ScanRow(f, s[..k], acc) == Broken(OutOfBounds)
  {
    hide BigEndian, FromBigEndian, Id, ScanColumns, CutInteger;
    var p := s[..k];
    if k >= 7 {
      LengthReads(0);
      assert p[1..5] == s[1..5] && p[5..7] == s[5..7];
      CutColumns(f, r, n, s, k, acc);
    }
  }

  lemma CutColumns(f: Format, r: nat, n: nat, s: bytes, k: nat, acc: nat)
    requires r + 1 < TWO64 && BeginsRow(s, f, r, n) && 7 <= k < PayloadStart(f, r)
    ensures ScanColumns(f, s[..k], 7, 0, 2, acc) == Broken(OutOfBounds)
  {
    hide BigEndian, FromBigEndian, Id, Integer, CutInteger;
    var p, l := s[..k], |Id(f, r)|;
    IdReads(f, r);
    LengthReads(l % TWO32);
    if k >= 11 {
      assert p[7..11] == s[7..11];
      if k >= 11 + l {
        assert p[11..11 + l] == s[11..11 + l];
        NoRoomForLength(f, p, 11 + l, (acc + (r + 1)) % TWO64);
      } else {
        assert p[11..] == s[11..11 + l][..k - 11];
        CutId(f, r, k - 11);
      }
    }
  }

  lemma NoRoomForLength(f: Format, s: bytes, at: nat, acc: nat)
    requires at + 4 > |s|
    ensures ScanColumns(f, s, at, 1, 2, acc) == Broken(OutOfBounds)
  {
  }

  lemma CutId(f: Format, r: nat, k: nat)
    requires k <= |Id(f, r)|
    ensures CutInteger(f, Id(f, r)[..k]) == OutOfBounds
  {
    if f.Text? { assert AllDigits(Id(f, r)[..k], 10); }
  }

  /** Every nonempty prefix of the encoders' output is some whole rows and a nonempty part of the next. */
  lemma {:induction false} PrefixOfRows(f: Format, from: nat, rows: nat, n: nat, m: nat) returns (r: nat, k: nat)
    requires from <= rows && 0 < m <= |RowsFrom(f, from, rows, n)|
    ensures from <= r < rows && 0 < k <= |Row(f, r, n)|
    ensures RowsFrom(f, from, rows, n)[..m] == RowsFrom(f, from, r, n) + Row(f, r, n)[..k]
    decreases rows - from
  {
    hide Row;
    var row, rest := Row(f, from, n), RowsFrom(f, from + 1, rows, n);
    if m <= |row| {
      r, k := from, m;
      assert (row + rest)[..m] == row[..m] == [] + row[..m];
    } else {
      r, k := PrefixOfRows(f, from + 1, rows, n, m - |row|);
      assert (row + rest)[..m] == row + rest[..m - |row|];
      assert row + (RowsFrom(f, from + 1, r, n) + Row(f, r, n)[..k])
             == (row + RowsFrom(f, from + 1, r, n)) + Row(f, r, n)[..k];
    }
  }

  /**
   Scanning output that was cut off in row `r`: if the cut is in the payload or at
   its end, the scanner does not notice and counts the whole payload; if it is
   before the payload, the scanner reads past the end of the data.
   */
  lemma ScanTruncated(f: Format, r: nat, n: nat, k: nat)
    requires r + 1 < TWO64 && (forall i :: 0 <= i <= r ==> Fits(f, i, n)) && 0 < k <= |Row(f, r, n)|
    ensures ScanAll(f, RowsFrom(f, 0, r, n) + Row(f, r, n)[..k], 0)
            == if k >= PayloadStart(f, r)
               then Sum(((r + 1) * (r + 2) / 2 + (r + 1) * n) % TWO64) else OutOfBounds
  {
    hide ScanAll, Row, RowsFrom, MessageLength, RowsSum, Id, ScanRow, BeginsRow;
    var row, before := Row(f, r, n), RowsSum(0, r, n);
    var tail, acc := row[..k], before % TWO64;
    ScanLeading(f, 0, r, n, tail, 0);
    assert row + [] == row;
    RowLayout(f, r, n, []);
    RowLength(f, r, n);
    ScanStep(f, tail, acc);
    if k >= PayloadStart(f, r) {
      CutRowLayout(row, f, r, n, k);
      ScanRowFits(f, r, n, tail, acc);
      RowsSumIs(0, r, n);
      WrapAdd(before, r + 1 + n);
      OneRowMore(r, n, before);
    } else {
      CutBeforePayload(f, r, n, row, k, acc);
    }
  }

  lemma OneRowMore(r: nat, n: nat, before: nat)
    requires 2 * before == r * (r + 1) - 0 * (0 + 1) + 2 * (r - 0) * n
    ensures before + r + 1 + n == (r + 1) * (r + 2) / 2 + (r + 1) * n
  {
    HalfSum(r, n, before);
    assert (r + 1) * (r + 2) == r * (r + 1) + 2 * (r + 1);
    assert (r + 1) * n == r * n + n;
  }
}

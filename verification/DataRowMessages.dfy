/**
 Any DataRow messages, not only the benchmark's own: what the two scanners make
 of messages with any number of columns, NULL or not, told from their contents.
 */
module DataRowMessages {
  import opened Bytes
  import opened DataRow
  import opened Numerals

  datatype Column = Null | Value(data: bytes)

  /** A column is its length and its bytes; NULL is the length -1 and nothing. */
  function ColumnWire(c: Column): bytes {
    match c
    case Null => [255, 255, 255, 255]
    case Value(data) => BigEndian(|data|, 4) + data
  }

  function ColumnsWire(cs: seq<Column>): bytes {
    if cs == [] then [] else ColumnWire(cs[0]) + ColumnsWire(cs[1..])
  }

  /** A message with the length it announces, right or wrong. */
  datatype Message = Message(length: nat, columns: seq<Column>)

  predicate IsMessage(m: Message) {
    && m.length < TWO32 && |m.columns| < 65536
    && forall i :: 0 <= i < |m.columns| ==> m.columns[i].Value? ==> |m.columns[i].data| < TWO32 - 1
  }

  /** 'D', the length, the number of columns and the columns. */
  function MessageWire(m: Message): bytes {
    [68] + BigEndian(m.length, 4) + BigEndian(|m.columns|, 2) + ColumnsWire(m.columns)
  }

  // -------------------------------------------------------------------- what is added

  /** The number in the first column: decimal text below 2^64, or eight bytes. */
  function FirstNumber(f: Format, data: bytes): Option<nat> {
    match f
    case Text =>
      if LeadingDigits(data) == |data| > 0 && Decimal(data, 0) < TWO64 then Some(Decimal(data, 0)) else None
    case Binary => if |data| == 8 then Some(FromBigEndian(data)) else None
  }

  function Sizes(cs: seq<Column>): nat {
    if cs == [] then 0 else (if cs[0].Value? then |cs[0].data| else 0) + Sizes(cs[1..])
  }

  predicate HasNumber(f: Format, cs: seq<Column>) {
    cs == [] || cs[0].Null? || FirstNumber(f, cs[0].data).Some?
  }

  /** The number in the first column and the sizes of the others; NULL adds nothing. */
  function Weight(f: Format, cs: seq<Column>): nat
    requires HasNumber(f, cs)
  {
    if cs == [] then 0
    else (if cs[0].Null? then 0 else FirstNumber(f, cs[0].data).value) + Sizes(cs[1..])
  }

  /** What is wrong with a message, and in that order: its number, its length. */
  function Problem(f: Format, m: Message): Option<Scan> {
    if !HasNumber(f, m.columns) then Some(BadInteger)
    else if m.length != 6 + |ColumnsWire(m.columns)| then Some(BadLength)
    else None
  }

  // ------------------------------------------------------------------------ columns

  lemma IntegerIs(f: Format, data: bytes)
    ensures Integer(f, data) == FirstNumber(f, data)
  {
    hide FromChars, FromBigEndian;
    FromCharsReads(data);
    assert data[..|data|] == data;
  }

  lemma NullLength()
    ensures FromBigEndian([255, 255, 255, 255]) == NULL_LENGTH
  {
    var a, b, c: bytes := [255], [255, 255], [255, 255, 255];
    assert a[..0] == [] && b[..1] == a && c[..2] == b && [255, 255, 255, 255][..3] == c;
    assert FromBigEndian(a) == 255;
    assert FromBigEndian(b) == 65535;
    assert FromBigEndian(c) == 16777215;
  }

  /** The length field of the column at `at`. */
  lemma LengthAt(pre: bytes, c: Column, rest: bytes)
    requires c.Value? ==> |c.data| < TWO32 - 1
    ensures var s := pre + ColumnWire(c) + rest;
            && |pre| + 4 <= |s|
            && FromBigEndian(s[|pre|..|pre| + 4]) == (if c.Null? then NULL_LENGTH else |c.data|)
            && (c.Value? ==> |pre| + 4 + |c.data| <= |s| && s[|pre| + 4..|pre| + 4 + |c.data|] == c.data)
  {
    hide BigEndian, FromBigEndian;
    var s := pre + ColumnWire(c) + rest;
    match c
    case Null =>
      assert s[|pre|..|pre| + 4] == [255, 255, 255, 255];
      NullLength();
    case Value(data) =>
      assert s[|pre|..|pre| + 4] == BigEndian(|data|, 4);
      Widths();
      BigEndianRoundTrip(|data|, 4);
      assert s[|pre| + 4..|pre| + 4 + |data|] == data;
  }

  predicate AreColumns(cs: seq<Column>) {
    forall i :: 0 <= i < |cs| ==> cs[i].Value? ==> |cs[i].data| < TWO32 - 1
  }

  lemma WrapSum(acc: nat, n: nat, m: nat)
    ensures ((acc + n) % TWO64 + m) % TWO64 == (acc + (n + m)) % TWO64
  {
    WrapAdd(acc + n, m);
  }

  /** The bytes of the first column, and those of the others after it. */
  lemma ColumnSplit(pre: bytes, cs: seq<Column>, rest: bytes)
    requires cs != []
    ensures var s, next := pre + ColumnsWire(cs) + rest, pre + ColumnWire(cs[0]);
            && s == pre + ColumnWire(cs[0]) + (ColumnsWire(cs[1..]) + rest)
            && s == next + ColumnsWire(cs[1..]) + rest
            && |ColumnsWire(cs)| == |ColumnWire(cs[0])| + |ColumnsWire(cs[1..])|
            && |next| == |pre| + 4 + (if cs[0].Value? then |cs[0].data| else 0)
  {
    hide ColumnWire, ColumnsWire;
    ColumnSize(cs[0]);
    FirstWire(cs);
    Regrouped(pre, ColumnWire(cs[0]), ColumnsWire(cs[1..]), rest);
  }

  lemma FirstWire(cs: seq<Column>)
    requires cs != []
    ensures ColumnsWire(cs) == ColumnWire(cs[0]) + ColumnsWire(cs[1..])
  {
  }

  lemma Regrouped(a: bytes, b: bytes, c: bytes, d: bytes)
    ensures a + (b + c) + d == a + b + (c + d) == (a + b) + c + d
  {
  }

  lemma LaterColumn(f: Format, pre: bytes, c: Column, rest: bytes, j: nat, cols: nat, acc: nat)
    requires 0 < j < cols && acc < TWO64 && (c.Value? ==> |c.data| < TWO32 - 1)
    ensures var size := if c.Value? then |c.data| else 0;
            ScanColumns(f, pre + ColumnWire(c) + rest, |pre|, j, cols, acc)
            == ScanColumns(f, pre + ColumnWire(c) + rest, |pre| + 4 + size, j + 1, cols, (acc + size) % TWO64)
  {
    hide FromBigEndian, Integer, CutInteger, ColumnWire;
    LengthAt(pre, c, rest);
  }

  lemma NoColumns(f: Format, s: bytes, at: nat, j: nat, acc: nat)
    ensures ScanColumns(f, s, at, j, j, acc) == Columns(at, acc)
  {
  }

  /** The columns after the first: their sizes are added. */
  lemma {:induction false} LaterColumns(f: Format, pre: bytes, cs: seq<Column>, rest: bytes, c: nat, acc: nat)
    requires AreColumns(cs) && c > 0 && acc < TWO64
    ensures ScanColumns(f, pre + ColumnsWire(cs) + rest, |pre|, c, c + |cs|, acc)
            == Columns(|pre| + |ColumnsWire(cs)|, (acc + Sizes(cs)) % TWO64)
    decreases |cs|
  {
    hide ScanColumns, ColumnWire, ColumnsWire;
    if cs == [] {
      NoColumns(f, pre + ColumnsWire(cs) + rest, |pre|, c, acc);
      NoWire();
    } else {
      ColumnSplit(pre, cs, rest);
      LaterColumn(f, pre, cs[0], ColumnsWire(cs[1..]) + rest, c, c + |cs|, acc);
      var size := if cs[0].Value? then |cs[0].data| else 0;
      WrapSum(acc, size, Sizes(cs[1..]));
      LaterColumns(f, pre + ColumnWire(cs[0]), cs[1..], rest, c + 1, (acc + size) % TWO64);
    }
  }

  lemma NoWire()
    ensures ColumnsWire([]) == []
  {
  }

  lemma ColumnSize(c: Column)
    ensures |ColumnWire(c)| == 4 + if c.Value? then |c.data| else 0
  {
    hide BigEndian;
  }

  /** All columns: the first is a number or NULL. */
  lemma AllColumns(f: Format, pre: bytes, cs: seq<Column>, rest: bytes, acc: nat)
    requires AreColumns(cs) && acc < TWO64
    ensures ScanColumns(f, pre + ColumnsWire(cs) + rest, |pre|, 0, |cs|, acc)
            == if HasNumber(f, cs) then Columns(|pre| + |ColumnsWire(cs)|, (acc + Weight(f, cs)) % TWO64)
               else Broken(BadInteger)
  {
    hide ScanColumns, ColumnWire, ColumnsWire, FirstNumber;
    if cs == [] {
      NoColumns(f, pre + ColumnsWire(cs) + rest, |pre|, 0, acc);
      NoWire();
    } else {
      ColumnSplit(pre, cs, rest);
      FirstColumn(f, pre, cs[0], ColumnsWire(cs[1..]) + rest, |cs|, acc);
      if HasNumber(f, cs) {
        var v := if cs[0].Null? then 0 else FirstNumber(f, cs[0].data).value;
        WrapSum(acc, v, Sizes(cs[1..]));
        LaterColumns(f, pre + ColumnWire(cs[0]), cs[1..], rest, 1, (acc + v) % TWO64);
      }
    }
  }

  lemma FirstColumn(f: Format, pre: bytes, c: Column, rest: bytes, cols: nat, acc: nat)
    requires 0 < cols && acc < TWO64 && (c.Value? ==> |c.data| < TWO32 - 1)
    ensures var s := pre + ColumnWire(c) + rest;
            ScanColumns(f, s, |pre|, 0, cols, acc)
            == if c.Null? then ScanColumns(f, s, |pre| + 4, 1, cols, acc)
               else match FirstNumber(f, c.data)
                    case None => Broken(BadInteger)
                    case Some(v) => ScanColumns(f, s, |pre| + 4 + |c.data|, 1, cols, (acc + v) % TWO64)
  {
    hide FromBigEndian, Integer, CutInteger, ColumnWire, FirstNumber;
    LengthAt(pre, c, rest);
    if c.Value? {
      IntegerIs(f, c.data);
      if FirstNumber(f, c.data).Some? { EightBytes(f, c.data); }
    }
  }

  lemma EightBytes(f: Format, data: bytes)
    requires FirstNumber(f, data).Some?
    ensures f.Binary? ==> |data| == 8
  {
  }

  // ------------------------------------------------------------------------ messages

  lemma MessageLayout(m: Message, rest: bytes)
    requires IsMessage(m)
    ensures var s := MessageWire(m) + rest;
            && |s| >= 7 && s[0] == TAG && |MessageWire(m)| == 7 + |ColumnsWire(m.columns)|
            && FromBigEndian(s[1..5]) == m.length && FromBigEndian(s[5..7]) == |m.columns|
            && s == MessageWire(m)[..7] + ColumnsWire(m.columns) + rest
  {
    hide BigEndian, FromBigEndian, ColumnsWire;
    var s := MessageWire(m) + rest;
    Widths();
    BigEndianRoundTrip(m.length, 4);
    BigEndianRoundTrip(|m.columns|, 2);
    assert s[1..5] == BigEndian(m.length, 4) && s[5..7] == BigEndian(|m.columns|, 2);
  }

  /** One message: its problem, or where it ends and what it adds. */
  lemma RowRead(f: Format, m: Message, rest: bytes, acc: nat)
    requires IsMessage(m) && acc < TWO64
    ensures MessageWire(m) + rest != []
    ensures ScanRow(f, MessageWire(m) + rest, acc)
            == match Problem(f, m)
               case Some(p) => Broken(p)
               case None => Columns(|MessageWire(m)|, (acc + Weight(f, m.columns)) % TWO64)
  {
    hide FromBigEndian, ScanColumns, MessageWire, ColumnsWire, HasNumber, Weight;
    MessageLayout(m, rest);
    AllColumns(f, MessageWire(m)[..7], m.columns, rest, acc);
  }

  function Wire(ms: seq<Message>): bytes { if ms == [] then [] else MessageWire(ms[0]) + Wire(ms[1..]) }

  /** What a message without a problem adds. */
  function NumberOf(f: Format, m: Message): nat
    requires Problem(f, m).None?
  {
    Weight(f, m.columns)
  }

  /** The first message: its problem ends the scan, or it is added and the scan goes on behind it. */
  lemma MessageStep(f: Format, m: Message, rest: bytes, acc: nat)
    requires IsMessage(m) && acc < TWO64
    ensures ScanAll(f, MessageWire(m) + rest, acc)
            == match Problem(f, m)
               case Some(p) => p
               case None => ScanAll(f, rest, (acc + NumberOf(f, m)) % TWO64)
  {
    hide ScanAll, ScanRow, MessageWire, IsMessage, Problem, Weight;
    var s := MessageWire(m) + rest;
    RowRead(f, m, rest, acc);
    ScanStep(f, s, acc);
    if Problem(f, m).None? {
      assert s[|MessageWire(m)|..] == rest;
      if rest == [] { NothingToScan(f, (acc + NumberOf(f, m)) % TWO64); }
    }
  }

  predicate AreGood(f: Format, ms: seq<Message>) {
    forall i :: 0 <= i < |ms| ==> IsMessage(ms[i]) && Problem(f, ms[i]).None?
  }

  function Total(f: Format, ms: seq<Message>): nat
    requires AreGood(f, ms)
  {
    if ms == [] then 0 else NumberOf(f, ms[0]) + Total(f, ms[1..])
  }

  /** Messages without a problem add up, whatever follows them. */
  lemma {:induction false} MessagesAddUp(f: Format, ms: seq<Message>, rest: bytes, acc: nat)
    requires acc < TWO64 && AreGood(f, ms)
    ensures ScanAll(f, Wire(ms) + rest, acc) == ScanAll(f, rest, (acc + Total(f, ms)) % TWO64)
    decreases |ms|
  {
    hide ScanAll, MessageWire, IsMessage, Problem, NumberOf;
    if ms == [] {
      assert Wire(ms) + rest == rest;
    } else {
      var more := Wire(ms[1..]) + rest;
      assert Wire(ms) + rest == MessageWire(ms[0]) + more;
      MessageStep(f, ms[0], more, acc);
      var n := NumberOf(f, ms[0]);
      MessagesAddUp(f, ms[1..], rest, (acc + n) % TWO64);
      WrapSum(acc, n, Total(f, ms[1..]));
    }
  }

  /** The scan of good messages ends with their sum; anything after them that is no message is refused. */
  lemma MessagesSum(f: Format, ms: seq<Message>, rest: bytes)
    requires AreGood(f, ms)
    ensures ScanAll(f, Wire(ms), 0) == Sum(Total(f, ms) % TWO64)
    ensures rest != [] && rest[0] != 68 ==> ScanAll(f, Wire(ms) + rest, 0) == BadTag
  {
    hide ScanAll, AreGood, Total, Wire;
    MessagesAddUp(f, ms, [], 0);
    assert Wire(ms) + [] == Wire(ms);
    NothingToScan(f, Total(f, ms) % TWO64);
    MessagesAddUp(f, ms, rest, 0);
    if rest != [] && rest[0] != 68 { NoTagNoRow(f, rest, Total(f, ms) % TWO64); }
  }

  /** The scan stops at the first message with a problem, and reports it. */
  lemma ProblemFound(f: Format, ms: seq<Message>, m: Message, rest: bytes)
    requires AreGood(f, ms) && IsMessage(m) && Problem(f, m).Some?
    ensures ScanAll(f, Wire(ms) + (MessageWire(m) + rest), 0) == Problem(f, m).value
  {
    hide ScanAll, MessageWire, AreGood, IsMessage, Problem, Total, Wire;
    MessagesAddUp(f, ms, MessageWire(m) + rest, 0);
    MessageStep(f, m, rest, Total(f, ms) % TWO64);
  }

  /** The benchmark's payload is "row", the row's number and an underscore, over and over. */
  lemma PayloadText(row: nat)
    ensures Unit(row) == Ascii("row") + Print(row, 10) + Ascii("_")
  {
    hide Print;
    assert Ascii("row") == [114, 111, 119] && Ascii("_") == [95];
  }
}

/**
 The header part of the language server protocol as the clangd driver reads it,
 told from the text: which line gives the length of the body, in any letter case
 and among any other lines, and what a length may look like (the syntax of
 `int` in Python).
 */
module LspHeaders {
  import opened Bytes
  import opened LspFraming
  import opened Numerals

  // ------------------------------------------------------------------ a header field

  /** White space around a value: tab to carriage return, the four separators, space. */
  predicate IsWhiteByte(c: byte) { 9 <= c <= 13 || 28 <= c <= 32 }

  predicate IsWhite(s: bytes) { forall i :: 0 <= i < |s| ==> IsWhiteByte(s[i]) }

  predicate IsStripped(s: bytes) { s == [] || !(IsWhiteByte(s[0]) || IsWhiteByte(s[|s| - 1])) }

  /** A line that gives the length: the name in any letter case, a colon, and the value `v` in white space. */
  predicate GivesLength(line: bytes, name: bytes, a: bytes, v: bytes, b: bytes) {
    && line == name + [58] + a + v + b
    && Upper(name) == Ascii("CONTENT-LENGTH") && IsWhite(a) && IsStripped(v) && IsWhite(b)
  }

  lemma {:induction false} StripLeftWhite(a: bytes, s: bytes)
    requires IsWhite(a)
    ensures StripLeft(a + s) == StripLeft(s)
  {
    if a == [] {
      assert a + s == s;
    } else {
      assert (a + s)[0] == a[0] && (a + s)[1..] == a[1..] + s;
      StripLeftWhite(a[1..], s);
    }
  }

  lemma {:induction false} StripRightWhite(s: bytes, b: bytes)
    requires IsWhite(b)
    ensures StripRight(s + b) == StripRight(s)
  {
    if b == [] {
      assert s + b == s;
    } else {
      var t := s + b;
      assert t[|t| - 1] == b[|b| - 1] && t[..|t| - 1] == s + b[..|b| - 1];
      StripRightWhite(s, b[..|b| - 1]);
    }
  }

  lemma StripPadded(a: bytes, v: bytes, b: bytes)
    requires IsWhite(a) && IsStripped(v) && IsWhite(b)
    ensures Strip(a + v + b) == v
  {
    assert a + v + b == a + (v + b);
    StripLeftWhite(a, v + b);
    if v == [] {
      StripLeftWhite(b, []);
      assert v + b == b + [];
    } else {
      assert !IsSpace(v[0]) && !IsSpace(v[|v| - 1]);
      assert (v + b)[0] == v[0];
      StripRightWhite(v, b);
    }
  }

  lemma {:induction false} StripLeftForm(s: bytes) returns (a: bytes)
    ensures IsWhite(a) && s == a + StripLeft(s)
    ensures StripLeft(s) != [] ==> !IsSpace(StripLeft(s)[0])
  {
    if s == [] || !IsSpace(s[0]) {
      a := [];
    } else {
      a := StripLeftForm(s[1..]);
      a := [s[0]] + a;
    }
  }

  lemma {:induction false} StripRightForm(s: bytes) returns (b: bytes)
    ensures IsWhite(b) && s == StripRight(s) + b
    ensures StripRight(s) != [] ==> !IsSpace(StripRight(s)[|StripRight(s)| - 1])
  {
    if s == [] || !IsSpace(s[|s| - 1]) {
      b := [];
    } else {
      b := StripRightForm(s[..|s| - 1]);
      b := b + [s[|s| - 1]];
      assert s == s[..|s| - 1] + [s[|s| - 1]];
    }
  }

  /** The name test ignores letter case. */
  lemma NameIs(name: bytes)
    ensures Lower(name) == LOWER_NAME <==> Upper(name) == Ascii("CONTENT-LENGTH")
  {
    hide LowerByte, UpperByte;
    var upper := Ascii("CONTENT-LENGTH");
    NamesMatch();
    if |name| == 14 {
      forall i | 0 <= i < 14 ensures LowerByte(name[i]) == LOWER_NAME[i] <==> UpperByte(name[i]) == upper[i] {
        LetterCase(name[i], LOWER_NAME[i]);
      }
    }
    if Lower(name) == LOWER_NAME {
      assert forall i :: 0 <= i < 14 ==> LowerByte(name[i]) == Lower(name)[i];
      assert Upper(name) == upper;
    }
    if Upper(name) == upper {
      assert forall i :: 0 <= i < 14 ==> UpperByte(name[i]) == Upper(name)[i];
      assert Lower(name) == LOWER_NAME;
    }
  }

  lemma NamesMatch()
    ensures var upper := Ascii("CONTENT-LENGTH");
            |upper| == |LOWER_NAME| == 14 &&
            forall i :: 0 <= i < 14 ==>
              UpperByte(LOWER_NAME[i]) == upper[i] && LowerByte(LOWER_NAME[i]) == LOWER_NAME[i]
  {
  }

  lemma LetterCase(c: byte, d: byte)
    requires LowerByte(d) == d
    ensures LowerByte(c) == d <==> UpperByte(c) == UpperByte(d)
  {
  }

  lemma NameHasNoColon(name: bytes)
    requires Upper(name) == Ascii("CONTENT-LENGTH")
    ensures forall i :: 0 <= i < |name| ==> name[i] != 58 && name[i] != LF
  {
    var upper := Ascii("CONTENT-LENGTH");
    assert |name| == |upper|;
    forall i | 0 <= i < |name| ensures name[i] != 58 && name[i] != LF {
      assert Upper(name)[i] == UpperByte(name[i]) == upper[i];
    }
  }

  /** A line that gives a length is taken for that length. */
  lemma FieldRead(line: bytes, name: bytes, a: bytes, v: bytes, b: bytes)
    requires GivesLength(line, name, a, v, b)
    ensures LengthField(line) == Some(v)
  {
    hide Lower, Strip, IsWhite, IsStripped;
    NameHasNoColon(name);
    NameIs(name);
    var rest := a + v + b;
    assert line == name + [58] + rest;
    FindByteAfter(name, 58, rest);
    assert line[..|name|] == name && line[|name| + 1..] == rest;
    StripPadded(a, v, b);
  }

  /** Only such a line is. */
  lemma FieldForm(line: bytes) returns (name: bytes, a: bytes, b: bytes)
    requires LengthField(line).Some?
    ensures GivesLength(line, name, a, LengthField(line).value, b)
  {
    hide Lower, StripLeft, StripRight;
    name := line[..FindByte(line, 58)];
    var rest := line[|name| + 1..];
    NameIs(name);
    a := StripLeftForm(rest);
    b := StripRightForm(StripLeft(rest));
    var left, v := StripLeft(rest), Strip(rest);
    if v != [] { assert v[0] == left[0]; }
    assert line == name + [58] + rest;
    assert rest == a + v + b;
    assert line == name + [58] + a + v + b;
  }

  // ----------------------------------------------------------------- a header block

  /** A line of the block, without its line feed: not the empty line that ends it. */
  predicate IsHeaderLine(l: bytes) { LF !in l && l != [] && l != [CR] }

  predicate AreHeaderLines(ls: seq<bytes>) { forall i :: 0 <= i < |ls| ==> IsHeaderLine(ls[i]) }

  /** What comes before its first colon, if it has one, is another name. */
  predicate IsOther(l: bytes) {
    var colon := FindByte(l, 58);
    colon == |l| || Upper(l[..colon]) != Ascii("CONTENT-LENGTH")
  }

  function Block(ls: seq<bytes>): bytes { if ls == [] then [] else ls[0] + [LF] + Block(ls[1..]) }

  /** The two empty lines that end a block. */
  predicate IsEmptyLine(e: bytes) { e == [CR, LF] || e == [LF] }

  lemma OtherIsNone(l: bytes)
    requires IsOther(l) && LF !in l
    ensures LengthField(l + [LF]) == None
  {
    hide Lower, Strip, Upper;
    var line := l + [LF];
    var colon := FindByte(line, 58);
    assert colon < |l| ==> line[..colon] == l[..colon];
    assert FindByte(l, 58) == |l| ==> forall i :: 0 <= i < |l| ==> line[i] == l[i];
    if colon < |line| {
      assert line[colon] == 58;
      assert FindByte(l, 58) == colon;
      NameIs(line[..colon]);
    }
  }

  /** A header line is passed over, whatever else it is, unless it gives the length. */
  lemma LineRead(l: bytes, t: bytes, length: Option<bytes>)
    requires IsHeaderLine(l)
    ensures var f := LengthField(l + [LF]);
            ReadHead(l + [LF] + t, length) == ReadHead(t, if f.Some? then f else length)
  {
    hide LengthField;
    LineOf(l, t);
    NotBlank(l);
  }

  lemma NotBlank(l: bytes)
    requires l != [] && l != [CR]
    ensures !LspFraming.IsBlank(l + [LF])
  {
    assert (l + [LF])[..|l|] == l && |l + [LF]| > 1;
  }

  lemma EmptyLineRead(e: bytes, t: bytes, length: Option<bytes>)
    requires IsEmptyLine(e)
    ensures ReadHead(e + t, length) == Head(length, t)
  {
    var l := e[..|e| - 1];
    assert e + t == l + [LF] + t;
    LineOf(l, t);
  }

  lemma {:induction false} LinesRead(ls: seq<bytes>, t: bytes, length: Option<bytes>) returns (last: Option<bytes>)
    requires AreHeaderLines(ls)
    ensures ReadHead(Block(ls) + t, length) == ReadHead(t, last)
    ensures (forall i :: 0 <= i < |ls| ==> IsOther(ls[i])) ==> last == length
    decreases |ls|
  {
    hide LengthField, ReadHead, IsOther;
    if ls == [] {
      last := length;
      assert Block(ls) + t == t;
    } else {
      var more := Block(ls[1..]) + t;
      assert Block(ls) + t == ls[0] + [LF] + more;
      LineRead(ls[0], more, length);
      var f := LengthField(ls[0] + [LF]);
      if IsOther(ls[0]) { OtherIsNone(ls[0]); }
      last := LinesRead(ls[1..], t, if f.Some? then f else length);
    }
  }

  /** The last line that gives a length decides, whatever lines come before it and whatever other
      lines come after it. */
  lemma BlockRead(before: seq<bytes>, line: bytes, after: seq<bytes>, e: bytes, t: bytes, v: bytes)
    requires AreHeaderLines(before) && IsHeaderLine(line) && AreHeaderLines(after) && IsEmptyLine(e)
    requires exists name, a, b :: GivesLength(line + [LF], name, a, v, b)
    requires forall i :: 0 <= i < |after| ==> IsOther(after[i])
    ensures ReadHead(Block(before) + (line + [LF] + (Block(after) + (e + t))), None) == Head(Some(v), t)
  {
    hide LengthField, ReadHead, IsOther, IsHeaderLine, Block, GivesLength;
    var rest := Block(after) + (e + t);
    var earlier := LinesRead(before, line + [LF] + rest, None);
    var name, a, b :| GivesLength(line + [LF], name, a, v, b);
    FieldRead(line + [LF], name, a, v, b);
    LineRead(line, rest, earlier);
    var last := LinesRead(after, e + t, Some(v));
    EmptyLineRead(e, t, Some(v));
  }

  /** A message is read from any such block: the body it announces, or why there is none. */
  lemma MessageRead(json: Json, before: seq<bytes>, line: bytes, after: seq<bytes>, e: bytes, t: bytes, v: bytes)
    requires AreHeaderLines(before) && IsHeaderLine(line) && AreHeaderLines(after) && IsEmptyLine(e)
    requires exists name, a, b :: GivesLength(line + [LF], name, a, v, b)
    requires forall i :: 0 <= i < |after| ==> IsOther(after[i])
    ensures ReadMsg(json, Block(before) + (line + [LF] + (Block(after) + (e + t))))
            == match ParseLength(v)
               case None => BadLength
               case Some(n) => if 0 <= n <= |t| then Deliver(json, t[..n], t[n..]) else Truncated
  {
    hide ReadHead, ParseLength, IsOther, IsHeaderLine, Block, GivesLength;
    BlockRead(before, line, after, e, t, v);
  }

  /** Without a length there is no message, and neither is there without the empty line. */
  lemma NoMessage(json: Json, ls: seq<bytes>, e: bytes, t: bytes)
    requires AreHeaderLines(ls) && (forall i :: 0 <= i < |ls| ==> IsOther(ls[i]))
    ensures IsEmptyLine(e) ==> ReadMsg(json, Block(ls) + (e + t)) == Nothing
    ensures ReadMsg(json, Block(ls)) == Nothing
  {
    hide ParseLength, IsOther, IsHeaderLine, Block;
    var last := LinesRead(ls, e + t, None);
    if IsEmptyLine(e) { EmptyLineRead(e, t, None); }
    last := LinesRead(ls, [], None);
    assert Block(ls) + [] == Block(ls);
  }

  // ------------------------------------------------------------- what `int` accepts

  /** Groups of digits with an underscore between each two. */
  function Grouped(gs: seq<bytes>): bytes
    requires gs != []
  {
    if |gs| == 1 then gs[0] else Grouped(gs[..|gs| - 1]) + [95] + gs[|gs| - 1]
  }

  function Ungrouped(gs: seq<bytes>): bytes {
    if gs == [] then [] else Ungrouped(gs[..|gs| - 1]) + gs[|gs| - 1]
  }

  predicate IsDecimalText(s: bytes) { forall i :: 0 <= i < |s| ==> IsDecimal(s[i]) }

  predicate AreGroups(gs: seq<bytes>) {
    gs != [] && forall i :: 0 <= i < |gs| ==> gs[i] != [] && IsDecimalText(gs[i])
  }

  lemma {:induction false} UngroupedIsText(gs: seq<bytes>)
    requires forall i :: 0 <= i < |gs| ==> IsDecimalText(gs[i])
    ensures IsDecimalText(Ungrouped(gs))
  {
    if gs == [] {
    } else {
      UngroupedIsText(gs[..|gs| - 1]);
    }
  }

  lemma {:induction false} WithoutInParts(a: bytes, b: bytes)
    ensures WithoutUnderscores(a + b) == WithoutUnderscores(a) + WithoutUnderscores(b)
  {
    if b == [] {
      assert a + b == a;
    } else {
      var init := b[..|b| - 1];
      WithoutInParts(a, init);
      assert (a + b)[..|a + b| - 1] == a + init && (a + b)[|a + b| - 1] == b[|b| - 1];
    }
  }

  lemma OneGroup(g: bytes)
    requires g != [] && IsDecimalText(g)
    ensures IsNumeral(g) && WithoutUnderscores(g) == g
  {
    assert IsDecimal(g[0]) && IsDecimal(g[|g| - 1]);
    assert forall i :: 0 <= i < |g| ==> IsDecimal(g[i]) && IsDigit(g[i], 10);
    assert UNDERSCORE !in g;
  }

  lemma NumeralAfter(v: bytes, g: bytes, s: bytes)
    requires IsNumeral(v) && IsNumeral(g) && s == v + [95] + g
    ensures IsNumeral(s)
  {
    hide IsDigit;
    assert s[|s| - 1] == g[|g| - 1] && s[0] == v[0];
    assert forall i :: 0 <= i < |v| ==> s[i] == v[i];
    assert forall i :: 0 <= i < |g| ==> s[|v| + 1 + i] == g[i];
    forall i | 0 <= i < |s| ensures s[i] == UNDERSCORE || IsDigit(s[i], 10) {
      if i > |v| { assert s[i] == g[i - |v| - 1]; }
    }
    forall i | 0 <= i < |s| - 1 ensures s[i] != UNDERSCORE || s[i + 1] != UNDERSCORE {
      if i == |v| { assert s[i + 1] == g[0]; }
      if i > |v| { assert s[i] == g[i - |v| - 1] && s[i + 1] == g[i - |v|]; }
    }
  }

  lemma WithoutAfter(v: bytes, g: bytes)
    requires WithoutUnderscores(g) == g
    ensures WithoutUnderscores(v + [95] + g) == WithoutUnderscores(v) + g
  {
    hide WithoutUnderscores;
    WithoutInParts(v + [95], g);
    WithoutInParts(v, [95]);
    JustUnderscore();
    assert WithoutUnderscores(v) + [] == WithoutUnderscores(v);
  }

  lemma JustUnderscore()
    ensures WithoutUnderscores([95]) == []
  {
    assert [95][..0] == [];
  }

  lemma {:induction false} GroupsRead(gs: seq<bytes>)
    requires AreGroups(gs)
    ensures IsNumeral(Grouped(gs)) && WithoutUnderscores(Grouped(gs)) == Ungrouped(gs)
  {
    hide IsNumeral, IsDecimalText;
    if |gs| == 1 {
      OneGroup(gs[0]);
      assert Ungrouped(gs[..0]) + gs[0] == gs[0];
    } else {
      GroupsRead(gs[..|gs| - 1]);
      var v, g := Grouped(gs[..|gs| - 1]), gs[|gs| - 1];
      OneGroup(g);
      NumeralAfter(v, g, v + [95] + g);
      WithoutAfter(v, g);
    }
  }

  /** The last underscore. */
  function LastUnderscore(v: bytes): (k: nat)
    requires UNDERSCORE in v
    ensures k < |v| && v[k] == UNDERSCORE && forall i :: k < i < |v| ==> v[i] != UNDERSCORE
  {
    if v[|v| - 1] == UNDERSCORE then |v| - 1 else LastUnderscore(v[..|v| - 1])
  }

  lemma DigitsOnly(v: bytes, s: bytes, from: nat)
    requires from <= |v| && s == v[from..] && (forall i :: from <= i < |v| ==> v[i] != UNDERSCORE)
    requires forall i :: 0 <= i < |v| ==> v[i] == UNDERSCORE || IsDigit(v[i], 10)
    ensures IsDecimalText(s)
  {
    forall i | 0 <= i < |s| ensures IsDecimal(s[i]) { assert IsDigit(v[from + i], 10); }
  }

  lemma {:induction false} GroupsForm(v: bytes) returns (gs: seq<bytes>)
    requires IsNumeral(v)
    ensures AreGroups(gs) && Grouped(gs) == v
    decreases |v|
  {
    hide IsDecimalText, Grouped;
    if UNDERSCORE !in v {
      gs := [v];
      DigitsOnly(v, v, 0);
      assert Grouped(gs) == v by { OneGrouped(v); }
    } else {
      var k := LastUnderscore(v);
      assert 0 < k < |v| - 1;
      var init, last := v[..k], v[k + 1..];
      assert v[k - 1] != UNDERSCORE;
      gs := GroupsForm(init);
      DigitsOnly(v, last, k + 1);
      MoreGrouped(gs, last);
      assert v == init + [95] + last;
      gs := gs + [last];
    }
  }

  lemma OneGrouped(g: bytes)
    ensures Grouped([g]) == g
  {
  }

  lemma MoreGrouped(gs: seq<bytes>, g: bytes)
    requires gs != []
    ensures Grouped(gs + [g]) == Grouped(gs) + [95] + g
  {
    assert (gs + [g])[..|gs|] == gs;
  }

  /** A length is an optional sign and groups of digits; it denotes the number that the digits
      denote together, negative after a minus sign. */
  lemma LengthRead(gs: seq<bytes>)
    requires AreGroups(gs)
    ensures IsDecimalText(Ungrouped(gs))
    ensures var n := Decimal(Ungrouped(gs), 0);
            && ParseLength(Grouped(gs)) == Some(n) && ParseLength([43] + Grouped(gs)) == Some(n)
            && ParseLength([45] + Grouped(gs)) == Some(0 - n)
  {
    hide IsNumeral, Grouped, Ungrouped, WithoutUnderscores, Value, Decimal, ParseLength;
    UngroupedIsText(gs);
    GroupsRead(gs);
    DecimalIsValue(Ungrouped(gs));
    NumeralRead(Grouped(gs));
  }

  lemma NumeralRead(v: bytes)
    requires IsNumeral(v)
    ensures AllDigits(WithoutUnderscores(v), 10)
    ensures var n := Value(WithoutUnderscores(v), 10);
            ParseLength(v) == Some(n) && ParseLength([43] + v) == Some(n) && ParseLength([45] + v) == Some(0 - n)
  {
    hide Value, WithoutUnderscores, IsNumeral;
    NumeralStart(v);
    assert ([43] + v)[1..] == v && ([45] + v)[1..] == v;
  }

  lemma NumeralStart(v: bytes)
    requires IsNumeral(v)
    ensures v != [] && v[0] != 43 && v[0] != 45 && AllDigits(WithoutUnderscores(v), 10)
  {
  }

  /** Nothing else is a length. */
  lemma LengthForm(v: bytes) returns (sign: bytes, gs: seq<bytes>)
    requires ParseLength(v).Some?
    ensures AreGroups(gs) && v == sign + Grouped(gs) && (sign == [] || sign == [43] || sign == [45])
  {
    hide IsNumeral, AreGroups;
    if v != [] && (v[0] == PLUS || v[0] == MINUS) {
      gs := GroupsForm(v[1..]);
      sign := [v[0]];
    } else {
      gs := GroupsForm(v);
      sign := [];
    }
  }

  // ---------------------------------------------------------------- what is written

  lemma FramedText(body: bytes)
    ensures Framed(body) == Ascii("Content-Length: ") + Print(|body|, 10) + [13, 10, 13, 10] + body
  {
    hide Print, Ascii;
    NameText();
    TwoByTwo(NAME, [58, 32], Print(|body|, 10), CRLF, CRLF, body);
  }

  lemma TwoByTwo(a: bytes, b: bytes, c: bytes, d: bytes, e: bytes, f: bytes)
    ensures a + b + c + d + e + f == (a + b) + c + (d + e) + f
  {
  }

  lemma NameText()
    ensures Ascii("Content-Length: ") == NAME + [58, 32] && CRLF + CRLF == [13, 10, 13, 10]
  {
  }
}

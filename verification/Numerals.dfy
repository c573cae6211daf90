/**
 What numbers and names are as text, told without the conversions the program
 uses: decimal and hexadecimal digits, letter case, and the byte strings of ASCII
 text.
 */
module Numerals {
  import opened Bytes

  // ------------------------------------------------------------------ decimal text

  /** '0' to '9'. */
  predicate IsDecimal(c: byte) { 48 <= c <= 57 }

  function Digit(c: byte): nat
    requires IsDecimal(c)
  {
    c - 48
  }

  /** How many decimal digits `s` begins with. */
  function LeadingDigits(s: bytes): (k: nat)
    ensures k <= |s| && (forall i :: 0 <= i < k ==> IsDecimal(s[i])) && (k < |s| ==> !IsDecimal(s[k]))
  {
    if s == [] || !IsDecimal(s[0]) then 0 else 1 + LeadingDigits(s[1..])
  }

  /** The digits of `s` read from left to right, after those that `before` stands for. */
  function Decimal(s: bytes, before: nat): nat
    requires forall i :: 0 <= i < |s| ==> IsDecimal(s[i])
  {
    if s == [] then before else Decimal(s[1..], before * 10 + Digit(s[0]))
  }

  /** The number that the leading digits of `s` denote, if there are any. */
  function Denoted(s: bytes): Option<nat> {
    if LeadingDigits(s) == 0 then None else Some(Decimal(s[..LeadingDigits(s)], 0))
  }

  lemma {:induction false} DecimalSnoc(s: bytes, c: byte, before: nat)
    requires (forall i :: 0 <= i < |s| ==> IsDecimal(s[i])) && IsDecimal(c)
    ensures Decimal(s + [c], before) == Decimal(s, before) * 10 + Digit(c)
  {
    if s == [] {
      assert s + [c] == [c] && [c][1..] == [];
    } else {
      assert (s + [c])[1..] == s[1..] + [c];
      DecimalSnoc(s[1..], c, before * 10 + Digit(s[0]));
    }
  }

  lemma {:induction false} DecimalIsValue(s: bytes)
    requires forall i :: 0 <= i < |s| ==> IsDecimal(s[i])
    ensures AllDigits(s, 10) && Decimal(s, 0) == Value(s, 10)
  {
    if s == [] {
    } else {
      var init, last := s[..|s| - 1], s[|s| - 1];
      DecimalIsValue(init);
      DecimalSnoc(init, last, 0);
      assert s == init + [last];
    }
  }

  lemma LeadingDigitsIs(s: bytes, k: nat)
    requires k <= |s| && (forall i :: 0 <= i < k ==> IsDecimal(s[i])) && (k < |s| ==> !IsDecimal(s[k]))
    ensures LeadingDigits(s) == k
  {
  }

  /** `from_chars` reads the number that the leading digits denote, and no more. */
  lemma FromCharsReads(s: bytes)
    ensures FromChars(s, 10)
            == match Denoted(s)
               case None => NoDigits
               case Some(n) => if n < TWO64 then Number(n, LeadingDigits(s)) else OutOfRange
  {
    LeadingDigitsIs(s, DigitRun(s, 10));
    DecimalIsValue(s[..LeadingDigits(s)]);
  }

  /** A printed number denotes itself, whatever other than a digit follows. */
  lemma PrintedDenotes(n: nat, rest: bytes)
    requires rest == [] || !IsDecimal(rest[0])
    ensures Denoted(Print(n, 10) + rest) == Some(n)
  {
    var p := Print(n, 10);
    var s := p + rest;
    assert forall i :: 0 <= i < |p| ==> IsDigit(p[i], 10) && IsDecimal(s[i]);
    LeadingDigitsIs(s, |p|);
    assert s[..|p|] == p;
    DecimalIsValue(p);
    PrintValue(n, 10);
  }

  // -------------------------------------------------------------- hexadecimal text

  /** '0' to '9', 'A' to 'F' and 'a' to 'f'. */
  predicate IsHex(c: byte) { IsDecimal(c) || 65 <= c <= 70 || 97 <= c <= 102 }

  function HexDigit(c: byte): nat
    requires IsHex(c)
  {
    if IsDecimal(c) then Digit(c) else if c <= 70 then 10 + c - 65 else 10 + c - 97
  }

  function LeadingHex(s: bytes): (k: nat)
    ensures k <= |s| && (forall i :: 0 <= i < k ==> IsHex(s[i])) && (k < |s| ==> !IsHex(s[k]))
  {
    if s == [] || !IsHex(s[0]) then 0 else 1 + LeadingHex(s[1..])
  }

  function Hex(s: bytes, before: nat): nat
    requires forall i :: 0 <= i < |s| ==> IsHex(s[i])
  {
    if s == [] then before else Hex(s[1..], before * 16 + HexDigit(s[0]))
  }

  lemma HexDigitIs(c: byte)
    ensures IsHex(c) <==> IsDigit(c, 16)
    ensures IsHex(c) ==> HexDigit(c) == DigitValue(c)
  {
  }

  lemma {:induction false} HexSnoc(s: bytes, c: byte, before: nat)
    requires (forall i :: 0 <= i < |s| ==> IsHex(s[i])) && IsHex(c)
    ensures Hex(s + [c], before) == Hex(s, before) * 16 + HexDigit(c)
  {
    if s == [] {
      assert s + [c] == [c] && [c][1..] == [];
    } else {
      assert (s + [c])[1..] == s[1..] + [c];
      HexSnoc(s[1..], c, before * 16 + HexDigit(s[0]));
    }
  }

  lemma {:induction false} HexIsValue(s: bytes)
    requires forall i :: 0 <= i < |s| ==> IsHex(s[i])
    ensures AllDigits(s, 16) && Hex(s, 0) == Value(s, 16)
  {
    forall i | 0 <= i < |s| ensures IsDigit(s[i], 16) { HexDigitIs(s[i]); }
    if s == [] {
    } else {
      var init, last := s[..|s| - 1], s[|s| - 1];
      HexIsValue(init);
      HexSnoc(init, last, 0);
      HexDigitIs(last);
      assert s == init + [last];
    }
  }

  // ------------------------------------------------------------------- letter case

  function UpperByte(c: byte): byte { if 97 <= c <= 122 then c - 32 else c }

  function Upper(s: bytes): (r: bytes)
    ensures |r| == |s| && forall i :: 0 <= i < |s| ==> r[i] == UpperByte(s[i])
  {
    seq(|s|, i requires 0 <= i < |s| => UpperByte(s[i]))
  }

  // -------------------------------------------------------------------- ASCII text

  /** The bytes of ASCII text; anything else would be a question mark. */
  function Ascii(text: string): (s: bytes)
    ensures |s| == |text| && forall i :: 0 <= i < |text| && text[i] < 128 as char ==> s[i] == text[i] as int
  {
    seq(|text|, i requires 0 <= i < |text| => if text[i] < 128 as char then text[i] as int else 63)
  }

  // ------------------------------------------------------------------ printed numbers

  /** Printed digits are decimal, or lower-case letters from 'a' to 'f'. */
  lemma {:induction false} PrintIsLower(n: nat, base: nat)
    requires IsBase(base)
    ensures forall i :: 0 <= i < |Print(n, base)| ==>
              IsDecimal(Print(n, base)[i]) || (base == 16 && 97 <= Print(n, base)[i] <= 102)
  {
    if n >= base { PrintIsLower(n / base, base); }
  }
}

/**
 Byte strings and the standard-library text conversions every wire format of
 the program goes through: searching, and printing or parsing unsigned integers
 in base 10 and base 16.
 */
module Bytes {

  type byte = b: int | 0 <= b < 256
  type bytes = seq<byte>

  const CR: byte := 13
  const LF: byte := 10
  const CRLF: bytes := [13, 10]
  const CRLFCRLF: bytes := [13, 10, 13, 10]

  /** 2^32, the modulus of `uint32_t`. */
  const TWO32: nat := 0x1_0000_0000

  /** 2^64, the modulus of `uint64_t` and `size_t`. */
  const TWO64: nat := 0x1_0000_0000_0000_0000

  const TWO31: nat := 0x8000_0000

  /** The cast of a `size_t` to a 32-bit signed integer. */
  function AsInt32(n: nat): int { if n % TWO32 < TWO31 then n % TWO32 else n % TWO32 - TWO32 }

  lemma CastResult(n: nat)
    ensures n < TWO31 ==> AsInt32(n) == n
    ensures AsInt32(n) <= n && (n >= TWO31 ==> AsInt32(n) <= n - TWO32)
  {
  }

  datatype Option<+T> = None | Some(value: T)

  /** Wrapping before or after an addition makes no difference. */
  lemma WrapAdd(a: nat, b: nat)
    ensures (a % TWO64 + b) % TWO64 == (a + b) % TWO64
  {
  }

  /** The byte `b`, `n` times. */
  function Fill(b: byte, n: nat): (s: bytes)
    ensures |s| == n && forall i :: 0 <= i < n ==> s[i] == b
  {
    seq(n, _ => b)
  }

  /** `tolower` on an ASCII letter. */
  function LowerByte(c: byte): byte { if 65 <= c <= 90 then c + 32 else c }

  // ---------------------------------------------------------------- searching

  /** The index of the first `c` at or after `i`, or `|s|`. */
  function FindByteFrom(s: bytes, c: byte, i: nat): (r: nat)
    requires i <= |s|
    ensures i <= r <= |s|
    ensures forall j :: i <= j < r ==> s[j] != c
    ensures r < |s| ==> s[r] == c
    decreases |s| - i
  {
    if i == |s| || s[i] == c then i else FindByteFrom(s, c, i + 1)
  }

  /** `std::ranges::find`: the index of the first `c`, or `|s|`. */
  function FindByte(s: bytes, c: byte): (r: nat)
    ensures r <= |s|
    ensures forall j :: 0 <= j < r ==> s[j] != c
    ensures r < |s| ==> s[r] == c
  {
    FindByteFrom(s, c, 0)
  }

  /** `pat` occurs in `s` at index `i`. */
  predicate OccursAt(s: bytes, pat: bytes, i: int) {
    0 <= i && i + |pat| <= |s| && s[i..i + |pat|] == pat
  }

  /** An occurrence, byte by byte. */
  lemma OccursByte(s: bytes, pat: bytes, i: nat, k: nat)
    requires OccursAt(s, pat, i) && k < |pat|
    ensures s[i + k] == pat[k]
  {
    assert s[i..i + |pat|][k] == s[i + k];
  }

  lemma OccursFits(s: bytes, pat: bytes, i: nat)
    requires OccursAt(s, pat, i)
    ensures i + |pat| <= |s|
  {
  }

  /** `string_view::find(pat, from)`: the first occurrence at or after `from`. */
  function Find(s: bytes, pat: bytes, from: nat): (r: Option<nat>)
    ensures r.Some? ==> from <= r.value && OccursAt(s, pat, r.value)
    ensures r.Some? ==> forall j :: from <= j < r.value ==> !OccursAt(s, pat, j)
    ensures r.None? ==> forall j :: from <= j ==> !OccursAt(s, pat, j)
    decreases |s| - from
  {
    if OccursAt(s, pat, from) then Some(from)
    else if from >= |s| then None
    else Find(s, pat, from + 1)
  }

  /** The contract of `Find` determines its result. */
  lemma FindIs(s: bytes, pat: bytes, from: nat, i: nat)
    requires from <= i && OccursAt(s, pat, i)
    requires forall j :: from <= j < i ==> !OccursAt(s, pat, j)
    ensures Find(s, pat, from) == Some(i)
  {
  }

  /** Occurrences that lie inside a prefix are the occurrences of the prefix. */
  lemma OccursInPrefix(s: bytes, t: bytes, pat: bytes, i: nat)
    requires s <= t && i + |pat| <= |s|
    ensures OccursAt(s, pat, i) <==> OccursAt(t, pat, i)
  {
    assert s[i..i + |pat|] == t[i..i + |pat|];
  }

  /** Appending after, and dropping before, shifts occurrences. */
  lemma OccursShift(a: bytes, s: bytes, pat: bytes, i: nat)
    ensures OccursAt(a + s, pat, |a| + i) <==> OccursAt(s, pat, i)
  {
    if i + |pat| <= |s| {
      assert (a + s)[|a| + i..|a| + i + |pat|] == s[i..i + |pat|];
    }
  }

  /** What was found stays found when more follows. */
  lemma FindStays(s: bytes, t: bytes, pat: bytes, from: nat)
    requires Find(s, pat, from).Some?
    ensures Find(s + t, pat, from) == Find(s, pat, from)
  {
    var i := Find(s, pat, from).value;
    forall j | from <= j <= i ensures OccursAt(s + t, pat, j) <==> OccursAt(s, pat, j) {
      OccursInPrefix(s, s + t, pat, j);
    }
    FindIs(s + t, pat, from, i);
  }

  /** A line end that was not there before starts at the last old byte or later. */
  lemma FindAppendNone(s: bytes, t: bytes)
    requires Find(s, CRLF, 0).None? && Find(s + t, CRLF, 0).Some?
    ensures var i := Find(s + t, CRLF, 0).value;
            i >= |s| - 1 && (i == |s| - 1 ==> s[i] == CR && t != [] && t[0] == LF)
  {
    var i := Find(s + t, CRLF, 0).value;
    if i + 2 <= |s| { OccursInPrefix(s, s + t, CRLF, i); }
    assert (s + t)[i..i + 2] == CRLF;
    assert (s + t)[i] == CRLF[0] && (s + t)[i + 1] == CRLF[1];
  }

  /** Between the carriage return and the line feed of a line: the next byte can end it. */
  lemma FindAppendCut(s: bytes, t: bytes)
    requires Find(s, CRLF, 0).None? && s != [] && s[|s| - 1] == CR && t != [] && t[0] == LF
    ensures Find(s + t, CRLF, 0) == Some(|s| - 1)
  {
    var i := |s| - 1;
    assert (s + t)[i..i + 2] == CRLF;
    forall j | 0 <= j < i ensures !OccursAt(s + t, CRLF, j) { OccursInPrefix(s, s + t, CRLF, j); }
    FindIs(s + t, CRLF, 0, i);
  }

  /** A line: bytes without a line end among them. */
  predicate NoLineEndIn(line: bytes) { forall i :: 0 <= i < |line| ==> !OccursAt(line, CRLF, i) }

  /** A line ends where its line end is written. */
  lemma LineEndFound(line: bytes, rest: bytes)
    requires NoLineEndIn(line)
    ensures Find(line + CRLF + rest, CRLF, 0) == Some(|line|)
  {
    hide Find;
    var s := line + CRLF + rest;
    assert s[|line|..|line| + 2] == CRLF;
    forall j | 0 <= j < |line| ensures !OccursAt(s, CRLF, j) {
      if OccursAt(s, CRLF, j) {
        if j + 2 <= |line| {
          OccursInPrefix(line, s, CRLF, j);
        } else {
          OccursByte(s, CRLF, j, 1);
        }
      }
    }
    FindIs(s, CRLF, 0, |line|);
  }

  /** What comes before the first line end is a line. */
  lemma FoundLine(s: bytes, i: nat)
    requires Find(s, CRLF, 0) == Some(i)
    ensures i + 2 <= |s| && NoLineEndIn(s[..i]) && s == s[..i] + CRLF + s[i + 2..]
  {
    hide Find, OccursAt;
    OccursFits(s, CRLF, i);
    forall j | 0 <= j < i ensures !OccursAt(s[..i], CRLF, j) {
      if OccursAt(s[..i], CRLF, j) {
        OccursFits(s[..i], CRLF, j);
        OccursInPrefix(s[..i], s, CRLF, j);
      }
    }
    OccursSplits(s, CRLF, i);
  }

  lemma OccursSplits(s: bytes, pat: bytes, i: nat)
    requires OccursAt(s, pat, i)
    ensures i + |pat| <= |s| && s == s[..i] + pat + s[i + |pat|..]
  {
    assert s == s[..i] + s[i..i + |pat|] + s[i + |pat|..];
  }

  /** Searching from a position is searching the suffix. */
  lemma FindInSuffix(s: bytes, pat: bytes, from: nat)
    requires from <= |s|
    ensures match Find(s[from..], pat, 0)
            case None => Find(s, pat, from) == None
            case Some(i) => Find(s, pat, from) == Some(from + i)
  {
    assert s[..from] + s[from..] == s;
    forall i: nat ensures OccursAt(s, pat, from + i) <==> OccursAt(s[from..], pat, i) {
      OccursShift(s[..from], s[from..], pat, i);
    }
    var r := Find(s[from..], pat, 0);
    if r.Some? {
      forall j | from <= j < from + r.value ensures !OccursAt(s, pat, j) {
        assert !OccursAt(s[from..], pat, j - from);
      }
      FindIs(s, pat, from, from + r.value);
    } else {
      forall j | from <= j ensures !OccursAt(s, pat, j) { assert !OccursAt(s[from..], pat, j - from); }
    }
  }

  // ----------------------------------------------------------- radix printing

  /** The lower-case digit that `to_chars` and `std::format` write. */
  function DigitChar(d: nat): (c: byte)
    requires d < 16
  {
    if d < 10 then 48 + d else 87 + d
  }

  /** `hex_char_to_int`: the value of a digit character, -1 for anything else. */
  function DigitValue(c: byte): (d: int)
    ensures -1 <= d < 16
  {
    if 48 <= c <= 57 then c - 48
    else if 97 <= c <= 102 then c - 97 + 10
    else if 65 <= c <= 70 then c - 65 + 10
    else -1
  }

  predicate IsDigit(c: byte, base: nat) { 0 <= DigitValue(c) < base }

  predicate AllDigits(s: bytes, base: nat) {
    forall i :: 0 <= i < |s| ==> IsDigit(s[i], base)
  }

  predicate IsBase(base: nat) { base == 10 || base == 16 }

  /** `std::to_chars(n, base)`: no sign, no leading zero. */
  function Print(n: nat, base: nat): (s: bytes)
    requires IsBase(base)
    ensures s != [] && AllDigits(s, base)
    ensures |s| > 1 ==> s[0] != 48
  {
    if n < base then [DigitChar(n)]
    else Print(n / base, base) + [DigitChar(n % base)]
  }

  /** The number a digit string denotes. */
  function Value(s: bytes, base: nat): (v: nat)
    requires IsBase(base) && AllDigits(s, base)
  {
    if s == [] then 0
    else Value(s[..|s| - 1], base) * base + DigitValue(s[|s| - 1])
  }

  lemma {:induction false} PrintValue(n: nat, base: nat)
    requires IsBase(base)
    ensures Value(Print(n, base), base) == n
  {
    if n >= base {
      PrintValue(n / base, base);
      var s := Print(n, base);
      assert s[..|s| - 1] == Print(n / base, base);
    } else {
      assert Print(n, base)[..0] == [];
    }
  }

  /** `base` to the power `k`. */
  function Pow(base: nat, k: nat): (p: nat)
    requires base > 0
    ensures p > 0
  {
    if k == 0 then 1 else base * Pow(base, k - 1)
  }

  /** Printing takes at most `k` digits exactly when the number is below `base^k`. */
  lemma {:induction false} PrintLength(n: nat, base: nat, k: nat)
    requires IsBase(base) && k > 0
    ensures |Print(n, base)| <= k <==> n < Pow(base, k)
  {
    if k == 1 {
      assert Pow(base, 1) == base * Pow(base, 0) == base;
    } else if n < base {
      assert Pow(base, k) == base * Pow(base, k - 1);
    } else {
      PrintLength(n / base, base, k - 1);
      assert Pow(base, k) == base * Pow(base, k - 1);
      assert base == 10 || base == 16;
    }
  }

  /** Sixteen hexadecimal digits are 64 bits. */
  lemma SixteenDigits()
    ensures Pow(16, 16) == TWO64
  {
    assert Pow(16, 4) == 65536;
    assert Pow(16, 8) == 65536 * Pow(16, 4);
    assert Pow(16, 12) == 65536 * Pow(16, 8);
    assert Pow(16, 16) == 65536 * Pow(16, 12);
  }

  lemma PrintU64Fits(n: nat)
    requires n < TWO64
    ensures |Print(n, 10)| <= 20
    ensures |Print(n, 16)| <= 16
  {
    assert Pow(10, 20) == 100_000_000_000_000_000_000 by {
      assert Pow(10, 5) == 100_000;
      assert Pow(10, 10) == 100_000 * Pow(10, 5);
      assert Pow(10, 15) == 100_000 * Pow(10, 10);
      assert Pow(10, 20) == 100_000 * Pow(10, 15);
    }
    SixteenDigits();
    PrintLength(n, 10, 20);
    PrintLength(n, 16, 16);
  }

  // ------------------------------------------------------------ radix parsing

  /** The end of the run of digits that starts at `i`. */
  function DigitRunFrom(s: bytes, base: nat, i: nat): (k: nat)
    requires i <= |s|
    ensures i <= k <= |s|
    ensures forall j :: i <= j < k ==> IsDigit(s[j], base)
    ensures k < |s| ==> !IsDigit(s[k], base)
    decreases |s| - i
  {
    if i == |s| || !IsDigit(s[i], base) then i else DigitRunFrom(s, base, i + 1)
  }

  /** How many leading characters of `s` are digits. */
  function DigitRun(s: bytes, base: nat): (k: nat)
    ensures k <= |s|
    ensures forall i :: 0 <= i < k ==> IsDigit(s[i], base)
    ensures k < |s| ==> !IsDigit(s[k], base)
  {
    DigitRunFrom(s, base, 0)
  }

  /** `std::from_chars` into an unsigned 64-bit integer. */
  datatype Parsed =
    | Number(value: nat, length: nat)  // ec == errc{}, ptr - first == length
    | NoDigits                         // errc::invalid_argument
    | OutOfRange                       // errc::result_out_of_range

  function FromChars(s: bytes, base: nat): (r: Parsed)
    requires IsBase(base)
    ensures r.Number? ==> 0 < r.length <= |s| && r.value < TWO64
  {
    var k := DigitRun(s, base);
    if k == 0 then NoDigits
    else
      var v := Value(s[..k], base);
      if v < TWO64 then Number(v, k) else OutOfRange
  }

  /** Parsing undoes printing, whatever non-digit follows. */
  lemma ParsePrinted(n: nat, base: nat, rest: bytes)
    requires IsBase(base) && n < TWO64
    requires rest == [] || !IsDigit(rest[0], base)
    ensures FromChars(Print(n, base) + rest, base) == Number(n, |Print(n, base)|)
  {
    var p := Print(n, base);
    var s := p + rest;
    var k := DigitRun(s, base);
    assert s[..|p|] == p;
    PrintValue(n, base);
  }

  lemma PrintHasNo(n: nat, base: nat, c: byte)
    requires IsBase(base) && !IsDigit(c, base)
    ensures forall i :: 0 <= i < |Print(n, base)| ==> Print(n, base)[i] != c
  {
  }

  /** A digit string followed by a separator: the separator is found at its end. */
  lemma FindByteAfter(s: bytes, c: byte, rest: bytes)
    requires forall i :: 0 <= i < |s| ==> s[i] != c
    ensures FindByte(s + [c] + rest, c) == |s|
  {
    var t := s + [c] + rest;
    var r := FindByte(t, c);
    assert t[|s|] == c;
  }

  // ------------------------------------------------------- big-endian integers

  /** The low `k` bytes of `v`, most significant first. */
  function BigEndian(v: nat, k: nat): (s: bytes)
    ensures |s| == k
    decreases k
  {
    if k == 0 then [] else BigEndian(v / 256, k - 1) + [v % 256]
  }

  function FromBigEndian(s: bytes): nat {
    if s == [] then 0 else FromBigEndian(s[..|s| - 1]) * 256 + s[|s| - 1]
  }

  lemma {:induction false} BigEndianRoundTrip(v: nat, k: nat)
    requires v < Pow(256, k)
    ensures FromBigEndian(BigEndian(v, k)) == v
    decreases k
  {
    if k == 0 {
    } else {
      assert Pow(256, k) == 256 * Pow(256, k - 1);
      BigEndianRoundTrip(v / 256, k - 1);
      var s := BigEndian(v, k);
      assert s[..k - 1] == BigEndian(v / 256, k - 1);
    }
  }

  lemma {:induction false} BigEndianInverse(s: bytes)
    ensures BigEndian(FromBigEndian(s), |s|) == s
  {
    if s == [] {
    } else {
      var init, last := s[..|s| - 1], s[|s| - 1];
      BigEndianInverse(init);
      assert (FromBigEndian(init) * 256 + last) / 256 == FromBigEndian(init);
      assert s == init + [last];
    }
  }

  lemma {:induction false} FromBigEndianBound(s: bytes)
    ensures FromBigEndian(s) < Pow(256, |s|)
  {
    if s == [] {
    } else {
      FromBigEndianBound(s[..|s| - 1]);
      assert Pow(256, |s|) == 256 * Pow(256, |s| - 1);
    }
  }

  lemma Widths()
    ensures Pow(256, 2) == 65536 && Pow(256, 4) == TWO32 && Pow(256, 8) == TWO64
  {
    assert Pow(256, 2) == 256 * Pow(256, 1);
    assert Pow(256, 3) == 256 * Pow(256, 2);
    assert Pow(256, 4) == 256 * Pow(256, 3);
    assert Pow(256, 5) == 256 * Pow(256, 4);
    assert Pow(256, 6) == 256 * Pow(256, 5);
    assert Pow(256, 7) == 256 * Pow(256, 6);
    assert Pow(256, 8) == 256 * Pow(256, 7);
  }
}

/**
 String text: the two scans of parse_string, UTF-16 escapes to UTF-8, and the escaping of
 print_string_ptr. The second scan is never allowed more room than the first one counted.
 */
module JsonStrings {
  import opened Options
  import opened JsonTree

  // ----- UTF-8 (section 3 of RFC 3629) -----

  const MAX_CODE_POINT: nat := 0x10FFFF

  function Utf8(cp: nat): (bytes: seq<byte>)
    requires cp <= MAX_CODE_POINT
    ensures 1 <= |bytes| <= 4
    ensures cp < 0x10000 ==> |bytes| <= 3
  {
    if cp < 0x80 then [cp]
    else if cp < 0x800 then [0xC0 + cp / 0x40, 0x80 + cp % 0x40]
    else if cp < 0x10000 then
      [0xE0 + cp / 0x1000, 0x80 + cp / 0x40 % 0x40, 0x80 + cp % 0x40]
    else
      [0xF0 + cp / 0x4_0000, 0x80 + cp / 0x1000 % 0x40, 0x80 + cp / 0x40 % 0x40, 0x80 + cp % 0x40]
  }

  /** The number a UTF-8 sequence carries, read from its lead byte and its low six-bit groups. */
  function Utf8Value(bytes: seq<byte>): int
    requires 1 <= |bytes| <= 4
  {
    match |bytes|
    case 1 => bytes[0]
    case 2 => (bytes[0] as int - 0xC0) * 0x40 + Low(bytes[1])
    case 3 => (bytes[0] as int - 0xE0) * 0x1000 + Low(bytes[1]) * 0x40 + Low(bytes[2])
    case _ => (bytes[0] as int - 0xF0) * 0x4_0000 + Low(bytes[1]) * 0x1000 + Low(bytes[2]) * 0x40 + Low(bytes[3])
  }

  function Low(b: byte): int { b as int - 0x80 }

  /** Encoding loses nothing, and uses the fewest bytes that can carry the code point. */
  lemma Utf8IsShortestAndInvertible(cp: nat)
    requires cp <= MAX_CODE_POINT
    ensures Utf8Value(Utf8(cp)) == cp
    ensures |Utf8(cp)| == 1 <==> cp < 0x80
    ensures |Utf8(cp)| <= 2 <==> cp < 0x800
    ensures |Utf8(cp)| <= 3 <==> cp < 0x10000
    ensures forall k :: 0 < k < |Utf8(cp)| ==> 0x80 <= Utf8(cp)[k] < 0xC0
    ensures |Utf8(cp)| == 2 ==> 0xC2 <= Utf8(cp)[0] < 0xE0
    ensures |Utf8(cp)| == 3 ==> 0xE0 <= Utf8(cp)[0] < 0xF0
    ensures |Utf8(cp)| == 4 ==> 0xF0 <= Utf8(cp)[0] < 0xF5
  {
    SixBitGroups(cp);
  }

  /** The examples of section 7 of RFC 3629. */
  lemma Utf8Examples()
    ensures Utf8(0x41) == [0x41] && Utf8(0x391) == [0xCE, 0x91] && Utf8(0x2262) == [0xE2, 0x89, 0xA2]
    ensures Utf8(0xD55C) == [0xED, 0x95, 0x9C] && Utf8(0x65E5) == [0xE6, 0x97, 0xA5]
    ensures Utf8(0x233B4) == [0xF0, 0xA3, 0x8E, 0xB4] && Utf8(0xFEFF) == [0xEF, 0xBB, 0xBF]
  {
  }

  lemma SixBitGroups(cp: nat)
    ensures cp == cp / 0x40 * 0x40 + cp % 0x40
    ensures cp / 0x40 == cp / 0x1000 * 0x40 + cp / 0x40 % 0x40
    ensures cp / 0x1000 == cp / 0x4_0000 * 0x40 + cp / 0x1000 % 0x40
  {
  }

  // ----- four hexadecimal digits -----

  predicate IsHex(b: byte) {
    0x30 <= b <= 0x39 || 0x41 <= b <= 0x46 || 0x61 <= b <= 0x66
  }

  function HexDigit(b: byte): (v: nat)
    requires IsHex(b)
    ensures v < 16
  {
    if b <= 0x39 then b - 0x30 else if b <= 0x46 then b - 0x41 + 10 else b - 0x61 + 10
  }

  function HexValue(d: seq<byte>): (v: nat)
    requires |d| == 4 && forall k :: 0 <= k < 4 ==> IsHex(d[k])
    ensures v < 0x10000
  {
    HexDigit(d[0]) * 0x1000 + HexDigit(d[1]) * 0x100 + HexDigit(d[2]) * 0x10 + HexDigit(d[3])
  }

  /** parse_hex4: anything but four hexadecimal digits reads as 0. */
  function Hex4(s: seq<byte>, i: nat): (v: nat)
    requires i + 4 <= |s|
    ensures v < 0x10000
  {
    if IsHex(s[i]) && IsHex(s[i + 1]) && IsHex(s[i + 2]) && IsHex(s[i + 3])
    then HexValue(s[i..i + 4]) else 0
  }

  // ----- what the digits stand for -----

  const LOWER_HEX := Ascii("0123456789abcdef")
  const UPPER_HEX := Ascii("0123456789ABCDEF")

  predicate IsHexAlphabet(digits: seq<byte>) {
    digits == LOWER_HEX || digits == UPPER_HEX
  }

  /** Each digit is worth its place in the alphabet. */
  lemma HexDigitIsPlace(digits: seq<byte>, v: nat)
    requires IsHexAlphabet(digits) && v < 16
    ensures IsHex(digits[v]) && HexDigit(digits[v]) == v
  {
  }

  lemma HexDigitsAre(b: byte)
    ensures IsHex(b) <==> b in LOWER_HEX || b in UPPER_HEX
  {
    if IsHex(b) {
      assert b == if b < 0x61 then UPPER_HEX[HexDigit(b)] else LOWER_HEX[HexDigit(b)];
    }
  }

  /** Four digits of a number below 2^16, the most significant first. */
  function HexText(n: nat, digits: seq<byte>): (t: seq<byte>)
    requires n < 0x10000 && |digits| == 16
    ensures |t| == 4
  {
    [digits[n / 4096], digits[n / 256 % 16], digits[n / 16 % 16], digits[n % 16]]
  }

  lemma HexTextReads(n: nat, digits: seq<byte>)
    requires n < 0x10000 && IsHexAlphabet(digits)
    ensures IsHex4(HexText(n, digits)) && HexValue(HexText(n, digits)) == n
  {
    hide IsHex, HexDigit, IsHexAlphabet;
    HexDigitIsPlace(digits, n / 4096);
    HexDigitIsPlace(digits, n / 256 % 16);
    HexDigitIsPlace(digits, n / 16 % 16);
    HexDigitIsPlace(digits, n % 16);
    FourPlaces(n);
  }

  lemma FourPlaces(n: nat)
    ensures n == n / 16 * 16 + n % 16
    ensures n / 16 == n / 256 * 16 + n / 16 % 16
    ensures n / 256 == n / 4096 * 16 + n / 256 % 16
  {
  }

  // ----- the first scan -----

  /** Where the closing quote is, stepping over every escaped byte. */
  function ScanString(s: seq<byte>, i: nat): (end: Option<nat>)
    requires i <= |s|
    ensures end.Some? ==> i <= end.value < |s| && s[end.value] == QUOTE
    decreases |s| - i
  {
    if i == |s| then None
    else if s[i] == QUOTE then Some(i)
    else if s[i] == BACKSLASH then if i + 1 == |s| then None else ScanString(s, i + 2)
    else ScanString(s, i + 1)
  }

  /** How many bytes the first scan charges from `i` on: one for an escape, one for a plain byte. */
  function Charged(s: seq<byte>, i: nat): (n: nat)
    requires i <= |s| && ScanString(s, i).Some?
    ensures n <= ScanString(s, i).value - i
    decreases |s| - i
  {
    if s[i] == QUOTE then 0
    else if s[i] == BACKSLASH then 1 + Charged(s, i + 2)
    else 1 + Charged(s, i + 1)
  }

  // ----- the second scan -----

  datatype Step = Bad | Step(length: nat, bytes: seq<byte>)

  predicate IsHighSurrogate(code: nat) { 0xD800 <= code <= 0xDBFF }

  predicate IsLowSurrogate(code: nat) { 0xDC00 <= code <= 0xDFFF }

  /** utf16_literal_to_utf8 at the backslash `j`, with the closing quote at `end`. */
  function Utf16Literal(s: seq<byte>, j: nat, end: nat): (r: Step)
    requires j < end < |s|
    ensures r.Step? ==> j + r.length <= end && 0 < |r.bytes| && 2 * |r.bytes| <= r.length
    ensures r.Step? ==> r.length == 6 || r.length == 12
  {
    if end - j < 6 then Bad
    else
      var first := Hex4(s, j + 2);
      if IsLowSurrogate(first) then Bad
      else if IsHighSurrogate(first) then
        if end - j < 12 || s[j + 6] != BACKSLASH || s[j + 7] != LOWER_U then Bad
        else
          var second := Hex4(s, j + 8);
          if !IsLowSurrogate(second) then Bad
          else Step(12, Utf8(0x10000 + first % 0x400 * 0x400 + second % 0x400))
      else Step(6, Utf8(first))
  }

  /** The byte a two-character escape stands for. */
  function ShortEscape(b: byte): Option<byte> {
    if b == LOWER_B then Some(BACKSPACE)
    else if b == LOWER_F then Some(FORM_FEED)
    else if b == LOWER_N then Some(NEWLINE)
    else if b == LOWER_R then Some(CARRIAGE_RETURN)
    else if b == LOWER_T then Some(TAB)
    else if b == QUOTE || b == BACKSLASH || b == SLASH then Some(b)
    else None
  }

  function DecodeStep(s: seq<byte>, j: nat, end: nat): (r: Step)
    requires j < end < |s|
    ensures r.Step? ==> 0 < r.length && j + r.length <= end + 1
  {
    if s[j] != BACKSLASH then Step(1, [s[j]])
    else if s[j + 1] == LOWER_U then Utf16Literal(s, j, end)
    else match ShortEscape(s[j + 1])
         case None => Bad
         case Some(b) => Step(2, [b])
  }

  datatype Decoding = Decoded(bytes: seq<byte>) | BadEscape(at: nat)

  /** All of the second scan; an escape that swallows the closing quote ends it too. */
  function Unescape(s: seq<byte>, j: nat, end: nat): (r: Decoding)
    requires j <= end + 1 && end < |s|
    ensures r.BadEscape? ==> j <= r.at < end
    decreases end + 1 - j
  {
    if j >= end then Decoded([])
    else match DecodeStep(s, j, end)
         case Bad => BadEscape(j)
         case Step(length, bytes) =>
           match Unescape(s, j + length, end)
           case Decoded(rest) => Decoded(bytes + rest)
           case BadEscape(at) => BadEscape(at)
  }

  function ParseString(s: seq<byte>, off: nat): (r: Parse<seq<byte>>)
    requires off < |s|
    ensures r.Parsed? ==> off < r.next <= |s| && NUL !in r.value
    ensures r.Failed? ==> off < r.at <= |s|
  {
    if s[off] != QUOTE then Failed(off + 1)
    else match ScanString(s, off + 1)
         case None => Failed(off + 1)
         case Some(end) =>
           match Unescape(s, off + 1, end)
           case BadEscape(at) => Failed(at)
           case Decoded(bytes) => Parsed(CString(bytes), end + 1)
  }

  // ----- the second scan stays within what the first one charged -----

  /** The first scan stops at `j` (aligned) or inside an escape whose second byte is `j`. */
  ghost predicate InScan(s: seq<byte>, j: nat, end: nat, aligned: bool) {
    end < |s| &&
    if aligned then j <= end && ScanString(s, j) == Some(end)
    else j + 1 <= end && ScanString(s, j + 1) == Some(end)
  }

  ghost function Room(s: seq<byte>, j: nat, end: nat, aligned: bool): nat
    requires InScan(s, j, end, aligned)
  {
    if aligned then Charged(s, j) else 1 + Charged(s, j + 1)
  }

  /** Going on by one byte releases it, unless it starts an escape. */
  lemma OneOn(s: seq<byte>, j: nat, end: nat, aligned: bool)
    requires InScan(s, j, end, aligned) && j < end
    ensures var after := !aligned || s[j] != BACKSLASH;
            && InScan(s, j + 1, end, after)
            && Room(s, j + 1, end, after) + (if after then 1 else 0) == Room(s, j, end, aligned)
  {
  }

  /** Going on by `n` bytes releases at least half of them, wherever the first scan stood. */
  lemma {:induction false} Advance(s: seq<byte>, j: nat, end: nat, aligned: bool, n: nat) returns (after: bool)
    requires InScan(s, j, end, aligned) && j + n <= end
    ensures InScan(s, j + n, end, after)
    ensures 2 * Room(s, j + n, end, after) + n <= 2 * Room(s, j, end, aligned) + 1
    ensures !aligned ==> 2 * Room(s, j + n, end, after) + n <= 2 * Room(s, j, end, aligned)
    ensures n == 1 && s[j] != BACKSLASH ==> Room(s, j + n, end, after) + 1 <= Room(s, j, end, aligned)
    decreases n
  {
    hide ScanString, Charged, InScan, Room;
    after := aligned;
    if n > 0 {
      OneOn(s, j, end, aligned);
      after := Advance(s, j + 1, end, !aligned || s[j] != BACKSLASH, n - 1);
    }
  }

  /** Room left after the position `j` of the second scan, which may be one past the quote. */
  ghost predicate Fits(s: seq<byte>, j: nat, end: nat, written: nat, allowed: nat) {
    if j > end then written <= allowed
    else exists aligned :: InScan(s, j, end, aligned) && written + Room(s, j, end, aligned) <= allowed
  }

  /** A step yields one byte, or at most half as many bytes as it consumes. */
  lemma StepYield(s: seq<byte>, j: nat, end: nat)
    requires j < end < |s| && DecodeStep(s, j, end).Step?
    ensures var step := DecodeStep(s, j, end);
            if s[j] != BACKSLASH then step.length == |step.bytes| == 1
            else if j + step.length > end then j + 1 == end && |step.bytes| == 1
            else step.length > 1 && 2 * |step.bytes| <= step.length
  {
    hide Utf16Literal;
  }

  /** Only from inside an escape does a step of the second scan run over the quote. */
  lemma SwallowsQuote(s: seq<byte>, j: nat)
    requires j + 1 < |s| && s[j] == BACKSLASH
    ensures ScanString(s, j) != Some(j + 1)
  {
  }

  lemma StepFits(s: seq<byte>, j: nat, end: nat, written: nat, allowed: nat)
    requires j < end < |s| && Fits(s, j, end, written, allowed)
    requires DecodeStep(s, j, end).Step?
    ensures written + |DecodeStep(s, j, end).bytes| <= allowed
    ensures Fits(s, j + DecodeStep(s, j, end).length, end, written + |DecodeStep(s, j, end).bytes|, allowed)
  {
    hide DecodeStep, ScanString, Charged;
    var step := DecodeStep(s, j, end);
    StepYield(s, j, end);
    var aligned :| InScan(s, j, end, aligned) && written + Room(s, j, end, aligned) <= allowed;
    if j + step.length <= end {
      var after := Advance(s, j, end, aligned, step.length);
    } else {
      SwallowsQuote(s, j);
    }
  }

  /** Every accepted string needs no more than the charged bytes, in step or out of step. */
  lemma {:induction false} UnescapeFits(s: seq<byte>, j: nat, end: nat, written: nat, allowed: nat)
    requires j <= end + 1 && end < |s| && Fits(s, j, end, written, allowed)
    ensures Unescape(s, j, end).Decoded? ==> written + |Unescape(s, j, end).bytes| <= allowed
    decreases end + 1 - j
  {
    if j < end && DecodeStep(s, j, end).Step? {
      var step := DecodeStep(s, j, end);
      StepFits(s, j, end, written, allowed);
      UnescapeFits(s, j + step.length, end, written + |step.bytes|, allowed);
    }
  }

  /** The output block of parse_string is large enough for every accepted string, in or out of step. */
  lemma SecondScanFits(s: seq<byte>, start: nat)
    requires start <= |s| && ScanString(s, start).Some?
    ensures var end := ScanString(s, start).value;
            Unescape(s, start, end).Decoded? ==> |Unescape(s, start, end).bytes| <= Charged(s, start)
  {
    var end := ScanString(s, start).value;
    assert InScan(s, start, end, true);
    UnescapeFits(s, start, end, 0, Charged(s, start));
  }

  /** The scans can get out of step: here the second one takes the closing quote for an escaped one. */
  lemma ScansOutOfStep()
    ensures var s: seq<byte> := [BACKSLASH, LOWER_U, SPACE, SPACE, SPACE, BACKSLASH, BACKSLASH, QUOTE];
            ScanString(s, 0) == Some(7) && Unescape(s, 0, 7) == Decoded([NUL, QUOTE])
  {
    var s: seq<byte> := [BACKSLASH, LOWER_U, SPACE, SPACE, SPACE, BACKSLASH, BACKSLASH, QUOTE];
    assert ScanString(s, 0) == ScanString(s, 2) == ScanString(s, 3) == ScanString(s, 4) == ScanString(s, 5) == ScanString(s, 7);
    assert DecodeStep(s, 0, 7) == Step(6, [NUL]);
    assert Unescape(s, 6, 7) == Decoded([QUOTE] + []);
  }

  // ----- well-formed string bodies (section 7 of RFC 8259) -----

  /** One unit of a string body: a plain byte, a short escape, a code unit, a surrogate pair. */
  datatype Piece =
    | Plain(b: byte)
    | Short(letter: byte)
    | Unit(digits: seq<byte>)
    | Pair(high: seq<byte>, low: seq<byte>)

  predicate IsHex4(d: seq<byte>) {
    |d| == 4 && forall k :: 0 <= k < 4 ==> IsHex(d[k])
  }

  /** The escapes with a letter, and the bytes they stand for. */
  const ESCAPES: map<byte, byte> :=
    map[0x22 := 0x22, 0x5C := 0x5C, 0x2F := 0x2F, 0x62 := 0x08, 0x66 := 0x0C, 0x6E := 0x0A, 0x72 := 0x0D, 0x74 := 0x09]

  lemma ShortEscapeIs(letter: byte)
    ensures ShortEscape(letter) == if letter in ESCAPES then Some(ESCAPES[letter]) else None
  {
  }

  predicate WellFormed(p: Piece) {
    match p
    case Plain(b) => b != QUOTE && b != BACKSLASH
    case Short(letter) => letter in ESCAPES
    case Unit(d) => IsHex4(d) && !IsHighSurrogate(HexValue(d)) && !IsLowSurrogate(HexValue(d))
    case Pair(hi, lo) => IsHex4(hi) && IsHex4(lo) && IsHighSurrogate(HexValue(hi)) && IsLowSurrogate(HexValue(lo))
  }

  predicate WellFormedBody(ps: seq<Piece>) {
    ps == [] || (WellFormed(ps[0]) && WellFormedBody(ps[1..]))
  }

  function UnitText(digits: seq<byte>): (t: seq<byte>)
    ensures |t| == |digits| + 2
  {
    [BACKSLASH, LOWER_U] + digits
  }

  function PieceText(p: Piece): (t: seq<byte>)
    ensures |t| > 0
  {
    match p
    case Plain(b) => [b]
    case Short(letter) => [BACKSLASH, letter]
    case Unit(d) => UnitText(d)
    case Pair(hi, lo) => UnitText(hi) + UnitText(lo)
  }

  /** The bytes a piece stands for; a pair combines as in section 2.2 of RFC 2781. */
  function PieceMeaning(p: Piece): seq<byte>
    requires WellFormed(p)
  {
    match p
    case Plain(b) => [b]
    case Short(letter) => [ESCAPES[letter]]
    case Unit(d) => Utf8(HexValue(d))
    case Pair(hi, lo) => Utf8((HexValue(hi) - 0xD800) * 0x400 + (HexValue(lo) - 0xDC00) + 0x10000)
  }

  function BodyText(ps: seq<Piece>): seq<byte> {
    if ps == [] then [] else PieceText(ps[0]) + BodyText(ps[1..])
  }

  function BodyMeaning(ps: seq<Piece>): seq<byte>
    requires WellFormedBody(ps)
  {
    if ps == [] then [] else PieceMeaning(ps[0]) + BodyMeaning(ps[1..])
  }

  lemma Hex4Reads(s: seq<byte>, i: nat, d: seq<byte>)
    requires IsHex4(d) && At(s, i, d)
    ensures Hex4(s, i) == HexValue(d)
  {
  }

  lemma HexPlain(d: byte)
    requires IsHex(d)
    ensures d != QUOTE && d != BACKSLASH
  {
  }

  lemma {:induction false} ScanOverPlain(s: seq<byte>, i: nat, n: nat)
    requires i + n <= |s|
    requires forall k :: i <= k < i + n ==> s[k] != QUOTE && s[k] != BACKSLASH
    ensures ScanString(s, i) == ScanString(s, i + n)
    decreases n
  {
    if n > 0 { ScanOverPlain(s, i + 1, n - 1); }
  }

  lemma ScanOverUnit(s: seq<byte>, j: nat, d: seq<byte>)
    requires IsHex4(d) && At(s, j, UnitText(d))
    ensures s[j] == BACKSLASH && s[j + 1] == LOWER_U
    ensures At(s, j + 2, d)
    ensures ScanString(s, j) == ScanString(s, j + 6)
  {
    AtConcat(s, j, [BACKSLASH, LOWER_U], d);
    assert s[j] == [BACKSLASH, LOWER_U][0] && s[j + 1] == [BACKSLASH, LOWER_U][1];
    forall k | j + 2 <= k < j + 6 ensures s[k] != QUOTE && s[k] != BACKSLASH {
      assert s[k] == d[k - (j + 2)];
      HexPlain(s[k]);
    }
    ScanOverPlain(s, j + 2, 4);
  }

  lemma UnitDecodes(d: seq<byte>, s: seq<byte>, j: nat, end: nat)
    requires WellFormed(Unit(d)) && At(s, j, UnitText(d)) && j + 6 <= end < |s|
    ensures DecodeStep(s, j, end) == Step(6, Utf8(HexValue(d)))
    ensures ScanString(s, j) == ScanString(s, j + 6)
  {
    ScanOverUnit(s, j, d);
    Hex4Reads(s, j + 2, d);
  }

  lemma PairDecodes(hi: seq<byte>, lo: seq<byte>, s: seq<byte>, j: nat, end: nat)
    requires WellFormed(Pair(hi, lo)) && j + 12 <= end < |s|
    requires At(s, j, UnitText(hi)) && At(s, j + 6, UnitText(lo))
    ensures DecodeStep(s, j, end) == Step(12, PieceMeaning(Pair(hi, lo)))
    ensures ScanString(s, j) == ScanString(s, j + 12)
  {
    hide Hex4, HexValue, Utf8, UnitText, At, ScanString, IsHex;
    ScanOverUnit(s, j, hi);
    ScanOverUnit(s, j + 6, lo);
    Hex4Reads(s, j + 2, hi);
    Hex4Reads(s, j + 8, lo);
    LowTenBits(HexValue(hi), HexValue(lo));
  }

  /** Masking with 0x3FF takes the surrogate mark off. */
  lemma LowTenBits(high: nat, low: nat)
    requires IsHighSurrogate(high) && IsLowSurrogate(low)
    ensures high % 0x400 == high - 0xD800 && low % 0x400 == low - 0xDC00
  {
  }

  lemma ShortDecodes(p: Piece, s: seq<byte>, j: nat, end: nat)
    requires WellFormed(p) && (p.Plain? || p.Short?)
    requires At(s, j, PieceText(p)) && j + |PieceText(p)| <= end < |s|
    ensures DecodeStep(s, j, end) == Step(|PieceText(p)|, PieceMeaning(p))
    ensures ScanString(s, j) == ScanString(s, j + |PieceText(p)|)
  {
    hide ShortEscape;
    if p.Short? { ShortEscapeIs(p.letter); }
    var t := PieceText(p);
    assert s[j] == t[0] && (p.Short? ==> s[j + 1] == t[1]);
  }

  lemma PieceDecodes(p: Piece, s: seq<byte>, j: nat, end: nat)
    requires WellFormed(p) && At(s, j, PieceText(p))
    requires j + |PieceText(p)| <= end < |s|
    ensures DecodeStep(s, j, end) == Step(|PieceText(p)|, PieceMeaning(p))
    ensures ScanString(s, j) == ScanString(s, j + |PieceText(p)|)
  {
    hide DecodeStep, ScanString, Utf8, HexValue, UnitText, At;
    match p
    case Plain(b) =>
      ShortDecodes(p, s, j, end);
    case Short(letter) =>
      ShortDecodes(p, s, j, end);
    case Unit(d) =>
      UnitDecodes(d, s, j, end);
    case Pair(hi, lo) =>
      AtConcat(s, j, UnitText(hi), UnitText(lo));
      PairDecodes(hi, lo, s, j, end);
  }

  /** Both scans on a well-formed body: the first finds its end, the second its meaning. */
  lemma {:induction false} BodyDecodes(ps: seq<Piece>, s: seq<byte>, j: nat, end: nat)
    requires WellFormedBody(ps)
    requires At(s, j, BodyText(ps)) && j + |BodyText(ps)| == end < |s| && s[end] == QUOTE
    ensures ScanString(s, j) == Some(end)
    ensures Unescape(s, j, end) == Decoded(BodyMeaning(ps))
  {
    hide DecodeStep, PieceText, PieceMeaning, WellFormed, At;
    if ps != [] {
      AtConcat(s, j, PieceText(ps[0]), BodyText(ps[1..]));
      PieceDecodes(ps[0], s, j, end);
      BodyDecodes(ps[1..], s, j + |PieceText(ps[0])|, end);
    }
  }

  /** Every `\u` that the first scan steps over is followed by four hexadecimal digits. */
  predicate HexEscapes(s: seq<byte>, i: nat)
    requires i <= |s| && ScanString(s, i).Some?
    decreases |s| - i
  {
    if s[i] == QUOTE then true
    else if s[i] == BACKSLASH then
      (s[i + 1] == LOWER_U ==> i + 6 <= |s| && IsHex4(s[i + 2..i + 6])) && HexEscapes(s, i + 2)
    else HexEscapes(s, i + 1)
  }

  lemma {:induction false} HexEscapesOver(s: seq<byte>, i: nat, n: nat)
    requires i + n <= |s| && ScanString(s, i).Some? && HexEscapes(s, i)
    requires forall k :: i <= k < i + n ==> s[k] != QUOTE && s[k] != BACKSLASH
    ensures ScanString(s, i) == ScanString(s, i + n) && HexEscapes(s, i + n)
    decreases n
  {
    if n > 0 { HexEscapesOver(s, i + 1, n - 1); }
  }

  /** An escape unit in step: its digits are plain for the first scan, which goes on behind them. */
  lemma UnitInStep(s: seq<byte>, j: nat, end: nat)
    requires j < |s| && ScanString(s, j) == Some(end) && HexEscapes(s, j)
    requires s[j] == BACKSLASH && s[j + 1] == LOWER_U
    ensures j + 6 <= end && IsHex4(s[j + 2..j + 6]) && At(s, j, UnitText(s[j + 2..j + 6]))
    ensures Hex4(s, j + 2) == HexValue(s[j + 2..j + 6])
    ensures ScanString(s, j + 6) == Some(end) && HexEscapes(s, j + 6)
  {
    var d := s[j + 2..j + 6];
    forall k | j + 2 <= k < j + 6 ensures s[k] != QUOTE && s[k] != BACKSLASH {
      assert IsHex(d[k - (j + 2)]);
      HexPlain(s[k]);
    }
    HexEscapesOver(s, j + 2, 4);
    assert forall k :: 0 <= k < 6 ==> UnitText(d)[k] == s[j + k];
    Hex4Reads(s, j + 2, d);
  }

  /** The piece at `j` of a body whose escapes are in step and whose next escape is accepted. */
  lemma PieceAt(s: seq<byte>, j: nat, end: nat) returns (p: Piece)
    requires j < end && j <= |s| && ScanString(s, j) == Some(end) && HexEscapes(s, j)
    requires DecodeStep(s, j, end).Step?
    ensures WellFormed(p) && At(s, j, PieceText(p))
    ensures DecodeStep(s, j, end) == Step(|PieceText(p)|, PieceMeaning(p))
    ensures var next := j + |PieceText(p)|; next <= end && ScanString(s, next) == Some(end) && HexEscapes(s, next)
  {
    hide Hex4, HexValue, Utf8, UnitText;
    if s[j] != BACKSLASH {
      p := Plain(s[j]);
    } else if s[j + 1] != LOWER_U {
      ShortEscapeIs(s[j + 1]);
      p := Short(s[j + 1]);
    } else {
      UnitInStep(s, j, end);
      p := Unit(s[j + 2..j + 6]);
      if IsHighSurrogate(Hex4(s, j + 2)) {
        UnitInStep(s, j + 6, end);
        p := Pair(s[j + 2..j + 6], s[j + 8..j + 12]);
        PairStands(s, j, s[j + 2..j + 6], s[j + 8..j + 12]);
        PairDecodes(s[j + 2..j + 6], s[j + 8..j + 12], s, j, end);
      } else {
        UnitDecodes(s[j + 2..j + 6], s, j, end);
      }
    }
  }

  lemma PairStands(s: seq<byte>, j: nat, hi: seq<byte>, lo: seq<byte>)
    requires |hi| == 4 && At(s, j, UnitText(hi)) && At(s, j + 6, UnitText(lo))
    ensures At(s, j, UnitText(hi) + UnitText(lo))
  {
  }

  /** What the second scan accepts in step is well-formed, and decoded to its meaning. */
  lemma {:induction false} AcceptedIsWellFormed(s: seq<byte>, j: nat, end: nat) returns (ps: seq<Piece>)
    requires j <= end && j <= |s| && ScanString(s, j) == Some(end) && HexEscapes(s, j)
    requires Unescape(s, j, end).Decoded?
    ensures WellFormedBody(ps) && At(s, j, BodyText(ps)) && j + |BodyText(ps)| == end
    ensures Unescape(s, j, end) == Decoded(BodyMeaning(ps))
    decreases end - j
  {
    hide DecodeStep, PieceText, PieceMeaning, WellFormed, HexEscapes, At, ScanString;
    if j == end {
      ps := [];
      AtNothing(s, j);
    } else {
      var p := PieceAt(s, j, end);
      var rest := AcceptedIsWellFormed(s, j + |PieceText(p)|, end);
      ps := [p] + rest;
      assert ps[1..] == rest;
      AtJoin(s, j, PieceText(p), BodyText(rest));
    }
  }

  lemma AtNothing(s: seq<byte>, j: nat)
    requires j <= |s|
    ensures At(s, j, [])
  {
  }

  lemma AtJoin(s: seq<byte>, off: nat, a: seq<byte>, b: seq<byte>)
    requires At(s, off, a) && At(s, off + |a|, b)
    ensures At(s, off, a + b)
  {
  }

  /** Over a piece, every `\u` that the first scan steps over starts a unit with its four digits. */
  lemma PieceHexEscapes(p: Piece, s: seq<byte>, j: nat, end: nat)
    requires WellFormed(p) && At(s, j, PieceText(p)) && j + |PieceText(p)| <= end < |s|
    requires ScanString(s, j + |PieceText(p)|) == Some(end) && HexEscapes(s, j + |PieceText(p)|)
    ensures ScanString(s, j) == Some(end) && HexEscapes(s, j)
  {
    hide UnitText, HexValue, Utf8;
    PieceDecodes(p, s, j, end);
    match p
    case Plain(b) => assert s[j] == PieceText(p)[0];
    case Short(letter) => assert s[j] == PieceText(p)[0] && s[j + 1] == PieceText(p)[1];
    case Unit(d) => UnitHexEscapes(s, j, d);
    case Pair(hi, lo) =>
      AtConcat(s, j, UnitText(hi), UnitText(lo));
      ScanOverUnit(s, j + 6, lo);
      UnitHexEscapes(s, j + 6, lo);
      UnitHexEscapes(s, j, hi);
  }

  lemma UnitHexEscapes(s: seq<byte>, j: nat, d: seq<byte>)
    requires IsHex4(d) && At(s, j, UnitText(d)) && ScanString(s, j + 6).Some? && HexEscapes(s, j + 6)
    ensures ScanString(s, j) == ScanString(s, j + 6) && HexEscapes(s, j)
  {
    ScanOverUnit(s, j, d);
    assert s[j + 2..j + 6] == d;
    HexEscapesBefore(s, j + 2, 4);
  }

  lemma {:induction false} HexEscapesBefore(s: seq<byte>, i: nat, n: nat)
    requires i + n <= |s| && ScanString(s, i + n).Some? && HexEscapes(s, i + n)
    requires forall k :: i <= k < i + n ==> s[k] != QUOTE && s[k] != BACKSLASH
    ensures ScanString(s, i).Some? && HexEscapes(s, i)
    decreases n
  {
    if n > 0 { HexEscapesBefore(s, i + 1, n - 1); }
  }

  /** A well-formed body keeps the two scans in step. */
  lemma {:induction false} BodyHexEscapes(ps: seq<Piece>, s: seq<byte>, j: nat, end: nat)
    requires WellFormedBody(ps)
    requires At(s, j, BodyText(ps)) && j + |BodyText(ps)| == end < |s| && s[end] == QUOTE
    ensures ScanString(s, j) == Some(end) && HexEscapes(s, j)
  {
    hide PieceText, WellFormed, At;
    if ps != [] {
      AtConcat(s, j, PieceText(ps[0]), BodyText(ps[1..]));
      BodyHexEscapes(ps[1..], s, j + |PieceText(ps[0])|, end);
      PieceHexEscapes(ps[0], s, j, end);
    }
  }

  function PieceEscapes(p: Piece): nat {
    match p
    case Plain(_) => 0
    case Short(_) => 1
    case Unit(_) => 1
    case Pair(_, _) => 2
  }

  /** How many backslashes start an escape. */
  function Escapes(ps: seq<Piece>): nat {
    if ps == [] then 0 else PieceEscapes(ps[0]) + Escapes(ps[1..])
  }

  lemma {:induction false} ChargedOverPlain(s: seq<byte>, i: nat, n: nat)
    requires i + n <= |s| && ScanString(s, i + n).Some?
    requires forall k :: i <= k < i + n ==> s[k] != QUOTE && s[k] != BACKSLASH
    ensures ScanString(s, i) == ScanString(s, i + n) && Charged(s, i) == n + Charged(s, i + n)
    decreases n
  {
    if n > 0 { ChargedOverPlain(s, i + 1, n - 1); }
  }

  lemma UnitCharged(s: seq<byte>, j: nat, d: seq<byte>)
    requires IsHex4(d) && At(s, j, UnitText(d)) && ScanString(s, j + 6).Some?
    ensures ScanString(s, j) == ScanString(s, j + 6) && Charged(s, j) == 5 + Charged(s, j + 6)
  {
    ScanOverUnit(s, j, d);
    forall k | j + 2 <= k < j + 6 ensures s[k] != QUOTE && s[k] != BACKSLASH {
      assert s[k] == d[k - (j + 2)];
      HexPlain(s[k]);
    }
    ChargedOverPlain(s, j + 2, 4);
  }

  lemma PieceCharged(p: Piece, s: seq<byte>, j: nat, end: nat)
    requires WellFormed(p) && At(s, j, PieceText(p)) && j + |PieceText(p)| <= end < |s|
    requires ScanString(s, j + |PieceText(p)|) == Some(end)
    ensures ScanString(s, j) == Some(end)
    ensures Charged(s, j) == |PieceText(p)| - PieceEscapes(p) + Charged(s, j + |PieceText(p)|)
  {
    hide UnitText, HexValue, Utf8;
    match p
    case Plain(b) => assert s[j] == PieceText(p)[0];
    case Short(letter) => assert s[j] == PieceText(p)[0] && s[j + 1] == PieceText(p)[1];
    case Unit(d) => UnitCharged(s, j, d);
    case Pair(hi, lo) =>
      AtConcat(s, j, UnitText(hi), UnitText(lo));
      UnitCharged(s, j + 6, lo);
      UnitCharged(s, j, hi);
  }

  /** The first scan charges the length of a well-formed body without the backslashes of its escapes. */
  lemma {:induction false} BodyCharged(ps: seq<Piece>, s: seq<byte>, j: nat, end: nat)
    requires WellFormedBody(ps)
    requires At(s, j, BodyText(ps)) && j + |BodyText(ps)| == end < |s| && s[end] == QUOTE
    ensures ScanString(s, j) == Some(end) && Charged(s, j) == |BodyText(ps)| - Escapes(ps)
  {
    hide PieceText, PieceEscapes, WellFormed, At;
    if ps != [] {
      AtConcat(s, j, PieceText(ps[0]), BodyText(ps[1..]));
      BodyCharged(ps[1..], s, j + |PieceText(ps[0])|, end);
      PieceCharged(ps[0], s, j, end);
    }
  }

  /**
   What parse_string accepts, for every string that the first scan closes: a well-formed body stands
   there if and only if every escape it steps over has its four digits and the second scan accepts.
   So the ill-formed strings it accepts are the decoded ones with a `\u` that lacks its digits.
   */
  lemma AcceptsExactlyWellFormed(s: seq<byte>, j: nat, end: nat)
    requires j <= |s| && ScanString(s, j) == Some(end)
    ensures (exists ps :: WellFormedBody(ps) && At(s, j, BodyText(ps)) && j + |BodyText(ps)| == end)
       <==> HexEscapes(s, j) && Unescape(s, j, end).Decoded?
  {
    hide HexEscapes, Unescape, BodyMeaning;
    if HexEscapes(s, j) && Unescape(s, j, end).Decoded? {
      var ps := AcceptedIsWellFormed(s, j, end);
    }
    if ps :| WellFormedBody(ps) && At(s, j, BodyText(ps)) && j + |BodyText(ps)| == end {
      BodyDecodes(ps, s, j, end);
      BodyHexEscapes(ps, s, j, end);
    }
  }

  /** The escape of a code point, as section 7 of RFC 8259 writes it: beyond 16 bits, the pair of UTF-16. */
  function CodePointPiece(cp: nat, digits: seq<byte>): Piece
    requires cp <= MAX_CODE_POINT && |digits| == 16
  {
    if cp < 0x10000 then Unit(HexText(cp, digits))
    else Pair(HexText(0xD800 + (cp - 0x10000) / 0x400, digits), HexText(0xDC00 + (cp - 0x10000) % 0x400, digits))
  }

  /** Every code point's escape means its UTF-8 encoding, but for the lone surrogates, which have none. */
  lemma CodePointMeans(cp: nat, digits: seq<byte>)
    requires cp <= MAX_CODE_POINT && IsHexAlphabet(digits)
    ensures WellFormed(CodePointPiece(cp, digits)) <==> !(0xD800 <= cp <= 0xDFFF)
    ensures !(0xD800 <= cp <= 0xDFFF) ==> PieceMeaning(CodePointPiece(cp, digits)) == Utf8(cp)
  {
    hide IsHexAlphabet, HexText, HexValue, IsHex4, Utf8;
    if cp < 0x10000 {
      HexTextReads(cp, digits);
    } else {
      var rest := cp - 0x10000;
      assert rest == rest / 0x400 * 0x400 + rest % 0x400 && rest / 0x400 < 0x400;
      HexTextReads(0xD800 + rest / 0x400, digits);
      HexTextReads(0xDC00 + rest % 0x400, digits);
    }
  }

  /** A string of one escape with a letter is read as the byte the letter stands for, or refused. */
  lemma ReadsShortEscape(letter: byte, s: seq<byte>, off: nat)
    requires At(s, off, [0x22, 0x5C, letter, 0x22])
    ensures ParseString(s, off) == if letter in ESCAPES then Parsed([ESCAPES[letter]], off + 4) else Failed(off + 1)
  {
    hide ShortEscape, Utf8, Hex4;
    ShortEscapeIs(letter);
    QuoteAt(s, off, letter);
    assert ScanString(s, off + 1) == ScanString(s, off + 3) == Some(off + 3);
    assert letter in ESCAPES ==> Unescape(s, off + 3, off + 3) == Decoded([]);
  }

  lemma QuoteAt(s: seq<byte>, off: nat, letter: byte)
    requires At(s, off, [0x22, 0x5C, letter, 0x22])
    ensures s[off] == QUOTE && s[off + 1] == BACKSLASH && s[off + 2] == letter && s[off + 3] == QUOTE
  {
    var t := [0x22, 0x5C, letter, 0x22];
    assert t[0] == QUOTE && t[1] == BACKSLASH && t[2] == letter && t[3] == QUOTE;
  }

  lemma QuotedParts(s: seq<byte>, off: nat, body: seq<byte>)
    requires At(s, off, [QUOTE] + body + [QUOTE])
    ensures s[off] == QUOTE && At(s, off + 1, body) && s[off + 1 + |body|] == QUOTE
  {
    var t := [QUOTE] + body + [QUOTE];
    assert t[0] == QUOTE && t[1 + |body|] == QUOTE;
    assert forall k :: 0 <= k < |body| ==> t[1 + k] == body[k];
  }

  /** parse_string on a quoted well-formed body: the C string of its meaning. */
  lemma StringDecodes(ps: seq<Piece>, s: seq<byte>, off: nat)
    requires WellFormedBody(ps)
    requires At(s, off, [QUOTE] + BodyText(ps) + [QUOTE])
    ensures ParseString(s, off) == Parsed(CString(BodyMeaning(ps)), off + |BodyText(ps)| + 2)
  {
    hide BodyText, BodyMeaning, ScanString, Unescape, WellFormed, CString;
    var body := BodyText(ps);
    var end := off + 1 + |body|;
    QuotedParts(s, off, body);
    assert At(s, off + 1, BodyText(ps)) && s[end] == QUOTE;
    BodyDecodes(ps, s, off + 1, end);
  }

  // ----- escaping for print -----

  function HexLetter(v: nat): (b: byte)
    requires v < 16
    ensures IsHex(b) && HexDigit(b) == v
  {
    if v < 10 then 0x30 + v else 0x61 + (v - 10)
  }

  /** The letter after the backslash for the seven bytes with a short escape. */
  function EscapeLetter(b: byte): Option<byte> {
    if b == QUOTE || b == BACKSLASH then Some(b)
    else if b == BACKSPACE then Some(LOWER_B)
    else if b == FORM_FEED then Some(LOWER_F)
    else if b == NEWLINE then Some(LOWER_N)
    else if b == CARRIAGE_RETURN then Some(LOWER_R)
    else if b == TAB then Some(LOWER_T)
    else None
  }

  function EscapeByte(b: byte): (t: seq<byte>)
    ensures 0 < |t| <= 6
  {
    match EscapeLetter(b)
    case Some(letter) => [BACKSLASH, letter]
    case None =>
      if b < 32 then [BACKSLASH, LOWER_U, ZERO, ZERO, HexLetter(b / 16), HexLetter(b % 16)]
      else [b]
  }

  function Escape(text: seq<byte>): (t: seq<byte>)
    ensures |t| >= |text|
  {
    if text == [] then [] else EscapeByte(text[0]) + Escape(text[1..])
  }

  function Quoted(text: seq<byte>): seq<byte> {
    [QUOTE] + Escape(text) + [QUOTE]
  }

  /** The bytes printed with an escape letter, and the letters. */
  const PRINTED: map<byte, byte> :=
    map[0x22 := 0x22, 0x5C := 0x5C, 0x08 := 0x62, 0x0C := 0x66, 0x0A := 0x6E, 0x0D := 0x72, 0x09 := 0x74]

  /** What stands for a byte in a printed string. */
  function PrintedByte(b: byte): seq<byte> {
    if b in PRINTED then [0x5C, PRINTED[b]]
    else if b < 0x20 then [0x5C, 0x75, 0x30, 0x30, LOWER_HEX[b / 16], LOWER_HEX[b % 16]]
    else [b]
  }

  lemma EscapeLetterIs(b: byte)
    ensures EscapeLetter(b) == if b in PRINTED then Some(PRINTED[b]) else None
    ensures b in PRINTED ==> PRINTED[b] in ESCAPES && ESCAPES[PRINTED[b]] == b
  {
  }

  lemma HexLetterIs(v: nat)
    requires v < 16
    ensures HexLetter(v) == LOWER_HEX[v]
  {
  }

  lemma EscapeByteIs(b: byte)
    ensures EscapeByte(b) == PrintedByte(b)
  {
    hide EscapeLetter, HexLetter;
    EscapeLetterIs(b);
    if b < 0x20 {
      HexLetterIs(b / 16);
      HexLetterIs(b % 16);
    }
  }

  lemma {:induction false} EscapeConcat(a: seq<byte>, b: seq<byte>)
    ensures Escape(a + b) == Escape(a) + Escape(b)
  {
    hide EscapeByte;
    if a == [] {
      assert a + b == b;
    } else {
      assert (a + b)[1..] == a[1..] + b;
      EscapeConcat(a[1..], b);
    }
  }

  /** What is printed for a byte of a string, wherever it stands in it. */
  lemma PrintedAs(before: seq<byte>, b: byte, after: seq<byte>)
    ensures Quoted(before + [b] + after) == [0x22] + Escape(before) + PrintedByte(b) + Escape(after) + [0x22]
  {
    hide Escape, PrintedByte;
    EscapeOne(b);
    EscapeConcat(before + [b], after);
    EscapeConcat(before, [b]);
  }

  lemma EscapeOne(b: byte)
    ensures Escape([b]) == PrintedByte(b)
  {
    hide EscapeByte, PrintedByte;
    EscapeByteIs(b);
    assert Escape([b]) == EscapeByte(b) + Escape([]);
  }

  function PieceOf(b: byte): Piece {
    match EscapeLetter(b)
    case Some(letter) => Short(letter)
    case None =>
      if b < 32 then Unit([ZERO, ZERO, HexLetter(b / 16), HexLetter(b % 16)]) else Plain(b)
  }

  function PiecesOf(text: seq<byte>): seq<Piece> {
    if text == [] then [] else [PieceOf(text[0])] + PiecesOf(text[1..])
  }

  lemma EscapedByteMeans(b: byte)
    ensures WellFormed(PieceOf(b))
    ensures PieceText(PieceOf(b)) == EscapeByte(b)
    ensures PieceMeaning(PieceOf(b)) == [b]
  {
    hide EscapeLetter;
    EscapeLetterIs(b);
  }

  lemma {:induction false} EscapedTextMeans(text: seq<byte>)
    ensures WellFormedBody(PiecesOf(text))
    ensures BodyText(PiecesOf(text)) == Escape(text)
    ensures BodyMeaning(PiecesOf(text)) == text
  {
    hide PieceOf, PieceText, PieceMeaning, EscapeByte, WellFormed;
    if text != [] {
      var ps := PiecesOf(text);
      assert ps[0] == PieceOf(text[0]) && ps[1..] == PiecesOf(text[1..]);
      EscapedByteMeans(text[0]);
      EscapedTextMeans(text[1..]);
    }
  }

  /** parse_string undoes print_string_ptr, on every NUL-free text and in any surroundings. */
  lemma QuotedRoundTrip(text: seq<byte>, s: seq<byte>, off: nat)
    requires NUL !in text && At(s, off, Quoted(text))
    ensures ParseString(s, off) == Parsed(text, off + |Quoted(text)|)
  {
    EscapedTextMeans(text);
    CStringOfNulFree(text);
    StringDecodes(PiecesOf(text), s, off);
  }
}

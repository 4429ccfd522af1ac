/**
 JSON texts as RFC 8259 describes them, with every spelling of blanks, strings and numbers, and
 the proof that the parser reads each of them as the tree it means.
 */
module JsonGrammar {
  import opened Options
  import opened JsonTree
  import opened JsonNumbers
  import opened JsonStrings
  import opened JsonParser

  // ----- numbers (section 6 of RFC 8259) -----

  datatype Exponent = Exponent(letter: byte, sign: Option<byte>, digits: seq<byte>)

  datatype NumberSyntax =
    NumberSyntax(negative: bool, whole: seq<byte>, fraction: Option<seq<byte>>, exponent: Option<Exponent>)

  predicate OnlyDigits(t: seq<byte>) {
    forall k :: 0 <= k < |t| ==> IsDigit(t[k])
  }

  predicate AllDigits(t: seq<byte>) {
    t != [] && OnlyDigits(t)
  }

  predicate WellFormedExponent(e: Exponent) {
    (e.letter == LOWER_E || e.letter == UPPER_E) && AllDigits(e.digits)
    && (e.sign == None || e.sign == Some(PLUS) || e.sign == Some(MINUS))
  }

  predicate WellFormedNumber(n: NumberSyntax) {
    AllDigits(n.whole)
    && (n.fraction.Some? ==> AllDigits(n.fraction.value))
    && (n.exponent.Some? ==> WellFormedExponent(n.exponent.value))
  }

  /** What strtod takes for a number: on one side of the point the digits may be missing. */
  predicate LooseNumber(n: NumberSyntax) {
    OnlyDigits(n.whole) && OnlyDigits(FractionDigits(n.fraction)) && |n.whole| + |FractionDigits(n.fraction)| > 0
    && (n.exponent.Some? ==> WellFormedExponent(n.exponent.value))
  }

  function SignText(negative: bool): seq<byte> {
    if negative then [MINUS] else []
  }

  function FractionText(f: Option<seq<byte>>): seq<byte> {
    match f
    case None => []
    case Some(digits) => [POINT] + digits
  }

  function ExponentText(e: Option<Exponent>): seq<byte> {
    match e
    case None => []
    case Some(x) => [x.letter] + (match x.sign case None => [] case Some(b) => [b]) + x.digits
  }

  function NumberText(n: NumberSyntax): seq<byte> {
    SignText(n.negative) + n.whole + FractionText(n.fraction) + ExponentText(n.exponent)
  }

  function FractionDigits(f: Option<seq<byte>>): seq<byte> {
    match f case None => [] case Some(digits) => digits
  }

  function ExponentValue(e: Option<Exponent>): int
    requires e.Some? ==> WellFormedExponent(e.value)
  {
    match e
    case None => 0
    case Some(x) =>
      if x.sign == Some(MINUS) then -PlaceValue(x.digits) else PlaceValue(x.digits)
  }

  /** The digits behind the point: tenths, hundredths and so on. */
  function FractionValue(digits: seq<byte>): real
    requires OnlyDigits(digits)
  {
    if digits == [] then 0.0 else ((digits[0] - 0x30) as real + FractionValue(digits[1..])) / 10.0
  }

  /** The decimal value: the whole part and the fraction, times the power of ten. */
  function NumberMeaning(n: NumberSyntax): real
    requires LooseNumber(n)
  {
    var v := (PlaceValue(n.whole) as real + FractionValue(FractionDigits(n.fraction))) * TenPower(ExponentValue(n.exponent));
    if n.negative then -v else v
  }

  /** Place values are one natural number, scaled down by the digits behind the point, as strtod computes it. */
  lemma {:induction false} ScaledDigits(whole: seq<byte>, fraction: seq<byte>, e: int)
    requires OnlyDigits(whole) && OnlyDigits(fraction)
    ensures OnlyDigits(whole + fraction)
    ensures Scale10(NatOf(whole + fraction) as real, e - |fraction|)
         == (PlaceValue(whole) as real + FractionValue(fraction)) * TenPower(e)
  {
    hide NatOf, PlaceValue, FractionValue, Scale10, TenTo, TenPower, IsDigit, IsOver;
    NatOfIs(whole + fraction);
    PlaceValueConcat(whole, fraction);
    FractionScaled(fraction);
    var v := PlaceValue(whole) as real + FractionValue(fraction);
    Regroup(PlaceValue(whole), TenTo(|fraction|), FractionValue(fraction), PlaceValue(fraction));
    ScaledBack(v, NatOf(whole + fraction) as real, |fraction|, e);
  }

  lemma Regroup(whole: int, t: nat, fraction: real, digits: int)
    requires IsOver(fraction, t, digits)
    ensures (whole * t + digits) as real == (whole as real + fraction) * t as real
  {
    assert (whole * t) as real == whole as real * t as real;
  }

  /** The fraction is the number `digits` over the power of ten. */
  ghost predicate IsOver(fraction: real, power: nat, digits: int) {
    fraction * power as real == digits as real
  }

  lemma {:induction false} FractionScaled(fraction: seq<byte>)
    requires OnlyDigits(fraction)
    ensures IsOver(FractionValue(fraction), TenTo(|fraction|), PlaceValue(fraction))
  {
    hide FractionValue, TenTo, PlaceValue, IsDigit, IsOver;
    if fraction == [] {
      NoFraction();
    } else {
      var rest := fraction[1..];
      FractionParts(fraction);
      FractionScaled(rest);
      OneTenth(fraction[0] as int - 0x30, FractionValue(rest), TenTo(|rest|), PlaceValue(rest),
               FractionValue(fraction), TenTo(|fraction|), PlaceValue(fraction));
    }
  }

  lemma NoFraction()
    ensures IsOver(FractionValue([]), TenTo(0), PlaceValue([]))
  {
  }

  lemma FractionParts(fraction: seq<byte>)
    requires OnlyDigits(fraction) && fraction != []
    ensures OnlyDigits(fraction[1..])
    ensures FractionValue(fraction) == ((fraction[0] as int - 0x30) as real + FractionValue(fraction[1..])) / 10.0
    ensures TenTo(|fraction|) == 10 * TenTo(|fraction[1..]|)
    ensures PlaceValue(fraction) == (fraction[0] as int - 0x30) * TenTo(|fraction[1..]|) + PlaceValue(fraction[1..])
  {
  }

  /** One more digit in front of the fraction r, which is `rest` over t. */
  lemma OneTenth(d: int, r: real, t: nat, rest: int, fraction: real, power: nat, digits: int)
    requires IsOver(r, t, rest)
    requires fraction == (d as real + r) / 10.0 && power == 10 * t && digits == d * t + rest
    ensures IsOver(fraction, power, digits)
  {
    assert fraction * power as real == (d as real + r) * t as real;
    assert (d * t) as real == d as real * t as real;
  }

  /** Undoing k powers of ten. */
  lemma {:induction false} ScaledBack(v: real, scaled: real, k: nat, e: int)
    requires scaled == v * TenTo(k) as real
    ensures Scale10(scaled, e - k) == v * TenPower(e)
    decreases k
  {
    hide Scale10;
    if k == 0 {
      assert scaled == v;
      Scaled(v, e);
    } else {
      var less := v * TenTo(k - 1) as real;
      ScaledBack(v, less, k - 1, e);
      OneDown(less, e - k + 1);
      Reorder(v, TenTo(k - 1));
      TenTimes(less, scaled, e - k);
    }
  }

  lemma Reorder(v: real, u: nat)
    ensures v * (10 * u) as real == v * u as real * 10.0
  {
  }

  lemma TenTimes(v: real, scaled: real, e: int)
    requires scaled == v * 10.0
    ensures Scale10(scaled, e) == Scale10(v, e) * 10.0
  {
  }

  /** A run of digits is found as a whole. */
  lemma DigitsRead(t: seq<byte>, i: nat, digits: seq<byte>)
    requires OnlyDigits(digits) && At(t, i, digits)
    requires i + |digits| < |t| ==> !IsDigit(t[i + |digits|])
    ensures DigitsEnd(t, i) == i + |digits| && t[i..i + |digits|] == digits
  {
    hide IsDigit, DigitsEnd;
    forall k | i <= k < i + |digits| ensures IsDigit(t[k]) {
      assert t[k] == digits[k - i];
    }
    DigitsEndIs(t, i, i + |digits|);
  }

  lemma ExponentReads(t: seq<byte>, i: nat, e: Option<Exponent>)
    requires e.Some? ==> WellFormedExponent(e.value)
    requires At(t, i, ExponentText(e)) && i + |ExponentText(e)| == |t|
    ensures ReadExponent(t, i) == (ExponentValue(e), |t|)
    ensures i < |t| ==> !IsDigit(t[i]) && t[i] != POINT && t[i] != PLUS && t[i] != MINUS
  {
    hide At, ReadExponent, NatOf, DigitsEnd, AllDigits, ExponentText, ExponentValue;
    if e.Some? {
      ExponentParts(t, i, e.value);
      ExponentOfParts(t, i, e.value);
    } else {
      NoExponent(t);
    }
  }

  lemma NoExponent(t: seq<byte>)
    ensures ExponentText(None) == [] && ReadExponent(t, |t|) == (ExponentValue(None), |t|)
  {
  }

  lemma ExponentParts(t: seq<byte>, i: nat, x: Exponent)
    requires WellFormedExponent(x) && At(t, i, ExponentText(Some(x))) && i + |ExponentText(Some(x))| == |t|
    ensures i + 1 < |t| && t[i] == x.letter && (t[i + 1] == MINUS <==> x.sign == Some(MINUS))
    ensures var start := SignEnd(t, i + 1); start < |t| == DigitsEnd(t, start) && t[start..] == x.digits
  {
    hide At, DigitsEnd, OnlyDigits;
    var sign: seq<byte> := match x.sign case None => [] case Some(b) => [b];
    AtConcat(t, i, [x.letter] + sign, x.digits);
    AtConcat(t, i, [x.letter], sign);
    AtFirst(t, i, [x.letter]);
    if x.sign.Some? { AtFirst(t, i + 1, [x.sign.value]); }
    DigitsRead(t, i + 1 + |sign|, x.digits);
  }

  lemma ExponentOfParts(t: seq<byte>, i: nat, x: Exponent)
    requires WellFormedExponent(x) && i + 1 < |t| && t[i] == x.letter && (t[i + 1] == MINUS <==> x.sign == Some(MINUS))
    requires var start := SignEnd(t, i + 1); start < |t| == DigitsEnd(t, start) && t[start..] == x.digits
    ensures ReadExponent(t, i) == (ExponentValue(Some(x)), |t|)
  {
    hide NatOf, PlaceValue, DigitsEnd, SignEnd;
    var start := SignEnd(t, i + 1);
    assert t[start..|t|] == t[start..];
    NatOfIs(x.digits);
  }

  lemma AtFirst(t: seq<byte>, i: nat, u: seq<byte>)
    requires At(t, i, u) && u != []
    ensures i < |t| && t[i] == u[0]
  {
  }

  lemma FractionReads(t: seq<byte>, i: nat, f: Option<seq<byte>>)
    requires OnlyDigits(FractionDigits(f))
    requires At(t, i, FractionText(f))
    requires var end := i + |FractionText(f)|;
             end < |t| ==> !IsDigit(t[end]) && t[end] != POINT && t[end] != PLUS && t[end] != MINUS
    ensures i < |t| ==> !IsDigit(t[i]) && t[i] != PLUS && t[i] != MINUS
    ensures (i < |t| && t[i] == POINT) <==> f.Some?
    ensures f.Some? ==> DigitsEnd(t, i + 1) == i + |FractionText(f)| && t[i + 1..i + |FractionText(f)|] == f.value
  {
    hide At, DigitsEnd, OnlyDigits;
    if f.Some? {
      AtConcat(t, i, [POINT], f.value);
      AtFirst(t, i, [POINT]);
      DigitsRead(t, i + 1, f.value);
    }
  }

  /** The four parts of a number text where they stand. */
  lemma NumberParts(n: NumberSyntax, t: seq<byte>)
    requires t == NumberText(n)
    ensures var whole := |SignText(n.negative)|;
            var point := whole + |n.whole|;
            var end := point + |FractionText(n.fraction)|;
            && At(t, 0, SignText(n.negative)) && At(t, whole, n.whole) && At(t, point, FractionText(n.fraction))
            && At(t, end, ExponentText(n.exponent)) && end + |ExponentText(n.exponent)| == |t|
  {
  }

  lemma WholeReads(n: NumberSyntax, t: seq<byte>)
    requires OnlyDigits(n.whole) && t != []
    requires At(t, 0, SignText(n.negative)) && At(t, |SignText(n.negative)|, n.whole)
    requires var point := |SignText(n.negative)| + |n.whole|;
             point < |t| ==> !IsDigit(t[point]) && t[point] != PLUS && t[point] != MINUS
    ensures var start := |SignText(n.negative)|;
            && SignEnd(t, 0) == start && DigitsEnd(t, start) == start + |n.whole|
            && t[start..start + |n.whole|] == n.whole && (t[0] == MINUS <==> n.negative)
  {
    hide At, DigitsEnd;
    if n.negative {
      AtFirst(t, 0, [MINUS]);
    } else if n.whole != [] {
      AtFirst(t, 0, n.whole);
    }
    DigitsRead(t, |SignText(n.negative)|, n.whole);
  }

  /** What strtod gives for these digits and this exponent, with its end at `length`. */
  ghost function Decimal(t: seq<byte>, digits: seq<byte>, exponent: int, length: nat): Strtod
    requires t != [] && forall k :: 0 <= k < |digits| ==> IsDigit(digits[k])
  {
    var v := Scale10(NatOf(digits) as real, exponent);
    Read(if t[0] == MINUS then -v else v, length)
  }

  /** strtod on the parts it finds. */
  lemma DecimalOfParts(t: seq<byte>, whole: seq<byte>, f: Option<seq<byte>>, end: nat, exponent: int, length: nat)
    requires OnlyDigits(whole) && OnlyDigits(FractionDigits(f)) && |whole| + |FractionDigits(f)| > 0
    requires var start := SignEnd(t, 0);
             var point := start + |whole|;
             && point <= end <= |t| && DigitsEnd(t, start) == point && t[start..point] == whole
             && ((point < |t| && t[point] == POINT) <==> f.Some?)
             && (if f.Some? then DigitsEnd(t, point + 1) == end && t[point + 1..end] == f.value else end == point)
    requires ReadExponent(t, end) == (exponent, length)
    ensures ReadDecimal(t) == Decimal(t, whole + FractionDigits(f), exponent - |FractionDigits(f)|, length)
  {
    hide ReadDecimal, ReadExponent, Decimal, SignEnd, DigitsEnd, IsDigit;
    var point := SignEnd(t, 0) + |whole|;
    if f.Some? {
      DecimalWithPoint(t, whole, point, f.value, end, exponent, length);
    } else {
      DecimalWithoutPoint(t, whole, point, exponent, length);
    }
  }

  lemma DecimalWithPoint(t: seq<byte>, whole: seq<byte>, point: nat, fraction: seq<byte>, end: nat, exponent: int, length: nat)
    requires OnlyDigits(whole) && OnlyDigits(fraction) && |whole| + |fraction| > 0
    requires SignEnd(t, 0) + |whole| == point < |t| && point == DigitsEnd(t, SignEnd(t, 0))
    requires t[SignEnd(t, 0)..point] == whole && t[point] == POINT
    requires end == DigitsEnd(t, point + 1) && t[point + 1..end] == fraction && ReadExponent(t, end) == (exponent, length)
    ensures ReadDecimal(t) == Decimal(t, whole + fraction, exponent - |fraction|, length)
  {
    hide ReadExponent, NatOf, Scale10, SignEnd, DigitsEnd, IsDigit;
  }

  lemma DecimalWithoutPoint(t: seq<byte>, whole: seq<byte>, point: nat, exponent: int, length: nat)
    requires AllDigits(whole)
    requires SignEnd(t, 0) + |whole| == point <= |t| && point == DigitsEnd(t, SignEnd(t, 0))
    requires t[SignEnd(t, 0)..point] == whole && !(point < |t| && t[point] == POINT)
    requires ReadExponent(t, point) == (exponent, length)
    ensures ReadDecimal(t) == Decimal(t, whole + [], exponent, length)
  {
    hide ReadExponent, NatOf, Scale10, SignEnd, DigitsEnd, IsDigit;
  }

  lemma MeaningOfParts(t: seq<byte>, n: NumberSyntax, length: nat)
    requires t != [] && LooseNumber(n) && (n.negative <==> t[0] == MINUS)
    ensures var fraction := FractionDigits(n.fraction);
            Decimal(t, n.whole + fraction, ExponentValue(n.exponent) - |fraction|, length) == Read(NumberMeaning(n), length)
  {
    hide NatOf, Scale10, IsDigit, ExponentValue, PlaceValue, FractionValue, TenPower;
    ScaledDigits(n.whole, FractionDigits(n.fraction), ExponentValue(n.exponent));
  }

  /** strtod reads a number text completely, as its decimal value. */
  lemma NumberReads(n: NumberSyntax)
    requires LooseNumber(n)
    ensures ReadDecimal(NumberText(n)) == Read(NumberMeaning(n), |NumberText(n)|)
  {
    hide Decimal, NumberMeaning;
    hide At, ReadDecimal, ReadExponent, NatOf, Scale10, NumberText, ExponentText, ExponentValue, WellFormedExponent;
    hide SignEnd, DigitsEnd, OnlyDigits, IsDigit, SignText;
    var t := NumberText(n);
    var point := |SignText(n.negative)| + |n.whole|;
    NumberParts(n, t);
    ExponentReads(t, point + |FractionText(n.fraction)|, n.exponent);
    FractionReads(t, point, n.fraction);
    WholeReads(n, t);
    DecimalOfParts(t, n.whole, n.fraction, point + |FractionText(n.fraction)|, ExponentValue(n.exponent), |t|);
    MeaningOfParts(t, n, |t|);
  }

  /** parse_number reads a run of digits as the sum of the digits times their powers of ten. */
  lemma DigitsAreRead(digits: seq<byte>, s: seq<byte>, off: nat)
    requires AllDigits(digits) && |digits| <= 63 && At(s, off, digits) && EndsNumber(s, off + |digits|)
    ensures ParseNumber(s, off) == Parsed(Number(PlaceValue(digits) as real), off + |digits|)
  {
    hide ParseNumber, IsDigit, PlaceValue;
    var n := NumberSyntax(false, digits, None, None);
    assert NumberText(n) == digits;
    NumberEndsExactly(n, s, off);
    assert TenPower(0) == 1.0;
  }

  /** A number text only holds bytes that parse_number copies. */
  lemma NumberBytes(n: NumberSyntax)
    requires WellFormedNumber(n)
    ensures var t := NumberText(n);
            |t| > 0 && (t[0] == MINUS || IsDigit(t[0])) && forall k :: 0 <= k < |t| ==> IsNumberByte(t[k])
  {
  }

  /** parse_number copies and reads the first NUMBER_TEXT_LIMIT bytes of a number text, and no more. */
  lemma NumberIsCut(n: NumberSyntax, s: seq<byte>, off: nat)
    requires WellFormedNumber(n) && At(s, off, NumberText(n)) && EndsNumber(s, off + |NumberText(n)|)
    ensures var t := NumberText(n);
            var cut := if |t| <= NUMBER_TEXT_LIMIT then t else t[..NUMBER_TEXT_LIMIT];
            ReadDecimal(cut).Read?
            && ParseNumber(s, off) == Parsed(Number(ReadDecimal(cut).value), off + ReadDecimal(cut).length)
  {
    hide ReadDecimal, NumberText, NumberRun;
    var t := NumberText(n);
    var length := if |t| <= NUMBER_TEXT_LIMIT then |t| else NUMBER_TEXT_LIMIT;
    NumberBytes(n);
    forall i | off <= i < off + |t| ensures IsNumberByte(s[i]) {
      assert s[i] == t[i - off];
    }
    NumberRunIs(s, off, 0, length);
    assert s[off..off + length] == t[..length];
    assert t[..|t|] == t;
    PrefixReads(n, length);
  }

  /** The start of a number text has at least one digit behind its sign. */
  lemma PrefixReads(n: NumberSyntax, length: nat)
    requires WellFormedNumber(n) && length <= |NumberText(n)| && (length == |NumberText(n)| || length > 1)
    ensures ReadDecimal(NumberText(n)[..length]).Read?
  {
    hide ReadDecimal, ExponentText, FractionText, DigitsEnd;
    var t := NumberText(n);
    var sign := |SignText(n.negative)|;
    NumberParts(n, t);
    assert t[sign] == n.whole[0] && sign < length;
    assert n.negative ==> t[0] == SignText(n.negative)[0];
    var cut := t[..length];
    assert SignEnd(cut, 0) == sign && IsDigit(cut[sign]);
    SomeDigits(cut, sign);
    SomeDecimal(cut);
  }

  lemma SomeDigits(t: seq<byte>, i: nat)
    requires i < |t| && IsDigit(t[i])
    ensures DigitsEnd(t, i) > i
  {
  }

  lemma SomeDecimal(t: seq<byte>)
    requires DigitsEnd(t, SignEnd(t, 0)) > SignEnd(t, 0)
    ensures ReadDecimal(t).Read?
  {
    hide ReadExponent, NatOf, Scale10, DigitsEnd;
  }

  /**
   parse_number ends at the end of the number text, with its value, if and only if that text has at
   most NUMBER_TEXT_LIMIT bytes. Otherwise it stops inside the text.
   */
  lemma NumberEndsExactly(n: NumberSyntax, s: seq<byte>, off: nat)
    requires WellFormedNumber(n) && At(s, off, NumberText(n)) && EndsNumber(s, off + |NumberText(n)|)
    ensures ParseNumber(s, off).Parsed?
    ensures ParseNumber(s, off).next == off + |NumberText(n)| <==> |NumberText(n)| <= 63
    ensures |NumberText(n)| <= 63 ==> ParseNumber(s, off).value == Number(NumberMeaning(n))
    ensures |NumberText(n)| > 63 ==>
              ParseNumber(s, off).next < off + |NumberText(n)| && IsNumberByte(s[ParseNumber(s, off).next])
  {
    hide ReadDecimal, NumberText, NumberMeaning;
    var t := NumberText(n);
    NumberIsCut(n, s, off);
    NumberReads(n);
    NumberBytes(n);
    if |t| > NUMBER_TEXT_LIMIT {
      var next := ParseNumber(s, off).next;
      assert s[next] == t[next - off];
    }
  }

  /** Behind a value the number characters end, at the end of the buffer at the latest. */
  predicate EndsNumber(s: seq<byte>, off: nat) {
    off < |s| ==> !IsNumberByte(s[off])
  }

  // ----- values -----

  datatype Syntax =
    | NullText
    | BoolText(value: bool)
    | NumberOf(number: NumberSyntax)
    | StringOf(body: seq<Piece>)
    | ArrayOf(gap: seq<byte>, items: seq<ItemSyntax>)
    | ObjectOf(gap: seq<byte>, members: seq<MemberSyntax>)

  datatype ItemSyntax = ItemSyntax(before: seq<byte>, value: Syntax, after: seq<byte>)

  datatype MemberSyntax = MemberSyntax(
    before: seq<byte>, key: seq<Piece>, colonBefore: seq<byte>, colonAfter: seq<byte>, value: Syntax, after: seq<byte>)

  /** Bytes the parser skips between tokens: the blanks of RFC 8259, and all lower bytes. */
  predicate IsBlankText(t: seq<byte>) {
    forall k :: 0 <= k < |t| ==> t[k] <= SPACE
  }

  predicate WellFormedSyntax(x: Syntax)
    decreases x, 1
  {
    match x
    case NumberOf(n) => WellFormedNumber(n)
    case StringOf(body) => WellFormedBody(body)
    case ArrayOf(gap, items) => IsBlankText(gap) && WellFormedItems(items)
    case ObjectOf(gap, members) => IsBlankText(gap) && WellFormedMembers(members)
    case _ => true
  }

  predicate WellFormedItems(items: seq<ItemSyntax>)
    decreases items, 0
  {
    items == [] ||
    (IsBlankText(items[0].before) && WellFormedSyntax(items[0].value) && IsBlankText(items[0].after)
     && WellFormedItems(items[1..]))
  }

  predicate WellFormedMember(m: MemberSyntax)
    decreases m, 2
  {
    IsBlankText(m.before) && WellFormedBody(m.key) && IsBlankText(m.colonBefore) && IsBlankText(m.colonAfter)
    && WellFormedSyntax(m.value) && IsBlankText(m.after)
  }

  predicate WellFormedMembers(members: seq<MemberSyntax>)
    decreases members, 0
  {
    members == [] || (WellFormedMember(members[0]) && WellFormedMembers(members[1..]))
  }

  function TextOf(x: Syntax): seq<byte>
    decreases x, 1
  {
    match x
    case NullText => NULL_TEXT
    case BoolText(b) => if b then TRUE_TEXT else FALSE_TEXT
    case NumberOf(n) => NumberText(n)
    case StringOf(body) => QuotedBody(body)
    case ArrayOf(gap, items) => [OPEN_BRACKET] + (if items == [] then gap else ItemsText(items)) + [CLOSE_BRACKET]
    case ObjectOf(gap, members) => [OPEN_BRACE] + (if members == [] then gap else MembersText(members)) + [CLOSE_BRACE]
  }

  function QuotedBody(body: seq<Piece>): seq<byte> {
    [QUOTE] + BodyText(body) + [QUOTE]
  }

  function ItemText(i: ItemSyntax): seq<byte>
    decreases i, 2
  {
    i.before + TextOf(i.value) + i.after
  }

  function ItemsText(items: seq<ItemSyntax>): seq<byte>
    decreases items, 0
  {
    if items == [] then []
    else ItemText(items[0]) + if |items| == 1 then [] else [COMMA] + ItemsText(items[1..])
  }

  function MemberText(m: MemberSyntax): seq<byte>
    decreases m, 2
  {
    m.before + QuotedBody(m.key) + m.colonBefore + [COLON] + m.colonAfter + TextOf(m.value) + m.after
  }

  function MembersText(members: seq<MemberSyntax>): seq<byte>
    decreases members, 0
  {
    if members == [] then []
    else MemberText(members[0]) + if |members| == 1 then [] else [COMMA] + MembersText(members[1..])
  }

  /** The tree a text means; of a string with an escaped NUL, C sees the part before it. */
  function MeaningOf(x: Syntax): Json
    requires WellFormedSyntax(x)
    decreases x, 1
  {
    match x
    case NullText => Null
    case BoolText(b) => Bool(b)
    case NumberOf(n) => Number(NumberMeaning(n))
    case StringOf(body) => String(CString(BodyMeaning(body)))
    case ArrayOf(_, items) => Array(ItemsMeaning(items))
    case ObjectOf(_, members) => Object(MembersMeaning(members))
  }

  function ItemsMeaning(items: seq<ItemSyntax>): seq<Json>
    requires WellFormedItems(items)
    decreases items, 0
  {
    if items == [] then [] else [MeaningOf(items[0].value)] + ItemsMeaning(items[1..])
  }

  function MemberMeaning(m: MemberSyntax): Member
    requires WellFormedMember(m)
    decreases m, 2
  {
    Member(CString(BodyMeaning(m.key)), MeaningOf(m.value))
  }

  function MembersMeaning(members: seq<MemberSyntax>): seq<Member>
    requires WellFormedMembers(members)
    decreases members, 0
  {
    if members == [] then [] else [MemberMeaning(members[0])] + MembersMeaning(members[1..])
  }

  // ----- what the parser can read -----

  /** Every number text has at most NUMBER_TEXT_LIMIT bytes. */
  predicate ShortNumbers(x: Syntax)
    decreases x, 1
  {
    match x
    case NumberOf(n) => |NumberText(n)| <= NUMBER_TEXT_LIMIT
    case ArrayOf(_, items) => ShortItems(items)
    case ObjectOf(_, members) => ShortMembers(members)
    case _ => true
  }

  predicate ShortItems(items: seq<ItemSyntax>)
    decreases items, 0
  {
    items == [] || (ShortNumbers(items[0].value) && ShortItems(items[1..]))
  }

  predicate ShortMembers(members: seq<MemberSyntax>)
    decreases members, 0
  {
    members == [] || (ShortNumbers(members[0].value) && ShortMembers(members[1..]))
  }

  /** Short numbers, and at most `room` levels of arrays and objects. */
  predicate Readable(x: Syntax, room: nat)
    decreases x, 1
  {
    match x
    case NumberOf(n) => |NumberText(n)| <= NUMBER_TEXT_LIMIT
    case ArrayOf(_, items) => room > 0 && ReadableItems(items, room - 1)
    case ObjectOf(_, members) => room > 0 && ReadableMembers(members, room - 1)
    case _ => true
  }

  predicate ReadableItems(items: seq<ItemSyntax>, room: nat)
    decreases items, 0
  {
    items == [] || (Readable(items[0].value, room) && ReadableItems(items[1..], room))
  }

  predicate ReadableMembers(members: seq<MemberSyntax>, room: nat)
    decreases members, 0
  {
    members == [] || (Readable(members[0].value, room) && ReadableMembers(members[1..], room))
  }

  lemma NothingIsReadable(room: nat)
    ensures ReadableItems([], room) && ReadableMembers([], room)
  {
  }

  lemma {:induction false} ReadableIs(x: Syntax, room: nat)
    requires WellFormedSyntax(x)
    ensures Readable(x, room) <==> ShortNumbers(x) && Nesting(MeaningOf(x)) <= room
    decreases x, 1
  {
    match x
    case ArrayOf(_, items) =>
      if room > 0 { ReadableItemsIs(items, room - 1); }
    case ObjectOf(_, members) =>
      if room > 0 { ReadableMembersIs(members, room - 1); }
    case _ =>
  }

  lemma {:induction false} ReadableItemsIs(items: seq<ItemSyntax>, room: nat)
    requires WellFormedItems(items)
    ensures ReadableItems(items, room) <==> ShortItems(items) && ItemsNesting(ItemsMeaning(items)) <= room
    decreases items, 0
  {
    if items != [] {
      ReadableIs(items[0].value, room);
      ReadableItemsIs(items[1..], room);
      assert ItemsMeaning(items)[1..] == ItemsMeaning(items[1..]);
    }
  }

  lemma {:induction false} ReadableMembersIs(members: seq<MemberSyntax>, room: nat)
    requires WellFormedMembers(members)
    ensures ReadableMembers(members, room) <==> ShortMembers(members) && MembersNesting(MembersMeaning(members)) <= room
    decreases members, 0
  {
    if members != [] {
      ReadableIs(members[0].value, room);
      ReadableMembersIs(members[1..], room);
      assert MembersMeaning(members)[1..] == MembersMeaning(members[1..]);
    }
  }

  // ----- blanks -----

  lemma BlankEndIs(s: seq<byte>, off: nat, end: nat)
    requires off <= end < |s| && s[end] > SPACE
    requires forall k :: off <= k < end ==> s[k] <= SPACE
    ensures BlankEnd(s, off) == end && SkipBlanks(s, off) == end
  {
  }

  /** From anywhere in a blank text, the visible byte behind it is found. */
  lemma SkipsBlankText(s: seq<byte>, off: nat, t: seq<byte>, from: nat)
    requires At(s, off, t) && IsBlankText(t) && off <= from <= off + |t|
    requires off + |t| < |s| && s[off + |t|] > SPACE
    ensures SkipBlanks(s, from) == off + |t|
  {
    forall k | from <= k < off + |t| ensures s[k] <= SPACE {
      assert s[k] == t[k - off];
    }
    BlankEndIs(s, from, off + |t|);
  }

  /** The first byte of a value is visible and no closing bracket; it fixes the kind of value. */
  lemma TextStart(x: Syntax, s: seq<byte>, off: nat)
    requires WellFormedSyntax(x) && At(s, off, TextOf(x))
    ensures |TextOf(x)| > 0 && off < |s| && s[off] == TextOf(x)[0]
    ensures SPACE < s[off] < 0x80 && s[off] != CLOSE_BRACKET && s[off] != CLOSE_BRACE
  {
  }

  // ----- one unfolding of the parser at a time -----

  lemma LastItem(s: seq<byte>, start: nat, depth: nat, item: Json, next: nat, close: nat)
    requires start <= |s| && next <= |s| && close < |s| && depth <= NESTING_LIMIT
    requires ParseValue(s, SkipBlanks(s, start), depth) == Parsed(item, next)
    requires SkipBlanks(s, next) == close && s[close] == CLOSE_BRACKET
    ensures ParseItems(s, start, depth) == Parsed([item], close + 1)
  {
  }

  lemma MoreItems(s: seq<byte>, start: nat, depth: nat, item: Json, next: nat, comma: nat, rest: seq<Json>, end: nat)
    requires start <= |s| && next <= |s| && comma < |s| && depth <= NESTING_LIMIT
    requires ParseValue(s, SkipBlanks(s, start), depth) == Parsed(item, next)
    requires SkipBlanks(s, next) == comma && s[comma] == COMMA
    requires ParseItems(s, comma + 1, depth) == Parsed(rest, end)
    ensures ParseItems(s, start, depth) == Parsed([item] + rest, end)
  {
  }

  /** A value that is refused, or a number that is left in the middle. */
  predicate Stuck(s: seq<byte>, x: Syntax, p: Parse<Json>) {
    p.Failed? || (x.NumberOf? && InNumber(s, p.next))
  }

  predicate InNumber(s: seq<byte>, off: nat) {
    off < |s| && IsNumberByte(s[off])
  }

  lemma InNumberStays(s: seq<byte>, off: nat)
    requires InNumber(s, off)
    ensures SkipBlanks(s, off) == off
  {
    BlankEndIs(s, off, off);
  }

  lemma StuckItem(s: seq<byte>, start: nat, depth: nat, x: Syntax)
    requires start <= |s| && depth <= NESTING_LIMIT
    requires Stuck(s, x, ParseValue(s, SkipBlanks(s, start), depth))
    ensures ParseItems(s, start, depth).Failed?
  {
    hide ParseValue, SkipBlanks;
    match ParseValue(s, SkipBlanks(s, start), depth)
    case Failed(_) =>
    case Parsed(_, next) => InNumberStays(s, next);
  }

  lemma LaterItemFails(s: seq<byte>, start: nat, depth: nat, item: Json, next: nat, comma: nat)
    requires start <= |s| && next <= |s| && comma < |s| && depth <= NESTING_LIMIT
    requires ParseValue(s, SkipBlanks(s, start), depth) == Parsed(item, next)
    requires SkipBlanks(s, next) == comma && s[comma] == COMMA
    requires ParseItems(s, comma + 1, depth).Failed?
    ensures ParseItems(s, start, depth).Failed?
  {
    hide ParseValue, SkipBlanks;
  }

  lemma StuckMember(s: seq<byte>, start: nat, depth: nat, key: seq<byte>, keyEnd: nat, colon: nat, x: Syntax)
    requires 0 < start < |s| && keyEnd <= |s| && colon < |s| && depth <= NESTING_LIMIT
    requires ParseString(s, SkipBlanks(s, start)) == Parsed(key, keyEnd)
    requires SkipBlanks(s, keyEnd) == colon && s[colon] == COLON
    requires Stuck(s, x, ParseValue(s, SkipBlanks(s, colon + 1), depth))
    ensures ParseMember(s, start, depth).Failed? || InNumber(s, ParseMember(s, start, depth).next)
  {
    hide ParseValue, ParseString, SkipBlanks;
    match ParseValue(s, SkipBlanks(s, colon + 1), depth)
    case Failed(_) =>
    case Parsed(_, next) => InNumberStays(s, next);
  }

  lemma StuckMembers(s: seq<byte>, start: nat, depth: nat)
    requires 0 < start <= |s| && depth <= NESTING_LIMIT
    requires ParseMember(s, start, depth).Failed? || InNumber(s, ParseMember(s, start, depth).next)
    ensures ParseMembers(s, start, depth).Failed?
  {
    hide ParseMember;
  }

  lemma LaterMemberFails(s: seq<byte>, start: nat, depth: nat, m: Member, after: nat)
    requires 0 < start <= |s| && after < |s| && depth <= NESTING_LIMIT
    requires ParseMember(s, start, depth) == Parsed(m, after) && s[after] == COMMA
    requires ParseMembers(s, after + 1, depth).Failed?
    ensures ParseMembers(s, start, depth).Failed?
  {
    hide ParseMember;
  }

  lemma OneMember(s: seq<byte>, start: nat, depth: nat, key: seq<byte>, keyEnd: nat, colon: nat, item: Json, next: nat)
    requires 0 < start < |s| && keyEnd <= |s| && colon < |s| && next <= |s| && depth <= NESTING_LIMIT
    requires ParseString(s, SkipBlanks(s, start)) == Parsed(key, keyEnd)
    requires SkipBlanks(s, keyEnd) == colon && s[colon] == COLON
    requires ParseValue(s, SkipBlanks(s, colon + 1), depth) == Parsed(item, next)
    ensures ParseMember(s, start, depth) == Parsed(Member(key, item), SkipBlanks(s, next))
  {
    hide ParseValue, ParseString, SkipBlanks;
  }

  lemma LastMember(s: seq<byte>, start: nat, depth: nat, m: Member, after: nat)
    requires 0 < start <= |s| && after < |s| && depth <= NESTING_LIMIT
    requires ParseMember(s, start, depth) == Parsed(m, after) && s[after] == CLOSE_BRACE
    ensures ParseMembers(s, start, depth) == Parsed([m], after + 1)
  {
  }

  lemma MoreMembers(s: seq<byte>, start: nat, depth: nat, m: Member, after: nat, rest: seq<Member>, end: nat)
    requires 0 < start <= |s| && after < |s| && depth <= NESTING_LIMIT
    requires ParseMember(s, start, depth) == Parsed(m, after) && s[after] == COMMA
    requires ParseMembers(s, after + 1, depth) == Parsed(rest, end)
    ensures ParseMembers(s, start, depth) == Parsed([m] + rest, end)
  {
    hide ParseMember;
  }

  // ----- scalars -----

  lemma LiteralParses(x: Syntax, s: seq<byte>, off: nat, depth: nat)
    requires (x.NullText? || x.BoolText?) && At(s, off, TextOf(x)) && depth <= NESTING_LIMIT
    ensures ParseValue(s, off, depth) == Parsed(MeaningOf(x), off + |TextOf(x)|)
  {
    var t := TextOf(x);
    assert s[off..off + |t|] == t;
    assert s[off] == t[0];
    if t != NULL_TEXT { FirstByteDiffers(s, off, NULL_TEXT); }
    if t == TRUE_TEXT { FirstByteDiffers(s, off, FALSE_TEXT); }
  }

  lemma FirstByteDiffers(s: seq<byte>, off: nat, t: seq<byte>)
    requires off < |s| && t != [] && s[off] != t[0]
    ensures !Matches(s, off, t)
  {
    if off + |t| <= |s| { assert s[off..off + |t|][0] == s[off]; }
  }

  lemma NumberParses(n: NumberSyntax, s: seq<byte>, off: nat, depth: nat)
    requires WellFormedNumber(n) && depth <= NESTING_LIMIT
    requires At(s, off, NumberText(n)) && EndsNumber(s, off + |NumberText(n)|)
    ensures if |NumberText(n)| <= NUMBER_TEXT_LIMIT
            then ParseValue(s, off, depth) == Parsed(Number(NumberMeaning(n)), off + |NumberText(n)|)
            else Stuck(s, NumberOf(n), ParseValue(s, off, depth))
  {
    hide ParseValue, ParseNumber, NumberText, NumberMeaning;
    NumberBytes(n);
    assert s[off] == NumberText(n)[0];
    NumberCase(s, off, depth);
    NumberEndsExactly(n, s, off);
  }

  lemma StringParses(body: seq<Piece>, s: seq<byte>, off: nat, depth: nat)
    requires WellFormedBody(body) && At(s, off, QuotedBody(body)) && depth <= NESTING_LIMIT
    ensures ParseValue(s, off, depth) == Parsed(String(CString(BodyMeaning(body))), off + |QuotedBody(body)|)
  {
    hide CString, BodyMeaning, BodyText, WellFormedBody;
    QuotedParts(s, off, BodyText(body));
    NotLiteral(s, off);
    StringDecodes(body, s, off);
  }

  // ----- the induction -----

  /**
   The main step: wherever a well-formed text stands in a buffer, not followed by a byte that could
   extend a number, parse_value reads it as its meaning if its numbers are short and the nesting limit
   leaves room for it; otherwise it fails, or stops inside the number.
   */
  lemma {:induction false} ValueParses(x: Syntax, s: seq<byte>, off: nat, depth: nat)
    requires WellFormedSyntax(x) && depth <= NESTING_LIMIT
    requires At(s, off, TextOf(x)) && EndsNumber(s, off + |TextOf(x)|)
    ensures if Readable(x, NESTING_LIMIT - depth)
            then ParseValue(s, off, depth) == Parsed(MeaningOf(x), off + |TextOf(x)|)
            else Stuck(s, x, ParseValue(s, off, depth))
    decreases x, 1
  {
    match x
    case NullText => LiteralParses(x, s, off, depth);
    case BoolText(_) => LiteralParses(x, s, off, depth);
    case NumberOf(n) => NumberParses(n, s, off, depth);
    case StringOf(body) => StringParses(body, s, off, depth);
    case ArrayOf(_, _) => ArrayParses(x, s, off, depth);
    case ObjectOf(_, _) => ObjectParses(x, s, off, depth);
  }

  /** An opening byte, a body and a closing byte where they stand. */
  lemma Enclosed(s: seq<byte>, off: nat, open: byte, body: seq<byte>, close: byte)
    requires At(s, off, [open] + body + [close])
    ensures var end := off + 1 + |body|; s[off] == open && At(s, off + 1, body) && end < |s| && s[end] == close
  {
    AtConcat(s, off, [open] + body, [close]);
    AtConcat(s, off, [open], body);
    assert s[off] == [open][0] && s[off + 1 + |body|] == [close][0];
  }

  lemma {:induction false} ArrayParses(x: Syntax, s: seq<byte>, off: nat, depth: nat)
    requires x.ArrayOf? && WellFormedSyntax(x) && depth <= NESTING_LIMIT
    requires At(s, off, TextOf(x))
    ensures if Readable(x, NESTING_LIMIT - depth)
            then ParseValue(s, off, depth) == Parsed(MeaningOf(x), off + |TextOf(x)|)
            else ParseValue(s, off, depth).Failed?
    decreases x, 0
  {
    hide ParseValue, ParseItems, SkipBlanks, At, ItemsText, ReadableItems;
    var body := if x.items == [] then x.gap else ItemsText(x.items);
    Enclosed(s, off, OPEN_BRACKET, body, CLOSE_BRACKET);
    ArrayCase(s, off, depth);
    if x.items == [] {
      if depth < NESTING_LIMIT { NothingIsReadable(NESTING_LIMIT - depth - 1); }
      SkipsBlankText(s, off + 1, x.gap, off + 1);
    } else if depth < NESTING_LIMIT {
      ItemsStart(x.items, s, off + 1);
      ItemsParse(x.items, s, off + 1, SkipBlanks(s, off + 1), depth + 1);
    }
  }

  /** The first item's blanks lead to the start of its value. */
  lemma FirstItem(items: seq<ItemSyntax>)
    requires WellFormedItems(items) && items != []
    ensures IsBlankText(items[0].before) && WellFormedSyntax(items[0].value) && IsBlankText(items[0].after)
    ensures ItemsText(items) == ItemText(items[0]) + if |items| == 1 then [] else [COMMA] + ItemsText(items[1..])
  {
    hide ItemText, WellFormedSyntax;
  }

  lemma ItemsStart(items: seq<ItemSyntax>, s: seq<byte>, off: nat)
    requires WellFormedItems(items) && items != [] && At(s, off, ItemsText(items))
    ensures var value := off + |items[0].before|;
            && SkipBlanks(s, off) == value && value < |s| && s[value] > SPACE && s[value] != CLOSE_BRACKET
            && At(s, off, items[0].before) && At(s, value, TextOf(items[0].value))
            && At(s, value + |TextOf(items[0].value)|, items[0].after)
  {
    hide TextOf, ItemsText, WellFormedItems, WellFormedSyntax, SkipBlanks, At;
    var i := items[0];
    FirstItem(items);
    AtConcat(s, off, ItemText(i), if |items| == 1 then [] else [COMMA] + ItemsText(items[1..]));
    AtConcat(s, off, i.before + TextOf(i.value), i.after);
    AtConcat(s, off, i.before, TextOf(i.value));
    TextStart(i.value, s, off + |i.before|);
    SkipsBlankText(s, off, i.before, off);
  }

  lemma ItemsRest(items: seq<ItemSyntax>, s: seq<byte>, off: nat)
    requires WellFormedItems(items) && |items| > 1 && At(s, off, ItemsText(items))
    ensures var comma := off + |ItemText(items[0])|;
            && comma < |s| && s[comma] == COMMA && At(s, comma + 1, ItemsText(items[1..]))
            && comma + 1 + |ItemsText(items[1..])| == off + |ItemsText(items)|
  {
    hide ItemText;
    AtConcat(s, off, ItemText(items[0]), [COMMA] + ItemsText(items[1..]));
    var comma := off + |ItemText(items[0])|;
    AtConcat(s, comma, [COMMA], ItemsText(items[1..]));
    assert s[comma] == [COMMA][0];
  }

  /** Items up to their closing bracket, read from anywhere in the first item's blanks. */
  lemma {:induction false} ItemsParse(items: seq<ItemSyntax>, s: seq<byte>, off: nat, start: nat, depth: nat)
    requires WellFormedItems(items) && items != [] && depth <= NESTING_LIMIT
    requires At(s, off, ItemsText(items))
    requires var close := off + |ItemsText(items)|; close < |s| && s[close] == CLOSE_BRACKET
    requires off <= start <= off + |items[0].before| && start <= |s|
    ensures if ReadableItems(items, NESTING_LIMIT - depth)
            then ParseItems(s, start, depth) == Parsed(ItemsMeaning(items), off + |ItemsText(items)| + 1)
            else ParseItems(s, start, depth).Failed?
    decreases items, 2
  {
    hide ParseValue, ParseItems, SkipBlanks, At, TextOf, Readable, Stuck;
    hide MeaningOf, WellFormedSyntax, IsBlankText, EndsNumber;
    var i := items[0];
    var value := off + |i.before|;
    var next := value + |TextOf(i.value)|;
    var end := next + |i.after|;
    ItemsStart(items, s, off);
    SkipsBlankText(s, off, i.before, start);
    if |items| > 1 { ItemsRest(items, s, off); }
    BlankThenStop(s, next, i.after);
    SkipsBlankText(s, next, i.after, next);
    ValueParses(i.value, s, value, depth);
    if !Readable(i.value, NESTING_LIMIT - depth) {
      StuckItem(s, start, depth, i.value);
    } else if |items| == 1 {
      assert items[1..] == [] && ItemsMeaning(items) == [MeaningOf(i.value)];
      NothingIsReadable(NESTING_LIMIT - depth);
      LastItem(s, start, depth, MeaningOf(i.value), next, end);
    } else {
      ItemsStart(items[1..], s, end + 1);
      ItemsParse(items[1..], s, end + 1, end + 1, depth);
      if ReadableItems(items[1..], NESTING_LIMIT - depth) {
        MoreItems(s, start, depth, MeaningOf(i.value), next, end,
                  ItemsMeaning(items[1..]), off + |ItemsText(items)| + 1);
      } else {
        LaterItemFails(s, start, depth, MeaningOf(i.value), next, end);
      }
    }
  }

  /** Neither a blank nor the comma or bracket behind blanks can extend a number. */
  lemma BlankThenStop(s: seq<byte>, off: nat, t: seq<byte>)
    requires At(s, off, t) && IsBlankText(t)
    requires var stop := off + |t|;
             stop < |s| && (s[stop] == COMMA || s[stop] == CLOSE_BRACKET || s[stop] == CLOSE_BRACE)
    ensures EndsNumber(s, off)
  {
    if t != [] { assert s[off] == t[0]; }
  }

  lemma {:induction false} ObjectParses(x: Syntax, s: seq<byte>, off: nat, depth: nat)
    requires x.ObjectOf? && WellFormedSyntax(x) && depth <= NESTING_LIMIT
    requires At(s, off, TextOf(x))
    ensures if Readable(x, NESTING_LIMIT - depth)
            then ParseValue(s, off, depth) == Parsed(MeaningOf(x), off + |TextOf(x)|)
            else ParseValue(s, off, depth).Failed?
    decreases x, 0
  {
    hide ParseValue, ParseMembers, SkipBlanks, At, MembersText, ReadableMembers;
    var body := if x.members == [] then x.gap else MembersText(x.members);
    Enclosed(s, off, OPEN_BRACE, body, CLOSE_BRACE);
    ObjectCase(s, off, depth);
    if x.members == [] {
      if depth < NESTING_LIMIT { NothingIsReadable(NESTING_LIMIT - depth - 1); }
      SkipsBlankText(s, off + 1, x.gap, off + 1);
    } else if depth < NESTING_LIMIT {
      MembersStart(x.members, s, off + 1);
      MembersParse(x.members, s, off + 1, SkipBlanks(s, off + 1), depth + 1);
    }
  }

  lemma FirstMember(members: seq<MemberSyntax>)
    requires WellFormedMembers(members) && members != []
    ensures WellFormedMember(members[0])
    ensures MembersText(members)
         == MemberText(members[0]) + if |members| == 1 then [] else [COMMA] + MembersText(members[1..])
  {
    hide MemberText, WellFormedMember;
  }

  lemma MembersStart(members: seq<MemberSyntax>, s: seq<byte>, off: nat)
    requires WellFormedMembers(members) && members != [] && At(s, off, MembersText(members))
    ensures var key := off + |members[0].before|;
            && At(s, off, MemberText(members[0]))
            && SkipBlanks(s, off) == key && key < |s| && s[key] == QUOTE
  {
    hide MemberText, MembersText, WellFormedMembers, SkipBlanks, At;
    FirstMember(members);
    AtConcat(s, off, MemberText(members[0]), if |members| == 1 then [] else [COMMA] + MembersText(members[1..]));
    MemberParts(members[0], s, off);
    SkipsBlankText(s, off, members[0].before, off);
  }

  lemma MembersRest(members: seq<MemberSyntax>, s: seq<byte>, off: nat)
    requires WellFormedMembers(members) && |members| > 1 && At(s, off, MembersText(members))
    ensures var comma := off + |MemberText(members[0])|;
            && comma < |s| && s[comma] == COMMA && At(s, comma + 1, MembersText(members[1..]))
            && comma + 1 + |MembersText(members[1..])| == off + |MembersText(members)|
  {
    hide MemberText;
    AtConcat(s, off, MemberText(members[0]), [COMMA] + MembersText(members[1..]));
    var comma := off + |MemberText(members[0])|;
    AtConcat(s, comma, [COMMA], MembersText(members[1..]));
    assert s[comma] == [COMMA][0];
  }

  /** The parts of a member where they stand. */
  lemma MemberParts(m: MemberSyntax, s: seq<byte>, off: nat)
    requires WellFormedMember(m) && At(s, off, MemberText(m))
    ensures var key := off + |m.before|;
            var keyEnd := key + |QuotedBody(m.key)|;
            var colon := keyEnd + |m.colonBefore|;
            var value := colon + 1 + |m.colonAfter|;
            var next := value + |TextOf(m.value)|;
            && At(s, off, m.before) && At(s, key, QuotedBody(m.key)) && At(s, keyEnd, m.colonBefore)
            && colon < |s| && s[colon] == COLON && At(s, colon + 1, m.colonAfter) && At(s, value, TextOf(m.value))
            && At(s, next, m.after) && next + |m.after| == off + |MemberText(m)|
            && s[key] == QUOTE && value < |s| && s[value] > SPACE
  {
    hide TextOf, BodyText;
    var quoted := QuotedBody(m.key);
    var text := TextOf(m.value);
    AtConcat(s, off, m.before + quoted + m.colonBefore + [COLON] + m.colonAfter + text, m.after);
    AtConcat(s, off, m.before + quoted + m.colonBefore + [COLON] + m.colonAfter, text);
    AtConcat(s, off, m.before + quoted + m.colonBefore + [COLON], m.colonAfter);
    AtConcat(s, off, m.before + quoted + m.colonBefore, [COLON]);
    AtConcat(s, off, m.before + quoted, m.colonBefore);
    AtConcat(s, off, m.before, quoted);
    var key := off + |m.before|;
    var colon := key + |quoted| + |m.colonBefore|;
    assert s[key] == quoted[0] && s[colon] == [COLON][0];
    TextStart(m.value, s, colon + 1 + |m.colonAfter|);
  }

  lemma {:induction false} MemberParses(m: MemberSyntax, s: seq<byte>, off: nat, start: nat, depth: nat)
    requires WellFormedMember(m) && depth <= NESTING_LIMIT
    requires At(s, off, MemberText(m)) && 0 < start && off <= start <= off + |m.before|
    requires var end := off + |MemberText(m)|; end < |s| && (s[end] == COMMA || s[end] == CLOSE_BRACE)
    ensures start <= |s|
    ensures if Readable(m.value, NESTING_LIMIT - depth)
            then ParseMember(s, start, depth) == Parsed(MemberMeaning(m), off + |MemberText(m)|)
            else ParseMember(s, start, depth).Failed? || InNumber(s, ParseMember(s, start, depth).next)
    decreases m, 2
  {
    hide ParseValue, ParseMember, ParseString, SkipBlanks, At, TextOf, QuotedBody, MemberText, WellFormedSyntax;
    hide WellFormedBody, BodyMeaning, CString, IsBlankText, MeaningOf, EndsNumber, Readable, Stuck, InNumber;
    MemberParts(m, s, off);
    var key := off + |m.before|;
    var keyEnd := key + |QuotedBody(m.key)|;
    var colon := keyEnd + |m.colonBefore|;
    var value := colon + 1 + |m.colonAfter|;
    var next := value + |TextOf(m.value)|;
    SkipsBlankText(s, off, m.before, start);
    KeyParses(m.key, s, key);
    SkipsBlankText(s, keyEnd, m.colonBefore, keyEnd);
    SkipsBlankText(s, colon + 1, m.colonAfter, colon + 1);
    BlankThenStop(s, next, m.after);
    ValueParses(m.value, s, value, depth);
    SkipsBlankText(s, next, m.after, next);
    if Readable(m.value, NESTING_LIMIT - depth) {
      OneMember(s, start, depth, MemberMeaning(m).key, keyEnd, colon, MemberMeaning(m).item, next);
    } else {
      StuckMember(s, start, depth, MemberMeaning(m).key, keyEnd, colon, m.value);
    }
  }

  lemma KeyParses(body: seq<Piece>, s: seq<byte>, off: nat)
    requires WellFormedBody(body) && At(s, off, QuotedBody(body))
    ensures ParseString(s, off) == Parsed(CString(BodyMeaning(body)), off + |QuotedBody(body)|)
  {
    StringDecodes(body, s, off);
  }

  lemma {:induction false} MembersParse(members: seq<MemberSyntax>, s: seq<byte>, off: nat, start: nat, depth: nat)
    requires WellFormedMembers(members) && members != [] && depth <= NESTING_LIMIT
    requires At(s, off, MembersText(members))
    requires var close := off + |MembersText(members)|; close < |s| && s[close] == CLOSE_BRACE
    requires 0 < start && off <= start <= off + |members[0].before| && start <= |s|
    ensures if ReadableMembers(members, NESTING_LIMIT - depth)
            then ParseMembers(s, start, depth) == Parsed(MembersMeaning(members), off + |MembersText(members)| + 1)
            else ParseMembers(s, start, depth).Failed?
    decreases members, 3
  {
    hide ParseMember, ParseMembers, SkipBlanks, At, MemberText, WellFormedMember, MemberMeaning, Readable, InNumber;
    var end := off + |MemberText(members[0])|;
    MembersStart(members, s, off);
    if |members| > 1 { MembersRest(members, s, off); }
    MemberParses(members[0], s, off, start, depth);
    if !Readable(members[0].value, NESTING_LIMIT - depth) {
      StuckMembers(s, start, depth);
    } else if |members| == 1 {
      assert members[1..] == [] && MembersMeaning(members) == [MemberMeaning(members[0])];
      NothingIsReadable(NESTING_LIMIT - depth);
      LastMember(s, start, depth, MemberMeaning(members[0]), end);
    } else {
      MembersParse(members[1..], s, end + 1, end + 1, depth);
      if ReadableMembers(members[1..], NESTING_LIMIT - depth) {
        MoreMembers(s, start, depth, MemberMeaning(members[0]), end, MembersMeaning(members[1..]),
                    off + |MembersText(members)| + 1);
      } else {
        LaterMemberFails(s, start, depth, MemberMeaning(members[0]), end);
      }
    }
  }

  // ----- documents -----

  /** A whole text: an optional byte order mark, blanks, a value, blanks. */
  function Document(marked: bool, before: seq<byte>, x: Syntax, after: seq<byte>): seq<byte> {
    (if marked then BYTE_ORDER_MARK else []) + before + TextOf(x) + after
  }

  /**
   Every well-formed document is parsed as the tree it means if that tree nests at most NESTING_LIMIT
   levels and every number text has at most NUMBER_TEXT_LIMIT bytes, with or without the demand for a
   terminator behind the value. Otherwise it is refused, except that without that demand a document
   that is only a long number is read as the start of it.
   */
  lemma ParsesDocument(marked: bool, before: seq<byte>, x: Syntax, after: seq<byte>, requireNul: bool)
    requires WellFormedSyntax(x) && IsBlankText(before) && IsBlankText(after)
    ensures var parsed := ParseText(Document(marked, before, x, after), requireNul);
            if Nesting(MeaningOf(x)) <= NESTING_LIMIT && ShortNumbers(x) then parsed == Some(MeaningOf(x))
            else if x.NumberOf? && !requireNul then
              var cut := ReadDecimal(NumberText(x.number)[..NUMBER_TEXT_LIMIT]);
              cut.Read? && parsed == Some(Number(cut.value))
            else parsed == None
  {
    hide At, ParseValue, TextOf, SkipBlanks, WellFormedSyntax, MeaningOf, Nesting, SkipMark, IsBlankText;
    hide Readable, ShortNumbers, NumberText, ReadDecimal;
    var text := Document(marked, before, x, after);
    var s := text + [NUL];
    var mark: seq<byte> := if marked then BYTE_ORDER_MARK else [];
    DocumentParts(s, mark, before, TextOf(x), after);
    var value := |mark| + |before|;
    var next := value + |TextOf(x)|;
    TextStart(x, s, value);
    MarkSkipped(s, marked, before, value);
    SkipsBlankText(s, |mark|, before, |mark|);
    OnlyBlanksLeft(s, next, after);
    ValueParses(x, s, value, 0);
    ReadableIs(x, NESTING_LIMIT);
    if Readable(x, NESTING_LIMIT) {
      OneValue(s, requireNul, |mark|, value, MeaningOf(x), next);
    } else {
      NoValue(s, requireNul, |mark|, value, x);
      if x.NumberOf? && !requireNul { LoneNumber(x, s, |mark|, value); }
    }
  }

  /** A buffer that holds one value that is not read to its end. */
  lemma NoValue(s: seq<byte>, requireNul: bool, start: nat, value: nat, x: Syntax)
    requires start < |s| && value < |s| && SkipMark(s) == start
    requires SkipBlanks(s, start) == value && Stuck(s, x, ParseValue(s, value, 0))
    ensures requireNul || !x.NumberOf? ==> ParseBuffer(s, requireNul) == None
  {
    hide ParseValue, SkipBlanks, SkipMark;
    match ParseValue(s, value, 0)
    case Failed(_) =>
    case Parsed(_, next) => InNumberStays(s, next);
  }

  lemma LoneNumber(x: Syntax, s: seq<byte>, start: nat, value: nat)
    requires x.NumberOf? && WellFormedSyntax(x) && !Readable(x, NESTING_LIMIT)
    requires At(s, value, TextOf(x)) && EndsNumber(s, value + |TextOf(x)|)
    requires start < |s| && value < |s| && SkipMark(s) == start && SkipBlanks(s, start) == value
    ensures var cut := ReadDecimal(NumberText(x.number)[..NUMBER_TEXT_LIMIT]);
            cut.Read? && ParseBuffer(s, false) == Some(Number(cut.value))
  {
    hide ParseValue, SkipBlanks, SkipMark, NumberText, ReadDecimal;
    NumberBytes(x.number);
    assert s[value] == NumberText(x.number)[0];
    NumberCase(s, value, 0);
    NumberIsCut(x.number, s, value);
  }

  /** A buffer that holds one value between blanks, seen through its parts. */
  lemma OneValue(s: seq<byte>, requireNul: bool, start: nat, value: nat, j: Json, next: nat)
    requires start < |s| && value < |s| && next < |s| && s[|s| - 1] == NUL && SkipMark(s) == start
    requires SkipBlanks(s, start) == value && ParseValue(s, value, 0) == Parsed(j, next)
    requires SkipBlanks(s, next) == |s| - 1
    ensures ParseBuffer(s, requireNul) == Some(j)
  {
  }

  lemma DocumentParts(s: seq<byte>, mark: seq<byte>, before: seq<byte>, text: seq<byte>, after: seq<byte>)
    requires s == mark + before + text + after + [NUL]
    ensures At(s, 0, mark) && At(s, |mark|, before) && At(s, |mark| + |before|, text)
    ensures At(s, |mark| + |before| + |text|, after + [NUL])
    ensures |s| == |mark| + |before| + |text| + |after| + 1
  {
  }

  /** A byte order mark is skipped, and nothing else is taken for one. */
  lemma MarkSkipped(s: seq<byte>, marked: bool, before: seq<byte>, value: nat)
    requires var mark: seq<byte> := if marked then BYTE_ORDER_MARK else [];
             At(s, 0, mark) && At(s, |mark|, before) && IsBlankText(before) && value == |mark| + |before|
    requires value + 1 < |s| && SPACE < s[value] < 0x80
    ensures SkipMark(s) == if marked then 3 else 0
  {
    if marked {
      assert s[0] == BYTE_ORDER_MARK[0] && s[1] == BYTE_ORDER_MARK[1] && s[2] == BYTE_ORDER_MARK[2];
      assert s[..3] == BYTE_ORDER_MARK;
    } else {
      assert before != [] ==> s[0] == before[0];
      assert |s| > 4 ==> s[..3][0] == s[0] < 0x80;
    }
  }

  lemma OnlyBlanksLeft(s: seq<byte>, off: nat, after: seq<byte>)
    requires At(s, off, after + [NUL]) && off + |after| + 1 == |s| && IsBlankText(after)
    ensures off < |s| && !IsNumberByte(s[off]) && SkipBlanks(s, off) == |s| - 1 && s[|s| - 1] == NUL
  {
    forall k | off <= k < |s| ensures s[k] <= SPACE {
      assert s[k] == (after + [NUL])[k - off];
    }
    assert s[|s| - 1] == (after + [NUL])[|after|];
    BlanksToEnd(s, off);
  }

  /** Blanks up to the end of the buffer leave the parser on the last byte. */
  lemma BlanksToEnd(s: seq<byte>, off: nat)
    requires off < |s| && forall k :: off <= k < |s| ==> s[k] <= SPACE
    ensures BlankEnd(s, off) == |s| && SkipBlanks(s, off) == |s| - 1
  {
  }
}

/**
 The language the parser accepts, stated without its cursor: blanks up to the space character,
 numbers as strtod takes them, strings as the two scans see them. The parser reads a value exactly
 where one is spelled.
 */
module JsonAccepted {
  import opened Options
  import opened JsonTree
  import opened JsonNumbers
  import opened JsonStrings
  import opened JsonParser
  import opened JsonGrammar

  // ----- numbers -----

  lemma SliceStands(s: seq<byte>, off: nat, end: nat)
    requires off <= end <= |s|
    ensures At(s, off, s[off..end])
  {
  }

  /** A number of strtod's syntax that starts with a minus sign or a digit and fits parse_number's buffer. */
  ghost predicate SpellsNumber(t: seq<byte>, v: real) {
    |t| <= NUMBER_TEXT_LIMIT
    && exists n ::
        LooseNumber(n) && (n.negative || n.whole != []) && NumberText(n) == t && NumberMeaning(n) == v
  }

  /** No longer number starts at `off`. */
  ghost predicate Longest(s: seq<byte>, off: nat, end: nat) {
    forall e, v :: off <= end < e <= |s| ==> !SpellsNumber(s[off..e], v)
  }

  /** The parts strtod found, put together: the bytes it read and the value it gave. */
  lemma ReadIsNumber(t: seq<byte>) returns (n: NumberSyntax)
    requires ReadDecimal(t).Read? && t[0] != PLUS
    ensures LooseNumber(n) && NumberText(n) == t[..ReadDecimal(t).length] && NumberMeaning(n) == ReadDecimal(t).value
    ensures IsDigit(t[0]) ==> n.whole != []
    ensures n.negative <==> t[0] == MINUS
  {
    hide NatOf, Scale10, At, ReadDecimal, ReadExponent, ExponentText, ExponentValue, WellFormedExponent;
    hide SignEnd, DigitsEnd, NumberText, OnlyDigits, IsDigit, SignText, FractionText, Decimal, NumberMeaning;
    var start := SignEnd(t, 0);
    var whole := DigitsEnd(t, start);
    var f, end := FractionAt(t, whole);
    var e := ExponentAt(t, end);
    n := NumberSyntax(t[0] == MINUS, t[start..whole], f, e);
    SignAndDigits(t, start);
    FoundDigits(t, start);
    HasDigits(t, start, whole, f, end);
    NumberStands(t, n, start, whole, end);
    DecimalOfParts(t, n.whole, f, end, ExponentValue(e), end + |ExponentText(e)|);
    MeaningOfParts(t, n, end + |ExponentText(e)|);
  }

  lemma FractionAt(t: seq<byte>, i: nat) returns (f: Option<seq<byte>>, end: nat)
    requires i <= |t|
    ensures i <= end <= |t| && FractionText(f) == t[i..end] && OnlyDigits(FractionDigits(f))
    ensures (i < |t| && t[i] == POINT) <==> f.Some?
    ensures if f.Some? then DigitsEnd(t, i + 1) == end && t[i + 1..end] == f.value else end == i
  {
    hide DigitsEnd, OnlyDigits;
    f, end := None, i;
    FoundDigits(t, i);
    if i < |t| && t[i] == POINT {
      FoundDigits(t, i + 1);
      end := DigitsEnd(t, i + 1);
      f := Some(t[i + 1..end]);
      assert t[i..end] == [POINT] + t[i + 1..end];
    }
  }

  /** Without any digit strtod reads nothing. */
  lemma HasDigits(t: seq<byte>, start: nat, whole: nat, f: Option<seq<byte>>, end: nat)
    requires ReadDecimal(t).Read? && start == SignEnd(t, 0) && whole == DigitsEnd(t, start)
    requires (whole < |t| && t[whole] == POINT) <==> f.Some?
    requires if f.Some? then DigitsEnd(t, whole + 1) == end && t[whole + 1..end] == f.value else end == whole
    ensures whole - start + |FractionDigits(f)| > 0
  {
    hide NatOf, Scale10, ReadExponent, DigitsEnd, IsDigit;
  }

  lemma FoundDigits(t: seq<byte>, i: nat)
    requires i <= |t|
    ensures OnlyDigits(t[i..DigitsEnd(t, i)]) && OnlyDigits([])
  {
  }

  lemma SignAndDigits(t: seq<byte>, start: nat)
    requires t != [] && t[0] != PLUS && start == SignEnd(t, 0)
    ensures t[..start] == SignText(t[0] == MINUS)
    ensures IsDigit(t[0]) ==> DigitsEnd(t, start) > start
  {
  }

  /** Parts that follow one another are the start of the text. */
  lemma NumberStands(t: seq<byte>, n: NumberSyntax, start: nat, whole: nat, end: nat)
    requires start <= whole <= end <= |t| && SignText(n.negative) == t[..start] && n.whole == t[start..whole]
    requires FractionText(n.fraction) == t[whole..end] && At(t, end, ExponentText(n.exponent))
    ensures NumberText(n) == t[..end + |ExponentText(n.exponent)|]
  {
    hide SignText, FractionText, ExponentText;
    assert t[..end] == SignText(n.negative) + n.whole + FractionText(n.fraction);
  }

  lemma ExponentAt(t: seq<byte>, i: nat) returns (e: Option<Exponent>)
    requires i <= |t|
    ensures e.Some? ==> WellFormedExponent(e.value)
    ensures At(t, i, ExponentText(e)) && ReadExponent(t, i) == (ExponentValue(e), i + |ExponentText(e)|)
  {
    hide NatOf, DigitsEnd, At, ReadExponent, ExponentText, ExponentValue, WellFormedExponent;
    e := None;
    ExponentMissing(t, i);
    if i < |t| && (t[i] == LOWER_E || t[i] == UPPER_E) && SignEnd(t, i + 1) < DigitsEnd(t, SignEnd(t, i + 1)) {
      e := ExponentThere(t, i);
    }
  }

  lemma ExponentMissing(t: seq<byte>, i: nat)
    requires i <= |t|
    ensures ExponentText(None) == [] && ExponentValue(None) == 0 && At(t, i, [])
    ensures !(i < |t| && (t[i] == LOWER_E || t[i] == UPPER_E) && SignEnd(t, i + 1) < DigitsEnd(t, SignEnd(t, i + 1)))
            ==> ReadExponent(t, i) == (0, i)
  {
    hide NatOf;
  }

  lemma ExponentThere(t: seq<byte>, i: nat) returns (e: Option<Exponent>)
    requires i < |t| && (t[i] == LOWER_E || t[i] == UPPER_E) && SignEnd(t, i + 1) < DigitsEnd(t, SignEnd(t, i + 1))
    ensures e.Some? && WellFormedExponent(e.value)
    ensures At(t, i, ExponentText(e)) && ReadExponent(t, i) == (ExponentValue(e), i + |ExponentText(e)|)
  {
    hide NatOf, DigitsEnd, At, ReadExponent, ExponentText, ExponentValue;
    var start := SignEnd(t, i + 1);
    var end := DigitsEnd(t, start);
    e := Some(Exponent(t[i], if start == i + 1 then None else Some(t[i + 1]), t[start..end]));
    ExponentSlice(t, i, start, end, e.value);
    ExponentReadAs(t, i, e.value);
    SliceStands(t, i, end);
  }

  lemma ExponentSlice(t: seq<byte>, i: nat, start: nat, end: nat, x: Exponent)
    requires i < start <= end <= |t| && x.letter == t[i] && x.digits == t[start..end]
    requires if start == i + 1 then x.sign == None else start == i + 2 && x.sign == Some(t[i + 1])
    ensures ExponentText(Some(x)) == t[i..end]
  {
    hide OnlyDigits;
    var sign: seq<byte> := match x.sign case None => [] case Some(b) => [b];
    assert t[i + 1..start] == sign;
    assert t[i..end] == [t[i]] + t[i + 1..start] + t[start..end];
  }

  lemma ExponentReadAs(t: seq<byte>, i: nat, x: Exponent)
    requires i < |t| && (t[i] == LOWER_E || t[i] == UPPER_E) && WellFormedExponent(x)
    requires var start := SignEnd(t, i + 1);
             var end := DigitsEnd(t, start);
             start < end && x.digits == t[start..end] && (x.sign == Some(MINUS) <==> t[i + 1] == MINUS)
    ensures ReadExponent(t, i) == (ExponentValue(Some(x)), DigitsEnd(t, SignEnd(t, i + 1)))
  {
    hide NatOf, PlaceValue, DigitsEnd, SignEnd;
    NatOfIs(x.digits);
  }

  lemma {:induction false} DigitsEndOfStart(t: seq<byte>, i: nat, k: nat)
    requires i <= k <= |t|
    ensures DigitsEnd(t[..k], i) == if DigitsEnd(t, i) < k then DigitsEnd(t, i) else k
    decreases k - i
  {
    if i < k && IsDigit(t[i]) { DigitsEndOfStart(t, i + 1, k); }
  }

  /** strtod reads at least as far as any start of the text that it would read completely. */
  lemma ReadsFurther(t: seq<byte>, k: nat)
    requires k <= |t| && ReadDecimal(t[..k]).Read? && ReadDecimal(t[..k]).length == k
    ensures ReadDecimal(t).Read? && ReadDecimal(t).length >= k
  {
    hide DigitsEnd, NatOf, Scale10, ReadExponent;
    var start := SignEnd(t, 0);
    var whole := DigitsEnd(t, start);
    DigitsEndOfStart(t, start, k);
    if whole < k && t[whole] == POINT {
      DigitsEndOfStart(t, whole + 1, k);
      ExponentFurther(t, k, if DigitsEnd(t, whole + 1) < k then DigitsEnd(t, whole + 1) else k);
    } else {
      ExponentFurther(t, k, if whole < k then whole else k);
    }
  }

  lemma ExponentFurther(t: seq<byte>, k: nat, i: nat)
    requires i <= k <= |t| && ReadExponent(t[..k], i).1 == k
    ensures ReadExponent(t, i).1 >= k
  {
    hide DigitsEnd, NatOf;
    if i < k {
      DigitsEndOfStart(t, SignEnd(t, i + 1), k);
    }
  }

  // ----- strings -----

  /** A quoted text whose closing quote is the first that the first scan meets, as the second scan decodes it. */
  ghost predicate SpellsString(t: seq<byte>, text: seq<byte>) {
    |t| > 1 && t[0] == QUOTE && ScanString(t, 1) == Some(|t| - 1)
    && Unescape(t, 1, |t| - 1).Decoded? && text == CString(Unescape(t, 1, |t| - 1).bytes)
  }

  lemma {:induction false} ScanAlone(s: seq<byte>, off: nat, t: seq<byte>, i: nat)
    requires At(s, off, t) && i <= |t|
    ensures ScanString(t, i).Some? ==> ScanString(s, off + i) == Some(off + ScanString(t, i).value)
    ensures var end := ScanString(s, off + i);
            end.Some? && end.value < off + |t| ==> ScanString(t, i) == Some(end.value - off)
    decreases |t| - i
  {
    if i < |t| {
      assert s[off + i] == t[i];
      if t[i] != QUOTE {
        var n := if t[i] == BACKSLASH then 2 else 1;
        if i + n <= |t| { ScanAlone(s, off, t, i + n); }
      }
    }
  }

  lemma StepAlone(s: seq<byte>, off: nat, t: seq<byte>, j: nat, end: nat)
    requires At(s, off, t) && j < end < |t|
    ensures DecodeStep(s, off + j, off + end) == DecodeStep(t, j, end)
  {
    hide HexValue, Utf8;
    if t[j] == BACKSLASH && t[j + 1] == LOWER_U && end - j >= 6 {
      HexAlone(s, off, t, j + 2);
      if end - j >= 12 { HexAlone(s, off, t, j + 8); }
    }
  }

  lemma HexAlone(s: seq<byte>, off: nat, t: seq<byte>, i: nat)
    requires At(s, off, t) && i + 4 <= |t|
    ensures Hex4(s, off + i) == Hex4(t, i)
  {
    assert s[off + i..off + i + 4] == t[i..i + 4];
  }

  lemma {:induction false} UnescapeAlone(s: seq<byte>, off: nat, t: seq<byte>, j: nat, end: nat)
    requires At(s, off, t) && j <= end + 1 && end < |t|
    ensures Unescape(s, off + j, off + end).Decoded? <==> Unescape(t, j, end).Decoded?
    ensures Unescape(t, j, end).Decoded? ==> Unescape(s, off + j, off + end) == Unescape(t, j, end)
    decreases end + 1 - j
  {
    hide DecodeStep;
    if j < end {
      StepAlone(s, off, t, j, end);
      var step := DecodeStep(t, j, end);
      if step.Step? { UnescapeAlone(s, off, t, j + step.length, end); }
    }
  }

  /** parse_string gives a text and an end exactly where a string of that text is spelled. */
  lemma StringExactly(s: seq<byte>, off: nat, text: seq<byte>, end: nat)
    requires off < |s|
    ensures ParseString(s, off) == Parsed(text, end) <==> off < end <= |s| && SpellsString(s[off..end], text)
  {
    hide ScanString, Unescape, At, CString;
    if off < end <= |s| {
      var t := s[off..end];
      SliceStands(s, off, end);
      if |t| > 1 {
        ScanAlone(s, off, t, 1);
        UnescapeAlone(s, off, t, 1, |t| - 1);
      }
    }
  }

  // ----- numbers in a buffer -----

  lemma SpelledBytes(t: seq<byte>, v: real)
    requires SpellsNumber(t, v)
    ensures t != [] && (t[0] == MINUS || IsDigit(t[0])) && |t| <= NUMBER_TEXT_LIMIT
    ensures forall k :: 0 <= k < |t| ==> IsNumberByte(t[k])
    ensures ReadDecimal(t) == Read(v, |t|)
  {
    hide ReadDecimal, NumberMeaning, ExponentText;
    var n :| LooseNumber(n) && (n.negative || n.whole != []) && NumberText(n) == t && NumberMeaning(n) == v;
    NumberReads(n);
    LooseBytes(n);
  }

  lemma LooseBytes(n: NumberSyntax)
    requires LooseNumber(n) && (n.negative || n.whole != [])
    ensures var t := NumberText(n);
            |t| > 0 && (t[0] == MINUS || IsDigit(t[0])) && forall k :: 0 <= k < |t| ==> IsNumberByte(t[k])
  {
  }

  /** parse_number copies at least the number bytes that stand at `off`, as far as its buffer goes. */
  lemma {:induction false} RunCovers(s: seq<byte>, off: nat, k: nat, end: nat)
    requires off + k <= end <= |s| && end - off <= NUMBER_TEXT_LIMIT
    requires forall i :: off <= i < end ==> IsNumberByte(s[i])
    ensures NumberRun(s, off, k) >= end - off
    decreases end - k
  {
    if off + k < end { RunCovers(s, off, k + 1, end); }
  }

  lemma SpelledInRun(s: seq<byte>, off: nat, end: nat, v: real)
    requires off < end <= |s| && SpellsNumber(s[off..end], v)
    ensures var run := s[off..off + NumberRun(s, off, 0)];
            && end - off <= |run| && run[..end - off] == s[off..end]
            && ReadDecimal(run).Read? && ReadDecimal(run).length >= end - off
  {
    hide SpellsNumber, ReadDecimal, NumberRun, IsNumberByte;
    var t := s[off..end];
    SpelledBytes(t, v);
    forall i | off <= i < end ensures IsNumberByte(s[i]) {
      assert s[i] == t[i - off];
    }
    RunCovers(s, off, 0, end);
    var run := s[off..off + NumberRun(s, off, 0)];
    assert run[..end - off] == t;
    ReadsFurther(run, end - off);
  }

  /** What parse_number reads is a number, and no longer one stands there. */
  lemma ReadNumberIsSpelled(s: seq<byte>, off: nat)
    requires off < |s| && (s[off] == MINUS || IsDigit(s[off])) && ParseNumber(s, off).Parsed?
    ensures var p := ParseNumber(s, off);
            SpellsNumber(s[off..p.next], p.value.number) && Longest(s, off, p.next)
  {
    hide ReadDecimal, NumberRun, NumberText, NumberMeaning;
    var run := s[off..off + NumberRun(s, off, 0)];
    var end := ParseNumber(s, off).next;
    var n := ReadIsNumber(run);
    assert run[..end - off] == s[off..end];
    assert SpellsNumber(s[off..end], ReadDecimal(run).value);
    forall e, v | off <= end < e <= |s| ensures !SpellsNumber(s[off..e], v) {
      if SpellsNumber(s[off..e], v) { SpelledInRun(s, off, e, v); }
    }
  }

  lemma NumberExactly(s: seq<byte>, off: nat, v: real, end: nat)
    requires off < |s| && (s[off] == MINUS || IsDigit(s[off]))
    ensures ParseNumber(s, off) == Parsed(Number(v), end)
       <==> off < end <= |s| && SpellsNumber(s[off..end], v) && Longest(s, off, end)
  {
    hide ReadDecimal, NumberRun, SpellsNumber, ParseNumber;
    if ParseNumber(s, off) == Parsed(Number(v), end) { ReadNumberIsSpelled(s, off); }
    if off < end <= |s| && SpellsNumber(s[off..end], v) && Longest(s, off, end) {
      SpelledIsRead(s, off, end, v);
    }
  }

  lemma SpelledIsRead(s: seq<byte>, off: nat, end: nat, v: real)
    requires off < end <= |s| && (s[off] == MINUS || IsDigit(s[off]))
    requires SpellsNumber(s[off..end], v) && Longest(s, off, end)
    ensures ParseNumber(s, off) == Parsed(Number(v), end)
  {
    hide ReadDecimal, NumberRun, SpellsNumber;
    SpelledInRun(s, off, end, v);
    ReadNumberIsSpelled(s, off);
    var p := ParseNumber(s, off);
    assert p.next == end;
    SpelledBytes(s[off..end], v);
    SpelledBytes(s[off..end], p.value.number);
  }

  /** Where the number bytes end, the number is the longest. */
  lemma EndedIsLongest(s: seq<byte>, off: nat, end: nat)
    requires off <= end && EndsNumber(s, end)
    ensures Longest(s, off, end)
  {
    hide SpellsNumber, IsNumberByte;
    forall e, v | off <= end < e <= |s| ensures !SpellsNumber(s[off..e], v) {
      if SpellsNumber(s[off..e], v) { SpelledByte(s, off, e, v, end); }
    }
  }

  lemma SpelledByte(s: seq<byte>, off: nat, end: nat, v: real, k: nat)
    requires off <= k < end <= |s| && SpellsNumber(s[off..end], v)
    ensures IsNumberByte(s[k])
  {
    hide SpellsNumber, IsNumberByte;
    SpelledBytes(s[off..end], v);
    assert s[off..end][k - off] == s[k];
  }

  // ----- values -----

  ghost predicate Blank(s: seq<byte>, off: nat, end: nat) {
    off <= end <= |s| && forall k :: off <= k < end ==> s[k] <= SPACE
  }

  /** The value `j` is spelled by the bytes from `off` to `end`. */
  ghost predicate Spelled(j: Json, s: seq<byte>, off: nat, end: nat)
    decreases j, 1
  {
    off < end <= |s| &&
    match j
    case Null => s[off..end] == NULL_TEXT
    case Bool(b) => s[off..end] == if b then TRUE_TEXT else FALSE_TEXT
    case Number(v) => SpellsNumber(s[off..end], v)
    case String(text) => SpellsString(s[off..end], text)
    case Array(items) =>
      s[off] == OPEN_BRACKET && s[end - 1] == CLOSE_BRACKET && off + 1 < end
      && if items == [] then Blank(s, off + 1, end - 1) else SpelledItems(items, s, off + 1, end - 1)
    case Object(members) =>
      s[off] == OPEN_BRACE && s[end - 1] == CLOSE_BRACE && off + 1 < end
      && if members == [] then Blank(s, off + 1, end - 1) else SpelledMembers(members, s, off + 1, end - 1)
  }

  /** A value with blanks on both sides. */
  ghost predicate Padded(j: Json, s: seq<byte>, off: nat, end: nat)
    decreases j, 2
  {
    exists a: nat, b: nat :: Blank(s, off, a) && Spelled(j, s, a, b) && Blank(s, b, end)
  }

  /** A string with blanks on both sides. */
  ghost predicate PaddedKey(text: seq<byte>, s: seq<byte>, off: nat, end: nat) {
    exists a: nat, b: nat :: Blank(s, off, a) && a < b <= |s| && SpellsString(s[a..b], text) && Blank(s, b, end)
  }

  /** Padded values with a comma between one and the next. */
  ghost predicate SpelledItems(items: seq<Json>, s: seq<byte>, off: nat, end: nat)
    requires items != []
    decreases items, 0
  {
    exists c: nat ::
      Padded(items[0], s, off, c)
      && if |items| == 1 then c == end else c < end <= |s| && s[c] == COMMA && SpelledItems(items[1..], s, c + 1, end)
  }

  /** A padded string, a colon and a padded value. */
  ghost predicate SpelledMember(m: Member, s: seq<byte>, off: nat, end: nat)
    decreases m, 3
  {
    exists c: nat :: PaddedKey(m.key, s, off, c) && c < |s| && s[c] == COLON && Padded(m.item, s, c + 1, end)
  }

  ghost predicate SpelledMembers(members: seq<Member>, s: seq<byte>, off: nat, end: nat)
    requires members != []
    decreases members, 0
  {
    exists c: nat ::
      SpelledMember(members[0], s, off, c)
      && if |members| == 1 then c == end
         else c < end <= |s| && s[c] == COMMA && SpelledMembers(members[1..], s, c + 1, end)
  }

  /** A value starts with a visible byte that fixes its kind, and ends with a visible byte. */
  lemma SpelledEnds(j: Json, s: seq<byte>, off: nat, end: nat)
    requires Spelled(j, s, off, end)
    ensures off < end <= |s|
    ensures SPACE < s[off] < 0x80 && s[off] != CLOSE_BRACKET && s[off] != CLOSE_BRACE && s[end - 1] > SPACE
    ensures j.Number? <==> s[off] == MINUS || IsDigit(s[off])
    ensures j.String? <==> s[off] == QUOTE
    ensures j.Array? <==> s[off] == OPEN_BRACKET
    ensures j.Object? <==> s[off] == OPEN_BRACE
  {
    hide SpellsNumber, ScanString, Unescape, SpelledItems, SpelledMembers, Blank;
    var t := s[off..end];
    assert s[off] == t[0] && s[end - 1] == t[|t| - 1];
    if j.Number? { SpelledBytes(t, j.number); }
  }

  // ----- blanks -----

  lemma SkippedIsBlank(s: seq<byte>, off: nat)
    requires off <= |s|
    ensures Blank(s, off, SkipBlanks(s, off))
  {
  }

  lemma SkipsBlank(s: seq<byte>, off: nat, end: nat)
    requires Blank(s, off, end) && end < |s| && s[end] > SPACE
    ensures SkipBlanks(s, off) == end
  {
    BlankEndIs(s, off, end);
  }

  lemma SkipsTwice(s: seq<byte>, off: nat)
    requires off < |s|
    ensures SkipBlanks(s, SkipBlanks(s, off)) == SkipBlanks(s, off)
  {
    var end := BlankEnd(s, off);
    if end == |s| {
      BlanksToEnd(s, |s| - 1);
    } else {
      BlankEndIs(s, end, end);
    }
  }

  /** The element loop may start before or behind the blanks. */
  lemma ItemsFromBlanks(s: seq<byte>, off: nat, depth: nat)
    requires off < |s| && depth <= NESTING_LIMIT
    ensures ParseItems(s, SkipBlanks(s, off), depth) == ParseItems(s, off, depth)
  {
    hide ParseValue, SkipBlanks;
    SkipsTwice(s, off);
  }

  lemma MembersFromBlanks(s: seq<byte>, off: nat, depth: nat)
    requires 0 < off < |s| && depth <= NESTING_LIMIT
    ensures SkipBlanks(s, off) > 0 && ParseMembers(s, SkipBlanks(s, off), depth) == ParseMembers(s, off, depth)
  {
    hide ParseMember, SkipBlanks;
    SkippedIsBlank(s, off);
    MemberFromBlanks(s, off, depth);
  }

  lemma MemberFromBlanks(s: seq<byte>, off: nat, depth: nat)
    requires 0 < off < |s| && depth <= NESTING_LIMIT
    ensures SkipBlanks(s, off) > 0 && ParseMember(s, SkipBlanks(s, off), depth) == ParseMember(s, off, depth)
  {
    hide ParseValue, ParseString, SkipBlanks;
    SkippedIsBlank(s, off);
    SkipsTwice(s, off);
  }

  // ----- what is read is spelled -----

  lemma LiteralIsSpelled(s: seq<byte>, off: nat, depth: nat)
    requires off <= |s| && depth <= NESTING_LIMIT
    requires Matches(s, off, NULL_TEXT) || Matches(s, off, FALSE_TEXT) || Matches(s, off, TRUE_TEXT)
    ensures var p := ParseValue(s, off, depth);
            p.Parsed? && Spelled(p.value, s, off, p.next) && !p.value.Number?
  {
  }

  lemma ScalarIsSpelled(s: seq<byte>, off: nat, depth: nat)
    requires off <= |s| && depth <= NESTING_LIMIT && ParseValue(s, off, depth).Parsed?
    requires off < |s| ==> s[off] != OPEN_BRACKET && s[off] != OPEN_BRACE
    ensures var p := ParseValue(s, off, depth);
            Spelled(p.value, s, off, p.next) && (p.value.Number? ==> Longest(s, off, p.next))
  {
    hide Matches, ParseNumber, ParseString, SpellsNumber, SpellsString, Longest;
    if Matches(s, off, NULL_TEXT) || Matches(s, off, FALSE_TEXT) || Matches(s, off, TRUE_TEXT) {
      LiteralIsSpelled(s, off, depth);
    } else {
      var p := ParseValue(s, off, depth);
      if s[off] == QUOTE {
        StringExactly(s, off, p.value.text, p.next);
      } else {
        NumberExactly(s, off, p.value.number, p.next);
      }
    }
  }

  /** Wherever parse_value reads a value, that value is spelled by the bytes it has read. */
  lemma {:induction false} ReadIsSpelled(s: seq<byte>, off: nat, depth: nat)
    requires off <= |s| && depth <= NESTING_LIMIT && ParseValue(s, off, depth).Parsed?
    ensures var p := ParseValue(s, off, depth);
            Spelled(p.value, s, off, p.next) && (p.value.Number? ==> Longest(s, off, p.next))
    decreases |s| - off, 0
  {
    hide ParseValue, Spelled, Longest;
    if off < |s| && s[off] == OPEN_BRACKET {
      ArrayIsSpelled(s, off, depth);
    } else if off < |s| && s[off] == OPEN_BRACE {
      ObjectIsSpelled(s, off, depth);
    } else {
      ScalarIsSpelled(s, off, depth);
    }
  }

  lemma {:induction false} ArrayIsSpelled(s: seq<byte>, off: nat, depth: nat)
    requires off < |s| && s[off] == OPEN_BRACKET && depth <= NESTING_LIMIT && ParseValue(s, off, depth).Parsed?
    ensures var p := ParseValue(s, off, depth); p.value.Array? && Spelled(p.value, s, off, p.next)
    decreases |s| - off - 1, 4
  {
    hide ParseValue, ParseItems, SkipBlanks, SpelledItems;
    ArrayCase(s, off, depth);
    SkippedIsBlank(s, off + 1);
    if s[SkipBlanks(s, off + 1)] != CLOSE_BRACKET {
      ItemsFromBlanks(s, off + 1, depth + 1);
      ItemsAreSpelled(s, off + 1, depth + 1);
    }
  }

  lemma {:induction false} ObjectIsSpelled(s: seq<byte>, off: nat, depth: nat)
    requires off < |s| && s[off] == OPEN_BRACE && depth <= NESTING_LIMIT && ParseValue(s, off, depth).Parsed?
    ensures var p := ParseValue(s, off, depth); p.value.Object? && Spelled(p.value, s, off, p.next)
    decreases |s| - off - 1, 4
  {
    hide ParseValue, ParseMembers, SkipBlanks, SpelledMembers;
    ObjectCase(s, off, depth);
    SkippedIsBlank(s, off + 1);
    if s[SkipBlanks(s, off + 1)] != CLOSE_BRACE {
      MembersFromBlanks(s, off + 1, depth + 1);
      MembersAreSpelled(s, off + 1, depth + 1);
    }
  }

  lemma {:induction false} ItemsAreSpelled(s: seq<byte>, off: nat, depth: nat)
    requires off <= |s| && depth <= NESTING_LIMIT && ParseItems(s, off, depth).Parsed?
    ensures var p := ParseItems(s, off, depth);
            p.value != [] && s[p.next - 1] == CLOSE_BRACKET && SpelledItems(p.value, s, off, p.next - 1)
    decreases |s| - off, 2
  {
    hide ParseValue, SkipBlanks, Padded, SpelledItems;
    var p := ParseValue(s, SkipBlanks(s, off), depth);
    ReadIsPadded(s, off, depth);
    var c := SkipBlanks(s, p.next);
    if s[c] == COMMA {
      ItemsAreSpelled(s, c + 1, depth);
      MoreSpelled(s, off, p.value, c, ParseItems(s, c + 1, depth).value, ParseItems(s, c + 1, depth).next - 1);
    } else {
      OneSpelled(s, off, p.value, c);
    }
  }

  lemma {:induction false} ReadIsPadded(s: seq<byte>, off: nat, depth: nat)
    requires off <= |s| && depth <= NESTING_LIMIT && ParseValue(s, SkipBlanks(s, off), depth).Parsed?
    ensures var p := ParseValue(s, SkipBlanks(s, off), depth); Padded(p.value, s, off, SkipBlanks(s, p.next))
    decreases |s| - off, 1
  {
    hide ParseValue, SkipBlanks, Spelled, Blank;
    SkippedIsBlank(s, off);
    ReadIsSpelled(s, SkipBlanks(s, off), depth);
    SkippedIsBlank(s, ParseValue(s, SkipBlanks(s, off), depth).next);
  }

  lemma OneSpelled(s: seq<byte>, off: nat, item: Json, c: nat)
    requires Padded(item, s, off, c)
    ensures SpelledItems([item], s, off, c)
  {
    hide Padded;
    assert Padded([item][0], s, off, c);
  }

  lemma MoreSpelled(s: seq<byte>, off: nat, item: Json, c: nat, rest: seq<Json>, end: nat)
    requires Padded(item, s, off, c) && c < end <= |s| && s[c] == COMMA
    requires rest != [] && SpelledItems(rest, s, c + 1, end)
    ensures SpelledItems([item] + rest, s, off, end)
  {
    hide Padded;
    var items := [item] + rest;
    assert items[1..] == rest;
    assert Padded(items[0], s, off, c);
  }

  lemma {:induction false} MembersAreSpelled(s: seq<byte>, off: nat, depth: nat)
    requires 0 < off <= |s| && depth <= NESTING_LIMIT && ParseMembers(s, off, depth).Parsed?
    ensures var p := ParseMembers(s, off, depth);
            p.value != [] && s[p.next - 1] == CLOSE_BRACE && SpelledMembers(p.value, s, off, p.next - 1)
    decreases |s| - off, 3
  {
    hide ParseMember, SpelledMember;
    var p := ParseMember(s, off, depth);
    MemberIsSpelled(s, off, depth);
    var c := p.next;
    if s[c] == COMMA {
      MembersAreSpelled(s, c + 1, depth);
      MoreMembersSpelled(s, off, p.value, c, ParseMembers(s, c + 1, depth).value, ParseMembers(s, c + 1, depth).next - 1);
    }
  }

  lemma MoreMembersSpelled(s: seq<byte>, off: nat, m: Member, c: nat, rest: seq<Member>, end: nat)
    requires SpelledMember(m, s, off, c) && c < end <= |s| && s[c] == COMMA
    requires rest != [] && SpelledMembers(rest, s, c + 1, end)
    ensures SpelledMembers([m] + rest, s, off, end)
  {
    hide SpelledMember;
    var members := [m] + rest;
    assert members[1..] == rest;
    assert SpelledMember(members[0], s, off, c);
  }

  lemma {:induction false} MemberIsSpelled(s: seq<byte>, off: nat, depth: nat)
    requires 0 < off <= |s| && depth <= NESTING_LIMIT && ParseMember(s, off, depth).Parsed?
    ensures var p := ParseMember(s, off, depth); SpelledMember(p.value, s, off, p.next)
    decreases |s| - off, 2
  {
    hide ParseValue, ParseString, SkipBlanks, Padded, PaddedKey;
    var name := ParseString(s, SkipBlanks(s, off));
    KeyIsPadded(s, off);
    ReadIsPadded(s, SkipBlanks(s, name.next) + 1, depth);
  }

  lemma KeyIsPadded(s: seq<byte>, off: nat)
    requires off < |s| && ParseString(s, SkipBlanks(s, off)).Parsed?
    ensures var p := ParseString(s, SkipBlanks(s, off)); PaddedKey(p.value, s, off, SkipBlanks(s, p.next))
  {
    hide ParseString, SkipBlanks, Blank, SpellsString;
    var key := SkipBlanks(s, off);
    var name := ParseString(s, key);
    SkippedIsBlank(s, off);
    StringExactly(s, key, name.value, name.next);
    SkippedIsBlank(s, name.next);
  }

  // ----- what is spelled is read -----

  lemma ScalarIsRead(j: Json, s: seq<byte>, off: nat, end: nat, depth: nat)
    requires Spelled(j, s, off, end) && depth <= NESTING_LIMIT && !j.Array? && !j.Object?
    requires j.Number? ==> Longest(s, off, end)
    ensures ParseValue(s, off, depth) == Parsed(j, end)
  {
    hide ParseValue, ParseNumber, ParseString, SpellsNumber, SpellsString, Longest;
    SpelledEnds(j, s, off, end);
    match j
    case Null => LiteralIsRead(j, s, off, depth, NullText);
    case Bool(b) => LiteralIsRead(j, s, off, depth, BoolText(b));
    case Number(v) =>
      NumberCase(s, off, depth);
      NumberExactly(s, off, v, end);
    case String(text) =>
      StringExactly(s, off, text, end);
      StringCase(s, off, depth);
  }

  lemma LiteralIsRead(j: Json, s: seq<byte>, off: nat, depth: nat, x: Syntax)
    requires (x.NullText? || x.BoolText?) && MeaningOf(x) == j && depth <= NESTING_LIMIT
    requires off + |TextOf(x)| <= |s| && s[off..off + |TextOf(x)|] == TextOf(x)
    ensures ParseValue(s, off, depth) == Parsed(j, off + |TextOf(x)|)
  {
    hide ParseValue;
    SliceStands(s, off, off + |TextOf(x)|);
    LiteralParses(x, s, off, depth);
  }

  lemma StringCase(s: seq<byte>, off: nat, depth: nat)
    requires off < |s| && depth <= NESTING_LIMIT && s[off] == QUOTE
    ensures ParseValue(s, off, depth) ==
            match ParseString(s, off)
            case Failed(at) => Failed(at)
            case Parsed(text, next) => Parsed(String(text), next)
  {
    hide ParseString;
    NotLiteral(s, off);
  }

  /** Wherever a value is spelled, parse_value reads it, if the nesting limit leaves room for it. */
  lemma {:induction false} SpelledIsParsed(j: Json, s: seq<byte>, off: nat, end: nat, depth: nat)
    requires Spelled(j, s, off, end) && depth + Nesting(j) <= NESTING_LIMIT
    requires j.Number? ==> Longest(s, off, end)
    ensures ParseValue(s, off, depth) == Parsed(j, end)
    decreases j, 1
  {
    hide ParseValue, ParseItems, ParseMembers, SkipBlanks, SpelledItems, SpelledMembers, Longest;
    match j
    case Array(items) =>
      ArrayCase(s, off, depth);
      if items == [] {
        SkipsBlank(s, off + 1, end - 1);
      } else {
        ItemsFromBlanks(s, off + 1, depth + 1);
        ItemsVisible(items, s, off + 1, end - 1);
        ItemsAreParsed(items, s, off + 1, end - 1, depth + 1);
      }
    case Object(members) =>
      ObjectCase(s, off, depth);
      if members == [] {
        SkipsBlank(s, off + 1, end - 1);
      } else {
        MembersFromBlanks(s, off + 1, depth + 1);
        MembersVisible(members, s, off + 1, end - 1);
        MembersAreParsed(members, s, off + 1, end - 1, depth + 1);
      }
    case _ => ScalarIsRead(j, s, off, end, depth);
  }

  /** Where a padded value stands, and that the parser comes to it. */
  lemma PaddedCuts(j: Json, s: seq<byte>, off: nat, end: nat) returns (a: nat, b: nat)
    requires Padded(j, s, off, end)
    ensures off <= a < b <= end <= |s| && Spelled(j, s, a, b) && Blank(s, b, end)
    ensures SkipBlanks(s, off) == a && s[a] != CLOSE_BRACKET
  {
    hide Spelled, Blank, SkipBlanks;
    a, b :| Blank(s, off, a) && Spelled(j, s, a, b) && Blank(s, b, end);
    SpelledOrder(j, s, off, a, b, end);
    SpelledEnds(j, s, a, b);
    SkipsBlank(s, off, a);
  }

  lemma SpelledOrder(j: Json, s: seq<byte>, off: nat, a: nat, b: nat, c: nat)
    requires Blank(s, off, a) && Spelled(j, s, a, b) && Blank(s, b, c)
    ensures off <= a < b <= c <= |s|
  {
  }

  lemma KeyCuts(text: seq<byte>, s: seq<byte>, off: nat, end: nat) returns (a: nat, b: nat)
    requires PaddedKey(text, s, off, end)
    ensures off <= a < b <= end <= |s| && SpellsString(s[a..b], text) && Blank(s, b, end)
    ensures SkipBlanks(s, off) == a && s[a] == QUOTE
  {
    hide ScanString, Unescape, SkipBlanks;
    a, b :| Blank(s, off, a) && a < b <= |s| && SpellsString(s[a..b], text) && Blank(s, b, end);
    assert s[a] == s[a..b][0];
    SkipsBlank(s, off, a);
  }

  lemma ItemsVisible(items: seq<Json>, s: seq<byte>, off: nat, end: nat)
    requires items != [] && SpelledItems(items, s, off, end)
    ensures off < end <= |s| && SkipBlanks(s, off) < |s| && s[SkipBlanks(s, off)] != CLOSE_BRACKET
  {
    hide Padded, SkipBlanks;
    var c: nat :|
      Padded(items[0], s, off, c)
      && if |items| == 1 then c == end else c < end <= |s| && s[c] == COMMA && SpelledItems(items[1..], s, c + 1, end);
    var a, b := PaddedCuts(items[0], s, off, c);
  }

  lemma MembersVisible(members: seq<Member>, s: seq<byte>, off: nat, end: nat)
    requires members != [] && SpelledMembers(members, s, off, end)
    ensures off < end <= |s| && SkipBlanks(s, off) < |s| && s[SkipBlanks(s, off)] == QUOTE
  {
    hide Spelled, SpelledMember, SkipBlanks;
    var c: nat :|
      SpelledMember(members[0], s, off, c)
      && if |members| == 1 then c == end
         else c < end <= |s| && s[c] == COMMA && SpelledMembers(members[1..], s, c + 1, end);
    MemberVisible(members[0], s, off, c);
  }

  lemma MemberVisible(m: Member, s: seq<byte>, off: nat, end: nat)
    requires SpelledMember(m, s, off, end)
    ensures off < end <= |s| && SkipBlanks(s, off) < |s| && s[SkipBlanks(s, off)] == QUOTE
  {
    hide Padded, PaddedKey, SkipBlanks;
    var c: nat :| PaddedKey(m.key, s, off, c) && c < |s| && s[c] == COLON && Padded(m.item, s, c + 1, end);
    var key, keyEnd := KeyCuts(m.key, s, off, c);
    var a, b := PaddedCuts(m.item, s, c + 1, end);
  }

  /** Blanks and a visible byte that no number holds end a number. */
  lemma StopIsLongest(j: Json, s: seq<byte>, off: nat, next: nat, stop: nat)
    requires Spelled(j, s, off, next) && Blank(s, next, stop)
    requires stop < |s| && s[stop] > SPACE && !IsNumberByte(s[stop])
    ensures Longest(s, off, next) && SkipBlanks(s, next) == stop
  {
    hide Longest, SpellsNumber, SpellsString, SpelledItems, SpelledMembers;
    EndedIsLongest(s, off, next);
    SkipsBlank(s, next, stop);
  }

  /** A padded value is read up to the visible byte behind it, if no number holds that. */
  lemma {:induction false} PaddedIsRead(j: Json, s: seq<byte>, off: nat, stop: nat, depth: nat) returns (next: nat)
    requires Padded(j, s, off, stop) && depth + Nesting(j) <= NESTING_LIMIT
    requires stop < |s| && s[stop] > SPACE && !IsNumberByte(s[stop])
    ensures off < next <= |s|
    ensures ParseValue(s, SkipBlanks(s, off), depth) == Parsed(j, next) && SkipBlanks(s, next) == stop
    decreases j, 2
  {
    hide ParseValue, SkipBlanks, Padded, Spelled, Blank, Longest;
    var a, b := PaddedCuts(j, s, off, stop);
    StopIsLongest(j, s, a, b, stop);
    SpelledIsParsed(j, s, a, b, depth);
    next := b;
  }

  lemma {:induction false} ItemsAreParsed(items: seq<Json>, s: seq<byte>, off: nat, close: nat, depth: nat)
    requires items != [] && SpelledItems(items, s, off, close) && depth + ItemsNesting(items) <= NESTING_LIMIT
    requires off <= close < |s| && s[close] == CLOSE_BRACKET
    ensures ParseItems(s, off, depth) == Parsed(items, close + 1)
    decreases items, 0
  {
    hide ParseValue, ParseItems, SkipBlanks, Padded;
    var c: nat :|
      Padded(items[0], s, off, c)
      && if |items| == 1 then c == close
         else c < close <= |s| && s[c] == COMMA && SpelledItems(items[1..], s, c + 1, close);
    var next := PaddedIsRead(items[0], s, off, c, depth);
    if |items| == 1 {
      LastItem(s, off, depth, items[0], next, c);
      assert items == [items[0]];
    } else {
      ItemsAreParsed(items[1..], s, c + 1, close, depth);
      MoreItems(s, off, depth, items[0], next, c, items[1..], close + 1);
      assert [items[0]] + items[1..] == items;
    }
  }

  lemma {:induction false} MemberIsRead(m: Member, s: seq<byte>, off: nat, stop: nat, depth: nat)
    requires SpelledMember(m, s, off, stop) && depth + Nesting(m.item) <= NESTING_LIMIT && 0 < off
    requires stop < |s| && s[stop] > SPACE && !IsNumberByte(s[stop])
    ensures off < stop && ParseMember(s, off, depth) == Parsed(m, stop)
    decreases m, 3
  {
    hide ParseValue, ParseMember, ParseString, SkipBlanks, Padded, PaddedKey, Blank, SpellsString;
    var c: nat :| PaddedKey(m.key, s, off, c) && c < |s| && s[c] == COLON && Padded(m.item, s, c + 1, stop);
    var key, keyEnd := KeyCuts(m.key, s, off, c);
    StringExactly(s, key, m.key, keyEnd);
    SkipsBlank(s, keyEnd, c);
    var next := PaddedIsRead(m.item, s, c + 1, stop, depth);
    OneMember(s, off, depth, m.key, keyEnd, c, m.item, next);
    MemberVisible(m, s, off, stop);
  }

  lemma {:induction false} MembersAreParsed(members: seq<Member>, s: seq<byte>, off: nat, close: nat, depth: nat)
    requires members != [] && SpelledMembers(members, s, off, close) && depth + MembersNesting(members) <= NESTING_LIMIT
    requires 0 < off <= close < |s| && s[close] == CLOSE_BRACE
    ensures ParseMembers(s, off, depth) == Parsed(members, close + 1)
    decreases members, 0
  {
    hide ParseMember, ParseMembers, SpelledMember;
    var c: nat :|
      SpelledMember(members[0], s, off, c)
      && if |members| == 1 then c == close
         else c < close <= |s| && s[c] == COMMA && SpelledMembers(members[1..], s, c + 1, close);
    MemberIsRead(members[0], s, off, c, depth);
    if |members| == 1 {
      LastMember(s, off, depth, members[0], c);
      assert members == [members[0]];
    } else {
      MembersAreParsed(members[1..], s, c + 1, close, depth);
      MoreMembers(s, off, depth, members[0], c, members[1..], close + 1);
      assert [members[0]] + members[1..] == members;
    }
  }

  // ----- exactly -----

  /**
   parse_value reads `j` up to `end` if and only if the bytes up to there spell `j`, the nesting limit
   leaves room for it, and, if it is a number, no longer number stands there.
   */
  lemma ReadsExactly(j: Json, s: seq<byte>, off: nat, end: nat, depth: nat)
    requires off <= |s| && depth <= NESTING_LIMIT
    ensures ParseValue(s, off, depth) == Parsed(j, end)
       <==> Spelled(j, s, off, end) && depth + Nesting(j) <= NESTING_LIMIT && (j.Number? ==> Longest(s, off, end))
  {
    hide ParseValue, Spelled, Longest;
    if ParseValue(s, off, depth) == Parsed(j, end) { ReadIsSpelled(s, off, depth); }
    if Spelled(j, s, off, end) && depth + Nesting(j) <= NESTING_LIMIT && (j.Number? ==> Longest(s, off, end)) {
      SpelledIsParsed(j, s, off, end, depth);
    }
  }

  // ----- the bytes alone decide -----

  /** The bytes of `s` from `off` to `end` also stand in `t`, moved by `d`. */
  ghost predicate Copied(s: seq<byte>, off: nat, end: nat, t: seq<byte>, d: int) {
    off <= end <= |s| && 0 <= off + d && end + d <= |t| && forall k :: off <= k < end ==> s[k] == t[k + d]
  }

  lemma CopiedSlice(s: seq<byte>, off: nat, end: nat, t: seq<byte>, d: int)
    requires Copied(s, off, end, t, d)
    ensures s[off..end] == t[off + d..end + d]
  {
  }

  lemma BlankMoves(s: seq<byte>, off: nat, end: nat, t: seq<byte>, d: int)
    requires Copied(s, off, end, t, d) && Blank(s, off, end)
    ensures Blank(t, off + d, end + d)
  {
    forall k | off + d <= k < end + d ensures t[k] <= SPACE {
      assert t[k] == s[k - d];
    }
  }

  lemma CopiedPart(s: seq<byte>, off: nat, end: nat, t: seq<byte>, d: int, a: nat, b: nat)
    requires Copied(s, off, end, t, d) && off <= a <= b <= end
    ensures Copied(s, a, b, t, d) && (a < b ==> s[a] == t[a + d] && s[b - 1] == t[b + d - 1])
  {
  }

  /** What a text spells does not depend on where it stands. */
  lemma {:induction false} SpelledMoves(j: Json, s: seq<byte>, off: nat, end: nat, t: seq<byte>, d: int)
    requires Spelled(j, s, off, end) && Copied(s, off, end, t, d)
    ensures Spelled(j, t, off + d, end + d)
    decreases j, 1
  {
    hide SpellsNumber, SpellsString, SpelledItems, SpelledMembers, Blank, Copied;
    CopiedSlice(s, off, end, t, d);
    CopiedPart(s, off, end, t, d, off, end);
    match j
    case Array(items) =>
      CopiedPart(s, off, end, t, d, off + 1, end - 1);
      if items == [] {
        BlankMoves(s, off + 1, end - 1, t, d);
      } else {
        ItemsMove(items, s, off + 1, end - 1, t, d);
      }
    case Object(members) =>
      CopiedPart(s, off, end, t, d, off + 1, end - 1);
      if members == [] {
        BlankMoves(s, off + 1, end - 1, t, d);
      } else {
        MembersMove(members, s, off + 1, end - 1, t, d);
      }
    case _ =>
  }

  lemma {:induction false} PaddedMoves(j: Json, s: seq<byte>, off: nat, end: nat, t: seq<byte>, d: int)
    requires Padded(j, s, off, end) && Copied(s, off, end, t, d)
    ensures Padded(j, t, off + d, end + d)
    decreases j, 2
  {
    hide Spelled, Blank, Copied;
    var a: nat, b: nat :| Blank(s, off, a) && Spelled(j, s, a, b) && Blank(s, b, end);
    SpelledOrder(j, s, off, a, b, end);
    CopiedPart(s, off, end, t, d, off, a);
    BlankMoves(s, off, a, t, d);
    CopiedPart(s, off, end, t, d, a, b);
    SpelledMoves(j, s, a, b, t, d);
    CopiedPart(s, off, end, t, d, b, end);
    BlankMoves(s, b, end, t, d);
  }

  lemma BlankOrder(s: seq<byte>, off: nat, end: nat)
    requires Blank(s, off, end)
    ensures off <= end <= |s|
  {
  }

  lemma KeyMoves(text: seq<byte>, s: seq<byte>, off: nat, end: nat, t: seq<byte>, d: int)
    requires PaddedKey(text, s, off, end) && Copied(s, off, end, t, d)
    ensures PaddedKey(text, t, off + d, end + d)
  {
    hide SpellsString, Blank, Copied;
    var a: nat, b: nat :| Blank(s, off, a) && a < b <= |s| && SpellsString(s[a..b], text) && Blank(s, b, end);
    BlankOrder(s, off, a);
    BlankOrder(s, b, end);
    CopiedPart(s, off, end, t, d, off, a);
    BlankMoves(s, off, a, t, d);
    CopiedPart(s, off, end, t, d, a, b);
    CopiedSlice(s, a, b, t, d);
    CopiedPart(s, off, end, t, d, b, end);
    BlankMoves(s, b, end, t, d);
  }

  lemma PaddedOrder(j: Json, s: seq<byte>, off: nat, end: nat)
    requires Padded(j, s, off, end)
    ensures off < end <= |s|
  {
    hide Spelled, Blank;
    var a: nat, b: nat :| Blank(s, off, a) && Spelled(j, s, a, b) && Blank(s, b, end);
    SpelledOrder(j, s, off, a, b, end);
  }

  lemma {:induction false} ItemsMove(items: seq<Json>, s: seq<byte>, off: nat, end: nat, t: seq<byte>, d: int)
    requires items != [] && SpelledItems(items, s, off, end) && Copied(s, off, end, t, d)
    ensures SpelledItems(items, t, off + d, end + d)
    decreases items, 0
  {
    hide Padded, Copied;
    var c: nat :|
      Padded(items[0], s, off, c)
      && if |items| == 1 then c == end else c < end <= |s| && s[c] == COMMA && SpelledItems(items[1..], s, c + 1, end);
    PaddedOrder(items[0], s, off, c);
    CopiedPart(s, off, end, t, d, off, c);
    PaddedMoves(items[0], s, off, c, t, d);
    if |items| > 1 {
      CopiedPart(s, off, end, t, d, c, c + 1);
      CopiedPart(s, off, end, t, d, c + 1, end);
      ItemsMove(items[1..], s, c + 1, end, t, d);
      CopiedEnds(s, off, end, t, d);
    }
    assert Padded(items[0], t, off + d, c + d);
  }

  lemma CopiedEnds(s: seq<byte>, off: nat, end: nat, t: seq<byte>, d: int)
    requires Copied(s, off, end, t, d)
    ensures off <= end <= |s| && 0 <= off + d && end + d <= |t|
  {
  }

  lemma MemberMoves(m: Member, s: seq<byte>, off: nat, end: nat, t: seq<byte>, d: int)
    requires SpelledMember(m, s, off, end) && Copied(s, off, end, t, d)
    ensures SpelledMember(m, t, off + d, end + d)
    decreases m, 3
  {
    hide Padded, PaddedKey, Copied, SpellsString, Spelled, Blank, SkipBlanks;
    var c: nat :| PaddedKey(m.key, s, off, c) && c < |s| && s[c] == COLON && Padded(m.item, s, c + 1, end);
    var key, keyEnd := KeyCuts(m.key, s, off, c);
    PaddedOrder(m.item, s, c + 1, end);
    CopiedPart(s, off, end, t, d, off, c);
    KeyMoves(m.key, s, off, c, t, d);
    CopiedPart(s, off, end, t, d, c, c + 1);
    CopiedPart(s, off, end, t, d, c + 1, end);
    PaddedMoves(m.item, s, c + 1, end, t, d);
    CopiedEnds(s, off, end, t, d);
    assert PaddedKey(m.key, t, off + d, c + d);
  }

  lemma {:induction false} MembersMove(members: seq<Member>, s: seq<byte>, off: nat, end: nat, t: seq<byte>, d: int)
    requires members != [] && SpelledMembers(members, s, off, end) && Copied(s, off, end, t, d)
    ensures SpelledMembers(members, t, off + d, end + d)
    decreases members, 0
  {
    hide SpelledMember, Copied;
    var c: nat :|
      SpelledMember(members[0], s, off, c)
      && if |members| == 1 then c == end
         else c < end <= |s| && s[c] == COMMA && SpelledMembers(members[1..], s, c + 1, end);
    MemberVisible(members[0], s, off, c);
    CopiedPart(s, off, end, t, d, off, c);
    MemberMoves(members[0], s, off, c, t, d);
    if |members| > 1 {
      CopiedPart(s, off, end, t, d, c, c + 1);
      CopiedPart(s, off, end, t, d, c + 1, end);
      MembersMove(members[1..], s, c + 1, end, t, d);
      CopiedEnds(s, off, end, t, d);
    }
    assert SpelledMember(members[0], t, off + d, c + d);
  }

  // ----- whole texts -----

  ghost predicate Marked(text: seq<byte>, m: nat) {
    m == 0 || (m == |BYTE_ORDER_MARK| <= |text| && text[..m] == BYTE_ORDER_MARK)
  }

  /** From `m` on the text is blanks, a value and, where the end is demanded, blanks. */
  ghost predicate SpelledText(j: Json, text: seq<byte>, toEnd: bool, m: nat, a: nat, b: nat) {
    Marked(text, m) && Blank(text, m, a) && Spelled(j, text, a, b)
    && if toEnd then Blank(text, b, |text|) else j.Number? ==> Longest(text, a, b)
  }

  lemma ReadText(text: seq<byte>, j: Json, requireNul: bool) returns (m: nat, a: nat, b: nat)
    requires ParseText(text, requireNul) == Some(j)
    ensures SpelledText(j, text, requireNul, m, a, b)
  {
    hide ParseValue, Spelled, Longest, SkipBlanks;
    var s := text + [NUL];
    m := SkipMark(s);
    a := SkipBlanks(s, m);
    b := ParseValue(s, a, 0).next;
    assert |s| > 4 ==> s[..3] == text[..3];
    assert Marked(text, m);
    SkippedIsBlank(s, m);
    ReadIsSpelled(s, a, 0);
    SpelledEnds(j, s, a, b);
    SpelledMoves(j, s, a, b, text, 0);
    BlankMoves(s, m, a, text, 0);
    if requireNul {
      NulIsEnd(s, b);
      BlankMoves(s, b, |text|, text, 0);
    } else if j.Number? {
      LongestInText(text, a, b);
    }
  }

  /** The terminator that is asked for behind the blanks is the last byte of the buffer. */
  lemma NulIsEnd(s: seq<byte>, off: nat)
    requires off < |s| && s[SkipBlanks(s, off)] == NUL
    ensures Blank(s, off, |s|)
  {
  }

  lemma LongestInText(text: seq<byte>, off: nat, end: nat)
    requires off <= end <= |text|
    ensures Longest(text, off, end) <==> Longest(text + [NUL], off, end)
  {
    hide SpellsNumber, IsNumberByte;
    var s := text + [NUL];
    assert forall e :: end < e <= |text| ==> text[off..e] == s[off..e];
    if Longest(text, off, end) {
      forall e, v | off <= end < e <= |s| ensures !SpellsNumber(s[off..e], v) {
        if e == |s| && SpellsNumber(s[off..e], v) { NulInNumber(s, off, v); }
      }
    }
  }

  lemma NulInNumber(s: seq<byte>, off: nat, v: real)
    requires off < |s| && s[|s| - 1] == NUL
    ensures !SpellsNumber(s[off..|s|], v)
  {
    hide SpellsNumber;
    if SpellsNumber(s[off..|s|], v) { SpelledByte(s, off, |s|, v, |s| - 1); }
  }

  /** The parts of a text where they stand in its buffer. */
  lemma TextParts(text: seq<byte>, j: Json, toEnd: bool, m: nat, a: nat, b: nat)
    requires SpelledText(j, text, toEnd, m, a, b)
    ensures var s := text + [NUL];
            && m <= a < b < |s| && SkipMark(s) == m && SkipBlanks(s, m) == a && Spelled(j, s, a, b)
            && (j.Number? ==> Longest(s, a, b)) && (toEnd ==> SkipBlanks(s, b) == |s| - 1)
  {
    hide Spelled, Longest, SkipBlanks, SkipMark;
    var s := text + [NUL];
    SpelledEnds(j, text, a, b);
    SpelledMoves(j, text, a, b, s, 0);
    MarkIsSkipped(s, text, m, a);
    SkipsBlank(s, m, a);
    if toEnd {
      EndedIsLongest(s, a, b);
      BlanksToEnd(s, b);
    } else if j.Number? {
      LongestInText(text, a, b);
    }
  }

  lemma TextIsRead(text: seq<byte>, j: Json, requireNul: bool, m: nat, a: nat, b: nat)
    requires SpelledText(j, text, requireNul, m, a, b) && Nesting(j) <= NESTING_LIMIT
    ensures ParseText(text, requireNul) == Some(j)
  {
    hide ParseValue, Spelled, Longest, SkipBlanks, SkipMark, SpelledText;
    TextParts(text, j, requireNul, m, a, b);
    SpelledIsParsed(j, text + [NUL], a, b, 0);
  }

  lemma MarkIsSkipped(s: seq<byte>, text: seq<byte>, m: nat, a: nat)
    requires s == text + [NUL] && Marked(text, m) && Blank(text, m, a) && a < |text| && SPACE < text[a] < 0x80
    ensures SkipMark(s) == m
  {
    assert |text| > 3 ==> s[..3] == text[..3] && s[..3][0] == text[0];
  }

  /**
   The texts the parser accepts, and as which tree: after an optional byte order mark there are blanks
   and a value that nests at most NESTING_LIMIT levels, and then blanks up to the end if the end is
   demanded. If it is not, anything may follow, but a number is read as far as it goes.
   */
  lemma AcceptsExactly(text: seq<byte>, j: Json, requireNul: bool)
    ensures ParseText(text, requireNul) == Some(j)
       <==> Nesting(j) <= NESTING_LIMIT && exists m: nat, a: nat, b: nat :: SpelledText(j, text, requireNul, m, a, b)
  {
    hide ParseValue, SpelledText;
    if ParseText(text, requireNul) == Some(j) { var m, a, b := ReadText(text, j, requireNul); }
    if Nesting(j) <= NESTING_LIMIT && exists m: nat, a: nat, b: nat :: SpelledText(j, text, requireNul, m, a, b) {
      var m: nat, a: nat, b: nat :| SpelledText(j, text, requireNul, m, a, b);
      TextIsRead(text, j, requireNul, m, a, b);
    }
  }

  // ----- where parsing stops -----

  /** Of an accepted text the end of the value is reported, or the terminator that was demanded. */
  lemma ReportsEnd(text: seq<byte>, j: Json, requireNul: bool)
    requires ParseText(text, requireNul) == Some(j)
    ensures var end := ReportedEnd(text + [NUL], requireNul);
            if requireNul then end == |text| else exists m: nat, a: nat :: SpelledText(j, text, false, m, a, end)
  {
    hide ParseValue, SpelledText, SkipBlanks, SkipMark;
    var m, a, b := ReadText(text, j, requireNul);
    var s := text + [NUL];
    if requireNul {
      NulAtEnd(s, ParseValue(s, SkipBlanks(s, SkipMark(s)), 0).next);
    } else {
      ReadTextEnd(text, j, m, a, b);
    }
  }

  lemma NulAtEnd(s: seq<byte>, off: nat)
    requires off < |s| && s[SkipBlanks(s, off)] == NUL
    ensures SkipBlanks(s, off) == |s| - 1
  {
  }

  lemma ReadTextEnd(text: seq<byte>, j: Json, m: nat, a: nat, b: nat)
    requires SpelledText(j, text, false, m, a, b) && Nesting(j) <= NESTING_LIMIT
    ensures ReportedEnd(text + [NUL], false) == b
  {
    hide ParseValue, Spelled, Longest, SkipBlanks, SkipMark;
    var s := text + [NUL];
    TextParts(text, j, false, m, a, b);
    SpelledIsParsed(j, s, a, b, 0);
  }

  /** A wrong byte behind an element is where parse_array stops. */
  lemma StopsBehindElement(j: Json, s: seq<byte>, off: nat, stop: nat, depth: nat)
    requires Padded(j, s, off, stop) && depth + Nesting(j) <= NESTING_LIMIT
    requires stop < |s| && s[stop] > 0x20 && s[stop] != 0x2C && s[stop] != 0x5D && !IsNumberByte(s[stop])
    ensures ParseItems(s, off, depth) == Failed(stop)
  {
    hide ParseValue, SkipBlanks, Padded;
    var next := PaddedIsRead(j, s, off, stop, depth);
  }

  /** A wrong byte behind a key is where parse_object stops. */
  lemma StopsBehindKey(text: seq<byte>, s: seq<byte>, off: nat, stop: nat, depth: nat)
    requires PaddedKey(text, s, off, stop) && 0 < off && depth <= NESTING_LIMIT
    requires stop < |s| && s[stop] > 0x20 && s[stop] != 0x3A
    ensures off < |s| && ParseMembers(s, off, depth) == Failed(stop)
  {
    hide ParseString, SkipBlanks, PaddedKey, SpellsString, Blank;
    var key, keyEnd := KeyCuts(text, s, off, stop);
    StringExactly(s, key, text, keyEnd);
    SkipsBlank(s, keyEnd, stop);
  }

  /** And so is a wrong byte behind a member. */
  lemma StopsBehindMember(m: Member, s: seq<byte>, off: nat, stop: nat, depth: nat)
    requires SpelledMember(m, s, off, stop) && 0 < off && depth + Nesting(m.item) <= NESTING_LIMIT
    requires stop < |s| && s[stop] > 0x20 && s[stop] != 0x2C && s[stop] != 0x7D && !IsNumberByte(s[stop])
    ensures off < |s| && ParseMembers(s, off, depth) == Failed(stop)
  {
    hide ParseMember, SpelledMember;
    MemberIsRead(m, s, off, stop, depth);
  }
}

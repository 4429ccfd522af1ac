/**
 Number text: what "%d" prints, what strtod reads from the characters that parse_number
 collects, and that the second undoes the first.
 */
module JsonNumbers {
  import opened JsonTree

  /** The size of parse_number's temporary buffer, without its terminator. */
  const NUMBER_TEXT_LIMIT: nat := 63

  predicate IsDigit(b: byte) {
    ZERO <= b <= NINE
  }

  /** The characters parse_number copies before it calls strtod. */
  predicate IsNumberByte(b: byte) {
    IsDigit(b) || b == PLUS || b == MINUS || b == LOWER_E || b == UPPER_E || b == POINT
  }

  function NatText(n: nat): (text: seq<byte>)
    ensures text != [] && forall k :: 0 <= k < |text| ==> IsDigit(text[k])
  {
    var digit: byte := ZERO + n % 10;
    if n < 10 then [digit] else NatText(n / 10) + [digit]
  }

  /** The text of "%d". */
  function IntText(n: int): seq<byte> {
    if n < 0 then [MINUS] + NatText(-n) else NatText(n)
  }

  function NatOf(digits: seq<byte>): nat
    requires forall k :: 0 <= k < |digits| ==> IsDigit(digits[k])
  {
    if digits == [] then 0
    else
      var last := digits[|digits| - 1];
      assert IsDigit(last);
      NatOf(digits[..|digits| - 1]) * 10 + (last - ZERO)
  }

  /** Place value: every digit times its power of ten. */
  function PlaceValue(digits: seq<byte>): int
    requires forall k :: 0 <= k < |digits| ==> IsDigit(digits[k])
  {
    if digits == [] then 0 else (digits[0] - 0x30) * TenTo(|digits| - 1) + PlaceValue(digits[1..])
  }

  lemma {:induction false} PlaceValueConcat(a: seq<byte>, b: seq<byte>)
    requires forall k :: 0 <= k < |a| ==> IsDigit(a[k])
    requires forall k :: 0 <= k < |b| ==> IsDigit(b[k])
    ensures forall k :: 0 <= k < |a + b| ==> IsDigit((a + b)[k])
    ensures PlaceValue(a + b) == PlaceValue(a) * TenTo(|b|) + PlaceValue(b)
  {
    hide IsDigit;
    if a == [] {
      assert a + b == b;
    } else {
      assert (a + b)[1..] == a[1..] + b && (a + b)[0] == a[0];
      PlaceValueConcat(a[1..], b);
      TenToSum(|a| - 1, |b|);
      Distribute(a[0] as int - 0x30, TenTo(|a| - 1), PlaceValue(a[1..]), TenTo(|b|));
    }
  }

  lemma Distribute(d: int, t: int, v: int, u: int)
    ensures d * (t * u) + v * u == (d * t + v) * u
  {
    assert (d * t + v) * u == d * t * u + v * u;
  }

  lemma {:induction false} TenToSum(a: nat, b: nat)
    ensures TenTo(a + b) == TenTo(a) * TenTo(b)
  {
    if a > 0 { TenToSum(a - 1, b); }
  }

  /** The digits that strtod accumulates have their place value. */
  lemma {:induction false} NatOfIs(digits: seq<byte>)
    requires forall k :: 0 <= k < |digits| ==> IsDigit(digits[k])
    ensures NatOf(digits) == PlaceValue(digits)
  {
    if digits != [] {
      var last := digits[|digits| - 1];
      var init := digits[..|digits| - 1];
      assert IsDigit(last) && init + [last] == digits;
      NatOfIs(init);
      PlaceValueConcat(init, [last]);
      OneDigit(last);
    }
  }

  lemma OneDigit(b: byte)
    requires IsDigit(b)
    ensures PlaceValue([b]) == b - 0x30 && TenTo(1) == 10
  {
    assert TenTo(0) == 1 && PlaceValue([b][1..]) == 0;
  }

  function DigitsEnd(t: seq<byte>, i: nat): (end: nat)
    requires i <= |t|
    ensures i <= end <= |t|
    ensures forall k :: i <= k < end ==> IsDigit(t[k])
    ensures end < |t| ==> !IsDigit(t[end])
    decreases |t| - i
  {
    if i < |t| && IsDigit(t[i]) then DigitsEnd(t, i + 1) else i
  }

  function Power10(e: nat): (p: real)
    ensures p > 0.0
  {
    if e == 0 then 1.0 else 10.0 * Power10(e - 1)
  }

  function Scale10(v: real, e: int): real {
    if e >= 0 then v * Power10(e) else v / Power10(-e)
  }

  function TenPower(e: int): real {
    if e >= 0 then TenTo(e) as real else 1.0 / TenTo(-e) as real
  }

  lemma {:induction false} Power10Is(e: nat)
    ensures Power10(e) == TenTo(e) as real
  {
    if e > 0 { Power10Is(e - 1); }
  }

  lemma Scaled(v: real, e: int)
    ensures Scale10(v, e) == v * TenPower(e)
  {
    Power10Is(if e >= 0 then e else -e);
    if e < 0 { OverPower(v, Power10(-e)); }
  }

  lemma OverPower(v: real, p: real)
    requires p > 0.0
    ensures v / p == v * (1.0 / p)
  {
  }

  /** Scaling down by one more power of ten. */
  lemma OneDown(v: real, e: int)
    ensures Scale10(v, e - 1) * 10.0 == Scale10(v, e)
  {
    if e <= 0 {
      OverTen(v, Power10(-e));
    } else {
      TimesTen(v, Power10(e - 1));
    }
  }

  lemma TimesTen(v: real, p: real)
    ensures v * p * 10.0 == v * (10.0 * p)
  {
  }

  lemma OverTen(v: real, p: real)
    requires p > 0.0
    ensures v / (10.0 * p) * 10.0 == v / p
  {
    var q := v / (10.0 * p);
    assert q * (10.0 * p) == v;
    assert q * 10.0 * p == v;
  }

  lemma Unscaled(v: real)
    ensures Scale10(v, 0) == v
  {
    assert Power10(0) == 1.0;
  }

  datatype Strtod = NoNumber | Read(value: real, length: nat)

  function SignEnd(t: seq<byte>, i: nat): (end: nat)
    requires i <= |t|
    ensures i <= end <= |t|
  {
    if i < |t| && (t[i] == PLUS || t[i] == MINUS) then i + 1 else i
  }

  /** The exponent part after the mantissa: its value and its end; no digits, no exponent. */
  function ReadExponent(t: seq<byte>, i: nat): (r: (int, nat))
    requires i <= |t|
    ensures i <= r.1 <= |t|
  {
    if i < |t| && (t[i] == LOWER_E || t[i] == UPPER_E) then
      var start := SignEnd(t, i + 1);
      var end := DigitsEnd(t, start);
      var digits: int := NatOf(t[start..end]);
      if start == end then (0, i)
      else (if t[i + 1] == MINUS then -digits else digits, end)
    else (0, i)
  }

  /** The C library's strtod on a text of number bytes, with its exact decimal value. */
  function ReadDecimal(t: seq<byte>): (r: Strtod)
    ensures r.Read? ==> 0 < r.length <= |t|
  {
    var start := SignEnd(t, 0);
    var whole := DigitsEnd(t, start);
    var point := whole < |t| && t[whole] == POINT;
    var end := if point then DigitsEnd(t, whole + 1) else whole;
    var fraction := if point then t[whole + 1..end] else [];
    assert forall k :: 0 <= k < |fraction| ==> IsDigit(fraction[k]);
    if whole == start && fraction == [] then NoNumber
    else
      var magnitude := NatOf(t[start..whole] + fraction) as real;
      var (exponent, length) := ReadExponent(t, end);
      var scaled := Scale10(magnitude, exponent - |fraction|);
      Read(if t[0] == MINUS then -scaled else scaled, length)
  }

  /** How many bytes parse_number copies from `off`, having already copied `k`. */
  function NumberRun(s: seq<byte>, off: nat, k: nat): (n: nat)
    requires off + k <= |s| && k <= NUMBER_TEXT_LIMIT
    ensures k <= n <= NUMBER_TEXT_LIMIT && off + n <= |s|
    decreases NUMBER_TEXT_LIMIT - k
  {
    if k < NUMBER_TEXT_LIMIT && off + k < |s| && IsNumberByte(s[off + k])
    then NumberRun(s, off, k + 1) else k
  }

  lemma RunStep(s: seq<byte>, off: nat, k: nat)
    requires off + k <= |s| && k <= NUMBER_TEXT_LIMIT
    ensures NumberRun(s, off, k) ==
            if k < NUMBER_TEXT_LIMIT && off + k < |s| && IsNumberByte(s[off + k]) then NumberRun(s, off, k + 1) else k
  {
  }

  lemma {:induction false} NatTextReads(n: nat)
    ensures NatOf(NatText(n)) == n
  {
    var text := NatText(n);
    if n >= 10 {
      NatTextReads(n / 10);
      assert text[..|text| - 1] == NatText(n / 10);
    } else {
      assert text[..0] == [];
    }
  }

  lemma {:induction false} NatTextLength(n: nat, bound: nat, digits: nat)
    requires n < bound && bound == TenTo(digits) && digits > 0
    ensures |NatText(n)| <= digits
    decreases digits
  {
    if n >= 10 {
      NatTextLength(n / 10, TenTo(digits - 1), digits - 1);
    }
  }

  function TenTo(e: nat): (t: nat)
    ensures t > 0
  {
    if e == 0 then 1 else 10 * TenTo(e - 1)
  }

  /** A printed int fits the 26-byte buffer of print_number and the 64 bytes of parse_number. */
  lemma IntTextLength(n: int)
    requires INT_MIN <= n <= INT_MAX
    ensures 1 <= |IntText(n)| <= 11
  {
    assert TenTo(5) == 100_000;
    assert TenTo(10) == 10_000_000_000;
    NatTextLength(if n < 0 then -n else n, TenTo(10), 10);
  }

  /** "%d" prints a minus sign exactly for negative ints, and no leading zero but that of 0 itself. */
  lemma IntTextIsCanonical(n: int)
    ensures (IntText(n)[0] == 0x2D <==> n < 0)
    ensures var digits := if n < 0 then IntText(n)[1..] else IntText(n);
            digits != [] && (forall k :: 0 <= k < |digits| ==> 0x30 <= digits[k] <= 0x39)
            && (digits[0] == 0x30 ==> n == 0 && digits == [0x30])
  {
    NoLeadingZero(if n < 0 then -n else n);
    if n < 0 { assert IntText(n)[1..] == NatText(-n); }
  }

  lemma {:induction false} NoLeadingZero(n: nat)
    ensures NatText(n)[0] == 0x30 ==> n == 0 && NatText(n) == [0x30]
  {
    if n >= 10 { NoLeadingZero(n / 10); }
  }

  lemma DigitsEndIs(t: seq<byte>, i: nat, end: nat)
    requires i <= end <= |t|
    requires forall k :: i <= k < end ==> IsDigit(t[k])
    requires end < |t| ==> !IsDigit(t[end])
    ensures DigitsEnd(t, i) == end
  {
  }

  /** strtod reads the whole of a printed int, and its value. */
  lemma ReadsIntText(n: int)
    ensures ReadDecimal(IntText(n)) == Read(n as real, |IntText(n)|)
  {
    hide Scale10, NatOf;
    var t := IntText(n);
    var start := if n < 0 then 1 else 0;
    var magnitude := if n < 0 then -n else n;
    assert t[start..] == NatText(magnitude);
    assert start == 0 ==> IsDigit(t[0]);
    DigitsEndIs(t, start, |t|);
    assert t[start..|t|] + [] == NatText(magnitude);
    NatTextReads(magnitude);
    Unscaled(magnitude as real);
  }

  lemma {:induction false} NumberRunIs(s: seq<byte>, off: nat, k: nat, n: nat)
    requires k <= n <= NUMBER_TEXT_LIMIT && off + n <= |s|
    requires forall i :: off + k <= i < off + n ==> IsNumberByte(s[i])
    requires n < NUMBER_TEXT_LIMIT && off + n < |s| ==> !IsNumberByte(s[off + n])
    ensures NumberRun(s, off, k) == n
    decreases n - k
  {
    if k < n { NumberRunIs(s, off, k + 1, n); }
  }
}

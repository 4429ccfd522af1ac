/**
 The JSON values that cJSON builds, with the text constants and the limits that the
 parser and the printer share.
 */
module JsonTree {

  type byte = b: int | 0 <= b < 256

  const NUL: byte := 0x00
  const BACKSPACE: byte := 0x08
  const TAB: byte := 0x09
  const NEWLINE: byte := 0x0A
  const FORM_FEED: byte := 0x0C
  const CARRIAGE_RETURN: byte := 0x0D
  const SPACE: byte := 0x20
  const QUOTE: byte := 0x22
  const PLUS: byte := 0x2B
  const COMMA: byte := 0x2C
  const MINUS: byte := 0x2D
  const POINT: byte := 0x2E
  const SLASH: byte := 0x2F
  const ZERO: byte := 0x30
  const NINE: byte := 0x39
  const COLON: byte := 0x3A
  const UPPER_E: byte := 0x45
  const OPEN_BRACKET: byte := 0x5B
  const BACKSLASH: byte := 0x5C
  const CLOSE_BRACKET: byte := 0x5D
  const LOWER_B: byte := 0x62
  const LOWER_E: byte := 0x65
  const LOWER_F: byte := 0x66
  const LOWER_N: byte := 0x6E
  const LOWER_R: byte := 0x72
  const LOWER_T: byte := 0x74
  const LOWER_U: byte := 0x75
  const OPEN_BRACE: byte := 0x7B
  const CLOSE_BRACE: byte := 0x7D

  const NULL_TEXT: seq<byte> := [0x6E, 0x75, 0x6C, 0x6C]
  const TRUE_TEXT: seq<byte> := [0x74, 0x72, 0x75, 0x65]
  const FALSE_TEXT: seq<byte> := [0x66, 0x61, 0x6C, 0x73, 0x65]

  /** The bytes of an ASCII text. */
  function Ascii(text: string): (t: seq<byte>)
    requires forall k :: 0 <= k < |text| ==> text[k] < 128 as char
    ensures |t| == |text| && forall k :: 0 <= k < |text| ==> t[k] == text[k] as int
  {
    seq(|text|, k requires 0 <= k < |text| => text[k] as int as byte)
  }

  /** The tokens of JSON as sections 2, 3, 6 and 7 of RFC 8259 write them, and the control bytes of ASCII. */
  lemma TokensAre()
    ensures NULL_TEXT == Ascii("null") && TRUE_TEXT == Ascii("true") && FALSE_TEXT == Ascii("false")
    ensures [OPEN_BRACKET, CLOSE_BRACKET, OPEN_BRACE, CLOSE_BRACE, COLON, COMMA] == Ascii("[]{}:,")
    ensures [MINUS, PLUS, POINT, LOWER_E, UPPER_E, ZERO, NINE] == Ascii("-+.eE09")
    ensures [QUOTE, BACKSLASH, SLASH, LOWER_B, LOWER_F, LOWER_N, LOWER_R, LOWER_T, LOWER_U] == Ascii("\"\\/bfnrtu")
    ensures [NUL, BACKSPACE, TAB, NEWLINE, FORM_FEED, CARRIAGE_RETURN, SPACE] == [0, 8, 9, 10, 12, 13, 32]
  {
  }

  const INT_MAX: int := 0x7FFF_FFFF
  const INT_MIN: int := -0x8000_0000
  const NESTING_LIMIT: nat := 1000

  /** A parsed item. A string is the C string it denotes, so it holds no NUL. */
  datatype Json =
    | Null
    | Bool(value: bool)
    | Number(number: real)
    | String(text: seq<byte>)
    | Array(items: seq<Json>)
    | Object(members: seq<Member>)

  datatype Member = Member(key: seq<byte>, item: Json)

  /** What a parse function leaves: the value and the offset after it, or where it stopped. */
  datatype Parse<+T> = Parsed(value: T, next: nat) | Failed(at: nat)

  /** The text `t` stands in `s` at `off`. */
  ghost predicate At(s: seq<byte>, off: nat, t: seq<byte>) {
    off + |t| <= |s| && forall k :: 0 <= k < |t| ==> s[off + k] == t[k]
  }

  lemma AtConcat(s: seq<byte>, off: nat, a: seq<byte>, b: seq<byte>)
    requires At(s, off, a + b)
    ensures At(s, off, a) && At(s, off + |a|, b)
  {
    assert forall k :: 0 <= k < |a| ==> (a + b)[k] == a[k];
    assert forall k :: 0 <= k < |b| ==> (a + b)[|a| + k] == b[k];
  }

  /** The bytes before the first NUL: what a C string function sees of a buffer. */
  function CString(bytes: seq<byte>): (text: seq<byte>)
    ensures |text| <= |bytes| && text == bytes[..|text|] && NUL !in text
    ensures |text| < |bytes| ==> bytes[|text|] == NUL
  {
    if bytes == [] || bytes[0] == NUL then [] else [bytes[0]] + CString(bytes[1..])
  }

  lemma CStringOfNulFree(bytes: seq<byte>)
    requires NUL !in bytes
    ensures CString(bytes) == bytes
  {
  }

  /** tolower on the bytes of a C string. */
  function Lower(text: seq<byte>): (t: seq<byte>)
    ensures |t| == |text|
  {
    seq(|text|, i requires 0 <= i < |text| => if 0x41 <= text[i] <= 0x5A then (text[i] + 0x20) as byte else text[i])
  }

  /** What two keys are compared by. */
  function Fold(key: seq<byte>, caseSensitive: bool): seq<byte> {
    if caseSensitive then key else Lower(key)
  }

  /** The same letter of ASCII in upper and in lower case. */
  predicate IsCasePair(upper: byte, lower: byte) {
    'A' as int <= upper <= 'Z' as int && lower == upper + ('a' as int - 'A' as int)
  }

  /** Keys match if they are equal byte by byte, up to the case of ASCII letters if that is ignored. */
  predicate KeysMatch(a: seq<byte>, b: seq<byte>, caseSensitive: bool) {
    |a| == |b|
    && forall k :: 0 <= k < |a| ==> a[k] == b[k] || (!caseSensitive && (IsCasePair(a[k], b[k]) || IsCasePair(b[k], a[k])))
  }

  /** Comparing folded keys is matching the keys. */
  lemma FoldsAlike(a: seq<byte>, b: seq<byte>, caseSensitive: bool)
    ensures Fold(a, caseSensitive) == Fold(b, caseSensitive) <==> KeysMatch(a, b, caseSensitive)
  {
    if !caseSensitive && |a| == |b| {
      var x, y := Lower(a), Lower(b);
      assert forall k :: 0 <= k < |a| ==>
          (x[k] == y[k] <==> a[k] == b[k] || IsCasePair(a[k], b[k]) || IsCasePair(b[k], a[k]));
    }
  }

  function Max(a: nat, b: nat): nat {
    if a < b then b else a
  }

  /** How many arrays and objects are open around the deepest position of the text. */
  function Nesting(j: Json): nat
    decreases j, 1
  {
    match j
    case Array(items) => 1 + ItemsNesting(items)
    case Object(members) => 1 + MembersNesting(members)
    case _ => 0
  }

  /** Arrays inside one another, with nothing else in them. */
  function DeepArray(n: nat): Json
    requires n > 0
  {
    if n == 1 then Array([]) else Array([DeepArray(n - 1)])
  }

  lemma {:induction false} DeepArrayNests(n: nat)
    requires n > 0
    ensures Nesting(DeepArray(n)) == n && Printable(DeepArray(n))
  {
    if n > 1 {
      DeepArrayNests(n - 1);
      var items := [DeepArray(n - 1)];
      assert items[1..] == [] && ItemsNesting(items) == n - 1 && PrintableItems(items);
    }
  }

  function ItemsNesting(items: seq<Json>): nat
    decreases items, 0
  {
    if items == [] then 0 else Max(Nesting(items[0]), ItemsNesting(items[1..]))
  }

  function MembersNesting(members: seq<Member>): nat
    decreases members, 0
  {
    if members == [] then 0 else Max(Nesting(members[0].item), MembersNesting(members[1..]))
  }

  /** The `valueint` of a number: truncated towards zero, saturated at the int bounds. */
  function ValueInt(v: real): (n: int)
    ensures INT_MIN <= n <= INT_MAX
  {
    if v >= INT_MAX as real then INT_MAX
    else if v <= INT_MIN as real then INT_MIN
    else if v >= 0.0 then v.Floor
    else -(-v).Floor
  }

  /** Towards zero where an int can hold it, and the nearest int where not. */
  lemma ValueIntTruncates(v: real)
    ensures -2147483648.0 < v < 2147483647.0 ==>
              if v >= 0.0 then ValueInt(v) as real <= v < ValueInt(v) as real + 1.0
              else ValueInt(v) as real - 1.0 < v <= ValueInt(v) as real
    ensures v >= 2147483647.0 ==> ValueInt(v) == 2147483647
    ensures v <= -2147483648.0 ==> ValueInt(v) == -2147483648
  {
  }

  predicate IntValued(v: real) {
    v == ValueInt(v) as real
  }

  lemma IntValuedIs(v: real)
    ensures IntValued(v) <==> -2147483648.0 <= v <= 2147483647.0 && v.Floor as real == v
  {
    if v < 0.0 && v.Floor as real == v { assert (-v).Floor == -v.Floor; }
  }

  /** Trees whose print is determined here: int-valued numbers, NUL-free strings and keys. */
  predicate Printable(j: Json)
    decreases j, 1
  {
    match j
    case Number(v) => IntValued(v)
    case String(text) => NUL !in text
    case Array(items) => PrintableItems(items)
    case Object(members) => PrintableMembers(members)
    case _ => true
  }

  predicate PrintableItems(items: seq<Json>)
    decreases items, 0
  {
    items == [] || (Printable(items[0]) && PrintableItems(items[1..]))
  }

  predicate PrintableMembers(members: seq<Member>)
    decreases members, 0
  {
    members == [] ||
    (NUL !in members[0].key && Printable(members[0].item) && PrintableMembers(members[1..]))
  }

  // ----- the two halves of being printable -----

  predicate IntNumbers(j: Json)
    decreases j, 1
  {
    match j
    case Number(v) => IntValued(v)
    case Array(items) => IntItems(items)
    case Object(members) => IntMembers(members)
    case _ => true
  }

  predicate IntItems(items: seq<Json>)
    decreases items, 0
  {
    items == [] || (IntNumbers(items[0]) && IntItems(items[1..]))
  }

  predicate IntMembers(members: seq<Member>)
    decreases members, 0
  {
    members == [] || (IntNumbers(members[0].item) && IntMembers(members[1..]))
  }

  predicate NulFree(j: Json)
    decreases j, 1
  {
    match j
    case String(text) => NUL !in text
    case Array(items) => NulFreeItems(items)
    case Object(members) => NulFreeMembers(members)
    case _ => true
  }

  predicate NulFreeItems(items: seq<Json>)
    decreases items, 0
  {
    items == [] || (NulFree(items[0]) && NulFreeItems(items[1..]))
  }

  predicate NulFreeMembers(members: seq<Member>)
    decreases members, 0
  {
    members == [] || (NUL !in members[0].key && NulFree(members[0].item) && NulFreeMembers(members[1..]))
  }

  lemma {:induction false} PrintableHalves(j: Json)
    requires IntNumbers(j) && NulFree(j)
    ensures Printable(j)
    decreases j, 1
  {
    match j
    case Array(items) => PrintableItemsHalves(items);
    case Object(members) => PrintableMembersHalves(members);
    case _ =>
  }

  lemma {:induction false} PrintableItemsHalves(items: seq<Json>)
    requires IntItems(items) && NulFreeItems(items)
    ensures PrintableItems(items)
    decreases items, 0
  {
    if items != [] {
      PrintableHalves(items[0]);
      PrintableItemsHalves(items[1..]);
    }
  }

  lemma {:induction false} PrintableMembersHalves(members: seq<Member>)
    requires IntMembers(members) && NulFreeMembers(members)
    ensures PrintableMembers(members)
    decreases members, 0
  {
    if members != [] {
      PrintableHalves(members[0].item);
      PrintableMembersHalves(members[1..]);
    }
  }
}

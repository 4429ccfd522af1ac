/**
 The parser as functions of the buffer, the offset and the depth: parse_value and the
 element loops of parse_array and parse_object, with their progress guarantees.
 */
module JsonParser {
  import opened Options
  import opened JsonTree
  import opened JsonNumbers
  import opened JsonStrings

  /** The end of the run of bytes up to the space character. */
  function BlankEnd(s: seq<byte>, off: nat): (end: nat)
    requires off <= |s|
    ensures off <= end <= |s|
    ensures forall k :: off <= k < end ==> s[k] <= SPACE
    ensures end < |s| ==> s[end] > SPACE
    decreases |s| - off
  {
    if off < |s| && s[off] <= SPACE then BlankEnd(s, off + 1) else off
  }

  /** buffer_skip_whitespace: a run that reaches the end of the buffer steps back by one. */
  function SkipBlanks(s: seq<byte>, off: nat): (p: nat)
    requires off <= |s|
    ensures off <= p <= |s|
    ensures off < |s| ==> p < |s|
  {
    if off == |s| then off
    else if BlankEnd(s, off) == |s| then |s| - 1
    else BlankEnd(s, off)
  }

  predicate Matches(s: seq<byte>, off: nat, t: seq<byte>)
    requires off <= |s|
  {
    off + |t| <= |s| && s[off..off + |t|] == t
  }

  function ParseNumber(s: seq<byte>, off: nat): (r: Parse<Json>)
    requires off <= |s|
    ensures r.Parsed? ==> off < r.next <= |s| && r.value.Number?
    ensures r.Failed? ==> r.at == off
  {
    match ReadDecimal(s[off..off + NumberRun(s, off, 0)])
    case NoNumber => Failed(off)
    case Read(v, length) => Parsed(Number(v), off + length)
  }

  function ParseValue(s: seq<byte>, off: nat, depth: nat): (r: Parse<Json>)
    requires off <= |s| && depth <= NESTING_LIMIT
    ensures r.Parsed? ==> off < r.next <= |s| && depth + Nesting(r.value) <= NESTING_LIMIT && NulFree(r.value)
    ensures r.Failed? ==> r.at <= |s|
    decreases |s| - off, 0
  {
    if Matches(s, off, NULL_TEXT) then Parsed(Null, off + 4)
    else if Matches(s, off, FALSE_TEXT) then Parsed(Bool(false), off + 5)
    else if Matches(s, off, TRUE_TEXT) then Parsed(Bool(true), off + 4)
    else if off == |s| then Failed(off)
    else if s[off] == QUOTE then
      match ParseString(s, off)
      case Failed(at) => Failed(at)
      case Parsed(text, next) => Parsed(String(text), next)
    else if s[off] == MINUS || IsDigit(s[off]) then ParseNumber(s, off)
    else if s[off] == OPEN_BRACKET then
      if depth >= NESTING_LIMIT then Failed(off)
      else
        var first := SkipBlanks(s, off + 1);
        if first == |s| then Failed(off)
        else if s[first] == CLOSE_BRACKET then Parsed(Array([]), first + 1)
        else match ParseItems(s, first, depth + 1)
             case Failed(at) => Failed(at)
             case Parsed(items, next) => Parsed(Array(items), next)
    else if s[off] == OPEN_BRACE then
      if depth >= NESTING_LIMIT then Failed(off)
      else
        var first := SkipBlanks(s, off + 1);
        if first == |s| then Failed(off)
        else if s[first] == CLOSE_BRACE then Parsed(Object([]), first + 1)
        else match ParseMembers(s, first, depth + 1)
             case Failed(at) => Failed(at)
             case Parsed(members, next) => Parsed(Object(members), next)
    else Failed(off)
  }

  /** The rest of an array from `off`, where an element is due, to its closing bracket. */
  function ParseItems(s: seq<byte>, off: nat, depth: nat): (r: Parse<seq<Json>>)
    requires off <= |s| && depth <= NESTING_LIMIT
    ensures r.Parsed? ==> off < r.next <= |s| && depth + ItemsNesting(r.value) <= NESTING_LIMIT && NulFreeItems(r.value)
    ensures r.Failed? ==> r.at <= |s|
    decreases |s| - off, 1
  {
    match ParseValue(s, SkipBlanks(s, off), depth)
    case Failed(at) => Failed(at)
    case Parsed(item, next) =>
      var after := SkipBlanks(s, next);
      if after < |s| && s[after] == COMMA then
        match ParseItems(s, after + 1, depth)
        case Failed(at) => Failed(at)
        case Parsed(rest, end) => Parsed([item] + rest, end)
      else if after == |s| || s[after] != CLOSE_BRACKET then Failed(after)
      else Parsed([item], after + 1)
  }

  /** One `"key" : value` from `off`, and the blanks after it. */
  function ParseMember(s: seq<byte>, off: nat, depth: nat): (r: Parse<Member>)
    requires 0 < off <= |s| && depth <= NESTING_LIMIT
    ensures r.Parsed? ==> off < r.next <= |s| && depth + Nesting(r.value.item) <= NESTING_LIMIT
    ensures r.Parsed? ==> NUL !in r.value.key && NulFree(r.value.item)
    ensures r.Failed? ==> r.at <= |s|
    decreases |s| - off, 1
  {
    if off == |s| then Failed(off - 1)
    else match ParseString(s, SkipBlanks(s, off))
         case Failed(at) => Failed(at)
         case Parsed(key, keyEnd) =>
           var colon := SkipBlanks(s, keyEnd);
           if colon == |s| || s[colon] != COLON then Failed(colon)
           else match ParseValue(s, SkipBlanks(s, colon + 1), depth)
                case Failed(at) => Failed(at)
                case Parsed(item, next) => Parsed(Member(key, item), SkipBlanks(s, next))
  }

  /** The rest of an object from `off`, where a key is due, to its closing brace. */
  function ParseMembers(s: seq<byte>, off: nat, depth: nat): (r: Parse<seq<Member>>)
    requires 0 < off <= |s| && depth <= NESTING_LIMIT
    ensures r.Parsed? ==> off < r.next <= |s| && depth + MembersNesting(r.value) <= NESTING_LIMIT && NulFreeMembers(r.value)
    ensures r.Failed? ==> r.at <= |s|
    decreases |s| - off, 2
  {
    match ParseMember(s, off, depth)
    case Failed(at) => Failed(at)
    case Parsed(member, after) =>
      if after < |s| && s[after] == COMMA then
        match ParseMembers(s, after + 1, depth)
        case Failed(at) => Failed(at)
        case Parsed(rest, end) => Parsed([member] + rest, end)
      else if after == |s| || s[after] != CLOSE_BRACE then Failed(after)
      else Parsed([member], after + 1)
  }

  // ----- one kind of value at a time -----

  /** No other value can be mistaken for a literal: they start with n, f and t. */
  lemma NotLiteral(s: seq<byte>, off: nat)
    requires off < |s| && s[off] != LOWER_N && s[off] != LOWER_F && s[off] != LOWER_T
    ensures !Matches(s, off, NULL_TEXT) && !Matches(s, off, FALSE_TEXT) && !Matches(s, off, TRUE_TEXT)
  {
  }

  lemma NumberCase(s: seq<byte>, off: nat, depth: nat)
    requires off < |s| && depth <= NESTING_LIMIT && (s[off] == MINUS || IsDigit(s[off]))
    ensures ParseValue(s, off, depth) == ParseNumber(s, off)
  {
    NotLiteral(s, off);
  }

  lemma ArrayCase(s: seq<byte>, off: nat, depth: nat)
    requires off < |s| && depth <= NESTING_LIMIT && s[off] == OPEN_BRACKET
    ensures var first := SkipBlanks(s, off + 1);
            ParseValue(s, off, depth) ==
            if depth == NESTING_LIMIT || first == |s| then Failed(off)
            else if s[first] == CLOSE_BRACKET then Parsed(Array([]), first + 1)
            else match ParseItems(s, first, depth + 1)
                 case Failed(at) => Failed(at)
                 case Parsed(items, next) => Parsed(Array(items), next)
  {
    NotLiteral(s, off);
  }

  lemma ObjectCase(s: seq<byte>, off: nat, depth: nat)
    requires off < |s| && depth <= NESTING_LIMIT && s[off] == OPEN_BRACE
    ensures var first := SkipBlanks(s, off + 1);
            ParseValue(s, off, depth) ==
            if depth == NESTING_LIMIT || first == |s| then Failed(off)
            else if s[first] == CLOSE_BRACE then Parsed(Object([]), first + 1)
            else match ParseMembers(s, first, depth + 1)
                 case Failed(at) => Failed(at)
                 case Parsed(members, next) => Parsed(Object(members), next)
  {
    NotLiteral(s, off);
  }

  // ----- the entry points -----

  const BYTE_ORDER_MARK: seq<byte> := [0xEF, 0xBB, 0xBF]

  lemma MarkIs()
    ensures BYTE_ORDER_MARK == Utf8(0xFEFF)
  {
  }

  /** skip_utf8_bom at offset 0; a mark needs two more bytes behind it. */
  function SkipMark(s: seq<byte>): (off: nat)
    ensures off <= |s|
  {
    if |s| > 4 && s[..3] == BYTE_ORDER_MARK then 3 else 0
  }

  /** cJSON_ParseWithLengthOpts on the whole buffer. */
  function ParseBuffer(s: seq<byte>, requireNul: bool): (r: Option<Json>)
    ensures r.Some? ==> Nesting(r.value) <= NESTING_LIMIT && NulFree(r.value)
  {
    if s == [] then None
    else match ParseValue(s, SkipBlanks(s, SkipMark(s)), 0)
         case Failed(_) => None
         case Parsed(j, next) =>
           var end := SkipBlanks(s, next);
           if requireNul && (end == |s| || s[end] != NUL) then None else Some(j)
  }

  /** The position reported to the caller: where parsing stopped, moved back into the buffer on failure. */
  function ReportedEnd(s: seq<byte>, requireNul: bool): (end: nat)
    ensures end <= |s|
    ensures s != [] && ParseBuffer(s, requireNul) == None ==> end < |s|
  {
    if s == [] then 0
    else
      var stop := match ParseValue(s, SkipBlanks(s, SkipMark(s)), 0)
                  case Failed(at) => at
                  case Parsed(_, next) => if requireNul then SkipBlanks(s, next) else next;
      if ParseBuffer(s, requireNul) == None && stop >= |s| then |s| - 1 else stop
  }

  /**
   cJSON_ParseWithLengthOpts on a text and the terminator behind it. For a text without NUL that is
   cJSON_ParseWithOpts; with a NUL inside, strlen would end the text there.
   */
  function ParseText(text: seq<byte>, requireNul: bool): Option<Json> {
    ParseBuffer(text + [NUL], requireNul)
  }
}

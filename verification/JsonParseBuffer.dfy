/**
 cJSON's parse_buffer: the cursor machine with its loops, proved to follow the functions of
 JsonParser, with every buffer read and every write to an output string in bounds. The items it
 allocates and links make up a well-formed tree of the parsed value.
 */
module JsonParseBuffer {
  import opened Options
  import opened JsonTree
  import opened JsonNumbers
  import opened JsonStrings
  import opened SiblingList
  import opened JsonItems
  import P = JsonParser

  /** A run of already read elements in front of what the rest of the loop reads. */
  function Prepend<T>(front: seq<T>, rest: Parse<seq<T>>): Parse<seq<T>> {
    match rest
    case Failed(at) => Failed(at)
    case Parsed(back, next) => Parsed(front + back, next)
  }

  /** The end of an element loop: the elements and the closing bracket, or a failure at `off`. */
  function Closed<T>(s: seq<byte>, off: nat, elements: seq<T>, bracket: byte): Parse<seq<T>> {
    if off < |s| && s[off] == bracket then Parsed(elements, off + 1) else Failed(off)
  }

  /** What the second scan yields once `front` has been written. */
  function Written(front: seq<byte>, rest: Decoding): Decoding {
    match rest
    case BadEscape(at) => BadEscape(at)
    case Decoded(back) => Decoded(front + back)
  }

  lemma AllFits(s: seq<byte>, start: nat, end: nat, charged: nat)
    requires start <= |s| && ScanString(s, start) == Some(end) && charged == Charged(s, start)
    ensures Fits(s, start, end, 0, charged) && Unescape(s, start, end) == Written([], Unescape(s, start, end))
  {
    hide ScanString, Charged, Unescape;
    assert InScan(s, start, end, true);
  }

  /** One turn of the second loop, with `front` written before it. */
  lemma OneStep(s: seq<byte>, j: nat, end: nat, front: seq<byte>)
    requires j < end < |s|
    ensures Written(front, Unescape(s, j, end)) ==
            match DecodeStep(s, j, end)
            case Bad => BadEscape(j)
            case Step(length, bytes) => Written(front + bytes, Unescape(s, j + length, end))
  {
    hide DecodeStep;
    var step := DecodeStep(s, j, end);
    if step.Step? { WrittenOn(front, step.bytes, Unescape(s, j + step.length, end)); }
  }

  lemma WrittenOn(front: seq<byte>, bytes: seq<byte>, rest: Decoding)
    ensures Written(front + bytes, rest) == Written(front, Written(bytes, rest))
  {
  }

  lemma NoStep(s: seq<byte>, j: nat, end: nat, front: seq<byte>)
    requires end <= j <= end + 1 && end < |s|
    ensures Written(front, Unescape(s, j, end)) == Decoded(front)
  {
  }

  lemma PrependNone<T>(rest: Parse<seq<T>>)
    ensures Prepend([], rest) == rest
  {
    if rest.Parsed? { assert [] + rest.value == rest.value; }
  }

  lemma PrependOn<T>(front: seq<T>, x: T, rest: Parse<seq<T>>)
    ensures Prepend(front + [x], rest) == Prepend(front, Prepend([x], rest))
  {
    if rest.Parsed? { assert front + [x] + rest.value == front + ([x] + rest.value); }
  }

  /** One turn of parse_array's loop, with `items` read before it and an element due at `due`. */
  lemma ItemRead(s: seq<byte>, due: nat, depth: nat, items: seq<Json>)
    requires due <= |s| && depth <= NESTING_LIMIT
    ensures match P.ParseValue(s, P.SkipBlanks(s, due), depth)
            case Failed(at) => Prepend(items, P.ParseItems(s, due, depth)) == Failed(at)
            case Parsed(item, next) =>
              var after := P.SkipBlanks(s, next);
              Prepend(items, P.ParseItems(s, due, depth))
              == if after < |s| && s[after] == COMMA then Prepend(items + [item], P.ParseItems(s, after + 1, depth))
                 else Closed(s, after, items + [item], CLOSE_BRACKET)
  {
    hide P.ParseValue, P.SkipBlanks;
    match P.ParseValue(s, P.SkipBlanks(s, due), depth)
    case Failed(_) =>
    case Parsed(item, next) =>
      var after := P.SkipBlanks(s, next);
      if after < |s| && s[after] == COMMA {
        PrependOn(items, item, P.ParseItems(s, after + 1, depth));
      }
  }

  /** One turn of parse_object's loop. */
  lemma MemberRead(s: seq<byte>, due: nat, depth: nat, members: seq<Member>)
    requires 0 < due <= |s| && depth <= NESTING_LIMIT
    ensures match P.ParseMember(s, due, depth)
            case Failed(at) => Prepend(members, P.ParseMembers(s, due, depth)) == Failed(at)
            case Parsed(member, after) =>
              Prepend(members, P.ParseMembers(s, due, depth))
              == if after < |s| && s[after] == COMMA then Prepend(members + [member], P.ParseMembers(s, after + 1, depth))
                 else Closed(s, after, members + [member], CLOSE_BRACE)
  {
    hide P.ParseMember;
    match P.ParseMember(s, due, depth)
    case Failed(_) =>
    case Parsed(member, after) =>
      if after < |s| && s[after] == COMMA {
        PrependOn(members, member, P.ParseMembers(s, after + 1, depth));
      }
  }

  /** The encoding loop of utf16_literal_to_utf8: last byte first, six bits at a time. */
  method EncodeUtf8(codePoint: nat, output: array<byte>, at: nat) returns (length: nat)
    requires codePoint <= MAX_CODE_POINT
    requires at + |Utf8(codePoint)| <= output.Length
    modifies output
    ensures length == |Utf8(codePoint)|
    ensures output[..at] == old(output[..at])
    ensures output[at..at + length] == Utf8(codePoint)
  {
    hide Utf8, Shifted;
    Utf8Length(codePoint);
    var mark := 0;
    if codePoint < 0x80 {
      length := 1;
    } else if codePoint < 0x800 {
      length, mark := 2, 0xC0;
    } else if codePoint < 0x10000 {
      length, mark := 3, 0xE0;
    } else {
      length, mark := 4, 0xF0;
    }
    var rest := codePoint;
    var position := length - 1;
    NotShifted(codePoint);
    while position > 0
      invariant 0 <= position < length
      invariant output[..at] == old(output[..at])
      invariant rest == Shifted(codePoint, length - 1 - position)
      invariant forall k :: position < k < length ==> output[at + k] == Utf8(codePoint)[k]
    {
      LowSixBits(codePoint, length, position);
      output[at + position] := 0x80 + rest % 0x40;
      rest := rest / 0x40;
      position := position - 1;
    }
    LeadByte(codePoint, length);
    output[at] := mark + rest;
  }

  /** `codePoint >>= 6`, repeated. */
  function Shifted(codePoint: nat, times: nat): nat {
    if times == 0 then codePoint else Shifted(codePoint, times - 1) / 0x40
  }

  lemma NotShifted(codePoint: nat)
    ensures Shifted(codePoint, 0) == codePoint
  {
  }

  lemma Utf8Length(codePoint: nat)
    requires codePoint <= MAX_CODE_POINT
    ensures |Utf8(codePoint)| == if codePoint < 0x80 then 1 else if codePoint < 0x800 then 2
                                 else if codePoint < 0x10000 then 3 else 4
  {
  }

  lemma LowSixBits(codePoint: nat, length: nat, position: nat)
    requires codePoint <= MAX_CODE_POINT && length == |Utf8(codePoint)| && 0 < position < length
    ensures Utf8(codePoint)[position] == 0x80 + Shifted(codePoint, length - 1 - position) % 0x40
    ensures Shifted(codePoint, length - position) == Shifted(codePoint, length - 1 - position) / 0x40
  {
    assert Shifted(codePoint, 1) == codePoint / 0x40;
    assert Shifted(codePoint, 2) == codePoint / 0x40 / 0x40 == codePoint / 0x1000;
  }

  lemma LeadByte(codePoint: nat, length: nat)
    requires codePoint <= MAX_CODE_POINT && length == |Utf8(codePoint)|
    ensures Utf8(codePoint)[0] == Shifted(codePoint, length - 1)
            + (if length == 1 then 0 else if length == 2 then 0xC0 else if length == 3 then 0xE0 else 0xF0)
  {
    assert Shifted(codePoint, 1) == codePoint / 0x40;
    assert Shifted(codePoint, 2) == codePoint / 0x40 / 0x40 == codePoint / 0x1000;
    assert Shifted(codePoint, 3) == codePoint / 0x1000 / 0x40 == codePoint / 0x4_0000;
  }

  class ParseBuffer {
    const content: seq<byte>
    var offset: nat
    var depth: nat

    ghost predicate Valid()
      reads this
    {
      offset <= |content| && depth <= NESTING_LIMIT
    }

    /** The buffer stands where the specification stops, with the value it gives. */
    ghost predicate Leaves<T>(p: Parse<T>, r: Option<T>)
      reads this
    {
      match p
      case Failed(at) => r == None && offset == at
      case Parsed(v, next) => r == Some(v) && offset == next
    }

    constructor (content: seq<byte>)
      ensures Valid() && this.content == content && offset == 0 && depth == 0
    {
      this.content := content;
      offset, depth := 0, 0;
    }

    method SkipWhitespace()
      requires Valid()
      modifies this`offset
      ensures Valid() && offset == P.SkipBlanks(content, old(offset))
    {
      if offset >= |content| {
        return;
      }
      while offset < |content| && content[offset] <= SPACE
        invariant old(offset) <= offset <= |content|
        invariant P.BlankEnd(content, offset) == P.BlankEnd(content, old(offset))
      {
        offset := offset + 1;
      }
      if offset == |content| {
        offset := offset - 1;
      }
    }

    /** The copy loop of parse_number into its temporary buffer. */
    method CopyNumberText() returns (text: seq<byte>)
      requires Valid()
      ensures text == content[offset..offset + NumberRun(content, offset, 0)]
    {
      hide IsNumberByte, NumberRun;
      var numberText := new byte[NUMBER_TEXT_LIMIT + 1];
      var i := 0;
      while i < NUMBER_TEXT_LIMIT && offset + i < |content| && IsNumberByte(content[offset + i])
        invariant i <= NUMBER_TEXT_LIMIT && offset + i <= |content|
        invariant NumberRun(content, offset, i) == NumberRun(content, offset, 0)
        invariant forall k :: 0 <= k < i ==> numberText[k] == content[offset + k]
      {
        RunStep(content, offset, i);
        numberText[i] := content[offset + i];
        i := i + 1;
      }
      RunStep(content, offset, i);
      text := numberText[..i];
    }

    method ParseNumber() returns (r: Option<Json>)
      requires Valid()
      modifies this`offset
      ensures Valid() && Leaves(P.ParseNumber(content, old(offset)), r)
    {
      hide ReadDecimal, NumberRun;
      var text := CopyNumberText();
      match ReadDecimal(text) {
        case NoNumber =>
          r := None;
        case Read(v, length) =>
          r := Some(Number(v));
          offset := offset + length;
      }
    }

    /** parse_hex4: adds a digit, shifts between digits, and gives 0 for anything else. */
    method ParseHex4(at: nat) returns (h: nat)
      requires at + 4 <= |content|
      ensures h == Hex4(content, at)
    {
      h := 0;
      var i := 0;
      while i < 4
        invariant 0 <= i <= 4
        invariant forall k :: at <= k < at + i ==> IsHex(content[k])
        invariant i == 0 ==> h == 0
        invariant i == 1 ==> h == HexDigit(content[at]) * 0x10
        invariant i == 2 ==> h == HexDigit(content[at]) * 0x100 + HexDigit(content[at + 1]) * 0x10
        invariant i == 3 ==> h == HexDigit(content[at]) * 0x1000 + HexDigit(content[at + 1]) * 0x100
                                  + HexDigit(content[at + 2]) * 0x10
        invariant i == 4 ==> h == HexDigit(content[at]) * 0x1000 + HexDigit(content[at + 1]) * 0x100
                                  + HexDigit(content[at + 2]) * 0x10 + HexDigit(content[at + 3])
      {
        assert i == 0 || i == 1 || i == 2 || i == 3;
        if !IsHex(content[at + i]) {
          return 0;
        }
        h := h + HexDigit(content[at + i]);
        if i < 3 {
          h := h * 0x10;
        }
        i := i + 1;
      }
    }

    /** A length of 0 is the failure of the source; otherwise `output` got the encoded bytes. */
    method Utf16LiteralToUtf8(input: nat, end: nat, output: array<byte>, at: nat) returns (length: nat, next: nat)
      requires input < end < |content| && at <= output.Length
      requires Utf16Literal(content, input, end).Step? ==> at + |Utf16Literal(content, input, end).bytes| <= output.Length
      modifies output
      ensures Utf16Literal(content, input, end).Bad? ==> length == 0
      ensures Utf16Literal(content, input, end).Step? ==>
                length == Utf16Literal(content, input, end).length && at <= next <= output.Length
                && output[at..next] == Utf16Literal(content, input, end).bytes
                && output[..at] == old(output[..at])
    {
      hide Hex4, Utf8;
      length, next := 0, at;
      if end - input < 6 {
        return;
      }
      var first := ParseHex4(input + 2);
      if IsLowSurrogate(first) {
        return;
      }
      var codePoint := first;
      var sequenceLength := 6;
      if IsHighSurrogate(first) {
        sequenceLength := 12;
        if end - (input + 6) < 6 || content[input + 6] != BACKSLASH || content[input + 7] != LOWER_U {
          return;
        }
        var second := ParseHex4(input + 8);
        if !IsLowSurrogate(second) {
          return;
        }
        codePoint := 0x10000 + first % 0x400 * 0x400 + second % 0x400;
      }
      var written := EncodeUtf8(codePoint, output, at);
      length, next := sequenceLength, at + written;
    }

    /** The first scan: where the string ends and how many backslashes it steps over. */
    method MeasureString() returns (end: nat, skipped: nat, ok: bool)
      requires Valid() && offset < |content|
      ensures ok <==> ScanString(content, offset + 1).Some?
      ensures ok ==> ScanString(content, offset + 1) == Some(end)
      ensures ok ==> skipped <= end - offset && end - offset - skipped == 1 + Charged(content, offset + 1)
    {
      ghost var start := offset + 1;
      end, skipped, ok := offset + 1, 0, false;
      while end < |content| && content[end] != QUOTE
        invariant start <= end <= |content|
        invariant ScanString(content, end) == ScanString(content, start)
        invariant skipped <= end - start
        invariant ScanString(content, start).Some? ==>
                    end - start - skipped + Charged(content, end) == Charged(content, start)
        decreases |content| - end
      {
        if content[end] == BACKSLASH {
          if end + 1 >= |content| {
            return;
          }
          skipped := skipped + 1;
          end := end + 1;
        }
        end := end + 1;
      }
      ok := end < |content|;
    }

    /**
     parse_string. The output block has the measured size plus a terminator; every write of the
     second scan and the terminator fall inside it.
     */
    method ParseString() returns (r: Option<seq<byte>>)
      requires Valid() && offset < |content|
      modifies this`offset
      ensures Valid() && Leaves(JsonStrings.ParseString(content, old(offset)), r)
    {
      hide DecodeStep, ScanString, Charged, CString, Unescape, Written, Fits;
      var input := offset + 1;
      if content[offset] != QUOTE {
        offset := input;
        return None;
      }
      var end, skipped, found := MeasureString();
      if !found {
        offset := input;
        return None;
      }
      ghost var start := input;
      var allocation := end - offset - skipped;
      var output := new byte[allocation + 1];
      var out := 0;
      AllFits(content, start, end, allocation - 1);
      while input < end
        invariant start <= input <= end + 1
        invariant out <= allocation - 1
        invariant Fits(content, input, end, out, allocation - 1)
        invariant Unescape(content, start, end) == Written(output[..out], Unescape(content, input, end))
        decreases end + 1 - input
      {
        ghost var step := DecodeStep(content, input, end);
        if step.Step? {
          StepFits(content, input, end, out, allocation - 1);
        }
        ghost var before := output[..out];
        OneStep(content, input, end, before);
        var length, next := WriteStep(input, end, output, out);
        if length == 0 {
          offset := input;
          return None;
        }
        assert output[..next] == before + step.bytes;
        input, out := input + length, next;
      }
      NoStep(content, input, end, output[..out]);
      output[out] := NUL;
      r := Some(CString(output[..out]));
      offset := end + 1;
    }

    /** One turn of the second loop; a length of 0 is a failed escape. */
    method WriteStep(input: nat, end: nat, output: array<byte>, out: nat) returns (length: nat, next: nat)
      requires input < end < |content| && out <= output.Length
      requires DecodeStep(content, input, end).Step? ==> out + |DecodeStep(content, input, end).bytes| <= output.Length
      modifies output
      ensures DecodeStep(content, input, end).Bad? <==> length == 0
      ensures DecodeStep(content, input, end).Step? ==>
                length == DecodeStep(content, input, end).length && out <= next <= output.Length
                && next == out + |DecodeStep(content, input, end).bytes|
                && output[out..next] == DecodeStep(content, input, end).bytes
                && output[..out] == old(output[..out])
    {
      if content[input] != BACKSLASH {
        output[out] := content[input];
        length, next := 1, out + 1;
      } else if content[input + 1] == LOWER_U {
        length, next := Utf16LiteralToUtf8(input, end, output, out);
      } else {
        match ShortEscape(content[input + 1]) {
          case None =>
            length, next := 0, out;
          case Some(b) =>
            output[out] := b;
            length, next := 2, out + 1;
        }
      }
    }

    /** The buffer stands where the specification stops, and `item` is a tree of the value it gives. */
    ghost predicate Builds(p: Parse<Json>, key: Option<seq<byte>>, item: Item?)
      reads this, Given(item), if item == null then {} else item.repr
    {
      match p
      case Failed(at) => item == null && offset == at
      case Parsed(v, next) =>
        offset == next && item != null && IsTree(item) && TreeOf(item) == v && item.IsDetached() && item.key == key
    }

    /** parse_value into a new item, named `key`. */
    method ParseValue(key: Option<seq<byte>>) returns (item: Item?)
      requires Valid()
      modifies this
      ensures Valid() && Builds(P.ParseValue(content, old(offset), old(depth)), key, item)
      ensures item != null ==> fresh(item.repr) && depth == old(depth)
      decreases |content| - offset, 4
    {
      hide JsonStrings.ParseString, ReadDecimal, NumberRun, IsTree, TreeOf;
      if P.Matches(content, offset, NULL_TEXT) {
        offset := offset + 4;
        item := NewItem(NullItem, key);
        return;
      }
      if P.Matches(content, offset, FALSE_TEXT) {
        offset := offset + 5;
        item := NewItem(BoolItem(false), key);
        return;
      }
      if P.Matches(content, offset, TRUE_TEXT) {
        offset := offset + 4;
        item := NewItem(BoolItem(true), key);
        return;
      }
      if offset == |content| {
        return null;
      }
      if content[offset] == QUOTE {
        var text := ParseString();
        if text.None? {
          return null;
        }
        item := NewItem(StringItem(text.value), key);
        return;
      }
      if content[offset] == MINUS || IsDigit(content[offset]) {
        var number := ParseNumber();
        if number.None? {
          return null;
        }
        item := NewItem(NumberItem(number.value.number), key);
        return;
      }
      if content[offset] == OPEN_BRACKET {
        item := ParseArray(key);
        return;
      }
      if content[offset] == OPEN_BRACE {
        item := ParseObject(key);
        return;
      }
      return null;
    }

    method ParseArray(key: Option<seq<byte>>) returns (item: Item?)
      requires Valid() && offset < |content| && content[offset] == OPEN_BRACKET
      modifies this
      ensures Valid() && Builds(P.ParseValue(content, old(offset), old(depth)), key, item)
      ensures item != null ==> fresh(item.repr) && depth == old(depth)
      decreases |content| - offset, 3
    {
      hide P.ParseValue, P.ParseItems, P.SkipBlanks, IsTree, TreeOf, Item.IsList;
      P.ArrayCase(content, offset, depth);
      if depth >= NESTING_LIMIT {
        return null;
      }
      item := new Item(ArrayItem, key);
      depth := depth + 1;
      offset := offset + 1;
      SkipWhitespace();
      if offset < |content| && content[offset] == CLOSE_BRACKET {
        depth := depth - 1;
        offset := offset + 1;
        NoChildren(item);
        return;
      }
      if offset == |content| {
        offset := offset - 1;
        return null;
      }
      var ok := FillArray(item);
      if !ok {
        return null;
      }
      depth := depth - 1;
    }

    /** The elements and the closing bracket: steps back to the byte before the first one to start with. */
    method FillArray(item: Item) returns (ok: bool)
      requires Valid() && 0 < offset < |content|
      requires item.payload.ArrayItem? && item.IsDetached() && item.child == null
      modifies this, item`child, item`children, item`repr
      ensures Valid()
      ensures match P.ParseItems(content, old(offset), old(depth))
              case Failed(at) => !ok && offset == at
              case Parsed(values, next) => ok && offset == next && IsTree(item) && TreeOf(item) == Array(values)
      ensures ok ==> depth == old(depth) && item.IsDetached() && item in item.repr && fresh(item.repr - {item})
      decreases |content| - offset + 1, 2
    {
      hide P.ParseValue, P.ParseItems, P.SkipBlanks, IsTree, TreeOf, Items, Growing, Item.IsList;
      offset := offset - 1;
      var read, last, children, values, below := ParseElements(item);
      if !read || offset == |content| || content[offset] != CLOSE_BRACKET {
        return false;
      }
      offset := offset + 1;
      CloseArray(item, children, values, below, last);
      ok := true;
    }

    /** The element loop of parse_array, from the byte before the first element. */
    method ParseElements(parent: Item)
      returns (ok: bool, last: Item?, ghost children: seq<Item>, ghost values: seq<Json>, ghost below: set<Item>)
      requires Valid() && offset < |content| && parent.IsDetached() && parent.child == null
      modifies this, parent`child
      ensures Valid() && fresh(below)
      ensures !ok ==> P.ParseItems(content, old(offset) + 1, old(depth)) == Failed(offset)
      ensures ok ==> P.ParseItems(content, old(offset) + 1, old(depth)) == Closed(content, offset, values, CLOSE_BRACKET)
      ensures ok ==> depth == old(depth) && Growing(parent, children, values, below, last)
      decreases |content| - offset, 1
    {
      hide P.ParseValue, P.ParseItems, P.SkipBlanks, Prepend, IsTree, TreeOf, Growing;
      ghost var all := P.ParseItems(content, offset + 1, depth);
      last, children, values, below := null, [], [], {};
      NothingCopied(parent);
      PrependNone(all);
      var more := true;
      while more
        invariant Valid() && old(offset) <= offset && depth == old(depth)
        invariant more ==> offset < |content| && all == Prepend(values, P.ParseItems(content, offset + 1, depth))
        invariant !more ==> old(offset) < offset && all == Closed(content, offset, values, CLOSE_BRACKET)
        invariant fresh(below) && (last == null || last in below) && Growing(parent, children, values, below, last)
        decreases |content| - offset, more
      {
        ItemRead(content, offset + 1, depth, values);
        var element := ParseElement();
        if element == null {
          return false, last, children, values, below;
        }
        more := offset < |content| && content[offset] == COMMA;
        FirstChild(element);
        ghost var value := TreeOf(element);
        Append(parent, children, values, below, last, element);
        last := element;
        children, values, below := children + [element], values + [value], below + element.repr;
      }
      ok := true;
    }

    /** The body of parse_array's loop, from the byte before an element to behind it. */
    method ParseElement() returns (child: Item?)
      requires Valid() && offset < |content|
      modifies this
      ensures Valid()
      ensures match P.ParseValue(content, P.SkipBlanks(content, old(offset) + 1), old(depth))
              case Failed(at) => child == null && offset == at
              case Parsed(v, next) => offset == P.SkipBlanks(content, next)
                                      && child != null && IsTree(child) && child.IsDetached() && TreeOf(child) == v
      ensures child != null ==> old(offset) < offset && fresh(child.repr) && depth == old(depth)
      decreases |content| - offset - 1, 5
    {
      hide P.ParseValue, IsTree, TreeOf;
      offset := offset + 1;
      SkipWhitespace();
      child := ParseValue(None);
      if child == null {
        return;
      }
      SkipWhitespace();
    }

    method ParseObject(key: Option<seq<byte>>) returns (item: Item?)
      requires Valid() && offset < |content| && content[offset] == OPEN_BRACE
      modifies this
      ensures Valid() && Builds(P.ParseValue(content, old(offset), old(depth)), key, item)
      ensures item != null ==> fresh(item.repr) && depth == old(depth)
      decreases |content| - offset, 3
    {
      hide P.ParseValue, P.ParseMembers, P.SkipBlanks, IsTree, TreeOf, Item.IsList;
      P.ObjectCase(content, offset, depth);
      if depth >= NESTING_LIMIT {
        return null;
      }
      item := new Item(ObjectItem, key);
      depth := depth + 1;
      offset := offset + 1;
      SkipWhitespace();
      if offset < |content| && content[offset] == CLOSE_BRACE {
        depth := depth - 1;
        offset := offset + 1;
        NoChildren(item);
        return;
      }
      if offset == |content| {
        offset := offset - 1;
        return null;
      }
      var ok := FillObject(item);
      if !ok {
        return null;
      }
      depth := depth - 1;
    }

    /** The members and the closing brace: steps back to the byte before the first key to start with. */
    method FillObject(item: Item) returns (ok: bool)
      requires Valid() && 0 < offset < |content|
      requires item.payload.ObjectItem? && item.IsDetached() && item.child == null
      modifies this, item`child, item`children, item`repr
      ensures Valid()
      ensures match P.ParseMembers(content, old(offset), old(depth))
              case Failed(at) => !ok && offset == at
              case Parsed(members, next) => ok && offset == next && IsTree(item) && TreeOf(item) == Object(members)
      ensures ok ==> depth == old(depth) && item.IsDetached() && item in item.repr && fresh(item.repr - {item})
      decreases |content| - offset + 1, 2
    {
      hide P.ParseValue, P.ParseMembers, P.SkipBlanks, IsTree, TreeOf, Items, Members, Growing, Keyed, Item.IsList;
      offset := offset - 1;
      var read, last, children, members, values, below := ParseMembers(item);
      if !read || offset == |content| || content[offset] != CLOSE_BRACE {
        return false;
      }
      offset := offset + 1;
      CloseObject(item, children, members, values, below, last);
      ok := true;
    }

    /** The member loop of parse_object, from the byte before the first key. */
    method ParseMembers(parent: Item)
      returns (ok: bool, last: Item?, ghost children: seq<Item>, ghost members: seq<Member>,
               ghost values: seq<Json>, ghost below: set<Item>)
      requires Valid() && offset < |content| && parent.IsDetached() && parent.child == null
      modifies this, parent`child
      ensures Valid() && fresh(below)
      ensures !ok ==> P.ParseMembers(content, old(offset) + 1, old(depth)) == Failed(offset)
      ensures ok ==> P.ParseMembers(content, old(offset) + 1, old(depth)) == Closed(content, offset, members, CLOSE_BRACE)
      ensures ok ==> depth == old(depth) && Growing(parent, children, values, below, last)
      ensures ok ==> Keyed(children, members, values)
      decreases |content| - offset, 1
    {
      hide P.ParseMember, P.ParseMembers, Prepend, IsTree, TreeOf, Growing, Keyed;
      ghost var all := P.ParseMembers(content, offset + 1, depth);
      last, children, members, values, below := null, [], [], [], {};
      NothingCopied(parent);
      PrependNone(all);
      NothingKeyed();
      var more := true;
      while more
        invariant Valid() && old(offset) <= offset && depth == old(depth)
        invariant more ==> offset < |content| && all == Prepend(members, P.ParseMembers(content, offset + 1, depth))
        invariant !more ==> old(offset) < offset && all == Closed(content, offset, members, CLOSE_BRACE)
        invariant fresh(below) && (last == null || last in below) && Growing(parent, children, values, below, last)
        invariant Keyed(children, members, values)
        decreases |content| - offset, more
      {
        MemberRead(content, offset + 1, depth, members);
        var child := ParseMember();
        if child == null {
          return false, last, children, members, values, below;
        }
        more := offset < |content| && content[offset] == COMMA;
        FirstChild(child);
        ghost var value := TreeOf(child);
        Append(parent, children, values, below, last, child);
        KeyedMore(children, members, values, child, value);
        last := child;
        children, values, below := children + [child], values + [value], below + child.repr;
        members := members + [Member(child.key.value, value)];
      }
      ok := true;
    }

    /** The body of parse_object's loop, from the byte before a key to behind its value. */
    method ParseMember() returns (child: Item?)
      requires Valid() && offset < |content|
      modifies this
      ensures Valid()
      ensures match P.ParseMember(content, old(offset) + 1, old(depth))
              case Failed(at) => child == null && offset == at
              case Parsed(m, next) => offset == next && child != null && IsTree(child) && child.IsDetached()
                                      && child.key == Some(m.key) && TreeOf(child) == m.item
      ensures child != null ==> fresh(child.repr) && depth == old(depth)
      decreases |content| - offset - 1, 5
    {
      hide P.ParseValue, P.SkipBlanks, JsonStrings.ParseString, IsTree, TreeOf;
      if offset + 1 >= |content| {
        return null;
      }
      offset := offset + 1;
      SkipWhitespace();
      var key := ParseString();
      if key.None? {
        return null;
      }
      SkipWhitespace();
      if offset == |content| || content[offset] != COLON {
        return null;
      }
      offset := offset + 1;
      SkipWhitespace();
      child := ParseValue(key);
      if child == null {
        return;
      }
      SkipWhitespace();
    }
  }

  /** The value of an item without children. */
  function LeafValue(payload: Payload): Json
    requires !payload.ArrayItem? && !payload.ObjectItem?
  {
    match payload
    case NullItem => Null
    case BoolItem(b) => Bool(b)
    case NumberItem(v) => Number(v)
    case StringItem(text) => String(text)
  }

  /** A new item for a value without children. */
  method NewItem(payload: Payload, key: Option<seq<byte>>) returns (item: Item)
    requires !payload.ArrayItem? && !payload.ObjectItem?
    ensures fresh(item.repr) && IsTree(item) && item.IsDetached() && item.key == key
    ensures TreeOf(item) == LeafValue(payload)
  {
    item := new Item(payload, key);
  }

  lemma NoChildren(item: Item)
    requires item.IsList() && item.children == [] && item.repr == {item}
    ensures IsTree(item)
    ensures item.payload.ArrayItem? ==> TreeOf(item) == Array([])
    ensures item.payload.ObjectItem? ==> TreeOf(item) == Object([])
  {
  }

  lemma ArrayTree(item: Item)
    requires IsTree(item) && item.payload.ArrayItem?
    ensures TreeOf(item) == Array(Items(item, 0))
  {
    hide IsTree, Items;
  }

  /** Children with the keys and the values of these members. */
  ghost predicate Keyed(children: seq<Item>, members: seq<Member>, values: seq<Json>) {
    |children| == |members| == |values|
    && forall i :: 0 <= i < |members| ==> children[i].key == Some(members[i].key) && values[i] == members[i].item
  }

  lemma NothingKeyed()
    ensures Keyed([], [], [])
  {
  }

  lemma KeyedMore(children: seq<Item>, members: seq<Member>, values: seq<Json>, child: Item, value: Json)
    requires Keyed(children, members, values) && child.key.Some?
    ensures Keyed(children + [child], members + [Member(child.key.value, value)], values + [value])
  {
  }

  lemma HaveKeys(children: seq<Item>, members: seq<Member>, values: seq<Json>)
    requires Keyed(children, members, values)
    ensures forall c :: c in children ==> c.key.Some?
  {
  }

  lemma ObjectTree(item: Item, members: seq<Member>)
    requires IsTree(item) && item.payload.ObjectItem? && Keyed(item.children, members, Items(item, 0))
    ensures TreeOf(item) == Object(members)
  {
    hide IsTree, Items, Members;
    forall k | 0 <= k < |members| ensures Members(item, 0)[k] == members[k] {
      MembersAt(item, 0, k);
    }
    assert Members(item, 0) == members;
  }

  /** The end of parse_array: the first child's `prev` and the item's `child`. */
  method CloseArray(item: Item, ghost children: seq<Item>, ghost values: seq<Json>, ghost below: set<Item>, last: Item?)
    requires item.payload.ArrayItem? && Growing(item, children, values, below, last)
    modifies item`children, item`repr, below`prev
    ensures IsTree(item) && TreeOf(item) == Array(values) && item.repr == {item} + below && item.IsDetached()
  {
    hide IsTree, TreeOf, Items, Growing;
    Close(item, children, values, below, last);
    ArrayTree(item);
  }

  /** The end of parse_object. */
  method CloseObject(item: Item, ghost children: seq<Item>, ghost members: seq<Member>, ghost values: seq<Json>,
                     ghost below: set<Item>, last: Item?)
    requires item.payload.ObjectItem? && Growing(item, children, values, below, last) && Keyed(children, members, values)
    modifies item`children, item`repr, below`prev
    ensures IsTree(item) && TreeOf(item) == Object(members) && item.repr == {item} + below && item.IsDetached()
  {
    hide IsTree, TreeOf, Items, Growing, Keyed;
    HaveKeys(children, members, values);
    Close(item, children, values, below, last);
    ObjectTree(item, members);
  }

  /**
   cJSON_ParseWithLengthOpts: a new tree of the parsed value or nothing, and the position reported
   to the caller, which on failure is an index of the text.
   */
  method ParseWithLengthOpts(value: seq<byte>, requireNul: bool) returns (item: Item?, end: nat)
    ensures match P.ParseBuffer(value, requireNul)
            case None => item == null
            case Some(v) => item != null && fresh(item.repr) && IsTree(item) && TreeOf(item) == v
                            && item.IsDetached() && item.key == None
    ensures end == P.ReportedEnd(value, requireNul)
  {
    hide P.ParseValue, P.SkipBlanks, IsTree, TreeOf;
    if value == [] {
      return null, 0;
    }
    var buffer := new ParseBuffer(value);
    if |value| > 4 && value[..3] == P.BYTE_ORDER_MARK {
      buffer.offset := 3;
    }
    buffer.SkipWhitespace();
    item := buffer.ParseValue(None);
    if item != null && requireNul {
      buffer.SkipWhitespace();
      if buffer.offset >= |value| || value[buffer.offset] != NUL {
        item := null;
      }
    }
    end := buffer.offset;
    if item == null && end >= |value| {
      end := |value| - 1;
    }
  }
}

/**
 cJSON's printbuffer: print_value with its growing block and re-measured offset, proved to
 write exactly the rendered text and to succeed exactly when one spare byte is left.
 */
module JsonPrintBuffer {
  import opened Options
  import opened JsonTree
  import opened JsonNumbers
  import opened JsonStrings
  import R = JsonRender

  /** The size of print_number's temporary buffer without its terminator. */
  const NUMBER_BUFFER_LIMIT: nat := 25
  const DEFAULT_BUFFER_SIZE: nat := 256

  /** The bytes a print at `offset` needs: its text, its terminator and one spare byte. */
  function Demand(offset: nat, text: seq<byte>): nat {
    offset + |text| + 2
  }

  lemma {:induction false} EscapeNulFree(text: seq<byte>)
    requires NUL !in text
    ensures NUL !in Escape(text)
  {
    if text != [] {
      assert text[0] != NUL;
      assert NUL !in EscapeByte(text[0]);
      EscapeNulFree(text[1..]);
    }
  }

  lemma {:induction false} RenderNulFree(j: Json, format: bool, depth: nat)
    requires Printable(j)
    ensures NUL !in R.Render(j, format, depth)
    decreases j, 1
  {
    match j
    case Number(v) => IntTextLength(ValueInt(v));
    case String(text) => EscapeNulFree(text);
    case Array(items) => ItemsNulFree(items, format, depth + 1);
    case Object(members) => MembersNulFree(members, format, depth + 1);
    case _ =>
  }

  lemma {:induction false} ItemsNulFree(items: seq<Json>, format: bool, depth: nat)
    requires PrintableItems(items)
    ensures NUL !in R.RenderItems(items, format, depth)
    decreases items, 0
  {
    hide R.Render;
    if items != [] {
      RenderNulFree(items[0], format, depth);
      ItemsNulFree(items[1..], format, depth);
    }
  }

  lemma {:induction false} MembersNulFree(members: seq<Member>, format: bool, depth: nat)
    requires PrintableMembers(members)
    ensures NUL !in R.RenderMembers(members, format, depth)
    decreases members, 0
  {
    hide R.RenderMember;
    if members != [] {
      MemberNulFree(members[0], format, depth, |members| == 1);
      MembersNulFree(members[1..], format, depth);
    }
  }

  lemma {:induction false} MemberNulFree(m: Member, format: bool, depth: nat, last: bool)
    requires NUL !in m.key && Printable(m.item)
    ensures NUL !in R.RenderMember(m, format, depth, last)
    decreases m
  {
    hide R.Render, Escape, R.Tabs;
    EscapeNulFree(m.key);
    RenderNulFree(m.item, format, depth);
  }

  lemma EscapeTail(text: seq<byte>, i: nat)
    requires i < |text|
    ensures Escape(text[i..]) == EscapeByte(text[i]) + Escape(text[i + 1..])
  {
  }

  lemma EscapeEnd(text: seq<byte>)
    ensures Escape(text[|text|..]) == []
  {
  }

  lemma EscapeStep(text: seq<byte>, i: nat, soFar: seq<byte>)
    requires i < |text| && soFar + Escape(text[i..]) == Escape(text)
    ensures soFar + EscapeByte(text[i]) + Escape(text[i + 1..]) == Escape(text)
  {
    hide EscapeByte, Escape;
    EscapeTail(text, i);
    Associate(soFar, EscapeByte(text[i]), Escape(text[i + 1..]));
  }

  lemma Associate(a: seq<byte>, b: seq<byte>, c: seq<byte>)
    ensures a + (b + c) == a + b + c
  {
  }

  lemma Regroup(a: seq<byte>, b: seq<byte>, c: seq<byte>, d: seq<byte>)
    ensures a + (b + c + d) == a + b + c + d
  {
  }

  class PrintBuffer {
    var buffer: array<byte>
    var offset: nat
    var depth: nat
    const noalloc: bool
    const format: bool

    ghost predicate Valid()
      reads this`buffer, this`offset
    {
      buffer.Length <= INT_MAX && (offset < buffer.Length || buffer.Length == offset == 0)
    }

    /** How far the block may grow. */
    ghost function Limit(): nat
      reads this`buffer
    {
      if noalloc then buffer.Length else INT_MAX
    }

    /** `text` and a terminator stand at `start`, and the offset is somewhere in them. */
    ghost predicate Holds(start: nat, text: seq<byte>)
      reads this`buffer, this`offset, buffer
    {
      start <= offset <= start + |text| < buffer.Length
      && buffer[start..start + |text|] == text && buffer[start + |text|] == NUL
    }

    constructor (block: array<byte>, noalloc: bool, format: bool)
      requires block.Length <= INT_MAX
      ensures Valid() && buffer == block && offset == 0 && depth == 0
      ensures this.noalloc == noalloc && this.format == format
    {
      buffer, offset, depth := block, 0, 0;
      this.noalloc, this.format := noalloc, format;
    }

    /**
     ensure: room for `needed` more bytes and a terminator, moving the block if it must grow. A move
     by copying takes the bytes up to the offset along; realloc would keep them all.
     */
    method Ensure(needed: nat) returns (ok: bool)
      requires buffer.Length <= INT_MAX
      modifies this`buffer
      ensures ok <==> old(buffer.Length == 0 || offset < buffer.Length) && offset + needed + 1 <= old(Limit())
      ensures ok ==> offset + needed + 1 <= buffer.Length
      ensures old(buffer.Length) <= buffer.Length <= INT_MAX
      ensures buffer == old(buffer) || fresh(buffer)
      ensures noalloc ==> buffer == old(buffer)
      ensures offset <= old(buffer.Length) ==> buffer[..offset] == old(buffer[..offset])
    {
      if buffer.Length > 0 && offset >= buffer.Length {
        return false;
      }
      if needed > INT_MAX {
        return false;
      }
      var wanted := needed + offset + 1;
      if wanted <= buffer.Length {
        return true;
      }
      if noalloc {
        return false;
      }
      var newSize := wanted * 2;
      if wanted > INT_MAX / 2 {
        if wanted > INT_MAX {
          return false;
        }
        newSize := INT_MAX;
      }
      var newBuffer := new byte[newSize];
      forall i | 0 <= i < buffer.Length && i <= offset {
        newBuffer[i] := buffer[i];
      }
      buffer := newBuffer;
      return true;
    }

    /** What has been printed: everything before the offset. */
    ghost function Text(): (t: seq<byte>)
      requires Valid()
      reads this`buffer, this`offset, buffer
      ensures |t| == offset
    {
      buffer[..offset]
    }

    /** Room for `needed` bytes, then `text` at the offset, with a terminator if asked for. */
    method Write(text: seq<byte>, needed: nat, terminated: bool) returns (ok: bool)
      requires Valid() && |text| + (if terminated then 1 else 0) <= needed + 1
      modifies this`buffer, buffer
      ensures Valid() && Limit() == old(Limit()) && (buffer == old(buffer) || (!noalloc && fresh(buffer)))
      ensures Text() == old(Text())
      ensures ok <==> offset + needed + 1 <= Limit()
      ensures ok ==> offset + needed + 1 <= buffer.Length && buffer[offset..offset + |text|] == text
      ensures ok && terminated ==> Holds(offset, text)
    {
      ghost var before := Text();
      ok := Ensure(needed);
      assert buffer[..offset] == before;
      if !ok {
        return;
      }
      CopyInto(text, buffer, offset);
      if terminated {
        buffer[offset + |text|] := NUL;
      }
    }

    /** memcpy of a text to `at`. */
    static method CopyInto(text: seq<byte>, block: array<byte>, at: nat)
      requires at + |text| <= block.Length
      modifies block
      ensures block[..at] == old(block[..at]) && block[at..at + |text|] == text
    {
      var i := 0;
      while i < |text|
        invariant i <= |text|
        invariant block[..at] == old(block[..at]) && block[at..at + i] == text[..i]
      {
        block[at + i] := text[i];
        i := i + 1;
      }
      assert text[..i] == text;
    }

    /** The same, moving on behind the text. */
    method Emit(text: seq<byte>, needed: nat, terminated: bool) returns (ok: bool)
      requires Valid() && |text| + (if terminated then 1 else 0) <= needed + 1 && |text| <= needed
      modifies this`buffer, this`offset, buffer
      ensures Valid() && Limit() == old(Limit()) && (buffer == old(buffer) || (!noalloc && fresh(buffer)))
      ensures ok <==> old(offset) + needed + 1 <= Limit()
      ensures ok ==> Text() == old(Text()) + text
    {
      ok := Write(text, needed, terminated);
      if ok {
        assert buffer[..offset + |text|] == buffer[..offset] + buffer[offset..offset + |text|];
        offset := offset + |text|;
      }
    }

    /** update_offset: strlen from the offset, on to the terminator of the text at `start`. */
    method UpdateOffset(ghost start: nat, ghost text: seq<byte>)
      requires Valid() && Holds(start, text) && NUL !in text
      modifies this`offset
      ensures Valid() && Text() == old(buffer[..start]) + text
    {
      ghost var end := start + |text|;
      forall k | start <= k < end ensures buffer[k] != NUL {
        assert buffer[k] == text[k - start];
      }
      var length := 0;
      while buffer[offset + length] != NUL
        invariant offset + length <= end && offset == old(offset)
        decreases end - length
      {
        length := length + 1;
      }
      offset := offset + length;
      assert buffer[..end] == buffer[..start] + buffer[start..end];
    }

    /** print_number: "%d" into a temporary buffer, then copied. */
    method PrintNumber(v: real) returns (ok: bool)
      requires Valid() && IntValued(v)
      modifies this`buffer, this`offset, buffer
      ensures Valid() && Limit() == old(Limit()) && (buffer == old(buffer) || (!noalloc && fresh(buffer)))
      ensures ok <==> Demand(old(offset), IntText(ValueInt(v))) <= Limit()
      ensures ok ==> Holds(old(offset), IntText(ValueInt(v))) && buffer[..old(offset)] == old(Text())
    {
      var numberBuffer := IntText(ValueInt(v));
      IntTextLength(ValueInt(v));
      if |numberBuffer| > NUMBER_BUFFER_LIMIT {
        return false;
      }
      ok := Write(numberBuffer, |numberBuffer| + 1, true);
      if ok {
        offset := offset + |numberBuffer|;
      }
    }

    /** The first pass of print_string_ptr: how much longer the escaped text is. */
    static method CountEscapes(text: seq<byte>) returns (escapes: nat)
      ensures |text| + escapes == |Escape(text)|
      ensures escapes == 0 ==> Escape(text) == text
    {
      hide Escape;
      escapes := 0;
      var i := 0;
      assert text[0..] == text && text[..0] + Escape(text) == Escape(text);
      while i < |text|
        invariant 0 <= i <= |text|
        invariant i + escapes + |Escape(text[i..])| == |Escape(text)|
        invariant escapes == 0 ==> Escape(text) == text[..i] + Escape(text[i..])
      {
        EscapeTail(text, i);
        if escapes == 0 { EscapeStep(text, i, text[..i]); }
        assert text[..i + 1] == text[..i] + [text[i]];
        if EscapeLetter(text[i]).Some? {
          escapes := escapes + 1;
        } else if text[i] < 32 {
          escapes := escapes + 5;
        }
        i := i + 1;
      }
      EscapeEnd(text);
      assert text[..i] == text && text + [] == text;
    }

    /** The second pass: one byte of the text, escaped, at `out`. */
    static method EscapeInto(b: byte, block: array<byte>, out: nat) returns (next: nat)
      requires b != NUL && out + |EscapeByte(b)| < block.Length
      modifies block
      ensures next == out + |EscapeByte(b)|
      ensures block[..out] == old(block[..out]) && block[out..next] == EscapeByte(b)
    {
      if b > 31 && b != QUOTE && b != BACKSLASH {
        block[out] := b;
        next := out + 1;
      } else {
        block[out] := BACKSLASH;
        match EscapeLetter(b) {
          case Some(letter) =>
            block[out + 1] := letter;
            next := out + 2;
          case None =>
            // sprintf "u%04x" and its terminator
            block[out + 1], block[out + 2], block[out + 3] := LOWER_U, ZERO, ZERO;
            block[out + 4], block[out + 5] := HexLetter(b / 16), HexLetter(b % 16);
            block[out + 6] := NUL;
            next := out + 6;
        }
      }
    }

    /** The second pass over the whole text, from `start`; it may touch one byte behind its end. */
    static method EscapeText(text: seq<byte>, block: array<byte>, start: nat)
      requires NUL !in text && start + |Escape(text)| < block.Length
      modifies block
      ensures block[..start] == old(block[..start])
      ensures block[start..start + |Escape(text)|] == Escape(text)
    {
      hide EscapeByte, Escape;
      var out, i := start, 0;
      assert text[0..] == text;
      while i < |text|
        invariant 0 <= i <= |text| && start <= out && out + |Escape(text[i..])| == start + |Escape(text)|
        invariant block[..start] == old(block[..start])
        invariant block[start..out] + Escape(text[i..]) == Escape(text)
      {
        ghost var soFar := block[start..out];
        EscapeTail(text, i);
        EscapeStep(text, i, soFar);
        var next := EscapeInto(text[i], block, out);
        assert block[start..next] == soFar + EscapeByte(text[i]);
        assert block[..start] == block[..out][..start];
        i, out := i + 1, next;
      }
      EscapeEnd(text);
      assert block[start..out] + [] == block[start..out];
    }

    /** Both quotes, the text with or without escapes between them, and the terminator. */
    static method QuoteInto(text: seq<byte>, escapes: nat, block: array<byte>, at: nat)
      requires NUL !in text && |text| + escapes == |Escape(text)| && (escapes == 0 ==> Escape(text) == text)
      requires at + |Quoted(text)| < block.Length
      modifies block
      ensures block[..at] == old(block[..at])
      ensures block[at..at + |Quoted(text)|] == Quoted(text) && block[at + |Quoted(text)|] == NUL
    {
      hide Escape;
      var close := at + 1 + |text| + escapes;
      block[at] := QUOTE;
      ghost var front := block[..at + 1];
      if escapes == 0 {
        CopyInto(text, block, at + 1);
      } else {
        EscapeText(text, block, at + 1);
      }
      assert block[..at + 1] == front && block[at] == front[at];
      assert block[at + 1..close] == Escape(text);
      block[close] := QUOTE;
      block[close + 1] := NUL;
      assert block[at..close + 1] == [QUOTE] + block[at + 1..close] + [QUOTE];
      assert block[..at] == front[..at];
    }

    /** print_string_ptr on a C string. */
    method PrintString(text: seq<byte>) returns (ok: bool)
      requires Valid() && NUL !in text
      modifies this`buffer, buffer
      ensures Valid() && Limit() == old(Limit()) && (buffer == old(buffer) || (!noalloc && fresh(buffer)))
      ensures ok <==> Demand(offset, Quoted(text)) <= Limit()
      ensures ok ==> Holds(offset, Quoted(text)) && Text() == old(Text())
    {
      hide Escape;
      ghost var before := Text();
      var escapes := CountEscapes(text);
      ok := Ensure(|text| + escapes + 3);
      assert buffer[..offset] == before;
      if ok {
        QuoteInto(text, escapes, buffer, offset);
      }
    }

    /** print_value: the text of `j` at the offset, exactly when there is room for it. */
    method PrintValue(j: Json) returns (ok: bool)
      requires Valid() && Printable(j)
      modifies this, buffer
      ensures Valid() && Limit() == old(Limit()) && (buffer == old(buffer) || (!noalloc && fresh(buffer)))
      ensures ok <==> Demand(old(offset), R.Render(j, format, old(depth))) <= Limit()
      ensures ok ==> Holds(old(offset), R.Render(j, format, old(depth))) && depth == old(depth)
      ensures ok ==> buffer[..old(offset)] == old(Text())
      decreases j, 3
    {
      hide Quoted;
      match j {
        case Null =>
          ok := Write(NULL_TEXT, 5, true);
        case Bool(b) =>
          if b {
            ok := Write(TRUE_TEXT, 5, true);
          } else {
            ok := Write(FALSE_TEXT, 6, true);
          }
        case Number(v) =>
          ok := PrintNumber(v);
        case String(text) =>
          ok := PrintString(text);
        case Array(items) =>
          ok := PrintArray(items);
        case Object(members) =>
          ok := PrintObject(members);
      }
    }

    /** print_value and update_offset. */
    method PrintItem(j: Json) returns (ok: bool)
      requires Valid() && Printable(j)
      modifies this, buffer
      ensures Valid() && Limit() == old(Limit()) && (buffer == old(buffer) || (!noalloc && fresh(buffer)))
      ensures ok <==> Demand(old(offset), R.Render(j, format, old(depth))) <= Limit()
      ensures ok ==> Text() == old(Text()) + R.Render(j, format, old(depth)) && depth == old(depth)
      decreases j, 4
    {
      hide R.Render;
      ghost var start, text := offset, R.Render(j, format, depth);
      RenderNulFree(j, format, depth);
      ok := PrintValue(j);
      if ok {
        UpdateOffset(start, text);
      }
    }

    /** print_string_ptr on a key and update_offset. */
    method PrintKey(key: seq<byte>) returns (ok: bool)
      requires Valid() && NUL !in key
      modifies this`buffer, this`offset, buffer
      ensures Valid() && Limit() == old(Limit()) && (buffer == old(buffer) || (!noalloc && fresh(buffer)))
      ensures ok <==> Demand(old(offset), Quoted(key)) <= Limit()
      ensures ok ==> Text() == old(Text()) + Quoted(key)
    {
      EscapeNulFree(key);
      ok := PrintString(key);
      if ok {
        UpdateOffset(offset, Quoted(key));
      }
    }

    method PrintArray(items: seq<Json>) returns (ok: bool)
      requires Valid() && PrintableItems(items)
      modifies this, buffer
      ensures Valid() && Limit() == old(Limit()) && (buffer == old(buffer) || (!noalloc && fresh(buffer)))
      ensures ok <==> Demand(old(offset), R.Render(Array(items), format, old(depth))) <= Limit()
      ensures ok ==> Holds(old(offset), R.Render(Array(items), format, old(depth))) && depth == old(depth)
      ensures ok ==> buffer[..old(offset)] == old(Text())
      decreases items, 2
    {
      hide R.Render, R.RenderItems, Text, Holds;
      R.ArrayText(items, format, depth);
      ghost var before := Text();
      ghost var body := R.RenderItems(items, format, depth + 1);
      ok := Emit([OPEN_BRACKET], 1, false);
      if !ok {
        return;
      }
      depth := depth + 1;
      ok := PrintItems(items, before + [OPEN_BRACKET]);
      if !ok {
        return;
      }
      ok := Write([CLOSE_BRACKET], 2, true);
      depth := depth - 1;
      if ok {
        Bracketed(before, [OPEN_BRACKET] + body, [CLOSE_BRACKET]);
      }
    }

    /** The element loop of print_array behind the opening bracket. */
    method PrintItems(items: seq<Json>, ghost front: seq<byte>) returns (ok: bool)
      requires Valid() && PrintableItems(items) && Text() == front
      modifies this, buffer
      ensures Valid() && Limit() == old(Limit()) && (buffer == old(buffer) || (!noalloc && fresh(buffer)))
      ensures ok ==> Text() == front + R.RenderItems(items, format, old(depth)) && depth == old(depth)
      ensures !ok ==> Demand(old(offset), R.RenderItems(items, format, old(depth))) > Limit()
      decreases items, 1
    {
      hide R.Render, R.RenderItems, R.ItemSeparator, Text;
      ghost var body := R.RenderItems(items, format, depth);
      var i := 0;
      ok := true;
      assert items[0..] == items;
      while i < |items|
        invariant 0 <= i <= |items| && ok
        invariant Valid() && Limit() == old(Limit()) && depth == old(depth)
        invariant buffer == old(buffer) || (!noalloc && fresh(buffer))
        invariant PrintableItems(items[i..])
        invariant Text() + R.RenderItems(items[i..], format, depth) == front + body
      {
        assert items[i..][0] == items[i] && items[i..][1..] == items[i + 1..];
        R.ItemsText(items[i..], format, depth);
        ghost var soFar, item, rest := Text(), R.Render(items[i], format, depth), R.RenderItems(items[i + 1..], format, depth);
        ok := PrintItem(items[i]);
        if !ok {
          return;
        }
        if i + 1 < |items| {
          ok := Emit(R.ItemSeparator(format), |R.ItemSeparator(format)| + 1, true);
          if !ok {
            return;
          }
          Regroup(soFar, item, R.ItemSeparator(format), rest);
        } else {
          R.NoItemsText(format, depth);
          assert items[i + 1..] == [] && Text() + rest == Text();
        }
        i := i + 1;
      }
      R.NoItemsText(format, depth);
    }

    method PrintObject(members: seq<Member>) returns (ok: bool)
      requires Valid() && PrintableMembers(members)
      modifies this, buffer
      ensures Valid() && Limit() == old(Limit()) && (buffer == old(buffer) || (!noalloc && fresh(buffer)))
      ensures ok <==> Demand(old(offset), R.Render(Object(members), format, old(depth))) <= Limit()
      ensures ok ==> Holds(old(offset), R.Render(Object(members), format, old(depth))) && depth == old(depth)
      ensures ok ==> buffer[..old(offset)] == old(Text())
      decreases members, 2
    {
      hide R.Render, R.RenderMembers, R.ObjectOpen, R.ObjectClose, Text, Holds;
      R.ObjectText(members, format, depth);
      ghost var before := Text();
      ghost var body := R.RenderMembers(members, format, depth + 1);
      var length := if format then 2 else 1;
      ok := Emit(R.ObjectOpen(format), length + 1, false);
      if !ok {
        return;
      }
      depth := depth + 1;
      ok := PrintMembers(members, before + R.ObjectOpen(format));
      if !ok {
        return;
      }
      ok := Write(R.ObjectClose(format, depth - 1), if format then depth + 1 else 2, true);
      depth := depth - 1;
      if ok {
        Bracketed(before, R.ObjectOpen(format) + body, R.ObjectClose(format, depth));
      }
    }

    /** The member loop of print_object behind the opening brace. */
    method PrintMembers(members: seq<Member>, ghost front: seq<byte>) returns (ok: bool)
      requires Valid() && PrintableMembers(members) && Text() == front
      modifies this, buffer
      ensures Valid() && Limit() == old(Limit()) && (buffer == old(buffer) || (!noalloc && fresh(buffer)))
      ensures ok ==> Text() == front + R.RenderMembers(members, format, old(depth)) && depth == old(depth)
      ensures !ok ==> Demand(old(offset), R.RenderMembers(members, format, old(depth))) > Limit()
      decreases members, 1
    {
      hide R.RenderMember, R.RenderMembers, Text;
      ghost var body := R.RenderMembers(members, format, depth);
      var i := 0;
      ok := true;
      assert members[0..] == members;
      while i < |members|
        invariant 0 <= i <= |members| && ok
        invariant Valid() && Limit() == old(Limit()) && depth == old(depth)
        invariant buffer == old(buffer) || (!noalloc && fresh(buffer))
        invariant PrintableMembers(members[i..])
        invariant Text() + R.RenderMembers(members[i..], format, depth) == front + body
      {
        assert members[i..][0] == members[i] && members[i..][1..] == members[i + 1..];
        R.MembersText(members[i..], format, depth);
        ghost var soFar, rest := Text(), R.RenderMembers(members[i + 1..], format, depth);
        ghost var member := R.RenderMember(members[i], format, depth, i + 1 == |members|);
        ok := PrintMember(members[i], i + 1 == |members|);
        if !ok {
          return;
        }
        assert soFar + (member + rest) == Text() + rest;
        i := i + 1;
      }
      R.NoMembersText(format, depth);
    }

    /** One turn of the loop: indentation, key, colon, value, and the end of the member. */
    method PrintMember(m: Member, last: bool) returns (ok: bool)
      requires Valid() && NUL !in m.key && Printable(m.item)
      modifies this, buffer
      ensures Valid() && Limit() == old(Limit()) && (buffer == old(buffer) || (!noalloc && fresh(buffer)))
      ensures ok ==> Text() == old(Text()) + R.RenderMember(m, format, old(depth), last) && depth == old(depth)
      ensures !ok ==> Demand(old(offset), R.RenderMember(m, format, old(depth), last)) > Limit()
      decreases m, 5
    {
      hide R.Render, Quoted, R.MemberEnd, R.Indent, R.KeySeparator, Text;
      ok := PrintName(m.key);
      if !ok {
        return;
      }
      ok := PrintItem(m.item);
      if !ok {
        return;
      }
      var length := (if format then 1 else 0) + (if last then 0 else 1);
      ok := Emit(R.MemberEnd(format, last), length + 1, true);
    }

    /** The indentation, the key and the colon of a member. */
    method PrintName(key: seq<byte>) returns (ok: bool)
      requires Valid() && NUL !in key
      modifies this`buffer, this`offset, buffer
      ensures Valid() && Limit() == old(Limit()) && (buffer == old(buffer) || (!noalloc && fresh(buffer)))
      ensures ok ==> Text() == old(Text()) + (R.Indent(format, depth) + Quoted(key) + R.KeySeparator(format))
      ensures !ok ==> Demand(old(offset), R.Indent(format, depth) + Quoted(key) + R.KeySeparator(format)) > Limit()
    {
      hide Quoted;
      if format {
        ok := Emit(R.Tabs(depth), depth, false);
        if !ok {
          return;
        }
      }
      ok := PrintKey(key);
      if !ok {
        return;
      }
      ok := Emit(R.KeySeparator(format), if format then 2 else 1, false);
    }

    /** A text between what was printed and its last part. */
    lemma Bracketed(before: seq<byte>, open: seq<byte>, close: seq<byte>)
      requires Valid() && Text() == before + open && Holds(offset, close)
      ensures buffer[..|before|] == before && |before| <= offset
      ensures Holds(|before|, open + close)
    {
      var end := offset + |close|;
      assert buffer[..|before|] == Text()[..|before|];
      assert buffer[|before|..offset] == Text()[|before|..] == open;
      assert buffer[|before|..end] == buffer[|before|..offset] + buffer[offset..end];
    }
  }

  /**
   print: a default block, print_value, update_offset, and a block of the exact size. Without
   allocation failures it fails only for texts that leave no spare byte below INT_MAX.
   */
  method Print(j: Json, format: bool) returns (printed: Option<array<byte>>)
    requires Printable(j)
    ensures printed.Some? <==> |R.Render(j, format, 0)| + 2 <= INT_MAX
    ensures printed.Some? ==> fresh(printed.value) && printed.value[..] == R.Render(j, format, 0) + [NUL]
  {
    hide R.Render;
    ghost var text := R.Render(j, format, 0);
    var block := new byte[DEFAULT_BUFFER_SIZE];
    var p := new PrintBuffer(block, false, format);
    RenderNulFree(j, format, 0);
    var ok := p.PrintValue(j);
    if !ok {
      return None;
    }
    p.UpdateOffset(0, text);
    assert p.Text() == text && p.buffer[|text|] == NUL;
    var result := new byte[p.offset + 1];
    forall i | 0 <= i < p.offset + 1 {
      result[i] := p.buffer[i];
    }
    assert result[..] == p.buffer[..p.offset] + [p.buffer[p.offset]];
    return Some(result);
  }

  /** cJSON_PrintPreallocated: one byte beyond the text and its terminator is enough, and needed. */
  method PrintPreallocated(j: Json, block: array<byte>, format: bool) returns (ok: bool)
    requires Printable(j) && block.Length <= INT_MAX
    modifies block
    ensures ok <==> |R.Render(j, format, 0)| + 2 <= block.Length
    ensures ok ==> block[..|R.Render(j, format, 0)| + 1] == R.Render(j, format, 0) + [NUL]
  {
    hide R.Render;
    var p := new PrintBuffer(block, true, format);
    ok := p.PrintValue(j);
    ghost var n := |R.Render(j, format, 0)|;
    assert ok ==> block[..n + 1] == block[0..n] + [block[n]];
  }
}

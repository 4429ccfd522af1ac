/**
 The text of a printable tree, unformatted or formatted, as print_value composes it.
 */
module JsonRender {
  import opened JsonTree
  import opened JsonNumbers
  import opened JsonStrings

  function Tabs(n: nat): (t: seq<byte>)
    ensures |t| == n && forall k :: 0 <= k < n ==> t[k] == TAB
  {
    seq(n, _ => TAB)
  }

  /** print_value at nesting depth `depth`; only the formatted text depends on it. */
  function Render(j: Json, format: bool, depth: nat): (t: seq<byte>)
    requires Printable(j)
    ensures t != []
    decreases j, 1
  {
    match j
    case Null => NULL_TEXT
    case Bool(b) => if b then TRUE_TEXT else FALSE_TEXT
    case Number(v) =>
      IntTextLength(ValueInt(v));
      IntText(ValueInt(v))
    case String(text) => Quoted(text)
    case Array(items) => [OPEN_BRACKET] + RenderItems(items, format, depth + 1) + [CLOSE_BRACKET]
    case Object(members) => ObjectOpen(format) + RenderMembers(members, format, depth + 1) + ObjectClose(format, depth)
  }

  function ItemSeparator(format: bool): seq<byte> {
    if format then [COMMA, SPACE] else [COMMA]
  }

  function RenderItems(items: seq<Json>, format: bool, depth: nat): seq<byte>
    requires PrintableItems(items)
    decreases items, 0
  {
    if items == [] then []
    else if |items| == 1 then Render(items[0], format, depth)
    else Render(items[0], format, depth) + ItemSeparator(format) + RenderItems(items[1..], format, depth)
  }

  function ObjectOpen(format: bool): (t: seq<byte>)
    ensures |t| == if format then 2 else 1
  {
    if format then [OPEN_BRACE, NEWLINE] else [OPEN_BRACE]
  }

  function ObjectClose(format: bool, depth: nat): (t: seq<byte>)
    ensures |t| == if format then depth + 1 else 1
  {
    if format then Tabs(depth) + [CLOSE_BRACE] else [CLOSE_BRACE]
  }

  function Indent(format: bool, depth: nat): seq<byte> {
    if format then Tabs(depth) else []
  }

  function KeySeparator(format: bool): seq<byte> {
    if format then [COLON, TAB] else [COLON]
  }

  function MemberEnd(format: bool, last: bool): (t: seq<byte>)
    ensures |t| == (if last then 0 else 1) + (if format then 1 else 0)
  {
    (if last then [] else [COMMA]) + if format then [NEWLINE] else []
  }

  function RenderMember(m: Member, format: bool, depth: nat, last: bool): seq<byte>
    requires NUL !in m.key && Printable(m.item)
    decreases m, 2
  {
    Indent(format, depth) + Quoted(m.key) + KeySeparator(format)
    + Render(m.item, format, depth) + MemberEnd(format, last)
  }

  function RenderMembers(members: seq<Member>, format: bool, depth: nat): seq<byte>
    requires PrintableMembers(members)
    decreases members, 0
  {
    if members == [] then []
    else RenderMember(members[0], format, depth, |members| == 1) + RenderMembers(members[1..], format, depth)
  }

  /** The start of a value cannot be taken for a blank, a closing bracket or a byte order mark. */
  lemma RenderStart(j: Json, format: bool, depth: nat)
    requires Printable(j)
    ensures var b := Render(j, format, depth)[0];
            SPACE < b < 0x80 && b != CLOSE_BRACKET && b != CLOSE_BRACE
  {
  }

  // ----- the texts of arrays and objects, one unfolding at a time -----

  lemma ArrayText(items: seq<Json>, format: bool, depth: nat)
    requires PrintableItems(items)
    ensures Render(Array(items), format, depth) == [OPEN_BRACKET] + RenderItems(items, format, depth + 1) + [CLOSE_BRACKET]
  {
  }

  lemma NoItemsText(format: bool, depth: nat)
    ensures RenderItems([], format, depth) == []
  {
  }

  lemma ItemsText(items: seq<Json>, format: bool, depth: nat)
    requires PrintableItems(items) && items != []
    ensures Printable(items[0]) && PrintableItems(items[1..])
    ensures RenderItems(items, format, depth)
         == if |items| == 1 then Render(items[0], format, depth)
            else Render(items[0], format, depth) + ItemSeparator(format) + RenderItems(items[1..], format, depth)
    ensures |RenderItems(items, format, depth)| > 0
  {
  }

  lemma ObjectText(members: seq<Member>, format: bool, depth: nat)
    requires PrintableMembers(members)
    ensures Render(Object(members), format, depth)
         == ObjectOpen(format) + RenderMembers(members, format, depth + 1) + ObjectClose(format, depth)
  {
  }

  lemma NoMembersText(format: bool, depth: nat)
    ensures RenderMembers([], format, depth) == []
  {
  }

  lemma MembersText(members: seq<Member>, format: bool, depth: nat)
    requires PrintableMembers(members) && members != []
    ensures PrintableMembers(members[1..]) && NUL !in members[0].key && Printable(members[0].item)
    ensures RenderMembers(members, format, depth)
         == RenderMember(members[0], format, depth, |members| == 1) + RenderMembers(members[1..], format, depth)
  {
  }

  // ----- the bytes between the values -----

  /** Between elements stand a comma and, in the formatted print, a blank; nothing is indented. */
  lemma TwoElements(a: Json, b: Json, format: bool, depth: nat)
    requires Printable(a) && Printable(b)
    ensures Printable(Array([a, b]))
    ensures Render(Array([a, b]), format, depth)
         == [0x5B] + Render(a, format, depth + 1) + (if format then [0x2C, 0x20] else [0x2C])
            + Render(b, format, depth + 1) + [0x5D]
  {
    hide Render, RenderItems, Printable;
    var items := [a, b];
    assert items[1..] == [b] && items[1..][1..] == [];
    TwoPrintable(a, b);
    ArrayText(items, format, depth);
    ItemsText(items, format, depth + 1);
    ItemsText([b], format, depth + 1);
  }

  lemma TwoPrintable(a: Json, b: Json)
    requires Printable(a) && Printable(b)
    ensures PrintableItems([]) && PrintableItems([b]) && PrintableItems([a, b]) && Printable(Array([a, b]))
  {
    assert [a, b][1..] == [b] && [b][1..] == [];
  }

  /**
   In the formatted print every member has its line, indented by one tab for each open object or array,
   with a tab behind the colon, and the closing brace stands under the line of the opening one.
   */
  lemma TwoMembers(a: Member, b: Member, depth: nat)
    requires NUL !in a.key && NUL !in b.key && Printable(a.item) && Printable(b.item)
    ensures Printable(Object([a, b]))
    ensures Render(Object([a, b]), true, depth)
         == [0x7B, 0x0A]
            + (seq(depth + 1, _ => 0x09) + Quoted(a.key) + [0x3A, 0x09] + Render(a.item, true, depth + 1) + [0x2C, 0x0A])
            + (seq(depth + 1, _ => 0x09) + Quoted(b.key) + [0x3A, 0x09] + Render(b.item, true, depth + 1) + [0x0A])
            + (seq(depth, _ => 0x09) + [0x7D])
    ensures Render(Object([a, b]), false, depth)
         == [0x7B] + (Quoted(a.key) + [0x3A] + Render(a.item, false, depth + 1) + [0x2C])
            + (Quoted(b.key) + [0x3A] + Render(b.item, false, depth + 1)) + [0x7D]
  {
    hide Render, RenderMembers, RenderMember, Printable;
    TwoMembersPrintable(a, b);
    MembersInTurn(a, b, true, depth);
    MembersInTurn(a, b, false, depth);
    MemberLine(a, depth + 1, false);
    MemberLine(b, depth + 1, true);
  }

  lemma TwoMembersPrintable(a: Member, b: Member)
    requires NUL !in a.key && NUL !in b.key && Printable(a.item) && Printable(b.item)
    ensures PrintableMembers([]) && PrintableMembers([b]) && PrintableMembers([a, b]) && Printable(Object([a, b]))
  {
    assert [a, b][1..] == [b] && [b][1..] == [];
  }

  lemma MembersInTurn(a: Member, b: Member, format: bool, depth: nat)
    requires NUL !in a.key && NUL !in b.key && Printable(a.item) && Printable(b.item) && Printable(Object([a, b]))
    ensures Render(Object([a, b]), format, depth)
         == ObjectOpen(format) + RenderMember(a, format, depth + 1, false) + RenderMember(b, format, depth + 1, true)
            + ObjectClose(format, depth)
  {
    hide Render, RenderMember, RenderMembers, ObjectOpen, ObjectClose;
    var members := [a, b];
    assert members[1..] == [b] && members[1..][1..] == [];
    ObjectText(members, format, depth);
    MembersText(members, format, depth + 1);
    MembersText([b], format, depth + 1);
    NoMembersText(format, depth + 1);
  }

  lemma MemberLine(m: Member, depth: nat, last: bool)
    requires NUL !in m.key && Printable(m.item)
    ensures RenderMember(m, true, depth, last)
         == seq(depth, _ => 0x09) + Quoted(m.key) + [0x3A, 0x09] + Render(m.item, true, depth)
            + if last then [0x0A] else [0x2C, 0x0A]
    ensures RenderMember(m, false, depth, last)
         == Quoted(m.key) + [0x3A] + Render(m.item, false, depth) + if last then [] else [0x2C]
  {
    hide Render, Quoted, Printable;
  }

  /** An empty object is broken over two lines in the formatted print, an empty array is not. */
  lemma EmptyContainers(depth: nat)
    ensures Printable(Array([])) && Printable(Object([]))
    ensures Render(Array([]), false, depth) == Render(Array([]), true, depth) == [0x5B, 0x5D]
    ensures Render(Object([]), false, depth) == [0x7B, 0x7D]
    ensures Render(Object([]), true, depth) == [0x7B, 0x0A] + seq(depth, _ => 0x09) + [0x7D]
  {
    assert PrintableItems([]) && PrintableMembers([]);
    NoMembersText(true, depth + 1);
    NoMembersText(false, depth + 1);
  }
}

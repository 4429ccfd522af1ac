/**
 Parsing undoes printing. Both prints of a tree are JSON texts with that tree as their meaning, so
 the parser reads every printable tree back from either one, exactly within the nesting limit.
 */
module JsonRoundTrip {
  import opened Options
  import opened JsonTree
  import opened JsonNumbers
  import opened JsonStrings
  import opened JsonParser
  import opened JsonRender
  import G = JsonGrammar

  // ----- the syntax tree of a print -----

  function IntSyntax(n: int): G.NumberSyntax {
    G.NumberSyntax(n < 0, NatText(if n < 0 then -n else n), None, None)
  }

  function LineBreak(format: bool): seq<byte> {
    if format then [NEWLINE] else []
  }

  function SyntaxOf(j: Json, format: bool, depth: nat): G.Syntax
    requires Printable(j)
    decreases j, 1
  {
    match j
    case Null => G.NullText
    case Bool(b) => G.BoolText(b)
    case Number(v) => G.NumberOf(IntSyntax(ValueInt(v)))
    case String(text) => G.StringOf(PiecesOf(text))
    case Array(items) => G.ArrayOf([], ItemsSyntax(items, format, depth + 1, []))
    case Object(members) =>
      G.ObjectOf(LineBreak(format) + Indent(format, depth), MembersSyntax(members, format, depth))
  }

  /** The items of a print; all but the first stand behind the blank of the separator. */
  function ItemsSyntax(items: seq<Json>, format: bool, depth: nat, before: seq<byte>): (r: seq<G.ItemSyntax>)
    requires PrintableItems(items)
    ensures |r| == |items|
    decreases items, 0
  {
    if items == [] then []
    else [G.ItemSyntax(before, SyntaxOf(items[0], format, depth), [])]
         + ItemsSyntax(items[1..], format, depth, if format then [SPACE] else [])
  }

  /** The members of an object printed at `depth`; the last is followed by the closing line's indent. */
  function MembersSyntax(members: seq<Member>, format: bool, depth: nat): (r: seq<G.MemberSyntax>)
    requires PrintableMembers(members)
    ensures |r| == |members|
    decreases members, 0
  {
    if members == [] then []
    else [MemberSyntax(members[0], format, depth, |members| == 1)] + MembersSyntax(members[1..], format, depth)
  }

  function MemberSyntax(m: Member, format: bool, depth: nat, last: bool): G.MemberSyntax
    requires NUL !in m.key && Printable(m.item)
    decreases m, 2
  {
    G.MemberSyntax(LineBreak(format) + Indent(format, depth + 1), PiecesOf(m.key), [],
                   if format then [TAB] else [], SyntaxOf(m.item, format, depth + 1),
                   if last then LineBreak(format) + Indent(format, depth) else [])
  }

  // ----- it is well-formed, spells the print and means the tree -----

  /** Under `hide`, what a syntax tree of a print satisfies. */
  ghost predicate Spells(x: G.Syntax, text: seq<byte>, j: Json) {
    G.WellFormedSyntax(x) && G.ShortNumbers(x) && G.TextOf(x) == text && G.MeaningOf(x) == j
  }

  lemma {:induction false} SyntaxSpells(j: Json, format: bool, depth: nat)
    requires Printable(j)
    ensures Spells(SyntaxOf(j, format, depth), Render(j, format, depth), j)
    decreases j, 1
  {
    hide G.WellFormedNumber, G.NumberText, G.NumberMeaning, IntSyntax, IntText;
    hide WellFormedBody, BodyText, BodyMeaning, PiecesOf, Escape, CString, Indent, LineBreak;
    match j
    case Null =>
    case Bool(_) =>
    case Number(v) => IntSpells(ValueInt(v));
    case String(text) =>
      EscapedTextMeans(text);
      CStringOfNulFree(text);
    case Array(items) => ArraySpells(items, format, depth);
    case Object(members) => ObjectSpells(members, format, depth);
  }

  lemma {:induction false} ArraySpells(items: seq<Json>, format: bool, depth: nat)
    requires PrintableItems(items)
    ensures Spells(SyntaxOf(Array(items), format, depth), Render(Array(items), format, depth), Array(items))
    decreases items, 1
  {
    hide ItemsSyntax, G.ItemsText, G.ItemsMeaning, G.WellFormedItems, G.ShortItems, RenderItems;
    ItemsSpell(items, format, depth + 1, []);
    NoItemsText(format, depth + 1);
    assert [] + RenderItems(items, format, depth + 1) == RenderItems(items, format, depth + 1);
  }

  lemma {:induction false} ObjectSpells(members: seq<Member>, format: bool, depth: nat)
    requires PrintableMembers(members)
    ensures Spells(SyntaxOf(Object(members), format, depth), Render(Object(members), format, depth), Object(members))
    decreases members, 1
  {
    hide MembersSyntax, G.MembersText, G.MembersMeaning, G.WellFormedMembers, G.ShortMembers, RenderMembers;
    hide ObjectOpen, ObjectClose, LineBreak, Indent;
    BreakIsBlank(format, depth);
    MembersSpell(members, format, depth);
    NoMembersText(format, depth + 1);
    ObjectJoin(RenderMembers(members, format, depth + 1), format, depth);
  }

  lemma BreakIsBlank(format: bool, depth: nat)
    ensures G.IsBlankText(LineBreak(format) + Indent(format, depth))
  {
  }

  lemma ObjectJoin(body: seq<byte>, format: bool, depth: nat)
    ensures [OPEN_BRACE] + (LineBreak(format) + body + Indent(format, depth)) + [CLOSE_BRACE]
         == ObjectOpen(format) + body + ObjectClose(format, depth)
    ensures body == [] ==> LineBreak(format) + body + Indent(format, depth) == LineBreak(format) + Indent(format, depth)
  {
  }

  lemma IntSpells(n: int)
    requires INT_MIN <= n <= INT_MAX
    ensures G.WellFormedNumber(IntSyntax(n)) && G.NumberText(IntSyntax(n)) == IntText(n)
    ensures G.NumberMeaning(IntSyntax(n)) == n as real && |IntText(n)| <= NUMBER_TEXT_LIMIT
  {
    hide NatOf, PlaceValue;
    var magnitude := if n < 0 then -n else n;
    IntTextLength(n);
    NatTextReads(magnitude);
    NatOfIs(NatText(magnitude));
    assert NatText(magnitude) + [] == NatText(magnitude);
    assert TenPower(0) == 1.0;
  }

  lemma {:induction false} ItemsSpell(items: seq<Json>, format: bool, depth: nat, before: seq<byte>)
    requires PrintableItems(items) && G.IsBlankText(before)
    ensures var xs := ItemsSyntax(items, format, depth, before);
            && G.WellFormedItems(xs) && G.ShortItems(xs) && G.ItemsMeaning(xs) == items
            && (items != [] ==> G.ItemsText(xs) == before + RenderItems(items, format, depth))
    decreases items, 0
  {
    hide SyntaxOf, Render, G.TextOf, G.MeaningOf, G.WellFormedSyntax, G.ShortNumbers;
    if items != [] {
      var blank: seq<byte> := if format then [SPACE] else [];
      var xs := ItemsSyntax(items, format, depth, before);
      assert xs[1..] == ItemsSyntax(items[1..], format, depth, blank);
      SyntaxSpells(items[0], format, depth);
      ItemsSpell(items[1..], format, depth, blank);
      ItemsJoin(before, Render(items[0], format, depth), RenderItems(items[1..], format, depth), format);
    }
  }

  lemma ItemsJoin(before: seq<byte>, first: seq<byte>, rest: seq<byte>, format: bool)
    ensures before + first + [] + [] == before + first
    ensures var blank: seq<byte> := if format then [SPACE] else [];
            before + first + [] + ([COMMA] + (blank + rest)) == before + (first + ItemSeparator(format) + rest)
  {
  }

  lemma {:induction false} MembersSpell(members: seq<Member>, format: bool, depth: nat)
    requires PrintableMembers(members)
    ensures var xs := MembersSyntax(members, format, depth);
            && G.WellFormedMembers(xs) && G.ShortMembers(xs) && G.MembersMeaning(xs) == members
            && (members != [] ==> MembersStand(G.MembersText(xs), RenderMembers(members, format, depth + 1), format, depth))
    decreases members, 0
  {
    hide MemberSyntax, G.WellFormedMember, G.MemberMeaning, G.MemberText, RenderMember, Indent, LineBreak;
    if members != [] {
      var xs := MembersSyntax(members, format, depth);
      assert xs[1..] == MembersSyntax(members[1..], format, depth);
      MemberSpells(members[0], format, depth, |members| == 1);
      MembersSpell(members[1..], format, depth);
      MembersJoin(members, format, depth);
    }
  }

  /** An object's lines, with the breaks and the indents that the grammar counts to its members. */
  ghost predicate MembersStand(text: seq<byte>, body: seq<byte>, format: bool, depth: nat) {
    text == LineBreak(format) + body + Indent(format, depth)
  }

  lemma MembersJoin(members: seq<Member>, format: bool, depth: nat)
    requires PrintableMembers(members) && members != []
    requires MemberStands(G.MemberText(MemberSyntax(members[0], format, depth, |members| == 1)),
                          RenderMember(members[0], format, depth + 1, |members| == 1), format, depth, |members| == 1)
    requires |members| > 1 ==>
      MembersStand(G.MembersText(MembersSyntax(members[1..], format, depth)),
                   RenderMembers(members[1..], format, depth + 1), format, depth)
    ensures MembersStand(G.MembersText(MembersSyntax(members, format, depth)),
                         RenderMembers(members, format, depth + 1), format, depth)
  {
    hide MemberSyntax, G.MemberText, RenderMember, Indent, LineBreak;
    var xs := MembersSyntax(members, format, depth);
    var x := G.MemberText(xs[0]);
    var first := RenderMember(members[0], format, depth + 1, |members| == 1);
    var line := LineBreak(format);
    assert xs[1..] == MembersSyntax(members[1..], format, depth);
    if |members| == 1 {
      assert members[1..] == [] && first + [] == first && x + [] == x;
    } else {
      var rest := RenderMembers(members[1..], format, depth + 1);
      assert x + ([COMMA] + (line + rest + Indent(format, depth))) == (x + ([COMMA] + line)) + rest + Indent(format, depth);
      assert (line + first) + rest + Indent(format, depth) == line + (first + rest) + Indent(format, depth);
    }
  }

  /** A member's line, with the line break before it counted to it and the one behind it not. */
  ghost predicate MemberStands(text: seq<byte>, line: seq<byte>, format: bool, depth: nat, last: bool) {
    if last then text == LineBreak(format) + line + Indent(format, depth)
    else text + ([COMMA] + LineBreak(format)) == LineBreak(format) + line
  }

  lemma {:induction false} MemberSpells(m: Member, format: bool, depth: nat, last: bool)
    requires NUL !in m.key && Printable(m.item)
    ensures var x := MemberSyntax(m, format, depth, last);
            && G.WellFormedMember(x) && G.ShortNumbers(x.value) && G.MemberMeaning(x) == m
            && MemberStands(G.MemberText(x), RenderMember(m, format, depth + 1, last), format, depth, last)
    decreases m, 2
  {
    hide WellFormedBody, BodyText, BodyMeaning, PiecesOf, Escape, CString;
    hide SyntaxOf, Render, G.TextOf, G.WellFormedSyntax, G.MeaningOf, G.ShortNumbers;
    EscapedTextMeans(m.key);
    CStringOfNulFree(m.key);
    SyntaxSpells(m.item, format, depth + 1);
    assert G.QuotedBody(PiecesOf(m.key)) == Quoted(m.key);
    MemberJoin(Indent(format, depth + 1), Quoted(m.key), Render(m.item, format, depth + 1), format, depth, last);
  }

  lemma MemberJoin(indent: seq<byte>, key: seq<byte>, value: seq<byte>, format: bool, depth: nat, last: bool)
    ensures var text := (LineBreak(format) + indent) + key + [] + [COLON] + (if format then [TAB] else []) + value
                        + if last then LineBreak(format) + Indent(format, depth) else [];
            MemberStands(text, indent + key + KeySeparator(format) + value + MemberEnd(format, last), format, depth, last)
  {
    hide Indent;
    var line := LineBreak(format);
    var text := indent + key + KeySeparator(format) + value;
    assert (line + indent) + key + [] + [COLON] + (if format then [TAB] else []) + value == line + text;
    assert last ==> (line + text) + (line + Indent(format, depth)) == line + (text + line) + Indent(format, depth);
    assert !last ==> (line + text) + [] + ([COMMA] + line) == line + (text + ([COMMA] + line));
  }

  // ----- the round trip -----

  /**
   Round trip through the public entry points: printing in either form and parsing the C string
   gives the tree back when it nests at most NESTING_LIMIT levels, with or without the demand for a
   terminator behind the value; beyond that the print is refused.
   */
  lemma RoundTrip(j: Json, format: bool, requireNul: bool)
    requires Printable(j)
    ensures ParseText(Render(j, format, 0), requireNul) == if Nesting(j) <= NESTING_LIMIT then Some(j) else None
  {
    hide ParseText, Render, G.TextOf, G.MeaningOf, G.WellFormedSyntax, G.ShortNumbers, ReadDecimal;
    SyntaxSpells(j, format, 0);
    G.ParsesDocument(false, [], SyntaxOf(j, format, 0), [], requireNul);
    assert [] + [] + Render(j, format, 0) + [] == Render(j, format, 0);
  }

  /** Opening brackets and as many closing ones are an array if and only if there are at most 1000 of each. */
  lemma DeepArrays(n: nat, requireNul: bool)
    requires n > 0
    ensures ParseText(seq(n, _ => 0x5B) + seq(n, _ => 0x5D), requireNul) == if n <= 1000 then Some(DeepArray(n)) else None
  {
    hide ParseText, Render;
    DeepArrayNests(n);
    DeepArrayText(n, 0);
    RoundTrip(DeepArray(n), false, requireNul);
  }

  lemma {:induction false} DeepArrayText(n: nat, depth: nat)
    requires n > 0
    ensures Printable(DeepArray(n)) && Render(DeepArray(n), false, depth) == seq(n, _ => 0x5B) + seq(n, _ => 0x5D)
  {
    hide Render, RenderItems;
    DeepArrayNests(n);
    if n == 1 {
      ArrayText([], false, depth);
      NoItemsText(false, depth + 1);
    } else {
      var items := [DeepArray(n - 1)];
      assert PrintableItems(items);
      DeepArrayText(n - 1, depth + 1);
      ArrayText(items, false, depth);
      ItemsText(items, false, depth + 1);
    }
  }

  /** Printing is injective on the trees the parser accepts: two trees with one text are equal. */
  lemma RenderInjective(a: Json, b: Json, format: bool)
    requires Printable(a) && Printable(b) && Nesting(a) <= NESTING_LIMIT && Nesting(b) <= NESTING_LIMIT
    requires Render(a, format, 0) == Render(b, format, 0)
    ensures a == b
  {
    RoundTrip(a, format, false);
    RoundTrip(b, format, false);
  }

  /**
   Whatever text the parser accepted, as long as its numbers are ints: either print of the tree
   parses to the same tree again.
   */
  lemma ReparsesPrint(s: seq<byte>, j: Json, format: bool, requireNul: bool)
    requires ParseBuffer(s, requireNul) == Some(j) && IntNumbers(j)
    ensures Printable(j) && ParseText(Render(j, format, 0), true) == Some(j)
  {
    PrintableHalves(j);
    RoundTrip(j, format, true);
  }
}

/**
 Minify and the two prints: it turns the formatted text into the unformatted one exactly when no
 string ends in a backslash, unless nothing but closing brackets follows that string.
 */
module JsonMinifyPrint {
  import opened JsonTree
  import opened JsonNumbers
  import opened JsonStrings
  import opened JsonRender
  import opened JsonMinify

  // ----- on printed text -----

  predicate EndsInBackslash(text: seq<byte>) {
    text != [] && text[|text| - 1] == BACKSLASH
  }

  /** No string and no key of the tree ends in a backslash. */
  predicate Minifiable(j: Json)
    decreases j, 1
  {
    match j
    case String(text) => !EndsInBackslash(text)
    case Array(items) => MinifiableItems(items)
    case Object(members) => MinifiableMembers(members)
    case _ => true
  }

  predicate MinifiableItems(items: seq<Json>)
    decreases items, 0
  {
    items == [] || (Minifiable(items[0]) && MinifiableItems(items[1..]))
  }

  predicate MinifiableMembers(members: seq<Member>)
    decreases members, 0
  {
    members == [] ||
    (!EndsInBackslash(members[0].key) && Minifiable(members[0].item) && MinifiableMembers(members[1..]))
  }

  lemma EscapeStart(text: seq<byte>)
    ensures text != [] ==> Escape(text) != [] && Escape(text)[0] != QUOTE
  {
  }

  /** One escaped byte is passed, but a backslash right before the closing quote hides it. */
  lemma EscapedByteScan(b: byte, last: bool, s: seq<byte>, i: nat)
    requires At(s, i, EscapeByte(b)) && i + |EscapeByte(b)| < |s|
    requires last <==> s[i + |EscapeByte(b)|] == QUOTE
    ensures var next := i + |EscapeByte(b)|;
            StringEnd(s, i) == StringEnd(s, if last && b == BACKSLASH then next + 1 else next)
  {
    var t := EscapeByte(b);
    assert s[i] == t[0];
    assert |t| > 1 ==> s[i + 1] == t[1];
    if EscapeLetter(b).None? && b < 32 {
      assert s[i + 2] == t[2] && s[i + 3] == t[3] && s[i + 4] == t[4] && s[i + 5] == t[5];
      HexPlain(s[i + 4]);
      HexPlain(s[i + 5]);
      assert StringEnd(s, i) == StringEnd(s, i + 1) == StringEnd(s, i + 2);
      assert StringEnd(s, i + 2) == StringEnd(s, i + 3) == StringEnd(s, i + 4) == StringEnd(s, i + 5) == StringEnd(s, i + 6);
    }
  }

  lemma {:induction false} EscapedScan(text: seq<byte>, s: seq<byte>, i: nat)
    requires var quote := i + |Escape(text)|; At(s, i, Escape(text)) && quote < |s| && s[quote] == QUOTE
    ensures var quote := i + |Escape(text)|;
            StringEnd(s, i) == if EndsInBackslash(text) then StringEnd(s, quote + 1) else quote + 1
  {
    hide EscapeByte, At;
    if text != [] {
      var t, rest := EscapeByte(text[0]), Escape(text[1..]);
      AtConcat(s, i, t, rest);
      EscapeStart(text[1..]);
      AtStart(s, i + |t|, rest);
      EscapedByteScan(text[0], |text| == 1, s, i);
      if |text| > 1 {
        EscapedScan(text[1..], s, i + |t|);
      }
    }
  }

  lemma AtStart(s: seq<byte>, off: nat, t: seq<byte>)
    requires At(s, off, t)
    ensures t != [] ==> off < |s| && s[off] == t[0]
  {
  }

  /** minify_string ends at the string's own quote exactly when the text has no final backslash. */
  lemma QuotedScan(text: seq<byte>, s: seq<byte>, off: nat)
    requires At(s, off, Quoted(text))
    ensures !EndsInBackslash(text) ==> StringEnd(s, off + 1) == off + |Quoted(text)|
    ensures off + |Quoted(text)| < |s| ==>
              (StringEnd(s, off + 1) == off + |Quoted(text)| <==> !EndsInBackslash(text))
  {
    QuotedParts(s, off, Escape(text));
    EscapedScan(text, s, off + 1);
  }

  predicate IsPlain(b: byte) {
    !IsBlank(b) && b != SLASH && b != QUOTE
  }

  lemma {:induction false} KeepsPlain(s: seq<byte>, off: nat, t: seq<byte>)
    requires At(s, off, t) && forall k :: 0 <= k < |t| ==> IsPlain(t[k])
    ensures Minified(s, off) == t + Minified(s, off + |t|)
    decreases |t|
  {
    hide Minified;
    if t != [] {
      assert s[off] == t[0];
      MinifiedStep(s, off);
      assert s[off..off + 1] == [t[0]];
      KeepsPlain(s, off + 1, t[1..]);
    }
  }

  lemma {:induction false} DropsBlank(s: seq<byte>, off: nat, t: seq<byte>)
    requires At(s, off, t) && forall k :: 0 <= k < |t| ==> IsBlank(t[k])
    ensures Minified(s, off) == Minified(s, off + |t|)
    decreases |t|
  {
    hide Minified;
    if t != [] {
      assert s[off] == t[0];
      MinifiedStep(s, off);
      DropsBlank(s, off + 1, t[1..]);
    }
  }

  lemma KeepsQuoted(text: seq<byte>, s: seq<byte>, off: nat)
    requires At(s, off, Quoted(text)) && !EndsInBackslash(text)
    ensures Minified(s, off) == Quoted(text) + Minified(s, off + |Quoted(text)|)
  {
    hide Minified, Escape;
    QuotedScan(text, s, off);
    assert s[off] == Quoted(text)[0];
    MinifiedStep(s, off);
    assert s[off..off + |Quoted(text)|] == Quoted(text);
  }

  /** `bare` is what is left of a punctuation text when its blanks are dropped. */
  ghost predicate Bares(full: seq<byte>, bare: seq<byte>) {
    forall s: seq<byte>, off: nat :: At(s, off, full) ==> Minified(s, off) == bare + Minified(s, off + |full|)
  }

  lemma BlanksBehind(kept: seq<byte>, blanks: seq<byte>)
    requires forall k :: 0 <= k < |kept| ==> IsPlain(kept[k])
    requires forall k :: 0 <= k < |blanks| ==> IsBlank(blanks[k])
    ensures Bares(kept + blanks, kept)
  {
    hide Minified;
    forall s: seq<byte>, off: nat | At(s, off, kept + blanks)
      ensures Minified(s, off) == kept + Minified(s, off + |kept + blanks|)
    {
      AtConcat(s, off, kept, blanks);
      KeepsPlain(s, off, kept);
      DropsBlank(s, off + |kept|, blanks);
    }
  }

  lemma BlanksBefore(blanks: seq<byte>, kept: seq<byte>)
    requires forall k :: 0 <= k < |kept| ==> IsPlain(kept[k])
    requires forall k :: 0 <= k < |blanks| ==> IsBlank(blanks[k])
    ensures Bares(blanks + kept, kept)
  {
    hide Minified;
    forall s: seq<byte>, off: nat | At(s, off, blanks + kept)
      ensures Minified(s, off) == kept + Minified(s, off + |blanks + kept|)
    {
      AtConcat(s, off, blanks, kept);
      DropsBlank(s, off, blanks);
      KeepsPlain(s, off + |blanks|, kept);
    }
  }

  /** Texts that are bared one by one are bared together. */
  lemma BaresConcat(full1: seq<byte>, bare1: seq<byte>, full2: seq<byte>, bare2: seq<byte>)
    requires Bares(full1, bare1) && Bares(full2, bare2)
    ensures Bares(full1 + full2, bare1 + bare2)
  {
    hide Minified;
    forall s: seq<byte>, off: nat | At(s, off, full1 + full2)
      ensures Minified(s, off) == bare1 + bare2 + Minified(s, off + |full1 + full2|)
    {
      AtConcat(s, off, full1, full2);
    }
  }

  lemma PunctuationBares(format: bool, depth: nat, last: bool)
    ensures Bares(ItemSeparator(format), ItemSeparator(false))
    ensures Bares(ObjectOpen(format), ObjectOpen(false))
    ensures Bares(ObjectClose(format, depth), ObjectClose(false, depth))
    ensures Bares(Indent(format, depth), [])
    ensures Bares(KeySeparator(format), KeySeparator(false))
    ensures Bares(MemberEnd(format, last), MemberEnd(false, last))
  {
    hide Bares;
    var newline: seq<byte> := if format then [NEWLINE] else [];
    var tab: seq<byte> := if format then [TAB] else [];
    var space: seq<byte> := if format then [SPACE] else [];
    var comma: seq<byte> := if last then [] else [COMMA];
    BlanksBehind([COMMA], space);
    assert ItemSeparator(format) == [COMMA] + space;
    BlanksBehind([OPEN_BRACE], newline);
    assert ObjectOpen(format) == [OPEN_BRACE] + newline;
    BlanksBefore(Indent(format, depth), [CLOSE_BRACE]);
    assert ObjectClose(format, depth) == Indent(format, depth) + [CLOSE_BRACE];
    BlanksBefore(Indent(format, depth), []);
    assert Indent(format, depth) + [] == Indent(format, depth);
    BlanksBehind([COLON], tab);
    assert KeySeparator(format) == [COLON] + tab;
    BlanksBehind(comma, newline);
    assert MemberEnd(format, last) == comma + newline;
    assert MemberEnd(false, last) == comma + [] == comma;
  }

  lemma PlainBares(t: seq<byte>)
    requires forall k :: 0 <= k < |t| ==> IsPlain(t[k])
    ensures Bares(t, t)
  {
    hide Bares;
    BlanksBehind(t, []);
    assert t + [] == t;
  }

  lemma QuotedBares(text: seq<byte>)
    requires !EndsInBackslash(text)
    ensures Bares(Quoted(text), Quoted(text))
  {
    hide Minified, Quoted;
    forall s: seq<byte>, off: nat | At(s, off, Quoted(text))
      ensures Minified(s, off) == Quoted(text) + Minified(s, off + |Quoted(text)|)
    {
      KeepsQuoted(text, s, off);
    }
  }

  /** Either print of a tree, wherever it stands, is minified to the unformatted print. */
  lemma {:induction false} ValueBares(j: Json, format: bool, depth: nat)
    requires Printable(j) && Minifiable(j)
    ensures Bares(Render(j, format, depth), Render(j, false, depth))
    decreases j, 1
  {
    hide Bares, Quoted;
    match j
    case Null => PlainBares(NULL_TEXT);
    case Bool(b) => PlainBares(TRUE_TEXT); PlainBares(FALSE_TEXT);
    case Number(v) => PlainBares(IntText(ValueInt(v)));
    case String(text) => QuotedBares(text);
    case Array(items) =>
      ItemsBares(items, format, depth + 1);
      PlainBares([OPEN_BRACKET]);
      PlainBares([CLOSE_BRACKET]);
      BaresConcat([OPEN_BRACKET], [OPEN_BRACKET],
                  RenderItems(items, format, depth + 1), RenderItems(items, false, depth + 1));
      BaresConcat([OPEN_BRACKET] + RenderItems(items, format, depth + 1),
                  [OPEN_BRACKET] + RenderItems(items, false, depth + 1),
                  [CLOSE_BRACKET], [CLOSE_BRACKET]);
    case Object(members) =>
      ObjectBares(members, format, depth);
  }

  lemma {:induction false} ItemsBares(items: seq<Json>, format: bool, depth: nat)
    requires PrintableItems(items) && MinifiableItems(items)
    ensures Bares(RenderItems(items, format, depth), RenderItems(items, false, depth))
    decreases items, 0
  {
    hide Bares, Render, ItemSeparator, RenderItems;
    if items == [] {
      NoItemsText(format, depth);
      NoItemsText(false, depth);
      PlainBares([]);
    } else {
      var first, bare := Render(items[0], format, depth), Render(items[0], false, depth);
      ItemsText(items, format, depth);
      ItemsText(items, false, depth);
      ValueBares(items[0], format, depth);
      if |items| > 1 {
        ItemsBares(items[1..], format, depth);
        PunctuationBares(format, depth, false);
        BaresConcat(first, bare, ItemSeparator(format), ItemSeparator(false));
        BaresConcat(first + ItemSeparator(format), bare + ItemSeparator(false),
                    RenderItems(items[1..], format, depth), RenderItems(items[1..], false, depth));
      }
    }
  }

  lemma {:induction false} ObjectBares(members: seq<Member>, format: bool, depth: nat)
    requires PrintableMembers(members) && MinifiableMembers(members)
    ensures Bares(Render(Object(members), format, depth), Render(Object(members), false, depth))
    decreases members, 3
  {
    hide Bares, Render, RenderMembers, ObjectOpen, ObjectClose;
    var body, bare := RenderMembers(members, format, depth + 1), RenderMembers(members, false, depth + 1);
    ObjectText(members, format, depth);
    ObjectText(members, false, depth);
    MembersBares(members, format, depth + 1);
    PunctuationBares(format, depth, false);
    BaresConcat(ObjectOpen(format), ObjectOpen(false), body, bare);
    BaresConcat(ObjectOpen(format) + body, ObjectOpen(false) + bare,
                ObjectClose(format, depth), ObjectClose(false, depth));
  }

  lemma {:induction false} MembersBares(members: seq<Member>, format: bool, depth: nat)
    requires PrintableMembers(members) && MinifiableMembers(members)
    ensures Bares(RenderMembers(members, format, depth), RenderMembers(members, false, depth))
    decreases members, 2
  {
    hide Bares, RenderMember, RenderMembers;
    if members == [] {
      NoMembersText(format, depth);
      NoMembersText(false, depth);
      PlainBares([]);
    } else {
      var last := |members| == 1;
      MembersText(members, format, depth);
      MembersText(members, false, depth);
      MemberBares(members[0], format, depth, last);
      MembersBares(members[1..], format, depth);
      BaresConcat(RenderMember(members[0], format, depth, last), RenderMember(members[0], false, depth, last),
                  RenderMembers(members[1..], format, depth), RenderMembers(members[1..], false, depth));
    }
  }

  lemma {:induction false} MemberBares(m: Member, format: bool, depth: nat, last: bool)
    requires NUL !in m.key && Printable(m.item) && !EndsInBackslash(m.key) && Minifiable(m.item)
    ensures Bares(RenderMember(m, format, depth, last), RenderMember(m, false, depth, last))
    decreases m, 4
  {
    hide Bares, Render, Quoted, Indent, KeySeparator, MemberEnd;
    var key, item, bare := Quoted(m.key), Render(m.item, format, depth), Render(m.item, false, depth);
    NoIndent(depth);
    PunctuationBares(format, depth, last);
    QuotedBares(m.key);
    ValueBares(m.item, format, depth);
    BaresConcat(Indent(format, depth), Indent(false, depth), key, key);
    BaresConcat(Indent(format, depth) + key, Indent(false, depth) + key, KeySeparator(format), KeySeparator(false));
    BaresConcat(Indent(format, depth) + key + KeySeparator(format),
                Indent(false, depth) + key + KeySeparator(false), item, bare);
    BaresConcat(Indent(format, depth) + key + KeySeparator(format) + item,
                Indent(false, depth) + key + KeySeparator(false) + bare,
                MemberEnd(format, last), MemberEnd(false, last));
  }

  lemma NoIndent(depth: nat)
    ensures Indent(false, depth) == []
  {
  }

  /** Minify turns either print into the unformatted one. */
  lemma MinifiesPrint(j: Json, format: bool)
    requires Printable(j) && Minifiable(j)
    ensures Minified(Render(j, format, 0), 0) == Render(j, false, 0)
  {
    hide Minified, Render;
    var s := Render(j, format, 0);
    ValueBares(j, format, 0);
    assert At(s, 0, s);
    MinifiedEnd(s);
  }

  // ----- strings that end in a backslash, in the formatted print -----

  /** The only string that ends in a backslash is the last token before the closing brackets. */
  predicate Trailing(j: Json)
    decreases j, 1
  {
    match j
    case String(text) => EndsInBackslash(text)
    case Array(items) => TrailingItems(items)
    case _ => false
  }

  predicate TrailingItems(items: seq<Json>)
    decreases items, 0
  {
    items != [] &&
    if |items| == 1 then Trailing(items[0]) else Minifiable(items[0]) && TrailingItems(items[1..])
  }

  /** Behind `full`, minify_string is still looking for a quote. */
  ghost predicate Pending(full: seq<byte>, bare: seq<byte>) {
    forall s: seq<byte>, off: nat :: At(s, off, full) ==> LeftOpen(s, off, off + |full|, bare)
  }

  ghost predicate LeftOpen(s: seq<byte>, off: nat, end: nat, bare: seq<byte>)
    requires off <= end <= |s|
  {
    Minified(s, off) == bare + s[end..StringEnd(s, end)] + Minified(s, StringEnd(s, end))
  }

  /** Two texts with different bytes at one position. */
  ghost predicate Differ(a: seq<byte>, b: seq<byte>) {
    exists p :: 0 <= p < |a| && p < |b| && a[p] != b[p]
  }

  /** Whatever follows `full`, Minify does not leave a text that starts with `bare`. */
  ghost predicate Diverges(full: seq<byte>, bare: seq<byte>) {
    forall s: seq<byte>, off: nat :: At(s, off, full) ==> Differ(Minified(s, off), bare)
  }

  /** A blank of `full` that comes before any quote, where `bare` has a visible byte. */
  ghost predicate BlankFirst(full: seq<byte>, bare: seq<byte>) {
    exists q :: BlankAt(full, bare, q)
  }

  ghost predicate BlankAt(full: seq<byte>, bare: seq<byte>, q: int) {
    0 <= q < |full| && q < |bare| && IsBlank(full[q]) && !IsBlank(bare[q])
    && forall k :: 0 <= k < q ==> full[k] != QUOTE && full[k] != BACKSLASH
  }

  lemma {:induction false} NoQuote(s: seq<byte>, i: nat, j: nat)
    requires i <= j <= |s| && forall k :: i <= k < j ==> s[k] != QUOTE && s[k] != BACKSLASH
    ensures StringEnd(s, i) == StringEnd(s, j)
    decreases j - i
  {
    if i < j { NoQuote(s, i + 1, j); }
  }

  lemma QuotedPends(text: seq<byte>)
    requires EndsInBackslash(text)
    ensures Pending(Quoted(text), Quoted(text))
  {
    hide Minified, StringEnd, Escape;
    forall s: seq<byte>, off: nat | At(s, off, Quoted(text))
      ensures LeftOpen(s, off, off + |Quoted(text)|, Quoted(text))
    {
      var end := off + |Quoted(text)|;
      QuotedParts(s, off, Escape(text));
      EscapedScan(text, s, off + 1);
      MinifiedStep(s, off);
      assert s[off..end] == Quoted(text);
      assert s[off..StringEnd(s, end)] == s[off..end] + s[end..StringEnd(s, end)];
    }
  }

  lemma Regroup(a: seq<byte>, b: seq<byte>, c: seq<byte>)
    ensures a + b + c == a + (b + c)
  {
  }

  lemma BaresThenPending(full1: seq<byte>, bare1: seq<byte>, full2: seq<byte>, bare2: seq<byte>)
    requires Bares(full1, bare1) && Pending(full2, bare2)
    ensures Pending(full1 + full2, bare1 + bare2)
  {
    hide Minified, StringEnd;
    forall s: seq<byte>, off: nat | At(s, off, full1 + full2)
      ensures LeftOpen(s, off, off + |full1 + full2|, bare1 + bare2)
    {
      AtConcat(s, off, full1, full2);
      var end := off + |full1| + |full2|;
      assert LeftOpen(s, off + |full1|, end, bare2);
      var open, rest := s[end..StringEnd(s, end)], Minified(s, StringEnd(s, end));
      Regroup(bare1, bare2 + open, rest);
      Regroup(bare1, bare2, open);
    }
  }

  lemma PendingThenBracket(full: seq<byte>, bare: seq<byte>)
    requires Pending(full, bare)
    ensures Pending(full + [CLOSE_BRACKET], bare + [CLOSE_BRACKET])
  {
    hide Minified, StringEnd;
    forall s: seq<byte>, off: nat | At(s, off, full + [CLOSE_BRACKET])
      ensures LeftOpen(s, off, off + |full + [CLOSE_BRACKET]|, bare + [CLOSE_BRACKET])
    {
      AtConcat(s, off, full, [CLOSE_BRACKET]);
      var end := off + |full|;
      assert LeftOpen(s, off, end, bare);
      assert s[end] == [CLOSE_BRACKET][0];
      NoQuote(s, end, end + 1);
      assert s[end..StringEnd(s, end)] == [CLOSE_BRACKET] + s[end + 1..StringEnd(s, end + 1)];
    }
  }

  lemma PendingThenBlank(full1: seq<byte>, bare1: seq<byte>, full2: seq<byte>, bare2: seq<byte>)
    requires Pending(full1, bare1) && BlankFirst(full2, bare2)
    ensures Diverges(full1 + full2, bare1 + bare2)
  {
    hide Minified, StringEnd, BlankAt, Differ;
    var q :| BlankAt(full2, bare2, q);
    forall s: seq<byte>, off: nat | At(s, off, full1 + full2)
      ensures Differ(Minified(s, off), bare1 + bare2)
    {
      AtConcat(s, off, full1, full2);
      BlankStays(s, off, off + |full1|, bare1, full2, bare2, q);
    }
  }

  /** A blank behind a string that is still open is kept. */
  lemma BlankStays(s: seq<byte>, off: nat, end: nat, bare1: seq<byte>, full2: seq<byte>, bare2: seq<byte>, q: int)
    requires off <= end && At(s, end, full2) && BlankAt(full2, bare2, q) && LeftOpen(s, off, end, bare1)
    ensures Differ(Minified(s, off), bare1 + bare2)
  {
    hide Minified, StringEnd, At;
    forall k | end <= k <= end + q ensures k < |s| && s[k] == full2[k - end] {
      AtByte(s, end, full2, k - end);
    }
    AtByte(s, end, full2, q);
    NoQuote(s, end, end + q + 1);
    var m := Minified(s, off);
    var kept := s[end..StringEnd(s, end)];
    assert kept[q] == full2[q];
    assert m[|bare1| + q] == (bare1 + kept)[|bare1| + q] == kept[q];
    assert (bare1 + bare2)[|bare1| + q] == bare2[q];
  }

  lemma AtByte(s: seq<byte>, off: nat, t: seq<byte>, k: nat)
    requires At(s, off, t) && k < |t|
    ensures off + k < |s| && s[off + k] == t[k]
  {
  }

  lemma BaresThenDiverges(full1: seq<byte>, bare1: seq<byte>, full2: seq<byte>, bare2: seq<byte>)
    requires Bares(full1, bare1) && Diverges(full2, bare2)
    ensures Diverges(full1 + full2, bare1 + bare2)
  {
    hide Minified;
    forall s: seq<byte>, off: nat | At(s, off, full1 + full2)
      ensures Differ(Minified(s, off), bare1 + bare2)
    {
      AtConcat(s, off, full1, full2);
      var m := Minified(s, off + |full1|);
      var p :| 0 <= p < |m| && p < |bare2| && m[p] != bare2[p];
      assert (bare1 + m)[|bare1| + p] != (bare1 + bare2)[|bare1| + p];
    }
  }

  lemma DivergesOn(full1: seq<byte>, bare1: seq<byte>, full2: seq<byte>, bare2: seq<byte>)
    requires Diverges(full1, bare1)
    ensures Diverges(full1 + full2, bare1 + bare2)
  {
    hide Minified;
    forall s: seq<byte>, off: nat | At(s, off, full1 + full2)
      ensures Differ(Minified(s, off), bare1 + bare2)
    {
      AtConcat(s, off, full1, full2);
      var m := Minified(s, off);
      var p :| 0 <= p < |m| && p < |bare1| && m[p] != bare1[p];
      assert m[p] != (bare1 + bare2)[p];
    }
  }

  /** What a text with such a string does to Minify. */
  ghost predicate Spoils(full: seq<byte>, bare: seq<byte>, trailing: bool) {
    if trailing then Pending(full, bare) else Diverges(full, bare)
  }

  lemma BaresThenSpoils(full1: seq<byte>, bare1: seq<byte>, full2: seq<byte>, bare2: seq<byte>, trailing: bool)
    requires Bares(full1, bare1) && Spoils(full2, bare2, trailing)
    ensures Spoils(full1 + full2, bare1 + bare2, trailing)
  {
    hide Bares, Pending, Diverges;
    if trailing {
      BaresThenPending(full1, bare1, full2, bare2);
    } else {
      BaresThenDiverges(full1, bare1, full2, bare2);
    }
  }

  lemma SpoilsOn(full1: seq<byte>, bare1: seq<byte>, full2: seq<byte>, bare2: seq<byte>, trailing: bool)
    requires Spoils(full1, bare1, trailing) && BlankFirst(full2, bare2)
    ensures Diverges(full1 + full2, bare1 + bare2)
  {
    hide Pending, Diverges, BlankFirst;
    if trailing {
      PendingThenBlank(full1, bare1, full2, bare2);
    } else {
      DivergesOn(full1, bare1, full2, bare2);
    }
  }

  lemma {:induction false} ValueSpoils(j: Json, depth: nat)
    requires Printable(j) && !Minifiable(j)
    ensures Spoils(Render(j, true, depth), Render(j, false, depth), Trailing(j))
    decreases j, 1
  {
    hide Pending, Diverges, Bares, Quoted;
    match j
    case String(text) =>
      QuotedPends(text);
    case Array(items) =>
      ArraySpoils(items, depth);
    case Object(members) =>
      ObjectSpoils(members, depth);
  }

  lemma {:induction false} ArraySpoils(items: seq<Json>, depth: nat)
    requires PrintableItems(items) && !MinifiableItems(items)
    ensures Spoils(Render(Array(items), true, depth), Render(Array(items), false, depth), TrailingItems(items))
    decreases items, 1
  {
    hide Pending, Diverges, Bares, Render, RenderItems, TrailingItems;
    var body, bare := RenderItems(items, true, depth + 1), RenderItems(items, false, depth + 1);
    ArrayText(items, true, depth);
    ArrayText(items, false, depth);
    ItemsSpoil(items, depth + 1);
    PlainBares([OPEN_BRACKET]);
    BaresThenSpoils([OPEN_BRACKET], [OPEN_BRACKET], body, bare, TrailingItems(items));
    if TrailingItems(items) {
      PendingThenBracket([OPEN_BRACKET] + body, [OPEN_BRACKET] + bare);
    } else {
      DivergesOn([OPEN_BRACKET] + body, [OPEN_BRACKET] + bare, [CLOSE_BRACKET], [CLOSE_BRACKET]);
    }
  }

  lemma {:induction false} ItemsSpoil(items: seq<Json>, depth: nat)
    requires PrintableItems(items) && !MinifiableItems(items)
    ensures Spoils(RenderItems(items, true, depth), RenderItems(items, false, depth), TrailingItems(items))
    decreases items, 0
  {
    hide Spoils, Bares, Render, RenderItems, Trailing, Diverges, ItemSeparator;
    var first, bare := Render(items[0], true, depth), Render(items[0], false, depth);
    ItemsText(items, true, depth);
    ItemsText(items, false, depth);
    if |items| == 1 {
      assert items[1..] == [];
      ValueSpoils(items[0], depth);
    } else {
      var rest, bareRest := RenderItems(items[1..], true, depth), RenderItems(items[1..], false, depth);
      var space, noSpace := ItemSeparator(true), ItemSeparator(false);
      Regroup(first, space, rest);
      Regroup(bare, noSpace, bareRest);
      if Minifiable(items[0]) {
        ValueBares(items[0], true, depth);
        PunctuationBares(true, depth, false);
        BaresConcat(first, bare, space, noSpace);
        ItemsSpoil(items[1..], depth);
        BaresThenSpoils(first + space, bare + noSpace, rest, bareRest, TrailingItems(items[1..]));
      } else {
        ValueSpoils(items[0], depth);
        SeparatorBlank(items[1..], depth);
        SpoilsOn(first, bare, space + rest, noSpace + bareRest, Trailing(items[0]));
        assert Spoils(RenderItems(items, true, depth), RenderItems(items, false, depth), false) by {
          DivergesSpoils(RenderItems(items, true, depth), RenderItems(items, false, depth));
        }
      }
    }
  }

  lemma DivergesSpoils(full: seq<byte>, bare: seq<byte>)
    requires Diverges(full, bare)
    ensures Spoils(full, bare, false)
  {
  }

  lemma SeparatorBlank(items: seq<Json>, depth: nat)
    requires PrintableItems(items) && items != []
    ensures BlankFirst(ItemSeparator(true) + RenderItems(items, true, depth),
                       ItemSeparator(false) + RenderItems(items, false, depth))
  {
    hide Render, RenderItems;
    ItemsText(items, false, depth);
    RenderStart(items[0], false, depth);
    var full := ItemSeparator(true) + RenderItems(items, true, depth);
    var bare := ItemSeparator(false) + RenderItems(items, false, depth);
    assert bare[1] == RenderItems(items, false, depth)[0] == Render(items[0], false, depth)[0];
    assert BlankAt(full, bare, 1);
  }

  lemma {:induction false} ObjectSpoils(members: seq<Member>, depth: nat)
    requires PrintableMembers(members) && !MinifiableMembers(members)
    ensures Diverges(Render(Object(members), true, depth), Render(Object(members), false, depth))
    decreases members, 5
  {
    hide Diverges, Bares, Render, RenderMembers, ObjectOpen, ObjectClose;
    ObjectText(members, true, depth);
    ObjectText(members, false, depth);
    var body, bare := RenderMembers(members, true, depth + 1), RenderMembers(members, false, depth + 1);
    var close, bareClose := ObjectClose(true, depth), ObjectClose(false, depth);
    MembersSpoil(members, depth + 1);
    PunctuationBares(true, depth, false);
    BaresThenDiverges(ObjectOpen(true), ObjectOpen(false), body + close, bare + bareClose);
    Regroup(ObjectOpen(true), body, close);
    Regroup(ObjectOpen(false), bare, bareClose);
  }

  /** The rest of an object from a member on, with its closing brace. */
  lemma {:induction false} MembersSpoil(members: seq<Member>, depth: nat)
    requires PrintableMembers(members) && !MinifiableMembers(members) && depth > 0
    ensures Diverges(RenderMembers(members, true, depth) + ObjectClose(true, depth - 1),
                     RenderMembers(members, false, depth) + ObjectClose(false, depth - 1))
    decreases members, 4
  {
    hide Diverges, Bares, BlankFirst, Render, RenderMember, RenderMembers, ObjectClose, MemberEnd, EndsInBackslash;
    var m, last := members[0], |members| == 1;
    MembersText(members, true, depth);
    MembersText(members, false, depth);
    var first, bare := RenderMember(m, true, depth, last), RenderMember(m, false, depth, last);
    var rest, bareRest := RenderMembers(members[1..], true, depth), RenderMembers(members[1..], false, depth);
    var close, bareClose := ObjectClose(true, depth - 1), ObjectClose(false, depth - 1);
    Regroup(first, rest, close);
    Regroup(bare, bareRest, bareClose);
    if EndsInBackslash(m.key) || !Minifiable(m.item) {
      EndBlank(members[1..], depth);
      MemberSpoils(m, depth, last, rest + close, bareRest + bareClose);
    } else {
      MemberBares(m, true, depth, last);
      MembersSpoil(members[1..], depth);
      BaresThenDiverges(first, bare, rest + close, bareRest + bareClose);
    }
  }

  lemma EndBlank(rest: seq<Member>, depth: nat)
    requires PrintableMembers(rest) && depth > 0
    ensures BlankFirst(MemberEnd(true, rest == []) + (RenderMembers(rest, true, depth) + ObjectClose(true, depth - 1)),
                       MemberEnd(false, rest == []) + (RenderMembers(rest, false, depth) + ObjectClose(false, depth - 1)))
  {
    hide Render, RenderMembers;
    var full := MemberEnd(true, rest == []) + (RenderMembers(rest, true, depth) + ObjectClose(true, depth - 1));
    var bare := MemberEnd(false, rest == []) + (RenderMembers(rest, false, depth) + ObjectClose(false, depth - 1));
    if rest == [] {
      NoMembersText(true, depth);
      NoMembersText(false, depth);
      assert full[0] == NEWLINE && bare[0] == CLOSE_BRACE;
      assert BlankAt(full, bare, 0);
    } else {
      MembersText(rest, false, depth);
      NoIndent(depth);
      MemberStart(rest[0], depth, |rest| == 1);
      assert full[0] == COMMA && full[1] == NEWLINE && bare[1] == QUOTE;
      assert BlankAt(full, bare, 1);
    }
  }

  lemma MemberStart(m: Member, depth: nat, last: bool)
    requires NUL !in m.key && Printable(m.item)
    ensures |RenderMember(m, false, depth, last)| > 0 && RenderMember(m, false, depth, last)[0] == QUOTE
  {
  }

  /** A member with such a key or value, in front of what follows it. */
  lemma {:induction false} MemberSpoils(m: Member, depth: nat, last: bool, tail: seq<byte>, bareTail: seq<byte>)
    requires NUL !in m.key && Printable(m.item) && (EndsInBackslash(m.key) || !Minifiable(m.item))
    requires BlankFirst(MemberEnd(true, last) + tail, MemberEnd(false, last) + bareTail)
    ensures Diverges(RenderMember(m, true, depth, last) + tail, RenderMember(m, false, depth, last) + bareTail)
    decreases m, 6
  {
    hide Spoils, Diverges, Pending, Bares, BlankFirst, Render, Quoted, Indent, KeySeparator, MemberEnd, EndsInBackslash;
    var key, item, bare := Quoted(m.key), Render(m.item, true, depth), Render(m.item, false, depth);
    var indent, colon, bareColon := Indent(true, depth), KeySeparator(true), KeySeparator(false);
    var end, bareEnd := MemberEnd(true, last) + tail, MemberEnd(false, last) + bareTail;
    NoIndent(depth);
    PunctuationBares(true, depth, last);
    MemberJoin(indent, key, colon, item, MemberEnd(true, last), tail);
    MemberJoin([], key, bareColon, bare, MemberEnd(false, last), bareTail);
    if EndsInBackslash(m.key) {
      QuotedPends(m.key);
      BaresThenPending(indent, [], key, key);
      ColonBlank(m.item, depth, end, bareEnd);
      PendingThenBlank(indent + key, [] + key, colon + (item + end), bareColon + (bare + bareEnd));
    } else {
      QuotedBares(m.key);
      BaresConcat(indent, [], key, key);
      BaresConcat(indent + key, [] + key, colon, bareColon);
      ValueSpoils(m.item, depth);
      SpoilsOn(item, bare, end, bareEnd, Trailing(m.item));
      BaresThenDiverges(indent + key + colon, [] + key + bareColon, item + end, bare + bareEnd);
    }
  }

  lemma ColonBlank(j: Json, depth: nat, tail: seq<byte>, bareTail: seq<byte>)
    requires Printable(j)
    ensures BlankFirst(KeySeparator(true) + (Render(j, true, depth) + tail),
                       KeySeparator(false) + (Render(j, false, depth) + bareTail))
  {
    hide Render;
    RenderStart(j, false, depth);
    var full := KeySeparator(true) + (Render(j, true, depth) + tail);
    var bare := KeySeparator(false) + (Render(j, false, depth) + bareTail);
    assert bare[1] == Render(j, false, depth)[0];
    assert BlankAt(full, bare, 1);
  }

  lemma MemberJoin(indent: seq<byte>, key: seq<byte>, colon: seq<byte>, item: seq<byte>, end: seq<byte>, tail: seq<byte>)
    ensures indent + key + colon + item + end + tail == indent + key + (colon + (item + (end + tail)))
    ensures indent + key + colon + item + end + tail == indent + key + colon + (item + (end + tail))
  {
  }

  /**
   Minify turns the formatted print into the unformatted one exactly when no string or key ends in
   a backslash, except a string behind which only closing brackets follow.
   */
  lemma MinifiesFormatted(j: Json)
    requires Printable(j)
    ensures Minified(Render(j, true, 0), 0) == Render(j, false, 0) <==> Minifiable(j) || Trailing(j)
  {
    hide Minified, Render, StringEnd;
    var s, bare := Render(j, true, 0), Render(j, false, 0);
    assert At(s, 0, s);
    MinifiedEnd(s);
    if Minifiable(j) {
      MinifiesPrint(j, true);
    } else {
      ValueSpoils(j, 0);
      if Trailing(j) {
        assert LeftOpen(s, 0, |s|, bare);
      } else {
        assert Differ(Minified(s, 0), bare);
      }
    }
  }

  /** Blanks behind such a string survive: `["\\", null]` keeps the one behind its comma. */
  lemma FinalBackslashKeepsBlanks()
    ensures var j := Array([String([BACKSLASH]), Null]);
            Printable(j) && Minified(Render(j, true, 0), 0) != Render(j, false, 0)
  {
    var j := Array([String([BACKSLASH]), Null]);
    assert j.items[1..] == [Null] && Printable(j.items[0]) && Printable(Null) && PrintableItems(j.items[1..]);
    assert !Minifiable(j.items[0]);
    MinifiesFormatted(j);
  }
}

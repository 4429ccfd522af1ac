/**
 cJSON_Minify in place: which bytes of a C string it keeps, and that its writes never overtake its
 reads.
 */
module JsonMinify {
  import opened Options
  import opened JsonTree

  const ASTERISK: byte := 0x2A

  // ----- what Minify keeps of the C string `s` from `i` on -----

  predicate IsBlank(b: byte) {
    b == SPACE || b == TAB || b == CARRIAGE_RETURN || b == NEWLINE
  }

  /** minify_string behind the opening quote: a quote ends it unless the byte before is a backslash. */
  function StringEnd(s: seq<byte>, i: nat): (end: nat)
    requires i <= |s|
    ensures i <= end <= |s|
    decreases |s| - i
  {
    if i == |s| then i
    else if s[i] == QUOTE then i + 1
    else if s[i] == BACKSLASH && i + 1 < |s| && s[i + 1] == QUOTE then StringEnd(s, i + 2)
    else StringEnd(s, i + 1)
  }

  function LineEnd(s: seq<byte>, i: nat): (end: nat)
    requires i <= |s|
    ensures i <= end <= |s|
    decreases |s| - i
  {
    if i == |s| then i else if s[i] == NEWLINE then i + 1 else LineEnd(s, i + 1)
  }

  function CommentEnd(s: seq<byte>, i: nat): (end: nat)
    requires i <= |s|
    ensures i <= end <= |s|
    decreases |s| - i
  {
    if i == |s| then i
    else if s[i] == ASTERISK && i + 1 < |s| && s[i + 1] == SLASH then i + 2
    else CommentEnd(s, i + 1)
  }

  /** Where the next token starts, if the byte at `i` is dropped. */
  function Dropped(s: seq<byte>, i: nat): (next: Option<nat>)
    requires i < |s|
    ensures next.Some? ==> i < next.value <= |s|
  {
    if IsBlank(s[i]) then Some(i + 1)
    else if s[i] != SLASH then None
    else if i + 1 < |s| && s[i + 1] == SLASH then Some(LineEnd(s, i + 2))
    else if i + 1 < |s| && s[i + 1] == ASTERISK then Some(CommentEnd(s, i + 2))
    else Some(i + 1)
  }

  function KeptEnd(s: seq<byte>, i: nat): (end: nat)
    requires i < |s|
    ensures i < end <= |s|
  {
    if s[i] == QUOTE then StringEnd(s, i + 1) else i + 1
  }

  function Minified(s: seq<byte>, i: nat): (t: seq<byte>)
    requires i <= |s|
    ensures |t| <= |s| - i
    decreases |s| - i
  {
    if i == |s| then []
    else match Dropped(s, i)
         case Some(next) => Minified(s, next)
         case None => s[i..KeptEnd(s, i)] + Minified(s, KeptEnd(s, i))
  }

  // ----- what is dropped -----

  /** Outside strings exactly the four blanks of RFC 8259 and slashes are dropped, with their comments. */
  lemma DroppedExactly(s: seq<byte>, i: nat)
    requires i < |s|
    ensures Dropped(s, i).Some? <==> s[i] == 0x20 || s[i] == 0x09 || s[i] == 0x0D || s[i] == 0x0A || s[i] == 0x2F
    ensures s[i] == 0x2F && (i + 1 < |s| ==> s[i + 1] != 0x2F && s[i + 1] != 0x2A) ==> Minified(s, i) == Minified(s, i + 1)
  {
  }

  lemma {:induction false} LineEndIs(s: seq<byte>, i: nat, end: nat)
    requires i <= end <= |s| && (forall k :: i <= k < end ==> s[k] != NEWLINE)
    requires end < |s| ==> s[end] == NEWLINE
    ensures LineEnd(s, i) == if end < |s| then end + 1 else end
    decreases end - i
  {
    if i < end { LineEndIs(s, i + 1, end); }
  }

  lemma {:induction false} CommentEndIs(s: seq<byte>, i: nat, end: nat)
    requires i <= end <= |s|
    requires forall k :: i <= k < end ==> !(s[k] == ASTERISK && k + 1 < |s| && s[k + 1] == SLASH)
    requires end < |s| ==> end + 1 < |s| && s[end] == ASTERISK && s[end + 1] == SLASH
    ensures CommentEnd(s, i) == if end < |s| then end + 2 else end
    decreases end - i
  {
    if i < end { CommentEndIs(s, i + 1, end); }
  }

  /** A comment to the end of the line vanishes with its newline. */
  lemma LineCommentVanishes(s: seq<byte>, i: nat, text: seq<byte>)
    requires At(s, i, [0x2F, 0x2F] + text + [0x0A]) && 0x0A !in text
    ensures Minified(s, i) == Minified(s, i + |text| + 3)
  {
    AtConcat(s, i, [0x2F, 0x2F] + text, [0x0A]);
    AtConcat(s, i, [0x2F, 0x2F], text);
    assert s[i] == [0x2F, 0x2F][0] && s[i + 1] == [0x2F, 0x2F][1] && s[i + 2 + |text|] == [0x0A][0];
    forall k | i + 2 <= k < i + 2 + |text| ensures s[k] != NEWLINE {
      assert s[k] == text[k - (i + 2)];
    }
    LineEndIs(s, i + 2, i + 2 + |text|);
  }

  /** A comment between an opening and the next closing mark vanishes. */
  lemma BlockCommentVanishes(s: seq<byte>, i: nat, text: seq<byte>)
    requires At(s, i, [0x2F, 0x2A] + text + [0x2A, 0x2F])
    requires forall k :: 0 <= k < |text| - 1 ==> !(text[k] == 0x2A && text[k + 1] == 0x2F)
    ensures Minified(s, i) == Minified(s, i + |text| + 4)
  {
    AtConcat(s, i, [0x2F, 0x2A] + text, [0x2A, 0x2F]);
    AtConcat(s, i, [0x2F, 0x2A], text);
    var end := i + 2 + |text|;
    assert s[i] == [0x2F, 0x2A][0] && s[i + 1] == [0x2F, 0x2A][1];
    assert s[end] == [0x2A, 0x2F][0] && s[end + 1] == [0x2A, 0x2F][1];
    forall k | i + 2 <= k < end ensures !(s[k] == ASTERISK && k + 1 < |s| && s[k + 1] == SLASH) {
      assert s[k] == text[k - (i + 2)] && (k + 1 < end ==> s[k + 1] == text[k + 1 - (i + 2)]);
    }
    CommentEndIs(s, i + 2, end);
  }

  /** An unfinished comment takes the rest of the text with it. */
  lemma OpenCommentVanishes(s: seq<byte>, i: nat)
    requires i + 1 < |s| && s[i] == 0x2F
    requires (s[i + 1] == 0x2F && forall k :: i + 2 <= k < |s| ==> s[k] != 0x0A)
             || (s[i + 1] == 0x2A && forall k :: i + 2 <= k < |s| - 1 ==> !(s[k] == 0x2A && s[k + 1] == 0x2F))
    ensures Minified(s, i) == []
  {
    if s[i + 1] == 0x2F {
      LineEndIs(s, i + 2, |s|);
    } else {
      CommentEndIs(s, i + 2, |s|);
    }
  }

  // ----- nothing is left to drop -----

  /** A string ends at the same byte in another text that goes on, or ends, like this one. */
  lemma {:induction false} StringEndMoves(s: seq<byte>, i: nat, t: seq<byte>, d: int)
    requires i <= |s| && 0 <= i + d && StringEnd(s, i) + d <= |t|
    requires forall k :: i <= k < StringEnd(s, i) ==> t[k + d] == s[k]
    requires StringEnd(s, i) == |s| ==> |t| == |s| + d
    ensures StringEnd(t, i + d) == StringEnd(s, i) + d
    decreases |s| - i
  {
    if i < |s| && s[i] != QUOTE {
      var n := if s[i] == BACKSLASH && i + 1 < |s| && s[i + 1] == QUOTE then 2 else 1;
      assert t[i + d] == s[i];
      StringEndMoves(s, i + n, t, d);
    }
  }

  /** A token that is kept is kept at its new place too. */
  lemma TokenMoves(s: seq<byte>, i: nat, t: seq<byte>, d: int)
    requires i < |s| && Dropped(s, i) == None && 0 <= i + d && KeptEnd(s, i) + d <= |t|
    requires forall k :: i <= k < KeptEnd(s, i) ==> t[k + d] == s[k]
    requires KeptEnd(s, i) == |s| ==> |t| == |s| + d
    ensures Dropped(t, i + d) == None && KeptEnd(t, i + d) == KeptEnd(s, i) + d
  {
    hide StringEnd, Dropped;
    assert t[i + d] == s[i];
    DroppedExactly(s, i);
    DroppedExactly(t, i + d);
    if s[i] == QUOTE { StringEndMoves(s, i + 1, t, d); }
  }

  /** What is kept behind any text is kept again. */
  lemma {:induction false} KeptIsKept(s: seq<byte>, i: nat, before: seq<byte>)
    requires i <= |s|
    ensures Minified(before + Minified(s, i), |before|) == Minified(s, i)
    decreases |s| - i, 1
  {
    hide KeptEnd, Dropped;
    if i < |s| {
      match Dropped(s, i)
      case Some(next) => KeptIsKept(s, next, before);
      case None => KeptAgain(s, i, before, Minified(s, KeptEnd(s, i)));
    }
  }

  lemma {:induction false} KeptAgain(s: seq<byte>, i: nat, before: seq<byte>, rest: seq<byte>)
    requires i < |s| && Dropped(s, i) == None && rest == Minified(s, KeptEnd(s, i))
    ensures Minified(before + (s[i..KeptEnd(s, i)] + rest), |before|) == s[i..KeptEnd(s, i)] + rest
    decreases |s| - i, 0
  {
    hide KeptEnd, Dropped, Minified;
    var end := KeptEnd(s, i);
    var kept := s[i..end];
    var t := before + (kept + rest);
    assert forall k :: i <= k < end ==> t[k + (|before| - i)] == kept[k - i] == s[k];
    NothingBehind(s, end, rest);
    TokenMoves(s, i, t, |before| - i);
    FirstToken(t, |before|);
    KeptIsKept(s, end, before + kept);
    assert before + kept + rest == t && t[|before|..|before| + |kept|] == kept;
  }

  lemma NothingBehind(s: seq<byte>, end: nat, rest: seq<byte>)
    requires end <= |s| && rest == Minified(s, end)
    ensures end == |s| ==> rest == []
  {
  }

  lemma FirstToken(s: seq<byte>, i: nat)
    requires i < |s| && Dropped(s, i) == None
    ensures Minified(s, i) == s[i..KeptEnd(s, i)] + Minified(s, KeptEnd(s, i))
  {
  }

  /** Minifying twice is minifying once, for every text. */
  lemma MinifyTwice(s: seq<byte>)
    ensures Minified(Minified(s, 0), 0) == Minified(s, 0)
  {
    KeptIsKept(s, 0, []);
    assert [] + Minified(s, 0) == Minified(s, 0);
  }

  // ----- the loops over the buffer -----

  /** The buffer holds the C string `s`, still untouched from `from` on. */
  ghost predicate Unread(json: array<byte>, s: seq<byte>, from: nat)
    reads json
  {
    from <= |s| < json.Length && NUL !in s
    && json[|s|] == NUL && forall k :: from <= k < |s| ==> json[k] == s[k]
  }

  method SkipOneLineComment(json: array<byte>, input: nat, ghost s: seq<byte>) returns (next: nat)
    requires input + 2 <= |s| && Unread(json, s, input)
    ensures next == LineEnd(s, input + 2)
  {
    next := input + 2;
    while json[next] != NUL
      invariant input + 2 <= next <= |s| && LineEnd(s, next) == LineEnd(s, input + 2)
      decreases |s| - next
    {
      if json[next] == NEWLINE {
        return next + 1;
      }
      next := next + 1;
    }
    assert next == |s|;
  }

  method SkipMultilineComment(json: array<byte>, input: nat, ghost s: seq<byte>) returns (next: nat)
    requires input + 2 <= |s| && Unread(json, s, input)
    ensures next == CommentEnd(s, input + 2)
  {
    next := input + 2;
    while json[next] != NUL
      invariant input + 2 <= next <= |s| && CommentEnd(s, next) == CommentEnd(s, input + 2)
      decreases |s| - next
    {
      if json[next] == ASTERISK && json[next + 1] == SLASH {
        return next + 2;
      }
      next := next + 1;
    }
    assert next == |s|;
  }

  /**
   The bytes of `s` from `start` up to `next` have been moved to `output`; apart from them and from
   what is read already, the buffer is as it was before.
   */
  ghost predicate Moved(json: array<byte>, before: seq<byte>, s: seq<byte>, start: nat, next: nat, output: nat, into: nat)
    reads json
  {
    start <= next <= |s| && output <= into && into - output == next - start && output <= start
    && |before| == json.Length && Unread(json, s, next)
    && json[..output] == before[..output] && json[output..into] == s[start..next]
    && forall k :: |s| < k < json.Length ==> json[k] == before[k]
  }

  lemma NothingMoved(json: array<byte>, s: seq<byte>, start: nat, output: nat)
    requires output <= start <= |s| && Unread(json, s, start)
    ensures Moved(json, json[..], s, start, start, output, output)
  {
  }

  /** What the next bytes to read are. */
  lemma NextBytes(json: array<byte>, before: seq<byte>, s: seq<byte>, start: nat, next: nat, output: nat, into: nat)
    requires Moved(json, before, s, start, next, output, into)
    ensures next <= |s| < json.Length && output <= into <= next && into - output == next - start
    ensures json[next] == NUL <==> next == |s|
    ensures next < |s| ==> json[next] == s[next]
    ensures next < |s| ==> json[next + 1] == if next + 1 < |s| then s[next + 1] else NUL
  {
  }

  /** `*output = *input`, one step of a run that started at `start` and is written from `output`. */
  method MoveByte(json: array<byte>, next: nat, into: nat,
                  ghost before: seq<byte>, ghost start: nat, ghost output: nat, ghost s: seq<byte>)
    requires next < |s| && Moved(json, before, s, start, next, output, into)
    modifies json
    ensures Moved(json, before, s, start, next + 1, output, into + 1)
    ensures |s| < json.Length && (json[next + 1] == NUL <==> next + 1 == |s|)
  {
    ghost var copied := json[output..into];
    json[into] := json[next];
    assert json[output..into + 1] == copied + [s[next]];
  }

  lemma StringEndStep(s: seq<byte>, i: nat)
    requires i < |s|
    ensures StringEnd(s, i) ==
            if s[i] == QUOTE then i + 1
            else if s[i] == BACKSLASH && i + 1 < |s| && s[i + 1] == QUOTE then StringEnd(s, i + 2)
            else StringEnd(s, i + 1)
  {
  }

  lemma StringEndEnds(s: seq<byte>)
    ensures StringEnd(s, |s|) == |s|
  {
  }

  /** minify_string: the string moves down verbatim, the writes never overtake the reads. */
  method MinifyString(json: array<byte>, input: nat, output: nat, ghost s: seq<byte>) returns (next: nat, into: nat)
    requires output <= input < |s| && s[input] == QUOTE && Unread(json, s, input)
    modifies json
    ensures next == StringEnd(s, input + 1)
    ensures Moved(json, old(json[..]), s, input, next, output, into)
  {
    hide Moved, Unread, StringEnd;
    ghost var before := json[..];
    NothingMoved(json, s, input, output);
    MoveByte(json, input, output, before, input, output, s);
    next, into := input + 1, output + 1;
    while json[next] != NUL
      invariant input < next <= |s| < json.Length && (json[next] == NUL <==> next == |s|)
      invariant StringEnd(s, next) == StringEnd(s, input + 1)
      invariant Moved(json, before, s, input, next, output, into)
      decreases |s| - next
    {
      StringEndStep(s, next);
      NextBytes(json, before, s, input, next, output, into);
      var closing := json[next] == QUOTE;
      var escaped := json[next] == BACKSLASH && json[next + 1] == QUOTE;
      MoveByte(json, next, into, before, input, output, s);
      next, into := next + 1, into + 1;
      if closing {
        return;
      }
      if escaped {
        MoveByte(json, next, into, before, input, output, s);
        next, into := next + 1, into + 1;
      }
    }
    StringEndEnds(s);
  }

  lemma MinifiedStep(s: seq<byte>, i: nat)
    requires i < |s|
    ensures Dropped(s, i).Some? ==> Minified(s, i) == Minified(s, Dropped(s, i).value)
    ensures Dropped(s, i).None? ==> Minified(s, i) == s[i..KeptEnd(s, i)] + Minified(s, KeptEnd(s, i))
  {
  }

  lemma MinifiedEnd(s: seq<byte>)
    ensures Minified(s, |s|) == []
  {
  }

  /** What is kept so far, and the rest still to read, make up the minified text. */
  ghost predicate Kept(json: array<byte>, before: seq<byte>, s: seq<byte>, input: nat, into: nat)
    reads json
  {
    into <= input <= |s| && Unread(json, s, input) && |before| == json.Length
    && json[..into] + Minified(s, input) == Minified(s, 0)
    && forall k :: |s| < k < json.Length ==> json[k] == before[k]
  }

  lemma NothingKept(json: array<byte>, s: seq<byte>)
    requires Unread(json, s, 0)
    ensures Kept(json, json[..], s, 0, 0)
  {
    hide Minified;
  }

  lemma ReadNext(json: array<byte>, before: seq<byte>, s: seq<byte>, input: nat, into: nat)
    requires Kept(json, before, s, input, into)
    ensures into <= input <= |s| < json.Length && Unread(json, s, input) && (json[input] == NUL <==> input == |s|)
    ensures input < |s| ==> json[input] == s[input]
    ensures input < |s| ==> json[input + 1] == if input + 1 < |s| then s[input + 1] else NUL
  {
    hide Minified;
  }

  lemma KeptNow(json: array<byte>, before: seq<byte>, s: seq<byte>, input: nat, into: nat)
    requires Kept(json, before, s, input, into)
    ensures into <= input <= |s| < json.Length == |before|
    ensures json[..into] + Minified(s, input) == Minified(s, 0)
    ensures forall k :: |s| < k < json.Length ==> json[k] == before[k]
  {
    hide Minified;
  }

  /** A token that is dropped. */
  lemma KeptOn(json: array<byte>, before: seq<byte>, s: seq<byte>, input: nat, into: nat, next: nat)
    requires Kept(json, before, s, input, into) && input < |s| && Dropped(s, input) == Some(next)
    ensures Kept(json, before, s, next, into)
  {
    hide Minified, Dropped;
    MinifiedStep(s, input);
  }

  /** A token that has been moved behind what was kept before it. */
  lemma KeptMore(json: array<byte>, before: seq<byte>, mid: seq<byte>, s: seq<byte>,
                 start: nat, next: nat, output: nat, into: nat)
    requires Moved(json, mid, s, start, next, output, into) && |mid| == |before|
    requires start < |s| && Dropped(s, start).None? && next == KeptEnd(s, start)
    requires mid[..output] + Minified(s, start) == Minified(s, 0)
    requires forall k :: |s| < k < |mid| ==> mid[k] == before[k]
    ensures Kept(json, before, s, next, into)
  {
    hide Minified, Dropped, KeptEnd;
    MinifiedStep(s, start);
    calc {
      json[..into] + Minified(s, next);
      { assert json[..into] == mid[..output] + s[start..next]; }
      mid[..output] + (s[start..next] + Minified(s, next));
      Minified(s, 0);
    }
  }

  /** cJSON_Minify on a buffer that holds the C string `s`. */
  method Minify(json: array<byte>, ghost s: seq<byte>)
    requires Unread(json, s, 0)
    modifies json
    ensures var t := Minified(s, 0); json[..|t| + 1] == t + [NUL]
    ensures forall k :: |s| < k < json.Length ==> json[k] == old(json[k])
  {
    hide Minified, StringEnd, LineEnd, CommentEnd, Kept, Moved, Unread;
    ghost var before := json[..];
    var input, into := 0, 0;
    NothingKept(json, s);
    ReadNext(json, before, s, input, into);
    while json[input] != NUL
      invariant 0 <= into <= input <= |s| < json.Length && (json[input] == NUL <==> input == |s|)
      invariant Kept(json, before, s, input, into)
      decreases |s| - input
    {
      ReadNext(json, before, s, input, into);
      ghost var start, output, mid := input, into, json[..];
      KeptNow(json, before, s, input, into);
      var b := json[input];
      if b == SPACE || b == TAB || b == CARRIAGE_RETURN || b == NEWLINE {
        input := input + 1;
        KeptOn(json, before, s, start, into, input);
      } else if b == SLASH {
        if json[input + 1] == SLASH {
          input := SkipOneLineComment(json, input, s);
        } else if json[input + 1] == ASTERISK {
          input := SkipMultilineComment(json, input, s);
        } else {
          input := input + 1;
        }
        KeptOn(json, before, s, start, into, input);
      } else {
        if b == QUOTE {
          input, into := MinifyString(json, input, into, s);
        } else {
          NothingMoved(json, s, input, into);
          MoveByte(json, input, into, mid, start, output, s);
          input, into := input + 1, into + 1;
        }
        KeptMore(json, before, mid, s, start, input, output, into);
      }
      ReadNext(json, before, s, input, into);
    }
    KeptNow(json, before, s, input, into);
    MinifiedEnd(s);
    assert json[..into] == Minified(s, 0);
    json[into] := NUL;
  }
}

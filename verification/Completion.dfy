/** The `@` token offered for completion while a line is typed: `at_token_before_cursor` of
    `crates/cli/src/file_mentions.rs`, against what the scanner reports once it is sent. */
module Completion {
  import opened Text
  import opened Mentions

  /** `rfind('@')`. */
  function LastAt(s: string): (r: Option<nat>)
    ensures r.Some? ==> r.value < |s| && s[r.value] == '@'
  {
    if s == "" then None
    else if s[|s| - 1] == '@' then Some(|s| - 1)
    else LastAt(s[..|s| - 1])
  }

  predicate HasWhitespace(s: string) {
    exists i :: 0 <= i < |s| && IsWhitespace(s[i])
  }

  /** The character read one byte in front of the `@`: none when that byte is not the start of
      a character. */
  function ByteBefore(before: string, at: nat): Option<char>
    requires at < |before|
  {
    var b := ByteLen(before[..at]);
    if b == 0 then None
    else
      match CharIndex(before, b - 1)
      case None => None
      case Some(k) => if k < |before| then Some(before[k]) else None
  }

  function TokenIn(before: string): Option<(nat, string)> {
    match LastAt(before)
    case None => None
    case Some(at) =>
      var after := before[at + 1..];
      if !IsAtMentionBoundary(ByteBefore(before, at)) || HasWhitespace(after) then None
      else Some((ByteLen(before[..at]), ReplaceChar(after, '\\', '/')))
  }

  /** The cursor is a byte offset; off a character boundary there is no token. */
  function AtTokenBeforeCursor(line: string, cursorByte: nat): Option<(nat, string)> {
    var cut := if cursorByte < ByteLen(line) then cursorByte else ByteLen(line);
    match CharIndex(line, cut)
    case None => None
    case Some(n) => TokenIn(line[..n])
  }

  lemma {:induction false} WholeIsBoundary(line: string)
    ensures CharIndex(line, ByteLen(line)) == Some(|line|)
  {
    CharIndexOfPrefix(line, "");
    assert line + "" == line;
  }

  /** A cursor behind the line counts as one at its end. */
  lemma CursorBehind(line: string, cursorByte: nat)
    requires cursorByte >= ByteLen(line)
    ensures AtTokenBeforeCursor(line, cursorByte) == TokenIn(line)
  {
    hide ByteLen, CharIndex, TokenIn;
    WholeIsBoundary(line);
    assert line[..|line|] == line;
  }

  // ----- a typed token -----

  predicate AllPath(wide: set<char>, s: string) {
    forall i :: 0 <= i < |s| ==> IsPathChar(wide, s[i])
  }

  /** A non-boundary character of more than one byte stands in front of the `@`. */
  predicate WideNeighbour(lead: string) {
    lead != "" && Utf8Width(lead[|lead| - 1]) > 1 && !IsAtMentionBoundary(Some(lead[|lead| - 1]))
  }

  lemma {:induction false} LastAtIs(lead: string, token: string)
    requires '@' !in token
    ensures LastAt(lead + "@" + token) == Some(|lead|)
  {
    var s := lead + "@" + token;
    if token != "" {
      var shorter := token[..|token| - 1];
      assert s[|s| - 1] == token[|token| - 1] && s[..|s| - 1] == lead + "@" + shorter;
      LastAtIs(lead, shorter);
    }
  }

  /** One byte in front of the end of `lead` sits its last character, unless that is wide. */
  lemma {:induction false} OneByteBack(lead: string, rest: string)
    requires lead != ""
    ensures ByteLen(lead) > 0
    ensures CharIndex(lead + rest, ByteLen(lead) - 1)
      == if Utf8Width(lead[|lead| - 1]) == 1 then Some(|lead| - 1) else None
  {
    assert (lead + rest)[1..] == lead[1..] + rest;
    if |lead| == 1 {
      assert ByteLen(lead[1..]) == 0;
    } else {
      OneByteBack(lead[1..], rest);
      assert lead[1..][|lead[1..]| - 1] == lead[|lead| - 1];
    }
  }

  lemma ByteBeforeIs(lead: string, rest: string)
    requires rest != ""
    ensures ByteBefore(lead + rest, |lead|)
      == if lead != "" && Utf8Width(lead[|lead| - 1]) == 1 then Some(lead[|lead| - 1]) else None
  {
    hide ByteLen, CharIndex;
    assert (lead + rest)[..|lead|] == lead;
    if lead == "" {
      EmptyIsNoBytes();
    } else {
      OneByteBack(lead, rest);
    }
  }

  lemma EmptyIsNoBytes()
    ensures ByteLen("") == 0
  {
  }

  /** What is offered when the cursor stands behind the last `@` and a token: the token, unless it
      holds whitespace, when the `@` starts the line, stands at a boundary, or follows a character
      of more than one byte. */
  lemma TypedToken(lead: string, token: string, tail: string)
    requires '@' !in token
    ensures AtTokenBeforeCursor(lead + "@" + token + tail, ByteLen(lead + "@" + token))
      == if !HasWhitespace(token) && (IsAtMentionBoundary(Before(lead, |lead|)) || WideNeighbour(lead))
         then Some((ByteLen(lead), ReplaceChar(token, '\\', '/'))) else None
  {
    hide ByteLen, CharIndex, ByteBefore, IsAtMentionBoundary, LastAt, HasWhitespace;
    var before := lead + "@" + token;
    CharIndexOfPrefix(before, tail);
    ByteLenConcat(before, tail);
    assert (before + tail)[..|before|] == before;
    LastAtIs(lead, token);
    assert before == lead + ("@" + token);
    ByteBeforeIs(lead, "@" + token);
    assert before[..|lead|] == lead && before[|lead| + 1..] == token;
    StartIsBoundary();
  }

  lemma StartIsBoundary()
    ensures IsAtMentionBoundary(None)
  {
  }

  /** What the scanner reports for an `@`: nothing away from a boundary or without a path
      character behind it, and otherwise the path characters up to the first other one. */
  lemma SentMention(line: string, wide: set<char>, p: nat, e: nat)
    requires p < |line| && line[p] == '@'
    ensures Span(p, e) in Spans(line, wide) <==>
      IsAtMentionBoundary(Before(line, p)) && e == PathEnd(line, wide, p + 1) && e > p + 1
  {
    hide IsPathChar, IsAtMentionBoundary, Spans, PathEnd;
    SpansAreExact(line, wide);
    var spans, s := Spans(line, wide), Span(p, e);
    var whole := Span(p, PathEnd(line, wide, p + 1));
    if s in spans {
      var k :| 0 <= k < |spans| && spans[k] == s;
      assert IsMention(line, wide, spans[k]);
      if whole.to > p + 1 {
        SameStartSameSpan(line, wide, s, whole);
      }
    }
    if IsAtMentionBoundary(Before(line, p)) && whole.to > p + 1 {
      assert StartsMention(line, wide, p) && IsMention(line, wide, whole);
      assert Covers(spans, p);
      var k :| 0 <= k < |spans| && spans[k].from == p;
      SameStartSameSpan(line, wide, spans[k], whole);
    }
  }

  /** The token is a whole path: nothing but path characters, and no further one behind it. */
  predicate IsWholePath(wide: set<char>, token: string, tail: string) {
    token != "" && AllPath(wide, token) && (tail != "" ==> !IsPathChar(wide, tail[0]))
  }

  lemma PathEndsWithToken(wide: set<char>, lead: string, token: string, tail: string)
    requires token != ""
    ensures var line := lead + "@" + token + tail;
            PathEnd(line, wide, |lead| + 1) == |lead| + 1 + |token| <==> IsWholePath(wide, token, tail)
  {
    hide IsPathChar, PathEnd;
    var line, from, to := lead + "@" + token + tail, |lead| + 1, |lead| + 1 + |token|;
    assert forall j :: from <= j < to ==> line[j] == token[j - from];
    assert forall j :: 0 <= j < |token| ==> token[j] == line[from + j];
    assert tail != "" ==> line[to] == tail[0];
  }

  /** A token of the line that is sent is reported when its `@` stands at a boundary and it is a
      whole path. */
  lemma SentToken(wide: set<char>, lead: string, token: string, tail: string)
    ensures Span(|lead|, |lead| + 1 + |token|) in Spans(lead + "@" + token + tail, wide) <==>
      IsAtMentionBoundary(Before(lead, |lead|)) && IsWholePath(wide, token, tail)
  {
    hide IsPathChar, IsAtMentionBoundary, Spans, PathEnd, AllPath;
    var line := lead + "@" + token + tail;
    assert Before(line, |lead|) == Before(lead, |lead|) && line[|lead|] == '@';
    SentMention(line, wide, |lead|, |lead| + 1 + |token|);
    if token != "" {
      PathEndsWithToken(wide, lead, token, tail);
    }
  }

  /** Every token reported was offered. A token is offered and then not reported exactly when it
      holds no whitespace and a wide, non-boundary character touches its `@`, or the `@` stands at
      a boundary and the token is no whole path. */
  lemma OfferedIsExpanded(wide: set<char>, lead: string, token: string, tail: string)
    requires '@' !in token
    ensures
      var line := lead + "@" + token + tail;
      var offered := AtTokenBeforeCursor(line, ByteLen(lead + "@" + token)).Some?;
      var reported := Span(|lead|, |lead| + 1 + |token|) in Spans(line, wide);
      && (reported ==> offered)
      && (offered && !reported <==>
            && !HasWhitespace(token)
            && (WideNeighbour(lead)
                || (IsAtMentionBoundary(Before(lead, |lead|)) && !IsWholePath(wide, token, tail))))
  {
    hide AtTokenBeforeCursor, IsPathChar, AllPath, IsAtMentionBoundary, Spans, ByteLen, ReplaceChar, HasWhitespace;
    TypedToken(lead, token, tail);
    SentToken(wide, lead, token, tail);
    if IsWholePath(wide, token, tail) {
      PathHasNoSpace(wide, token);
    }
    WideIsNoBoundary(lead);
  }

  lemma PathHasNoSpace(wide: set<char>, token: string)
    requires AllPath(wide, token)
    ensures !HasWhitespace(token)
  {
    hide IsPathChar, IsWhitespace;
    forall i | 0 <= i < |token| ensures !IsWhitespace(token[i]) {
      PathCharsKeepClear(wide, token[i]);
    }
  }

  lemma WideIsNoBoundary(lead: string)
    ensures WideNeighbour(lead) ==> !IsAtMentionBoundary(Before(lead, |lead|))
  {
  }

  /** A file name with a comma is offered, and only the part in front of the comma is expanded. */
  lemma CommaExample(wide: set<char>)
    ensures AtTokenBeforeCursor("@a,b", 4) == Some((0, "a,b"))
    ensures Spans("@a,b", wide) == [Span(0, 2)]
  {
    hide AtTokenBeforeCursor, Spans, IsWhitespace;
    var line := "" + "@" + "a,b" + "";
    assert line == "@a,b" && "" + "@" + "a,b" == "@a,b" && ReplaceChar("a,b", '\\', '/') == "a,b";
    CommaBytes();
    TypedToken("", "a,b", "");
    StartIsBoundary();
    CommaSpans(wide);
  }

  lemma CommaBytes()
    ensures ByteLen("@a,b") == 4 && ByteLen("") == 0 && !HasWhitespace("a,b")
  {
    assert "@a,b"[1..] == "a,b" && "a,b"[1..] == ",b" && ",b"[1..] == "b" && "b"[1..] == "";
  }

  lemma CommaSpans(wide: set<char>)
    ensures Spans("@a,b", wide) == [Span(0, 2)]
  {
    hide Spans, Scan;
    var t, spans := "@a,b", [Span(0, 2)];
    assert t[0] == '@' && t[1] == 'a' && t[2] == ',' && t[3] == 'b' && |t| == 4;
    assert IsMention(t, wide, spans[0]) && spans[0].from == 0 && Covers(spans, 0);
    assert forall p: nat :: StartsMention(t, wide, p) ==> p == 0;
    SpansAreExact(t, wide);
    ExactIsUnique(t, wide, Spans(t, wide), spans, 0);
  }
}

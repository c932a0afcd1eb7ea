/** Inline `@path` mentions: the scanner of `crates/cli/src/file_mentions.rs` and
    its exactness. Positions inside the proofs are character indices; what the
    program reports are byte offsets. */
module Mentions {
  import opened Text

  /** The characters `text[from..to]` of one mention, the `@` included. */
  datatype Span = Span(from: nat, to: nat)

  /** One reported mention: a byte range and the path after the `@`. */
  datatype Mention = Mention(start: nat, end: nat, path: string)

  predicate IsAtMentionBoundary(prev: Option<char>) {
    match prev
    case None => true
    case Some(c) => IsWhitespace(c) || c == '(' || c == '[' || c == '{' || c == '<' || c == '"' || c == '\'' || c == '`'
  }

  /** `char::is_alphanumeric`. `wide` holds the alphanumeric characters outside ASCII;
      none of them is also whitespace. */
  predicate IsAlphanumeric(wide: set<char>, c: char) {
    || '0' <= c <= '9' || 'a' <= c <= 'z' || 'A' <= c <= 'Z'
    || (c as int >= 0x80 && !IsWhitespace(c) && c in wide)
  }

  predicate IsPathChar(wide: set<char>, c: char) {
    IsAlphanumeric(wide, c) || c == '/' || c == '.' || c == '_' || c == '-' || c == ':' || c == '\\'
  }

  function Before(text: string, i: nat): Option<char>
    requires i <= |text|
  {
    if i == 0 then None else Some(text[i - 1])
  }

  /** Path characters are neither `@` nor boundaries: no mention starts inside or right
      behind the path of another. */
  lemma PathCharsKeepClear(wide: set<char>, c: char)
    ensures IsPathChar(wide, c) ==> c != '@' && !IsAtMentionBoundary(Some(c)) && !IsWhitespace(c)
  {
  }

  // ----- what a mention is, independent of any scanning order -----

  /** An `@` at a boundary that has at least one path character behind it. */
  predicate StartsMention(text: string, wide: set<char>, p: nat) {
    && p + 1 < |text| && text[p] == '@'
    && IsAtMentionBoundary(Before(text, p)) && IsPathChar(wide, text[p + 1])
  }

  /** `s` covers a mention and its path is maximal. */
  ghost predicate IsMention(text: string, wide: set<char>, s: Span) {
    && s.from + 1 < s.to <= |text|
    && StartsMention(text, wide, s.from)
    && (forall j :: s.from < j < s.to ==> IsPathChar(wide, text[j]))
    && (s.to < |text| ==> !IsPathChar(wide, text[s.to]))
  }

  /** Every span is a mention, spans come in order with a gap between neighbours. */
  ghost predicate WellSpaced(text: string, wide: set<char>, spans: seq<Span>) {
    && (forall k :: 0 <= k < |spans| ==> IsMention(text, wide, spans[k]))
    && (forall j, k :: 0 <= j < k < |spans| ==> spans[j].to < spans[k].from)
  }

  ghost predicate Covers(spans: seq<Span>, p: nat) {
    exists k :: 0 <= k < |spans| && spans[k].from == p
  }

  ghost predicate CoversFrom(text: string, wide: set<char>, spans: seq<Span>, i: nat) {
    forall p: nat :: i <= p && StartsMention(text, wide, p) ==> Covers(spans, p)
  }

  /** Sound, ordered, strictly separated and complete. */
  ghost predicate Exact(text: string, wide: set<char>, spans: seq<Span>) {
    WellSpaced(text, wide, spans) && CoversFrom(text, wide, spans, 0)
  }

  // ----- the scan -----

  function PathEnd(text: string, wide: set<char>, i: nat): (e: nat)
    requires i <= |text|
    ensures i <= e <= |text|
    ensures forall j :: i <= j < e ==> IsPathChar(wide, text[j])
    ensures e < |text| ==> !IsPathChar(wide, text[e])
    decreases |text| - i
  {
    if i < |text| && IsPathChar(wide, text[i]) then PathEnd(text, wide, i + 1) else i
  }

  function Scan(text: string, wide: set<char>, i: nat): (spans: seq<Span>)
    requires i <= |text|
    ensures forall k :: 0 <= k < |spans| ==> i <= spans[k].from && spans[k].from + 1 < spans[k].to <= |text|
    decreases |text| - i
  {
    if i == |text| then []
    else if text[i] == '@' && IsAtMentionBoundary(Before(text, i)) then
      var e := PathEnd(text, wide, i + 1);
      (if e > i + 1 then [Span(i, e)] else []) + Scan(text, wide, e)
    else Scan(text, wide, i + 1)
  }

  function Spans(text: string, wide: set<char>): seq<Span> {
    Scan(text, wide, 0)
  }

  /** One turn of the scan at a boundary `@` whose path stops at `e`. */
  lemma ScanOver(text: string, wide: set<char>, i: nat, e: nat)
    requires i < e <= |text|
    requires text[i] == '@' && IsAtMentionBoundary(Before(text, i))
    requires forall j :: i < j < e ==> IsPathChar(wide, text[j])
    requires e < |text| ==> !IsPathChar(wide, text[e])
    ensures Scan(text, wide, i) == (if e > i + 1 then [Span(i, e)] else []) + Scan(text, wide, e)
  {
    hide IsPathChar, IsAtMentionBoundary;
    assert PathEnd(text, wide, i + 1) == e;
  }

  lemma ScanStops(text: string, wide: set<char>)
    ensures Scan(text, wide, |text|) == []
  {
  }

  /** One turn of the scan at any other character. */
  lemma ScanPast(text: string, wide: set<char>, i: nat)
    requires i < |text| && !(text[i] == '@' && IsAtMentionBoundary(Before(text, i)))
    ensures Scan(text, wide, i) == Scan(text, wide, i + 1)
  {
  }

  lemma CoversCons(s: Span, rest: seq<Span>, p: nat)
    ensures Covers([s] + rest, p) <==> s.from == p || Covers(rest, p)
  {
    var all := [s] + rest;
    if s.from == p {
      assert all[0].from == p;
    }
    if Covers(rest, p) {
      var k :| 0 <= k < |rest| && rest[k].from == p;
      assert all[k + 1].from == p;
    }
  }

  lemma ConsIsComplete(text: string, wide: set<char>, s: Span, rest: seq<Span>)
    requires IsMention(text, wide, s) && CoversFrom(text, wide, rest, s.to)
    ensures CoversFrom(text, wide, [s] + rest, s.from)
  {
    hide IsPathChar, IsAtMentionBoundary, Covers;
    forall p: nat | s.from <= p && StartsMention(text, wide, p) ensures Covers([s] + rest, p) {
      CoversCons(s, rest, p);
      if s.from < p < s.to {
        PathCharsKeepClear(wide, text[p]);
      }
    }
  }

  lemma ConsIsWellSpaced(text: string, wide: set<char>, s: Span, rest: seq<Span>)
    requires IsMention(text, wide, s) && WellSpaced(text, wide, rest)
    requires forall k :: 0 <= k < |rest| ==> s.to <= rest[k].from
    ensures WellSpaced(text, wide, [s] + rest)
  {
    hide IsPathChar, IsAtMentionBoundary;
    forall k | 0 <= k < |rest| ensures s.to < rest[k].from {
      assert IsMention(text, wide, rest[k]) && IsPathChar(wide, text[s.to - 1]);
      PathCharsKeepClear(wide, text[s.to - 1]);
    }
  }

  lemma {:induction false} ScanIsExact(text: string, wide: set<char>, i: nat)
    requires i <= |text|
    ensures WellSpaced(text, wide, Scan(text, wide, i))
    ensures CoversFrom(text, wide, Scan(text, wide, i), i)
    decreases |text| - i
  {
    ScanStops(text, wide);
    hide Scan, PathEnd, IsPathChar, IsAtMentionBoundary, Covers;
    if i < |text| {
      if text[i] == '@' && IsAtMentionBoundary(Before(text, i)) {
        var e := PathEnd(text, wide, i + 1);
        ScanIsExact(text, wide, e);
        ScanOver(text, wide, i, e);
        if e > i + 1 {
          ConsIsWellSpaced(text, wide, Span(i, e), Scan(text, wide, e));
          ConsIsComplete(text, wide, Span(i, e), Scan(text, wide, e));
        } else {
          assert Scan(text, wide, i) == Scan(text, wide, e);
        }
      } else {
        ScanIsExact(text, wide, i + 1);
        ScanPast(text, wide, i);
      }
    }
  }

  /** The scanner reports exactly the mentions of the text. */
  lemma SpansAreExact(text: string, wide: set<char>)
    ensures Exact(text, wide, Spans(text, wide))
  {
    ScanIsExact(text, wide, 0);
  }

  /** Exactness leaves no freedom: any two exact lists of spans are the same list. */
  lemma {:induction false} ExactIsUnique(text: string, wide: set<char>, a: seq<Span>, b: seq<Span>, i: nat)
    requires WellSpaced(text, wide, a) && WellSpaced(text, wide, b)
    requires forall k :: 0 <= k < |a| ==> i <= a[k].from
    requires forall k :: 0 <= k < |b| ==> i <= b[k].from
    requires CoversFrom(text, wide, a, i) && CoversFrom(text, wide, b, i)
    ensures a == b
    decreases |a|
  {
    hide IsMention, StartsMention, Covers;
    if a == [] || b == [] {
      if b != [] { FirstOf(text, wide, b); }
      if a != [] { FirstOf(text, wide, a); }
      if b != [] { CoveredNotEmpty(text, wide, a, b[0], i); }
      if a != [] { CoveredNotEmpty(text, wide, b, a[0], i); }
    } else {
      FirstsAgree(text, wide, a, b, i);
      FirstsAgree(text, wide, b, a, i);
      FirstOf(text, wide, a);
      FirstOf(text, wide, b);
      SameStartSameSpan(text, wide, a[0], b[0]);
      CoversTail(text, wide, a, i);
      CoversTail(text, wide, b, i);
      ExactIsUnique(text, wide, a[1..], b[1..], a[0].to);
      assert a == [a[0]] + a[1..] && b == [b[0]] + b[1..];
    }
  }

  lemma FirstOf(text: string, wide: set<char>, a: seq<Span>)
    requires a != [] && WellSpaced(text, wide, a)
    ensures IsMention(text, wide, a[0])
  {
  }

  lemma CoveredNotEmpty(text: string, wide: set<char>, a: seq<Span>, s: Span, i: nat)
    requires CoversFrom(text, wide, a, i) && i <= s.from && IsMention(text, wide, s)
    ensures a != []
  {
    assert StartsMention(text, wide, s.from);
  }

  lemma SameStartSameSpan(text: string, wide: set<char>, a: Span, b: Span)
    requires IsMention(text, wide, a) && IsMention(text, wide, b) && a.from == b.from
    ensures a == b
  {
    if a.to != b.to {
      assert false;
    }
  }

  lemma FirstsAgree(text: string, wide: set<char>, a: seq<Span>, b: seq<Span>, i: nat)
    requires a != [] && b != []
    requires WellSpaced(text, wide, a) && WellSpaced(text, wide, b)
    requires i <= a[0].from
    requires CoversFrom(text, wide, b, i)
    ensures b[0].from <= a[0].from
  {
    assert IsMention(text, wide, a[0]) && Covers(b, a[0].from);
    var k :| 0 <= k < |b| && b[k].from == a[0].from;
    if k > 0 {
      assert IsMention(text, wide, b[0]);
      assert b[0].to < b[k].from;
    }
  }

  lemma CoversTail(text: string, wide: set<char>, a: seq<Span>, i: nat)
    requires a != [] && WellSpaced(text, wide, a) && i <= a[0].from && CoversFrom(text, wide, a, i)
    ensures WellSpaced(text, wide, a[1..])
    ensures forall k :: 0 <= k < |a[1..]| ==> a[0].to <= a[1..][k].from
    ensures CoversFrom(text, wide, a[1..], a[0].to)
  {
    assert IsMention(text, wide, a[0]);
    forall p: nat | a[0].to <= p && StartsMention(text, wide, p)
      ensures Covers(a[1..], p)
    {
      CoversCons(a[0], a[1..], p);
      assert a == [a[0]] + a[1..];
    }
  }

  // ----- what the program reports -----

  function PathOf(text: string, s: Span): string
    requires s.from < s.to <= |text|
  {
    ReplaceChar(text[s.from + 1..s.to], '\\', '/')
  }

  function MentionOf(text: string, s: Span): Mention
    requires s.from < s.to <= |text|
  {
    Mention(ByteLen(text[..s.from]), ByteLen(text[..s.to]), PathOf(text, s))
  }

  predicate InText(text: string, spans: seq<Span>) {
    forall k :: 0 <= k < |spans| ==> spans[k].from < spans[k].to <= |text|
  }

  function MentionsOf(text: string, spans: seq<Span>): (ms: seq<Mention>)
    requires InText(text, spans)
    ensures |ms| == |spans|
    ensures forall k :: 0 <= k < |ms| ==> ms[k] == MentionOf(text, spans[k])
  {
    seq(|spans|, k requires 0 <= k < |spans| => MentionOf(text, spans[k]))
  }

  /** `str::char_indices`. */
  function CharIndices(text: string): (cs: seq<(nat, char)>)
    ensures |cs| == |text|
    ensures forall k :: 0 <= k < |text| ==> cs[k] == (ByteLen(text[..k]), text[k])
  {
    seq(|text|, k requires 0 <= k < |text| => (ByteLen(text[..k]), text[k]))
  }

  method ParseAtMentions(text: string, wide: set<char>) returns (out: seq<Mention>)
    ensures out == MentionsOf(text, Spans(text, wide))
  {
    ScanStops(text, wide);
    hide Scan, PathEnd, IsPathChar, IsAtMentionBoundary, ByteLen, CharIndices, MentionsOf, ReplaceChar;
    assert MentionsOf(text, []) == [];
    out := [];
    var chars := CharIndices(text);
    var i := 0;
    ghost var done: seq<Span> := [];
    while i < |chars|
      invariant i <= |chars|
      invariant Spans(text, wide) == done + Scan(text, wide, i)
      invariant InText(text, done) && out == MentionsOf(text, done)
      decreases |chars| - i
    {
      var (byteIdx, c) := chars[i];
      if c == '@' {
        var prev := if i > 0 then Some(chars[i - 1].1) else None;
        if IsAtMentionBoundary(prev) {
          var start := byteIdx;
          ghost var at := i;
          i := i + 1;
          var pathStart := i;
          while i < |chars| && IsPathChar(wide, chars[i].1)
            invariant pathStart <= i <= |chars|
            invariant forall j :: pathStart <= j < i ==> IsPathChar(wide, text[j])
          {
            i := i + 1;
          }
          ScanOver(text, wide, at, i);
          ghost var rest := Scan(text, wide, i);
          assert i > pathStart ==> done + ([Span(at, i)] + rest) == (done + [Span(at, i)]) + rest;
          assert [] + rest == rest;
          if i > pathStart {
            var endByte := if i < |chars| then chars[i].0 else ByteLen(text);
            var path := ReplaceChar(text[pathStart..i], '\\', '/');
            assert text[..|text|] == text;
            PathCharsKeepClear(wide, text[pathStart]);
            if path != "" && path[0] != '@' {
              out := AddMention(text, done, out, Span(at, i), Mention(start, endByte, path));
              done := done + [Span(at, i)];
            }
          }
          continue;
        }
      }
      ScanPast(text, wide, i);
      i := i + 1;
    }
  }

  method AddMention(text: string, ghost done: seq<Span>, out: seq<Mention>, ghost s: Span, m: Mention)
    returns (r: seq<Mention>)
    requires InText(text, done) && out == MentionsOf(text, done)
    requires s.from < s.to <= |text| && m == MentionOf(text, s)
    ensures InText(text, done + [s]) && r == MentionsOf(text, done + [s])
  {
    hide ByteLen, PathOf;
    r := out + [m];
  }
}

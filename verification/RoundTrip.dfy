/** Compacting against expanding: what `user_event_preview` makes of a text whose mentions
    were expanded, and exactly when it gives the text back. */
module RoundTrip {
  import opened Text
  import opened Mentions
  import opened Expansion
  import opened Compaction

  // ----- finding the parts of one block -----

  lemma FindNewline(path: string, x: string)
    requires '\n' !in path
    ensures Find(path + ("\n" + x), "\n") == Some(|path|)
  {
    var s := path + ("\n" + x);
    assert s[|path|..|path| + 1] == "\n";
    forall i: nat | i < |path| ensures !MatchAt(s, "\n", i) {
      assert s[i] == path[i] && s[i..i + 1] == [path[i]];
    }
    FindIs(s, "\n", |path|);
  }

  lemma FindFence(body: string, x: string)
    requires !Contains(body, FENCE)
    ensures Find(body + (FENCE + x), FENCE) == Some(|body|)
  {
    var s := body + (FENCE + x);
    assert s[|body|..|body| + 4] == FENCE;
    forall i: nat | i < |body| ensures !MatchAt(s, FENCE, i) {
      if i + 4 <= |body| {
        assert s[i..i + 4] == body[i..i + 4];
        assert !MatchAt(body, FENCE, i);
      } else {
        assert s[i..i + 4][|body| - i] == s[|body|] == '\n';
        assert FENCE[|body| - i] == '`';
      }
    }
    FindIs(s, FENCE, |body|);
  }

  lemma FindHeader(gap: string, x: string)
    requires !Contains(gap, FILE_HEADER)
    ensures Find((gap + "\n\n") + (FILE_HEADER + x), FILE_HEADER) == Some(|gap| + 2)
  {
    var n := |gap|;
    var s := (gap + "\n\n") + (FILE_HEADER + x);
    assert s[n + 2..n + 10] == FILE_HEADER;
    assert s[n] == '\n' && s[n + 1] == '\n';
    assert forall k :: 0 <= k < 8 ==> FILE_HEADER[k] != '\n';
    forall i: nat | i < n + 2 ensures !MatchAt(s, FILE_HEADER, i) {
      if i + 8 <= n {
        assert s[i..i + 8] == gap[i..i + 8];
        assert !MatchAt(gap, FILE_HEADER, i);
      } else {
        var k := if i <= n then n - i else n + 1 - i;
        assert s[i..i + 8][k] == s[i + k] == '\n';
      }
    }
    FindIs(s, FILE_HEADER, n + 2);
  }

  function BlockTail(path: string, body: string, tail: string): string {
    path + ("\n" + (body + (FENCE + tail)))
  }

  lemma BlockShape(path: string, body: string, tail: string)
    ensures Block(path, body) + tail == "\n\n" + (FILE_HEADER + BlockTail(path, body, "\n\n" + tail))
  {
    var a, b, c := "\n\n" + FILE_HEADER, path + "\n" + body + FENCE, "\n\n" + tail;
    assert BlockTail(path, body, c) == b + c;
    assert Block(path, body) == a + b + "\n\n";
    assert a + b + "\n\n" + tail == a + (b + c);
  }

  /** The loop folds one block and goes on with what follows it. */
  lemma OneBlock(out: string, pre: string, path: string, body: string, tail: string)
    requires Find(pre + (FILE_HEADER + BlockTail(path, body, tail)), FILE_HEADER) == Some(|pre|)
    requires '\n' !in path && !Contains(body, FENCE)
    ensures
      var right := TrimStart(tail);
      CompactFrom(out, pre + (FILE_HEADER + BlockTail(path, body, tail)))
      == CompactFrom(Spaced(Rejoined(out + pre, Trim(path)), right), right)
  {
    hide Find, Trim, TrimStart, TrimEnd, CompactFrom, Spaced, Rejoined, Contains;
    var x := BlockTail(path, body, tail);
    var rest := pre + (FILE_HEADER + x);
    var inner := body + (FENCE + tail);
    assert rest[..|pre|] == pre;
    assert rest[|pre| + |FILE_HEADER|..] == x;
    FindNewline(path, inner);
    assert x[..|path|] == path;
    assert x[|path| + 1..] == inner;
    FindFence(body, tail);
    assert inner[|body| + |FENCE|..] == tail;
    CompactTurn(out, rest, |pre|, |path|, |body|);
  }

  // ----- what expanding and compacting make of the gaps between mentions -----

  function HeadGap(g: string): string {
    var t := TrimEnd(g);
    if t == "" then "" else t + " "
  }

  function MidGap(g: string): string {
    var t := Trim(g);
    if t == "" then " " else " " + t + " "
  }

  function TailGap(g: string): string {
    var t := TrimStart(g);
    if t == "" then "" else " " + t
  }

  /** Everything behind the first mention: gaps are trimmed and set between single spaces. */
  function TailForm(text: string, spans: seq<Span>, pos: nat): string
    requires InOrder(text, spans, pos)
    decreases |spans|
  {
    if spans == [] then TailGap(text[pos..])
    else
      assert InOrder(text, spans[1..], spans[0].to);
      MidGap(text[pos..spans[0].from]) + "@" + PathOf(text, spans[0]) + TailForm(text, spans[1..], spans[0].to)
  }

  function Tidied(text: string, spans: seq<Span>): string
    requires InOrder(text, spans, 0)
  {
    if spans == [] then text
    else
      assert InOrder(text, spans[1..], spans[0].to);
      HeadGap(text[..spans[0].from]) + "@" + PathOf(text, spans[0]) + TailForm(text, spans[1..], spans[0].to)
  }

  // ----- compacting the expansion gives the tidied text -----

  ghost predicate Folds(f: string -> string, path: string) {
    exists body :: f(path) == Block(path, body) && !Contains(body, FENCE)
  }

  ghost predicate AllFold(text: string, spans: seq<Span>, f: string -> string)
    requires InText(text, spans)
  {
    forall k :: 0 <= k < |spans| ==> Folds(f, PathOf(text, spans[k]))
  }

  lemma PathIsPlain(text: string, wide: set<char>, s: Span)
    requires IsMention(text, wide, s)
    ensures var p := PathOf(text, s);
            && p != "" && '\n' !in p && Trim(p) == p
            && !IsWhitespace(p[|p| - 1])
  {
    hide IsPathChar, StartsMention, IsWhitespace;
    var p := PathOf(text, s);
    assert forall k :: 0 <= k < |p| ==> p[k] == (if text[s.from + 1 + k] == '\\' then '/' else text[s.from + 1 + k]);
    forall k | 0 <= k < |p| ensures p[k] != '\n' && !IsWhitespace(p[k]) {
      PathCharsKeepClear(wide, text[s.from + 1 + k]);
      SlashIsNoSpace();
    }
    TrimStartIs("", p);
    TrimEndIs(p, "");
    assert "" + p == p && p + "" == p;
  }

  lemma SlashIsNoSpace()
    ensures !IsWhitespace('/') && IsWhitespace('\n') && IsWhitespace(' ') && !IsWhitespace('@') && !IsWhitespace('`')
  {
  }

  /** Leading whitespace of a gap, and of the block behind it, disappears into the trim. */
  lemma TrimStartOver(g: string, x: string)
    requires x != "" && !IsWhitespace(x[0])
    ensures TrimStart(g + ("\n\n" + x)) == if TrimStart(g) == "" then x else (TrimStart(g) + "\n\n") + x
  {
    hide TrimStart, IsWhitespace;
    SlashIsNoSpace();
    var w := SplitStart(g);
    var t := TrimStart(g);
    if t == "" {
      assert g + ("\n\n" + x) == (w + "\n\n") + x;
      TrimStartIs(w + "\n\n", x);
    } else {
      var y := (t + "\n\n") + x;
      assert g + ("\n\n" + x) == w + y;
      assert y[0] == t[0];
      TrimStartIs(w, y);
    }
  }

  lemma TrimStartOfBlank(x: string)
    ensures TrimStart("\n\n" + x) == TrimStart(x)
  {
    hide TrimStart, IsWhitespace;
    SlashIsNoSpace();
    var w := SplitStart(x);
    assert "\n\n" + x == ("\n\n" + w) + TrimStart(x);
    TrimStartIs("\n\n" + w, TrimStart(x));
  }

  /** The gap in front of a block, as the trimmed rest shows it. */
  function Lead(gap: string): string {
    if TrimStart(gap) == "" then "" else TrimStart(gap) + "\n\n"
  }

  /** The gap in front of a block, joined to what is already there. */
  lemma RejoinGap(acc: string, g: string, path: string)
    requires acc != "" && !IsWhitespace(acc[|acc| - 1])
    ensures Rejoined((acc + " ") + Lead(g), path) == acc + (MidGap(g) + "@" + path)
  {
    hide TrimStart, TrimEnd, IsWhitespace;
    SlashIsNoSpace();
    var t := TrimStart(g);
    var _ := SplitStart(g);
    if t == "" {
      assert (acc + " ") + "" == acc + " ";
      TrimEndIs(acc, " ");
      assert TrimEnd("") == "" by { TrimEndIs("", ""); assert "" + "" == ""; }
      assert acc + " " + "@" + path == acc + (" " + "@" + path);
    } else {
      var w := SplitEnd(t);
      var u := TrimEnd(t);
      TrimOfTrimmed(g);
      var left := (acc + " ") + u;
      assert (acc + " ") + (t + "\n\n") == left + (w + "\n\n");
      TrimEndIs(left, w + "\n\n");
      assert left + " " + "@" + path == acc + (" " + u + " " + "@" + path);
    }
  }

  lemma StepShape(text: string, spans: seq<Span>, pos: nat, f: string -> string, body: string)
    requires spans != [] && InOrder(text, spans, pos) && spans[0].from < spans[0].to <= |text|
    requires f(PathOf(text, spans[0])) == Block(PathOf(text, spans[0]), body)
    ensures InOrder(text, spans[1..], spans[0].to)
    ensures
      var p := PathOf(text, spans[0]);
      Woven(text, spans, pos, f)
      == text[pos..spans[0].from]
         + ("\n\n" + (FILE_HEADER + BlockTail(p, body, "\n\n" + Woven(text, spans[1..], spans[0].to, f))))
  {
    hide PathOf, BlockTail, Block;
    var p := PathOf(text, spans[0]);
    var gap, rest := text[pos..spans[0].from], Woven(text, spans[1..], spans[0].to, f);
    BlockShape(p, body, rest);
    assert Woven(text, spans, pos, f) == gap + Block(p, body) + rest;
    assert gap + Block(p, body) + rest == gap + (Block(p, body) + rest);
  }

  lemma GapsHaveNoHeader(text: string, from: nat, to: nat)
    requires from <= to <= |text| && !Contains(text, FILE_HEADER)
    ensures !Contains(text[from..to], FILE_HEADER)
    ensures !Contains(TrimStart(text[from..to]), FILE_HEADER)
  {
    hide Contains, IsWhitespace;
    var g := text[from..to];
    if Contains(g, FILE_HEADER) {
      ContainsInSlice(text, from, to, FILE_HEADER);
      assert false;
    }
    var k := SkipWhitespace(g, 0);
    assert TrimStart(g) == g[k..|g|];
    if Contains(TrimStart(g), FILE_HEADER) {
      ContainsInSlice(g, k, |g|, FILE_HEADER);
      assert false;
    }
  }

  /** Compacting what follows a mention, `acc` being everything up to and including it. */
  lemma CompactTail(
    acc: string, text: string, wide: set<char>, spans: seq<Span>, pos: nat, f: string -> string)
    requires pos <= |text| && (spans != [] ==> pos <= spans[0].from)
    requires WellSpaced(text, wide, spans) && InOrder(text, spans, pos) && InText(text, spans)
    requires AllFold(text, spans, f) && !Contains(text, FILE_HEADER)
    requires acc != "" && !IsWhitespace(acc[|acc| - 1])
    ensures var rest := TrimStart(Woven(text, spans, pos, f));
            CompactFrom(Spaced(acc, rest), rest) == acc + TailForm(text, spans, pos)
    decreases |spans|, 1
  {
    hide TrimStart, IsWhitespace, Contains, CompactFrom, IsMention, PathOf, Block, MidGap;
    if spans == [] {
      var rest := TrimStart(text[pos..]);
      GapsHaveNoHeader(text, pos, |text|);
      assert text[pos..|text|] == text[pos..];
      NoHeaderNoTurn(Spaced(acc, rest), rest);
      assert Spaced(acc, rest) + rest == acc + TailGap(text[pos..]);
    } else {
      CompactMention(acc, text, wide, spans, pos, f);
    }
  }

  lemma NoHeaderNoTurn(out: string, rest: string)
    requires !Contains(rest, FILE_HEADER)
    ensures CompactFrom(out, rest) == out + rest
  {
    if Find(rest, FILE_HEADER).Some? {
      assert false;
    }
    CompactStops(out, rest);
  }

  /** How the rest looks to the loop when a mention comes next. */
  lemma RestShape(text: string, spans: seq<Span>, pos: nat, f: string -> string, body: string)
    requires spans != [] && InOrder(text, spans, pos) && pos <= spans[0].from < spans[0].to <= |text|
    requires f(PathOf(text, spans[0])) == Block(PathOf(text, spans[0]), body)
    ensures InOrder(text, spans[1..], spans[0].to)
    ensures
      var tail := "\n\n" + Woven(text, spans[1..], spans[0].to, f);
      TrimStart(Woven(text, spans, pos, f))
      == Lead(text[pos..spans[0].from]) + (FILE_HEADER + BlockTail(PathOf(text, spans[0]), body, tail))
  {
    hide TrimStart, IsWhitespace, PathOf, Block, BlockTail, Woven;
    StepShape(text, spans, pos, f, body);
    var x := FILE_HEADER + BlockTail(PathOf(text, spans[0]), body, "\n\n" + Woven(text, spans[1..], spans[0].to, f));
    SlashIsNoSpace();
    assert x[0] == '`';
    TrimStartOver(text[pos..spans[0].from], x);
    assert "" + x == x;
  }

  lemma CompactMention(
    acc: string, text: string, wide: set<char>, spans: seq<Span>, pos: nat, f: string -> string)
    requires spans != [] && pos <= spans[0].from
    requires WellSpaced(text, wide, spans) && InOrder(text, spans, pos) && InText(text, spans)
    requires AllFold(text, spans, f) && !Contains(text, FILE_HEADER)
    requires acc != "" && !IsWhitespace(acc[|acc| - 1])
    ensures var rest := TrimStart(Woven(text, spans, pos, f));
            CompactFrom(Spaced(acc, rest), rest) == acc + TailForm(text, spans, pos)
    decreases |spans|, 0
  {
    hide TrimStart, IsWhitespace, Contains, CompactFrom, IsMention, PathOf, Block, MidGap, Rejoined, Trim, Find, Lead,
      Woven, TailForm, WellSpaced, BlockTail;
    var s, tail := spans[0], spans[1..];
    var p, gap := PathOf(text, s), text[pos..s.from];
    FirstIsMention(text, wide, spans);
    PathIsPlain(text, wide, s);
    assert Folds(f, PathOf(text, spans[0]));
    var body :| f(p) == Block(p, body) && !Contains(body, FENCE);
    RestShape(text, spans, pos, f, body);
    var after := "\n\n" + Woven(text, tail, s.to, f);
    HeaderComesFirst(text, pos, s.from, BlockTail(p, body, after));
    OneBlock(acc + " ", Lead(gap), p, body, after);
    RejoinGap(acc, gap, p);
    var acc' := acc + (MidGap(gap) + "@" + p);
    assert acc'[|acc'| - 1] == p[|p| - 1];
    TrimStartOfBlank(Woven(text, tail, s.to, f));
    AllFoldTail(text, wide, spans, f);
    CompactTail(acc', text, wide, tail, s.to, f);
    TailFormStep(acc, text, spans, pos);
  }

  lemma FirstIsMention(text: string, wide: set<char>, spans: seq<Span>)
    requires spans != [] && WellSpaced(text, wide, spans)
    ensures IsMention(text, wide, spans[0])
  {
  }

  lemma TailFormStep(acc: string, text: string, spans: seq<Span>, pos: nat)
    requires spans != [] && InOrder(text, spans, pos)
    ensures InOrder(text, spans[1..], spans[0].to)
    ensures acc + TailForm(text, spans, pos)
         == acc + (MidGap(text[pos..spans[0].from]) + "@" + PathOf(text, spans[0]))
            + TailForm(text, spans[1..], spans[0].to)
  {
    hide MidGap, PathOf;
    var m := MidGap(text[pos..spans[0].from]) + "@" + PathOf(text, spans[0]);
    var t := TailForm(text, spans[1..], spans[0].to);
    assert acc + (m + t) == acc + m + t;
  }

  lemma HeaderComesFirst(text: string, from: nat, to: nat, x: string)
    requires from <= to <= |text| && !Contains(text, FILE_HEADER)
    ensures
      var pre := Lead(text[from..to]);
      Find(pre + (FILE_HEADER + x), FILE_HEADER) == Some(|pre|)
  {
    hide TrimStart, Contains;
    var gap := text[from..to];
    GapsHaveNoHeader(text, from, to);
    if TrimStart(gap) == "" {
      var s := "" + (FILE_HEADER + x);
      assert s[0..8] == FILE_HEADER;
      FindIs(s, FILE_HEADER, 0);
    } else {
      FindHeader(TrimStart(gap), x);
    }
  }

  lemma AllFoldTail(text: string, wide: set<char>, spans: seq<Span>, f: string -> string)
    requires spans != [] && WellSpaced(text, wide, spans) && InText(text, spans) && AllFold(text, spans, f)
    ensures WellSpaced(text, wide, spans[1..]) && InText(text, spans[1..]) && AllFold(text, spans[1..], f)
    ensures spans[1..] != [] ==> spans[0].to <= spans[1..][0].from
  {
    hide IsMention, PathOf, Folds;
    assert forall k :: 0 <= k < |spans[1..]| ==> spans[1..][k] == spans[k + 1];
  }

  /** Compacting the expansion of a text tidies the whitespace round its mentions and
      changes nothing else. */
  lemma CompactExpansion(text: string, wide: set<char>, f: string -> string)
    requires InOrder(text, Spans(text, wide), 0) && InText(text, Spans(text, wide))
    requires AllFold(text, Spans(text, wide), f) && !Contains(text, FILE_HEADER)
    ensures Compacted(Woven(text, Spans(text, wide), 0, f)) == Squeeze(Tidied(text, Spans(text, wide)))
  {
    hide TrimStart, TrimEnd, IsWhitespace, Contains, CompactFrom, IsMention, PathOf, Block, Find, Scan, Squeeze;
    var spans := Spans(text, wide);
    SpansAreExact(text, wide);
    if spans == [] {
      assert text[0..] == text;
      NoHeaderNoTurn("", text);
      assert "" + text == text;
    } else {
      var s, tail := spans[0], spans[1..];
      var p, gap := PathOf(text, s), text[0..s.from];
      PathIsPlain(text, wide, s);
      assert Folds(f, PathOf(text, spans[0]));
      var body :| f(p) == Block(p, body) && !Contains(body, FENCE);
      StepShape(text, spans, 0, f, body);
      var after := "\n\n" + Woven(text, tail, s.to, f);
      var x := BlockTail(p, body, after);
      GapsHaveNoHeader(text, 0, s.from);
      FindHeader(gap, x);
      assert gap + ("\n\n" + (FILE_HEADER + x)) == (gap + "\n\n") + (FILE_HEADER + x);
      OneBlock("", gap + "\n\n", p, body, after);
      RejoinHead(gap, p);
      var acc := HeadGap(gap) + "@" + p;
      assert acc[|acc| - 1] == p[|p| - 1];
      TrimStartOfBlank(Woven(text, tail, s.to, f));
      AllFoldTail(text, wide, spans, f);
      CompactTail(acc, text, wide, tail, s.to, f);
      assert text[..s.from] == gap;
    }
  }

  lemma RejoinHead(g: string, path: string)
    ensures Rejoined("" + (g + "\n\n"), path) == HeadGap(g) + "@" + path
  {
    hide TrimEnd, IsWhitespace;
    SlashIsNoSpace();
    var w := SplitEnd(g);
    assert "" + (g + "\n\n") == TrimEnd(g) + (w + "\n\n");
    TrimEndIs(TrimEnd(g), w + "\n\n");
  }

  // ----- when the text comes back unchanged -----

  /** The gap in front of the first mention: empty, or ending in exactly one space. */
  predicate CleanHead(g: string) {
    g == "" || (|g| >= 2 && g[|g| - 1] == ' ' && !IsWhitespace(g[|g| - 2]))
  }

  /** A gap between two mentions: one space, or text set off by one space on either side. */
  predicate CleanMid(g: string) {
    g == " " || (|g| >= 3 && g[0] == ' ' && !IsWhitespace(g[1]) && g[|g| - 1] == ' ' && !IsWhitespace(g[|g| - 2]))
  }

  /** The gap behind the last mention: empty, or beginning with exactly one space. */
  predicate CleanTail(g: string) {
    g == "" || (|g| >= 2 && g[0] == ' ' && !IsWhitespace(g[1]))
  }

  predicate CleanBehind(text: string, spans: seq<Span>, pos: nat)
    requires InOrder(text, spans, pos)
    decreases |spans|
  {
    if spans == [] then CleanTail(text[pos..])
    else
      assert InOrder(text, spans[1..], spans[0].to);
      && CleanMid(text[pos..spans[0].from])
      && '\\' !in text[spans[0].from + 1..spans[0].to]
      && CleanBehind(text, spans[1..], spans[0].to)
  }

  /** Single spaces round every mention, no backslash in a path, no three newlines in a row. */
  predicate Tidy(text: string, wide: set<char>) {
    var spans := Spans(text, wide);
    SpansInOrder(text, wide);
    !HasBlankRun(text) && CleanAll(text, spans)
  }

  /** What the expansion needs of the text and the files: no block header in the text, every
      mentioned file readable, and no closing fence inside a file body. */
  ghost predicate Compactable(text: string, ws: Workspace, wide: set<char>, maxBytes: nat) {
    SpansInOrder(text, wide);
    && !Contains(text, FILE_HEADER)
    && forall k :: 0 <= k < |Spans(text, wide)| ==>
         var body := FileBody(ws, maxBytes, PathOf(text, Spans(text, wide)[k]));
         body.Some? && !Contains(body.value, FENCE)
  }

  lemma SamePath(text: string, s: Span)
    requires s.from < s.to <= |text|
    ensures |PathOf(text, s)| == s.to - s.from - 1
    ensures PathOf(text, s) == text[s.from + 1..s.to] <==> '\\' !in text[s.from + 1..s.to]
  {
    var raw, p := text[s.from + 1..s.to], PathOf(text, s);
    if '\\' in raw {
      var k :| 0 <= k < |raw| && raw[k] == '\\';
      assert p[k] == '/';
    }
  }

  /** The tidied gap is the gap itself exactly when the gap is clean. */
  lemma CleanMidIs(g: string)
    ensures MidGap(g) == g <==> CleanMid(g)
  {
    hide TrimStart, TrimEnd, IsWhitespace;
    SlashIsNoSpace();
    if CleanMid(g) && g != " " {
      var t := g[1..|g| - 1];
      assert g == " " + (t + " ");
      assert t[0] == g[1] && t[|t| - 1] == g[|g| - 2];
      TrimStartIs(" ", t + " ");
      TrimEndIs(t, " ");
    }
    if g == " " {
      TrimStartIs(" ", "");
      TrimEndIs("", "");
      assert "" + "" == "" && " " + "" == " ";
    }
    if MidGap(g) == g && g != " " {
      TrimIsPlain(g);
      var t := Trim(g);
      assert g[1] == t[0] && g[|g| - 2] == t[|t| - 1];
    }
  }

  lemma SplitTrim(g: string) returns (a: string, b: string)
    requires Trim(g) != ""
    ensures AllWhitespace(a) && AllWhitespace(b) && g == a + Trim(g) + b
  {
    hide TrimStart, TrimEnd, IsWhitespace;
    a := SplitStart(g);
    b := SplitEnd(TrimStart(g));
    assert g == a + (Trim(g) + b);
  }

  /** If the tidied gap and the gap are both followed by `@` in the same string, they agree. */
  lemma MidGapFits(g: string, x: string, y: string)
    requires g != "" && MidGap(g) + ("@" + x) == g + ("@" + y)
    ensures MidGap(g) == g
  {
    hide Trim, IsWhitespace, AllWhitespace;
    SlashIsNoSpace();
    var n := MidGap(g);
    var lhs, rhs := n + ("@" + x), g + ("@" + y);
    TrimIsPlain(g);
    var t := Trim(g);
    if t == "" {
      OnlyWhitespace(g);
      assert lhs[1] == '@' && lhs[0] == ' ';
      assert forall i :: 0 <= i < |g| ==> rhs[i] == g[i];
    } else {
      var a, b := SplitTrim(g);
      MidGapFitsText(g, a, t, b, lhs, rhs);
    }
    Cancel(n, "@" + x, g, "@" + y);
  }

  lemma MidGapFitsText(g: string, a: string, t: string, b: string, lhs: string, rhs: string)
    requires AllWhitespace(a) && AllWhitespace(b) && g == a + t + b
    requires t != "" && !IsWhitespace(t[0]) && !IsWhitespace(t[|t| - 1]) && g != ""
    requires lhs == rhs && |lhs| > |t| + 2 && lhs[..|t| + 2] == " " + t + " " && lhs[|t| + 2] == '@'
    requires |rhs| > |g| && rhs[..|g|] == g && rhs[|g|] == '@'
    ensures |g| == |t| + 2
  {
    hide IsWhitespace;
    SlashIsNoSpace();
    var n := " " + t + " ";
    assert forall i :: 0 <= i < |t| + 2 && i < |g| ==> lhs[..|t| + 2][i] == rhs[..|g|][i];
    assert forall i :: 0 <= i < |g| && i < |n| ==> g[i] == n[i];
    assert n[0] == ' ' && n[1] == t[0] && n[|t| + 1] == ' ';
    assert forall i :: 0 <= i < |a| ==> g[i] == a[i] && IsWhitespace(g[i]);
    assert forall i :: |a| + |t| <= i < |g| ==> g[i] == b[i - |a| - |t|] && IsWhitespace(g[i]);
    assert g[|a|] == t[0];
  }

  lemma CleanTailIs(g: string)
    ensures TailGap(g) == g <==> CleanTail(g)
  {
    hide TrimStart, IsWhitespace;
    SlashIsNoSpace();
    var w := SplitStart(g);
    if CleanTail(g) && g != "" {
      assert g == " " + g[1..];
      TrimStartIs(" ", g[1..]);
    }
    assert TailGap(g) == g && g != "" ==> g[1] == TrimStart(g)[0];
  }

  lemma CleanHeadIs(g: string)
    ensures HeadGap(g) == g <==> CleanHead(g)
  {
    hide TrimEnd, IsWhitespace;
    SlashIsNoSpace();
    var w := SplitEnd(g);
    if CleanHead(g) && g != "" {
      assert g == g[..|g| - 1] + " ";
      TrimEndIs(g[..|g| - 1], " ");
    }
    var t := TrimEnd(g);
    assert HeadGap(g) == g && g != "" ==> g[|g| - 2] == t[|t| - 1];
  }

  lemma HeadGapFits(g: string, x: string, y: string)
    requires HeadGap(g) + ("@" + x) == g + ("@" + y)
    ensures HeadGap(g) == g
  {
    hide TrimEnd, IsWhitespace;
    SlashIsNoSpace();
    var w := SplitEnd(g);
    var t, n := TrimEnd(g), HeadGap(g);
    var lhs, rhs := n + ("@" + x), g + ("@" + y);
    assert lhs[|n|] == '@' && rhs[|g|] == '@';
    assert forall i :: 0 <= i < |g| ==> rhs[i] == g[i];
    assert forall i :: |t| <= i < |g| ==> g[i] == w[i - |t|] && IsWhitespace(g[i]);
    assert t != "" ==> lhs[|t|] == ' ';
    Cancel(n, "@" + x, g, "@" + y);
  }

  lemma TextStep(text: string, wide: set<char>, s: Span, pos: nat)
    requires pos <= s.from && IsMention(text, wide, s)
    ensures text[pos..] == text[pos..s.from] + ("@" + (text[s.from + 1..s.to] + text[s.to..]))
  {
    hide IsPathChar;
    assert text[s.from..s.from + 1] == "@";
    assert text[pos..] == text[pos..s.from] + (text[s.from..s.from + 1] + (text[s.from + 1..s.to] + text[s.to..]));
  }

  lemma FormStep(text: string, spans: seq<Span>, pos: nat)
    requires spans != [] && InOrder(text, spans, pos)
    ensures InOrder(text, spans[1..], spans[0].to)
    ensures TailForm(text, spans, pos)
         == MidGap(text[pos..spans[0].from])
            + ("@" + (PathOf(text, spans[0]) + TailForm(text, spans[1..], spans[0].to)))
  {
    hide MidGap, PathOf;
    var m, p, t := MidGap(text[pos..spans[0].from]), PathOf(text, spans[0]), TailForm(text, spans[1..], spans[0].to);
    assert m + "@" + p + t == m + ("@" + (p + t));
  }

  lemma PathAndRest(p: string, x: string, raw: string, y: string)
    requires |p| == |raw|
    ensures "@" + (p + x) == "@" + (raw + y) <==> p == raw && x == y
  {
    if "@" + (p + x) == "@" + (raw + y) {
      Cancel("@", p + x, "@", raw + y);
      Cancel(p, x, raw, y);
    }
  }

  lemma {:induction false} CleanBehindIs(text: string, wide: set<char>, spans: seq<Span>, pos: nat)
    requires WellSpaced(text, wide, spans) && InOrder(text, spans, pos)
    requires spans != [] ==> pos < spans[0].from
    ensures TailForm(text, spans, pos) == text[pos..] <==> CleanBehind(text, spans, pos)
    decreases |spans|
  {
    hide MidGap, TailGap, CleanMid, CleanTail, IsMention, PathOf, TailForm;
    if spans == [] {
      CleanTailIs(text[pos..]);
      EmptyForm(text, pos);
    } else {
      var s, tail := spans[0], spans[1..];
      var gap, p, raw := text[pos..s.from], PathOf(text, s), text[s.from + 1..s.to];
      FirstIsMention(text, wide, spans);
      TextStep(text, wide, s, pos);
      FormStep(text, spans, pos);
      SamePath(text, s);
      SpacedTail(text, wide, spans);
      CleanBehindIs(text, wide, tail, s.to);
      CleanMidIs(gap);
      var x, y := p + TailForm(text, tail, s.to), raw + text[s.to..];
      PathAndRest(p, TailForm(text, tail, s.to), raw, text[s.to..]);
      if MidGap(gap) + ("@" + x) == gap + ("@" + y) {
        MidGapFits(gap, x, y);
        Cancel(MidGap(gap), "@" + x, gap, "@" + y);
      }
    }
  }

  lemma EmptyForm(text: string, pos: nat)
    requires pos <= |text|
    ensures InOrder(text, [], pos) && TailForm(text, [], pos) == TailGap(text[pos..])
  {
  }

  lemma SpacedTail(text: string, wide: set<char>, spans: seq<Span>)
    requires spans != [] && WellSpaced(text, wide, spans)
    ensures WellSpaced(text, wide, spans[1..])
    ensures spans[1..] != [] ==> spans[0].to < spans[1..][0].from
  {
    hide IsMention;
    assert forall k :: 0 <= k < |spans[1..]| ==> spans[1..][k] == spans[k + 1];
  }

  predicate CleanAll(text: string, spans: seq<Span>)
    requires InOrder(text, spans, 0) && InText(text, spans)
  {
    spans != [] ==>
      assert InOrder(text, spans[1..], spans[0].to);
      && CleanHead(text[..spans[0].from])
      && '\\' !in text[spans[0].from + 1..spans[0].to]
      && CleanBehind(text, spans[1..], spans[0].to)
  }

  lemma TidiedStep(text: string, spans: seq<Span>)
    requires spans != [] && InOrder(text, spans, 0)
    ensures InOrder(text, spans[1..], spans[0].to)
    ensures Tidied(text, spans)
         == HeadGap(text[0..spans[0].from]) + ("@" + (PathOf(text, spans[0]) + TailForm(text, spans[1..], spans[0].to)))
  {
    hide HeadGap, PathOf, TailForm;
    var h, p, t := HeadGap(text[0..spans[0].from]), PathOf(text, spans[0]), TailForm(text, spans[1..], spans[0].to);
    assert text[..spans[0].from] == text[0..spans[0].from];
    assert h + "@" + p + t == h + ("@" + (p + t));
  }

  lemma CleanAllIs(text: string, wide: set<char>, spans: seq<Span>)
    requires WellSpaced(text, wide, spans) && InOrder(text, spans, 0) && InText(text, spans)
    ensures Tidied(text, spans) == text <==> CleanAll(text, spans)
  {
    hide HeadGap, CleanHead, CleanBehind, IsMention, PathOf, TailForm;
    if spans != [] {
      var s, tail := spans[0], spans[1..];
      var gap, p, raw := text[0..s.from], PathOf(text, s), text[s.from + 1..s.to];
      FirstIsMention(text, wide, spans);
      TextStep(text, wide, s, 0);
      assert text[0..] == text && text[..s.from] == gap;
      TidiedStep(text, spans);
      SamePath(text, s);
      SpacedTail(text, wide, spans);
      CleanBehindIs(text, wide, tail, s.to);
      CleanHeadIs(gap);
      var x, y := p + TailForm(text, tail, s.to), raw + text[s.to..];
      PathAndRest(p, TailForm(text, tail, s.to), raw, text[s.to..]);
      if HeadGap(gap) + ("@" + x) == gap + ("@" + y) {
        HeadGapFits(gap, x, y);
        Cancel(HeadGap(gap), "@" + x, gap, "@" + y);
      }
    }
  }

  // ----- trimming gaps creates no run of newlines -----

  lemma RunOf(s: string) returns (i: nat)
    requires HasBlankRun(s)
    ensures i + 2 < |s| && s[i] == '\n' && s[i + 1] == '\n' && s[i + 2] == '\n'
  {
    i :| 0 <= i < |s| - 2 && s[i] == '\n' && s[i + 1] == '\n' && s[i + 2] == '\n';
  }

  lemma NoRunInSlice(s: string, from: nat, to: nat)
    requires from <= to <= |s| && !HasBlankRun(s)
    ensures !HasBlankRun(s[from..to])
  {
    hide HasBlankRun;
    if HasBlankRun(s[from..to]) {
      var i := RunOf(s[from..to]);
      BlankRunAt(s, from + i);
      assert false;
    }
  }

  lemma NoRunJoined(a: string, b: string)
    requires !HasBlankRun(a) && !HasBlankRun(b)
    requires a == "" || b == "" || a[|a| - 1] != '\n' || b[0] != '\n'
    ensures !HasBlankRun(a + b)
  {
    hide HasBlankRun;
    if HasBlankRun(a + b) {
      var i := RunOf(a + b);
      if i + 2 < |a| {
        BlankRunAt(a, i);
      } else if i >= |a| {
        BlankRunAt(b, i - |a|);
      }
      assert false;
    }
  }

  lemma NoRunInShort(s: string)
    requires '\n' !in s
    ensures !HasBlankRun(s)
  {
  }

  lemma NoRunInTrimmed(g: string)
    requires !HasBlankRun(g)
    ensures !HasBlankRun(TrimStart(g)) && !HasBlankRun(TrimEnd(g)) && !HasBlankRun(Trim(g))
  {
    hide HasBlankRun;
    NoRunInSlice(g, SkipWhitespace(g, 0), |g|);
    assert TrimStart(g) == g[SkipWhitespace(g, 0)..|g|];
    NoRunInSlice(g, 0, DropWhitespace(g, |g|));
    assert TrimEnd(g) == g[0..DropWhitespace(g, |g|)];
    var t := TrimStart(g);
    NoRunInSlice(t, 0, DropWhitespace(t, |t|));
    assert TrimEnd(t) == t[0..DropWhitespace(t, |t|)];
  }

  lemma NoRunInGaps(g: string)
    requires !HasBlankRun(g)
    ensures !HasBlankRun(HeadGap(g)) && !HasBlankRun(MidGap(g)) && !HasBlankRun(TailGap(g))
  {
    hide HasBlankRun, TrimStart, TrimEnd, Trim;
    NoRunInTrimmed(g);
    NoRunInShort("");
    NoRunInShort(" ");
    NoRunJoined(TrimEnd(g), " ");
    NoRunJoined(" ", TrimStart(g));
    NoRunJoined(" ", Trim(g));
    NoRunJoined(" " + Trim(g), " ");
  }

  lemma {:induction false} NoRunBehind(text: string, wide: set<char>, spans: seq<Span>, pos: nat)
    requires WellSpaced(text, wide, spans) && InOrder(text, spans, pos) && !HasBlankRun(text)
    requires pos <= |text| && (spans != [] ==> pos <= spans[0].from)
    ensures !HasBlankRun(TailForm(text, spans, pos))
    decreases |spans|
  {
    hide HasBlankRun, MidGap, TailGap, IsMention, PathOf, TailForm, WellSpaced, InOrder;
    NoRunInSlice(text, pos, |text|);
    assert text[pos..] == text[pos..|text|];
    NoRunInGaps(text[pos..]);
    if spans == [] {
      EmptyForm(text, pos);
    } else {
      var s, tail := spans[0], spans[1..];
      FirstIsMention(text, wide, spans);
      FirstInOrder(text, spans, pos);
      FormStep(text, spans, pos);
      SpacedTail(text, wide, spans);
      NoRunBehind(text, wide, tail, s.to);
      NoRunInSlice(text, pos, s.from);
      NoRunInGaps(text[pos..s.from]);
      NoRunMention(text, wide, s, MidGap(text[pos..s.from]), TailForm(text, tail, s.to));
    }
  }

  lemma NoRunMention(text: string, wide: set<char>, s: Span, before: string, after: string)
    requires IsMention(text, wide, s) && !HasBlankRun(before) && !HasBlankRun(after)
    ensures !HasBlankRun(before + ("@" + (PathOf(text, s) + after)))
  {
    hide HasBlankRun, IsPathChar, StartsMention, PathOf, Trim;
    PathIsPlain(text, wide, s);
    SlashIsNoSpace();
    var p := PathOf(text, s);
    NoRunInShort(p);
    NoRunInShort("@");
    NoRunJoined(p, after);
    NoRunJoined("@", p + after);
    NoRunJoined(before, "@" + (p + after));
  }

  lemma NoRunInTidied(text: string, wide: set<char>, spans: seq<Span>)
    requires WellSpaced(text, wide, spans) && InOrder(text, spans, 0) && !HasBlankRun(text)
    ensures !HasBlankRun(Tidied(text, spans))
  {
    hide HasBlankRun, HeadGap, IsMention, PathOf, TailForm, WellSpaced;
    if spans != [] {
      var s, tail := spans[0], spans[1..];
      FirstIsMention(text, wide, spans);
      FirstInOrder(text, spans, 0);
      TidiedStep(text, spans);
      SpacedTail(text, wide, spans);
      NoRunBehind(text, wide, tail, s.to);
      NoRunInSlice(text, 0, s.from);
      NoRunInGaps(text[0..s.from]);
      NoRunMention(text, wide, s, HeadGap(text[0..s.from]), TailForm(text, tail, s.to));
    }
  }

  // ----- the main results -----

  lemma ReadableFolds(text: string, ws: Workspace, wide: set<char>, maxBytes: nat)
    requires Compactable(text, ws, wide, maxBytes)
    ensures InText(text, Spans(text, wide))
    ensures AllFold(text, Spans(text, wide), rel => Replacement(ws, maxBytes, rel))
  {
    hide Contains, Body, Block, PathOf, Scan;
    SpansInOrder(text, wide);
    var spans, f := Spans(text, wide), rel => Replacement(ws, maxBytes, rel);
    forall k | 0 <= k < |spans| ensures Folds(f, PathOf(text, spans[k])) {
      var p := PathOf(text, spans[k]);
      var body := FileBody(ws, maxBytes, p).value;
      assert f(p) == Block(p, body) && !Contains(body, FENCE);
    }
  }

  /** Compacting what expanding produced gives the text with the whitespace round each
      mention reduced to one space. */
  lemma CompactingTidies(text: string, ws: Workspace, wide: set<char>, maxBytes: nat)
    requires Compactable(text, ws, wide, maxBytes)
    ensures InOrder(text, Spans(text, wide), 0)
    ensures Compacted(Expanded(text, ws, wide, maxBytes)) == Squeeze(Tidied(text, Spans(text, wide)))
  {
    hide Compacted, Squeeze, Tidied, Compactable, Woven;
    SpansInOrder(text, wide);
    ReadableFolds(text, ws, wide, maxBytes);
    NoHeaderWhenCompactable(text, ws, wide, maxBytes);
    CompactExpansion(text, wide, rel => Replacement(ws, maxBytes, rel));
  }

  lemma NoHeaderWhenCompactable(text: string, ws: Workspace, wide: set<char>, maxBytes: nat)
    requires Compactable(text, ws, wide, maxBytes)
    ensures !Contains(text, FILE_HEADER)
  {
  }

  /** Tidying and squeezing a text leaves it alone exactly when it is tidy. */
  lemma TidiedIsTidy(text: string, wide: set<char>)
    ensures InOrder(text, Spans(text, wide), 0)
    ensures Squeeze(Tidied(text, Spans(text, wide))) == text <==> Tidy(text, wide)
  {
    hide Squeeze, Tidied, CleanAll, HasBlankRun, IsMention;
    var spans := Spans(text, wide);
    SpansInOrder(text, wide);
    SpansAreExact(text, wide);
    CleanAllIs(text, wide, spans);
    SqueezeFixes(text);
    SqueezeFixes(Tidied(text, spans));
    if !HasBlankRun(text) {
      NoRunInTidied(text, wide, spans);
    }
  }

  /** Compacting undoes expanding exactly on tidy texts. */
  lemma CompactingUndoesExpanding(text: string, ws: Workspace, wide: set<char>, maxBytes: nat)
    requires Compactable(text, ws, wide, maxBytes)
    ensures Compacted(Expanded(text, ws, wide, maxBytes)) == text <==> Tidy(text, wide)
  {
    hide Compacted, Squeeze, Tidied, Tidy, Compactable, Expanded;
    CompactingTidies(text, ws, wide, maxBytes);
    TidiedIsTidy(text, wide);
  }

  // ----- user_event_preview -----

  /** `user_event_preview` of a plain text message. */
  function UserEventPreview(text: string): string {
    Trim(Compacted(text))
  }

  predicate SolidEnds(s: string) {
    s == "" || (!IsWhitespace(s[0]) && !IsWhitespace(s[|s| - 1]))
  }

  lemma SolidIsTrimmed(s: string)
    ensures Trim(s) == s <==> SolidEnds(s)
  {
    hide TrimStart, TrimEnd, IsWhitespace;
    TrimIsPlain(s);
    if SolidEnds(s) {
      TrimStartIs("", s);
      TrimEndIs(s, "");
      assert "" + s == s && s + "" == s;
    }
  }

  lemma {:induction false} SqueezeKeepsLast(s: string, i: nat, run: nat)
    requires i < |s| && s[|s| - 1] != '\n'
    ensures var r := SqueezeFrom(s, i, run); r != "" && r[|r| - 1] == s[|s| - 1]
    decreases |s| - i
  {
    hide SqueezeFrom;
    SqueezeStep(s, i, run);
    var run' := if s[i] == '\n' then run + 1 else 0;
    if i + 1 < |s| {
      SqueezeKeepsLast(s, i + 1, run');
    } else {
      SqueezeEnds(s);
    }
  }

  lemma SqueezeKeepsEnds(s: string)
    requires SolidEnds(s)
    ensures SolidEnds(Squeeze(s))
  {
    hide IsWhitespace;
    SlashIsNoSpace();
    if s != "" {
      SqueezeKeepsLast(s, 0, 0);
    }
  }

  /** The text behind a mention ends in a solid character when the original does. */
  lemma {:induction false} TailEnds(text: string, wide: set<char>, spans: seq<Span>, pos: nat)
    requires WellSpaced(text, wide, spans) && InOrder(text, spans, pos)
    requires spans != [] ==> pos <= spans[0].from
    requires text != "" && !IsWhitespace(text[|text| - 1])
    ensures var t := TailForm(text, spans, pos);
            if t == "" then spans == [] && pos == |text| else !IsWhitespace(t[|t| - 1])
    decreases |spans|
  {
    hide IsWhitespace, MidGap, IsPathChar, StartsMention, PathOf, TailForm, TrimStart, Trim;
    if spans == [] {
      EmptyForm(text, pos);
      var g := text[pos..];
      var w := SplitStart(g);
      assert pos < |text| ==> g[|g| - 1] == text[|text| - 1];
      LastIsKept(g, w, TrimStart(g));
    } else {
      var s, tail := spans[0], spans[1..];
      FirstIsMention(text, wide, spans);
      FormStep(text, spans, pos);
      SpacedTail(text, wide, spans);
      TailEnds(text, wide, tail, s.to);
      PathIsPlain(text, wide, s);
    }
  }

  lemma LastIsKept(g: string, w: string, t: string)
    requires g == w + t && AllWhitespace(w)
    ensures g != "" && !IsWhitespace(g[|g| - 1]) ==> t != "" && t[|t| - 1] == g[|g| - 1]
  {
    hide IsWhitespace;
    assert t == "" && g != "" ==> g[|g| - 1] == w[|w| - 1];
  }

  lemma TidiedEnds(text: string, wide: set<char>, spans: seq<Span>)
    requires WellSpaced(text, wide, spans) && InOrder(text, spans, 0) && SolidEnds(text)
    ensures SolidEnds(Tidied(text, spans))
  {
    hide IsWhitespace, TrimEnd, IsPathChar, StartsMention, PathOf, TailForm, Trim;
    if spans != [] {
      var s, tail := spans[0], spans[1..];
      var g := text[0..s.from];
      FirstIsMention(text, wide, spans);
      TidiedStep(text, spans);
      SpacedTail(text, wide, spans);
      PathIsPlain(text, wide, s);
      TailEnds(text, wide, tail, s.to);
      SlashIsNoSpace();
      var w := SplitEnd(g);
      assert g != "" ==> g[0] == text[0];
      assert TrimEnd(g) != "" ==> g[0] == TrimEnd(g)[0];
    }
  }

  /** The preview of an expanded message is the message as typed exactly when it is tidy and
      carries no whitespace at its ends. */
  lemma PreviewShowsWhatWasTyped(text: string, ws: Workspace, wide: set<char>, maxBytes: nat)
    requires Compactable(text, ws, wide, maxBytes)
    ensures UserEventPreview(Expanded(text, ws, wide, maxBytes)) == text <==> Tidy(text, wide) && Trim(text) == text
  {
    hide Compacted, Squeeze, Tidied, CleanAll, Compactable, Expanded, HasBlankRun, IsMention, Trim, SolidEnds, Tidy;
    var spans := Spans(text, wide);
    SpansInOrder(text, wide);
    SpansAreExact(text, wide);
    CompactingTidies(text, ws, wide, maxBytes);
    CompactingUndoesExpanding(text, ws, wide, maxBytes);
    var n := Squeeze(Tidied(text, spans));
    SolidIsTrimmed(text);
    SolidIsTrimmed(n);
    if Trim(n) == text {
      TrimmedIsSolid(n);
      TidiedEnds(text, wide, spans);
      SqueezeKeepsEnds(Tidied(text, spans));
    }
  }

  lemma TrimmedIsSolid(s: string)
    ensures SolidEnds(Trim(s))
  {
    TrimIsPlain(s);
  }
}

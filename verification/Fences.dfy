/** Text that the expansion cannot be undone for: fences inside file bodies, block headers in the
    text itself, files that cannot be shown. For a text with at most one mention, exactly when
    compacting gives the text back. */
module Fences {
  import opened Text
  import opened Mentions
  import opened Expansion
  import opened Compaction
  import opened RoundTrip

  // ----- one turn of the compaction loop -----

  lemma TrimEndGrows(a: string, x: string)
    ensures TrimEnd(a) <= TrimEnd(a + x)
  {
    hide IsWhitespace, TrimEnd;
    var u := SplitEnd(a);
    var w := SplitEnd(a + x);
    var t, all := TrimEnd(a), TrimEnd(a + x);
    var whole := a + x;
    assert whole == all + w && whole == t + (u + x);
    assert forall k :: |all| <= k < |whole| ==> whole[k] == w[k - |all|];
    assert t != "" ==> whole[|t| - 1] == t[|t| - 1];
    assert all == whole[..|all|] && t == whole[..|t|];
  }

  /** Nothing the loop has put out is taken back, trailing whitespace apart. */
  lemma {:induction false} OutIsKept(out: string, rest: string)
    ensures TrimEnd(out) <= CompactFrom(out, rest)
    decreases |rest|
  {
    hide TrimEnd, TrimStart, Trim, CompactFrom, Rejoined;
    TrimEndIsPrefix(out);
    match LoopTurn(rest)
    case None => CompactEnds(out, rest);
    case Some((start, path, right)) =>
      TurnIs(out, rest);
      var next := Rejoined(out + rest[..start], path);
      TrimEndGrows(out, rest[..start]);
      RejoinedKeeps(out + rest[..start], path, Spaced(next, right)[|next|..]);
      OutIsKept(Spaced(next, right), right);
  }

  /** What one turn finds: where the header is, the path and what is left; None at the end. */
  function LoopTurn(rest: string): (r: Option<(nat, string, string)>)
    ensures r.Some? ==> r.value.0 <= |rest| && MatchAt(rest, FILE_HEADER, r.value.0) && |r.value.2| < |rest|
  {
    match Find(rest, FILE_HEADER)
    case None => None
    case Some(start) =>
      var afterHeader := rest[start + |FILE_HEADER|..];
      match Find(afterHeader, "\n")
      case None => None
      case Some(headerEnd) =>
        var afterBody := afterHeader[headerEnd + 1..];
        match Find(afterBody, FENCE)
        case None => None
        case Some(blockEnd) =>
          RightIsShorter(afterBody[blockEnd + |FENCE|..]);
          Some((start, Trim(afterHeader[..headerEnd]), TrimStart(afterBody[blockEnd + |FENCE|..])))
  }

  /** A complete block: a header, a newline behind it, a fence behind that. */
  predicate BlockAt(s: string, i: nat, j: nat, k: nat) {
    && MatchAt(s, FILE_HEADER, i) && i + |FILE_HEADER| <= j < |s| && s[j] == '\n'
    && j < k && MatchAt(s, FENCE, k)
  }

  ghost predicate HoldsBlock(s: string) {
    exists i: nat, j: nat, k: nat :: BlockAt(s, i, j, k)
  }

  lemma FindBehind(s: string, from: nat, pat: string)
    requires from <= |s| && Find(s[from..], pat).Some?
    ensures MatchAt(s, pat, from + Find(s[from..], pat).value)
  {
    hide Find;
    var e := Find(s[from..], pat).value;
    assert s[from + e..from + e + |pat|] == s[from..][e..e + |pat|];
  }

  /** Where a turn finds its header, the end of the header line and the closing fence. */
  lemma TurnAt(rest: string) returns (start: nat, j: nat, k: nat)
    requires LoopTurn(rest).Some?
    ensures Find(rest, FILE_HEADER) == Some(start) && BlockAt(rest, start, j, k)
    ensures LoopTurn(rest) == Some((start, Trim(rest[start + |FILE_HEADER|..j]), TrimStart(rest[k + |FENCE|..])))
    ensures '\n' !in rest[start + |FILE_HEADER|..j]
  {
    hide TrimStart, Trim, Find;
    start := Find(rest, FILE_HEADER).value;
    var from := start + |FILE_HEADER|;
    var after := rest[from..];
    var e := Find(after, "\n").value;
    FindBehind(rest, from, "\n");
    NoNewlineBefore(after, e);
    j := from + e;
    assert after[e] == rest[j] && after[..e] == rest[from..j];
    var body := after[e + 1..];
    assert body == rest[j + 1..];
    FindBehind(rest, j + 1, FENCE);
    k := j + 1 + Find(body, FENCE).value;
    assert body[k - j - 1 + |FENCE|..] == rest[k + |FENCE|..];
  }

  /** What a turn takes apart: `x` up to the closing fence, then whitespace, then the rest. */
  lemma TurnParts(rest: string) returns (x: string, w: string)
    requires LoopTurn(rest).Some?
    ensures
      var (start, path, right) := LoopTurn(rest).value;
      && rest == x + FENCE + w + right && AllWhitespace(w) && '\n' !in path
      && (right != "" ==> !IsWhitespace(right[0])) && HoldsBlock(rest)
  {
    hide TrimStart, IsWhitespace, Trim, Find, LoopTurn;
    var start, j, k := TurnAt(rest);
    w := SplitStart(rest[k + |FENCE|..]);
    x := rest[..k];
    assert rest == rest[..k] + rest[k..k + |FENCE|] + rest[k + |FENCE|..];
    TrimIsPart(rest[start + |FILE_HEADER|..j]);
  }

  lemma NoNewlineBefore(s: string, e: nat)
    requires Find(s, "\n") == Some(e)
    ensures e < |s| && '\n' !in s[..e]
  {
    hide Find;
    forall i | 0 <= i < e ensures s[i] != '\n' {
      assert !MatchAt(s, "\n", i);
      assert s[i..i + 1] == [s[i]];
    }
  }

  lemma TrimIsPart(s: string)
    ensures forall c :: c in Trim(s) ==> c in s
  {
  }

  lemma MatchShift(w: string, s: string, pat: string, i: nat)
    ensures MatchAt(w + s, pat, |w| + i) <==> MatchAt(s, pat, i)
  {
    assert i + |pat| <= |s| ==> (w + s)[|w| + i..|w| + i + |pat|] == s[i..i + |pat|];
  }

  /** The loop has a turn exactly while a complete block is left. */
  lemma TurnsOnBlocks(s: string)
    ensures LoopTurn(s).Some? <==> HoldsBlock(s)
  {
    hide LoopTurn, BlockAt;
    if LoopTurn(s).Some? {
      var x, w := TurnParts(s);
    }
    if HoldsBlock(s) {
      var i: nat, j: nat, k: nat :| BlockAt(s, i, j, k);
      BlockTurns(s, i, j, k);
    }
  }

  lemma BlockTurns(s: string, i: nat, j: nat, k: nat)
    requires BlockAt(s, i, j, k)
    ensures LoopTurn(s).Some?
  {
    hide Find, Trim, TrimStart, MatchAt;
    FoundBy(s, FILE_HEADER, i);
    var from := Find(s, FILE_HEADER).value + |FILE_HEADER|;
    NewlineAt(s[from..], j - from);
    FoundBy(s[from..], "\n", j - from);
    var p := from + Find(s[from..], "\n").value + 1;
    assert s[from..][p - from..] == s[p..] && s == s[..p] + s[p..];
    MatchShift(s[..p], s[p..], FENCE, k - p);
    FoundBy(s[p..], FENCE, k - p);
  }

  lemma NewlineAt(s: string, i: nat)
    requires i < |s| && s[i] == '\n'
    ensures MatchAt(s, "\n", i)
  {
    assert s[i..i + 1] == [s[i]];
  }

  lemma FoundBy(s: string, pat: string, i: nat)
    requires MatchAt(s, pat, i)
    ensures Find(s, pat).Some? && Find(s, pat).value <= i && Find(s, pat).value + |pat| <= |s|
  {
    hide Find;
  }

  lemma MatchChars(s: string, pat: string, i: nat)
    requires MatchAt(s, pat, i)
    ensures forall k :: 0 <= k < |pat| ==> s[i + k] == pat[k]
  {
    forall k | 0 <= k < |pat| ensures s[i + k] == pat[k] {
      assert s[i..i + |pat|][k] == s[i + k];
    }
  }

  lemma HeaderChars()
    ensures FILE_HEADER[0] == '`'
    ensures forall k :: 0 <= k < |FILE_HEADER| ==> FILE_HEADER[k] != '\n' && FILE_HEADER[k] != '['
  {
  }

  /** Whitespace in front makes no block and breaks none. */
  lemma BlockBehindSpace(w: string, s: string)
    requires AllWhitespace(w)
    ensures HoldsBlock(w + s) <==> HoldsBlock(s)
  {
    hide IsWhitespace, MatchAt;
    var n := |w|;
    if HoldsBlock(s) {
      var i: nat, j: nat, k: nat :| BlockAt(s, i, j, k);
      MatchShift(w, s, FILE_HEADER, i);
      MatchShift(w, s, FENCE, k);
      assert BlockAt(w + s, n + i, n + j, n + k);
    }
    if HoldsBlock(w + s) {
      var i: nat, j: nat, k: nat :| BlockAt(w + s, i, j, k);
      NoHeaderInSpace(w, s, i);
      MatchShift(w, s, FILE_HEADER, i - n);
      MatchShift(w, s, FENCE, k - n);
      assert BlockAt(s, i - n, j - n, k - n);
    }
  }

  lemma NoHeaderInSpace(w: string, s: string, i: nat)
    requires AllWhitespace(w) && MatchAt(w + s, FILE_HEADER, i)
    ensures i >= |w|
  {
    hide IsWhitespace;
    SlashIsNoSpace();
    MatchChars(w + s, FILE_HEADER, i);
    HeaderChars();
    assert forall t :: 0 <= t < |w| ==> IsWhitespace((w + s)[t]);
    assert (w + s)[i + 0] == FILE_HEADER[0];
  }

  lemma CompactEnds(out: string, rest: string)
    requires LoopTurn(rest).None?
    ensures CompactFrom(out, rest) == out + rest
  {
    hide TrimEnd, TrimStart, Trim, Find;
  }

  lemma TurnIs(out: string, rest: string)
    requires LoopTurn(rest).Some?
    ensures
      var (start, path, right) := LoopTurn(rest).value;
      CompactFrom(out, rest) == CompactFrom(Spaced(Rejoined(out + rest[..start], path), right), right)
  {
    hide TrimEnd, TrimStart, Trim, Find;
  }

  lemma TrimEndIsPrefix(s: string)
    ensures TrimEnd(s) <= s
  {
  }

  /** What was there and the `@` set behind it survive trimming. */
  lemma RejoinedKeeps(before: string, path: string, space: string)
    ensures
      var left := TrimEnd(before);
      var kept := if left == "" then "@" else left + " @";
      kept <= TrimEnd(Rejoined(before, path) + space)
  {
    hide TrimEnd, IsWhitespace;
    var left := TrimEnd(before);
    var kept := if left == "" then "@" else left + " @";
    SlashIsNoSpace();
    TrimEndIs(kept, "");
    assert kept + "" == kept;
    assert Rejoined(before, path) + space == kept + (path + space);
    TrimEndGrows(kept, path + space);
  }

  /** With something solid still to come, more than what is out will stand there. */
  lemma MoreFollows(a: string, rest: string)
    requires a != "" && !IsWhitespace(a[|a| - 1]) && rest != "" && !IsWhitespace(rest[0])
    ensures
      var r := CompactFrom(a + " ", rest);
      |r| > |a| + 1 && r[..|a| + 1] == a + " " && !IsWhitespace(r[|a| + 1])
  {
    hide TrimEnd, TrimStart, Trim, CompactFrom, IsWhitespace, Rejoined, LoopTurn;
    SlashIsNoSpace();
    var r := CompactFrom(a + " ", rest);
    match LoopTurn(rest)
    case None => CompactEnds(a + " ", rest);
    case Some((start, path, right)) =>
      TurnIs(a + " ", rest);
      var before := a + " " + rest[..start];
      var next := Rejoined(before, path);
      RejoinedKeeps(before, path, Spaced(next, right)[|next|..]);
      OutIsKept(Spaced(next, right), right);
      if start == 0 {
        assert before == a + " ";
        TrimEndIs(a, " ");
        assert (a + " @")[..|a| + 1] == a + " ";
      } else {
        var solid := a + " " + [rest[0]];
        assert before == solid + rest[1..start];
        TrimEndIs(solid, "");
        assert solid + "" == solid;
        TrimEndGrows(solid, rest[1..start]);
        assert solid[..|a| + 1] == a + " ";
      }
  }

  /** A prefix without newlines is not squeezed. */
  lemma {:induction false} SqueezeKeepsPrefix(s: string, i: nat, n: nat, run: nat)
    requires i <= n <= |s| && forall k :: i <= k < n ==> s[k] != '\n'
    ensures s[i..n] <= SqueezeFrom(s, i, run)
    decreases n - i
  {
    hide SqueezeFrom;
    if i < n {
      SqueezeStep(s, i, run);
      SqueezeKeepsPrefix(s, i + 1, n, 0);
      assert s[i..n] == [s[i]] + s[i + 1..n];
    }
  }

  /** Cutting a body at its first fence. */
  lemma CutAtFence(body: string) returns (pre: string, post: string)
    requires Contains(body, FENCE)
    ensures body == pre + FENCE + post && !Contains(pre, FENCE)
  {
    var k := Find(body, FENCE).value;
    pre, post := body[..k], body[k + |FENCE|..];
    assert body == body[..k] + body[k..k + |FENCE|] + body[k + |FENCE|..];
    forall i: nat | i <= |pre| ensures !MatchAt(pre, FENCE, i) {
      assert i + |FENCE| <= |pre| ==> pre[i..i + |FENCE|] == body[i..i + |FENCE|];
      assert i < k ==> !MatchAt(body, FENCE, i);
    }
  }

  // ----- counting what is not whitespace -----

  function Ink(s: string): nat {
    if s == "" then 0 else (if IsWhitespace(s[0]) then 0 else 1) + Ink(s[1..])
  }

  lemma {:induction false} InkJoin(a: string, b: string)
    ensures Ink(a + b) == Ink(a) + Ink(b)
  {
    hide IsWhitespace;
    if a == "" {
      assert a + b == b;
    } else {
      InkJoin(a[1..], b);
      assert (a + b)[1..] == a[1..] + b;
    }
  }

  lemma {:induction false} InkOfSpace(w: string)
    requires AllWhitespace(w)
    ensures Ink(w) == 0
  {
    hide IsWhitespace;
    if w != "" {
      InkOfSpace(w[1..]);
    }
  }

  lemma {:induction false} InkOfSolid(s: string)
    requires forall i :: 0 <= i < |s| ==> !IsWhitespace(s[i])
    ensures Ink(s) == |s|
  {
    hide IsWhitespace;
    if s != "" {
      InkOfSolid(s[1..]);
    }
  }

  /** Trimming and squeezing take no ink. */
  lemma InkTrimmed(s: string)
    ensures Ink(TrimEnd(s)) == Ink(s) && Ink(TrimStart(s)) == Ink(s)
  {
    hide IsWhitespace, TrimStart, TrimEnd, Ink;
    var w := SplitEnd(s);
    InkJoin(TrimEnd(s), w);
    InkOfSpace(w);
    var v := SplitStart(s);
    InkJoin(v, TrimStart(s));
    InkOfSpace(v);
  }

  lemma {:induction false} InkSqueezedFrom(s: string, i: nat, run: nat)
    requires i <= |s|
    ensures Ink(SqueezeFrom(s, i, run)) == Ink(s[i..])
    decreases |s| - i
  {
    hide IsWhitespace, SqueezeFrom;
    SlashIsNoSpace();
    if i == |s| {
      SqueezeEnds(s);
      assert s[i..] == "";
    } else {
      SqueezeStep(s, i, run);
      var run' := if s[i] == '\n' then run + 1 else 0;
      InkSqueezedFrom(s, i + 1, run');
      InkJoin([s[i]], SqueezeFrom(s, i + 1, run'));
      InkJoin([s[i]], s[i + 1..]);
      assert s[i..] == [s[i]] + s[i + 1..];
      InkOfOne(s[i]);
    }
  }

  lemma InkOfOne(c: char)
    ensures Ink([c]) == if IsWhitespace(c) then 0 else 1
  {
    hide IsWhitespace;
    assert [c][1..] == "";
  }

  lemma InkSqueezed(s: string)
    ensures Ink(Squeeze(s)) == Ink(s)
  {
    InkSqueezedFrom(s, 0, 0);
    assert s[0..] == s;
  }

  // ----- squeezing in parts -----

  lemma {:induction false} SqueezeShifted(x: string, y: string, j: nat, run: nat)
    requires j <= |y|
    ensures SqueezeFrom(x + y, |x| + j, run) == SqueezeFrom(y, j, run)
    decreases |y| - j
  {
    hide SqueezeFrom;
    if j == |y| {
      SqueezeEnds(x + y);
      SqueezeEnds(y);
      assert SqueezeFrom(x + y, |x + y|, run) == "";
    } else {
      SqueezeStep(x + y, |x| + j, run);
      SqueezeStep(y, j, run);
      SqueezeShifted(x, y, j + 1, if y[j] == '\n' then run + 1 else 0);
    }
  }

  lemma {:induction false} SqueezeApartFrom(x: string, y: string, i: nat, run: nat)
    requires i <= |x| && (y != "" ==> y[0] != '\n')
    ensures SqueezeFrom(x + y, i, run) == SqueezeFrom(x, i, run) + Squeeze(y)
    decreases |x| - i
  {
    hide SqueezeFrom;
    if i == |x| {
      SqueezeEnds(x);
      SqueezeEnds(y);
      if y == "" {
        assert x + y == x;
      } else {
        SqueezeStep(x + y, i, run);
        SqueezeStep(y, 0, 0);
        SqueezeShifted(x, y, 1, 0);
      }
      assert "" + Squeeze(y) == Squeeze(y);
    } else {
      SqueezeStep(x + y, i, run);
      SqueezeStep(x, i, run);
      var run' := if x[i] == '\n' then run + 1 else 0;
      SqueezeApartFrom(x, y, i + 1, run');
      var a, b := SqueezeFrom(x, i + 1, run'), Squeeze(y);
      assert ([x[i]] + a) + b == [x[i]] + (a + b);
    }
  }

  /** Parts that do not meet in newlines are squeezed on their own. */
  lemma SqueezeApart(x: string, y: string)
    requires y != "" ==> y[0] != '\n'
    ensures Squeeze(x + y) == Squeeze(x) + Squeeze(y)
  {
    SqueezeApartFrom(x, y, 0, 0);
  }

  /** A part without runs and a mark without newlines behind it come through squeezing. */
  lemma SqueezeKeepsFront(front: string, mark: string, r: string)
    requires front + mark <= r && mark != "" && '\n' !in mark && !HasBlankRun(front)
    ensures front + mark <= Squeeze(r)
  {
    hide SqueezeFrom, HasBlankRun;
    var y := r[|front|..];
    assert front == (front + mark)[..|front|] == r[..|front|];
    assert r == front + y && y[0..|mark|] == mark;
    SqueezeFixes(front);
    SqueezeApart(front, y);
    SqueezeKeepsPrefix(y, 0, |mark|, 0);
  }

  lemma FrontHasNoRun(front: string, text: string)
    requires front <= text && !HasBlankRun(text)
    ensures !HasBlankRun(front)
  {
    hide HasBlankRun;
    NoRunInSlice(text, 0, |front|);
    assert front == text[0..|front|];
  }

  lemma CancelEnd(a: string, b: string, z: string)
    ensures a + z == b + z <==> a == b
  {
    if a + z == b + z {
      assert a == (a + z)[..|a|] && b == (b + z)[..|b|];
    }
  }

  // ----- the last fold of a run -----

  /** The last turn of the loop closes a block at a fence of the text in front of `z` and leaves
      a mention in front of `z`. Nothing that is out loses ink. */
  lemma {:induction false} LastFold(out: string, rest: string)
    returns (b: string, path: string, x: string, w: string, z: string)
    requires LoopTurn(rest).Some?
    ensures rest == x + FENCE + w + z && AllWhitespace(w) && (z != "" ==> !IsWhitespace(z[0])) && '\n' !in path
    ensures CompactFrom(out, rest) == Spaced(b + "@" + path, z) + z
    ensures Ink(out) <= Ink(b)
    decreases |rest|
  {
    hide TrimEnd, TrimStart, Trim, CompactFrom, IsWhitespace, LoopTurn, Ink, AllWhitespace, Rejoined;
    var (start, p, right) := LoopTurn(rest).value;
    var x0, w0 := TurnParts(rest);
    TurnIs(out, rest);
    var left := out + rest[..start];
    var b0 := MarkFront(left);
    RejoinedIs(left, p);
    InkOfFront(out, rest[..start]);
    var next := Spaced(b0 + "@" + p, right);
    if LoopTurn(right).None? {
      CompactEnds(next, right);
      b, path, x, w, z := b0, p, x0, w0, right;
    } else {
      var x1;
      b, path, x1, w, z := LastFold(next, right);
      x := x0 + FENCE + w0 + x1;
      assert rest == x + FENCE + w + z;
      InkSpaced(b0, p, right);
    }
  }

  /** What stands in front of the `@` that a turn sets. */
  function MarkFront(before: string): string {
    TrimEnd(before) + (if TrimEnd(before) == "" then "" else " ")
  }

  lemma RejoinedIs(before: string, path: string)
    ensures Rejoined(before, path) == MarkFront(before) + "@" + path
  {
    hide TrimEnd;
  }

  lemma InkOfFront(out: string, more: string)
    ensures Ink(out) <= Ink(MarkFront(out + more))
  {
    hide TrimEnd, Ink;
    InkJoin(out, more);
    InkTrimmed(out + more);
    InkJoin(TrimEnd(out + more), if TrimEnd(out + more) == "" then "" else " ");
  }

  lemma InkSpaced(b: string, path: string, right: string)
    ensures Ink(b) <= Ink(Spaced(b + "@" + path, right))
  {
    hide Ink;
    var rest := "@" + path + (if right == "" then "" else " ");
    assert Spaced(b + "@" + path, right) == b + rest;
    InkJoin(b, rest);
  }

  /** A mention followed by at most a space never ends like a fence followed by whitespace. */
  lemma MarkIsNoFence(l: string, path: string, space: string, m: string, w: string)
    requires '\n' !in path && (space == "" || space == " ") && AllWhitespace(w)
    ensures l + "@" + path + space != m + FENCE + w
  {
    hide IsWhitespace;
    SlashIsNoSpace();
    var lhs, rhs := l + "@" + path + space, m + FENCE + w;
    assert lhs[|l|] == '@' && rhs[|m|] == '\n';
    assert |m| < |l| < |rhs| ==> rhs[|l|] == (FENCE + w)[|l| - |m|];
    assert |m| < |l| < |m| + |FENCE| ==> FENCE[|l| - |m|] == '`';
    assert |m| + |FENCE| <= |l| < |rhs| ==> (FENCE + w)[|l| - |m|] == w[|l| - |m| - |FENCE|];
    assert |l| < |m| < |lhs| ==> lhs[|m|] == (path + space)[|m| - |l| - 1];
    assert |l| < |m| < |lhs| ==> (path + space)[|m| - |l| - 1] != '\n';
  }

  /** When the last fold closes at a fence of the text, the text does not come back. */
  lemma FoldShows(m: string, w: string, z: string, b: string, path: string)
    requires AllWhitespace(w) && (z != "" ==> !IsWhitespace(z[0])) && '\n' !in path
    ensures Squeeze(Spaced(b + "@" + path, z) + z) != m + FENCE + w + z
  {
    hide IsWhitespace, SqueezeFrom, HasBlankRun, AllWhitespace;
    SlashIsNoSpace();
    var space := if z == "" then "" else " ";
    var mark := "@" + path + space;
    var r, text := Spaced(b + "@" + path, z) + z, m + FENCE + w + z;
    SqueezeFixes(r);
    if !HasBlankRun(text) {
      NoRunInSlice(text, |m| + |FENCE| + |w|, |text|);
      assert z == text[|m| + |FENCE| + |w|..|text|];
      SqueezeFixes(z);
      NoRunInShort(mark);
      SqueezeFixes(mark);
      SqueezeApart(b, mark + z);
      SqueezeApart(mark, z);
      assert r == b + (mark + z);
      MarkIsNoFence(Squeeze(b), path, space, m, w);
      assert Squeeze(b) + "@" + path + space == Squeeze(b) + mark;
      CancelEnd(Squeeze(b) + mark, m + FENCE + w, z);
      assert Squeeze(b) + (mark + z) == (Squeeze(b) + mark) + z;
    }
  }

  /** A text without mentions is not expanded; compacting leaves it alone exactly when it holds no
      complete block and no three newlines in a row. */
  lemma CompactingKeeps(text: string)
    ensures Compacted(text) == text <==> !HoldsBlock(text) && !HasBlankRun(text)
  {
    hide Squeeze, HoldsBlock, LoopTurn, CompactFrom, HasBlankRun, IsWhitespace, AllWhitespace;
    TurnsOnBlocks(text);
    if LoopTurn(text).None? {
      CompactEnds("", text);
      assert "" + text == text;
      SqueezeFixes(text);
    } else {
      var b, path, x, w, z := LastFold("", text);
      FoldShows(x, w, z, b, path);
    }
  }

  // ----- the first turns on an expanded mention -----

  lemma TrimStartKeeps(v: string, y: string)
    requires y != "" && !IsWhitespace(y[0])
    ensures TrimStart(v + y) == TrimStart(v) + y
  {
    hide IsWhitespace, TrimStart;
    var w := SplitStart(v);
    var t := TrimStart(v) + y;
    assert v + y == w + t;
    assert TrimStart(v) == "" ==> t == y;
    TrimStartIs(w, t);
  }

  /** The block of the only mention, up to the first fence behind its header. */
  lemma FirstFold(head: string, path: string, pre: string, rem: string)
    requires '\n' !in path && Trim(path) == path && !Contains(pre, FENCE) && !Contains(head, FILE_HEADER)
    ensures
      var right := TrimStart(rem);
      CompactFrom("", (head + "\n\n") + (FILE_HEADER + BlockTail(path, pre, rem)))
      == CompactFrom(Spaced(HeadGap(head) + "@" + path, right), right)
  {
    hide Trim, TrimStart, TrimEnd, Contains, CompactFrom, Find, IsWhitespace, HeadGap;
    FindHeader(head, BlockTail(path, pre, rem));
    OneBlock("", head + "\n\n", path, pre, rem);
    RejoinHead(head, path);
  }

  lemma MentionInk(head: string, path: string, tail: string)
    ensures Ink(HeadGap(head) + "@" + path) == Ink(head + "@" + path) == Ink(head) + 1 + Ink(path)
    ensures Ink(head + "@" + path + tail) == Ink(head) + 1 + Ink(path) + Ink(tail)
  {
    hide Ink, TrimEnd;
    InkTrimmed(head);
    InkSpaces();
    InkJoin(TrimEnd(head), " ");
    InkJoin(HeadGap(head) + "@", path);
    InkJoin(HeadGap(head), "@");
    InkJoin(head, "@");
    InkJoin(head + "@", path);
    InkJoin(head + "@" + path, tail);
  }

  lemma InkSpaces()
    ensures Ink("") == 0 && Ink(" ") == 0 && Ink("@") == 1 && Ink("```\n\n") == 3
  {
    SlashIsNoSpace();
    InkOfOne(' ');
    InkOfOne('@');
    InkOfSolid("```");
    InkOfSpace("\n\n");
    InkJoin("```", "\n\n");
    assert "```" + "\n\n" == "```\n\n";
  }

  /** If what comes out goes on with a space behind the mention, so does the text. */
  lemma SpaceBehind(head: string, path: string, raw: string, tail: string, r: string)
    requires |path| == |raw| && '\n' !in path
    requires |r| > |HeadGap(head)| + |path| + 1 && HeadGap(head) + "@" + path + " " <= r
    ensures Squeeze(r) == head + "@" + raw + tail ==> tail != "" && tail[0] == ' '
  {
    hide Squeeze, HeadGap;
    if Squeeze(r) == head + "@" + raw + tail {
      FrontStays(head, path, raw, tail, r);
      TextGoesOn(head, HeadGap(head), path, raw, tail);
    }
  }

  lemma FrontStays(head: string, path: string, raw: string, tail: string, r: string)
    requires '\n' !in path && HeadGap(head) + "@" + path + " " <= r && Squeeze(r) == head + "@" + raw + tail
    ensures HeadGap(head) + ("@" + path + " ") <= head + "@" + raw + tail
  {
    hide Squeeze, HasBlankRun, HeadGap;
    SqueezeFixes(r);
    MentionApart(head, raw, tail);
    FrontHasNoRun(head, Squeeze(r));
    NoRunInGaps(head);
    PlainMark(HeadGap(head), path);
    SqueezeKeepsFront(HeadGap(head), "@" + path + " ", r);
  }

  lemma PlainMark(g: string, path: string)
    ensures g + ("@" + path + " ") == g + "@" + path + " "
    ensures "@" + path + " " != "" && ('\n' !in path ==> '\n' !in "@" + path + " ")
  {
  }

  lemma TextGoesOn(head: string, g: string, path: string, raw: string, tail: string)
    requires |path| == |raw| && g == HeadGap(head) && g + ("@" + path + " ") <= head + "@" + raw + tail
    ensures tail != "" && tail[0] == ' '
  {
    hide HeadGap;
    var front, text := g + ("@" + path + " "), head + "@" + raw + tail;
    var more := text[|front|..];
    assert text == front + more;
    MarkApart(g, path, more);
    MentionApart(head, raw, tail);
    SameMention(head, g, path, raw, " " + more, tail);
  }

  lemma MarkApart(g: string, path: string, more: string)
    ensures (g + ("@" + path + " ")) + more == g + ("@" + (path + (" " + more)))
  {
    assert ("@" + path + " ") + more == "@" + (path + (" " + more));
  }

  lemma MentionApart(head: string, raw: string, tail: string)
    ensures head + "@" + raw + tail == head + ("@" + (raw + tail))
    ensures head <= head + "@" + raw + tail
  {
  }

  lemma SameMention(head: string, g: string, path: string, raw: string, x: string, y: string)
    requires |path| == |raw| && g == HeadGap(head) && g + ("@" + (path + x)) == head + ("@" + (raw + y))
    ensures x == y
  {
    hide HeadGap;
    HeadGapFits(head, path + x, raw + y);
    Cancel(g, "@" + (path + x), head, "@" + (raw + y));
    Cancel("@", path + x, "@", raw + y);
    Cancel(path, x, raw, y);
  }

  /** A file body with a fence: whatever stands round the mention, the text does not come back. */
  lemma {:induction false} FencedNever(head: string, path: string, raw: string, post: string, tail: string)
    requires |path| == |raw| && '\n' !in path && path != "" && !IsWhitespace(path[|path| - 1]) && Ink(path) == Ink(raw)
    ensures
      var right := TrimStart(post + FENCE + "\n\n" + tail);
      Squeeze(CompactFrom(Spaced(HeadGap(head) + "@" + path, right), right)) != head + "@" + raw + tail
  {
    hide IsWhitespace, SqueezeFrom, HeadGap, CompactFrom, LoopTurn, TrimStart, Ink, AllWhitespace;
    SlashIsNoSpace();
    var acc, text := HeadGap(head) + "@" + path, head + "@" + raw + tail;
    var q, close := TrimStart(post + "\n"), "```\n\n" + tail;
    assert post + FENCE + "\n\n" + tail == (post + "\n") + close;
    TrimStartKeeps(post + "\n", close);
    var right := q + close;
    var r := CompactFrom(acc + " ", right);
    assert right[0] == (if q == "" then '`' else q[0]);
    var v := SplitStart(post + "\n");
    MoreFollows(acc, right);
    SpaceBehind(head, path, raw, tail, r);
    MentionInk(head, path, tail);
    MentionInk(head, raw, tail);
    InkSqueezed(r);
    InkJoin(acc, " ");
    InkSpaces();
    InkJoin(q, close);
    InkJoin("```\n\n", tail);
    if LoopTurn(right).None? {
      CompactEnds(acc + " ", right);
      InkJoin(acc + " ", right);
    } else {
      var b, p, x, w, z := LastFold(acc + " ", right);
      FenceInText(head + "@" + raw, q, tail, x, w, z, b, p);
    }
  }

  /** Where the closing fence of the last fold can be: in what is left of the file, which makes
      too much ink; across the end of the block, when the text goes on with three backticks; or
      in the text. */
  lemma FenceInText(
    before: string, q: string, tail: string, x: string, w: string, z: string, b: string, path: string)
    requires q + ("```\n\n" + tail) == x + FENCE + w + z
    requires AllWhitespace(w) && (z != "" ==> !IsWhitespace(z[0])) && '\n' !in path
    requires Ink(before) <= Ink(b)
    ensures Squeeze(Spaced(b + "@" + path, z) + z) != before + tail || (tail != "" && tail[0] == '`')
  {
    hide IsWhitespace, SqueezeFrom, Ink, AllWhitespace;
    var right, n, m := q + ("```\n\n" + tail), |x|, |q| + 5;
    assert right[m..] == tail;
    if n >= m {
      var rest := x[m..];
      assert tail == rest + FENCE + w + z;
      assert before + tail == (before + rest) + FENCE + w + z;
      FoldShows(before + rest, w, z, b, path);
    } else if n + |FENCE| <= m {
      var r, skipped := Spaced(b + "@" + path, z) + z, right[n + |FENCE|..m];
      assert w + z == right[n + |FENCE|..] == skipped + tail;
      InkJoin(w, z);
      InkJoin(skipped, tail);
      InkOfSpace(w);
      InkJoin(before, tail);
      InkSqueezed(r);
      InkOfMark(b, path, z);
    } else {
      assert forall k :: 0 <= k < |FENCE| ==> right[n + k] == FENCE[k];
      assert right[m - 1] == '\n' && right[m - 2] == '\n' && right[m - 3] == '`';
      assert right[m] == '`';
    }
  }

  lemma InkOfMark(b: string, path: string, z: string)
    ensures Ink(Spaced(b + "@" + path, z) + z) == Ink(b) + 1 + Ink(path) + Ink(z)
  {
    hide Ink;
    var space := if z == "" then "" else " ";
    InkSpaces();
    InkJoin(b, "@");
    InkJoin(b + "@", path);
    InkJoin(b + "@" + path, space);
    InkJoin(b + "@" + path + space, z);
    assert Spaced(b + "@" + path, z) == b + "@" + path + space || Spaced(b + "@" + path, z) == b + "@" + path;
    assert b + "@" + path + "" == b + "@" + path;
  }

  /** A file body without a fence: the text comes back exactly when it is tidy and no complete
      block stands behind the mention. */
  lemma FencelessTail(head: string, path: string, raw: string, tail: string)
    ensures
      var z := TrimStart(tail);
      var r := Squeeze(CompactFrom(Spaced(HeadGap(head) + "@" + path, z), z));
      if HoldsBlock(tail) then r != head + "@" + raw + tail
      else r == Squeeze(HeadGap(head) + "@" + path + TailGap(tail))
  {
    hide IsWhitespace, SqueezeFrom, HeadGap, CompactFrom, LoopTurn, TrimStart, Ink, AllWhitespace, HoldsBlock;
    var z, acc := TrimStart(tail), HeadGap(head) + "@" + path;
    var v := SplitStart(tail);
    BlockBehindSpace(v, z);
    TurnsOnBlocks(z);
    if LoopTurn(z).None? {
      CompactEnds(Spaced(acc, z), z);
      assert Spaced(acc, z) + z == acc + TailGap(tail);
    } else {
      var b, p, x, w, y := LastFold(Spaced(acc, z), z);
      var m := head + "@" + raw + v + x;
      assert head + "@" + raw + tail == m + FENCE + w + y;
      FoldShows(m, w, y, b, p);
    }
  }

  /** A lone block folds back to its mention exactly when its body has no fence, wherever one
      stands. */
  lemma FenceInBodyStays(path: string, body: string)
    requires path != "" && '\n' !in path && Trim(path) == path
    ensures Compacted(Block(path, body)) == "@" + path <==> !Contains(body, FENCE)
  {
    hide Contains, IsWhitespace, SqueezeFrom, CompactFrom, Trim, TrimStart, TrimEnd, Ink, Block, BlockTail, Find,
      HoldsBlock;
    TrimIsPlain(path);
    BlockShape(path, body, "");
    assert Block(path, body) + "" == Block(path, body);
    SlashIsNoSpace();
    TrimEndIs("", "");
    TrimStartIs("\n\n", "");
    assert "\n\n" + "" == "\n\n" && "" + "" == "" && "" + "\n\n" == "\n\n";
    NothingInEmpty();
    assert "" + "@" + path + "" == "@" + path;
    if Contains(body, FENCE) {
      var pre, post := CutAtFence(body);
      BlockCut(path, pre, post, "");
      FirstFold("", path, pre, post + FENCE + "\n\n" + "");
      FencedNever("", path, path, post, "");
    } else {
      FirstFold("", path, body, "\n\n");
      CompactEnds("@" + path, "");
      NoRunInShort("@" + path);
      SqueezeFixes("@" + path);
      assert "@" + path + "" == "@" + path;
    }
  }

  lemma NothingInEmpty()
    ensures !Contains("", FILE_HEADER) && LoopTurn("").None?
  {
  }

  // ----- a block header in front of the mention, or no file to show -----

  /** Once a block is folded whose header stands in the text, the text does not come back. */
  lemma HeadShows(u: string, y: string, r: string)
    requires TrimEnd(u) + (if TrimEnd(u) == "" then "@" else " @") <= r
    ensures Squeeze(r) != u + ("`" + y)
  {
    hide IsWhitespace, Squeeze, HasBlankRun, TrimEnd, AllWhitespace;
    var w := SplitEnd(u);
    FrontShows(TrimEnd(u), w, y, r);
    assert u + ("`" + y) == TrimEnd(u) + (w + ("`" + y));
  }

  lemma FrontShows(left: string, w: string, y: string, r: string)
    requires AllWhitespace(w) && left + (if left == "" then "@" else " @") <= r
    ensures Squeeze(r) != left + (w + ("`" + y))
  {
    hide IsWhitespace, Squeeze, HasBlankRun, AllWhitespace;
    var mark, rest := if left == "" then "@" else " @", w + ("`" + y);
    SqueezeFixes(r);
    if !HasBlankRun(left + rest) {
      FrontHasNoRun(left, left + rest);
      SqueezeKeepsFront(left, mark, r);
      SpaceOrTick(w, y);
      MarkIsNew(left, mark, Squeeze(r), rest);
    }
  }

  lemma MarkIsNew(left: string, mark: string, r: string, rest: string)
    requires left + mark <= r && (mark == "@" || mark == " @") && rest != ""
    requires rest[0] != '@' && (|rest| > 1 ==> rest[1] != '@' || rest[0] == '`')
    ensures r != left + rest
  {
    var text, n := left + rest, |left| + |mark| - 1;
    assert r[n] == (left + mark)[n] == '@' && r[|left|] == (left + mark)[|left|] == mark[0];
    assert text[|left|] == rest[0];
    assert n < |text| ==> text[n] == rest[|mark| - 1];
  }

  lemma SpaceOrTick(w: string, y: string)
    requires AllWhitespace(w)
    ensures var s := w + ("`" + y);
            && s[0] != '@'
            && (|s| > 1 ==> s[1] != '@' || s[0] == '`')
  {
    hide IsWhitespace;
    SlashIsNoSpace();
    var s := w + ("`" + y);
    assert w != "" ==> s[0] == w[0] && IsWhitespace(s[0]);
    assert |w| > 1 ==> s[1] == w[1] && IsWhitespace(s[1]);
    assert |w| == 1 ==> s[1] == '`';
  }

  lemma FirstTurnShows(e: string, start: nat, text: string)
    requires LoopTurn(e).Some? && LoopTurn(e).value.0 == start
    requires start < |text| && start <= |e| && text[..start] == e[..start] && text[start] == '`'
    ensures Squeeze(CompactFrom("", e)) != text
  {
    hide TrimEnd, TrimStart, Trim, CompactFrom, IsWhitespace, LoopTurn, SqueezeFrom, Rejoined;
    var (at, path, right) := LoopTurn(e).value;
    TurnIs("", e);
    var u := e[..start];
    assert "" + u == u;
    var next := Rejoined(u, path);
    RejoinedKeeps(u, path, Spaced(next, right)[|next|..]);
    OutIsKept(Spaced(next, right), right);
    HeadShows(u, text[start + 1..], CompactFrom("", e));
    assert text == u + ("`" + text[start + 1..]);
  }

  /** The first header of `head + more` when `more` cannot complete one that begins in `head`. */
  lemma HeaderInHead(head: string, more: string)
    requires LoopTurn(head + more).Some? && more != "" && (more[0] == '\n' || more[0] == '[')
    ensures
      var start := LoopTurn(head + more).value.0;
      && (start < |head| ==> start + |FILE_HEADER| <= |head| && head[start] == '`' && Contains(head, FILE_HEADER))
      && (Contains(head, FILE_HEADER) ==> start < |head|)
  {
    hide TrimStart, Trim, Find, LoopTurn, Contains;
    var e := head + more;
    var start, j, k := TurnAt(e);
    MatchChars(e, FILE_HEADER, start);
    HeaderChars();
    assert e[|head|] == more[0];
    if start + |FILE_HEADER| <= |head| {
      assert head[start..start + |FILE_HEADER|] == e[start..start + |FILE_HEADER|];
      assert MatchAt(head, FILE_HEADER, start);
      ContainsAt(head, FILE_HEADER, start);
    }
    if Contains(head, FILE_HEADER) {
      var i := WhereContained(head, FILE_HEADER);
      assert e[i..i + |FILE_HEADER|] == head[i..i + |FILE_HEADER|];
      FoundBy(e, FILE_HEADER, i);
    }
  }

  lemma ContainsAt(s: string, pat: string, i: nat)
    requires MatchAt(s, pat, i)
    ensures Contains(s, pat)
  {
  }

  lemma WhereContained(s: string, pat: string) returns (i: nat)
    requires Contains(s, pat)
    ensures i <= |s| && MatchAt(s, pat, i)
  {
    i :| i <= |s| && MatchAt(s, pat, i);
  }

  /** With a header in front of the mention and a block for the mention itself, the header's own
      line ends at the latest where that block begins, and a fence follows. */
  lemma HeadedNever(head: string, block: string, after: string)
    requires Contains(head, FILE_HEADER) && "\n" + FENCE <= block
    ensures Squeeze(CompactFrom("", head + block)) != head + after
  {
    hide TrimStart, Trim, Find, CompactFrom, SqueezeFrom, LoopTurn;
    var e := head + block;
    var i: nat :| i <= |head| && MatchAt(head, FILE_HEADER, i);
    assert e[i..i + |FILE_HEADER|] == head[i..i + |FILE_HEADER|];
    assert e[|head|] == block[0] == '\n';
    assert e[|head| + 1..|head| + 1 + |FENCE|] == block[1..1 + |FENCE|] == FENCE;
    assert BlockAt(e, i, |head|, |head| + 1);
    TurnsOnBlocks(e);
    HeaderInHead(head, block);
    var start := LoopTurn(e).value.0;
    FirstTurnShows(e, start, head + after);
  }

  /** A note in place of the file keeps its opening bracket, so the mention is lost. */
  lemma NoteNever(head: string, note: string, after: string)
    requires note != "" && note[0] == '['
    ensures Squeeze(CompactFrom("", head + note)) != head + ("@" + after)
  {
    hide TrimEnd, TrimStart, Trim, CompactFrom, IsWhitespace, Rejoined, LoopTurn, SqueezeFrom, HasBlankRun;
    var e, text := head + note, head + ("@" + after);
    if LoopTurn(e).Some? && LoopTurn(e).value.0 < |head| {
      HeaderInHead(head, note);
      FirstTurnShows(e, LoopTurn(e).value.0, text);
    } else {
      BracketKept(head, note);
      var r := CompactFrom("", e);
      SqueezeFixes(r);
      if !HasBlankRun(text) {
        FrontHasNoRun(head, text);
        SqueezeKeepsFront(head, "[", r);
        assert Squeeze(r)[|head|] == (head + "[")[|head|];
      }
    }
  }

  lemma {:induction false} BracketKept(head: string, note: string)
    requires note != "" && note[0] == '['
    requires LoopTurn(head + note).Some? ==> LoopTurn(head + note).value.0 >= |head|
    ensures head + "[" <= CompactFrom("", head + note)
  {
    hide TrimEnd, TrimStart, Trim, CompactFrom, IsWhitespace, Rejoined, LoopTurn;
    var e := head + note;
    assert "" + e == e;
    match LoopTurn(e)
    case None => CompactEnds("", e);
    case Some((start, path, right)) =>
      TurnIs("", e);
      BracketIsSolid();
      NoHeaderAtNote(head, note);
      var before := "" + e[..start];
      assert before == (head + "[") + e[|head| + 1..start];
      var next := Rejoined(before, path);
      RejoinedKeeps(before, path, Spaced(next, right)[|next|..]);
      OutIsKept(Spaced(next, right), right);
      TrimEndIs(head + "[", "");
      assert (head + "[") + "" == head + "[";
      TrimEndGrows(head + "[", e[|head| + 1..start]);
  }

  lemma NoHeaderAtNote(head: string, note: string)
    requires note != "" && note[0] == '[' && LoopTurn(head + note).Some?
    ensures LoopTurn(head + note).value.0 != |head|
  {
    hide LoopTurn, MatchAt;
    HeaderChars();
    MatchChars(head + note, FILE_HEADER, LoopTurn(head + note).value.0);
    assert (head + note)[|head| + 0] == '[';
  }

  lemma BracketIsSolid()
    ensures !IsWhitespace('[')
  {
  }

  lemma ReplacementIs(ws: Workspace, maxBytes: nat, path: string)
    ensures match FileBody(ws, maxBytes, path)
            case Some(body) => Replacement(ws, maxBytes, path) == Block(path, body)
            case None => Replacement(ws, maxBytes, path) != "" && Replacement(ws, maxBytes, path)[0] == '['
  {
    hide SafePath, Block, Body, Components;
  }

  // ----- texts with one mention -----

  lemma OneExpansion(text: string, ws: Workspace, wide: set<char>, maxBytes: nat, s: Span)
    requires Spans(text, wide) == [s] && s.from < s.to <= |text|
    ensures Expanded(text, ws, wide, maxBytes)
         == text[..s.from] + (Replacement(ws, maxBytes, PathOf(text, s)) + text[s.to..])
  {
    hide Spans, Replacement, PathOf;
    SpansInOrder(text, wide);
    var f := rel => Replacement(ws, maxBytes, rel);
    WovenEnds(text, s.to, f);
    assert [s][1..] == [];
    WovenStep(text, "", [s], 0, f);
    assert text[0..s.from] == text[..s.from];
  }

  lemma OneTidied(text: string, wide: set<char>, s: Span)
    requires Spans(text, wide) == [s] && s.from < s.to <= |text|
    ensures InOrder(text, [s], 0)
    ensures Tidied(text, [s]) == HeadGap(text[..s.from]) + "@" + PathOf(text, s) + TailGap(text[s.to..])
  {
    hide Spans, HeadGap, PathOf, TailGap;
    SpansInOrder(text, wide);
    assert [s][1..] == [];
  }

  lemma InkOfPath(text: string, wide: set<char>, s: Span)
    requires IsMention(text, wide, s)
    ensures Ink(PathOf(text, s)) == Ink(text[s.from + 1..s.to]) == s.to - s.from - 1
  {
    hide Ink, IsPathChar, IsWhitespace, StartsMention;
    var raw, p := text[s.from + 1..s.to], PathOf(text, s);
    SlashIsNoSpace();
    forall k | 0 <= k < |raw| ensures !IsWhitespace(raw[k]) && !IsWhitespace(p[k]) {
      assert raw[k] == text[s.from + 1 + k];
      PathCharsKeepClear(wide, raw[k]);
    }
    InkOfSolid(raw);
    InkOfSolid(p);
  }

  /** The block case, by whether the body has a fence. */
  lemma BlockComesBack(
    text: string, wide: set<char>, s: Span, body: string)
    requires Spans(text, wide) == [s] && s.from < s.to <= |text| && !Contains(text[..s.from], FILE_HEADER)
    ensures
      var e := text[..s.from] + (Block(PathOf(text, s), body) + text[s.to..]);
      Compacted(e) == text <==> !Contains(body, FENCE) && !HoldsBlock(text[s.to..]) && Tidy(text, wide)
  {
    hide Contains, HoldsBlock, Tidy, IsWhitespace, Spans, PathOf, SqueezeFrom, CompactFrom, HeadGap, TailGap, Tidied,
      Trim, TrimStart, Ink, Block, BlockTail, IsMention;
    var head, path, raw, tail := text[..s.from], PathOf(text, s), text[s.from + 1..s.to], text[s.to..];
    SpansAreExact(text, wide);
    assert IsMention(text, wide, Spans(text, wide)[0]);
    MentionParts(text, wide, s);
    PathIsPlain(text, wide, s);
    InkOfPath(text, wide, s);
    SamePath(text, s);
    var pre, rem := body, "\n\n" + tail;
    BlockShape(path, body, tail);
    if Contains(body, FENCE) {
      var post;
      pre, post := CutAtFence(body);
      rem := post + FENCE + "\n\n" + tail;
      BlockCut(path, pre, post, tail);
      FencedNever(head, path, raw, post, tail);
    } else {
      TrimStartOfBlank(tail);
      FencelessTail(head, path, raw, tail);
      OneTidied(text, wide, s);
      TidiedIsTidy(text, wide);
    }
    FirstFold(head, path, pre, rem);
    assert head + ("\n\n" + (FILE_HEADER + BlockTail(path, pre, rem)))
        == (head + "\n\n") + (FILE_HEADER + BlockTail(path, pre, rem));
  }

  lemma MentionParts(text: string, wide: set<char>, s: Span)
    requires IsMention(text, wide, s)
    ensures text == text[..s.from] + "@" + text[s.from + 1..s.to] + text[s.to..]
  {
    hide IsPathChar, IsAtMentionBoundary;
    assert text[s.from..s.from + 1] == "@";
  }

  lemma BlockCut(path: string, pre: string, post: string, tail: string)
    ensures Block(path, pre + FENCE + post) + tail
         == "\n\n" + (FILE_HEADER + BlockTail(path, pre, post + FENCE + "\n\n" + tail))
  {
    hide Block;
    BlockShape(path, pre + FENCE + post, tail);
    var a, b, c := pre + FENCE + post, FENCE + ("\n\n" + tail), post + FENCE + "\n\n" + tail;
    assert a + b == pre + (FENCE + c);
  }

  /** A text with exactly one mention, whatever stands round it and whatever the file holds, comes
      back exactly when the file can be shown and has no fence, no block header stands in front
      of the mention and no complete block behind it, and the text is tidy. */
  lemma OneMentionComesBack(
    text: string, ws: Workspace, wide: set<char>, maxBytes: nat, s: Span)
    requires Spans(text, wide) == [s]
    ensures s.from < s.to <= |text|
    ensures
      var shown := FileBody(ws, maxBytes, PathOf(text, s));
      Compacted(Expanded(text, ws, wide, maxBytes)) == text <==>
        && shown.Some? && !Contains(shown.value, FENCE)
        && !Contains(text[..s.from], FILE_HEADER) && !HoldsBlock(text[s.to..]) && Tidy(text, wide)
  {
    hide Contains, HoldsBlock, Tidy, IsWhitespace, Spans, PathOf, SqueezeFrom, CompactFrom, FileBody, Replacement,
      IsMention, Expanded;
    SpansAreExact(text, wide);
    assert IsMention(text, wide, Spans(text, wide)[0]);
    MentionEnds(text, wide, s);
    MentionParts(text, wide, s);
    OneExpansion(text, ws, wide, maxBytes, s);
    var head, tail, path := text[..s.from], text[s.to..], PathOf(text, s);
    var after := text[s.from + 1..s.to] + tail;
    assert text == head + ("@" + after);
    ReplacementIs(ws, maxBytes, path);
    match FileBody(ws, maxBytes, path)
    case None =>
      NoteNever(head, Replacement(ws, maxBytes, path) + tail, after);
    case Some(body) =>
      if Contains(head, FILE_HEADER) {
        BlockStarts(path, body, tail);
        HeadedNever(head, Block(path, body) + tail, "@" + after);
      } else {
        BlockComesBack(text, wide, s, body);
      }
  }

  lemma MentionEnds(text: string, wide: set<char>, s: Span)
    requires IsMention(text, wide, s)
    ensures s.from < s.to <= |text|
  {
  }

  lemma BlockStarts(path: string, body: string, tail: string)
    ensures "\n" + FENCE <= Block(path, body) + tail
  {
  }

  // ----- with a second mention, a fence can go unnoticed -----

  const SWALLOWING := "@a @ file:b @b"
  const SWALLOWING_A := FENCE + FILE_HEADER
  const SWALLOWING_B := FILE_HEADER + "b\n"

  lemma SwallowingSpans(wide: set<char>)
    ensures Spans(SWALLOWING, wide) == [Span(0, 2), Span(12, 14)]
  {
    hide Spans, Scan;
    var t, spans := SWALLOWING, [Span(0, 2), Span(12, 14)];
    assert t[0] == '@' && t[1] == 'a' && t[2] == ' ' && t[3] == '@' && t[4] == ' ' && t[11] == ' ' && t[12] == '@'
      && t[13] == 'b' && |t| == 14;
    assert t[5..11] == "file:b";
    assert forall p :: 5 <= p < 11 ==> t[p] == "file:b"[p - 5];
    assert IsMention(t, wide, spans[0]) && IsMention(t, wide, spans[1]);
    assert spans[0].from == 0 && spans[1].from == 12;
    assert Covers(spans, 0) && Covers(spans, 12);
    assert forall p: nat :: StartsMention(t, wide, p) ==> p == 0 || p == 12;
    SpansAreExact(t, wide);
    ExactIsUnique(t, wide, Spans(t, wide), spans, 0);
  }

  /** Two mentions: the file of the first has a fence, yet the text comes back. What is left of
      that file swallows the opening of the second block, up to a header inside the second file. */
  lemma SwallowedFence(ws: Workspace, wide: set<char>, maxBytes: nat)
    requires FileBody(ws, maxBytes, "a") == Some(SWALLOWING_A) && FileBody(ws, maxBytes, "b") == Some(SWALLOWING_B)
    ensures Contains(SWALLOWING_A, FENCE) && Compacted(Expanded(SWALLOWING, ws, wide, maxBytes)) == SWALLOWING
  {
    hide CompactFrom, SqueezeFrom, FileBody, Replacement, Spans, PathOf;
    SwallowingShown(ws, wide, maxBytes);
    SwallowingFolds();
    assert MatchAt(SWALLOWING_A, FENCE, 0);
    NoRunInShort(SWALLOWING);
    SqueezeFixes(SWALLOWING);
  }

  const SWALLOWING_REST := "file:b\n" + (FILE_HEADER + BlockTail("b", "", "\n\n"))
  const SWALLOWING_TAIL := FILE_HEADER + BlockTail("", "```\n\n @ file:b \n", SWALLOWING_REST)

  lemma TwoWoven(text: string, s: Span, t: Span, f: string -> string)
    requires s.from < s.to <= t.from < t.to <= |text|
    ensures InOrder(text, [s, t], 0)
    ensures Woven(text, [s, t], 0, f)
         == text[..s.from] + f(PathOf(text, s)) + text[s.to..t.from] + f(PathOf(text, t)) + text[t.to..]
  {
    hide PathOf, Woven;
    assert [s, t][1..] == [t] && [t][1..] == [];
    WovenEnds(text, t.to, f);
    assert InOrder(text, [t], s.to);
    WovenStep(text, text[..s.from] + f(PathOf(text, s)), [t], s.to, f);
    WovenStep(text, "", [s, t], 0, f);
    assert "" + text[0..s.from] == text[..s.from] && "" + Woven(text, [s, t], 0, f) == Woven(text, [s, t], 0, f);
  }

  lemma SwallowingShown(ws: Workspace, wide: set<char>, maxBytes: nat)
    requires FileBody(ws, maxBytes, "a") == Some(SWALLOWING_A) && FileBody(ws, maxBytes, "b") == Some(SWALLOWING_B)
    ensures Expanded(SWALLOWING, ws, wide, maxBytes)
         == ("" + "\n\n") + (FILE_HEADER + BlockTail("a", "", SWALLOWING_TAIL))
  {
    hide FileBody, Replacement, Spans, PathOf, Woven, Block, BlockTail;
    SwallowingSpans(wide);
    SwallowingPaths();
    ReplacementIs(ws, maxBytes, "a");
    ReplacementIs(ws, maxBytes, "b");
    TwoWoven(SWALLOWING, Span(0, 2), Span(12, 14), rel => Replacement(ws, maxBytes, rel));
    assert "" + Block("a", SWALLOWING_A) == Block("a", SWALLOWING_A);
    SwallowingText();
  }

  lemma SwallowingPaths()
    ensures PathOf(SWALLOWING, Span(0, 2)) == "a" && PathOf(SWALLOWING, Span(12, 14)) == "b"
    ensures SWALLOWING[..0] == "" && SWALLOWING[2..12] == " @ file:b " && SWALLOWING[14..] == ""
  {
    assert SWALLOWING[1..2] == "a" && SWALLOWING[13..14] == "b";
  }

  lemma SwallowingText()
    ensures (Block("a", SWALLOWING_A) + " @ file:b " + Block("b", SWALLOWING_B)) + ""
         == ("" + "\n\n") + (FILE_HEADER + BlockTail("a", "", SWALLOWING_TAIL))
  {
    hide Block, BlockTail;
    var tail := " @ file:b " + Block("b", SWALLOWING_B);
    BlockCut("a", "", FILE_HEADER, tail);
    assert "" + FENCE + FILE_HEADER == SWALLOWING_A;
    assert (Block("a", SWALLOWING_A) + " @ file:b " + Block("b", SWALLOWING_B)) + "" == Block("a", SWALLOWING_A) + tail;
    SwallowingTail();
    assert "" + "\n\n" == "\n\n";
  }

  lemma {:induction false} SwallowingTail()
    ensures FILE_HEADER + FENCE + "\n\n" + (" @ file:b " + Block("b", SWALLOWING_B)) == SWALLOWING_TAIL
  {
    hide Block;
    SecondBlock();
    assert "\n" + "```\n\n @ file:b \n" == FENCE + "\n\n" + " @ file:b " + "\n";
    RegroupTail("```\n\n @ file:b \n", " @ file:b ", SWALLOWING_REST);
  }

  lemma RegroupTail(m: string, gap: string, rest: string)
    requires "\n" + m == FENCE + "\n\n" + gap + "\n"
    ensures FILE_HEADER + FENCE + "\n\n" + (gap + ("\n" + FENCE + rest)) == FILE_HEADER + BlockTail("", m, rest)
  {
    assert BlockTail("", m, rest) == "\n" + m + FENCE + rest;
    assert FENCE + "\n\n" + gap + "\n" + FENCE + rest == FENCE + "\n\n" + (gap + ("\n" + FENCE + rest));
  }

  lemma SecondBlock()
    ensures Block("b", SWALLOWING_B) == "\n" + FENCE + SWALLOWING_REST
  {
    assert "\n\n" + FILE_HEADER + "b" + "\n" == "\n" + FENCE + "file:b\n";
    assert SWALLOWING_REST == "file:b\n" + (SWALLOWING_B + FENCE + "\n\n") by {
      assert BlockTail("b", "", "\n\n") == "b\n" + FENCE + "\n\n";
    }
  }

  lemma SwallowingFolds()
    ensures CompactFrom("", ("" + "\n\n") + (FILE_HEADER + BlockTail("a", "", SWALLOWING_TAIL))) == SWALLOWING
  {
    hide CompactFrom, BlockTail;
    FirstSwallowing();
    SecondSwallowing();
    ThirdSwallowing();
    NothingInEmpty();
    CompactEnds(SWALLOWING, "");
    SwallowingOut();
  }

  lemma FirstSwallowing()
    ensures CompactFrom("", ("" + "\n\n") + (FILE_HEADER + BlockTail("a", "", SWALLOWING_TAIL)))
         == CompactFrom("@a ", SWALLOWING_TAIL)
  {
    hide CompactFrom, BlockTail, Contains, IsWhitespace, TrimStart, TrimEnd, Trim, Find;
    SlashIsNoSpace();
    NothingInEmpty();
    SwallowingParts();
    SwallowingOut();
    PlainTrim("a");
    FirstFold("", "a", "", SWALLOWING_TAIL);
    TrimEndIs("", "");
    assert "" + "" == "" && "" + SWALLOWING_TAIL == SWALLOWING_TAIL;
    TrimStartIs("", SWALLOWING_TAIL);
  }

  lemma SecondSwallowing()
    ensures CompactFrom("@a ", SWALLOWING_TAIL) == CompactFrom("@a @ ", SWALLOWING_REST)
  {
    hide CompactFrom, BlockTail, Contains, IsWhitespace, TrimStart, TrimEnd, Trim, Find;
    SlashIsNoSpace();
    SwallowingParts();
    SwallowingOut();
    TrimOfEmpty();
    OneBlock("@a ", "", "", "```\n\n @ file:b \n", SWALLOWING_REST);
    TrimEndIs("@a", " ");
    assert "" + SWALLOWING_REST == SWALLOWING_REST && "" + SWALLOWING_TAIL == SWALLOWING_TAIL;
    assert "@a " + "" == "@a" + " ";
    TrimStartIs("", SWALLOWING_REST);
  }

  lemma ThirdSwallowing()
    ensures CompactFrom("@a @ ", SWALLOWING_REST) == CompactFrom(SWALLOWING, "")
  {
    hide CompactFrom, BlockTail, Contains, IsWhitespace, TrimStart, TrimEnd, Trim, Find;
    SlashIsNoSpace();
    SwallowingParts();
    SwallowingOut();
    PlainTrim("b");
    OneBlock("@a @ ", "file:b\n", "b", "", "\n\n");
    assert "@a @ " + "file:b\n" == "@a @ file:b" + "\n" && "\n\n" + "" == "\n\n";
    TrimEndIs("@a @ file:b", "\n");
    TrimStartIs("\n\n", "");
  }

  lemma SwallowingOut()
    ensures "" + "@" + "a" == "@a" && "@a" + " " == "@a "
    ensures "@a" + " " + "@" + "" == "@a @" && "@a @" + " " == "@a @ "
    ensures "@a @ file:b" + " " + "@" + "b" == SWALLOWING && SWALLOWING + "" == SWALLOWING
  {
  }

  lemma TrimOfEmpty()
    ensures Trim("") == ""
  {
  }

  lemma PlainTrim(s: string)
    requires |s| == 1 && !IsWhitespace(s[0])
    ensures Trim(s) == s
  {
    hide IsWhitespace, TrimStart, TrimEnd;
    TrimStartIs("", s);
    TrimEndIs(s, "");
    assert "" + s == s && s + "" == s;
  }

  lemma SwallowingParts()
    ensures !IsWhitespace('a') && !IsWhitespace('b') && !IsWhitespace('f')
    ensures !Contains("", FENCE) && !Contains("```\n\n @ file:b \n", FENCE)
    ensures SWALLOWING_TAIL[0] == '`' && SWALLOWING_REST[0] == 'f'
    ensures Find("" + SWALLOWING_TAIL, FILE_HEADER) == Some(|""|)
    ensures Find(SWALLOWING_REST, FILE_HEADER) == Some(|"file:b\n"|)
  {
    hide Find, BlockTail;
    var m := "```\n\n @ file:b \n";
    assert m[5..15] == " @ file:b ";
    assert forall i :: 5 <= i < 15 ==> m[i] == " @ file:b "[i - 5];
    forall i: nat | i <= |m| ensures !MatchAt(m, FENCE, i) {
      NoMatch(m, FENCE, i, if i == 3 || i == 4 || i == 15 then 1 else 0);
    }
    var line, block := "file:b\n", FILE_HEADER + BlockTail("b", "", "\n\n");
    assert (line + block)[7..15] == block[..8] == FILE_HEADER;
    forall i: nat | i < 7 ensures !MatchAt(SWALLOWING_REST, FILE_HEADER, i) {
      NoMatch(SWALLOWING_REST, FILE_HEADER, i, 0);
    }
    FindIs(SWALLOWING_REST, FILE_HEADER, 7);
    assert ("" + SWALLOWING_TAIL)[0..8] == FILE_HEADER;
    FindIs("" + SWALLOWING_TAIL, FILE_HEADER, 0);
  }

  lemma NoMatch(s: string, pat: string, i: nat, k: nat)
    requires k < |pat| && (i + k < |s| ==> s[i + k] != pat[k])
    ensures !MatchAt(s, pat, i)
  {
    assert i + |pat| <= |s| ==> s[i..i + |pat|][k] == s[i + k];
  }
}

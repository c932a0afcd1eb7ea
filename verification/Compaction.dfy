/** Compacting expanded file blocks back to `@path`: `collapse_expanded_file_blocks` and
    `collapse_excess_blank_lines` of `crates/common/src/message.rs`. */
module Compaction {
  import opened Text
  import opened Expansion

  // ----- runs of newlines -----

  /** What is kept of `s[i..]` when `run` newlines stand directly in front of it. */
  function SqueezeFrom(s: string, i: nat, run: nat): string
    requires i <= |s|
    decreases |s| - i
  {
    if i == |s| then ""
    else if s[i] == '\n' then (if run + 1 <= 2 then "\n" else "") + SqueezeFrom(s, i + 1, run + 1)
    else [s[i]] + SqueezeFrom(s, i + 1, 0)
  }

  function Squeeze(s: string): string {
    SqueezeFrom(s, 0, 0)
  }

  lemma SqueezeStep(s: string, i: nat, run: nat)
    requires i < |s|
    ensures s[i] == '\n' && run < 2 ==> SqueezeFrom(s, i, run) == [s[i]] + SqueezeFrom(s, i + 1, run + 1)
    ensures s[i] == '\n' && run >= 2 ==> SqueezeFrom(s, i, run) == SqueezeFrom(s, i + 1, run + 1)
    ensures s[i] != '\n' ==> SqueezeFrom(s, i, run) == [s[i]] + SqueezeFrom(s, i + 1, 0)
  {
    assert "" + SqueezeFrom(s, i + 1, run + 1) == SqueezeFrom(s, i + 1, run + 1);
  }

  lemma SqueezeEnds(s: string)
    ensures forall run: nat :: SqueezeFrom(s, |s|, run) == ""
  {
  }

  method CollapseExcessBlankLines(text: string) returns (out: string)
    ensures out == Squeeze(text)
  {
    hide SqueezeFrom;
    SqueezeEnds(text);
    out := "";
    var newlineRun := 0;
    for i := 0 to |text|
      invariant newlineRun >= 0
      invariant out + SqueezeFrom(text, i, newlineRun) == Squeeze(text)
    {
      var ch := text[i];
      SqueezeStep(text, i, newlineRun);
      ghost var rest := SqueezeFrom(text, i + 1, if ch == '\n' then newlineRun + 1 else 0);
      assert out + ([ch] + rest) == (out + [ch]) + rest;
      if ch == '\n' {
        newlineRun := newlineRun + 1;
        if newlineRun <= 2 {
          out := out + [ch];
        }
      } else {
        newlineRun := 0;
        out := out + [ch];
      }
    }
  }

  predicate HasBlankRun(s: string) {
    exists i :: 0 <= i < |s| - 2 && s[i] == '\n' && s[i + 1] == '\n' && s[i + 2] == '\n'
  }

  lemma BlankRunAt(s: string, i: nat)
    requires i + 2 < |s|
    ensures s[i] == '\n' && s[i + 1] == '\n' && s[i + 2] == '\n' ==> HasBlankRun(s)
  {
  }

  lemma BlankRunCons(c: char, t: string)
    ensures HasBlankRun([c] + t) <==>
      (c == '\n' && |t| >= 2 && t[0] == '\n' && t[1] == '\n') || HasBlankRun(t)
  {
    var r := [c] + t;
    if HasBlankRun(t) {
      var i :| 0 <= i < |t| - 2 && t[i] == '\n' && t[i + 1] == '\n' && t[i + 2] == '\n';
      BlankRunAt(r, i + 1);
    }
    if |t| >= 2 {
      BlankRunAt(r, 0);
    }
    if HasBlankRun(r) {
      var i :| 0 <= i < |r| - 2 && r[i] == '\n' && r[i + 1] == '\n' && r[i + 2] == '\n';
      if i > 0 {
        BlankRunAt(t, i - 1);
      }
    }
  }

  lemma {:induction false} SqueezeKeeps(s: string, i: nat, run: nat)
    requires i <= |s| && run <= i && run <= 2 && !HasBlankRun(s)
    requires forall j :: i - run <= j < i ==> s[j] == '\n'
    ensures SqueezeFrom(s, i, run) == s[i..]
    decreases |s| - i
  {
    hide HasBlankRun, SqueezeFrom;
    SqueezeEnds(s);
    if i < |s| {
      SqueezeStep(s, i, run);
      assert s[i..] == [s[i]] + s[i + 1..];
      if i >= 2 {
        BlankRunAt(s, i - 2);
      }
      if s[i] == '\n' {
        SqueezeKeeps(s, i + 1, run + 1);
      } else {
        SqueezeKeeps(s, i + 1, 0);
      }
    }
  }

  lemma {:induction false} SqueezeCleans(s: string, i: nat, run: nat)
    requires i <= |s|
    ensures var r := SqueezeFrom(s, i, run);
            && !HasBlankRun(r)
            && (run >= 1 && |r| >= 2 ==> r[0] != '\n' || r[1] != '\n')
            && (run >= 2 && r != "" ==> r[0] != '\n')
    decreases |s| - i
  {
    if i == |s| {
      assert !HasBlankRun("");
    } else {
      hide HasBlankRun;
      var run' := if s[i] == '\n' then run + 1 else 0;
      SqueezeCleans(s, i + 1, run');
      BlankRunCons(s[i], SqueezeFrom(s, i + 1, run'));
    }
  }

  /** Squeezing changes nothing exactly when no three newlines stand in a row. */
  lemma SqueezeFixes(s: string)
    ensures !HasBlankRun(Squeeze(s))
    ensures Squeeze(s) == s <==> !HasBlankRun(s)
  {
    SqueezeCleans(s, 0, 0);
    if !HasBlankRun(s) {
      SqueezeKeeps(s, 0, 0);
    }
  }

  /** A newline with two others directly in front of it. */
  predicate Excess(s: string, i: nat)
    requires i < |s|
  {
    i >= 2 && s[i] == '\n' && s[i - 1] == '\n' && s[i - 2] == '\n'
  }

  /** `s[i..]` without its excess newlines. */
  function WithoutExcess(s: string, i: nat): string
    requires i <= |s|
    decreases |s| - i
  {
    if i == |s| then "" else (if Excess(s, i) then "" else [s[i]]) + WithoutExcess(s, i + 1)
  }

  lemma {:induction false} SqueezeFromFilters(s: string, i: nat, run: nat)
    requires run <= i <= |s|
    requires forall j :: i - run <= j < i ==> s[j] == '\n'
    requires run < i ==> s[i - run - 1] != '\n'
    ensures SqueezeFrom(s, i, run) == WithoutExcess(s, i)
    decreases |s| - i
  {
    if i < |s| {
      SqueezeFromFilters(s, i + 1, if s[i] == '\n' then run + 1 else 0);
    }
  }

  /** Squeezing drops the excess newlines and no other character. */
  lemma SqueezeDropsExcess(s: string)
    ensures Squeeze(s) == WithoutExcess(s, 0)
  {
    SqueezeFromFilters(s, 0, 0);
  }

  // ----- file blocks -----

  /** The text after the compaction loop has `out` behind it and `rest` in front of it. */
  function CompactFrom(out: string, rest: string): string
    decreases |rest|
  {
    match Find(rest, FILE_HEADER)
    case None => out + rest
    case Some(start) =>
      var afterHeader := rest[start + |FILE_HEADER|..];
      match Find(afterHeader, "\n")
      case None => out + rest
      case Some(headerEnd) =>
        var path := Trim(afterHeader[..headerEnd]);
        var afterBody := afterHeader[headerEnd + 1..];
        match Find(afterBody, FENCE)
        case None => out + rest
        case Some(blockEnd) =>
          var left := TrimEnd(out + rest[..start]);
          var right := TrimStart(afterBody[blockEnd + |FENCE|..]);
          CompactFrom(left + (if left == "" then "" else " ") + "@" + path + (if right == "" then "" else " "), right)
  }

  function Compacted(text: string): string {
    Squeeze(CompactFrom("", text))
  }

  /** Without a complete block in `rest` the loop stops and keeps everything. */
  lemma CompactStops(out: string, rest: string)
    requires
      || Find(rest, FILE_HEADER).None?
      || (var after := rest[Find(rest, FILE_HEADER).value + |FILE_HEADER|..];
          || Find(after, "\n").None?
          || Find(after[Find(after, "\n").value + 1..], FENCE).None?)
    ensures CompactFrom(out, rest) == out + rest
  {
  }

  /** The text behind the loop after one block, given what stood before it and its path. */
  function Rejoined(before: string, path: string): string {
    var left := TrimEnd(before);
    left + (if left == "" then "" else " ") + "@" + path
  }

  function Spaced(out: string, right: string): string {
    out + (if right == "" then "" else " ")
  }

  /** One turn of the loop on a complete block. */
  lemma CompactTurn(out: string, rest: string, start: nat, headerEnd: nat, blockEnd: nat)
    requires Find(rest, FILE_HEADER) == Some(start)
    requires Find(rest[start + |FILE_HEADER|..], "\n") == Some(headerEnd)
    requires Find(rest[start + |FILE_HEADER|..][headerEnd + 1..], FENCE) == Some(blockEnd)
    ensures
      var after := rest[start + |FILE_HEADER|..];
      var right := TrimStart(after[headerEnd + 1..][blockEnd + |FENCE|..]);
      && |right| < |rest|
      && CompactFrom(out, rest)
         == CompactFrom(Spaced(Rejoined(out + rest[..start], Trim(after[..headerEnd])), right), right)
  {
    hide TrimEnd, TrimStart, Trim, Find;
    RightIsShorter(rest[start + |FILE_HEADER|..][headerEnd + 1..][blockEnd + |FENCE|..]);
  }

  lemma RightIsShorter(s: string)
    ensures |TrimStart(s)| <= |s|
  {
  }

  method CollapseExpandedFileBlocks(text: string) returns (result: string)
    ensures result == Compacted(text)
  {
    hide Squeeze, TrimStart, TrimEnd, Trim, CompactFrom;
    var out, rest := "", text;
    while true
      invariant CompactFrom(out, rest) == CompactFrom("", text)
      decreases |rest|
    {
      var start := Find(rest, FILE_HEADER);
      if start.None? {
        CompactStops(out, rest);
        break;
      }
      var afterHeaderMarker := rest[start.value..];
      var afterHeader := afterHeaderMarker[|FILE_HEADER|..];
      assert afterHeader == rest[start.value + |FILE_HEADER|..];
      assert (out + rest[..start.value]) + afterHeaderMarker == out + rest;
      ghost var before := out;
      out := out + rest[..start.value];

      var headerEnd := Find(afterHeader, "\n");
      if headerEnd.None? {
        CompactStops(before, rest);
        out := out + afterHeaderMarker;
        result := CollapseExcessBlankLines(out);
        return;
      }
      var path := Trim(afterHeader[..headerEnd.value]);
      var afterBody := afterHeader[headerEnd.value + 1..];
      var blockEnd := Find(afterBody, FENCE);
      if blockEnd.None? {
        CompactStops(before, rest);
        out := out + afterHeaderMarker;
        result := CollapseExcessBlankLines(out);
        return;
      }

      CompactTurn(before, rest, start.value, headerEnd.value, blockEnd.value);
      out := TrimEnd(out);
      if out != "" {
        out := out + " ";
      }
      out := out + "@";
      out := out + path;
      assert out == Rejoined(before + rest[..start.value], path);
      rest := TrimStart(afterBody[blockEnd.value + |FENCE|..]);
      assert out + "" == out;
      if rest != "" {
        out := out + " ";
      }
    }
    out := out + rest;
    result := CollapseExcessBlankLines(out);
  }
}

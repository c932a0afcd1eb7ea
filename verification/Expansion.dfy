/** Expansion of `@path` mentions into fenced file blocks: `normalize_join` and
    `expand_at_file_mentions` of `crates/cli/src/file_mentions.rs`. */
module Expansion {
  import opened Text
  import opened Mentions
  import opened Sorting

  datatype ReadResult = Bytes(bytes: seq<bv8>) | Failed(error: string)

  /** What the expander sees of the outside: the workspace root as path components, the
      contents of a file, and the lossy UTF-8 decoder. */
  datatype Workspace = Workspace(root: seq<string>, read: seq<string> -> ReadResult, decode: seq<bv8> -> string)

  // ----- normalize_join -----

  function StripDotSlash(rel: string): string {
    if "./" <= rel then StripDotSlash(rel[2..]) else rel
  }

  /** `Path::components` without its root: separators collapse, and a `.` is no component. */
  function Components(rel: string): seq<string> {
    NamedParts(Split(rel, '/'))
  }

  function NamedParts(parts: seq<string>): (r: seq<string>)
    ensures forall k :: 0 <= k < |r| ==> r[k] != "" && r[k] != "." && r[k] in parts
  {
    if parts == [] then []
    else (if parts[0] == "" || parts[0] == "." then [] else [parts[0]]) + NamedParts(parts[1..])
  }

  /** A path is safe when it is relative and never climbs to a parent. */
  predicate SafePath(rel: string) {
    var r := StripDotSlash(rel);
    !("/" <= r) && ".." !in Components(r)
  }

  lemma NamedPartsConcat(a: seq<string>, b: seq<string>)
    ensures NamedParts(a + b) == NamedParts(a) + NamedParts(b)
  {
    if a == [] {
      assert a + b == b;
    } else {
      assert (a + b)[0] == a[0] && (a + b)[1..] == a[1..] + b;
      NamedPartsConcat(a[1..], b);
    }
  }

  lemma {:induction false} ClimbsWithPart(parts: seq<string>)
    ensures ".." in NamedParts(parts) <==> ".." in parts
  {
    if parts != [] {
      ClimbsWithPart(parts[1..]);
      assert parts == [parts[0]] + parts[1..];
    }
  }

  lemma {:induction false} DotSlashGone(rel: string)
    ensures !("./" <= StripDotSlash(rel))
  {
    if "./" <= rel {
      DotSlashGone(rel[2..]);
    }
  }

  /** Leading `./` make no difference to where a path leads, nor to whether it climbs. */
  lemma {:induction false} DotSlashIsNothing(rel: string)
    ensures Components(StripDotSlash(rel)) == Components(rel)
    ensures ".." in Components(rel) <==> ".." in Split(rel, '/')
  {
    hide Split;
    ClimbsWithPart(Split(rel, '/'));
    if "./" <= rel {
      var rest := rel[2..];
      DotSlashIsNothing(rest);
      assert rel == "." + (['/'] + rest);
      SplitOnce(".", '/', rest);
      NamedPartsConcat(["."], Split(rest, '/'));
      assert [] + Components(rest) == Components(rest);
    }
  }

  /** The joined path, or None where the program returns an empty one. */
  method NormalizeJoin(root: seq<string>, rel: string) returns (full: Option<seq<string>>)
    ensures full == if SafePath(rel) then Some(root + Components(StripDotSlash(rel))) else None
    ensures full.Some? <==> !("/" <= StripDotSlash(rel)) && ".." !in Split(rel, '/')
    ensures full.Some? ==> full.value == root + Components(rel) && ".." !in full.value[|root|..]
  {
    hide Split, StripDotSlash, Components;
    DotSlashIsNothing(rel);
    var r := StripDotSlash(rel);
    if "/" <= r {
      return None;
    }
    var base := root;
    var parts := Components(r);
    for k := 0 to |parts|
      invariant base == root + parts[..k]
      invariant ".." !in parts[..k]
    {
      if parts[k] == ".." {
        assert parts[k] in parts;
        return None;
      }
      base := base + [parts[k]];
    }
    assert parts[..|parts|] == parts;
    assert base[|root|..] == parts;
    return Some(base);
  }

  // ----- the text that replaces one mention -----

  const FILE_HEADER := "```file:"
  const FENCE := "\n```"

  function Shown(bytes: seq<bv8>, maxBytes: nat): nat {
    if |bytes| < maxBytes then |bytes| else maxBytes
  }

  /** The file contents as shown, with the note that a longer file was cut. */
  function Body(ws: Workspace, maxBytes: nat, bytes: seq<bv8>): string {
    var n := Shown(bytes, maxBytes);
    ws.decode(bytes[..n]) +
    if |bytes| > maxBytes then
      "\n\U{2026} truncated (" + Decimal(|bytes|) + " bytes, showing first " + Decimal(n) + ")\n"
    else ""
  }

  function Block(rel: string, body: string): string {
    "\n\n" + FILE_HEADER + rel + "\n" + body + FENCE + "\n\n"
  }

  /** The body shown for `rel`, when the path is safe and the file can be read. */
  function FileBody(ws: Workspace, maxBytes: nat, rel: string): Option<string> {
    if !SafePath(rel) then None
    else
      match ws.read(ws.root + Components(StripDotSlash(rel)))
      case Bytes(bytes) => Some(Body(ws, maxBytes, bytes))
      case Failed(_) => None
  }

  function Replacement(ws: Workspace, maxBytes: nat, rel: string): string {
    if !SafePath(rel) then "[nca: skipped unsafe path @" + rel + "]"
    else
      match ws.read(ws.root + Components(StripDotSlash(rel)))
      case Bytes(bytes) => Block(rel, Body(ws, maxBytes, bytes))
      case Failed(error) => "[nca: could not read @" + rel + ": " + error + "]"
  }

  /** What stands for the mention of `rel` afterwards, told by what reading the file gives. */
  predicate StandsFor(ws: Workspace, maxBytes: nat, rel: string, shown: string) {
    if !SafePath(rel) then shown == "[nca: skipped unsafe path @" + rel + "]"
    else
      match ws.read(ws.root + Components(StripDotSlash(rel)))
      case Failed(error) => shown == "[nca: could not read @" + rel + ": " + error + "]"
      case Bytes(bytes) =>
        var body :=
          if |bytes| <= maxBytes then ws.decode(bytes)
          else
            ws.decode(bytes[..maxBytes]) +
            ("\n\U{2026} truncated (" + Decimal(|bytes|) + " bytes, showing first " + Decimal(maxBytes) + ")\n");
        shown == "\n\n```file:" + rel + "\n" + body + "\n```" + "\n\n"
  }

  lemma BodyShows(ws: Workspace, maxBytes: nat, bytes: seq<bv8>)
    ensures |bytes| <= maxBytes ==> Body(ws, maxBytes, bytes) == ws.decode(bytes)
  {
    hide Decimal;
    assert bytes[..|bytes|] == bytes;
    assert ws.decode(bytes) + "" == ws.decode(bytes);
  }

  /** A whole file up to the limit, the first bytes and both counts above it, and a note of its own
      for a path that is not safe and for a file that cannot be read. */
  lemma ReplacementStandsFor(ws: Workspace, maxBytes: nat, rel: string)
    ensures StandsFor(ws, maxBytes, rel, Replacement(ws, maxBytes, rel))
  {
    hide Decimal, SafePath, Components, StripDotSlash;
    if SafePath(rel) && ws.read(ws.root + Components(StripDotSlash(rel))).Bytes? {
      BodyShows(ws, maxBytes, ws.read(ws.root + Components(StripDotSlash(rel))).bytes);
    }
  }

  // ----- the meaning of expansion: untouched gaps and replacements, in order -----

  predicate InOrder(text: string, spans: seq<Span>, pos: nat) {
    && pos <= |text|
    && (spans != [] ==> pos <= spans[0].from < spans[0].to && InOrder(text, spans[1..], spans[0].to))
  }

  function Woven(text: string, spans: seq<Span>, pos: nat, f: string -> string): string
    requires InOrder(text, spans, pos)
    decreases |spans|
  {
    if spans == [] then text[pos..]
    else
      var s := spans[0];
      assert InOrder(text, spans[1..], s.to);
      text[pos..s.from] + f(PathOf(text, s)) + Woven(text, spans[1..], s.to, f)
  }

  /** The change of length, mention by mention. */
  function Growth(text: string, spans: seq<Span>, f: string -> string): int
    requires InText(text, spans)
  {
    if spans == [] then 0
    else
      ByteLen(f(PathOf(text, spans[0]))) - ByteLen(text[spans[0].from..spans[0].to])
      + Growth(text, spans[1..], f)
  }

  lemma {:induction false} WovenLength(text: string, spans: seq<Span>, pos: nat, f: string -> string)
    requires InOrder(text, spans, pos) && InText(text, spans)
    ensures ByteLen(Woven(text, spans, pos, f)) == ByteLen(text[pos..]) + Growth(text, spans, f)
    decreases |spans|
  {
    hide ByteLen, PathOf;
    if spans != [] {
      var s, rest := spans[0], spans[1..];
      WovenLength(text, rest, s.to, f);
      ByteLenConcat3(text[pos..s.from], f(PathOf(text, s)), Woven(text, rest, s.to, f));
      Cut3(text, pos, s.from, s.to);
      ByteLenConcat3(text[pos..s.from], text[s.from..s.to], text[s.to..]);
    }
  }

  lemma {:induction false} WellSpacedInOrder(text: string, wide: set<char>, spans: seq<Span>, pos: nat)
    requires WellSpaced(text, wide, spans) && pos <= |text|
    requires spans != [] ==> pos <= spans[0].from
    ensures InOrder(text, spans, pos) && InText(text, spans)
    decreases |spans|
  {
    hide IsPathChar, IsAtMentionBoundary, StartsMention;
    if spans != [] {
      assert IsMention(text, wide, spans[0]);
      WellSpacedInOrder(text, wide, spans[1..], spans[0].to);
    }
  }

  lemma SpansInOrder(text: string, wide: set<char>)
    ensures InOrder(text, Spans(text, wide), 0) && InText(text, Spans(text, wide))
  {
    SpansAreExact(text, wide);
    WellSpacedInOrder(text, wide, Spans(text, wide), 0);
  }

  function Expanded(text: string, ws: Workspace, wide: set<char>, maxBytes: nat): string {
    SpansInOrder(text, wide);
    Woven(text, Spans(text, wide), 0, rel => Replacement(ws, maxBytes, rel))
  }

  /** The gaps of the text as they were, and for each mention what stands for its path. */
  ghost predicate IsExpansion(result: string, text: string, ws: Workspace, wide: set<char>, maxBytes: nat) {
    && InOrder(text, Spans(text, wide), 0)
    && exists f: string -> string ::
         result == Woven(text, Spans(text, wide), 0, f) && forall rel :: StandsFor(ws, maxBytes, rel, f(rel))
  }

  lemma ExpandedIsExpansion(text: string, ws: Workspace, wide: set<char>, maxBytes: nat)
    ensures IsExpansion(Expanded(text, ws, wide, maxBytes), text, ws, wide, maxBytes)
  {
    hide StandsFor, Replacement, Woven, InOrder, Spans;
    SpansInOrder(text, wide);
    var f := rel => Replacement(ws, maxBytes, rel);
    forall rel ensures StandsFor(ws, maxBytes, rel, f(rel)) {
      ReplacementStandsFor(ws, maxBytes, rel);
    }
  }

  // ----- the splice loop -----

  datatype Insert = Insert(start: nat, end: nat, replacement: string)

  /** The order of `sort_by_key` on the start offset. */
  predicate StartsBefore(a: Insert, b: Insert) {
    a.start <= b.start
  }

  lemma StartsGrow(text: string, a: nat, b: nat)
    requires a <= b <= |text|
    ensures ByteLen(text[..b]) == ByteLen(text[..a]) + ByteLen(text[a..b])
  {
    assert text[..b] == text[..a] + text[a..b];
    ByteLenConcat(text[..a], text[a..b]);
  }

  /** What one replacement finds: the text so far is `w`, the part not yet reached is
      `text[pos..]`, and `shift` is the growth so far. The shifted offsets are character
      boundaries inside the text and select exactly the mention. */
  lemma SpliceStep(text: string, w: string, pos: nat, s: Span, shift: int, with: string)
    requires pos <= s.from < s.to <= |text|
    requires shift == ByteLen(w) - ByteLen(text[..pos])
    ensures
      var result := w + text[pos..];
      var from, to := ByteLen(text[..s.from]) + shift, ByteLen(text[..s.to]) + shift;
      && 0 <= from <= to <= ByteLen(result)
      && CharIndex(result, from).Some? && CharIndex(result, to).Some?
      && ReplaceRange(result, from, to, with) == w + text[pos..s.from] + with + text[s.to..]
      && shift + ByteLen(with) - (ByteLen(text[..s.to]) - ByteLen(text[..s.from]))
         == ByteLen(w + text[pos..s.from] + with) - ByteLen(text[..s.to])
  {
    hide ByteLen, CharIndex, ReplaceRange;
    var gap, cut, tail := text[pos..s.from], text[s.from..s.to], text[s.to..];
    StartsGrow(text, pos, s.from);
    StartsGrow(text, s.from, s.to);
    ByteLenConcat(w, gap);
    ByteLenConcat(w + gap, with);
    Cut3(text, pos, s.from, s.to);
    assert w + text[pos..] == (w + gap) + cut + tail;
    ReplaceMiddle(w + gap, cut, tail, with);
  }

  lemma WovenStep(text: string, w: string, spans: seq<Span>, pos: nat, f: string -> string)
    requires spans != [] && InOrder(text, spans, pos)
    ensures InOrder(text, spans[1..], spans[0].to)
    ensures w + Woven(text, spans, pos, f)
         == (w + text[pos..spans[0].from] + f(PathOf(text, spans[0]))) + Woven(text, spans[1..], spans[0].to, f)
  {
    hide PathOf;
    var a, b, c := text[pos..spans[0].from], f(PathOf(text, spans[0])), Woven(text, spans[1..], spans[0].to, f);
    assert Woven(text, spans, pos, f) == a + b + c;
    assert w + (a + b + c) == (w + a + b) + c;
  }

  function InsertOf(text: string, s: Span, f: string -> string): Insert
    requires s.from < s.to <= |text|
  {
    Insert(ByteLen(text[..s.from]), ByteLen(text[..s.to]), f(PathOf(text, s)))
  }

  function ClampToZero(n: int): nat {
    if n < 0 then 0 else n
  }

  /** In place, with a running signed offset, the splice yields the concatenation. */
  method Splice(text: string, inserts: seq<Insert>, ghost spans: seq<Span>, ghost f: string -> string)
    returns (result: string)
    requires InOrder(text, spans, 0) && InText(text, spans)
    requires |inserts| == |spans| && forall k :: 0 <= k < |spans| ==> inserts[k] == InsertOf(text, spans[k], f)
    ensures result == Woven(text, spans, 0, f)
  {
    hide ByteLen, CharIndex, ReplaceRange, PathOf, Woven, InOrder;
    assert ByteLen("") == 0 by { ByteLenConcat("", ""); assert "" + "" == ""; }
    var offset: int := 0;
    result := text;
    ghost var w: string := "";
    ghost var pos: nat := 0;
    assert text[..0] == "" && spans[0..] == spans && text[0..] == text;
    assert w + Woven(text, spans, 0, f) == Woven(text, spans, 0, f);
    for k := 0 to |inserts|
      invariant pos <= |text| && InOrder(text, spans[k..], pos)
      invariant result == w + text[pos..]
      invariant offset == ByteLen(w) - ByteLen(text[..pos])
      invariant w + Woven(text, spans[k..], pos, f) == Woven(text, spans, 0, f)
    {
      var Insert(start, end, replacement) := inserts[k];
      ghost var s := spans[k];
      assert spans[k..][0] == s && spans[k..][1..] == spans[k + 1..];
      FirstInOrder(text, spans[k..], pos);
      SpliceStep(text, w, pos, s, offset, replacement);
      WovenStep(text, w, spans[k..], pos, f);
      var from := ClampToZero(start + offset);
      var to := ClampToZero(end + offset);
      if from <= to && to <= ByteLen(result) {
        result := ReplaceRange(result, from, to, replacement);
        offset := offset + ByteLen(replacement) - (end - start);
      }
      w, pos := w + text[pos..s.from] + replacement, s.to;
    }
    WovenEnds(text, pos, f);
    assert spans[|inserts|..] == [];
  }

  lemma FirstInOrder(text: string, spans: seq<Span>, pos: nat)
    requires spans != [] && InOrder(text, spans, pos)
    ensures pos <= spans[0].from < spans[0].to <= |text|
  {
  }

  lemma WovenEnds(text: string, pos: nat, f: string -> string)
    requires pos <= |text|
    ensures InOrder(text, [], pos) && Woven(text, [], pos, f) == text[pos..]
  {
  }

  method ExpandAtFileMentions(text: string, ws: Workspace, wide: set<char>, maxBytes: nat) returns (result: string)
    ensures result == Expanded(text, ws, wide, maxBytes)
    ensures IsExpansion(result, text, ws, wide, maxBytes)
  {
    hide Scan, PathOf, ByteLen, SafePath, Block, Body, SortBy, IsExpansion, Components, StripDotSlash, Split, InOrder;
    var mentions := ParseAtMentions(text, wide);
    ghost var spans, f := Spans(text, wide), rel => Replacement(ws, maxBytes, rel);
    SpansInOrder(text, wide);
    ExpandedIsExpansion(text, ws, wide, maxBytes);
    if mentions == [] {
      assert text[0..] == text;
      return text;
    }
    var inserts: seq<Insert> := [];
    for k := 0 to |mentions|
      invariant |inserts| == k
      invariant forall j :: 0 <= j < k ==> inserts[j] == InsertOf(text, spans[j], f)
    {
      var Mention(start, end, rel) := mentions[k];
      var full := NormalizeJoin(ws.root, rel);
      if full.None? || !(ws.root <= full.value) {
        inserts := inserts + [Insert(start, end, "[nca: skipped unsafe path @" + rel + "]")];
        continue;
      }
      match ws.read(full.value)
      case Bytes(bytes) =>
        inserts := inserts + [Insert(start, end, Block(rel, Body(ws, maxBytes, bytes)))];
      case Failed(error) =>
        inserts := inserts + [Insert(start, end, "[nca: could not read @" + rel + ": " + error + "]")];
    }
    SortIsIdentity(text, wide, inserts, f);
    inserts := SortBy(StartsBefore, inserts);
    result := Splice(text, inserts, spans, f);
  }

  lemma {:induction false} SortIsIdentity(text: string, wide: set<char>, inserts: seq<Insert>, f: string -> string)
    requires InText(text, Spans(text, wide)) && |inserts| == |Spans(text, wide)|
    requires forall k :: 0 <= k < |inserts| ==> inserts[k] == InsertOf(text, Spans(text, wide)[k], f)
    ensures SortBy(StartsBefore, inserts) == inserts
  {
    hide IsMention, SortBy, PathOf, ByteLen;
    var spans := Spans(text, wide);
    SpansAreExact(text, wide);
    forall k | 0 < k < |inserts| ensures StartsBefore(inserts[k - 1], inserts[k]) {
      StartsGrow(text, spans[k - 1].from, spans[k].from);
    }
    OrderedStays(StartsBefore, inserts);
  }
}

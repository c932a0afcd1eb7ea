/** Strings as the program sees them: sequences of Unicode scalar values whose
    positions are byte offsets into their UTF-8 encoding. */
module Text {

  datatype Option<+T> = None | Some(value: T)

  // ----- characters -----

  /** `char::is_whitespace`: the code points with the Unicode property White_Space. */
  predicate IsWhitespace(c: char) {
    var n := c as int;
    || 0x9 <= n <= 0xD || n == 0x20 || n == 0x85 || n == 0xA0 || n == 0x1680
    || 0x2000 <= n <= 0x200A || n == 0x2028 || n == 0x2029 || n == 0x202F
    || n == 0x205F || n == 0x3000
  }

  /** `char::len_utf8`. */
  function Utf8Width(c: char): (w: nat)
    ensures 1 <= w <= 4
  {
    var n := c as int;
    if n < 0x80 then 1 else if n < 0x800 then 2 else if n < 0x10000 then 3 else 4
  }

  /** Where the widths of UTF-8 change. */
  lemma WidthsChange()
    ensures Utf8Width('\U{7F}') == 1 && Utf8Width('\U{80}') == 2 && Utf8Width('\U{7FF}') == 2
    ensures Utf8Width('\U{800}') == 3 && Utf8Width('\U{FFFF}') == 3 && Utf8Width('\U{10000}') == 4
  {
  }

  // ----- byte offsets -----

  function ByteLen(s: string): nat {
    if s == [] then 0 else Utf8Width(s[0]) + ByteLen(s[1..])
  }

  lemma {:induction false} ByteLenConcat(a: string, b: string)
    ensures ByteLen(a + b) == ByteLen(a) + ByteLen(b)
  {
    if a == [] {
      assert a + b == b;
    } else {
      ByteLenConcat(a[1..], b);
      assert (a + b)[1..] == a[1..] + b;
    }
  }

  lemma ByteLenConcat3(a: string, b: string, c: string)
    ensures ByteLen(a + b + c) == ByteLen(a) + ByteLen(b) + ByteLen(c)
  {
    ByteLenConcat(a + b, c);
    ByteLenConcat(a, b);
  }

  /** The character index that sits at byte offset `b`, if `b` is on a character boundary. */
  function CharIndex(s: string, b: nat): (r: Option<nat>)
    ensures r.Some? ==> r.value <= |s|
  {
    if b == 0 then Some(0)
    else if s == [] || b < Utf8Width(s[0]) then None
    else
      match CharIndex(s[1..], b - Utf8Width(s[0]))
      case None => None
      case Some(i) => Some(i + 1)
  }

  lemma {:induction false} CharIndexOfPrefix(a: string, b: string)
    ensures CharIndex(a + b, ByteLen(a)) == Some(|a|)
  {
    if a != [] {
      CharIndexOfPrefix(a[1..], b);
      assert (a + b)[1..] == a[1..] + b;
    }
  }

  /** `String::replace_range`: it panics unless both ends are character boundaries in order. */
  function ReplaceRange(s: string, from: nat, to: nat, with: string): string
    requires from <= to
    requires CharIndex(s, from).Some? && CharIndex(s, to).Some?
  {
    s[..CharIndex(s, from).value] + with + s[CharIndex(s, to).value..]
  }

  lemma {:induction false} ReplaceMiddle(a: string, b: string, c: string, with: string)
    ensures var s := a + b + c;
            && CharIndex(s, ByteLen(a)).Some? && CharIndex(s, ByteLen(a) + ByteLen(b)).Some?
            && ByteLen(a) + ByteLen(b) <= ByteLen(s)
            && ReplaceRange(s, ByteLen(a), ByteLen(a) + ByteLen(b), with) == a + with + c
  {
    CharIndexOfPrefix(a, b + c);
    assert a + b + c == a + (b + c);
    CharIndexOfPrefix(a + b, c);
    ByteLenConcat(a, b);
    ByteLenConcat(a + b, c);
  }

  // ----- trimming -----

  /** The first position at or after `i` that holds no whitespace. */
  function SkipWhitespace(s: string, i: nat): (r: nat)
    requires i <= |s|
    ensures i <= r <= |s|
    ensures forall j :: i <= j < r ==> IsWhitespace(s[j])
    ensures r < |s| ==> !IsWhitespace(s[r])
    decreases |s| - i
  {
    if i < |s| && IsWhitespace(s[i]) then SkipWhitespace(s, i + 1) else i
  }

  /** The last position at or before `i` that has no whitespace just in front of it. */
  function DropWhitespace(s: string, i: nat): (r: nat)
    requires i <= |s|
    ensures r <= i
    ensures forall j :: r <= j < i ==> IsWhitespace(s[j])
    ensures r > 0 ==> !IsWhitespace(s[r - 1])
  {
    if i > 0 && IsWhitespace(s[i - 1]) then DropWhitespace(s, i - 1) else i
  }

  function TrimStart(s: string): string {
    s[SkipWhitespace(s, 0)..]
  }

  function TrimEnd(s: string): string {
    s[..DropWhitespace(s, |s|)]
  }

  function Trim(s: string): string {
    TrimEnd(TrimStart(s))
  }

  predicate AllWhitespace(s: string) {
    forall i :: 0 <= i < |s| ==> IsWhitespace(s[i])
  }

  /** How `trim_start` is recognised: whitespace comes off, then something else follows. */
  lemma TrimStartIs(w: string, t: string)
    requires AllWhitespace(w)
    requires t != "" ==> !IsWhitespace(t[0])
    ensures TrimStart(w + t) == t
  {
    hide IsWhitespace;
    var s := w + t;
    var n := SkipWhitespace(s, 0);
    assert forall i :: 0 <= i < |w| ==> s[i] == w[i];
    assert t != "" ==> s[|w|] == t[0];
    assert n == |w| && s[|w|..] == t;
  }

  lemma TrimEndIs(t: string, w: string)
    requires AllWhitespace(w)
    requires t != "" ==> !IsWhitespace(t[|t| - 1])
    ensures TrimEnd(t + w) == t
  {
    hide IsWhitespace;
    var s := t + w;
    var n := DropWhitespace(s, |s|);
    assert forall i :: |t| <= i < |s| ==> s[i] == w[i - |t|];
    assert t != "" ==> s[|t| - 1] == t[|t| - 1];
    assert n == |t| && s[..|t|] == t;
  }

  /** Every string is whitespace followed by its `trim_start`. */
  lemma SplitStart(s: string) returns (w: string)
    ensures AllWhitespace(w) && s == w + TrimStart(s)
    ensures TrimStart(s) != "" ==> !IsWhitespace(TrimStart(s)[0])
  {
    w := s[..SkipWhitespace(s, 0)];
  }

  lemma SplitEnd(s: string) returns (w: string)
    ensures AllWhitespace(w) && s == TrimEnd(s) + w
    ensures TrimEnd(s) != "" ==> !IsWhitespace(TrimEnd(s)[|TrimEnd(s)| - 1])
  {
    w := s[DropWhitespace(s, |s|)..];
  }

  /** Text that does not start with whitespace does not trim away to nothing. */
  lemma TrimOfTrimmed(g: string)
    requires TrimStart(g) != ""
    ensures TrimEnd(TrimStart(g)) != "" && Trim(g) == TrimEnd(TrimStart(g))
  {
    hide TrimStart, TrimEnd, IsWhitespace;
    var _ := SplitStart(g);
    var t := TrimStart(g);
    var w := SplitEnd(t);
    assert TrimEnd(t) + w == t;
  }

  lemma TrimIsPlain(g: string)
    ensures var t := Trim(g); t != "" ==> !IsWhitespace(t[0]) && !IsWhitespace(t[|t| - 1])
  {
    hide TrimStart, TrimEnd, IsWhitespace;
    var _ := SplitStart(g);
    var w := SplitEnd(TrimStart(g));
    assert TrimEnd(TrimStart(g)) != "" ==> TrimStart(g)[0] == TrimEnd(TrimStart(g))[0];
  }

  lemma OnlyWhitespace(g: string)
    requires Trim(g) == ""
    ensures forall i :: 0 <= i < |g| ==> IsWhitespace(g[i])
  {
    hide TrimStart, TrimEnd, IsWhitespace;
    var a := SplitStart(g);
    if TrimStart(g) != "" {
      TrimOfTrimmed(g);
      assert false;
    }
    assert g == a;
  }

  lemma Cancel(a: string, b: string, c: string, d: string)
    requires a + b == c + d && |a| == |c|
    ensures a == c && b == d
  {
    assert a == (a + b)[..|a|] && c == (c + d)[..|c|];
    assert b == (a + b)[|a|..] && d == (c + d)[|c|..];
  }

  // ----- searching -----

  predicate MatchAt(s: string, pat: string, i: nat) {
    i + |pat| <= |s| && s[i..i + |pat|] == pat
  }

  predicate Contains(s: string, pat: string) {
    exists i: nat :: i <= |s| && MatchAt(s, pat, i)
  }

  /** `str::find`: the first occurrence, as a character index. */
  function Find(s: string, pat: string): (r: Option<nat>)
    ensures r.Some? ==> MatchAt(s, pat, r.value) && forall i: nat :: i < r.value ==> !MatchAt(s, pat, i)
    ensures r.None? ==> forall i: nat :: i <= |s| ==> !MatchAt(s, pat, i)
  {
    FindFrom(s, pat, 0)
  }

  function FindFrom(s: string, pat: string, from: nat): (r: Option<nat>)
    requires from <= |s|
    ensures r.Some? ==> from <= r.value && MatchAt(s, pat, r.value)
    ensures r.Some? ==> forall i: nat :: from <= i < r.value ==> !MatchAt(s, pat, i)
    ensures r.None? ==> forall i: nat :: from <= i <= |s| ==> !MatchAt(s, pat, i)
    decreases |s| - from
  {
    if MatchAt(s, pat, from) then Some(from)
    else if from == |s| then None
    else FindFrom(s, pat, from + 1)
  }

  /** The first occurrence is at `at` as soon as `at` matches and nothing before does. */
  lemma FindIs(s: string, pat: string, at: nat)
    requires MatchAt(s, pat, at)
    requires forall i: nat :: i < at ==> !MatchAt(s, pat, i)
    ensures Find(s, pat) == Some(at)
  {
    assert at <= |s|;
  }

  lemma ContainsInSlice(s: string, from: nat, to: nat, pat: string)
    requires from <= to <= |s|
    requires Contains(s[from..to], pat)
    ensures Contains(s, pat)
  {
    var i: nat :| i <= to - from && MatchAt(s[from..to], pat, i);
    var t := s[from..to];
    assert i + |pat| <= |t| && t[i..i + |pat|] == pat;
    forall k | 0 <= k < |pat| ensures s[from + i..from + i + |pat|][k] == pat[k] {
      assert pat[k] == t[i..i + |pat|][k] == t[i + k] == s[from + (i + k)];
    }
    assert s[from + i..from + i + |pat|] == pat;
    assert MatchAt(s, pat, from + i);
  }

  lemma Cut3(s: string, a: nat, b: nat, c: nat)
    requires a <= b <= c <= |s|
    ensures s[a..] == s[a..b] + s[b..c] + s[c..]
  {
  }

  // ----- replacing, splitting, numbers -----

  function IndexOf(s: string, c: char, from: nat): (r: nat)
    requires from <= |s|
    ensures from <= r <= |s|
    ensures forall j :: from <= j < r ==> s[j] != c
    ensures r < |s| ==> s[r] == c
    decreases |s| - from
  {
    if from < |s| && s[from] != c then IndexOf(s, c, from + 1) else from
  }

  lemma IndexOfIs(a: string, c: char, b: string)
    requires c !in a
    ensures IndexOf(a + [c] + b, c, 0) == |a|
  {
    var s := a + [c] + b;
    assert s[|a|] == c;
    assert forall j :: 0 <= j < |a| ==> s[j] == a[j];
  }

  /** `str::split` on one character. */
  function Split(s: string, sep: char): (parts: seq<string>)
    ensures |parts| >= 1
    decreases |s|
  {
    var i := IndexOf(s, sep, 0);
    if i == |s| then [s] else [s[..i]] + Split(s[i + 1..], sep)
  }

  lemma SplitOnce(a: string, sep: char, b: string)
    requires sep !in a
    ensures Split(a + ([sep] + b), sep) == [a] + Split(b, sep)
  {
    var s := a + ([sep] + b);
    assert s == a + [sep] + b;
    IndexOfIs(a, sep, b);
    assert s[..|a|] == a && s[|a| + 1..] == b;
  }

  lemma SplitNone(a: string, sep: char)
    requires sep !in a
    ensures Split(a, sep) == [a]
  {
  }

  function ReplaceChar(s: string, from: char, to: char): (r: string)
    ensures |r| == |s|
    ensures forall i :: 0 <= i < |s| ==> r[i] == if s[i] == from then to else s[i]
  {
    seq(|s|, i requires 0 <= i < |s| => if s[i] == from then to else s[i])
  }

  /** A line reader takes one carriage return off the end of a line. */
  function StripCr(s: string): string {
    if s != "" && s[|s| - 1] == '\r' then s[..|s| - 1] else s
  }

  /** `str::lines` and `BufRead::lines`. */
  function Lines(text: string): seq<string>
    decreases |text|
  {
    if text == "" then []
    else
      var i := IndexOf(text, '\n', 0);
      if i == |text| then [text] else [StripCr(text[..i])] + Lines(text[i + 1..])
  }

  function Decimal(n: nat): (r: string)
    ensures r != ""
    ensures forall i :: 0 <= i < |r| ==> '0' <= r[i] <= '9'
  {
    if n < 10 then [('0' as int + n) as char]
    else Decimal(n / 10) + [('0' as int + n % 10) as char]
  }
}

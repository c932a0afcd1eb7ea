/** The tab-separated results log: `crates/autoresearch/src/result.rs`. */
module ResultsLog {
  import opened Text
  import opened Decimals

  datatype Status = Keep | Discard | Crash

  /** The fields of a result that the log keeps. */
  datatype ExperimentResult = ExperimentResult(
    commit: string, metric: real, memory: real, status: Status, description: string)

  const HEADER := "commit\tval_bpb\tmemory_gb\tstatus\tdescription"
  const METRIC_DECIMALS := 6
  const MEMORY_DECIMALS := 1

  // ----- one row -----

  function StatusText(s: Status): string {
    match s
    case Keep => "keep"
    case Discard => "discard"
    case Crash => "crash"
  }

  function ParseStatus(s: string): Option<Status> {
    if s == "keep" then Some(Keep)
    else if s == "discard" then Some(Discard)
    else if s == "crash" then Some(Crash)
    else None
  }

  /** Tabs and newlines become spaces. */
  function Flatten(s: string): (r: string)
    ensures |r| == |s|
    ensures forall i :: 0 <= i < |s| ==> r[i] == if s[i] == '\t' || s[i] == '\n' then ' ' else s[i]
  {
    ReplaceChar(ReplaceChar(s, '\t', ' '), '\n', ' ')
  }

  function ToTsvRow(r: ExperimentResult): string {
    r.commit + "\t" + Format(r.metric, METRIC_DECIMALS) + "\t" + Format(r.memory, MEMORY_DECIMALS)
    + "\t" + StatusText(r.status) + "\t" + Flatten(r.description)
  }

  function FromTsvRow(row: string): Option<ExperimentResult> {
    var parts := Split(row, '\t');
    if |parts| < 5 then None
    else
      match (Parse(parts[1]), Parse(parts[2]), ParseStatus(parts[3]))
      case (Some(metric), Some(memory), Some(status)) =>
        Some(ExperimentResult(parts[0], metric, memory, status, parts[4]))
      case _ => None
  }

  /** What a result is after a trip through the log. */
  function Logged(r: ExperimentResult): ExperimentResult {
    ExperimentResult(r.commit, Rounded(r.metric, METRIC_DECIMALS), Rounded(r.memory, MEMORY_DECIMALS),
                     r.status, StripCr(Flatten(r.description)))
  }

  /** Short commit hashes contain neither tabs nor newlines. */
  predicate PlainCommit(r: ExperimentResult) {
    '\t' !in r.commit && '\n' !in r.commit
  }

  lemma {:induction false} SplitFive(a: string, b: string, c: string, d: string, e: string)
    requires '\t' !in a && '\t' !in b && '\t' !in c && '\t' !in d && '\t' !in e
    ensures Split(a + "\t" + b + "\t" + c + "\t" + d + "\t" + e, '\t') == [a, b, c, d, e]
  {
    hide Split;
    var de := d + (['\t'] + e);
    var cde := c + (['\t'] + de);
    var bcde := b + (['\t'] + cde);
    assert a + "\t" + b + "\t" + c + "\t" + d + "\t" + e == a + (['\t'] + bcde);
    SplitNone(e, '\t');
    SplitOnce(d, '\t', e);
    SplitOnce(c, '\t', de);
    SplitOnce(b, '\t', cde);
    SplitOnce(a, '\t', bcde);
  }

  /** A printed row, read as a line, parses to the logged result. */
  lemma RowRoundTrip(r: ExperimentResult)
    requires PlainCommit(r)
    ensures FromTsvRow(StripCr(ToTsvRow(r))) == Some(Logged(r))
    ensures '\n' !in ToTsvRow(r)
  {
    hide Split, Format, Parse, Rounded, ToTsvRow, Flatten, StripCr, StatusText, ParseStatus;
    FormatIsPlain(r.metric, METRIC_DECIMALS);
    FormatIsPlain(r.memory, MEMORY_DECIMALS);
    ParseFormat(r.metric, METRIC_DECIMALS);
    ParseFormat(r.memory, MEMORY_DECIMALS);
    FlattenIsPlain(r.description);
    StatusRoundTrip(r.status);
    RowShape(r);
    StripCrAtEnd(RowLead(r), Flatten(r.description));
    SplitFive(r.commit, Format(r.metric, METRIC_DECIMALS), Format(r.memory, MEMORY_DECIMALS), StatusText(r.status),
              StripCr(Flatten(r.description)));
  }

  /** Fields behind the fifth are ignored, and a line with fewer than five is no row. */
  lemma FieldsAreFive(a: string, b: string, c: string, d: string, e: string, more: string)
    requires '\t' !in a && '\t' !in b && '\t' !in c && '\t' !in d && '\t' !in e
    ensures var row := a + "\t" + b + "\t" + c + "\t" + d + "\t" + e;
            FromTsvRow(row + "\t" + more) == FromTsvRow(row)
    ensures FromTsvRow(a + "\t" + b + "\t" + c + "\t" + d).None?
  {
    hide Split, Parse, ParseStatus;
    SplitFive(a, b, c, d, e);
    var tail := e + (['\t'] + more);
    var de, d1 := d + (['\t'] + tail), d;
    var cde, c1 := c + (['\t'] + de), c + (['\t'] + d1);
    var bcde, b1 := b + (['\t'] + cde), b + (['\t'] + c1);
    assert a + "\t" + b + "\t" + c + "\t" + d + "\t" + e + "\t" + more == a + (['\t'] + bcde);
    assert a + "\t" + b + "\t" + c + "\t" + d == a + (['\t'] + b1);
    SplitNone(d, '\t');
    SplitOnce(e, '\t', more);
    SplitOnce(d, '\t', tail);
    SplitOnce(c, '\t', de);
    SplitOnce(c, '\t', d1);
    SplitOnce(b, '\t', cde);
    SplitOnce(b, '\t', c1);
    SplitOnce(a, '\t', bcde);
    SplitOnce(a, '\t', b1);
  }

  /** A row as it stands in the file. */
  lemma RowExample()
    ensures ToTsvRow(ExperimentResult("a1b2c3d", 0.5, 44.0, Keep, "loss\t0.5"))
         == "a1b2c3d\t0.500000\t44.0\tkeep\tloss 0.5"
  {
    hide Flatten, Format;
    FormatExamples();
    assert Flatten("loss\t0.5") == "loss 0.5";
  }

  /** A row up to its description. */
  function RowLead(r: ExperimentResult): string {
    r.commit + "\t" + Format(r.metric, METRIC_DECIMALS) + "\t" + Format(r.memory, MEMORY_DECIMALS)
    + "\t" + StatusText(r.status) + "\t"
  }

  lemma RowShape(r: ExperimentResult)
    ensures ToTsvRow(r) == RowLead(r) + Flatten(r.description)
    ensures RowLead(r) != "" && RowLead(r)[|RowLead(r)| - 1] == '\t'
  {
    hide Format, Flatten, StatusText;
  }

  lemma StatusRoundTrip(s: Status)
    ensures ParseStatus(StatusText(s)) == Some(s) && '\t' !in StatusText(s) && '\n' !in StatusText(s)
  {
  }

  /** No other text is a status. */
  lemma StatusIsText(text: string, s: Status)
    ensures ParseStatus(text) == Some(s) <==> text == StatusText(s)
  {
    assert "keep" != "discard" && "keep" != "crash" && "discard" != "crash" by {
      assert "keep"[0] == 'k' && "discard"[0] == 'd' && "crash"[0] == 'c';
    }
  }

  /** Five fields are a row exactly when both numbers and the status can be read. */
  lemma RowIsParsed(a: string, b: string, c: string, d: string, e: string, r: ExperimentResult)
    requires '\t' !in a && '\t' !in b && '\t' !in c && '\t' !in d && '\t' !in e
    ensures
      FromTsvRow(a + "\t" + b + "\t" + c + "\t" + d + "\t" + e) == Some(r) <==>
        && r.commit == a && Parse(b) == Some(r.metric) && Parse(c) == Some(r.memory)
        && d == StatusText(r.status) && r.description == e
  {
    hide Split, Parse, ParseStatus, StatusText;
    SplitFive(a, b, c, d, e);
    StatusIsText(d, r.status);
  }

  lemma StripCrAtEnd(lead: string, d: string)
    requires lead != "" && lead[|lead| - 1] != '\r'
    ensures StripCr(lead + d) == lead + StripCr(d)
  {
    var s := lead + d;
    assert d == "" ==> s == lead;
    assert d != "" ==> s[|s| - 1] == d[|d| - 1] && s[..|s| - 1] == lead + d[..|d| - 1];
  }

  lemma FlattenIsPlain(s: string)
    ensures '\t' !in Flatten(s) && '\n' !in Flatten(s)
    ensures '\t' !in StripCr(Flatten(s)) && '\n' !in StripCr(Flatten(s))
    ensures '\t' !in s && '\n' !in s ==> Flatten(s) == s
  {
  }

  /** A second trip changes nothing exactly when the first left no carriage return at the end. */
  lemma LoggedTwice(r: ExperimentResult)
    ensures var once := Logged(r);
            Logged(once) == once <==> (once.description == "" || once.description[|once.description| - 1] != '\r')
  {
    hide Rounded;
    RoundedTwice(r.metric, METRIC_DECIMALS);
    RoundedTwice(r.memory, MEMORY_DECIMALS);
    FlattenIsPlain(r.description);
    FlattenIsPlain(Logged(r).description);
  }

  // ----- the file -----

  function RowsOf(lines: seq<string>): seq<ExperimentResult> {
    if lines == [] then []
    else
      (if Trim(lines[0]) == "" then []
       else match FromTsvRow(lines[0]) case Some(r) => [r] case None => [])
      + RowsOf(lines[1..])
  }

  datatype LoadResult = Loaded(rows: seq<ExperimentResult>) | InvalidHeader

  function LoadFile(file: Option<string>): LoadResult {
    if file.None? then Loaded([])
    else
      var lines := Lines(file.value);
      if lines == [] then Loaded([])
      else if Trim(lines[0]) != Trim(HEADER) then InvalidHeader
      else Loaded(RowsOf(lines[1..]))
  }

  const EMPTY_LOG := HEADER + "\n"

  /** A log every line of which is terminated, as `init` and `append` leave it. */
  predicate Terminated(text: string) {
    text != "" && text[|text| - 1] == '\n'
  }

  function Appended(file: Option<string>, r: ExperimentResult): string {
    (if file.Some? then file.value else EMPTY_LOG) + ToTsvRow(r) + "\n"
  }

  function AppendedAll(file: Option<string>, rs: seq<ExperimentResult>): Option<string>
    decreases |rs|
  {
    if rs == [] then file else AppendedAll(Some(Appended(file, rs[0])), rs[1..])
  }

  /** A failed write may leave the file alone or leave part of the text in it. */
  datatype Write = Done | Refused | Torn(part: string)

  /** What a failed append leaves: nothing new, a torn row, or only a new file with its header,
      or with part of it. */
  function AppendFailed(file: Option<string>, init: Write, row: Write): Option<string> {
    if file.None? && init.Refused? then None
    else if file.None? && init.Torn? then Some(init.part)
    else
      var text := if file.Some? then file.value else EMPTY_LOG;
      Some(if row.Torn? then text + row.part else text)
  }

  /** The log file and the methods that change or read it; `None` is a missing file. */
  class ResultsLogger {
    var file: Option<string>

    method Init(init: Write) returns (ok: bool)
      modifies this
      ensures ok <==> old(file).Some? || init.Done?
      ensures file == if old(file).Some? then old(file)
                      else match init case Done => Some(EMPTY_LOG) case Refused => None case Torn(part) => Some(part)
    {
      if file.Some? {
        return true;
      }
      match init
      case Done =>
        file := Some(HEADER + "\n");
        return true;
      case Refused =>
        return false;
      case Torn(part) =>
        file := Some(part);
        return false;
    }

    /** `init` is the fate of creating a missing file, `row` that of writing the row. */
    method Append(r: ExperimentResult, init: Write, row: Write) returns (ok: bool)
      modifies this
      ensures ok <==> row.Done? && (old(file).Some? || init.Done?)
      ensures file == if ok then Some(Appended(old(file), r)) else AppendFailed(old(file), init, row)
    {
      hide ToTsvRow;
      if file.None? {
        var created := Init(init);
        if !created {
          return false;
        }
      }
      match row
      case Done =>
        file := Some(file.value + ToTsvRow(r) + "\n");
        return true;
      case Refused =>
        return false;
      case Torn(part) =>
        file := Some(file.value + part);
        return false;
    }

    method Load() returns (result: LoadResult)
      ensures result == LoadFile(file)
    {
      hide Trim, FromTsvRow, Lines;
      if file.None? {
        return Loaded([]);
      }
      var lines := Lines(file.value);
      if lines == [] {
        return Loaded([]);
      }
      if Trim(lines[0]) != Trim(HEADER) {
        return InvalidHeader;
      }
      var results: seq<ExperimentResult> := [];
      for k := 1 to |lines|
        invariant results + RowsOf(lines[k..]) == RowsOf(lines[1..])
      {
        var line := lines[k];
        assert lines[k..][0] == line && lines[k..][1..] == lines[k + 1..];
        if Trim(line) == "" {
          continue;
        }
        var parsed := FromTsvRow(line);
        if parsed.Some? {
          results := results + [parsed.value];
        }
      }
      assert RowsOf(lines[|lines|..]) == [];
      return Loaded(results);
    }
  }

  lemma LinesStep(first: string, rest: string)
    requires '\n' !in first
    ensures Lines(first + ['\n'] + rest) == [StripCr(first)] + Lines(rest)
  {
    hide IndexOf;
    var s := first + ['\n'] + rest;
    IndexOfIs(first, '\n', rest);
    assert s[..|first|] == first && s[|first| + 1..] == rest;
  }

  lemma NoLines()
    ensures Lines("") == []
  {
  }

  /** A terminated text is a first line and a terminated or empty rest. */
  lemma FirstLine(text: string) returns (first: string, rest: string)
    requires Terminated(text)
    ensures '\n' !in first && text == first + ['\n'] + rest && |rest| < |text|
    ensures rest == "" || Terminated(rest)
  {
    var i := IndexOf(text, '\n', 0);
    assert text[|text| - 1] == '\n';
    first, rest := text[..i], text[i + 1..];
    assert rest != "" ==> rest[|rest| - 1] == text[|text| - 1];
  }

  lemma {:induction false} LinesAppend(text: string, row: string)
    requires (text == "" || Terminated(text)) && '\n' !in row
    ensures Lines(text + (row + "\n")) == Lines(text) + [StripCr(row)]
    decreases |text|
  {
    hide Lines, StripCr, Terminated;
    NoLines();
    if text == "" {
      assert text + (row + "\n") == row + ['\n'] + "";
      LinesStep(row, "");
    } else {
      var first, rest := FirstLine(text);
      assert text + (row + "\n") == first + ['\n'] + (rest + (row + "\n"));
      LinesStep(first, rest + (row + "\n"));
      LinesStep(first, rest);
      LinesAppend(rest, row);
    }
  }

  lemma {:induction false} RowsAppend(lines: seq<string>, line: string)
    ensures RowsOf(lines + [line]) == RowsOf(lines) + RowsOf([line])
  {
    hide FromTsvRow, Trim;
    if lines != [] {
      RowsAppend(lines[1..], line);
      assert (lines + [line])[1..] == lines[1..] + [line];
    } else {
      assert [] + [line] == [line];
    }
  }

  /** The rows loaded are those of the lines that can be read; blank and other lines add nothing. */
  lemma {:induction false} RowsAreRead(lines: seq<string>, r: ExperimentResult)
    ensures r in RowsOf(lines) <==>
      exists k :: 0 <= k < |lines| && Trim(lines[k]) != "" && FromTsvRow(lines[k]) == Some(r)
  {
    hide Trim, FromTsvRow;
    if lines != [] {
      RowsAreRead(lines[1..], r);
      if k :| 0 <= k < |lines| && Trim(lines[k]) != "" && FromTsvRow(lines[k]) == Some(r) {
        assert k > 0 ==> lines[k] == lines[1..][k - 1];
      }
      if k :| 0 <= k < |lines[1..]| && Trim(lines[1..][k]) != "" && FromTsvRow(lines[1..][k]) == Some(r) {
        assert lines[k + 1] == lines[1..][k];
      }
    }
  }

  lemma RowIsNotBlank(r: ExperimentResult)
    ensures Trim(StripCr(ToTsvRow(r))) != ""
  {
    hide Trim, Format, Flatten;
    var a := r.commit + "\t" + Format(r.metric, METRIC_DECIMALS) + "\t" + Format(r.memory, MEMORY_DECIMALS) + "\t";
    var st := StatusText(r.status);
    var row := ToTsvRow(r);
    var line := StripCr(row);
    assert row == a + (st + ("\t" + Flatten(r.description)));
    assert row[|a|] == st[0] && !IsWhitespace(st[0]) && |row| > |a| + 1;
    assert line[|a|] == row[|a|];
    if Trim(line) == "" {
      OnlyWhitespace(line);
      assert false;
    }
  }

  /** Appending one result to a well-formed log adds exactly its logged form at the end. */
  lemma AppendLoads(text: string, r: ExperimentResult)
    requires Terminated(text) && LoadFile(Some(text)).Loaded? && PlainCommit(r)
    ensures Terminated(Appended(Some(text), r))
    ensures LoadFile(Some(Appended(Some(text), r))) == Loaded(LoadFile(Some(text)).rows + [Logged(r)])
  {
    hide Trim, FromTsvRow, ToTsvRow, Logged, Lines;
    var row := ToTsvRow(r);
    RowRoundTrip(r);
    RowIsNotBlank(r);
    LinesAppend(text, row);
    assert text + row + "\n" == text + (row + "\n");
    SomeLines(text);
    var lines := Lines(text);
    var line := StripCr(row);
    assert (lines + [line])[0] == lines[0] && (lines + [line])[1..] == lines[1..] + [line];
    RowsAppend(lines[1..], line);
    assert RowsOf([line]) == [Logged(r)];
  }

  lemma {:induction false} LinesOpen(text: string, part: string)
    requires (text == "" || Terminated(text)) && '\n' !in part
    ensures Lines(text + part) == Lines(text) + if part == "" then [] else [part]
    decreases |text|
  {
    hide Lines, StripCr, Terminated;
    NoLines();
    if text == "" {
      assert text + part == part;
      LastLine(part);
    } else {
      var first, rest := FirstLine(text);
      assert text + part == first + ['\n'] + (rest + part);
      LinesStep(first, rest + part);
      LinesStep(first, rest);
      LinesOpen(rest, part);
    }
  }

  lemma LastLine(part: string)
    requires '\n' !in part
    ensures Lines(part) == if part == "" then [] else [part]
  {
  }

  /** A row that is torn while it is written costs no earlier row, whatever is left of it. */
  lemma TornRowLoads(text: string, part: string)
    requires Terminated(text) && LoadFile(Some(text)).Loaded? && '\n' !in part
    ensures LoadFile(Some(text + part))
         == Loaded(LoadFile(Some(text)).rows + RowsOf(if part == "" then [] else [part]))
  {
    hide Trim, FromTsvRow, Lines;
    LinesOpen(text, part);
    SomeLines(text);
    var lines := Lines(text);
    if part == "" {
      assert lines + [] == lines;
      assert LoadFile(Some(text)).rows + [] == LoadFile(Some(text)).rows;
    } else {
      assert (lines + [part])[0] == lines[0] && (lines + [part])[1..] == lines[1..] + [part];
      RowsAppend(lines[1..], part);
    }
  }

  /** But the next row is appended to the same line, and the two are read as one. */
  lemma TornRowFuses(text: string, part: string, r: ExperimentResult)
    requires Terminated(text) && LoadFile(Some(text)).Loaded? && '\n' !in part && PlainCommit(r)
    ensures LoadFile(Some(Appended(Some(text + part), r)))
         == Loaded(LoadFile(Some(text)).rows + RowsOf([StripCr(part + ToTsvRow(r))]))
  {
    hide Trim, FromTsvRow, ToTsvRow, Lines, StripCr;
    var row := part + ToTsvRow(r);
    RowRoundTrip(r);
    LinesAppend(text, row);
    assert text + part + ToTsvRow(r) + "\n" == text + (row + "\n");
    SomeLines(text);
    var lines := Lines(text);
    assert (lines + [StripCr(row)])[0] == lines[0] && (lines + [StripCr(row)])[1..] == lines[1..] + [StripCr(row)];
    RowsAppend(lines[1..], StripCr(row));
  }

  /** What a failed append leaves of the file: all of it, with at most part of a row behind it, and
      for a missing file the header or part of it. */
  lemma FailedAppendKeeps(file: Option<string>, init: Write, row: Write)
    ensures
      var left := AppendFailed(file, init, row);
      && (file.Some? ==> left.Some? && file.value <= left.value)
      && (file.Some? || init.Done? ==>
            left == Some((if file.Some? then file.value else HEADER + "\n") + if row.Torn? then row.part else ""))
      && (file.None? && !init.Done? ==> left == if init.Torn? then Some(init.part) else None)
  {
    if file.Some? {
      assert file.value + "" == file.value;
    }
    assert EMPTY_LOG + "" == EMPTY_LOG;
  }

  /** Whitespace round the header does not matter, anything else there makes the file unreadable. */
  lemma HeaderDecides(first: string, rest: string)
    requires '\n' !in first
    ensures
      var r := LoadFile(Some(first + "\n" + rest));
      if Trim(StripCr(first)) == Trim(HEADER) then r == LoadFile(Some(HEADER + "\n" + rest)) && r.Loaded?
      else r.InvalidHeader?
  {
    hide Lines, Trim, StripCr, FromTsvRow, RowsOf;
    LinesStep(first, rest);
    LinesStep(HEADER, rest);
    HeaderIsPlain();
    assert first + "\n" + rest == first + ['\n'] + rest && HEADER + "\n" + rest == HEADER + ['\n'] + rest;
  }

  lemma HeaderIsPlain()
    ensures '\n' !in HEADER && StripCr(HEADER) == HEADER
  {
  }

  lemma SomeLines(text: string)
    requires text != ""
    ensures Lines(text) != []
  {
  }

  lemma EmptyLogLoads()
    ensures Terminated(EMPTY_LOG) && LoadFile(Some(EMPTY_LOG)) == Loaded([])
  {
    hide IndexOf, Trim;
    assert EMPTY_LOG == HEADER + ['\n'] + "";
    assert '\n' !in HEADER;
    IndexOfIs(HEADER, '\n', "");
    assert EMPTY_LOG[..|HEADER|] == HEADER && EMPTY_LOG[|HEADER| + 1..] == "";
    assert StripCr(HEADER) == HEADER;
    assert Lines(EMPTY_LOG) == [HEADER];
  }

  function LoggedAll(rs: seq<ExperimentResult>): seq<ExperimentResult> {
    seq(|rs|, k requires 0 <= k < |rs| => Logged(rs[k]))
  }

  /** Any list of results appended to a well-formed log is read back in order behind what
      was there, up to flattening and rounding. */
  lemma {:induction false} AppendAllLoads(text: string, rs: seq<ExperimentResult>)
    requires Terminated(text) && LoadFile(Some(text)).Loaded?
    requires forall k :: 0 <= k < |rs| ==> PlainCommit(rs[k])
    ensures LoadFile(AppendedAll(Some(text), rs)) == Loaded(LoadFile(Some(text)).rows + LoggedAll(rs))
    decreases |rs|
  {
    hide LoadFile, Appended, Logged, Terminated, PlainCommit;
    var before := LoadFile(Some(text)).rows;
    if rs == [] {
      assert before + LoggedAll(rs) == before;
    } else {
      AppendLoads(text, rs[0]);
      AppendAllLoads(Appended(Some(text), rs[0]), rs[1..]);
      assert before + [Logged(rs[0])] + LoggedAll(rs[1..]) == before + LoggedAll(rs);
    }
  }

  /** The first append creates the file, so the same holds from nothing. */
  lemma {:induction false} LogRoundTrip(rs: seq<ExperimentResult>)
    requires forall k :: 0 <= k < |rs| ==> PlainCommit(rs[k])
    ensures LoadFile(AppendedAll(None, rs)) == Loaded(LoggedAll(rs))
  {
    hide LoadFile, Logged, Terminated, PlainCommit;
    EmptyLogLoads();
    AppendAllLoads(EMPTY_LOG, rs);
    if rs == [] {
      NoFileLoads();
    } else {
      assert Appended(None, rs[0]) == Appended(Some(EMPTY_LOG), rs[0]);
    }
  }

  lemma NoFileLoads()
    ensures LoadFile(None) == LoadFile(Some("")) == Loaded([])
  {
  }

  // ----- the best row and the summary -----

  predicate Better(minimize: bool, a: real, b: real) {
    if minimize then a < b else a > b
  }

  /** `min_by` over the rows that did not crash. */
  function BestOf(rows: seq<ExperimentResult>, minimize: bool): Option<ExperimentResult> {
    if rows == [] then None
    else
      var best, r := BestOf(rows[..|rows| - 1], minimize), rows[|rows| - 1];
      if r.status == Crash then best
      else if best.None? || Better(minimize, r.metric, best.value.metric) then Some(r)
      else best
  }

  lemma BestOfAppend(rows: seq<ExperimentResult>, r: ExperimentResult, minimize: bool)
    ensures BestOf(rows + [r], minimize) ==
      var best := BestOf(rows, minimize);
      if r.status == Crash then best
      else if best.None? || Better(minimize, r.metric, best.value.metric) then Some(r)
      else best
  {
    assert (rows + [r])[..|rows|] == rows;
  }

  /** The best row is the first of the rows no other row beats. */
  lemma {:induction false} BestIsFirst(rows: seq<ExperimentResult>, minimize: bool) returns (i: nat)
    requires exists k :: 0 <= k < |rows| && rows[k].status != Crash
    ensures i < |rows| && rows[i].status != Crash && BestOf(rows, minimize) == Some(rows[i])
    ensures forall k :: 0 <= k < |rows| && rows[k].status != Crash ==> !Better(minimize, rows[k].metric, rows[i].metric)
    ensures forall k :: 0 <= k < i && rows[k].status != Crash ==> Better(minimize, rows[i].metric, rows[k].metric)
  {
    var n := |rows| - 1;
    var before, r := rows[..n], rows[n];
    if k :| 0 <= k < |before| && before[k].status != Crash {
      i := BestIsFirst(before, minimize);
      assert before[i] == rows[i];
      assert forall k :: 0 <= k < n ==> before[k] == rows[k];
      if r.status != Crash && Better(minimize, r.metric, rows[i].metric) {
        i := n;
      }
    } else {
      NoBest(before, minimize);
      assert forall k :: 0 <= k < n ==> before[k] == rows[k];
      i := n;
    }
  }

  lemma {:induction false} NoBest(rows: seq<ExperimentResult>, minimize: bool)
    requires forall k :: 0 <= k < |rows| ==> rows[k].status == Crash
    ensures BestOf(rows, minimize).None?
  {
    if rows != [] {
      NoBest(rows[..|rows| - 1], minimize);
    }
  }

  datatype Summary = Summary(total: nat, kept: nat, discarded: nat, crashed: nat,
                             best: Option<real>, baseline: Option<real>)

  function Count(rows: seq<ExperimentResult>, s: Status): nat {
    if rows == [] then 0 else (if rows[0].status == s then 1 else 0) + Count(rows[1..], s)
  }

  /** `reduce` with `min` or `max` over the metrics of the rows that did not crash. */
  function BestMetric(rows: seq<ExperimentResult>, minimize: bool): Option<real> {
    if rows == [] then None
    else
      var before, r := BestMetric(rows[..|rows| - 1], minimize), rows[|rows| - 1];
      if r.status == Crash then before
      else if before.None? then Some(r.metric)
      else if minimize then Some(if r.metric < before.value then r.metric else before.value)
      else Some(if r.metric > before.value then r.metric else before.value)
  }

  function SummaryOf(rows: seq<ExperimentResult>, minimize: bool): Summary {
    Summary(|rows|, Count(rows, Keep), Count(rows, Discard), Count(rows, Crash), BestMetric(rows, minimize),
            if rows == [] then None else Some(rows[0].metric))
  }

  function Statuses(rows: seq<ExperimentResult>): seq<Status> {
    seq(|rows|, k requires 0 <= k < |rows| => rows[k].status)
  }

  lemma {:induction false} CountIsMultiplicity(rows: seq<ExperimentResult>, s: Status)
    ensures Count(rows, s) == multiset(Statuses(rows))[s]
  {
    if rows != [] {
      CountIsMultiplicity(rows[1..], s);
      assert Statuses(rows) == [rows[0].status] + Statuses(rows[1..]);
    }
  }

  lemma {:induction false} CountsAddUp(rows: seq<ExperimentResult>)
    ensures Count(rows, Keep) + Count(rows, Discard) + Count(rows, Crash) == |rows|
  {
    if rows != [] {
      CountsAddUp(rows[1..]);
    }
  }

  /** The summary counts the rows of each status, which are all rows; its best metric is that of
      the best row, and its baseline that of the first. */
  lemma SummaryAgreesWithBest(rows: seq<ExperimentResult>, minimize: bool)
    ensures var s := SummaryOf(rows, minimize);
            && s.kept == multiset(Statuses(rows))[Keep]
            && s.discarded == multiset(Statuses(rows))[Discard]
            && s.crashed == multiset(Statuses(rows))[Crash]
            && s.kept + s.discarded + s.crashed == s.total == |rows|
            && s.best == (match BestOf(rows, minimize) case Some(r) => Some(r.metric) case None => None)
            && s.baseline == if rows == [] then None else Some(rows[0].metric)
  {
    CountsAddUp(rows);
    CountIsMultiplicity(rows, Keep);
    CountIsMultiplicity(rows, Discard);
    CountIsMultiplicity(rows, Crash);
    BestMetricAgrees(rows, minimize);
  }

  lemma {:induction false} BestMetricAgrees(rows: seq<ExperimentResult>, minimize: bool)
    ensures BestMetric(rows, minimize) == match BestOf(rows, minimize) case Some(r) => Some(r.metric) case None => None
  {
    if rows != [] {
      BestMetricAgrees(rows[..|rows| - 1], minimize);
    }
  }
}

/** Parsing a research program: `ResearchProgram::from_markdown` of
    `crates/autoresearch/src/program.rs`. */
module ProgramParser {
  import opened Text
  import opened MetricGoals

  datatype Program = Program(
    name: string,
    description: string,
    editable: seq<string>,
    fixed: seq<string>,
    command: string,
    regex: string,
    goal: Goal,
    timeBudget: nat,
    extra: seq<string>,
    maxMemory: Option<real>,
    instructions: string)

  /** Lower-casing, and what is extracted from a single line. */
  datatype Extractors = Extractors(
    lower: string -> string,
    filePath: string -> Option<string>,
    value: (string, seq<string>) -> Option<string>,
    number: string -> Option<nat>,
    float: string -> Option<real>)

  const NO_PROGRAM := Program("", "", [], [], "", "", Minimize, 300, [], None, "")

  // ----- text helpers -----

  /** `trim_start_matches` with a string: every leading copy goes. */
  function StripAll(s: string, prefix: string): (r: string)
    requires prefix != ""
    ensures !(prefix <= r) && |r| <= |s| && r == s[|s| - |r|..]
    decreases |s|
  {
    if prefix <= s then StripAll(s[|prefix|..], prefix) else s
  }

  function Repeated(copy: string, n: nat): string {
    if n == 0 then "" else copy + Repeated(copy, n - 1)
  }

  /** Only whole copies go. */
  lemma {:induction false} StripsCopies(s: string, prefix: string) returns (n: nat)
    requires prefix != ""
    ensures s == Repeated(prefix, n) + StripAll(s, prefix)
    decreases |s|
  {
    if prefix <= s {
      n := StripsCopies(s[|prefix|..], prefix);
      n := n + 1;
      assert s == prefix + s[|prefix|..];
    } else {
      n := 0;
      assert "" + s == s;
    }
  }

  predicate OnlyBackticks(s: string) {
    forall k :: 0 <= k < |s| ==> s[k] == '`'
  }

  lemma {:induction false} StripsEnd(s: string) returns (after: string)
    ensures s == StripBackticksEnd(s) + after && OnlyBackticks(after)
  {
    after := "";
    if s != "" && s[|s| - 1] == '`' {
      after := StripsEnd(s[..|s| - 1]);
      after := after + "`";
    }
  }

  lemma {:induction false} RepeatedBackticks(n: nat)
    ensures OnlyBackticks(Repeated("`", n))
  {
    if n > 0 {
      RepeatedBackticks(n - 1);
    }
  }

  /** Only backticks go, from both ends. */
  lemma StripsBackticks(s: string) returns (before: string, after: string)
    ensures s == before + StripBackticks(s) + after && OnlyBackticks(before) && OnlyBackticks(after)
  {
    hide StripAll, StripBackticksEnd, OnlyBackticks;
    var n := StripsCopies(s, "`");
    RepeatedBackticks(n);
    before := Repeated("`", n);
    after := StripsEnd(StripAll(s, "`"));
    assert before + (StripBackticks(s) + after) == before + StripBackticks(s) + after;
  }

  /** `trim_matches` on backticks. */
  function StripBackticks(s: string): (r: string)
    ensures r != "" ==> r[0] != '`' && r[|r| - 1] != '`'
  {
    var t := StripAll(s, "`");
    assert t != "" ==> t[0] != '`' by {
      assert t != "" && t[0] == '`' ==> "`" <= t;
    }
    StripBackticksEnd(t)
  }

  function StripBackticksEnd(s: string): (r: string)
    ensures r <= s && (r != "" ==> r[|r| - 1] != '`')
  {
    if s != "" && s[|s| - 1] == '`' then StripBackticksEnd(s[..|s| - 1]) else s
  }

  predicate Has(s: string, needle: string): (r: bool)
    ensures r <==> Contains(s, needle)
  {
    assert Find(s, needle).Some? ==> MatchAt(s, needle, Find(s, needle).value);
    Find(s, needle).Some?
  }

  predicate IsBullet(line: string) {
    "-" <= line || "*" <= line
  }

  function Joined(text: string, sep: string, line: string): string {
    (if text == "" then "" else text + sep) + line
  }

  // ----- one line inside a list section -----

  function FilesItem(x: Extractors, p: Program, raw: string): Program {
    var line := Trim(raw);
    if !IsBullet(line) then p
    else
      var content := Trim(StripAll(StripAll(line, "-"), "*"));
      match x.filePath(content)
      case None => p
      case Some(path) =>
        if Has(x.lower(content), "editable") then p.(editable := p.editable + [path])
        else if Has(x.lower(content), "fixed") then p.(fixed := p.fixed + [path])
        else p.(editable := p.editable + [path])
  }

  function MetricItem(x: Extractors, p: Program, raw: string): Program {
    var line := x.lower(Trim(raw));
    if Has(line, "command:") || Has(line, "cmd:") then
      match x.value(raw, ["command:", "cmd:"])
      case Some(cmd) => p.(command := Trim(cmd))
      case None => p
    else if Has(line, "regex:") || Has(line, "parse:") then
      match x.value(raw, ["regex:", "parse:"])
      case Some(regex) => p.(regex := StripBackticks(Trim(regex)))
      case None => p
    else if Has(line, "goal:") then
      if Has(line, "minimize") || Has(line, "lower") then p.(goal := Minimize)
      else if Has(line, "maximize") || Has(line, "higher") then p.(goal := Maximize)
      else p
    else p
  }

  function ConstraintItem(x: Extractors, p: Program, raw: string): Program {
    var line := x.lower(Trim(raw));
    if Has(line, "time budget") || Has(line, "timeout") then
      match x.number(raw)
      case Some(secs) => p.(timeBudget := secs)
      case None => p
    else if Has(line, "max memory") || Has(line, "memory limit") then
      match x.float(raw)
      case Some(mem) => p.(maxMemory := Some(mem))
      case None => p
    else if !IsBullet(Trim(raw)) then p.(extra := p.extra + [Trim(raw)])
    else p
  }

  // ----- the one-pass reading -----

  datatype Section = Outside | Files | Metric | Constraints

  /** The program so far, whether instructions have begun, and the list section we are in. */
  datatype Reader = Reader(program: Program, inInstructions: bool, section: Section)

  /** A list section goes on until a blank line or the next `## ` line. */
  predicate EndsList(raw: string) {
    Trim(raw) == "" || "## " <= Trim(raw)
  }

  function Item(x: Extractors, section: Section, p: Program, raw: string): Program {
    match section
    case Files => FilesItem(x, p, raw)
    case Metric => MetricItem(x, p, raw)
    case Constraints => ConstraintItem(x, p, raw)
    case Outside => p
  }

  function SectionOf(title: string): Section {
    if title == "files" || title == "file configuration" then Files
    else if title == "metric" || title == "metrics" then Metric
    else if title == "constraints" || title == "settings" || title == "config" then Constraints
    else Outside
  }

  predicate OpensInstructions(title: string) {
    title == "instructions" || title == "research instructions"
  }

  function Title(x: Extractors, line: string): string {
    x.lower(Trim(StripAll(line, "## ")))
  }

  /** A line outside every list section. */
  function FreeLine(x: Extractors, p: Program, inInstructions: bool, raw: string): Reader {
    var line := Trim(raw);
    if "# " <= line then
      Reader(p.(name := Trim(StripAll(line, "# "))), inInstructions, Outside)
    else if "## " <= line then
      Reader(p, inInstructions || OpensInstructions(Title(x, line)), SectionOf(Title(x, line)))
    else if line == "" then Reader(p, inInstructions, Outside)
    else if inInstructions then
      Reader(p.(instructions := Joined(p.instructions, "\n", line)), inInstructions, Outside)
    else if "#" <= line || IsBullet(line) then Reader(p, inInstructions, Outside)
    else Reader(p.(description := Joined(p.description, " ", line)), inInstructions, Outside)
  }

  function Step(x: Extractors, r: Reader, raw: string): Reader {
    if r.section != Outside && !EndsList(raw) then r.(program := Item(x, r.section, r.program, raw))
    else FreeLine(x, r.program, r.inInstructions, raw)
  }

  function Read(x: Extractors, r: Reader, lines: seq<string>): Reader
    decreases |lines|
  {
    if lines == [] then r else Read(x, Step(x, r, lines[0]), lines[1..])
  }

  const START := Reader(NO_PROGRAM, false, Outside)

  /** Defaults for a missing name and regex; a program without a metric command is an error. */
  function Finished(p: Program): Option<Program> {
    var named := if p.name == "" then p.(name := "Unnamed Research") else p;
    if p.command == "" then None
    else Some(if p.regex == "" then named.(regex := "([\\d.]+)") else named)
  }

  // ----- the nested loops -----

  method FromMarkdown(x: Extractors, content: string) returns (result: Option<Program>)
    ensures result == Finished(Read(x, START, Lines(content)).program)
    ensures
      var told := ToldProgram(x, Lines(content), |Lines(content)|);
      result ==
        if told.command == "" then None
        else Some(told.(name := if told.name == "" then "Unnamed Research" else told.name,
                        regex := if told.regex == "" then "([\\d.]+)" else told.regex))
  {
    hide ToldProgram, FilesItem, MetricItem, ConstraintItem, Item, Title, Trim, Lines, StripAll, OpensInstructions,
      SectionOf, Joined, Step, FreeLine, Read, Finished, IsBullet;
    var p := NO_PROGRAM;
    var instructionsMode := false;
    var lines := Lines(content);
    ghost var goal := Read(x, START, lines).program;
    assert lines[0..] == lines;
    var i := 0;
    while i < |lines|
      invariant 0 <= i <= |lines|
      invariant Read(x, Reader(p, instructionsMode, Outside), lines[i..]).program == goal
      decreases |lines| - i
    {
      var line := Trim(lines[i]);
      ReadFree(x, p, instructionsMode, lines, i);
      if "# " <= line {
        p := p.(name := Trim(StripAll(line, "# ")));
      } else if "## " <= line {
        var section := x.lower(Trim(StripAll(line, "## ")));
        if section == "files" || section == "file configuration" {
          i := i + 1;
          while i < |lines| && Trim(lines[i]) != "" && !("## " <= Trim(lines[i]))
            invariant 0 <= i <= |lines|
            invariant Read(x, Reader(p, instructionsMode, Files), lines[i..]).program == goal
          {
            ReadItem(x, p, instructionsMode, Files, lines, i);
            p := FilesItem(x, p, lines[i]);
            i := i + 1;
          }
          ListEnds(x, p, instructionsMode, Files, lines, i);
          continue;
        } else if section == "metric" || section == "metrics" {
          i := i + 1;
          while i < |lines| && Trim(lines[i]) != "" && !("## " <= Trim(lines[i]))
            invariant 0 <= i <= |lines|
            invariant Read(x, Reader(p, instructionsMode, Metric), lines[i..]).program == goal
          {
            ReadItem(x, p, instructionsMode, Metric, lines, i);
            p := MetricItem(x, p, lines[i]);
            i := i + 1;
          }
          ListEnds(x, p, instructionsMode, Metric, lines, i);
          continue;
        } else if section == "constraints" || section == "settings" || section == "config" {
          i := i + 1;
          while i < |lines| && Trim(lines[i]) != "" && !("## " <= Trim(lines[i]))
            invariant 0 <= i <= |lines|
            invariant Read(x, Reader(p, instructionsMode, Constraints), lines[i..]).program == goal
          {
            ReadItem(x, p, instructionsMode, Constraints, lines, i);
            p := ConstraintItem(x, p, lines[i]);
            i := i + 1;
          }
          ListEnds(x, p, instructionsMode, Constraints, lines, i);
          continue;
        } else if section == "instructions" || section == "research instructions" {
          instructionsMode := true;
          i := i + 1;
          continue;
        }
      } else if instructionsMode {
        if "## " <= line || ("#" <= line && !instructionsMode) {
          instructionsMode := false;
        } else if line != "" {
          p := p.(instructions := Joined(p.instructions, "\n", line));
        }
      } else if line != "" && !("#" <= line) && !("-" <= line) && !("*" <= line) {
        p := p.(description := Joined(p.description, " ", line));
      }
      i := i + 1;
    }
    ReadNothing(x, Reader(p, instructionsMode, Outside), lines);
    AllRead(x, lines);
    FinishedIs(p);
    if p.name == "" {
      p := p.(name := "Unnamed Research");
    }
    if p.command == "" {
      return None;
    }
    if p.regex == "" {
      p := p.(regex := "([\\d.]+)");
    }
    return Some(p);
  }

  lemma ReadOne(x: Extractors, r: Reader, lines: seq<string>, i: nat)
    requires i < |lines|
    ensures Read(x, r, lines[i..]) == Read(x, Step(x, r, lines[i]), lines[i + 1..])
  {
    hide Step;
    assert lines[i..][0] == lines[i] && lines[i..][1..] == lines[i + 1..];
  }

  /** At the line that ends a list, or at the end of the text, being inside the list makes
      no difference any more. */
  lemma ListEnds(x: Extractors, p: Program, mode: bool, section: Section, lines: seq<string>, i: nat)
    requires i <= |lines| && (i < |lines| ==> EndsList(lines[i]))
    ensures Read(x, Reader(p, mode, section), lines[i..]).program
         == Read(x, Reader(p, mode, Outside), lines[i..]).program
  {
    hide FreeLine, Trim;
    if i < |lines| {
      ReadOne(x, Reader(p, mode, section), lines, i);
      ReadOne(x, Reader(p, mode, Outside), lines, i);
    }
  }

  lemma ReadNothing(x: Extractors, r: Reader, lines: seq<string>)
    ensures Read(x, r, lines[|lines|..]) == r
  {
  }

  lemma FinishedIs(p: Program)
    ensures p.command == "" ==> Finished(p).None?
    ensures p.command != "" ==>
      Finished(p) == Some(p.(name := if p.name == "" then "Unnamed Research" else p.name,
                             regex := if p.regex == "" then "([\\d.]+)" else p.regex))
  {
  }

  lemma ReadItem(x: Extractors, p: Program, mode: bool, section: Section, lines: seq<string>, i: nat)
    requires i < |lines| && section != Outside && !EndsList(lines[i])
    ensures
      var q := match section
               case Files => FilesItem(x, p, lines[i])
               case Metric => MetricItem(x, p, lines[i])
               case Constraints => ConstraintItem(x, p, lines[i])
               case Outside => p;
      Read(x, Reader(p, mode, section), lines[i..]) == Read(x, Reader(q, mode, section), lines[i + 1..])
  {
    hide FilesItem, MetricItem, ConstraintItem, EndsList, Read, FreeLine;
    ReadOne(x, Reader(p, mode, section), lines, i);
  }

  /** One line outside every list, case by case as the loop distinguishes them. */
  lemma ReadFree(x: Extractors, p: Program, mode: bool, lines: seq<string>, i: nat)
    requires i < |lines|
    ensures
      var line := Trim(lines[i]);
      var section := x.lower(Trim(StripAll(line, "## ")));
      var instructionsTitle := section == "instructions" || section == "research instructions";
      var next :=
        if "# " <= line then Reader(p.(name := Trim(StripAll(line, "# "))), mode, Outside)
        else if "## " <= line then
          if section == "files" || section == "file configuration" then Reader(p, mode, Files)
          else if section == "metric" || section == "metrics" then Reader(p, mode, Metric)
          else if section == "constraints" || section == "settings" || section == "config" then
            Reader(p, mode, Constraints)
          else Reader(p, mode || instructionsTitle, Outside)
        else if mode then
          Reader(if line == "" then p else p.(instructions := Joined(p.instructions, "\n", line)), mode, Outside)
        else if line != "" && !("#" <= line) && !("-" <= line) && !("*" <= line) then
          Reader(p.(description := Joined(p.description, " ", line)), mode, Outside)
        else Reader(p, mode, Outside);
      Read(x, Reader(p, mode, Outside), lines[i..]) == Read(x, next, lines[i + 1..])
  {
    hide Trim, StripAll, Joined, Read;
    ReadOne(x, Reader(p, mode, Outside), lines, i);
  }

  // ----- which lines belong to which list, independent of the reading order -----

  lemma {:induction false} ReadConcat(x: Extractors, r: Reader, a: seq<string>, b: seq<string>)
    ensures Read(x, r, a + b) == Read(x, Read(x, r, a), b)
    decreases |a|
  {
    hide Step;
    if a == [] {
      assert a + b == b;
    } else {
      assert (a + b)[0] == a[0] && (a + b)[1..] == a[1..] + b;
      ReadConcat(x, Step(x, r, a[0]), a[1..], b);
    }
  }

  /** The list a heading line opens; any other line opens none. */
  function Opens(x: Extractors, raw: string): Section {
    if "## " <= Trim(raw) then SectionOf(Title(x, Trim(raw))) else Outside
  }

  /** Line `j` opens the list and no line behind it, up to but without `k`, ends it. */
  predicate OpenedBy(x: Extractors, lines: seq<string>, section: Section, j: nat, k: nat) {
    j < k <= |lines| && Opens(x, lines[j]) == section && forall m :: j < m < k ==> !EndsList(lines[m])
  }

  /** Behind the first `k` lines, the list is still open. */
  predicate Opened(x: Extractors, lines: seq<string>, section: Section, k: nat) {
    exists j: nat | j < k :: OpenedBy(x, lines, section, j, k)
  }

  /** Line `k` stands in a list: a heading opened it and nothing ended it up to and with `k`. */
  predicate InList(x: Extractors, lines: seq<string>, section: Section, k: nat) {
    k < |lines| && !EndsList(lines[k]) && Opened(x, lines, section, k)
  }

  function At(x: Extractors, lines: seq<string>, k: nat): Reader
    requires k <= |lines|
  {
    Read(x, START, lines[..k])
  }

  lemma AtNext(x: Extractors, lines: seq<string>, k: nat)
    requires k < |lines|
    ensures At(x, lines, k + 1) == Step(x, At(x, lines, k), lines[k])
  {
    hide Step;
    assert lines[..k + 1] == lines[..k] + [lines[k]];
    ReadConcat(x, START, lines[..k], [lines[k]]);
    ReadOne(x, At(x, lines, k), [lines[k]], 0);
    ReadNothing(x, Step(x, At(x, lines, k), lines[k]), [lines[k]]);
    assert [lines[k]][0..] == [lines[k]] && [lines[k]][1..] == [lines[k]][|[lines[k]]|..];
  }

  lemma SectionStep(x: Extractors, r: Reader, raw: string)
    ensures Step(x, r, raw).section == if EndsList(raw) || r.section == Outside then Opens(x, raw) else r.section
  {
    hide Item, Title, Trim, StripAll, Joined;
    HeadingIsNotName(Trim(raw));
  }

  lemma HeadingIsNotName(line: string)
    ensures "## " <= line ==> !("# " <= line)
  {
    assert "## "[1] == '#' && "# "[1] == ' ';
  }

  lemma AtStart(x: Extractors, lines: seq<string>)
    ensures At(x, lines, 0) == START
  {
    assert lines[..0] == [];
  }

  /** A list is open behind a line that opens it, or behind a line that does not end it. */
  lemma OpenedNext(x: Extractors, lines: seq<string>, section: Section, k: nat)
    requires k < |lines|
    ensures Opened(x, lines, section, k + 1)
      <==> Opens(x, lines[k]) == section || (!EndsList(lines[k]) && Opened(x, lines, section, k))
  {
    hide Opens, EndsList;
    if Opens(x, lines[k]) == section {
      assert OpenedBy(x, lines, section, k, k + 1);
    }
    if Opened(x, lines, section, k) && !EndsList(lines[k]) {
      var j: nat :| j < k && OpenedBy(x, lines, section, j, k);
      assert OpenedBy(x, lines, section, j, k + 1);
    }
    if Opened(x, lines, section, k + 1) {
      var j: nat :| j < k + 1 && OpenedBy(x, lines, section, j, k + 1);
      assert j < k ==> OpenedBy(x, lines, section, j, k);
    }
  }

  /** The reader is inside a list exactly when some heading opened it and nothing closed it. */
  lemma {:induction false} SectionIsOpened(x: Extractors, lines: seq<string>, section: Section, k: nat)
    requires k <= |lines| && section != Outside
    ensures At(x, lines, k).section == section <==> Opened(x, lines, section, k)
  {
    hide Step, Opens, EndsList, OpenedBy, At;
    if k == 0 {
      AtStart(x, lines);
    } else {
      hide Opened;
      SectionIsOpened(x, lines, section, k - 1);
      AtNext(x, lines, k - 1);
      SectionStep(x, At(x, lines, k - 1), lines[k - 1]);
      OpeningEnds(x, lines[k - 1]);
      OpenedNext(x, lines, section, k - 1);
    }
  }

  lemma OpeningEnds(x: Extractors, raw: string)
    ensures Opens(x, raw) != Outside ==> EndsList(raw)
  {
  }

  /** Line by line: a line of a list is read as an item of that list and of no other, and
      every other line is read as free text. */
  lemma LinesAreReadInPlace(x: Extractors, lines: seq<string>, section: Section, k: nat)
    requires k < |lines| && section != Outside
    ensures InList(x, lines, section, k) ==>
      At(x, lines, k + 1).program == Item(x, section, At(x, lines, k).program, lines[k])
      && At(x, lines, k + 1).inInstructions == At(x, lines, k).inInstructions
    ensures !InList(x, lines, Files, k) && !InList(x, lines, Metric, k) && !InList(x, lines, Constraints, k) ==>
      At(x, lines, k + 1) == FreeLine(x, At(x, lines, k).program, At(x, lines, k).inInstructions, lines[k])
  {
    hide Item, FreeLine, EndsList, Opened, Read;
    AtNext(x, lines, k);
    SectionIsOpened(x, lines, section, k);
    SectionIsOpened(x, lines, Files, k);
    SectionIsOpened(x, lines, Metric, k);
    SectionIsOpened(x, lines, Constraints, k);
  }

  // ----- what the line rules amount to -----

  /** The headings that open a list, whatever their case. */
  lemma TitlesOpen(x: Extractors, raw: string)
    ensures
      var line := Trim(raw);
      var title := x.lower(Trim(StripAll(line, "## ")));
      Opens(x, raw) ==
        if !("## " <= line) then Outside
        else if title in {"files", "file configuration"} then Files
        else if title in {"metric", "metrics"} then Metric
        else if title in {"constraints", "settings", "config"} then Constraints
        else Outside
    ensures OpensInstructions(Title(x, Trim(raw))) <==>
      x.lower(Trim(StripAll(Trim(raw), "## "))) in {"instructions", "research instructions"}
  {
    hide Trim, StripAll;
  }

  /** A heading of the first level does not end a list: it neither names the program there nor
      changes any of its texts. */
  lemma NameInsideList(x: Extractors, r: Reader, raw: string)
    requires r.section != Outside && "# " <= Trim(raw)
    ensures
      var r' := Step(x, r, raw);
      && r'.section == r.section && r'.inInstructions == r.inInstructions
      && r'.program.name == r.program.name && r'.program.description == r.program.description
      && r'.program.instructions == r.program.instructions
  {
    hide Trim, StripAll, Has;
    HeadingIsNotName(Trim(raw));
  }

  /** A list ends at its first blank line: bullets behind it are dropped, unless they fall
      into the instructions. */
  lemma BulletsBehindBlank(x: Extractors, r: Reader, blank: string, bullets: seq<string>)
    requires !r.inInstructions && Trim(blank) == ""
    requires forall k :: 0 <= k < |bullets| ==> IsBullet(Trim(bullets[k]))
    ensures Read(x, r, [blank] + bullets) == r.(section := Outside)
  {
    hide Trim, StripAll, Item;
    assert ([blank] + bullets)[1..] == bullets;
    BulletsDropped(x, r.(section := Outside), bullets);
  }

  lemma BulletIsNoHeading(line: string)
    requires IsBullet(line)
    ensures line != "" && !("# " <= line) && !("## " <= line) && !("#" <= line)
  {
    assert line[0] == '-' || line[0] == '*';
    assert "# "[0] == '#' && "## "[0] == '#' && "#"[0] == '#';
  }

  lemma {:induction false} BulletsDropped(x: Extractors, r: Reader, bullets: seq<string>)
    requires !r.inInstructions && r.section == Outside
    requires forall k :: 0 <= k < |bullets| ==> IsBullet(Trim(bullets[k]))
    ensures Read(x, r, bullets) == r
    decreases |bullets|
  {
    hide Trim, StripAll;
    if bullets != [] {
      BulletIsNoHeading(Trim(bullets[0]));
      BulletsDropped(x, r, bullets[1..]);
    }
  }

  /** Text lines: neither blank nor a heading of the first or second level. */
  predicate IsText(raw: string) {
    var line := Trim(raw);
    line != "" && !("# " <= line) && !("## " <= line)
  }

  function WithTexts(instructions: string, lines: seq<string>): string
    decreases |lines|
  {
    if lines == [] then instructions
    else WithTexts(if IsText(lines[0]) then Joined(instructions, "\n", Trim(lines[0])) else instructions, lines[1..])
  }

  /** The mode flag is never cleared: the branch that would clear it is never reached. So once
      the instructions have begun, every text line up to the next list heading is appended to
      them, whatever other headings stand between, and nothing reaches the description. */
  lemma {:induction false} InstructionsRunOn(x: Extractors, r: Reader, lines: seq<string>)
    requires r.inInstructions && r.section == Outside
    requires forall k :: 0 <= k < |lines| ==> Opens(x, lines[k]) == Outside
    ensures var r' := Read(x, r, lines);
            && r'.inInstructions && r'.section == Outside
            && r'.program == r.program.(name := r'.program.name,
                                        instructions := WithTexts(r.program.instructions, lines))
    decreases |lines|
  {
    hide Trim, StripAll, Title, Joined, SectionOf;
    if lines != [] {
      HeadingIsNotName(Trim(lines[0]));
      InstructionsRunOn(x, Step(x, r, lines[0]), lines[1..]);
    }
  }

  lemma {:induction false} InstructionsNeverEnd(x: Extractors, r: Reader, lines: seq<string>)
    requires r.inInstructions
    ensures Read(x, r, lines).inInstructions && Read(x, r, lines).program.description == r.program.description
    decreases |lines|
  {
    hide Trim, StripAll, Title, Joined, SectionOf, Has;
    if lines != [] {
      InstructionsNeverEnd(x, Step(x, r, lines[0]), lines[1..]);
    }
  }

  // ----- the fields of the program, told by the lines of their lists -----

  /** What the last line that tells something tells; line `k` of the first `n` tells `told(k)`. */
  function LastTold<T>(told: nat -> Option<T>, n: nat, default: T): T {
    if n == 0 then default
    else match told(n - 1) case Some(v) => v case None => LastTold(told, n - 1, default)
  }

  /** What all lines tell, in order. */
  function AllTold<T>(told: nat -> Option<T>, n: nat): seq<T> {
    if n == 0 then []
    else AllTold(told, n - 1) + match told(n - 1) case Some(v) => [v] case None => []
  }

  /** The last line that tells something decides; lines that tell nothing do not count. */
  lemma {:induction false} LastToldIs<T>(told: nat -> Option<T>, n: nat, k: nat, default: T)
    requires forall j :: k <= j < n ==> told(j).None?
    ensures k < n ==> LastTold(told, n, default) == LastTold(told, k, default)
    ensures 0 < k <= n && told(k - 1).Some? ==> LastTold(told, n, default) == told(k - 1).value
    decreases n
  {
    if k < n {
      LastToldIs(told, n - 1, k, default);
    }
  }

  function Spliced(parts: seq<string>, sep: string): string {
    if parts == [] then ""
    else if |parts| == 1 then parts[0]
    else Spliced(parts[..|parts| - 1], sep) + sep + parts[|parts| - 1]
  }

  /** A bullet without its dashes, then its stars. */
  function BulletText(raw: string): string {
    Trim(StripAll(StripAll(Trim(raw), "-"), "*"))
  }

  /** The path in a bullet of the file list, among those that say `fixed` and not `editable`, or
      among the others. */
  function FileTold(x: Extractors, lines: seq<string>, onlyFixed: bool): nat -> Option<string> {
    (k: nat) =>
      if InList(x, lines, Files, k) && IsBullet(Trim(lines[k])) then
        var said := x.lower(BulletText(lines[k]));
        if (Has(said, "fixed") && !Has(said, "editable")) == onlyFixed then x.filePath(BulletText(lines[k])) else None
      else None
  }

  predicate SaysCommand(said: string) {
    Has(said, "command:") || Has(said, "cmd:")
  }

  predicate SaysRegex(said: string) {
    Has(said, "regex:") || Has(said, "parse:")
  }

  function CommandTold(x: Extractors, lines: seq<string>): nat -> Option<string> {
    (k: nat) =>
      if InList(x, lines, Metric, k) && SaysCommand(x.lower(Trim(lines[k]))) then
        match x.value(lines[k], ["command:", "cmd:"]) case Some(v) => Some(Trim(v)) case None => None
      else None
  }

  function RegexTold(x: Extractors, lines: seq<string>): nat -> Option<string> {
    (k: nat) =>
      if InList(x, lines, Metric, k) && SaysRegex(x.lower(Trim(lines[k])))
         && !SaysCommand(x.lower(Trim(lines[k])))
      then
        match x.value(lines[k], ["regex:", "parse:"]) case Some(v) => Some(StripBackticks(Trim(v))) case None => None
      else None
  }

  /** A goal line says `goal:` and gives neither a command nor a regex. */
  function GoalTold(x: Extractors, lines: seq<string>): nat -> Option<Goal> {
    (k: nat) =>
      if !InList(x, lines, Metric, k) then None
      else
        var said := x.lower(Trim(lines[k]));
        if !Has(said, "goal:") || SaysCommand(said) || SaysRegex(said) then None
        else if Has(said, "minimize") || Has(said, "lower") then Some(Minimize)
        else if Has(said, "maximize") || Has(said, "higher") then Some(Maximize)
        else None
  }

  predicate SaysTime(said: string) {
    Has(said, "time budget") || Has(said, "timeout")
  }

  predicate SaysMemory(said: string) {
    Has(said, "max memory") || Has(said, "memory limit")
  }

  function TimeTold(x: Extractors, lines: seq<string>): nat -> Option<nat> {
    (k: nat) =>
      if InList(x, lines, Constraints, k) && SaysTime(x.lower(Trim(lines[k]))) then x.number(lines[k]) else None
  }

  function MemoryTold(x: Extractors, lines: seq<string>): nat -> Option<Option<real>> {
    (k: nat) =>
      if InList(x, lines, Constraints, k) && SaysMemory(x.lower(Trim(lines[k]))) && !SaysTime(x.lower(Trim(lines[k])))
         && x.float(lines[k]).Some?
      then Some(x.float(lines[k])) else None
  }

  function ExtraTold(x: Extractors, lines: seq<string>): nat -> Option<string> {
    (k: nat) =>
      if !InList(x, lines, Constraints, k) then None
      else
        var said := x.lower(Trim(lines[k]));
        if SaysTime(said) || SaysMemory(said) || IsBullet(Trim(lines[k])) then None else Some(Trim(lines[k]))
  }

  /** Line `k` stands in no list. */
  predicate InNoList(x: Extractors, lines: seq<string>, k: nat) {
    k < |lines| && !InList(x, lines, Files, k) && !InList(x, lines, Metric, k) && !InList(x, lines, Constraints, k)
  }

  function NameTold(x: Extractors, lines: seq<string>): nat -> Option<string> {
    (k: nat) =>
      if InNoList(x, lines, k) && "# " <= Trim(lines[k]) then Some(Trim(StripAll(Trim(lines[k]), "# "))) else None
  }

  /** An instructions heading stands in front of line `k`. */
  predicate Instructed(x: Extractors, lines: seq<string>, k: nat) {
    exists j :: 0 <= j < k && j < |lines| && "## " <= Trim(lines[j]) && OpensInstructions(Title(x, Trim(lines[j])))
  }

  function InstructionTold(x: Extractors, lines: seq<string>): nat -> Option<string> {
    (k: nat) =>
      if InNoList(x, lines, k) && IsText(lines[k]) && Instructed(x, lines, k) then Some(Trim(lines[k])) else None
  }

  function DescriptionTold(x: Extractors, lines: seq<string>): nat -> Option<string> {
    (k: nat) =>
      if InNoList(x, lines, k) && Trim(lines[k]) != "" && !("#" <= Trim(lines[k])) && !IsBullet(Trim(lines[k]))
         && !Instructed(x, lines, k)
      then Some(Trim(lines[k])) else None
  }

  function Told<T>(told: Option<T>, before: T): T {
    match told case Some(v) => v case None => before
  }

  function TextTold(told: Option<string>, sep: string, before: string): string {
    match told case Some(line) => Joined(before, sep, line) case None => before
  }

  function ListTold(told: Option<string>): seq<string> {
    match told case Some(v) => [v] case None => []
  }

  /** An item of a list changes the fields of that list only. */
  lemma FileItemTells(x: Extractors, lines: seq<string>, p: Program, k: nat)
    requires k < |lines| && InList(x, lines, Files, k)
    ensures FilesItem(x, p, lines[k])
         == p.(editable := p.editable + ListTold(FileTold(x, lines, false)(k)),
               fixed := p.fixed + ListTold(FileTold(x, lines, true)(k)))
  {
    hide Trim, StripAll, Has, InList, IsBullet;
    var raw := lines[k];
    var content := Trim(StripAll(StripAll(Trim(raw), "-"), "*"));
    assert content == BulletText(raw);
    assert p.editable + [] == p.editable && p.fixed + [] == p.fixed;
    if !IsBullet(Trim(raw)) || x.filePath(content).None? {
      assert FileTold(x, lines, false)(k).None? && FileTold(x, lines, true)(k).None?;
    } else if Has(x.lower(content), "fixed") && !Has(x.lower(content), "editable") {
      assert FileTold(x, lines, false)(k).None? && FileTold(x, lines, true)(k) == x.filePath(content);
    } else {
      assert FileTold(x, lines, true)(k).None? && FileTold(x, lines, false)(k) == x.filePath(content);
    }
  }

  lemma MetricItemTells(x: Extractors, lines: seq<string>, p: Program, k: nat)
    requires k < |lines| && InList(x, lines, Metric, k)
    ensures MetricItem(x, p, lines[k])
         == p.(command := Told(CommandTold(x, lines)(k), p.command), regex := Told(RegexTold(x, lines)(k), p.regex),
               goal := Told(GoalTold(x, lines)(k), p.goal))
  {
    hide Trim, StripBackticks, Has, InList;
  }

  lemma ConstraintItemTells(x: Extractors, lines: seq<string>, p: Program, k: nat)
    requires k < |lines| && InList(x, lines, Constraints, k)
    ensures ConstraintItem(x, p, lines[k])
         == p.(timeBudget := Told(TimeTold(x, lines)(k), p.timeBudget),
               maxMemory := Told(MemoryTold(x, lines)(k), p.maxMemory),
               extra := p.extra + ListTold(ExtraTold(x, lines)(k)))
  {
    hide Trim, Has, InList, IsBullet;
    var raw := lines[k];
    var line := x.lower(Trim(raw));
    assert p.extra + [] == p.extra;
    if SaysTime(line) {
      assert MemoryTold(x, lines)(k).None? && ExtraTold(x, lines)(k).None?;
    } else if SaysMemory(line) {
      assert TimeTold(x, lines)(k).None? && ExtraTold(x, lines)(k).None?;
    } else {
      assert TimeTold(x, lines)(k).None? && MemoryTold(x, lines)(k).None?;
    }
  }

  /** Lines outside a list tell nothing about its fields. */
  lemma SilentElsewhere(x: Extractors, lines: seq<string>, k: nat)
    ensures !InList(x, lines, Files, k) ==>
      FileTold(x, lines, false)(k).None? && FileTold(x, lines, true)(k).None?
    ensures !InList(x, lines, Metric, k) ==>
      CommandTold(x, lines)(k).None? && RegexTold(x, lines)(k).None? && GoalTold(x, lines)(k).None?
    ensures !InList(x, lines, Constraints, k) ==>
      TimeTold(x, lines)(k).None? && MemoryTold(x, lines)(k).None? && ExtraTold(x, lines)(k).None?
  {
    hide Trim, InList, Has;
  }

  /** Each line changes exactly the fields it tells something about. */
  lemma ToldByLine(x: Extractors, lines: seq<string>, k: nat)
    requires k < |lines|
    ensures
      var p, q := At(x, lines, k).program, At(x, lines, k + 1).program;
      && q.editable == p.editable + ListTold(FileTold(x, lines, false)(k))
      && q.fixed == p.fixed + ListTold(FileTold(x, lines, true)(k))
      && q.command == Told(CommandTold(x, lines)(k), p.command)
      && q.regex == Told(RegexTold(x, lines)(k), p.regex)
      && q.goal == Told(GoalTold(x, lines)(k), p.goal)
      && q.timeBudget == Told(TimeTold(x, lines)(k), p.timeBudget)
      && q.maxMemory == Told(MemoryTold(x, lines)(k), p.maxMemory)
      && q.extra == p.extra + ListTold(ExtraTold(x, lines)(k))
  {
    hide InList, At, FreeLine, FilesItem, MetricItem, ConstraintItem, FileTold, CommandTold, RegexTold, GoalTold,
      TimeTold, MemoryTold, ExtraTold;
    var p := At(x, lines, k).program;
    LinesAreReadInPlace(x, lines, Files, k);
    LinesAreReadInPlace(x, lines, Metric, k);
    LinesAreReadInPlace(x, lines, Constraints, k);
    OneList(x, lines, k);
    SilentElsewhere(x, lines, k);
    assert p.editable + [] == p.editable && p.fixed + [] == p.fixed && p.extra + [] == p.extra;
    if InList(x, lines, Files, k) {
      FileItemTells(x, lines, p, k);
    } else if InList(x, lines, Metric, k) {
      MetricItemTells(x, lines, p, k);
    } else if InList(x, lines, Constraints, k) {
      ConstraintItemTells(x, lines, p, k);
    } else {
      FreeLineKeepsLists(x, p, At(x, lines, k).inInstructions, lines[k]);
    }
  }

  lemma FreeLineKeepsLists(x: Extractors, p: Program, mode: bool, raw: string)
    ensures var q := FreeLine(x, p, mode, raw).program;
            q == p.(name := q.name, description := q.description, instructions := q.instructions)
  {
    hide Trim, StripAll, Joined;
  }

  /** A line stands in one list at most. */
  lemma OneList(x: Extractors, lines: seq<string>, k: nat)
    requires k < |lines|
    ensures !(InList(x, lines, Files, k) && InList(x, lines, Metric, k))
    ensures !(InList(x, lines, Files, k) && InList(x, lines, Constraints, k))
    ensures !(InList(x, lines, Metric, k) && InList(x, lines, Constraints, k))
  {
    hide EndsList, Opened, At;
    SectionIsOpened(x, lines, Files, k);
    SectionIsOpened(x, lines, Metric, k);
    SectionIsOpened(x, lines, Constraints, k);
  }

  /** The instructions have begun exactly behind a heading that opens them. */
  lemma {:induction false} BegunIsInstructed(x: Extractors, lines: seq<string>, k: nat)
    requires k <= |lines|
    ensures At(x, lines, k).inInstructions <==> Instructed(x, lines, k)
  {
    hide Trim, Title, OpensInstructions, At, InList, StripAll;
    if k == 0 {
      AtStart(x, lines);
    } else {
      var raw := lines[k - 1];
      BegunIsInstructed(x, lines, k - 1);
      ReadAsText(x, lines, k - 1);
      if "## " <= Trim(raw) {
        HeadingIsFree(x, lines, k - 1);
      }
      HeadingIsNotName(Trim(raw));
      if Instructed(x, lines, k - 1) {
        var j :| 0 <= j < k - 1 && "## " <= Trim(lines[j]) && OpensInstructions(Title(x, Trim(lines[j])));
        assert Instructed(x, lines, k);
      }
    }
  }

  lemma HeadingIsFree(x: Extractors, lines: seq<string>, k: nat)
    requires k < |lines| && "## " <= Trim(lines[k])
    ensures InNoList(x, lines, k)
  {
    hide Trim, Opened;
  }

  /** A line of a list changes no text; any other line is read as free text. */
  lemma ReadAsText(x: Extractors, lines: seq<string>, k: nat)
    requires k < |lines|
    ensures
      var b, r := At(x, lines, k), At(x, lines, k + 1);
      if InNoList(x, lines, k) then r == FreeLine(x, b.program, b.inInstructions, lines[k])
      else
        && r.inInstructions == b.inInstructions && r.program.name == b.program.name
        && r.program.description == b.program.description && r.program.instructions == b.program.instructions
  {
    hide Trim, InList, At, FreeLine, StripAll, Has, StripBackticks;
    LinesAreReadInPlace(x, lines, Files, k);
    LinesAreReadInPlace(x, lines, Metric, k);
    LinesAreReadInPlace(x, lines, Constraints, k);
  }

  lemma TextsByLine(x: Extractors, lines: seq<string>, k: nat)
    requires k < |lines|
    ensures
      var p, q := At(x, lines, k).program, At(x, lines, k + 1).program;
      && q.name == Told(NameTold(x, lines)(k), p.name)
      && q.description == TextTold(DescriptionTold(x, lines)(k), " ", p.description)
      && q.instructions == TextTold(InstructionTold(x, lines)(k), "\n", p.instructions)
  {
    hide Trim, InList, InNoList, At, StripAll, Title, Instructed, Joined, OpensInstructions, SectionOf;
    BegunIsInstructed(x, lines, k);
    ReadAsText(x, lines, k);
    HeadingIsNotName(Trim(lines[k]));
    LevelsAreHeadings(Trim(lines[k]));
  }

  lemma LevelsAreHeadings(line: string)
    ensures "# " <= line || "## " <= line ==> "#" <= line && line != ""
  {
  }

  /** The program that the first `n` lines together tell. */
  function ToldProgram(x: Extractors, lines: seq<string>, n: nat): Program {
    Program(
      LastTold(NameTold(x, lines), n, ""),
      Spliced(AllTold(DescriptionTold(x, lines), n), " "),
      AllTold(FileTold(x, lines, false), n),
      AllTold(FileTold(x, lines, true), n),
      LastTold(CommandTold(x, lines), n, ""),
      LastTold(RegexTold(x, lines), n, ""),
      LastTold(GoalTold(x, lines), n, Minimize),
      LastTold(TimeTold(x, lines), n, 300),
      AllTold(ExtraTold(x, lines), n),
      LastTold(MemoryTold(x, lines), n, None),
      Spliced(AllTold(InstructionTold(x, lines), n), "\n"))
  }

  /** Every text told is a line with something in it. */
  ghost predicate TellsLines(told: nat -> Option<string>) {
    forall k :: told(k) != Some("")
  }

  lemma {:induction false} LinesTold(told: nat -> Option<string>, n: nat)
    requires TellsLines(told)
    ensures forall k :: 0 <= k < |AllTold(told, n)| ==> AllTold(told, n)[k] != ""
  {
    if n > 0 {
      LinesTold(told, n - 1);
    }
  }

  lemma SplicedNext(told: nat -> Option<string>, sep: string, n: nat)
    requires TellsLines(told)
    ensures Spliced(AllTold(told, n + 1), sep) == TextTold(told(n), sep, Spliced(AllTold(told, n), sep))
  {
    LinesTold(told, n);
    var parts := AllTold(told, n);
    assert parts + [] == parts;
    if told(n).Some? {
      assert (parts + [told(n).value])[..|parts|] == parts;
      assert parts != [] ==> parts[|parts| - 1] != "";
      assert "" + told(n).value == told(n).value;
    }
  }

  lemma TextsAreLines(x: Extractors, lines: seq<string>)
    ensures TellsLines(DescriptionTold(x, lines)) && TellsLines(InstructionTold(x, lines))
  {
    hide Trim, InNoList, Instructed;
  }

  /** The one-pass reading tells the same. */
  lemma {:induction false} ReadTells(x: Extractors, lines: seq<string>, k: nat)
    requires k <= |lines|
    ensures At(x, lines, k).program == ToldProgram(x, lines, k)
  {
    hide At, FileTold, CommandTold, RegexTold, GoalTold, TimeTold, MemoryTold, ExtraTold, NameTold,
      DescriptionTold, InstructionTold, Spliced, Joined;
    if k == 0 {
      AtStart(x, lines);
      NothingSpliced();
    } else {
      ReadTells(x, lines, k - 1);
      ToldByLine(x, lines, k - 1);
      TextsByLine(x, lines, k - 1);
      TextsAreLines(x, lines);
      SplicedNext(DescriptionTold(x, lines), " ", k - 1);
      SplicedNext(InstructionTold(x, lines), "\n", k - 1);
    }
  }

  lemma NothingSpliced()
    ensures Spliced([], " ") == "" && Spliced([], "\n") == ""
  {
  }

  lemma AllRead(x: Extractors, lines: seq<string>)
    ensures Read(x, START, lines).program == ToldProgram(x, lines, |lines|)
  {
    assert lines[..|lines|] == lines;
    ReadTells(x, lines, |lines|);
  }
}

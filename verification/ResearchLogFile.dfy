/** The text of the results log over whole runs and restarts: what loading it gives is the list
    of rows that the research loop is modelled with. */
module ResearchLogFile {
  import opened Text
  import opened ResultsLog
  import opened ResearchLoop
  import opened ResearchRuns

  /** The results of the experiments that returned Ok, in order. */
  function Results(cfg: Config, s: State, ts: seq<Trial>): seq<ExperimentResult>
    requires ValidRepo(s.repo)
    decreases |ts|
  {
    if ts == [] then []
    else
      var (s', result) := Experiment(cfg, s, ts[0]);
      (if result.Some? then [result.value] else []) + Results(cfg, s', ts[1..])
  }

  function StartResults(cfg: Config, g: Repo, u: StartUp): seq<ExperimentResult>
    requires ValidRepo(g)
  {
    if Rows(Started(cfg, g, u).0.repo.log) == Rows(g.log) || u.baseline.metric.None? then []
    else [ResultOf(u.baseline.(description := "baseline"), g.head, if u.baseline.crashed then Crash else Keep)]
  }

  function SessionResults(cfg: Config, g: Repo, x: Session): seq<ExperimentResult>
    requires ValidRepo(g)
  {
    var (s, ok) := Started(cfg, g, x.start);
    StartResults(cfg, g, x.start) + (if ok then Results(cfg, s, x.experiments) else [])
  }

  function AllResults(cfg: Config, g: Repo, xs: seq<Session>): seq<ExperimentResult>
    requires ValidRepo(g)
    decreases |xs|
  {
    if xs == [] then []
    else SessionResults(cfg, g, xs[0]) + AllResults(cfg, SessionEnd(cfg, g, xs[0]).repo, xs[1..])
  }

  predicate AllPlain(rs: seq<ExperimentResult>) {
    forall k :: 0 <= k < |rs| ==> PlainCommit(rs[k])
  }

  /** The file is well-formed and loading it gives the rows. */
  predicate Holds(file: Option<string>, rows: seq<ExperimentResult>) {
    file.Some? && Terminated(file.value) && LoadFile(file) == Loaded(rows)
  }

  lemma {:induction false} AppendTwice(file: Option<string>, a: seq<ExperimentResult>, b: seq<ExperimentResult>)
    ensures AppendedAll(file, a + b) == AppendedAll(AppendedAll(file, a), b)
    decreases |a|
  {
    hide Appended;
    if a == [] {
      assert a + b == b;
    } else {
      assert (a + b)[0] == a[0] && (a + b)[1..] == a[1..] + b;
      AppendTwice(Some(Appended(file, a[0])), a[1..], b);
    }
  }

  lemma HoldsOneMore(file: Option<string>, rows: seq<ExperimentResult>, r: ExperimentResult)
    requires Holds(file, rows) && PlainCommit(r)
    ensures Holds(AppendedAll(file, [r]), rows + [Logged(r)])
  {
    hide Appended, Logged, LoadFile, PlainCommit;
    AppendLoads(file.value, r);
    assert [r][1..] == [];
  }

  // ----- appends that fail -----

  /** The file behind an append to it, when no write is torn. */
  function FileAfter(file: Option<string>, r: ExperimentResult, init: Write, row: Write): Option<string> {
    if row.Done? && (file.Some? || init.Done?) then Some(Appended(file, r)) else AppendFailed(file, init, row)
  }

  /** What the loop sees of it. */
  function OutcomeOf(file: Option<string>, init: Write, row: Write): AppendOutcome {
    if file.None? && !init.Done? then NothingWritten
    else if row.Done? then RowWritten
    else if file.None? then HeaderWritten
    else NothingWritten
  }

  /** The file is there when the log is, and loads to its rows. */
  predicate Mirrors(file: Option<string>, log: Log) {
    if log.None? then file.None? else Holds(file, log.value)
  }

  /** Failed appends included, the file goes on loading to the rows the loop is modelled with. */
  lemma AppendMirrors(g: Repo, file: Option<string>, r: ExperimentResult, init: Write, row: Write)
    requires Mirrors(file, g.log) && PlainCommit(r) && !init.Torn? && !row.Torn?
    ensures Mirrors(FileAfter(file, r, init, row), AppendTo(g, r, OutcomeOf(file, init, row)).log)
  {
    hide LoadFile, Logged, ToTsvRow, PlainCommit;
    EmptyLogLoads();
    if OutcomeOf(file, init, row).RowWritten? {
      var text := if file.Some? then file.value else EMPTY_LOG;
      assert Holds(Some(text), Rows(g.log));
      AppendLoads(text, r);
    }
  }

  // ----- runs -----

  lemma PlainParts(a: seq<ExperimentResult>, b: seq<ExperimentResult>)
    requires AllPlain(a + b)
    ensures AllPlain(a) && AllPlain(b)
  {
    assert forall k :: 0 <= k < |a| ==> (a + b)[k] == a[k];
    assert forall k :: 0 <= k < |b| ==> (a + b)[|a| + k] == b[k];
  }

  lemma {:induction false} FileHoldsRun(cfg: Config, s: State, ts: seq<Trial>, file: Option<string>)
    requires ValidRepo(s.repo) && cfg.ignored && IgnoredEverywhere(s.repo)
    requires Holds(file, Rows(s.repo.log)) && AllPlain(Results(cfg, s, ts))
    ensures Holds(AppendedAll(file, Results(cfg, s, ts)), Rows(After(cfg, s, ts).repo.log))
    decreases |ts|
  {
    hide Experiment, Holds, IgnoredEverywhere, AllPlain, Logged;
    if ts != [] {
      var (s', result) := Experiment(cfg, s, ts[0]);
      IgnoredLogGrows(cfg, s, ts[0]);
      var here := if result.Some? then [result.value] else [];
      PlainParts(here, Results(cfg, s', ts[1..]));
      AppendTwice(file, here, Results(cfg, s', ts[1..]));
      if result.Some? {
        OnePlain(result.value);
        HoldsOneMore(file, Rows(s.repo.log), result.value);
      }
      FileHoldsRun(cfg, s', ts[1..], AppendedAll(file, here));
    }
  }

  lemma OnePlain(r: ExperimentResult)
    ensures AllPlain([r]) ==> PlainCommit(r)
  {
    assert [r][0] == r;
  }

  lemma FileHoldsStart(cfg: Config, g: Repo, u: StartUp, file: Option<string>)
    requires ValidRepo(g) && Holds(file, Rows(g.log)) && AllPlain(StartResults(cfg, g, u))
    ensures Holds(AppendedAll(file, StartResults(cfg, g, u)), Rows(Started(cfg, g, u).0.repo.log))
  {
    hide Holds, AllPlain, Started, Logged;
    StartRows(cfg, g, u);
    if StartResults(cfg, g, u) != [] {
      var r := StartResults(cfg, g, u)[0];
      OnePlain(r);
      HoldsOneMore(file, Rows(g.log), r);
      assert [] + [Logged(r)] == [Logged(r)];
    }
  }

  lemma FileHoldsSession(cfg: Config, g: Repo, x: Session, file: Option<string>)
    requires ValidRepo(g) && cfg.ignored && IgnoredEverywhere(g)
    requires Holds(file, Rows(g.log)) && AllPlain(SessionResults(cfg, g, x))
    ensures Holds(AppendedAll(file, SessionResults(cfg, g, x)), Rows(SessionEnd(cfg, g, x).repo.log))
    ensures IgnoredEverywhere(SessionEnd(cfg, g, x).repo)
  {
    hide Holds, AllPlain, Started, StartResults, Results, After;
    var (s, ok) := Started(cfg, g, x.start);
    var first, rest := StartResults(cfg, g, x.start), if ok then Results(cfg, s, x.experiments) else [];
    PlainParts(first, rest);
    AppendTwice(file, first, rest);
    FileHoldsStart(cfg, g, x.start, file);
    if ok {
      FileHoldsRun(cfg, s, x.experiments, AppendedAll(file, first));
      StaysIgnored(cfg, s, x.experiments);
    }
  }

  lemma {:induction false} StaysIgnored(cfg: Config, s: State, ts: seq<Trial>)
    requires ValidRepo(s.repo) && cfg.ignored && IgnoredEverywhere(s.repo)
    ensures IgnoredEverywhere(After(cfg, s, ts).repo)
    decreases |ts|
  {
    hide Experiment, IgnoredEverywhere;
    if ts != [] {
      IgnoredLogGrows(cfg, s, ts[0]);
      StaysIgnored(cfg, Experiment(cfg, s, ts[0]).0, ts[1..]);
    }
  }

  lemma {:induction false} FileHoldsSessions(cfg: Config, g: Repo, xs: seq<Session>, file: Option<string>)
    requires ValidRepo(g) && cfg.ignored && IgnoredEverywhere(g)
    requires Holds(file, Rows(g.log)) && AllPlain(AllResults(cfg, g, xs))
    ensures Holds(AppendedAll(file, AllResults(cfg, g, xs)), Rows(AfterSessions(cfg, g, xs).log))
    ensures IgnoredEverywhere(AfterSessions(cfg, g, xs))
    decreases |xs|
  {
    hide Holds, AllPlain, SessionResults, SessionEnd, IgnoredEverywhere;
    if xs != [] {
      var g' := SessionEnd(cfg, g, xs[0]).repo;
      PlainParts(SessionResults(cfg, g, xs[0]), AllResults(cfg, g', xs[1..]));
      AppendTwice(file, SessionResults(cfg, g, xs[0]), AllResults(cfg, g', xs[1..]));
      FileHoldsSession(cfg, g, xs[0], file);
      FileHoldsSessions(cfg, g', xs[1..], AppendedAll(file, SessionResults(cfg, g, xs[0])));
    }
  }

  /** The same about the text of the file: from an empty log, over any number of processes,
      loading the appended text gives the rows of the model, and their best is the baseline. */
  lemma BestInFileIsTheBaseline(cfg: Config, g: Repo, xs: seq<Session>, x: Session)
    requires ValidRepo(g) && cfg.ignored && IgnoredEverywhere(g) && Rows(g.log) == []
    requires SessionsKeepLogged(cfg, g, xs)
    requires SessionKeepsLogged(cfg, AfterSessions(cfg, g, xs), x) && Started(cfg, AfterSessions(cfg, g, xs), x.start).1
    requires AllPlain(AllResults(cfg, g, xs) + SessionResults(cfg, AfterSessions(cfg, g, xs), x))
    ensures
      var results := AllResults(cfg, g, xs) + SessionResults(cfg, AfterSessions(cfg, g, xs), x);
      var s := SessionEnd(cfg, AfterSessions(cfg, g, xs), x);
      && LoadFile(AppendedAll(Some(EMPTY_LOG), results)) == Loaded(Rows(s.repo.log))
      && (LogMatches(cfg, s) <==> OnlyCrashes(Rows(s.repo.log)) || HasRecord(cfg, Rows(s.repo.log)))
      && (GoodStart(cfg, Rows(s.repo.log)) ==> LogMatches(cfg, s))
  {
    hide AllPlain, AllResults, SessionResults, AfterSessions, SessionEnd, SessionKeepsLogged, SessionsKeepLogged,
      IgnoredEverywhere, LogMatches, LoadFile, GoodStart, Started, OnlyCrashes, HasRecord, BestOf;
    var g' := AfterSessions(cfg, g, xs);
    var a, b := AllResults(cfg, g, xs), SessionResults(cfg, g', x);
    EmptyLogLoads();
    PlainParts(a, b);
    AppendTwice(Some(EMPTY_LOG), a, b);
    FileHoldsSessions(cfg, g, xs, Some(EMPTY_LOG));
    FileHoldsSession(cfg, g', x, AppendedAll(Some(EMPTY_LOG), a));
    BestRowIsTheBaseline(cfg, g, xs, x);
  }
}

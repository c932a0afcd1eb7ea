/** What the research loop keeps true over whole runs, restarts included. */
module ResearchRuns {
  import opened Text
  import opened Decimals
  import opened ResultsLog
  import opened ResearchLoop
  import opened MetricGoals

  // ----- runs of experiments, failures included -----

  /** The state after some experiments, whether or not each of them returned Ok. */
  function After(cfg: Config, s: State, ts: seq<Trial>): (r: State)
    requires ValidRepo(s.repo)
    ensures ValidRepo(r.repo)
    decreases |ts|
  {
    if ts == [] then s else After(cfg, Experiment(cfg, s, ts[0]).0, ts[1..])
  }

  lemma {:induction false} AfterAppend(cfg: Config, s: State, ts: seq<Trial>, t: Trial)
    requires ValidRepo(s.repo)
    ensures After(cfg, s, ts + [t]) == Experiment(cfg, After(cfg, s, ts), t).0
    decreases |ts|
  {
    hide Experiment;
    if ts == [] {
      assert [] + [t] == [t] && [t][1..] == [];
    } else {
      assert (ts + [t])[0] == ts[0] && (ts + [t])[1..] == ts[1..] + [t];
      AfterAppend(cfg, Experiment(cfg, s, ts[0]).0, ts[1..], t);
    }
  }

  // ----- HEAD, baseline and current commit -----

  predicate Agrees(s: State) {
    s.baselineCommit.Some? ==> s.baselineCommit == s.currentCommit == Some(s.repo.head)
  }

  predicate Paired(s: State) {
    s.baselineMetric.Some? <==> s.baselineCommit.Some?
  }

  /** The experiment makes a commit. */
  predicate Commits(cfg: Config, s: State, t: Trial)
    requires ValidRepo(s.repo)
  {
    !t.statusFails && Dirty(s.repo.(code := t.edit), cfg.ignored) && t.commit == Committed
  }

  /** The experiment is judged, and kept or reset. */
  predicate Settles(cfg: Config, s: State, t: Trial)
    requires ValidRepo(s.repo)
  {
    Judge(cfg, s, t).Some? && (Judge(cfg, s, t) == Some(Keep) || !t.resetFails)
  }

  /** There is a baseline commit, and git has it. */
  predicate HasBaseline(s: State) {
    s.baselineCommit.Some? && s.baselineCommit.value in s.repo.commits
  }

  /** Whatever state came before and whichever way the experiment ends: HEAD and the recorded
      commits agree afterwards exactly when it was settled, or when it made no commit and they
      agreed already. */
  lemma AgreesAfter(cfg: Config, s: State, t: Trial)
    requires ValidRepo(s.repo) && HasBaseline(s) && t.newHash !in s.repo.commits
    ensures HasBaseline(Experiment(cfg, s, t).0)
    ensures Agrees(Experiment(cfg, s, t).0) <==> Settles(cfg, s, t) || (!Commits(cfg, s, t) && Agrees(s))
  {
    hide Dirty, Verdict;
  }

  /** An experiment that returns Ok ends in agreement, with or without a baseline before it. */
  lemma OkAgrees(cfg: Config, s: State, t: Trial)
    requires ValidRepo(s.repo) && Experiment(cfg, s, t).1.Some?
    ensures Agrees(Experiment(cfg, s, t).0)
  {
    hide Dirty, Verdict;
  }

  /** Every commit of the run gets a hash git does not have yet. */
  predicate FreshHashes(cfg: Config, s: State, ts: seq<Trial>)
    requires ValidRepo(s.repo)
  {
    forall k :: 0 <= k < |ts| ==> ts[k].newHash !in After(cfg, s, ts[..k]).repo.commits
  }

  /** Experiment `k` of the run makes a commit and is not settled. */
  predicate StraysAt(cfg: Config, s: State, ts: seq<Trial>, k: nat)
    requires ValidRepo(s.repo) && k < |ts|
  {
    var b := After(cfg, s, ts[..k]);
    Commits(cfg, b, ts[k]) && !Settles(cfg, b, ts[k])
  }

  predicate SettlesAt(cfg: Config, s: State, ts: seq<Trial>, k: nat)
    requires ValidRepo(s.repo) && k < |ts|
  {
    Settles(cfg, After(cfg, s, ts[..k]), ts[k])
  }

  lemma SamePrefix(ts: seq<Trial>, n: nat, k: nat)
    requires k <= n <= |ts|
    ensures ts[..n][..k] == ts[..k] && (k < n ==> ts[..n][k] == ts[k])
  {
  }

  /** Some experiment strays and none behind it is settled. */
  predicate Astray(cfg: Config, s: State, ts: seq<Trial>)
    requires ValidRepo(s.repo)
  {
    exists k :: 0 <= k < |ts| && StraysAt(cfg, s, ts, k) && NoneSettles(cfg, s, ts, k + 1)
  }

  predicate NoneSettles(cfg: Config, s: State, ts: seq<Trial>, from: nat)
    requires ValidRepo(s.repo)
  {
    forall j :: from <= j < |ts| ==> !SettlesAt(cfg, s, ts, j)
  }

  lemma AstrayLast(cfg: Config, s: State, ts: seq<Trial>)
    requires ValidRepo(s.repo) && ts != []
    ensures
      var n := |ts| - 1;
      Astray(cfg, s, ts) <==> StraysAt(cfg, s, ts, n) || (!SettlesAt(cfg, s, ts, n) && Astray(cfg, s, ts[..n]))
  {
    hide After, Settles, Commits;
    var n := |ts| - 1;
    var init := ts[..n];
    forall k | 0 <= k < n
      ensures StraysAt(cfg, s, ts, k) <==> StraysAt(cfg, s, init, k)
      ensures SettlesAt(cfg, s, ts, k) <==> SettlesAt(cfg, s, init, k)
    {
      SamePrefix(ts, n, k);
    }
    if StraysAt(cfg, s, ts, n) {
      assert NoneSettles(cfg, s, ts, n + 1);
    }
    if !SettlesAt(cfg, s, ts, n) && Astray(cfg, s, init) {
      var k :| 0 <= k < n && StraysAt(cfg, s, init, k) && NoneSettles(cfg, s, init, k + 1);
      assert StraysAt(cfg, s, ts, k) && NoneSettles(cfg, s, ts, k + 1);
    }
    if Astray(cfg, s, ts) {
      var k :| 0 <= k < |ts| && StraysAt(cfg, s, ts, k) && NoneSettles(cfg, s, ts, k + 1);
      if k < n {
        assert StraysAt(cfg, s, init, k) && NoneSettles(cfg, s, init, k + 1);
      }
    }
  }

  /** Over any run, errors included and whatever state it starts from: HEAD is on the baseline at
      its end exactly when no experiment made a commit unsettled with none settled behind it, and
      HEAD was there before the run or some experiment was settled. */
  lemma {:induction false} AgreesUnlessAstray(cfg: Config, s: State, ts: seq<Trial>)
    requires ValidRepo(s.repo) && HasBaseline(s) && FreshHashes(cfg, s, ts)
    ensures HasBaseline(After(cfg, s, ts))
    ensures Agrees(After(cfg, s, ts)) <==> !Astray(cfg, s, ts) && (Agrees(s) || !NoneSettles(cfg, s, ts, 0))
    decreases |ts|
  {
    hide Agrees, HasBaseline, Settles, Commits, Experiment, After;
    if ts == [] {
      NothingRun(cfg, s);
    } else {
      var n := |ts| - 1;
      var init := ts[..n];
      forall k | 0 <= k < n ensures init[k].newHash !in After(cfg, s, init[..k]).repo.commits {
        SamePrefix(ts, n, k);
      }
      AgreesUnlessAstray(cfg, s, init);
      assert ts == init + [ts[n]];
      AfterAppend(cfg, s, init, ts[n]);
      AgreesAfter(cfg, After(cfg, s, init), ts[n]);
      AstrayLast(cfg, s, ts);
      NoneSettlesLast(cfg, s, ts);
    }
  }

  lemma NoneSettlesLast(cfg: Config, s: State, ts: seq<Trial>)
    requires ValidRepo(s.repo) && ts != []
    ensures NoneSettles(cfg, s, ts, 0) <==>
      !SettlesAt(cfg, s, ts, |ts| - 1) && NoneSettles(cfg, s, ts[..|ts| - 1], 0)
  {
    hide After, Settles;
    var n := |ts| - 1;
    forall k | 0 <= k < n ensures SettlesAt(cfg, s, ts, k) <==> SettlesAt(cfg, s, ts[..n], k) {
      SamePrefix(ts, n, k);
    }
    if !SettlesAt(cfg, s, ts, n) && NoneSettles(cfg, s, ts[..n], 0) {
      assert forall j :: 0 <= j < n ==> !SettlesAt(cfg, s, ts[..n], j);
    }
  }

  lemma NothingRun(cfg: Config, s: State)
    requires ValidRepo(s.repo)
    ensures After(cfg, s, []) == s
  {
  }

  lemma {:induction false} StaysPaired(cfg: Config, s: State, ts: seq<Trial>)
    requires ValidRepo(s.repo) && Paired(s)
    ensures Paired(After(cfg, s, ts))
    decreases |ts|
  {
    hide Dirty, Verdict;
    if ts != [] {
      StaysPaired(cfg, Experiment(cfg, s, ts[0]).0, ts[1..]);
    }
  }

  // ----- which experiments are logged -----

  /** The reset to the baseline commit works, or there is nothing to reset to. */
  predicate CanReset(s: State, g: Repo, t: Trial) {
    s.baselineCommit.Some? ==> !t.resetFails && s.baselineCommit.value in g.commits
  }

  /** An experiment returns Ok exactly when it has a commit, ran, printed a metric, was kept or
      could be reset, and could be logged. */
  lemma OkExactly(cfg: Config, s: State, t: Trial)
    requires ValidRepo(s.repo)
    ensures
      var (g, commit) := CommitStep(cfg, s.repo.(code := t.edit), t);
      Experiment(cfg, s, t).1.Some? <==>
        && commit.Some? && !t.runFails && t.metric.Some?
        && (Judge(cfg, s, t) == Some(Keep) || CanReset(s, g, t)) && t.append.RowWritten?
  {
    hide CommitStep, Verdict;
  }

  /** The metric is read before the crash is looked at, so a crashed experiment is logged as a
      crash only if it printed one: exactly when nothing else fails either. Then its row is
      appended to the log the reset leaves; otherwise no row is. */
  lemma CrashIsLogged(cfg: Config, s: State, t: Trial)
    requires ValidRepo(s.repo) && t.crashed
    ensures
      var (g, commit) := CommitStep(cfg, s.repo.(code := t.edit), t);
      var kept := if HasBaseline(s.(repo := g)) then ResetHard(g, s.baselineCommit.value).log else g.log;
      var (s', result) := Experiment(cfg, s, t);
      && (result.Some? <==>
            commit.Some? && !t.runFails && t.metric.Some? && CanReset(s, g, t) && t.append.RowWritten?)
      && (result.Some? ==>
            && result.value.status == Crash
            && Some(result.value.commit) == commit && Some(result.value.metric) == t.metric
            && s'.repo.log == Some(Rows(kept) + [Logged(result.value)]))
      && (result.None? ==> Rows(s'.repo.log) == Rows(g.log) || Rows(s'.repo.log) == Rows(kept))
      && s'.baselineMetric == s.baselineMetric && s'.baselineCommit == s.baselineCommit
  {
    hide CommitStep, Logged;
  }

  // ----- the kept metrics -----

  /** The metrics of the experiments judged an improvement, in order. */
  function KeptMetrics(cfg: Config, s: State, ts: seq<Trial>): seq<real>
    requires ValidRepo(s.repo)
    decreases |ts|
  {
    if ts == [] then []
    else
      (if Judge(cfg, s, ts[0]) == Some(Keep) then [ts[0].metric.value] else [])
      + KeptMetrics(cfg, Experiment(cfg, s, ts[0]).0, ts[1..])
  }

  /** Strictly improving, and better than `from` if there was a baseline. */
  predicate Improving(cfg: Config, from: Option<real>, ms: seq<real>)
    decreases |ms|
  {
    ms == [] || (Improves(cfg, from, ms[0]) && Improving(cfg, Some(ms[0]), ms[1..]))
  }

  lemma BaselineFollowsVerdict(cfg: Config, s: State, t: Trial)
    requires ValidRepo(s.repo)
    ensures Experiment(cfg, s, t).0.baselineMetric
         == if Judge(cfg, s, t) == Some(Keep) then t.metric else s.baselineMetric
    ensures Judge(cfg, s, t) == Some(Keep) ==> t.metric.Some? && Improves(cfg, s.baselineMetric, t.metric.value)
  {
    hide CommitStep;
  }

  /** Over any run the kept metrics improve strictly in the direction of the goal, and the
      baseline is the last of them. */
  lemma {:induction false} KeptImproves(cfg: Config, s: State, ts: seq<Trial>)
    requires ValidRepo(s.repo)
    ensures var ms := KeptMetrics(cfg, s, ts);
            && Improving(cfg, s.baselineMetric, ms)
            && After(cfg, s, ts).baselineMetric == if ms == [] then s.baselineMetric else Some(ms[|ms| - 1])
    decreases |ts|
  {
    hide Experiment, Judge, Improves, KeptMetrics, After;
    RunCons(cfg, s, ts);
    if ts != [] {
      var s' := Experiment(cfg, s, ts[0]).0;
      BaselineFollowsVerdict(cfg, s, ts[0]);
      KeptImproves(cfg, s', ts[1..]);
      var rest := KeptMetrics(cfg, s', ts[1..]);
      if Judge(cfg, s, ts[0]) == Some(Keep) {
        ImprovingCons(cfg, s.baselineMetric, ts[0].metric.value, rest);
      }
    }
  }

  lemma RunCons(cfg: Config, s: State, ts: seq<Trial>)
    requires ValidRepo(s.repo)
    ensures ts == [] ==> KeptMetrics(cfg, s, ts) == [] && After(cfg, s, ts) == s
    ensures ts != [] ==>
      var s' := Experiment(cfg, s, ts[0]).0;
      && After(cfg, s, ts) == After(cfg, s', ts[1..])
      && (Judge(cfg, s, ts[0]) == Some(Keep) ==>
            ts[0].metric.Some? && KeptMetrics(cfg, s, ts) == [ts[0].metric.value] + KeptMetrics(cfg, s', ts[1..]))
      && (Judge(cfg, s, ts[0]) != Some(Keep) ==> KeptMetrics(cfg, s, ts) == KeptMetrics(cfg, s', ts[1..]))
  {
    hide Experiment, Verdict;
    if ts != [] {
      var rest := KeptMetrics(cfg, Experiment(cfg, s, ts[0]).0, ts[1..]);
      assert [] + rest == rest;
    }
  }

  lemma ImprovingCons(cfg: Config, from: Option<real>, m: real, rest: seq<real>)
    requires Improves(cfg, from, m) && Improving(cfg, Some(m), rest)
    ensures Improving(cfg, from, [m] + rest)
  {
    assert ([m] + rest)[1..] == rest;
  }

  /** Chained improvement is improvement between any two kept experiments. */
  lemma {:induction false} ImprovingPairwise(cfg: Config, from: Option<real>, ms: seq<real>, i: nat, j: nat)
    requires Improving(cfg, from, ms) && i < j < |ms|
    ensures Better(Minimizing(cfg), ms[j], ms[i])
    decreases |ms|
  {
    if i > 0 {
      ImprovingPairwise(cfg, Some(ms[0]), ms[1..], i - 1, j - 1);
    } else if j > 1 {
      ImprovingPairwise(cfg, Some(ms[0]), ms[1..], 0, j - 1);
    }
  }

  /** No experiment that was judged and did not crash beats the final baseline. */
  lemma {:induction false} BaselineIsBest(cfg: Config, s: State, ts: seq<Trial>, k: nat)
    requires ValidRepo(s.repo) && k < |ts|
    requires cfg.goal == Minimize || s.baselineMetric.Some?
    requires Judge(cfg, After(cfg, s, ts[..k]), ts[k]).Some? && !ts[k].crashed
    ensures var b := After(cfg, s, ts).baselineMetric;
            b.Some? && ts[k].metric.Some? && !Better(Minimizing(cfg), ts[k].metric.value, b.value)
    decreases |ts|
  {
    hide Experiment, Attempt;
    var s' := Experiment(cfg, s, ts[0]).0;
    BaselineFollowsVerdict(cfg, s, ts[0]);
    if k == 0 {
      assert ts[..0] == [];
      KeptImproves(cfg, s', ts[1..]);
      LastIsBest(cfg, s'.baselineMetric, KeptMetrics(cfg, s', ts[1..]));
      JudgedHasMetric(cfg, s, ts[0]);
    } else {
      assert ts[..k][0] == ts[0] && ts[..k][1..] == ts[1..][..k - 1];
      BaselineIsBest(cfg, s', ts[1..], k - 1);
    }
  }

  lemma JudgedHasMetric(cfg: Config, s: State, t: Trial)
    requires ValidRepo(s.repo) && Judge(cfg, s, t).Some?
    ensures t.metric.Some? && Judge(cfg, s, t) == Some(Verdict(cfg, s.baselineMetric, t.crashed, t.metric.value))
  {
  }

  lemma {:induction false} LastIsBest(cfg: Config, from: Option<real>, ms: seq<real>)
    requires Improving(cfg, from, ms)
    ensures from.Some? && ms != [] ==> Better(Minimizing(cfg), ms[|ms| - 1], from.value)
    decreases |ms|
  {
    if |ms| > 1 {
      LastIsBest(cfg, Some(ms[0]), ms[1..]);
    }
  }

  /** Without a baseline a Maximize program keeps nothing, ever: the comparison is with
      positive infinity, and only a Keep could set a baseline. */
  lemma MaximizeNeedsBaseline(cfg: Config, s: State, ts: seq<Trial>)
    requires ValidRepo(s.repo) && cfg.goal == Maximize && s.baselineMetric.None?
    ensures KeptMetrics(cfg, s, ts) == [] && After(cfg, s, ts).baselineMetric.None?
  {
    hide Experiment;
    KeptImproves(cfg, s, ts);
  }

  /** So a Maximize program can keep something exactly when it has a baseline; with one it keeps
      every judged experiment that did not crash and measured more. */
  lemma MaximizeKeeps(cfg: Config, s: State)
    requires ValidRepo(s.repo) && cfg.goal == Maximize
    ensures (exists t :: Judge(cfg, s, t) == Some(Keep)) <==> s.baselineMetric.Some?
    ensures forall t :: Judge(cfg, s, t) == Some(Keep) <==>
      Judge(cfg, s, t).Some? && !t.crashed && s.baselineMetric.Some? && t.metric.value > s.baselineMetric.value
  {
    if s.baselineMetric.Some? {
      var m := s.baselineMetric.value + 1.0;
      var t := Trial("", 0, false, NotStaged, "", false, false, false, Some(m), 0.0, false, RowWritten);
      assert Judge(cfg, s, t) == Some(Keep);
    }
  }

  // ----- the log and the baseline -----

  predicate RoundedRows(rows: seq<ExperimentResult>) {
    forall k :: 0 <= k < |rows| ==> rows[k].metric == Rounded(rows[k].metric, METRIC_DECIMALS)
  }

  /** A Minimize program, or a log that starts with a Keep. */
  predicate GoodStart(cfg: Config, rows: seq<ExperimentResult>) {
    cfg.goal == Minimize || rows == [] || rows[0].status == Keep
  }

  /** The best row is a Keep and carries the rounded baseline; without a best row there is
      no baseline. */
  predicate LogMatches(cfg: Config, s: State) {
    match BestOf(Rows(s.repo.log), Minimizing(cfg))
    case None => s.baselineMetric.None?
    case Some(best) =>
      best.status == Keep && s.baselineMetric.Some? && best.metric == Rounded(s.baselineMetric.value, METRIC_DECIMALS)
  }

  predicate BestIsDiscard(cfg: Config, rows: seq<ExperimentResult>) {
    var best := BestOf(rows, Minimizing(cfg));
    best.Some? && best.value.status == Discard
  }

  predicate OnlyCrashes(rows: seq<ExperimentResult>) {
    forall k :: 0 <= k < |rows| ==> rows[k].status == Crash
  }

  /** Row `k` beats every row before it that did not crash. */
  predicate BeatsAllBefore(cfg: Config, rows: seq<ExperimentResult>, k: nat)
    requires k < |rows|
  {
    forall j :: 0 <= j < k && rows[j].status != Crash ==> Better(Minimizing(cfg), rows[k].metric, rows[j].metric)
  }

  /** Some Keep set a record, as logged. */
  predicate HasRecord(cfg: Config, rows: seq<ExperimentResult>) {
    exists k :: 0 <= k < |rows| && rows[k].status == Keep && BeatsAllBefore(cfg, rows, k)
  }

  /** The best row carries the rounded baseline wherever there are both; only the discards of a
      Maximize program without baseline make a best row without baseline. A Minimize program, or
      a log with a record among its Keeps, has no discard as its best row. */
  predicate LogInvariant(cfg: Config, s: State) {
    var rows := Rows(s.repo.log);
    var best := BestOf(rows, Minimizing(cfg));
    && LogSound(cfg, rows)
    && (best.None? ==> s.baselineMetric.None?)
    && (best.Some? && s.baselineMetric.Some? ==>
          best.value.metric == Rounded(s.baselineMetric.value, METRIC_DECIMALS))
    && (best.Some? && s.baselineMetric.None? ==> cfg.goal == Maximize && BestIsDiscard(cfg, rows))
  }

  /** What the log alone must satisfy between processes. */
  predicate LogSound(cfg: Config, rows: seq<ExperimentResult>) {
    RoundedRows(rows) && (cfg.goal == Minimize || HasRecord(cfg, rows) ==> !BestIsDiscard(cfg, rows))
  }

  /** The one failure excluded: the log cannot be written right after a Keep. */
  predicate KeepsAreLogged(cfg: Config, s: State, t: Trial)
    requires ValidRepo(s.repo)
  {
    Judge(cfg, s, t) == Some(Keep) ==> t.append.RowWritten?
  }

  predicate AllKeepsLogged(cfg: Config, s: State, ts: seq<Trial>)
    requires ValidRepo(s.repo)
    decreases |ts|
  {
    ts != [] ==> KeepsAreLogged(cfg, s, ts[0]) && AllKeepsLogged(cfg, Experiment(cfg, s, ts[0]).0, ts[1..])
  }

  /** Rounding keeps the order of metrics, in the weak sense, for either goal. */
  lemma RoundingKeepsOrder(a: real, b: real)
    ensures a <= b ==> Rounded(a, METRIC_DECIMALS) <= Rounded(b, METRIC_DECIMALS)
  {
    hide Units, OfUnits;
    if a <= b {
      UnitsMonotone(a, b, METRIC_DECIMALS);
      OfUnitsOrder(Units(b, METRIC_DECIMALS), Units(a, METRIC_DECIMALS), METRIC_DECIMALS);
    }
  }

  /** An ignored log is not touched by the commit step. */
  lemma AttemptKeepsIgnored(cfg: Config, s: State, t: Trial)
    requires ValidRepo(s.repo) && cfg.ignored && IgnoredEverywhere(s.repo)
    ensures var a := Attempt(cfg, s, t).0;
            IgnoredEverywhere(a.repo) && a.repo.log == s.repo.log && a.baselineCommit == s.baselineCommit
  {
    hide Dirty;
  }

  /** Nor by a reset: an experiment adds at most one row. */
  lemma IgnoredLogGrows(cfg: Config, s: State, t: Trial)
    requires ValidRepo(s.repo) && cfg.ignored && IgnoredEverywhere(s.repo)
    ensures
      var s' := Experiment(cfg, s, t).0;
      && IgnoredEverywhere(s'.repo)
      && (match Experiment(cfg, s, t).1
          case Some(r) => Rows(s'.repo.log) == Rows(s.repo.log) + [Logged(r)]
                          && Judge(cfg, s, t) == Some(r.status) && t.metric == Some(r.metric)
          case None => Rows(s'.repo.log) == Rows(s.repo.log))
  {
    hide Logged, Attempt, Verdict;
    AttemptKeepsIgnored(cfg, s, t);
  }

  predicate IgnoredEverywhere(g: Repo) {
    !g.indexed && forall c :: c in g.commits ==> g.commits[c].log.None?
  }

  lemma BestIsARow(rows: seq<ExperimentResult>, minimize: bool)
    ensures match BestOf(rows, minimize)
            case None => OnlyCrashes(rows)
            case Some(best) => best in rows && best.status != Crash
  {
    if !OnlyCrashes(rows) {
      var i := BestIsFirst(rows, minimize);
    } else {
      NoBest(rows, minimize);
    }
  }

  lemma RecordAppend(cfg: Config, rows: seq<ExperimentResult>, r: ExperimentResult)
    ensures HasRecord(cfg, rows + [r]) <==>
      HasRecord(cfg, rows) || (r.status == Keep && BeatsAllBefore(cfg, rows + [r], |rows|))
  {
    var all := rows + [r];
    forall k | 0 <= k < |rows| ensures BeatsAllBefore(cfg, all, k) <==> BeatsAllBefore(cfg, rows, k) {
      assert all[k] == rows[k];
      assert forall j :: 0 <= j < k ==> all[j] == rows[j];
    }
    if k :| 0 <= k < |rows| && rows[k].status == Keep && BeatsAllBefore(cfg, rows, k) {
      assert all[k].status == Keep && BeatsAllBefore(cfg, all, k);
    }
    if k :| 0 <= k < |all| && all[k].status == Keep && BeatsAllBefore(cfg, all, k) {
      assert k < |rows| ==> rows[k].status == Keep && BeatsAllBefore(cfg, rows, k);
    }
  }

  /** A new Keep sets a record exactly when it becomes the best row. */
  lemma RecordIsBest(cfg: Config, rows: seq<ExperimentResult>, r: ExperimentResult)
    ensures
      var best := BestOf(rows, Minimizing(cfg));
      BeatsAllBefore(cfg, rows + [r], |rows|) <==>
        best.None? || Better(Minimizing(cfg), r.metric, best.value.metric)
  {
    var all := rows + [r];
    assert forall j :: 0 <= j < |rows| ==> all[j] == rows[j];
    BestIsARow(rows, Minimizing(cfg));
    if !OnlyCrashes(rows) {
      var i := BestIsFirst(rows, Minimizing(cfg));
      assert all[i] == rows[i];
    }
  }

  lemma RecordIsARow(cfg: Config, rows: seq<ExperimentResult>)
    ensures HasRecord(cfg, rows) ==> !OnlyCrashes(rows)
  {
  }

  lemma RoundedAppend(rows: seq<ExperimentResult>, r: ExperimentResult)
    ensures RoundedRows(rows) ==> RoundedRows(rows + [Logged(r)])
  {
    hide Logged;
    LoggedKeepsStatus(r);
  }

  lemma LogInvariantStep(cfg: Config, s: State, t: Trial)
    requires ValidRepo(s.repo) && cfg.ignored && IgnoredEverywhere(s.repo)
    requires LogInvariant(cfg, s) && KeepsAreLogged(cfg, s, t)
    ensures LogInvariant(cfg, Experiment(cfg, s, t).0)
  {
    hide Experiment, Judge, Rounded, BestOf, HasRecord, RoundedRows, Logged, BeatsAllBefore, OnlyCrashes;
    IgnoredLogGrows(cfg, s, t);
    BaselineFollowsVerdict(cfg, s, t);
    var (s', result) := Experiment(cfg, s, t);
    var rows := Rows(s.repo.log);
    if result.Some? {
      var row := Logged(result.value);
      JudgedHasMetric(cfg, s, t);
      LoggedKeepsStatus(result.value);
      RoundedAppend(rows, result.value);
      BestOfAppend(rows, row, Minimizing(cfg));
      BestIsARow(rows, Minimizing(cfg));
      RecordIsARow(cfg, rows);
      RecordAppend(cfg, rows, row);
      RecordIsBest(cfg, rows, row);
      if s.baselineMetric.Some? {
        RoundingKeepsOrder(result.value.metric, s.baselineMetric.value);
        RoundingKeepsOrder(s.baselineMetric.value, result.value.metric);
      }
    } else {
      FailedKeepIsUnlogged(cfg, s, t);
    }
  }

  /** Log and baseline match exactly when the best row is no discard. */
  lemma MatchesUnlessDiscard(cfg: Config, s: State)
    requires LogInvariant(cfg, s)
    ensures LogMatches(cfg, s) <==> !BestIsDiscard(cfg, Rows(s.repo.log))
  {
    hide Rounded, BestOf, HasRecord, RoundedRows;
    BestIsARow(Rows(s.repo.log), Minimizing(cfg));
  }

  /** And that is when all rows are crashes or some Keep set a record as logged. */
  lemma MatchesWithRecord(cfg: Config, s: State)
    requires LogInvariant(cfg, s)
    ensures LogMatches(cfg, s) <==> OnlyCrashes(Rows(s.repo.log)) || HasRecord(cfg, Rows(s.repo.log))
    ensures GoodStart(cfg, Rows(s.repo.log)) ==> LogMatches(cfg, s)
  {
    hide Rounded, BestOf, RoundedRows;
    var rows := Rows(s.repo.log);
    MatchesUnlessDiscard(cfg, s);
    BestIsARow(rows, Minimizing(cfg));
    if !OnlyCrashes(rows) {
      var i := BestIsFirst(rows, Minimizing(cfg));
      if rows[i].status == Keep {
        assert BeatsAllBefore(cfg, rows, i);
      }
      if rows[0].status == Keep {
        assert BeatsAllBefore(cfg, rows, 0);
      }
    }
  }

  /** One experiment: with a baseline, a match stays and a mismatch ends with the first Keep that
      also rounds differently. Without one, a Minimize program matches, and a Maximize program
      does until an experiment returns Ok without crashing. */
  lemma MatchesStep(cfg: Config, s: State, t: Trial)
    requires ValidRepo(s.repo) && cfg.ignored && IgnoredEverywhere(s.repo)
    requires LogInvariant(cfg, s) && KeepsAreLogged(cfg, s, t)
    ensures
      LogMatches(cfg, Experiment(cfg, s, t).0) <==>
        match s.baselineMetric
        case Some(b) =>
          || LogMatches(cfg, s)
          || (Judge(cfg, s, t) == Some(Keep) && t.metric.Some?
              && Rounded(t.metric.value, METRIC_DECIMALS) != Rounded(b, METRIC_DECIMALS))
        case None =>
          cfg.goal == Minimize || (LogMatches(cfg, s) && (t.crashed || Experiment(cfg, s, t).1.None?))
  {
    hide Experiment, Judge, Rounded, BestOf, HasRecord, RoundedRows, Logged, LogMatches;
    var (s', result) := Experiment(cfg, s, t);
    var rows := Rows(s.repo.log);
    LogInvariantStep(cfg, s, t);
    MatchesUnlessDiscard(cfg, s);
    MatchesUnlessDiscard(cfg, s');
    IgnoredLogGrows(cfg, s, t);
    BaselineFollowsVerdict(cfg, s, t);
    if result.Some? {
      JudgedHasMetric(cfg, s, t);
      LoggedKeepsStatus(result.value);
      BestOfAppend(rows, Logged(result.value), Minimizing(cfg));
      if s.baselineMetric.Some? {
        RoundingKeepsOrder(result.value.metric, s.baselineMetric.value);
        RoundingKeepsOrder(s.baselineMetric.value, result.value.metric);
      }
    } else {
      FailedKeepIsUnlogged(cfg, s, t);
    }
  }

  /** Every experiment of the run that returns Ok crashed. */
  predicate OnlyCrashesReturned(cfg: Config, s: State, ts: seq<Trial>)
    requires ValidRepo(s.repo)
    decreases |ts|
  {
    ts != [] ==>
      && (ts[0].crashed || Experiment(cfg, s, ts[0]).1.None?)
      && OnlyCrashesReturned(cfg, Experiment(cfg, s, ts[0]).0, ts[1..])
  }

  /** A baseline stays one, and is never replaced by one that rounds worse. */
  lemma BaselineNeverWorse(cfg: Config, s: State, ts: seq<Trial>)
    requires ValidRepo(s.repo) && s.baselineMetric.Some?
    ensures
      var end := After(cfg, s, ts).baselineMetric;
      && end.Some?
      && !Better(Minimizing(cfg), Rounded(s.baselineMetric.value, METRIC_DECIMALS), Rounded(end.value, METRIC_DECIMALS))
  {
    hide Rounded, After, KeptMetrics, Improving;
    KeptImproves(cfg, s, ts);
    LastIsBest(cfg, s.baselineMetric, KeptMetrics(cfg, s, ts));
    var end := After(cfg, s, ts).baselineMetric.value;
    RoundingKeepsOrder(s.baselineMetric.value, end);
    RoundingKeepsOrder(end, s.baselineMetric.value);
  }

  /** Over any run: with a baseline, log and baseline match at the end exactly when they did
      before or the baseline has moved in its six decimals. Without one, exactly when the program
      minimizes, or they matched and no experiment returned Ok without crashing. */
  lemma {:induction false} MatchesAfterRun(cfg: Config, s: State, ts: seq<Trial>)
    requires ValidRepo(s.repo) && cfg.ignored && IgnoredEverywhere(s.repo)
    requires LogInvariant(cfg, s) && AllKeepsLogged(cfg, s, ts)
    ensures s.baselineMetric.Some? ==> After(cfg, s, ts).baselineMetric.Some?
    ensures
      LogMatches(cfg, After(cfg, s, ts)) <==>
        match s.baselineMetric
        case Some(b) =>
          || LogMatches(cfg, s)
          || Rounded(After(cfg, s, ts).baselineMetric.value, METRIC_DECIMALS) != Rounded(b, METRIC_DECIMALS)
        case None =>
          cfg.goal == Minimize || (LogMatches(cfg, s) && OnlyCrashesReturned(cfg, s, ts))
    decreases |ts|
  {
    hide Experiment, Judge, Rounded, LogInvariant, LogMatches, IgnoredEverywhere;
    if ts == [] {
      MinimizingMatches(cfg, s);
    } else {
      var t, s' := ts[0], Experiment(cfg, s, ts[0]).0;
      IgnoredLogGrows(cfg, s, t);
      LogInvariantStep(cfg, s, t);
      MatchesStep(cfg, s, t);
      BaselineFollowsVerdict(cfg, s, t);
      MatchesAfterRun(cfg, s', ts[1..]);
      if s.baselineMetric.Some? {
        BaselineNeverWorse(cfg, s', ts[1..]);
        BaselineNeverWorse(cfg, s, [t]);
        OneRun(cfg, s, t);
      } else if s'.baselineMetric.Some? {
        MinimizingMatches(cfg, s');
      }
    }
  }

  lemma OneRun(cfg: Config, s: State, t: Trial)
    requires ValidRepo(s.repo)
    ensures After(cfg, s, [t]) == Experiment(cfg, s, t).0
  {
    hide Experiment;
    assert [t][1..] == [];
  }

  lemma MinimizingMatches(cfg: Config, s: State)
    requires LogInvariant(cfg, s)
    ensures cfg.goal == Minimize ==> LogMatches(cfg, s)
  {
    hide Rounded, BestOf, HasRecord, RoundedRows, LogMatches;
    MatchesUnlessDiscard(cfg, s);
  }

  /** A Keep can fail only at the log. */
  lemma FailedKeepIsUnlogged(cfg: Config, s: State, t: Trial)
    requires ValidRepo(s.repo)
    ensures Experiment(cfg, s, t).1.None? && Judge(cfg, s, t) == Some(Keep) ==> !t.append.RowWritten?
  {
    hide Verdict;
  }

  lemma {:induction false} LogInvariantRun(cfg: Config, s: State, ts: seq<Trial>)
    requires ValidRepo(s.repo) && cfg.ignored && IgnoredEverywhere(s.repo)
    requires LogInvariant(cfg, s) && AllKeepsLogged(cfg, s, ts)
    ensures var s' := After(cfg, s, ts); LogInvariant(cfg, s') && IgnoredEverywhere(s'.repo)
    decreases |ts|
  {
    hide Experiment, LogInvariant, KeepsAreLogged;
    if ts != [] {
      IgnoredLogGrows(cfg, s, ts[0]);
      LogInvariantStep(cfg, s, ts[0]);
      LogInvariantRun(cfg, Experiment(cfg, s, ts[0]).0, ts[1..]);
    }
  }

  // ----- restarts -----

  /** One process: start-up with its possible baseline run, then experiments if it succeeded. */
  datatype Session = Session(start: StartUp, experiments: seq<Trial>)

  function Started(cfg: Config, g: Repo, u: StartUp): (r: (State, bool))
    requires ValidRepo(g)
    ensures r.0.repo == g.(log := r.0.repo.log) && ValidRepo(r.0.repo)
  {
    if g.log.None? && !u.logCreated then (Fresh(g).(repo := g), false) else Setup(cfg, Fresh(g), u)
  }

  function SessionEnd(cfg: Config, g: Repo, x: Session): (s: State)
    requires ValidRepo(g)
    ensures ValidRepo(s.repo)
  {
    var (s, ok) := Started(cfg, g, x.start);
    if ok then After(cfg, s, x.experiments) else s
  }

  function AfterSessions(cfg: Config, g: Repo, xs: seq<Session>): (r: Repo)
    requires ValidRepo(g)
    ensures ValidRepo(r)
    decreases |xs|
  {
    if xs == [] then g else AfterSessions(cfg, SessionEnd(cfg, g, xs[0]).repo, xs[1..])
  }

  predicate SessionKeepsLogged(cfg: Config, g: Repo, x: Session)
    requires ValidRepo(g)
  {
    var (s, ok) := Started(cfg, g, x.start);
    ok ==> AllKeepsLogged(cfg, s, x.experiments)
  }

  predicate SessionsKeepLogged(cfg: Config, g: Repo, xs: seq<Session>)
    requires ValidRepo(g)
    decreases |xs|
  {
    xs != [] ==> SessionKeepsLogged(cfg, g, xs[0]) && SessionsKeepLogged(cfg, SessionEnd(cfg, g, xs[0]).repo, xs[1..])
  }

  lemma BestOfOne(r: ExperimentResult, minimize: bool)
    ensures BestOf([r], minimize) == if r.status == Crash then None else Some(r)
    ensures BestOf([], minimize).None?
  {
    assert [r][..0] == [];
  }

  function BaselineRow(g: Repo, t: Trial): ExperimentResult
    requires t.metric.Some?
  {
    Logged(ResultOf(t.(description := "baseline"), g.head, if t.crashed then Crash else Keep))
  }

  /** Starting up adds at most the row of the baseline run, and that only to an empty log. */
  lemma StartRows(cfg: Config, g: Repo, u: StartUp)
    requires ValidRepo(g)
    ensures
      var (s, ok) := Started(cfg, g, u);
      || (Rows(s.repo.log) == Rows(g.log) && (ok ==> Rows(g.log) != []))
      || (Rows(g.log) == [] && u.baseline.metric.Some? && s.repo.log == Some([BaselineRow(g, u.baseline)]))
  {
    hide BestOf, Logged;
    if u.baseline.metric.Some? {
      assert [] + [BaselineRow(g, u.baseline)] == [BaselineRow(g, u.baseline)];
    }
  }

  /** When it succeeds, the best row of the log is the baseline. */
  lemma StartTakesBest(cfg: Config, g: Repo, u: StartUp)
    requires ValidRepo(g) && Started(cfg, g, u).1
    ensures
      var s := Started(cfg, g, u).0;
      match BestOf(Rows(s.repo.log), Minimizing(cfg))
      case Some(best) => s.baselineMetric == Some(best.metric) && s.baselineCommit == Some(best.commit)
      case None => Rows(g.log) != [] ==> s.baselineMetric.None? && s.baselineCommit.None?
  {
    hide BestOf, AppendTo;
  }

  lemma CrashedBaseline(cfg: Config, g: Repo, u: StartUp)
    requires ValidRepo(g) && Rows(g.log) == [] && Started(cfg, g, u).1
    ensures u.baseline.metric.Some?
    ensures u.baseline.crashed ==>
      && BestOf([BaselineRow(g, u.baseline)], Minimizing(cfg)).None?
      && Started(cfg, g, u).0.baselineMetric.None? && Started(cfg, g, u).0.baselineCommit.None?
  {
    hide BestOf, Logged;
    StartRows(cfg, g, u);
    assert Logged(ResultOf(u.baseline.(description := "baseline"), g.head, Crash)).status == Crash by {
      LoggedKeepsStatus(ResultOf(u.baseline.(description := "baseline"), g.head, Crash));
    }
    BestOfOne(BaselineRow(g, u.baseline), Minimizing(cfg));
  }

  lemma LoggedKeepsStatus(r: ExperimentResult)
    ensures Logged(r).status == r.status && Logged(r).commit == r.commit
    ensures Logged(r).metric == Rounded(r.metric, METRIC_DECIMALS)
    ensures Rounded(Logged(r).metric, METRIC_DECIMALS) == Logged(r).metric
  {
    hide Rounded;
    RoundedTwice(r.metric, METRIC_DECIMALS);
  }

  /** Starting up re-establishes the invariant from what the log alone satisfies; log and baseline
      then match exactly when the best row is no discard. */
  lemma StartMatches(cfg: Config, g: Repo, u: StartUp)
    requires ValidRepo(g) && LogSound(cfg, Rows(g.log))
    ensures var (s, ok) := Started(cfg, g, u);
            && LogSound(cfg, Rows(s.repo.log))
            && (ok ==> LogInvariant(cfg, s) && (LogMatches(cfg, s) <==> !BestIsDiscard(cfg, Rows(s.repo.log))))
    ensures IgnoredEverywhere(g) ==> IgnoredEverywhere(Started(cfg, g, u).0.repo)
  {
    hide Rounded, BestOf, Logged, Started, HasRecord, LogMatches, OnlyCrashes;
    var (s, ok) := Started(cfg, g, u);
    StartRows(cfg, g, u);
    if Rows(s.repo.log) != Rows(g.log) {
      var row := BaselineRow(g, u.baseline);
      var status := if u.baseline.crashed then Crash else Keep;
      LoggedKeepsStatus(ResultOf(u.baseline.(description := "baseline"), g.head, status));
      BestOfOne(row, Minimizing(cfg));
      if ok {
        CrashedBaseline(cfg, g, u);
      }
    }
    if ok {
      StartTakesBest(cfg, g, u);
      BestIsARow(Rows(s.repo.log), Minimizing(cfg));
      MatchesUnlessDiscard(cfg, s);
    }
  }

  /** A process starts on its baseline commit exactly when HEAD is where the best row says. */
  lemma StartAgrees(cfg: Config, g: Repo, u: StartUp)
    requires ValidRepo(g) && Started(cfg, g, u).1
    ensures var s := Started(cfg, g, u).0;
            Agrees(s) <==> s.baselineCommit.None? || s.baselineCommit == Some(g.head)
  {
    hide BestOf, AppendTo;
  }

  lemma LogInvariantIsSound(cfg: Config, s: State)
    requires LogInvariant(cfg, s)
    ensures LogSound(cfg, Rows(s.repo.log))
  {
  }

  lemma SessionSound(cfg: Config, g: Repo, x: Session)
    requires ValidRepo(g) && cfg.ignored && IgnoredEverywhere(g)
    requires LogSound(cfg, Rows(g.log)) && SessionKeepsLogged(cfg, g, x)
    ensures var s := SessionEnd(cfg, g, x);
            && LogSound(cfg, Rows(s.repo.log)) && IgnoredEverywhere(s.repo)
            && (Started(cfg, g, x.start).1 ==> LogInvariant(cfg, s))
  {
    hide LogSound, LogInvariant, Started, IgnoredEverywhere;
    StartMatches(cfg, g, x.start);
    var (s, ok) := Started(cfg, g, x.start);
    if ok {
      LogInvariantRun(cfg, s, x.experiments);
      assert LogSound(cfg, Rows(After(cfg, s, x.experiments).repo.log)) by {
        LogInvariantIsSound(cfg, After(cfg, s, x.experiments));
      }
    }
  }

  lemma {:induction false} SessionsSound(cfg: Config, g: Repo, xs: seq<Session>)
    requires ValidRepo(g) && cfg.ignored && IgnoredEverywhere(g)
    requires LogSound(cfg, Rows(g.log)) && SessionsKeepLogged(cfg, g, xs)
    ensures var g' := AfterSessions(cfg, g, xs); LogSound(cfg, Rows(g'.log)) && IgnoredEverywhere(g')
    decreases |xs|
  {
    hide LogSound, SessionEnd, IgnoredEverywhere, SessionKeepsLogged;
    if xs != [] {
      SessionSound(cfg, g, xs[0]);
      SessionsSound(cfg, SessionEnd(cfg, g, xs[0]).repo, xs[1..]);
    }
  }

  /** Over any number of processes on a log git ignores, in a process that starts up, after any
      of its experiments: the best row carries the rounded baseline wherever there are both, and
      it is a Keep exactly when some Keep set a record as logged, or all rows are crashes and
      there is neither. In particular when the program minimizes or the log starts with a Keep. */
  lemma BestRowIsTheBaseline(cfg: Config, g: Repo, xs: seq<Session>, x: Session)
    requires ValidRepo(g) && cfg.ignored && IgnoredEverywhere(g) && Rows(g.log) == []
    requires SessionsKeepLogged(cfg, g, xs)
    requires SessionKeepsLogged(cfg, AfterSessions(cfg, g, xs), x) && Started(cfg, AfterSessions(cfg, g, xs), x.start).1
    ensures
      var s := SessionEnd(cfg, AfterSessions(cfg, g, xs), x);
      var rows := Rows(s.repo.log);
      var best := BestOf(rows, Minimizing(cfg));
      && (best.Some? && s.baselineMetric.Some? ==>
            best.value.metric == Rounded(s.baselineMetric.value, METRIC_DECIMALS))
      && (LogMatches(cfg, s) <==> OnlyCrashes(rows) || HasRecord(cfg, rows))
      && (GoodStart(cfg, rows) ==> LogMatches(cfg, s))
  {
    hide SessionEnd, IgnoredEverywhere, SessionKeepsLogged, LogMatches, Started, Rounded, BestOf;
    EmptyIsSound(cfg);
    SessionsSound(cfg, g, xs);
    SessionSound(cfg, AfterSessions(cfg, g, xs), x);
    MatchesWithRecord(cfg, SessionEnd(cfg, AfterSessions(cfg, g, xs), x));
  }

  lemma EmptyIsSound(cfg: Config)
    ensures LogSound(cfg, [])
  {
    assert BestOf([], Minimizing(cfg)).None?;
  }

  /** Why the start of the log matters: a Maximize program whose baseline run crashed logs
      only discards, and the best row is then one of those. */
  lemma BestCanBeADiscard(cfg: Config, s: State, t: Trial)
    requires ValidRepo(s.repo) && cfg.ignored && IgnoredEverywhere(s.repo)
    requires cfg.goal == Maximize && s.baselineMetric.None? && BestOf(Rows(s.repo.log), false).None?
    requires Experiment(cfg, s, t).1.Some? && !t.crashed
    ensures var best := BestOf(Rows(Experiment(cfg, s, t).0.repo.log), false);
            best.Some? && best.value.status == Discard
  {
    hide Experiment, Judge, Rounded;
    IgnoredLogGrows(cfg, s, t);
    JudgedHasMetric(cfg, s, t);
    BestOfAppend(Rows(s.repo.log), Logged(Experiment(cfg, s, t).1.value), false);
  }

  /** The excluded failure, exactly: when the log cannot be written after a Keep, log and
      baseline still match only if the new metric rounds like the old baseline. */
  lemma UnloggedKeep(cfg: Config, s: State, t: Trial)
    requires ValidRepo(s.repo) && cfg.ignored && IgnoredEverywhere(s.repo)
    requires LogMatches(cfg, s) && Judge(cfg, s, t) == Some(Keep) && !t.append.RowWritten?
    ensures t.metric.Some?
    ensures LogMatches(cfg, Experiment(cfg, s, t).0) <==>
      (s.baselineMetric.Some?
       && Rounded(t.metric.value, METRIC_DECIMALS) == Rounded(s.baselineMetric.value, METRIC_DECIMALS))
  {
    hide Rounded, BestOf, Verdict, Improves;
    BaselineFollowsVerdict(cfg, s, t);
    UnloggedIsAnError(cfg, s, t);
    IgnoredLogGrows(cfg, s, t);
  }

  lemma UnloggedIsAnError(cfg: Config, s: State, t: Trial)
    requires ValidRepo(s.repo)
    ensures !t.append.RowWritten? ==> Experiment(cfg, s, t).1.None?
  {
  }

  /** An experiment that is not kept leaves the best row and the baseline as they are. */
  lemma BestStays(cfg: Config, s: State, t: Trial)
    requires ValidRepo(s.repo) && cfg.ignored && IgnoredEverywhere(s.repo)
    requires LogInvariant(cfg, s) && s.baselineMetric.Some? && Judge(cfg, s, t) != Some(Keep)
    ensures
      var s' := Experiment(cfg, s, t).0;
      && BestOf(Rows(s'.repo.log), Minimizing(cfg)) == BestOf(Rows(s.repo.log), Minimizing(cfg))
      && s'.baselineMetric == s.baselineMetric && s'.baselineCommit == s.baselineCommit
  {
    hide Rounded, BestOf, Experiment, Judge;
    var (s', result) := Experiment(cfg, s, t);
    IgnoredLogGrows(cfg, s, t);
    BaselineFollowsVerdict(cfg, s, t);
    CommitFollowsVerdict(cfg, s, t);
    if result.Some? {
      JudgedHasMetric(cfg, s, t);
      BestOfAppend(Rows(s.repo.log), Logged(result.value), Minimizing(cfg));
      RoundingKeepsOrder(result.value.metric, s.baselineMetric.value);
      RoundingKeepsOrder(s.baselineMetric.value, result.value.metric);
    }
  }

  lemma CommitFollowsVerdict(cfg: Config, s: State, t: Trial)
    requires ValidRepo(s.repo)
    ensures Judge(cfg, s, t) != Some(Keep) ==> Experiment(cfg, s, t).0.baselineCommit == s.baselineCommit
  {
    hide CommitStep, Verdict;
  }

  lemma {:induction false} BestStaysOverRun(cfg: Config, s: State, ts: seq<Trial>)
    requires ValidRepo(s.repo) && cfg.ignored && IgnoredEverywhere(s.repo)
    requires LogInvariant(cfg, s) && s.baselineMetric.Some? && KeptMetrics(cfg, s, ts) == []
    ensures
      var s' := After(cfg, s, ts);
      && BestOf(Rows(s'.repo.log), Minimizing(cfg)) == BestOf(Rows(s.repo.log), Minimizing(cfg))
      && s'.baselineMetric == s.baselineMetric && s'.baselineCommit == s.baselineCommit
    decreases |ts|
  {
    hide Rounded, BestOf, Experiment, Judge, IgnoredEverywhere, LogInvariant;
    if ts != [] {
      RunCons(cfg, s, ts);
      BestStays(cfg, s, ts[0]);
      IgnoredLogGrows(cfg, s, ts[0]);
      LogInvariantStep(cfg, s, ts[0]);
      BestStaysOverRun(cfg, Experiment(cfg, s, ts[0]).0, ts[1..]);
    }
  }

  /** A restart takes its baseline commit from the best row. However many experiments came
      behind the last Keep, that is the commit kept last, unless its metric rounds like that of
      an older row; then the older row wins. */
  lemma RestartCommit(cfg: Config, s: State, t: Trial, ts: seq<Trial>, u: StartUp)
    requires ValidRepo(s.repo) && cfg.ignored && IgnoredEverywhere(s.repo) && LogInvariant(cfg, s)
    requires Judge(cfg, s, t) == Some(Keep) && Experiment(cfg, s, t).1.Some?
    requires KeptMetrics(cfg, Experiment(cfg, s, t).0, ts) == []
    requires !u.hashFails && !u.loadFails && !u.bestFails
    ensures
      var older := BestOf(Rows(s.repo.log), Minimizing(cfg));
      var kept := Experiment(cfg, s, t);
      var (r, ok) := Started(cfg, After(cfg, kept.0, ts).repo, u);
      && ok && t.metric.Some?
      && r.baselineCommit ==
           Some(if older.Some? && Rounded(t.metric.value, METRIC_DECIMALS) == older.value.metric
                then older.value.commit else kept.1.value.commit)
  {
    hide Rounded, BestOf, Experiment, Judge, Started, IgnoredEverywhere, After, KeptMetrics, HasRecord;
    var (s', result) := Experiment(cfg, s, t);
    IgnoredLogGrows(cfg, s, t);
    UnloggedIsAnError(cfg, s, t);
    LogInvariantStep(cfg, s, t);
    BaselineFollowsVerdict(cfg, s, t);
    JudgedHasMetric(cfg, s, t);
    LoggedKeepsStatus(result.value);
    BestOfAppend(Rows(s.repo.log), Logged(result.value), Minimizing(cfg));
    if s.baselineMetric.Some? {
      RoundingKeepsOrder(t.metric.value, s.baselineMetric.value);
      RoundingKeepsOrder(s.baselineMetric.value, t.metric.value);
    }
    BestStaysOverRun(cfg, s', ts);
    StartsFromLog(cfg, After(cfg, s', ts).repo, u);
  }

  /** On a log that has a best row, nothing is run on start-up and that row is the baseline. */
  lemma StartsFromLog(cfg: Config, g: Repo, u: StartUp)
    requires ValidRepo(g) && BestOf(Rows(g.log), Minimizing(cfg)).Some?
    requires !u.hashFails && !u.loadFails && !u.bestFails
    ensures
      var (s, ok) := Started(cfg, g, u);
      ok && s.baselineCommit == Some(BestOf(Rows(g.log), Minimizing(cfg)).value.commit)
  {
    BestOfOne(ExperimentResult("", 0.0, 0.0, Crash, ""), Minimizing(cfg));
    hide BestOf, AppendTo;
  }

  /** A tie that rounding creates: two metrics a tenth of a millionth apart. */
  lemma TieExample()
    ensures 0.5000001 < 0.5000002
    ensures Rounded(0.5000001, METRIC_DECIMALS) == Rounded(0.5000002, METRIC_DECIMALS)
  {
    assert Pow10(6) == 1000000 by { PowersOfTen(); }
    assert 0.5000001 * 1000000.0 == 500000.1 && 0.5000002 * 1000000.0 == 500000.2;
  }

  // ----- a log that git tracks -----

  /** The log is in the index when the reset of this experiment comes. */
  predicate Tracked(cfg: Config, s: State, t: Trial)
    requires ValidRepo(s.repo)
  {
    if cfg.ignored || t.commit == NotStaged || !Dirty(s.repo.(code := t.edit), cfg.ignored) then s.repo.indexed
    else s.repo.log.Some?
  }

  /** A reset takes a tracked log back to the snapshot of the baseline commit: the earlier rows
      survive exactly when that snapshot holds them all. A log that the snapshot lacks goes
      when it is in the index and stays when it is not. */
  lemma ResetTakesLogBack(cfg: Config, s: State, t: Trial)
    requires ValidRepo(s.repo) && HasBaseline(s) && Some(t.newHash) != s.baselineCommit
    requires Experiment(cfg, s, t).1.Some? && Judge(cfg, s, t) != Some(Keep)
    ensures
      var snapshot := s.repo.commits[s.baselineCommit.value].log;
      var kept := if snapshot.Some? then snapshot else if Tracked(cfg, s, t) then None else s.repo.log;
      var r := Experiment(cfg, s, t);
      && r.0.repo.log == Some(Rows(kept) + [Logged(r.1.value)])
      && (Rows(r.0.repo.log) == Rows(s.repo.log) + [Logged(r.1.value)] <==> Rows(kept) == Rows(s.repo.log))
  {
    hide Logged, Verdict;
    var snapshot := s.repo.commits[s.baselineCommit.value].log;
    var kept := if snapshot.Some? then snapshot else if Tracked(cfg, s, t) then None else s.repo.log;
    SameRow(Rows(kept), Rows(s.repo.log), Logged(Experiment(cfg, s, t).1.value));
  }

  lemma SameRow(a: seq<ExperimentResult>, b: seq<ExperimentResult>, row: ExperimentResult)
    ensures a + [row] == b + [row] <==> a == b
  {
    if a + [row] == b + [row] {
      assert a == (a + [row])[..|a|] && b == (b + [row])[..|b|];
    }
  }

  /** The baseline and its snapshot change only with a Keep. */
  lemma SnapshotStays(cfg: Config, s: State, t: Trial)
    requires ValidRepo(s.repo) && HasBaseline(s) && Some(t.newHash) != s.baselineCommit
    requires Judge(cfg, s, t) != Some(Keep)
    ensures
      var s' := Experiment(cfg, s, t).0;
      && HasBaseline(s') && s'.baselineCommit == s.baselineCommit
      && s'.repo.commits[s'.baselineCommit.value] == s.repo.commits[s.baselineCommit.value]
  {
    hide Dirty, Verdict;
  }

  lemma {:induction false} SnapshotStaysOverRun(cfg: Config, s: State, ts: seq<Trial>)
    requires ValidRepo(s.repo) && HasBaseline(s) && KeptMetrics(cfg, s, ts) == []
    requires forall k :: 0 <= k < |ts| ==> Some(ts[k].newHash) != s.baselineCommit
    ensures
      var s' := After(cfg, s, ts);
      && HasBaseline(s') && s'.baselineCommit == s.baselineCommit
      && s'.repo.commits[s'.baselineCommit.value] == s.repo.commits[s.baselineCommit.value]
    decreases |ts|
  {
    hide Experiment, Judge;
    if ts != [] {
      RunCons(cfg, s, ts);
      SnapshotStays(cfg, s, ts[0]);
      SnapshotStaysOverRun(cfg, Experiment(cfg, s, ts[0]).0, ts[1..]);
    }
  }

  /** What a Keep leaves: its row at the end of the log, and a commit whose snapshot, when the
      experiment made it with a tracked log, is the log without that row. */
  lemma KeepCommits(cfg: Config, s: State, t: Trial)
    requires ValidRepo(s.repo) && Judge(cfg, s, t) == Some(Keep) && Experiment(cfg, s, t).1.Some?
    ensures
      var (s', result) := Experiment(cfg, s, t);
      && s'.repo.log == Some(Rows(s.repo.log) + [Logged(result.value)])
      && HasBaseline(s') && s'.baselineCommit == Some(result.value.commit)
      && (!cfg.ignored && Commits(cfg, s, t) ==> s'.repo.commits[s'.baselineCommit.value].log == s.repo.log)
  {
    hide Logged, Verdict, Dirty;
  }

  /** With a tracked log, the first discard or crash behind a Keep loses the row of that very
      Keep, since the kept commit was made before it; and with it go all rows logged since. */
  lemma KeptRowIsLost(cfg: Config, s: State, keep: Trial, ts: seq<Trial>, t: Trial)
    requires ValidRepo(s.repo) && !cfg.ignored && s.repo.log.Some?
    requires Judge(cfg, s, keep) == Some(Keep) && Experiment(cfg, s, keep).1.Some? && Commits(cfg, s, keep)
    requires var s' := Experiment(cfg, s, keep).0;
             && KeptMetrics(cfg, s', ts) == []
             && (forall k :: 0 <= k < |ts| ==> Some(ts[k].newHash) != s'.baselineCommit)
             && Some(t.newHash) != s'.baselineCommit
    requires var b := After(cfg, Experiment(cfg, s, keep).0, ts);
             Experiment(cfg, b, t).1.Some? && Judge(cfg, b, t) != Some(Keep)
    ensures
      var kept := Experiment(cfg, s, keep);
      var end := Experiment(cfg, After(cfg, kept.0, ts), t);
      && Rows(kept.0.repo.log) == Rows(s.repo.log) + [Logged(kept.1.value)]
      && Rows(end.0.repo.log) == Rows(s.repo.log) + [Logged(end.1.value)]
  {
    hide Experiment, Judge, Logged, Commits, After, KeptMetrics, Tracked;
    var s' := Experiment(cfg, s, keep).0;
    KeepCommits(cfg, s, keep);
    SnapshotStaysOverRun(cfg, s', ts);
    ResetTakesLogBack(cfg, After(cfg, s', ts), t);
  }

  /** What a successful start-up on an empty log leaves when the baseline run did not crash. */
  lemma FirstRowKept(cfg: Config, g: Repo, u: StartUp)
    requires ValidRepo(g) && Rows(g.log) == [] && Started(cfg, g, u).1 && !u.baseline.crashed
    ensures u.baseline.metric.Some?
    ensures
      var row := BaselineRow(g, u.baseline);
      var s := Started(cfg, g, u).0;
      && s.repo == g.(log := Some([row])) && row.status == Keep && row.commit == g.head
      && s.baselineMetric == Some(row.metric) && s.baselineCommit == Some(g.head)
      && row.metric == Rounded(u.baseline.metric.value, METRIC_DECIMALS)
  {
    hide BestOf, Rounded, Started;
    StartRows(cfg, g, u);
    StartTakesBest(cfg, g, u);
    BestOfOne(BaselineRow(g, u.baseline), Minimizing(cfg));
  }

  /** So the first discarded experiment of a fresh repository deletes the baseline row, and
      the best row of the log is the discarded one. */
  lemma FirstDiscardLosesBaseline(cfg: Config, g: Repo, u: StartUp, t: Trial)
    requires ValidRepo(g) && !cfg.ignored && g.log.None? && g.commits[g.head].log.None? && t.newHash !in g.commits
    requires Started(cfg, g, u).1 && !u.baseline.crashed
    requires var s := Started(cfg, g, u).0;
             Judge(cfg, s, t) == Some(Discard) && Experiment(cfg, s, t).1.Some? && t.commit != NotStaged
    ensures var s := Started(cfg, g, u).0;
            var (s', result) := Experiment(cfg, s, t);
            && Rows(s.repo.log) != [] && s'.repo.log == Some([Logged(result.value)])
            && BestOf(Rows(s'.repo.log), Minimizing(cfg)) == Some(Logged(result.value))
            && Logged(result.value).status == Discard
  {
    hide Rounded, Verdict, Experiment, Judge, Started, BestOf;
    var s := Started(cfg, g, u).0;
    FirstRowKept(cfg, g, u);
    JudgedIsLogged(cfg, s, t);
    ResetTakesLogBack(cfg, s, t);
    var row := Logged(Experiment(cfg, s, t).1.value);
    assert [] + [row] == [row];
    BestOfOne(row, Minimizing(cfg));
  }

  /** Such an experiment: the baseline run measures 0, the first change makes it 1. */
  lemma DiscardExample()
    ensures
      var cfg := Config(Minimize, false, 0, false);
      var g := Repo("a", map["a" := Snapshot(0, None)], 0, None, false);
      var first := Trial("", 0, false, NotStaged, "", false, false, false, Some(0.0), 0.0, false, RowWritten);
      var t := Trial("worse", 1, false, Committed, "b", false, false, false, Some(1.0), 0.0, false, RowWritten);
      var s := Started(cfg, g, StartUp(true, false, false, first, false)).0;
      var log := Experiment(cfg, s, t).0.repo.log;
      && |Rows(s.repo.log)| == 1 && Rows(s.repo.log)[0].commit == "a" && Rows(s.repo.log)[0].status == Keep
      && |Rows(log)| == 1 && Rows(log)[0].commit == "b" && Rows(log)[0].status == Discard
  {
    hide Rounded, BestOf;
    var cfg := Config(Minimize, false, 0, false);
    var g := Repo("a", map["a" := Snapshot(0, None)], 0, None, false);
    var first := Trial("", 0, false, NotStaged, "", false, false, false, Some(0.0), 0.0, false, RowWritten);
    var t := Trial("worse", 1, false, Committed, "b", false, false, false, Some(1.0), 0.0, false, RowWritten);
    var u := StartUp(true, false, false, first, false);
    RoundedZero();
    BestOfOne(BaselineRow(g, first), true);
    assert [] + [BaselineRow(g, first)] == [BaselineRow(g, first)];
    FirstRowKept(cfg, g, u);
    FirstDiscardLosesBaseline(cfg, g, u, t);
  }

  lemma RoundedZero()
    ensures Rounded(0.0, METRIC_DECIMALS) == 0.0
  {
    PowersOfTen();
  }

  lemma JudgedIsLogged(cfg: Config, s: State, t: Trial)
    requires ValidRepo(s.repo) && Experiment(cfg, s, t).1.Some?
    ensures Judge(cfg, s, t) == Some(Experiment(cfg, s, t).1.value.status)
  {
    hide Verdict;
  }

  // ----- run_loop -----

  /** How many experiments a run may still begin. */
  function Allowance(cfg: Config, s: State): nat {
    if s.count < cfg.maxExperiments then cfg.maxExperiments - s.count else 0
  }

  lemma {:induction false} LoopCounts(cfg: Config, s: State, ticks: seq<Tick>)
    requires ValidRepo(s.repo)
    ensures var (s', outcome, begun) := LoopFrom(cfg, s, ticks);
            && s'.count == s.count + begun && begun <= |ticks|
            && (outcome == Unfinished ==> begun == |ticks|)
            && (cfg.maxExperiments > 0 ==> begun <= Allowance(cfg, s))
            && (cfg.maxExperiments > 0 && outcome == Unfinished ==> begun < Allowance(cfg, s))
    decreases |ticks|
  {
    if ticks != [] && ticks[0].answer.Some? {
      var a := if ticks[0].stopRequested then Stopped(s) else s;
      ExperimentCounts(cfg, a, ticks[0].answer.value);
      LoopCounts(cfg, Experiment(cfg, a, ticks[0].answer.value).0, ticks[1..]);
    }
  }

  lemma ExperimentCounts(cfg: Config, s: State, t: Trial)
    requires ValidRepo(s.repo)
    ensures var (s', result) := Experiment(cfg, s, t);
            && s'.count == s.count + 1 && s'.shouldStop == s.shouldStop
            && s'.state == if result.Some? then Paused else Running
  {
    hide Verdict, CommitStep;
  }

  /** A positive limit bounds the experiments begun whatever the callback answers, and a
      long enough observation sees the loop end. */
  lemma LimitHolds(cfg: Config, s: State, ticks: seq<Tick>)
    requires ValidRepo(s.repo) && cfg.maxExperiments > 0
    ensures RunLoopOf(cfg, s, ticks).2 <= Allowance(cfg, s)
    ensures |ticks| >= Allowance(cfg, s) ==> RunLoopOf(cfg, s, ticks).1 != Unfinished
  {
    LoopCounts(cfg, s.(state := Running), ticks);
  }

  /** On Ok the loop is Completed or Interrupted, and Interrupted only after a stop; on an
      error it is still Running. */
  lemma FinalState(cfg: Config, s: State, ticks: seq<Tick>)
    requires ValidRepo(s.repo)
    ensures var (s', outcome, _) := RunLoopOf(cfg, s, ticks);
            && (outcome == Returned ==> s'.state == Completed || (s'.state == Interrupted && s'.shouldStop))
            && (outcome == Failed ==> s'.state == Running)
  {
    FinalStateFrom(cfg, s.(state := Running), ticks);
  }

  lemma {:induction false} FinalStateFrom(cfg: Config, s: State, ticks: seq<Tick>)
    requires ValidRepo(s.repo)
    ensures var (s', outcome, _) := LoopFrom(cfg, s, ticks);
            && (outcome == Returned ==> s'.state == Completed || (s'.state == Interrupted && s'.shouldStop))
            && (outcome == Failed ==> s'.state == Running)
    decreases |ticks|
  {
    hide Experiment;
    if ticks != [] && ticks[0].answer.Some? {
      var a := if ticks[0].stopRequested then Stopped(s) else s;
      ExperimentCounts(cfg, a, ticks[0].answer.value);
      FinalStateFrom(cfg, Experiment(cfg, a, ticks[0].answer.value).0, ticks[1..]);
    }
  }

  /** A stop that comes while the callback of turn `k` runs lets at most the experiment of
      that turn begin, and the loop ends. */
  lemma {:induction false} StopHolds(cfg: Config, s: State, ticks: seq<Tick>, k: nat)
    requires ValidRepo(s.repo) && k < |ticks| && ticks[k].stopRequested
    ensures LoopFrom(cfg, s, ticks).2 <= k + 1
    ensures LoopFrom(cfg, s, ticks).1 != Unfinished
    decreases |ticks|
  {
    hide Experiment;
    if ticks[0].answer.Some? {
      var a := if ticks[0].stopRequested then Stopped(s) else s;
      ExperimentCounts(cfg, a, ticks[0].answer.value);
      var b := Experiment(cfg, a, ticks[0].answer.value).0;
      if k > 0 {
        StopHolds(cfg, b, ticks[1..], k - 1);
      }
    }
  }

  /** How such a run ends, when the loop gets to that callback: Completed when the agent has no
      further experiment, Running when its experiment fails, Interrupted otherwise. */
  lemma {:induction false} StopEnds(cfg: Config, s: State, ticks: seq<Tick>, k: nat)
    requires ValidRepo(s.repo) && k < |ticks| && ticks[k].stopRequested
    requires LoopFrom(cfg, s, ticks[..k]).1 == Unfinished && !(cfg.timed && ticks[k].timeUp)
    ensures
      var (s', outcome, begun) := LoopFrom(cfg, s, ticks);
      && s'.shouldStop
      && match ticks[k].answer
         case None => outcome == Returned && s'.state == Completed && begun == k
         case Some(t) =>
           var ok := Experiment(cfg, Stopped(LoopFrom(cfg, s, ticks[..k]).0), t).1.Some?;
           && begun == k + 1 && outcome == (if ok then Returned else Failed)
           && s'.state == (if ok then Interrupted else Running)
    decreases k
  {
    hide Experiment;
    assert k > 0 ==> ticks[..k][0] == ticks[0] && ticks[..k][1..] == ticks[1..][..k - 1];
    assert k == 0 ==> ticks[..k] == [];
    if ticks[0].answer.Some? {
      var a := if ticks[0].stopRequested then Stopped(s) else s;
      ExperimentCounts(cfg, a, ticks[0].answer.value);
      if k > 0 {
        StopEnds(cfg, Experiment(cfg, a, ticks[0].answer.value).0, ticks[1..], k - 1);
      }
    }
  }

  /** What may be called on a loop object. */
  datatype Call = RunLoop(ticks: seq<Tick>) | RunExperiment(trial: Trial) | RunSetup(startUp: StartUp)
    | RunBaseline(first: Trial) | Stop

  /** The state behind the call and the number of experiments `run_loop` began in it. */
  function CallOf(cfg: Config, s: State, c: Call): (r: (State, nat))
    requires ValidRepo(s.repo)
    ensures ValidRepo(r.0.repo)
  {
    match c
    case RunLoop(ticks) => (RunLoopOf(cfg, s, ticks).0, RunLoopOf(cfg, s, ticks).2)
    case RunExperiment(trial) => (Experiment(cfg, s, trial).0, 0)
    case RunSetup(startUp) => (Setup(cfg, s, startUp).0, 0)
    case RunBaseline(first) => (Baseline(s, first).0, 0)
    case Stop => (Stopped(s), 0)
  }

  function CallsOf(cfg: Config, s: State, cs: seq<Call>): (r: (State, nat))
    requires ValidRepo(s.repo)
    ensures ValidRepo(r.0.repo)
    decreases |cs|
  {
    if cs == [] then (s, 0)
    else
      var (s', n) := CallOf(cfg, s, cs[0]);
      var (end, m) := CallsOf(cfg, s', cs[1..]);
      (end, n + m)
  }

  /** A stop requested before the loop lets no experiment begin and interrupts it. */
  lemma StopBefore(cfg: Config, s: State, ticks: seq<Tick>)
    requires ValidRepo(s.repo) && s.shouldStop
    ensures RunLoopOf(cfg, s, ticks) == (s.(state := Interrupted), Returned, 0)
  {
  }

  /** Nothing clears the flag: whatever is called on a stopped loop object afterwards, its loop
      begins no experiment again. */
  lemma {:induction false} StoppedForGood(cfg: Config, s: State, cs: seq<Call>)
    requires ValidRepo(s.repo) && s.shouldStop
    ensures CallsOf(cfg, s, cs).0.shouldStop && CallsOf(cfg, s, cs).1 == 0
    decreases |cs|
  {
    hide Experiment, Setup, Baseline;
    if cs != [] {
      match cs[0] {
        case RunLoop(ticks) => StopBefore(cfg, s, ticks);
        case RunExperiment(trial) => ExperimentCounts(cfg, s, trial);
        case RunSetup(startUp) => SetupKeepsFlag(cfg, s, startUp);
        case RunBaseline(first) => BaselineKeepsFlag(s, first);
        case Stop =>
      }
      StoppedForGood(cfg, CallOf(cfg, s, cs[0]).0, cs[1..]);
    }
  }

  lemma BaselineKeepsFlag(s: State, t: Trial)
    ensures Baseline(s, t).0.shouldStop == s.shouldStop
  {
    hide AppendTo;
  }

  lemma SetupKeepsFlag(cfg: Config, s: State, u: StartUp)
    ensures Setup(cfg, s, u).0.shouldStop == s.shouldStop
  {
    hide BestOf, AppendTo;
  }
}

/** What one experiment leaves in git and in the work tree, what the code holds after a run, and
    which experiments a loop begins: told by the trial and the repository alone. */
module ResearchSteps {
  import opened Text
  import opened Decimals
  import opened ResultsLog
  import opened ResearchLoop
  import opened ResearchRuns
  import opened MetricGoals

  /** The code of the commit HEAD is on. */
  function HeadCode(g: Repo): int
    requires ValidRepo(g)
  {
    g.commits[g.head].code
  }

  // ----- the commit step -----

  /** With working calls the edited tree is what HEAD holds afterwards, log included unless git
      ignores it; a commit is made only if HEAD did not hold it already. */
  lemma CommitTakesTree(cfg: Config, g: Repo, t: Trial)
    requires ValidRepo(g)
    ensures
      var (g', commit) := CommitStep(cfg, g, t);
      && g'.code == g.code && g'.log == g.log
      && (commit.Some? <==> !t.statusFails && !t.hashFails)
      && (!t.statusFails && t.commit == Committed ==>
            HeadCode(g') == g.code && (!cfg.ignored ==> g'.commits[g'.head].log == g.log))
      && (g' != g ==> t.commit != NotStaged)
      && (g' != g ==> g.code != HeadCode(g) || (!cfg.ignored && g.log != g.commits[g.head].log))
  {
  }

  /** The history only grows, and by at most the edit under its new hash. */
  lemma HistoryGrows(cfg: Config, s: State, t: Trial)
    requires ValidRepo(s.repo)
    ensures
      var g, g' := s.repo, Experiment(cfg, s, t).0.repo;
      && (forall c :: c in g.commits && c != t.newHash ==> c in g'.commits && g'.commits[c] == g.commits[c])
      && (forall c :: c in g'.commits && c !in g.commits ==> c == t.newHash)
      && (!Commits(cfg, s, t) ==> g'.commits == g.commits)
      && (Commits(cfg, s, t) ==> t.newHash in g'.commits && g'.commits[t.newHash].code == t.edit)
  {
    hide CommitStep, Verdict;
    CommitGrows(cfg, s.repo.(code := t.edit), t);
  }

  lemma CommitGrows(cfg: Config, g: Repo, t: Trial)
    requires ValidRepo(g)
    ensures
      var made := !t.statusFails && Dirty(g, cfg.ignored) && t.commit == Committed;
      var snapshot := Snapshot(g.code, if cfg.ignored then None else g.log);
      CommitStep(cfg, g, t).0.commits == if made then g.commits[t.newHash := snapshot] else g.commits
  {
    hide Dirty;
  }

  // ----- the verdict and the result -----

  /** The experiment gets as far as being judged. */
  predicate Measured(t: Trial) {
    !t.statusFails && !t.hashFails && !t.runFails && t.metric.Some?
  }

  /** Crashes are crashes; what measures strictly better than the baseline is kept, where a missing
      baseline is worse than anything for a Minimize program and better for a Maximize one; and the
      rest is discarded. */
  lemma JudgedExactly(cfg: Config, s: State, t: Trial)
    requires ValidRepo(s.repo)
    ensures Judge(cfg, s, t).Some? <==> Measured(t)
    ensures Judge(cfg, s, t) == Some(Crash) <==> Measured(t) && t.crashed
    ensures
      Judge(cfg, s, t) == Some(Keep) <==>
        && Measured(t) && !t.crashed
        && match s.baselineMetric
           case None => cfg.goal == Minimize
           case Some(b) => if cfg.goal == Minimize then t.metric.value < b else t.metric.value > b
  {
    hide Dirty;
  }

  /** What is returned describes the trial and the commit it ran on: its own, or the one HEAD was
      on when it made none. */
  lemma ResultDescribes(cfg: Config, s: State, t: Trial)
    requires ValidRepo(s.repo) && Experiment(cfg, s, t).1.Some?
    ensures
      var r := Experiment(cfg, s, t).1.value;
      && r.commit == (if Commits(cfg, s, t) then t.newHash else s.repo.head)
      && Some(r.metric) == t.metric && r.memory == t.memory && r.description == t.description
      && Some(r.status) == Judge(cfg, s, t)
  {
    hide Dirty, Verdict;
  }

  // ----- starting up -----

  /** A new loop object has done nothing yet and is paused; a missing log exists now, with no rows. */
  lemma FreshIsIdle(g: Repo)
    ensures
      var s := Fresh(g);
      && s.baselineMetric.None? && s.baselineCommit.None? && s.currentCommit.None?
      && s.count == 0 && s.state == Paused && !s.shouldStop
      && s.repo.log.Some? && (g.log.Some? ==> s.repo == g) && (g.log.None? ==> Rows(s.repo.log) == [])
      && s.repo.(log := g.log) == g
  {
  }

  /** A baseline run counts as an experiment whatever becomes of it. It becomes the baseline only
      where there was none, and is logged as it was measured. */
  lemma BaselineRun(s: State, t: Trial)
    ensures
      var (s', ok) := Baseline(s, t);
      var measured := !t.hashFails && !t.runFails && t.metric.Some?;
      && s'.count == s.count + 1 && s'.state == s.state && s'.currentCommit == s.currentCommit
      && (ok <==> measured && t.append.RowWritten?)
      && (if measured && !t.crashed && s.baselineMetric.None?
          then s'.baselineMetric == t.metric && s'.baselineCommit == Some(s.repo.head)
          else s'.baselineMetric == s.baselineMetric && s'.baselineCommit == s.baselineCommit)
      && (ok ==> Rows(s'.repo.log) == Rows(s.repo.log) + [Logged(ExperimentResult(
            s.repo.head, t.metric.value, t.memory, if t.crashed then Crash else Keep, "baseline"))])
  {
    hide Logged;
  }

  /** Setting up makes a baseline run exactly on an empty log that could be read, and takes HEAD as
      the current commit. */
  lemma SetupRuns(cfg: Config, s: State, u: StartUp)
    ensures
      var (s', ok) := Setup(cfg, s, u);
      && s'.count == s.count + (if !u.hashFails && !u.loadFails && Rows(s.repo.log) == [] then 1 else 0)
      && s'.currentCommit == (if u.hashFails then s.currentCommit else Some(s.repo.head))
      && s'.state == s.state && s'.shouldStop == s.shouldStop
      && (ok <==> !u.hashFails && !u.loadFails && !u.bestFails
                  && (Rows(s.repo.log) == [] ==> Baseline(s, u.baseline).1))
  {
    hide BestOf, AppendTo;
  }

  /** A process that cannot create a missing log changes nothing and does not start. */
  lemma NotStarted(cfg: Config, g: Repo, u: StartUp)
    requires ValidRepo(g) && g.log.None? && !u.logCreated
    ensures var (s, ok) := Started(cfg, g, u); !ok && s.repo == g && s.count == 0
  {
  }

  // ----- the code in the work tree -----

  /** HEAD holds the edit when it is judged: it was committed, or HEAD held it before. */
  predicate Lands(s: State, t: Trial)
    requires ValidRepo(s.repo)
  {
    t.commit == Committed || HeadCode(s.repo) == t.edit
  }

  function BaselineCode(s: State): int
    requires HasBaseline(s)
  {
    s.repo.commits[s.baselineCommit.value].code
  }

  /** An experiment that returns Ok leaves the kept edit, or the code of the baseline commit, in
      the work tree and under HEAD. Only a kept edit that could not be committed is in the tree
      alone, and without a baseline there is nothing to go back to. */
  lemma TreeAfter(cfg: Config, s: State, t: Trial)
    requires ValidRepo(s.repo) && Some(t.newHash) != s.baselineCommit && Experiment(cfg, s, t).1.Some?
    ensures
      var (s', result) := Experiment(cfg, s, t);
      && (result.value.status == Keep || s.baselineCommit.None? ==>
            s'.repo.code == t.edit && (HeadCode(s'.repo) == t.edit <==> Lands(s, t)))
      && (result.value.status != Keep && s.baselineCommit.Some? ==>
            && HasBaseline(s) && s'.repo.code == HeadCode(s'.repo) == BaselineCode(s)
            && s'.repo.indexed == s.repo.commits[s.baselineCommit.value].log.Some?)
  {
    hide Verdict;
  }

  /** The baseline commit holds the kept edit once that landed, and is as it was without a Keep. */
  lemma BaselineCodeStep(cfg: Config, s: State, t: Trial)
    requires ValidRepo(s.repo) && HasBaseline(s) && t.newHash !in s.repo.commits
    ensures
      var s' := Experiment(cfg, s, t).0;
      && HasBaseline(s')
      && (if Judge(cfg, s, t) == Some(Keep) then BaselineCode(s') == t.edit <==> Lands(s, t)
          else BaselineCode(s') == BaselineCode(s))
  {
    hide Verdict, Logged;
  }

  /** The edit kept last, or `code` when nothing is kept. */
  function KeptCode(cfg: Config, s: State, ts: seq<Trial>, code: int): int
    requires ValidRepo(s.repo)
    decreases |ts|
  {
    if ts == [] then code
    else
      var kept := Judge(cfg, s, ts[0]) == Some(Keep);
      KeptCode(cfg, Experiment(cfg, s, ts[0]).0, ts[1..], if kept then ts[0].edit else code)
  }

  /** The edit kept last landed, or `landed` when nothing is kept. */
  predicate LastLands(cfg: Config, s: State, ts: seq<Trial>, landed: bool)
    requires ValidRepo(s.repo)
    decreases |ts|
  {
    if ts == [] then landed
    else
      var kept := Judge(cfg, s, ts[0]) == Some(Keep);
      LastLands(cfg, Experiment(cfg, s, ts[0]).0, ts[1..], if kept then Lands(s, ts[0]) else landed)
  }

  /** Every commit of the run gets a hash git does not have yet. */
  predicate FreshRun(cfg: Config, s: State, ts: seq<Trial>)
    requires ValidRepo(s.repo)
    decreases |ts|
  {
    ts != [] ==> ts[0].newHash !in s.repo.commits && FreshRun(cfg, Experiment(cfg, s, ts[0]).0, ts[1..])
  }

  lemma {:induction false} BaselineHoldsKept(cfg: Config, s: State, ts: seq<Trial>, code: int, landed: bool)
    requires ValidRepo(s.repo) && HasBaseline(s) && FreshRun(cfg, s, ts)
    requires BaselineCode(s) == code <==> landed
    ensures HasBaseline(After(cfg, s, ts))
    ensures BaselineCode(After(cfg, s, ts)) == KeptCode(cfg, s, ts, code) <==> LastLands(cfg, s, ts, landed)
    decreases |ts|
  {
    hide Experiment, Judge, Lands;
    if ts != [] {
      var s', kept := Experiment(cfg, s, ts[0]).0, Judge(cfg, s, ts[0]) == Some(Keep);
      BaselineCodeStep(cfg, s, ts[0]);
      BaselineHoldsKept(cfg, s', ts[1..], if kept then ts[0].edit else code, if kept then Lands(s, ts[0]) else landed);
    }
  }

  lemma {:induction false} FreshLast(cfg: Config, s: State, ts: seq<Trial>, t: Trial)
    requires ValidRepo(s.repo) && FreshRun(cfg, s, ts + [t])
    ensures FreshRun(cfg, s, ts) && t.newHash !in After(cfg, s, ts).repo.commits
    decreases |ts|
  {
    hide Experiment;
    if ts == [] {
      assert ([] + [t])[0] == t;
    } else {
      assert (ts + [t])[0] == ts[0] && (ts + [t])[1..] == ts[1..] + [t];
      FreshLast(cfg, Experiment(cfg, s, ts[0]).0, ts[1..], t);
    }
  }

  lemma {:induction false} LastKept(cfg: Config, s: State, ts: seq<Trial>, t: Trial, code: int, landed: bool)
    requires ValidRepo(s.repo) && Judge(cfg, After(cfg, s, ts), t) == Some(Keep)
    ensures KeptCode(cfg, s, ts + [t], code) == t.edit
    ensures LastLands(cfg, s, ts + [t], landed) == Lands(After(cfg, s, ts), t)
    decreases |ts|
  {
    hide Experiment, Judge, Lands;
    var all := ts + [t];
    if ts == [] {
      assert all[0] == t && all[1..] == [];
    } else {
      assert all[0] == ts[0] && all[1..] == ts[1..] + [t];
      var kept := Judge(cfg, s, ts[0]) == Some(Keep);
      LastKept(cfg, Experiment(cfg, s, ts[0]).0, ts[1..], t, if kept then ts[0].edit else code,
               if kept then Lands(s, ts[0]) else landed);
    }
  }

  /** Over any run, errors in between included: HEAD holds the edit kept last, or the code of the
      first baseline when nothing was kept, exactly when that edit landed. The run ends with an
      experiment that returns Ok; the work tree then holds the same. */
  lemma TreeAfterRun(cfg: Config, s: State, ts: seq<Trial>, t: Trial)
    requires ValidRepo(s.repo) && HasBaseline(s) && FreshRun(cfg, s, ts + [t])
    requires Experiment(cfg, After(cfg, s, ts), t).1.Some?
    ensures
      var end := After(cfg, s, ts + [t]).repo;
      var kept := KeptCode(cfg, s, ts + [t], BaselineCode(s));
      var landed := LastLands(cfg, s, ts + [t], true);
      (HeadCode(end) == kept <==> landed) && (landed ==> end.code == kept)
  {
    hide Experiment, Judge, Lands, Agrees, KeptCode, LastLands;
    var b := After(cfg, s, ts);
    FreshLast(cfg, s, ts, t);
    AfterAppend(cfg, s, ts, t);
    BaselineHoldsKept(cfg, s, ts, BaselineCode(s), true);
    BaselineHoldsKept(cfg, s, ts + [t], BaselineCode(s), true);
    TreeAfter(cfg, b, t);
    JudgedIsLogged(cfg, b, t);
    BaselineCodeStep(cfg, b, t);
    OnBaseline(cfg, b, t);
    if Judge(cfg, b, t) == Some(Keep) {
      LastKept(cfg, s, ts, t, BaselineCode(s), true);
    }
  }

  lemma OnBaseline(cfg: Config, s: State, t: Trial)
    requires ValidRepo(s.repo) && HasBaseline(s) && t.newHash !in s.repo.commits && Experiment(cfg, s, t).1.Some?
    ensures HasBaseline(Experiment(cfg, s, t).0)
    ensures HeadCode(Experiment(cfg, s, t).0.repo) == BaselineCode(Experiment(cfg, s, t).0)
  {
    hide Experiment;
    OkAgrees(cfg, s, t);
    BaselineCodeStep(cfg, s, t);
  }

  // ----- which experiments a loop begins -----

  /** Every turn so far was answered. */
  predicate Answered(ticks: seq<Tick>) {
    forall k :: 0 <= k < |ticks| ==> ticks[k].answer.Some?
  }

  function Answers(ticks: seq<Tick>): seq<Trial>
    requires Answered(ticks)
  {
    if ticks == [] then [] else [ticks[0].answer.value] + Answers(ticks[1..])
  }

  /** The experiments of the turns all return Ok. */
  predicate AllOk(cfg: Config, s: State, ts: seq<Trial>)
    requires ValidRepo(s.repo)
    decreases |ts|
  {
    ts != [] ==> Experiment(cfg, s, ts[0]).1.Some? && AllOk(cfg, Experiment(cfg, s, ts[0]).0, ts[1..])
  }

  /** Turn `k` begins an experiment: every turn up to it has an answer, nobody asked to stop
      before it, neither limit is reached up to it, and every experiment before it returned Ok. */
  predicate Begins(cfg: Config, s: State, ticks: seq<Tick>, k: nat)
    requires ValidRepo(s.repo) && k < |ticks|
  {
    && !s.shouldStop && (forall j :: 0 <= j < k ==> !ticks[j].stopRequested)
    && (cfg.maxExperiments > 0 ==> s.count + k < cfg.maxExperiments)
    && (cfg.timed ==> forall j :: 0 <= j <= k ==> !ticks[j].timeUp)
    && Answered(ticks[..k + 1]) && AllOk(cfg, s, Answers(ticks[..k]))
  }

  /** What an experiment does does not depend on the loop's state and stop flag. */
  predicate SameWork(a: State, b: State) {
    a.(state := b.state, shouldStop := b.shouldStop) == b
  }

  lemma WorksAlike(cfg: Config, a: State, b: State, t: Trial)
    requires ValidRepo(a.repo) && SameWork(a, b)
    ensures Experiment(cfg, a, t).1 == Experiment(cfg, b, t).1
    ensures SameWork(Experiment(cfg, a, t).0, Experiment(cfg, b, t).0)
  {
    hide CommitStep, Verdict;
  }

  lemma AnsweredNext(ticks: seq<Tick>)
    requires ticks != []
    ensures Answered(ticks) <==> ticks[0].answer.Some? && Answered(ticks[1..])
  {
    assert forall j :: 0 < j < |ticks| ==> ticks[j] == ticks[1..][j - 1];
  }

  lemma BeginsNext(cfg: Config, s: State, ticks: seq<Tick>, k: nat)
    requires ValidRepo(s.repo) && k < |ticks| && Begins(cfg, s, ticks, 0)
    requires 0 < k && !ticks[0].stopRequested
    ensures Begins(cfg, s, ticks, k) <==>
      var (s', result) := Experiment(cfg, s, ticks[0].answer.value);
      result.Some? && Begins(cfg, s', ticks[1..], k - 1)
  {
    hide Experiment;
    var t := ticks[0].answer.value;
    var rest := ticks[1..];
    ExperimentCounts(cfg, s, t);
    assert forall j :: 0 <= j < |rest| ==> rest[j] == ticks[j + 1];
    assert forall j :: 0 < j < |ticks| ==> ticks[j] == rest[j - 1];
    assert ticks[..k + 1][1..] == rest[..k] && ticks[..k][1..] == rest[..k - 1];
    assert Answered(ticks[..k + 1]) <==> Answered(rest[..k]) by {
      AnsweredNext(ticks[..k + 1]);
    }
  }

  /** The loop begins these experiments and no others. */
  lemma {:induction false} LoopBegins(cfg: Config, s: State, ticks: seq<Tick>, k: nat)
    requires ValidRepo(s.repo) && k < |ticks|
    ensures LoopFrom(cfg, s, ticks).2 > k <==> Begins(cfg, s, ticks, k)
    decreases |ticks|
  {
    hide Experiment, AllOk;
    NoneYet(cfg, s, ticks);
    if Begins(cfg, s, ticks, k) {
      assert ticks[..k + 1][0] == ticks[0];
    }
    if Begins(cfg, s, ticks, 0) {
      var a := if ticks[0].stopRequested then Stopped(s) else s;
      var t := ticks[0].answer.value;
      ExperimentCounts(cfg, a, t);
      var next := Experiment(cfg, a, t).0;
      if ticks[0].stopRequested {
        StopBefore(cfg, next, ticks[1..]);
      } else if k > 0 {
        BeginsNext(cfg, s, ticks, k);
        LoopBegins(cfg, next, ticks[1..], k - 1);
      }
    }
  }

  lemma NoneYet(cfg: Config, s: State, ticks: seq<Tick>)
    requires ValidRepo(s.repo) && ticks != []
    ensures Answered(ticks[..1]) <==> ticks[0].answer.Some?
    ensures Answers(ticks[..0]) == [] && AllOk(cfg, s, [])
  {
    assert ticks[..1] == [ticks[0]];
  }

  /** The repository, the log in it, both recorded commits and the baseline are what that run of
      experiments makes of them, so whatever holds over runs holds over loops. */
  lemma {:induction false} LoopIsRun(cfg: Config, s: State, ticks: seq<Tick>)
    requires ValidRepo(s.repo)
    ensures
      var (s', outcome, begun) := LoopFrom(cfg, s, ticks);
      && begun <= |ticks| && Answered(ticks[..begun])
      && SameWork(s', After(cfg, s, Answers(ticks[..begun])))
      && (outcome == Failed <==> !AllOk(cfg, s, Answers(ticks[..begun])))
    decreases |ticks|
  {
    hide Experiment;
    var (s', outcome, begun) := LoopFrom(cfg, s, ticks);
    assert ticks[..0] == [];
    if begun > 0 {
      var a := if ticks[0].stopRequested then Stopped(s) else s;
      var t := ticks[0].answer.value;
      var b := Experiment(cfg, a, t).0;
      LoopCounts(cfg, s, ticks);
      AnsweredNext(ticks[..begun]);
      WorksAlike(cfg, a, s, t);
      if Experiment(cfg, a, t).1.Some? {
        var n := begun - 1;
        LoopIsRun(cfg, b, ticks[1..]);
        assert ticks[..begun][1..] == ticks[1..][..n];
        RunsAlike(cfg, b, Experiment(cfg, s, t).0, Answers(ticks[1..][..n]));
      } else {
        assert ticks[..begun][1..] == [];
      }
    }
  }

  lemma {:induction false} RunsAlike(cfg: Config, a: State, b: State, ts: seq<Trial>)
    requires ValidRepo(a.repo) && SameWork(a, b)
    ensures SameWork(After(cfg, a, ts), After(cfg, b, ts)) && (AllOk(cfg, a, ts) <==> AllOk(cfg, b, ts))
    decreases |ts|
  {
    hide Experiment;
    if ts != [] {
      WorksAlike(cfg, a, b, ts[0]);
      RunsAlike(cfg, Experiment(cfg, a, ts[0]).0, Experiment(cfg, b, ts[0]).0, ts[1..]);
    }
  }

  /** The loop that returns was interrupted exactly when a stop came before its last turn. */
  lemma {:induction false} LoopEnds(cfg: Config, s: State, ticks: seq<Tick>)
    requires ValidRepo(s.repo) && LoopFrom(cfg, s, ticks).1 == Returned
    ensures
      var (s', _, begun) := LoopFrom(cfg, s, ticks);
      && begun <= |ticks|
      && (s'.state == Interrupted <==> s.shouldStop || exists k :: 0 <= k < begun && ticks[k].stopRequested)
    decreases |ticks|
  {
    hide Experiment;
    LoopCounts(cfg, s, ticks);
    var begun := LoopFrom(cfg, s, ticks).2;
    if begun > 0 {
      var a := if ticks[0].stopRequested then Stopped(s) else s;
      ExperimentCounts(cfg, a, ticks[0].answer.value);
      LoopEnds(cfg, Experiment(cfg, a, ticks[0].answer.value).0, ticks[1..]);
      assert forall k :: 0 < k < begun ==> ticks[k] == ticks[1..][k - 1];
      assert forall k :: 0 <= k < begun - 1 ==> ticks[1..][k] == ticks[k + 1];
    }
  }

  /** Between two turns the loop is Paused behind an experiment, and Running before the first. */
  lemma BetweenTurns(cfg: Config, s: State, ticks: seq<Tick>)
    requires ValidRepo(s.repo) && RunLoopOf(cfg, s, ticks).1 == Unfinished
    ensures var (s', _, begun) := RunLoopOf(cfg, s, ticks); s'.state == if begun == 0 then Running else Paused
  {
    BetweenTurnsFrom(cfg, s.(state := Running), ticks);
  }

  lemma {:induction false} BetweenTurnsFrom(cfg: Config, s: State, ticks: seq<Tick>)
    requires ValidRepo(s.repo) && LoopFrom(cfg, s, ticks).1 == Unfinished
    ensures var (s', _, begun) := LoopFrom(cfg, s, ticks); s'.state == if begun == 0 then s.state else Paused
    decreases |ticks|
  {
    hide Experiment;
    if ticks != [] {
      var a := if ticks[0].stopRequested then Stopped(s) else s;
      ExperimentCounts(cfg, a, ticks[0].answer.value);
      BetweenTurnsFrom(cfg, Experiment(cfg, a, ticks[0].answer.value).0, ticks[1..]);
    }
  }
}

/** The autonomous research loop: `crates/autoresearch/src/loop_runner.rs`, over a git
    repository that is a set of commits, a HEAD and a work tree holding the results log. */
module ResearchLoop {
  import opened Text
  import opened Decimals
  import opened ResultsLog
  import opened MetricGoals

  datatype LoopState = Running | Paused | Completed | Interrupted

  type Commit = string
  type Log = Option<seq<ExperimentResult>>

  // ----- the repository -----

  /** The committed state of the code, and of the results log when it is tracked. */
  datatype Snapshot = Snapshot(code: int, log: Log)

  /** `indexed` says whether the results log is in the index. */
  datatype Repo = Repo(head: Commit, commits: map<Commit, Snapshot>, code: int, log: Log, indexed: bool)

  predicate ValidRepo(g: Repo) {
    g.head in g.commits
  }

  /** `git status --porcelain` prints something; an ignored log never shows. */
  predicate Dirty(g: Repo, ignored: bool)
    requires ValidRepo(g)
  {
    g.code != g.commits[g.head].code || (!ignored && g.log != g.commits[g.head].log)
  }

  /** `git add -A`. */
  function StageAll(g: Repo, ignored: bool): Repo {
    g.(indexed := if ignored then g.indexed else g.log.Some?)
  }

  /** `git commit` of everything staged, under a new hash. */
  function CommitStaged(g: Repo, ignored: bool, hash: Commit): Repo {
    g.(head := hash, commits := g.commits[hash := Snapshot(g.code, if ignored then None else g.log)])
  }

  /** `git reset --hard`: a tracked log is replaced or removed, an untracked one stays. */
  function ResetHard(g: Repo, c: Commit): Repo
    requires c in g.commits
  {
    var target := g.commits[c];
    g.(head := c, code := target.code, indexed := target.log.Some?,
       log := if target.log.Some? then target.log else if g.indexed then None else g.log)
  }

  function Rows(log: Log): seq<ExperimentResult> {
    if log.Some? then log.value else []
  }

  // ----- what the outside does during one experiment -----

  /** The row was written; only a missing file with its header was; or nothing. */
  datatype AppendOutcome = RowWritten | HeaderWritten | NothingWritten

  /** `ResultsLogger::append`, on the rows that loading the file gives. */
  function AppendTo(g: Repo, r: ExperimentResult, outcome: AppendOutcome): Repo {
    match outcome
    case RowWritten => g.(log := Some(Rows(g.log) + [Logged(r)]))
    case HeaderWritten => g.(log := Some(Rows(g.log)))
    case NothingWritten => g
  }

  /** The commit was made, `git add` failed, or staging worked and the commit failed. In the
      last two cases the experiment runs on the current commit. */
  datatype CommitOutcome = Committed | NotStaged | StagedOnly

  /** The agent's edit and the outcome of every external call of one experiment. When the hash
      of HEAD cannot be read there is no commit to go on with, even if one was made. */
  datatype Trial = Trial(
    description: string,
    edit: int,
    statusFails: bool,
    commit: CommitOutcome,
    newHash: Commit,
    hashFails: bool,
    runFails: bool,
    crashed: bool,
    metric: Option<real>,
    memory: real,
    resetFails: bool,
    append: AppendOutcome)

  /** `ignored`: the results log is ignored by git. `timed`: a time limit is set. */
  datatype Config = Config(goal: Goal, ignored: bool, maxExperiments: nat, timed: bool)

  datatype State = State(
    repo: Repo,
    baselineMetric: Option<real>,
    baselineCommit: Option<Commit>,
    currentCommit: Option<Commit>,
    count: nat,
    state: LoopState,
    shouldStop: bool)

  // ----- one experiment -----

  function Minimizing(cfg: Config): bool {
    cfg.goal == Minimize
  }

  /** Without a baseline the comparison is with positive infinity. */
  predicate Improves(cfg: Config, baseline: Option<real>, metric: real) {
    match cfg.goal
    case Minimize => baseline.None? || metric < baseline.value
    case Maximize => baseline.Some? && metric > baseline.value
  }

  function Verdict(cfg: Config, baseline: Option<real>, crashed: bool, metric: real): Status {
    if crashed then Crash else if Improves(cfg, baseline, metric) then Keep else Discard
  }

  /** The repository after the commit step, and the commit the experiment runs on. */
  function CommitStep(cfg: Config, g: Repo, t: Trial): (r: (Repo, Option<Commit>))
    requires ValidRepo(g)
    ensures ValidRepo(r.0)
    ensures r.1.Some? ==> r.1.value == r.0.head
  {
    var head := if t.hashFails then None else Some(g.head);
    if t.statusFails then (g, None)
    else if !Dirty(g, cfg.ignored) then (g, head)
    else
      match t.commit
      case Committed =>
        (CommitStaged(StageAll(g, cfg.ignored), cfg.ignored, t.newHash), if t.hashFails then None else Some(t.newHash))
      case NotStaged => (g, head)
      case StagedOnly => (StageAll(g, cfg.ignored), head)
  }

  /** The state in which the metric is judged, when the experiment gets that far. */
  function Attempt(cfg: Config, s: State, t: Trial): (r: (State, Option<Commit>))
    requires ValidRepo(s.repo)
    ensures ValidRepo(r.0.repo)
    ensures r.1.Some? ==> r.1.value == r.0.repo.head && t.metric.Some?
  {
    var (g, commit) := CommitStep(cfg, s.repo.(code := t.edit), t);
    (s.(repo := g, count := s.count + 1, state := Running),
     if commit.Some? && !t.runFails && t.metric.Some? then commit else None)
  }

  function ResultOf(t: Trial, commit: Commit, status: Status): ExperimentResult
    requires t.metric.Some?
  {
    ExperimentResult(commit, t.metric.value, t.memory, status, t.description)
  }

  function Judge(cfg: Config, s: State, t: Trial): Option<Status>
    requires ValidRepo(s.repo)
  {
    if Attempt(cfg, s, t).1.None? then None
    else Some(Verdict(cfg, s.baselineMetric, t.crashed, t.metric.value))
  }

  /** `run_experiment`: the new state, and the result when the call returns Ok. */
  function Experiment(cfg: Config, s: State, t: Trial): (r: (State, Option<ExperimentResult>))
    requires ValidRepo(s.repo)
    ensures ValidRepo(r.0.repo)
  {
    var (a, commit) := Attempt(cfg, s, t);
    if commit.None? then (a, None)
    else
      var status := Verdict(cfg, s.baselineMetric, t.crashed, t.metric.value);
      var result := ResultOf(t, commit.value, status);
      if status != Keep && a.baselineCommit.Some? && (t.resetFails || a.baselineCommit.value !in a.repo.commits) then
        (a, None)
      else
        var b :=
          if status == Keep then
            a.(baselineMetric := Some(t.metric.value), baselineCommit := commit, currentCommit := commit)
          else if a.baselineCommit.Some? then
            a.(repo := ResetHard(a.repo, a.baselineCommit.value), currentCommit := a.baselineCommit)
          else a;
        var c := b.(repo := AppendTo(b.repo, result, t.append));
        if t.append.RowWritten? then (c.(state := Paused), Some(result)) else (c, None)
  }

  // ----- starting up -----

  /** `new`: a fresh object, and a log file with only its header when there was none. */
  function Fresh(g: Repo): State {
    State(g.(log := Some(Rows(g.log))), None, None, None, 0, Paused, false)
  }

  /** `run_baseline`; `None` is an error. */
  function Baseline(s: State, t: Trial): (r: (State, bool))
    ensures r.0.repo == s.repo.(log := r.0.repo.log)
  {
    var a := s.(count := s.count + 1);
    if t.hashFails || t.runFails || t.metric.None? then (a, false)
    else
      var status := if t.crashed then Crash else Keep;
      var result := ResultOf(t.(description := "baseline"), s.repo.head, status);
      var b := if status == Keep && a.baselineMetric.None?
               then a.(baselineMetric := t.metric, baselineCommit := Some(result.commit)) else a;
      (b.(repo := AppendTo(b.repo, result, t.append)), t.append.RowWritten?)
  }

  /** What the outside does while a process starts: creating a missing log, reading HEAD,
      loading the log, the baseline run, and loading the log again for its best row. */
  datatype StartUp = StartUp(logCreated: bool, hashFails: bool, loadFails: bool, baseline: Trial, bestFails: bool)

  /** `setup` past the choice of the branch. */
  function Setup(cfg: Config, s: State, u: StartUp): (r: (State, bool))
    ensures r.0.repo == s.repo.(log := r.0.repo.log)
  {
    if u.hashFails then (s, false)
    else
      var a := s.(currentCommit := Some(s.repo.head));
      var (b, ok) := if u.loadFails then (a, false)
                     else if Rows(a.repo.log) == [] then Baseline(a, u.baseline)
                     else (a, true);
      if !ok || u.bestFails then (b, false)
      else
        match BestOf(Rows(b.repo.log), Minimizing(cfg))
        case Some(best) => (b.(baselineMetric := Some(best.metric), baselineCommit := Some(best.commit)), true)
        case None => (b, true)
  }

  // ----- the loop -----

  /** One turn of `run_loop`: whether the time limit has passed, what the callback answers,
      and whether `stop` is called while the callback runs. */
  datatype Tick = Tick(timeUp: bool, stopRequested: bool, answer: Option<Trial>)

  /** `Unfinished` is a loop still running when the observed turns are over. */
  datatype Outcome = Returned | Failed | Unfinished

  function Stopped(s: State): State {
    s.(shouldStop := true, state := Interrupted)
  }

  /** The loop from its head: the final state, how it ended, how many experiments began. */
  function LoopFrom(cfg: Config, s: State, ticks: seq<Tick>): (r: (State, Outcome, nat))
    requires ValidRepo(s.repo)
    ensures ValidRepo(r.0.repo)
    decreases |ticks|
  {
    if s.shouldStop then (s.(state := Interrupted), Returned, 0)
    else if cfg.maxExperiments > 0 && s.count >= cfg.maxExperiments then (s.(state := Completed), Returned, 0)
    else if ticks == [] then (s, Unfinished, 0)
    else
      var t := ticks[0];
      if cfg.timed && t.timeUp then (s.(state := Completed), Returned, 0)
      else
        var a := if t.stopRequested then Stopped(s) else s;
        match t.answer
        case None => (a.(state := Completed), Returned, 0)
        case Some(trial) =>
          var (b, result) := Experiment(cfg, a, trial);
          if result.None? then (b, Failed, 1)
          else
            var (c, outcome, begun) := LoopFrom(cfg, b, ticks[1..]);
            (c, outcome, begun + 1)
  }

  function RunLoopOf(cfg: Config, s: State, ticks: seq<Tick>): (State, Outcome, nat)
    requires ValidRepo(s.repo)
  {
    LoopFrom(cfg, s.(state := Running), ticks)
  }

  // ----- the class -----

  class AutoResearchLoop {
    const cfg: Config
    var repo: Repo
    var baselineMetric: Option<real>
    var baselineCommit: Option<Commit>
    var currentCommit: Option<Commit>
    var experimentCount: nat
    var state: LoopState
    var shouldStop: bool

    function View(): State
      reads this
    {
      State(repo, baselineMetric, baselineCommit, currentCommit, experimentCount, state, shouldStop)
    }

    constructor (cfg: Config, repo: Repo)
      ensures this.cfg == cfg && View() == Fresh(repo)
    {
      this.cfg := cfg;
      this.repo := repo.(log := Some(Rows(repo.log)));
      baselineMetric, baselineCommit, currentCommit := None, None, None;
      experimentCount, state, shouldStop := 0, Paused, false;
    }

    /** `new`: null is its error, when a missing log cannot be created. */
    static method New(cfg: Config, repo: Repo, logCreated: bool) returns (loop: AutoResearchLoop?)
      ensures loop == null <==> repo.log.None? && !logCreated
      ensures loop != null ==> fresh(loop) && loop.cfg == cfg && loop.View() == Fresh(repo)
    {
      if repo.log.None? && !logCreated {
        return null;
      }
      loop := new AutoResearchLoop(cfg, repo);
    }

    method SetState(s: LoopState)
      modifies this`state
      ensures state == s
    {
      if state != s {
        state := s;
      }
    }

    method Stop()
      modifies this`state, this`shouldStop
      ensures shouldStop && state == Interrupted
    {
      shouldStop := true;
      SetState(Interrupted);
    }

    method RunBaseline(t: Trial) returns (ok: bool)
      modifies this
      ensures (View(), ok) == Baseline(old(View()), t)
    {
      experimentCount := experimentCount + 1;
      if t.hashFails || t.runFails || t.metric.None? {
        return false;
      }
      var commit := repo.head;
      var status := if t.crashed then Crash else Keep;
      var result := ResultOf(t.(description := "baseline"), commit, status);
      if status == Keep && baselineMetric.None? {
        baselineMetric := t.metric;
        baselineCommit := Some(result.commit);
      }
      repo := AppendTo(repo, result, t.append);
      return t.append.RowWritten?;
    }

    method SetupLoop(u: StartUp) returns (ok: bool)
      modifies this
      ensures (View(), ok) == Setup(cfg, old(View()), u)
    {
      hide AppendTo, BestOf;
      if u.hashFails {
        return false;
      }
      currentCommit := Some(repo.head);
      if u.loadFails {
        return false;
      }
      if Rows(repo.log) == [] {
        ok := RunBaseline(u.baseline);
        if !ok {
          return;
        }
      }
      if u.bestFails {
        return false;
      }
      var best := BestOf(Rows(repo.log), Minimizing(cfg));
      if best.Some? {
        baselineMetric := Some(best.value.metric);
        baselineCommit := Some(best.value.commit);
      }
      return true;
    }

    /** The commit an experiment runs on: a new one when the tree is dirty. */
    method CommitChanges(t: Trial) returns (commit: Option<Commit>)
      requires ValidRepo(repo)
      modifies this`repo
      ensures ValidRepo(repo)
      ensures (repo, commit) == CommitStep(cfg, old(repo), t)
    {
      hide Dirty;
      if t.statusFails {
        return None;
      }
      if Dirty(repo, cfg.ignored) {
        if t.commit == Committed {
          repo := CommitStaged(StageAll(repo, cfg.ignored), cfg.ignored, t.newHash);
        } else if t.commit == StagedOnly {
          repo := StageAll(repo, cfg.ignored);
        }
      }
      if t.hashFails {
        return None;
      }
      return Some(repo.head);
    }

    method RunExperiment(t: Trial) returns (result: Option<ExperimentResult>)
      requires ValidRepo(repo)
      modifies this
      ensures ValidRepo(repo)
      ensures (View(), result) == Experiment(cfg, old(View()), t)
    {
      hide Logged, Dirty, CommitStep, Improves;
      repo := repo.(code := t.edit);
      experimentCount := experimentCount + 1;
      SetState(Running);
      var commit := CommitChanges(t);
      if commit.None? || t.runFails || t.metric.None? {
        return None;
      }
      var metric := t.metric.value;
      var status := Verdict(cfg, baselineMetric, t.crashed, metric);
      var r := ResultOf(t, commit.value, status);
      if status == Keep {
        baselineMetric, baselineCommit, currentCommit := Some(metric), commit, commit;
      } else if baselineCommit.Some? {
        if t.resetFails || baselineCommit.value !in repo.commits {
          return None;
        }
        repo := ResetHard(repo, baselineCommit.value);
        currentCommit := baselineCommit;
      }
      repo := AppendTo(repo, r, t.append);
      if !t.append.RowWritten? {
        return None;
      }
      SetState(Paused);
      return Some(r);
    }

    method RunLoop(ticks: seq<Tick>) returns (outcome: Outcome, begun: nat)
      requires ValidRepo(repo)
      modifies this
      ensures (View(), outcome, begun) == RunLoopOf(cfg, old(View()), ticks)
    {
      hide Experiment;
      SetState(Running);
      begun := 0;
      ghost var all := LoopFrom(cfg, View(), ticks);
      assert ticks[0..] == ticks;
      var i := 0;
      while true
        invariant 0 <= i <= |ticks| && ValidRepo(repo)
        invariant var r := LoopFrom(cfg, View(), ticks[i..]); (r.0, r.1, r.2 + begun) == all
        decreases |ticks| - i
      {
        if shouldStop {
          SetState(Interrupted);
          return Returned, begun;
        }
        if cfg.maxExperiments > 0 && experimentCount >= cfg.maxExperiments {
          SetState(Completed);
          return Returned, begun;
        }
        if i == |ticks| {
          return Unfinished, begun;
        }
        var tick := ticks[i];
        assert ticks[i..][0] == tick && ticks[i..][1..] == ticks[i + 1..];
        i := i + 1;
        if cfg.timed && tick.timeUp {
          SetState(Completed);
          return Returned, begun;
        }
        if tick.stopRequested {
          Stop();
        }
        if tick.answer.None? {
          SetState(Completed);
          return Returned, begun;
        }
        begun := begun + 1;
        var result := RunExperiment(tick.answer.value);
        if result.None? {
          return Failed, begun;
        }
      }
    }
  }
}

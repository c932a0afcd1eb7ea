# Verification of six components of `nca`

This Dafny project models six parts of `nca` and proves what they promise over every
input and every run:

- **`@path` mentions** (`Mentions`, `Completion`, `Expansion`, `Compaction`, `RoundTrip`,
  `Fences`, `WorkspaceFiles`, `OfferedPaths`, `Sorting`). The scanner reports exactly the mentions of a text; the in-place splice
  with its running signed offset is a plain concatenation, and each mention becomes what reading
  its file gives; compacting the expansion gives the text back, and exactly when it does; the
  bounded workspace walk finds exactly the files it should, and the expander reads those very files.
- **The research loop and its log** (`Decimals`, `ResultsLog`, `ResearchLoop`,
  `ResearchRuns`, `ResearchSteps`, `ResearchLogFile`, `MetricGoals`). The log reads back what was
  appended, up to rounding to the nearest; over all runs and restarts the best row of the log is the
  baseline; HEAD, baseline and current commit agree, and tree and HEAD hold the code kept last; kept
  metrics improve strictly; a loop begins exactly the experiments its limits and stops allow.
- **The research program parser** (`ProgramParser`). The nested loops that share one index
  compute a one-pass fold over lines, and each field is what the lines of its list say.
- **Configuration layers** (`ConfigLayers`, `RecentModels`). Every value is that of the uppermost
  layer that sets it; diff and merge as an algebra of trees, the exact condition under which saving and loading restores a configuration, and the
  recency list.
- **The built-in skill seeder** (`SkillSeeder`). A run changes only files the manifest vouches
  for, over every sequence of upgrades, edits and failures.
- **Session swap and pending answers** (`SessionSwap`, `PendingAnswers`). Every shared slot
  points at the current supervisor after every command, and exactly the supervisors that were left
  have been finished; every ask is answered at most once.

`Text` holds strings as the program sees them: sequences of Unicode scalar values addressed
by UTF-8 byte offsets. Check everything with `dafny verify dfyconfig.toml`.

Code that works step by step is modelled by methods and classes with the same loops and
fields, each proved against a specification function; the theorems are lemmas about those
functions. External calls (git, processes, files, the agent) are parameters that may succeed
or fail in every way the code distinguishes.

## Where the code and the expectations part

Properties one might expect that are false of the code, each with the exact condition:

- *Compacting undoes expanding* only for tidy text (`RoundTrip.CompactingUndoesExpanding`, for
  readable files without a closing fence). A text with exactly one mention comes back exactly
  when it is tidy, its file can be shown and has no fence, no block header stands in front of the
  mention and no complete block behind it (`Fences.OneMentionComesBack`). With a second mention a
  fence can go unnoticed, because what is left of one file swallows the opening of the next block
  (`Fences.SwallowedFence`).
- *A completed `@` token is expanded when sent* as a whole exactly when its `@` stands at a
  boundary, it consists of path characters, at least one, and no further path character follows.
  Completion refuses only whitespace and looks one byte back where the scanner looks one
  character back, so it also offers tokens such as `a,b`, of which the scanner takes the part in
  front of the comma, and tokens whose `@` touches a non-boundary character of more than one byte,
  which the scanner does not take (`Completion.OfferedIsExpanded`, `Completion.CommaExample`).
- *Completion offers paths that the expander reads as the same file*, unless a name holds a
  backslash, which is shown as a slash (`OfferedPaths.OfferedIsRead`, `OfferedPaths.BackslashExample`).
- *The tree and HEAD hold the code kept last* after a run that ends with an Ok experiment, exactly
  when the edit kept last was committed or HEAD held it already: an experiment whose commit failed
  can be kept too (`ResearchSteps.TreeAfterRun`).
- *A crashed experiment is logged as a crash* exactly if it also printed a metric and nothing
  else failed: the metric is read before the crash is looked at (`ResearchRuns.CrashIsLogged`).
- *HEAD is on the baseline commit* at the end of a run with errors exactly when every experiment
  that made a commit and was neither kept nor reset is followed by one that was, and HEAD was
  there at the start or some experiment was kept or reset (`ResearchRuns.AgreesUnlessAstray`). A
  process starts there exactly when HEAD is the commit of the best row
  (`ResearchRuns.StartAgrees`), which need not be so after an error.
- *The best row of the log is a Keep with the rounded baseline, or there is neither* exactly when
  some Keep beats, as logged, every earlier row that did not crash, or all rows are crashes
  (`ResearchRuns.BestRowIsTheBaseline`). A process that starts from a discard as best row is out
  of step until its baseline moves in the six decimals logged (`ResearchRuns.MatchesAfterRun`).
- *A Maximize program keeps improvements* exactly when it has a baseline
  (`ResearchRuns.MaximizeKeeps`, `ResearchRuns.MaximizeNeedsBaseline`); without one the best row
  can be a discarded experiment (`ResearchRuns.BestCanBeADiscard`).
- *A restart goes on from the commit kept last* unless its metric rounds to that of an older
  row (`ResearchRuns.RestartCommit`).
- *The log keeps every row* over a discard or crash exactly when the baseline commit's snapshot
  holds them, or has no log and git does not track it (`ResearchRuns.ResetTakesLogBack`). With a
  tracked log the first discard behind a Keep loses that Keep's own row
  (`ResearchRuns.KeptRowIsLost`).
- *A failed append costs its own row only* when nothing is left of the row. What is left stays in
  front of the next row, and the two are read as one line (`ResultsLog.TornRowLoads`,
  `ResultsLog.TornRowFuses`).
- *A stopped loop can be run again*: nothing clears the flag (`ResearchRuns.StoppedForGood`).
- *Every list item counts, wherever it stands in its section*: a blank line ends the list
  (`ProgramParser.BulletsBehindBlank`, exactly: `ProgramParser.SectionIsOpened`). The branch of
  `from_markdown` that would end the instructions is dead (`ProgramParser.InstructionsNeverEnd`).
- *A `# ` heading names the program* exactly where it stands in no list
  (`ProgramParser.NameInsideList`, `ProgramParser.FromMarkdown`).
- *A saved configuration loads back*, stripped persona fields aside, exactly when it removes no
  key of the lower layers and each table merged as a whole (`model.aliases`, plan entries) is
  unchanged or shares no entry with them (`ConfigLayers.SaveThenLoad`,
  `ConfigLayers.SharedEntryIsLost`); the persona fields are then those of the lower layers
  (`ConfigLayers.PersonaStaysWithBase`). The
  comment on `diff_toml_values` says None means identical; the code also gives None when the
  current value only lacks keys of the base (`ConfigLayers.DiffReplays`).
- *An unedited skill is refreshed on upgrade* exactly when nothing stranded it before
  (`SkillSeeder.UpgradeArrives`): no run wrote bytes under its name that the manifest does not
  record afterwards, not even when first seeding it, and no run that wrote another skill destroyed
  the manifest while saving it or replaced one it had failed to read
  (`SkillSeeder.StrandedExactly`). The module comment does not mention failures.
- *A failed `/new` or switch leaves the session running*: after a failed `/new` the session has
  not been finished, but the error goes up through the command loop, which ends without
  finishing it; after a failed switch the loop goes on, but the session has been finished
  (`SessionSwap.WhenCommandsFail`, `SessionSwap.EndsAtTheFirst`, `SessionSwap.LiveAtTheEnd`). The
  comment on `TuiRewire` says the IPC server is not rewired; the code takes the new
  supervisor's handle, and so does the model.

## Model

| member | source | states |
|---|---|---|
| Text.ReplaceMiddle | crates/cli/src/file_mentions.rs:191-202 | replacing a byte range that starts and ends on character boundaries swaps exactly that part of the text and never panics |
| Mentions.PathCharsKeepClear | crates/cli/src/file_mentions.rs:88-97 | no path character is an `@` or a boundary, so no mention starts inside or directly behind another's path |
| Mentions.SpansAreExact | crates/cli/src/file_mentions.rs:100-133 | the scan reports every boundary `@` with a path, nothing else, each with its maximal path, in order and strictly separated |
| Mentions.ExactIsUnique | crates/cli/src/file_mentions.rs:100-133 | that description fits only one list of spans, so it determines the scanner's result |
| Mentions.ParseAtMentions | crates/cli/src/file_mentions.rs:100-133 | the index loops return the byte ranges and slash-normalised paths of exactly those spans |
| Completion.TypedToken | crates/cli/src/file_mentions.rs:211-227 | behind the last `@` any token without whitespace is offered when the `@` starts the line, stands at a boundary or follows a multi-byte character, and nothing otherwise |
| Completion.CursorBehind | crates/cli/src/file_mentions.rs:211-213 | a cursor offset behind the line counts as its end |
| Completion.SentMention | crates/cli/src/file_mentions.rs:100-133 | an `@` at a boundary is reported with the path characters behind it up to the first other one, and not at all without one |
| Completion.SentToken | crates/cli/src/file_mentions.rs:88-133 | a token of the sent line is reported as a whole exactly when its `@` stands at a boundary, it consists of path characters, at least one, and no path character follows |
| Completion.OfferedIsExpanded | crates/cli/src/file_mentions.rs:100-227 | every reported token was offered; one is offered and not reported exactly when it has no whitespace and either a multi-byte non-boundary character touches its `@`, or the `@` stands at a boundary and the token is no whole path |
| Completion.CommaExample | crates/cli/src/file_mentions.rs:100-227 | `a,b` is offered and only `a` is reported |
| Expansion.NormalizeJoin | crates/cli/src/file_mentions.rs:135-148 | the components of a path are appended to the workspace root exactly when the path is relative behind any leading `./` and no component is `..`; anything else yields no path, and a result never leaves the root |
| Expansion.DotSlashIsNothing | crates/cli/src/file_mentions.rs:135-148 | leading `./` change neither the components of a path nor whether it climbs |
| Expansion.ReplacementStandsFor | crates/cli/src/file_mentions.rs:163-187 | a file up to the limit is shown whole between header and fence, a longer one by its first bytes and a note with both counts; an unsafe path and a failed read each give their own note |
| Expansion.SpliceStep | crates/cli/src/file_mentions.rs:192-201 | at every step the shifted offsets are ordered, inside the text and on character boundaries, so the guard always holds and the replaced range is the mention |
| Expansion.Splice | crates/cli/src/file_mentions.rs:190-202 | replacing in place with a running signed offset yields the gaps and replacements in order |
| Expansion.SortIsIdentity | crates/cli/src/file_mentions.rs:190 | the insertions are already in order of their start, so sorting them changes nothing |
| Expansion.WovenLength | crates/cli/src/file_mentions.rs:191-202 | the final length is the text's length plus the sum of the changes, mention by mention |
| Expansion.ExpandAtFileMentions | crates/cli/src/file_mentions.rs:151-203 | the text between the mentions stays and each mention becomes the block or the note that reading its file gives; the loops compute this |
| Compaction.CollapseExcessBlankLines | crates/common/src/message.rs:229-246 | the loop drops exactly the newlines beyond two in a row |
| Compaction.SqueezeDropsExcess | crates/common/src/message.rs:229-246 | the characters dropped are exactly the newlines that have two newlines directly in front of them |
| Compaction.SqueezeFixes | crates/common/src/message.rs:229-246 | the result never has three newlines in a row, and it is the input exactly when the input has none |
| Compaction.CollapseExpandedFileBlocks | crates/common/src/message.rs:186-222 | the loop over the remaining text computes the block-by-block compaction, early exits included |
| Compaction.CompactTurn | crates/common/src/message.rs:208-217 | a complete block becomes `@path` set off by single spaces and the rest gets shorter, so the loop ends |
| RoundTrip.CompactExpansion | crates/common/src/message.rs:186-246 | over any replacements that are closed file blocks, compaction tidies the whitespace round each mention and changes nothing else |
| RoundTrip.CompactingTidies | crates/cli/src/file_mentions.rs:151-203 | compacting an expansion of readable, fence-free files gives the text with the whitespace round each mention made one space |
| RoundTrip.CleanAllIs | crates/common/src/message.rs:208-217 | tidying changes nothing exactly when every mention has single spaces round it and no path has a backslash |
| RoundTrip.CompactingUndoesExpanding | crates/cli/src/file_mentions.rs:151-203 | compacting gives back the text exactly when it is tidy: clean gaps, no backslash, no three newlines in a row |
| Fences.OutIsKept | crates/common/src/message.rs:190-219 | nothing the compaction loop has put out is taken back, trailing whitespace apart |
| Fences.TurnsOnBlocks | crates/common/src/message.rs:190-206 | the loop has a turn exactly while a header, a newline behind it and a fence behind that are left |
| Fences.LastFold | crates/common/src/message.rs:190-221 | the last fold of a run leaves its mention in front of the text behind a fence of the input, and no fold loses a visible character that was out |
| Fences.CompactingKeeps | crates/common/src/message.rs:186-222 | compacting leaves a text alone exactly when it holds no complete block and no three newlines in a row |
| Fences.FenceInBodyStays | crates/common/src/message.rs:203-214 | a lone file block folds back to its mention exactly when its body has no closing fence, wherever one stands |
| Fences.OneMentionComesBack | crates/cli/src/file_mentions.rs:151-203 | a text with one mention and anything round it comes back exactly when it is tidy, the file can be shown and has no fence, no header stands in front of the mention and no complete block behind it |
| Fences.SwallowedFence | crates/common/src/message.rs:190-219 | a text with two mentions that comes back although the file of the first has a fence |
| RoundTrip.PreviewShowsWhatWasTyped | crates/common/src/message.rs:152-156 | the transcript shows the message as typed exactly when it is tidy and trimmed |
| WorkspaceFiles.DirBagShows | crates/cli/src/file_mentions.rs:22-54 | the files the walk can meet are those with no skipped name on their path and a directory at depth 12 or less |
| WorkspaceFiles.ReadListing | crates/cli/src/file_mentions.rs:33-54 | one listing moves files to the output and directories to the stack without losing or inventing any, until the cap is reached |
| WorkspaceFiles.DedupKeeps | crates/cli/src/file_mentions.rs:58 | removing neighbouring duplicates of a sorted list keeps its elements and makes it strictly sorted |
| WorkspaceFiles.AllFound | crates/cli/src/file_mentions.rs:22-36 | when no more files exist than the cap allows, none was cut off |
| WorkspaceFiles.SortThenDedup | crates/cli/src/file_mentions.rs:57-58 | sorting and deduplicating yields a strictly sorted list of the same paths |
| WorkspaceFiles.DiscoverWorkspaceFiles | crates/cli/src/file_mentions.rs:17-60 | the walk ends on every tree and returns sorted distinct admissible paths: all of them up to 4000 files, and exactly the paths of 4000 files met when there are more |
| WorkspaceFiles.LeqIsDictionary | crates/cli/src/file_mentions.rs:57 | the paths are sorted as in a dictionary, by code points |
| OfferedPaths.OfferedIsRead | crates/cli/src/file_mentions.rs:48-148 | a discovered path without backslashes is safe to the expander and leads it to the very file that was found |
| OfferedPaths.BackslashExample | crates/cli/src/file_mentions.rs:49 | a file name with a backslash is offered as another file's path |
| Decimals.UnitsMonotone | crates/autoresearch/src/result.rs:114-116 | rounding to a fixed number of decimals is monotone |
| Decimals.RoundedIsNearest | crates/autoresearch/src/result.rs:114-116 | no number with that many decimals is nearer to the value than the rounded one |
| Decimals.RoundedTwice | crates/autoresearch/src/result.rs:114-116 | rounding a rounded number changes nothing |
| Decimals.ParseFormat | crates/autoresearch/src/result.rs:112-132 | parsing a printed number gives the rounded number, for every real |
| Decimals.PointedParses | crates/autoresearch/src/result.rs:131-132 | a number with a point is its digits before and behind it, one of which may be missing |
| Decimals.WholeParses | crates/autoresearch/src/result.rs:131-132 | a number may do without the point |
| Decimals.OnlyNumbersParse | crates/autoresearch/src/result.rs:131-132 | nothing but digits, a point and a leading sign makes a number |
| Decimals.FormatExamples | crates/autoresearch/src/result.rs:114-115 | numbers as they are printed |
| ResultsLog.RowRoundTrip | crates/autoresearch/src/result.rs:112-156 | a printed row is one line and parses to the result with rounded numbers and a flattened description |
| ResultsLog.RowExample | crates/autoresearch/src/result.rs:112-120 | a row as it stands in the file |
| ResultsLog.RowIsParsed | crates/autoresearch/src/result.rs:124-140 | five fields are a row exactly when both numbers and the status can be read, and then it holds them |
| ResultsLog.FieldsAreFive | crates/autoresearch/src/result.rs:124-140 | fields behind the fifth are ignored, and fewer than five are no row |
| ResultsLog.LoggedTwice | crates/autoresearch/src/result.rs:112-156 | a second trip through the log changes nothing exactly when the first left no carriage return at the end |
| ResultsLog.ResultsLogger.Init | crates/autoresearch/src/result.rs:182-197 | an existing file stays as it is; a missing one gets the header line, or stays missing or torn when that fails |
| ResultsLog.ResultsLogger.Append | crates/autoresearch/src/result.rs:200-215 | one row is added at the end, after a header when the file is new; a failure leaves what was written so far, possibly only the header |
| ResultsLog.ResultsLogger.Load | crates/autoresearch/src/result.rs:218-247 | the loop reads the rows behind the header, skipping blank and malformed lines, and fails on a wrong header |
| ResultsLog.RowsAreRead | crates/autoresearch/src/result.rs:236-244 | the rows loaded are exactly those of the lines that are not blank and can be read |
| ResultsLog.HeaderDecides | crates/autoresearch/src/result.rs:229-234 | a file loads exactly when its first line is the header, whitespace round it aside |
| ResultsLog.FailedAppendKeeps | crates/autoresearch/src/result.rs:200-215 | a failed append leaves the whole old text, with at most part of a row behind it |
| ResultsLog.TornRowLoads | crates/autoresearch/src/result.rs:200-247 | a torn row costs no earlier row |
| ResultsLog.TornRowFuses | crates/autoresearch/src/result.rs:200-247 | the row appended behind a torn one is read as one line with it |
| ResultsLog.AppendLoads | crates/autoresearch/src/result.rs:200-247 | appending to a well-formed log makes loading return one more row, the logged form of the result |
| ResultsLog.AppendAllLoads | crates/autoresearch/src/result.rs:200-247 | any list of appended results is read back in order behind what was there |
| ResultsLog.LogRoundTrip | crates/autoresearch/src/result.rs:182-247 | starting without a file, loading returns all appended results in order, rounded and flattened |
| ResultsLog.BestIsFirst | crates/autoresearch/src/result.rs:250-273 | the best row is the first of those no other row beats, crashes aside |
| ResultsLog.NoBest | crates/autoresearch/src/result.rs:250-273 | a log of crashes has no best row |
| ResultsLog.SummaryAgreesWithBest | crates/autoresearch/src/result.rs:276-309 | the summary counts the rows of each status, which are all rows; its best metric is the best row's and its baseline the first row's |
| ResearchLoop.AutoResearchLoop.New | crates/autoresearch/src/loop_runner.rs:124-166 | a new loop is paused, without baseline, over a log that exists; it is an error when a missing log cannot be created |
| ResearchLoop.AutoResearchLoop.SetState | crates/autoresearch/src/loop_runner.rs:499-505 | the state is the one asked for |
| ResearchLoop.AutoResearchLoop.Stop | crates/autoresearch/src/loop_runner.rs:448-451 | the stop flag is set and the state is Interrupted |
| ResearchLoop.AutoResearchLoop.RunBaseline | crates/autoresearch/src/loop_runner.rs:235-279 | the first result is logged as Keep or Crash and becomes the baseline when there is none and it did not crash; failures leave what was done so far |
| ResearchLoop.AutoResearchLoop.SetupLoop | crates/autoresearch/src/loop_runner.rs:206-231 | an empty log gets a baseline run, then the best row of the log becomes the baseline; each read of HEAD and each load may fail, and what was done until then stays |
| ResearchLoop.AutoResearchLoop.CommitChanges | crates/autoresearch/src/loop_runner.rs:293-308 | a dirty tree is committed, and the commit returned is always HEAD, also when committing failed |
| ResearchLoop.AutoResearchLoop.RunExperiment | crates/autoresearch/src/loop_runner.rs:282-376 | commit, run, parse, judge, keep or reset, and log, in this order, with every early exit |
| ResearchLoop.AutoResearchLoop.RunLoop | crates/autoresearch/src/loop_runner.rs:379-445 | the loop runs experiments turn by turn until a stop, a limit, the agent or an error ends it |
| ResearchSteps.CommitTakesTree | crates/autoresearch/src/loop_runner.rs:293-308 | with working calls HEAD holds the edited tree afterwards, log included unless ignored, and a commit is made only if HEAD did not hold it already |
| ResearchSteps.HistoryGrows | crates/autoresearch/src/loop_runner.rs:282-376 | no earlier commit changes, and the only new one holds the edit under its new hash |
| ResearchSteps.JudgedExactly | crates/autoresearch/src/loop_runner.rs:317-331 | a measured experiment is a Crash if it crashed, a Keep exactly if it beats the baseline strictly, where a missing one loses to Minimize and beats Maximize, and a Discard otherwise |
| ResearchSteps.ResultDescribes | crates/autoresearch/src/loop_runner.rs:332-340 | the result carries the commit the experiment ran on and the trial's metric, memory and description |
| ResearchSteps.TreeAfter | crates/autoresearch/src/loop_runner.rs:341-375 | after an Ok experiment tree and HEAD hold the kept edit or the code of the baseline commit; only a kept edit that could not be committed is in the tree alone |
| ResearchSteps.BaselineCodeStep | crates/autoresearch/src/loop_runner.rs:341-366 | the baseline commit holds a kept edit exactly when that landed in a commit, and keeps its code without a Keep |
| ResearchSteps.TreeAfterRun | crates/autoresearch/src/loop_runner.rs:282-376 | over any run with errors in between that ends with an Ok experiment, HEAD holds the edit kept last, or the first baseline's code, exactly when that edit landed in a commit, and then so does the tree |
| ResearchSteps.FreshIsIdle | crates/autoresearch/src/loop_runner.rs:124-166 | a new loop is paused, has run nothing and knows no commit |
| ResearchSteps.BaselineRun | crates/autoresearch/src/loop_runner.rs:235-279 | a baseline run is counted whatever becomes of it, becomes the baseline only where there was none, and is logged as measured |
| ResearchSteps.SetupRuns | crates/autoresearch/src/loop_runner.rs:206-231 | setting up makes a baseline run exactly on a log that was read and is empty, and takes HEAD as the current commit |
| ResearchSteps.NotStarted | crates/autoresearch/src/loop_runner.rs:136-138 | a process that cannot create a missing log changes nothing |
| ResearchSteps.LoopBegins | crates/autoresearch/src/loop_runner.rs:387-431 | turn k begins an experiment exactly when every turn up to it was answered, no stop came before it, neither limit is reached up to it and every earlier experiment returned Ok |
| ResearchSteps.LoopIsRun | crates/autoresearch/src/loop_runner.rs:379-445 | what a loop makes of repository, log and baseline is what the run of its experiments makes of them, and it fails exactly when one of these did |
| ResearchSteps.LoopEnds | crates/autoresearch/src/loop_runner.rs:387-444 | a loop that returns was interrupted exactly when a stop came before its last turn |
| ResearchSteps.BetweenTurns | crates/autoresearch/src/loop_runner.rs:379-445 | between turns the loop is paused behind an experiment and running before the first |
| ResearchRuns.OkAgrees | crates/autoresearch/src/loop_runner.rs:341-375 | whatever came before, an experiment that returns Ok leaves HEAD and both recorded commits in agreement |
| ResearchRuns.AgreesAfter | crates/autoresearch/src/loop_runner.rs:282-376 | whichever way an experiment ends, they agree afterwards exactly when it was kept or reset, or made no commit and they agreed already |
| ResearchRuns.AgreesUnlessAstray | crates/autoresearch/src/loop_runner.rs:282-376 | over any run from any state with a baseline, errors included, they agree at the end exactly when no experiment committed without being kept or reset and without a later one that was, and they agreed at the start or some experiment was kept or reset |
| ResearchRuns.StartAgrees | crates/autoresearch/src/loop_runner.rs:206-231 | a process starts in agreement exactly when it has no baseline commit or that commit is HEAD |
| ResearchRuns.OkExactly | crates/autoresearch/src/loop_runner.rs:282-376 | an experiment returns Ok exactly when it has a commit, ran, printed a metric, was kept or could be reset, and was logged |
| ResearchRuns.CrashIsLogged | crates/autoresearch/src/loop_runner.rs:315-369 | a crashed experiment is returned and appended as a Crash exactly when it printed a metric and nothing else failed; otherwise no row is added |
| ResearchRuns.StaysPaired | crates/autoresearch/src/loop_runner.rs:343-348 | baseline metric and baseline commit are set together, over any run |
| ResearchRuns.BaselineFollowsVerdict | crates/autoresearch/src/loop_runner.rs:317-348 | the baseline metric changes only on a Keep, and then to a metric that improves on it |
| ResearchRuns.KeptImproves | crates/autoresearch/src/loop_runner.rs:317-348 | over any run the kept metrics improve strictly and the baseline is the last of them |
| ResearchRuns.ImprovingPairwise | crates/autoresearch/src/loop_runner.rs:318-322 | every later kept metric is better than every earlier one |
| ResearchRuns.BaselineIsBest | crates/autoresearch/src/loop_runner.rs:317-348 | no judged experiment that did not crash beats the final baseline |
| ResearchRuns.MaximizeNeedsBaseline | crates/autoresearch/src/loop_runner.rs:318-322 | without a baseline a Maximize program keeps nothing over any run |
| ResearchRuns.MaximizeKeeps | crates/autoresearch/src/loop_runner.rs:317-331 | a Maximize program can keep something exactly when it has a baseline |
| ResearchRuns.RoundingKeepsOrder | crates/autoresearch/src/result.rs:112-116 | what the log shows never reverses the order of two metrics |
| ResearchRuns.LogInvariantStep | crates/autoresearch/src/loop_runner.rs:282-376 | one experiment keeps the best row's metric the rounded baseline wherever there are both, and keeps a log with a record Keep from having a discard as best row |
| ResearchRuns.LogInvariantRun | crates/autoresearch/src/loop_runner.rs:282-376 | so does any run of experiments on an ignored log whose kept results can be written |
| ResearchRuns.StartMatches | crates/autoresearch/src/loop_runner.rs:206-231 | starting up re-establishes this, and log and baseline then match exactly when the best row is no discard |
| ResearchRuns.MatchesStep | crates/autoresearch/src/loop_runner.rs:317-369 | one experiment: with a baseline a match stays and a mismatch ends with a Keep that rounds differently; without one a match ends when a Maximize experiment returns Ok without crashing |
| ResearchRuns.MatchesAfterRun | crates/autoresearch/src/loop_runner.rs:317-369 | the same over any run: with a baseline, a match at the end means a match before or a baseline moved in its six decimals |
| ResearchRuns.MatchesWithRecord | crates/autoresearch/src/result.rs:250-273 | log and baseline match exactly when all rows are crashes or some Keep beats every earlier row that did not crash |
| ResearchRuns.BestRowIsTheBaseline | crates/autoresearch/src/result.rs:250-273 | over any number of processes and experiments the best row carries the rounded baseline wherever there are both, and is a Keep exactly under that condition; in particular if the program minimizes or the log starts with a Keep |
| ResearchRuns.BestCanBeADiscard | crates/autoresearch/src/result.rs:255-269 | a Maximize program without baseline gets a discarded experiment as best row |
| ResearchRuns.UnloggedKeep | crates/autoresearch/src/loop_runner.rs:341-369 | when the log cannot be written after a Keep, log and baseline match only if the two metrics round alike |
| ResearchRuns.BestStaysOverRun | crates/autoresearch/src/result.rs:250-273 | a run without a Keep leaves the best row and the baseline as they are |
| ResearchRuns.RestartCommit | crates/autoresearch/src/loop_runner.rs:216-224 | any number of experiments behind the last Keep, a first Keep included, a restart takes the kept commit, unless the best row before it has the same rounded metric, which then wins |
| ResearchRuns.TieExample | crates/autoresearch/src/result.rs:112-116 | two different metrics that are logged alike |
| ResearchRuns.ResetTakesLogBack | crates/autoresearch/src/git_integration.rs:88-125 | a discard or crash keeps the earlier rows exactly when the baseline commit's snapshot holds them, or has no log and git does not track it |
| ResearchRuns.KeptRowIsLost | crates/autoresearch/src/loop_runner.rs:341-369 | with a tracked log the first discard or crash behind a Keep loses that Keep's own row and every row logged since |
| ResearchRuns.FirstDiscardLosesBaseline | crates/autoresearch/src/loop_runner.rs:350-369 | in a fresh repository with a tracked log the first discard deletes the baseline row and is then the best row |
| ResearchRuns.DiscardExample | crates/autoresearch/src/loop_runner.rs:350-369 | a two-experiment run that loses its baseline row in this way |
| ResearchRuns.LimitHolds | crates/autoresearch/src/loop_runner.rs:396-404 | with a positive limit at most the remaining number of experiments begin, whatever the agent answers, and the loop ends |
| ResearchRuns.FinalState | crates/autoresearch/src/loop_runner.rs:379-445 | a loop that returns Ok is Completed, or Interrupted after a stop; after an error it is still Running |
| ResearchRuns.StopHolds | crates/autoresearch/src/loop_runner.rs:389-394 | after a stop during the callback at most the experiment of that turn still begins, and the loop ends |
| ResearchRuns.StopEnds | crates/autoresearch/src/loop_runner.rs:389-444 | such a run ends Completed when the agent has nothing more, Running when its experiment fails, and Interrupted otherwise |
| ResearchRuns.StopBefore | crates/autoresearch/src/loop_runner.rs:389-394 | a stop before the loop lets no experiment begin and interrupts it |
| ResearchRuns.StoppedForGood | crates/autoresearch/src/loop_runner.rs:448-451 | whatever is called on a stopped loop object afterwards, its loop begins no experiment again |
| ResearchLogFile.FileHoldsRun | crates/autoresearch/src/result.rs:200-247 | over any run on an ignored log, loading the appended file gives the rows the loop is modelled with |
| ResearchLogFile.AppendMirrors | crates/autoresearch/src/result.rs:200-215 | appends that fail included, short of torn writes, the file goes on loading to the rows of the model, and is missing when the log is |
| ResearchLogFile.FileHoldsSessions | crates/autoresearch/src/result.rs:182-247 | so does any number of processes |
| ResearchLogFile.BestInFileIsTheBaseline | crates/autoresearch/src/loop_runner.rs:206-231 | from an empty log on, loading the appended file gives those rows, and its best row is a Keep with the rounded baseline under the same exact condition |
| ProgramParser.FromMarkdown | crates/autoresearch/src/program.rs:129-311 | the nested loops end on every text and compute the one-pass fold, which is the program that the lines tell: the last goal, command, regex, budget and memory of their lists, all files by kind, all extra constraints, and name, description and instructions from the lines in no list |
| ProgramParser.ToldByLine | crates/autoresearch/src/program.rs:157-253 | each line changes exactly the fields that it tells something about as an item of its list |
| ProgramParser.ReadTells | crates/autoresearch/src/program.rs:146-283 | the fold over any number of lines is the program these lines tell |
| ProgramParser.LastToldIs | crates/autoresearch/src/program.rs:190-250 | of several lines that tell a field the last decides |
| ProgramParser.BegunIsInstructed | crates/autoresearch/src/program.rs:254-268 | the instructions have begun exactly behind a heading that opens them |
| ProgramParser.TitlesOpen | crates/autoresearch/src/program.rs:154-257 | the headings that open each list and the instructions |
| ProgramParser.NameInsideList | crates/autoresearch/src/program.rs:157-163 | a first-level heading inside a list neither ends it nor names the program |
| ProgramParser.StripsBackticks | crates/autoresearch/src/program.rs:205-211 | only backticks go from the ends of a regex |
| ProgramParser.ListEnds | crates/autoresearch/src/program.rs:157-163 | at the line that ends a list it no longer matters that one was inside it, which is why the inner loops may skip the outer increment |
| ProgramParser.SectionIsOpened | crates/autoresearch/src/program.rs:154-253 | the fold is inside a list exactly when a heading opened it and no blank or `## ` line stands in between |
| ProgramParser.LinesAreReadInPlace | crates/autoresearch/src/program.rs:148-283 | a line of a list is read as an item of that list, every other line as free text |
| ProgramParser.BulletsBehindBlank | crates/autoresearch/src/program.rs:157-163 | outside the instructions, bullets behind a blank line are dropped |
| ProgramParser.InstructionsRunOn | crates/autoresearch/src/program.rs:254-269 | once instructions began, every text line up to the next list heading is appended to them |
| ProgramParser.InstructionsNeverEnd | crates/autoresearch/src/program.rs:261-263 | the flag is never cleared and the description stays as it is |
| ConfigLayers.DiffReplays | crates/common/src/config.rs:1104-1129 | overlaying the diff equals overlaying the whole, and there is no diff exactly when the whole adds nothing |
| ConfigLayers.DiffIsLeast | crates/common/src/config.rs:1104-1129 | every patch with the same effect contains the diff |
| ConfigLayers.NothingSharedIs | crates/common/src/config.rs:1104-1129 | the diff keeps everything exactly when no entry agrees with the base at any depth |
| ConfigLayers.DiffSharesNothing | crates/common/src/config.rs:1104-1129 | the diff holds no entry that already agrees |
| ConfigLayers.ResaveIsStable | crates/common/src/config.rs:1104-1129 | loading a diff and taking the diff again gives that diff, for tables merged field by field and as wholes |
| ConfigLayers.ReloadedEntries | crates/common/src/config.rs:196-260 | outside tables merged as wholes, reloading works entry by entry |
| ConfigLayers.ReloadRestores | crates/common/src/config.rs:196-260 | saving and loading restores a configuration exactly when it removes no key and each table merged as a whole is unchanged or shares no entry with the lower layers |
| ConfigLayers.SharedEntryIsLost | crates/common/src/config.rs:2004-2006 | a table merged as a whole loses every entry it shares with the lower layers as soon as it differs from them |
| ConfigLayers.StripPersonaFields | crates/common/src/config.rs:1084-1099 | the three persona fields of every agent are gone, with what lies in them, and every other value stays |
| ConfigLayers.StripReloaded | crates/common/src/config.rs:139-153 | stripping after reloading is reloading over the stripped lower layers |
| ConfigLayers.PersonaStaysWithBase | crates/common/src/config.rs:143-151 | after saving and loading, an agent has the persona the lower layers give it |
| ConfigLayers.ConfigFiles.LoadGlobalFile | crates/common/src/config.rs:89-98 | every value, and every table replaced whole, is the global file's where that decides it and the default otherwise; a malformed file is an error, and the only one |
| ConfigLayers.ConfigFiles.LoadForWorkspace | crates/common/src/config.rs:68-86 | every value, and every table replaced whole, is that of the workspace file, else of the global file, else of the defaults, whichever first decides it; a malformed file is an error, and the only one |
| ConfigLayers.MergeTakesUpper | crates/common/src/config.rs:196-260 | at every path the merge shows the upper layer wherever that decides |
| ConfigLayers.LayersInOrder | crates/common/src/config.rs:68-98 | the uppermost deciding layer shows at every path, aliases and plan entries as wholes |
| ConfigLayers.NcaPaths | crates/common/src/config.rs:196-260 | the tables replaced whole are the aliases of a model and the entries of a plan |
| ConfigLayers.ConfigFiles.SaveWorkspaceFile | crates/common/src/config.rs:121-181 | the file holds the diff of the stripped configuration against the lower layers, and is removed when there is none; a failed removal leaves it, a failed write may leave anything |
| ConfigLayers.FileOnlyForOverrides | crates/common/src/config.rs:148-163 | there is a workspace file after saving exactly when the configuration adds something to the lower layers |
| ConfigLayers.SaveThenLoad | crates/common/src/config.rs:68-181 | saving and loading gives the configuration back, persona fields aside, exactly under the condition of `ReloadRestores` |
| ConfigLayers.SavedAgain | crates/common/src/config.rs:68-181 | saving what was loaded leaves the workspace file as it was saved, whatever tables merge as wholes |
| ConfigLayers.RepairedGlobalWins | crates/common/src/config.rs:123 | what was saved under a malformed global file and agreed with the defaults shows the repaired global value afterwards |
| RecentModels.ModelConfig.TrackRecentModel | crates/common/src/config.rs:2026-2030 | the model moves to the front, others keep their order, and the list is cut at eight |
| RecentModels.FirstOccurrencesAre | crates/common/src/config.rs:2026-2030 | the reference list has the same models as the history, each once |
| RecentModels.CutFirst | crates/common/src/config.rs:2029 | cutting before the next model is added loses nothing that would be shown |
| RecentModels.ListIsLatestDistinct | crates/common/src/config.rs:2026-2030 | after any history the list is the first eight distinct models of the reversed history |
| SkillSeeder.SkillsRoot.SeedInto | crates/common/src/builtin_skills.rs:93-202 | the loop treats the skills one by one by the manifest it could read, and saves the manifest only when a file was written |
| SkillSeeder.OneTurnPerName | crates/common/src/builtin_skills.rs:131-189 | a run does to each name what its own turn does |
| SkillSeeder.OnlyUnmodifiedChange | crates/common/src/builtin_skills.rs:158-189 | a run removes no file and changes an existing one only if its bytes are those recorded for it |
| SkillSeeder.EventsRecordShipped | crates/common/src/builtin_skills.rs:93-117 | over any runs, edits and losses the manifest records only contents shipped under the name |
| SkillSeeder.ForeignBytesAreSafe | crates/common/src/builtin_skills.rs:123-202 | after any history, bytes no earlier version shipped under a name are never overwritten |
| SkillSeeder.ForeignStays | crates/common/src/builtin_skills.rs:158-175 | a file the manifest does not vouch for stays as it is through any further runs |
| SkillSeeder.DirtyIs | crates/common/src/builtin_skills.rs:142-192 | the manifest is saved exactly when some skill is written in full |
| SkillSeeder.StrandedExactly | crates/common/src/builtin_skills.rs:93-202 | for an absent, current or outdated skill and every failure, reading the manifest included, a run puts the file out of reach exactly when it writes bytes the manifest does not record afterwards, or destroys the manifest or replaces one it did not read |
| SkillSeeder.UpgradeArrives | crates/common/src/builtin_skills.rs:123-202 | over any history without edits of the file, a failure-free run brings it up to date exactly when no earlier event stranded it; otherwise its old bytes stay |
| SkillSeeder.UnrecordedSeedExample | crates/common/src/builtin_skills.rs:148-192 | a skill whose first seeding is not recorded never gets the next version, though no refresh failed |
| SkillSeeder.CleanRunDelivers | crates/common/src/builtin_skills.rs:131-192 | after a failure-free run every absent or unmodified skill has the embedded content, every other file is untouched |
| SkillSeeder.SecondRunIsIdle | crates/common/src/builtin_skills.rs:176-179 | an immediate second run changes nothing and returns 0 |
| SkillSeeder.CountIsChanges | crates/common/src/builtin_skills.rs:123-202 | a failure-free run returns the number of skill files whose content changed |
| SessionSwap.SessionRuntime.TakeEventRx | crates/cli/src/runner.rs:91-93 | the receiver is handed out once |
| SessionSwap.SessionRuntime.TakeIpc | crates/cli/src/runner.rs:128-130 | the IPC handle is handed out once |
| SessionSwap.SessionRuntime.TakeApprovals | crates/cli/src/runner.rs:132-134 | the approval map is handed out once |
| SessionSwap.SessionRuntime.TakeSpawnRx | crates/cli/src/runner.rs:177-179 | the spawn receiver is handed out once |
| SessionSwap.SessionRuntime.TakeCommitTx | crates/cli/src/runner.rs:183-187 | the turn-commit sender is handed out once |
| SessionSwap.SessionRuntime.StartNewSession | crates/cli/src/runner.rs:506-571 | the new supervisor is installed and the old one finished, or nothing changes |
| SessionSwap.SessionRuntime.SwitchSession | crates/cli/src/runner.rs:581-602 | the old supervisor is finished first, then replaced if the other session can be resumed |
| SessionSwap.TuiRewire.Rewire | crates/cli/src/repl.rs:119-205 | all five slots, one bridge and one spawn consumer are built from the current supervisor, or nothing changes when its receiver is gone |
| SessionSwap.Repl.constructor | crates/cli/src/repl.rs:2319-2338 | the first wiring |
| SessionSwap.Repl.NewCommand | crates/cli/src/repl.rs:1907-1921 | `/new` rewires after a successful swap only; its errors are returned |
| SessionSwap.Repl.RunCommands | crates/cli/src/repl.rs:2490-2904 | the command loop runs the commands one by one, is left with the session finished when the user quits, and is broken off by an error of `/new` |
| SessionSwap.Repl.ResumeCommand | crates/cli/src/repl.rs:2681-2722 | resuming rewires after a successful switch only and does nothing on the same session |
| SessionSwap.CommandKeepsWired | crates/cli/src/repl.rs:119-205 | every command keeps the wiring complete |
| SessionSwap.AlwaysWired | crates/cli/src/repl.rs:119-205 | over any run of turns, `/new` and switches, every slot points at the current supervisor and each installed supervisor has one bridge that reads its events and writes its log |
| SessionSwap.OneBridgePerReceiver | crates/cli/src/repl.rs:125-153 | no event receiver is consumed by two bridges |
| SessionSwap.WhenCommandsFail | crates/cli/src/repl.rs:1907-1914 | a failed `/new` changes nothing and ends the loop; after a failed switch the loop goes on, no slot has changed, but the session one is on has been finished |
| SessionSwap.GoesOnWhile | crates/cli/src/repl.rs:2490-2904 | the loop goes on exactly while nobody quits and no `/new` fails |
| SessionSwap.EndsAtTheFirst | crates/cli/src/repl.rs:2490-2904 | it ends at the first of these: with the session finished when the user quits, with slots and runtime as they were when a `/new` fails |
| SessionSwap.LiveAfter | crates/cli/src/runner.rs:506-602 | the session one is on after a command is unfinished exactly when one was installed, or it was unfinished and the command was neither a failed switch nor quitting |
| SessionSwap.LiveAtTheEnd | crates/cli/src/repl.rs:2490-2904 | at the end of any run the session one is on has been finished exactly when the user quit or the last swap was a failed switch |
| SessionSwap.FinishedExactly | crates/cli/src/runner.rs:506-602 | over any run the supervisors told to finish are, in order, those that were current at each `/new` that installed one, each switch to another session and quitting |
| SessionSwap.OthersAreFinished | crates/cli/src/runner.rs:506-602 | apart from the current one, the finished supervisors are exactly those that were installed |
| SessionSwap.SecondRewireFails | crates/cli/src/repl.rs:125-127 | rewiring twice without a swap fails and changes nothing |
| PendingAnswers.DispatchAnswer | crates/cli/src/runner.rs:20-53 | a dispatcher takes the entry out and reports success exactly when the answer reached a waiting asker |
| PendingAnswers.SubmitSuggestedAnswer | crates/cli/src/runner.rs:147-163 | the same for the only pending entry, and nothing when there is not exactly one |
| PendingAnswers.SuggestNeedsSole | crates/cli/src/runner.rs:147-163 | the suggested answer resolves something exactly when one question is pending and its asker waits |
| PendingAnswers.HappensOnce | crates/cli/src/runner.rs:20-53 | every single operation keeps each ask pending in at most one place and answered at most once |
| PendingAnswers.AnsweredAtMostOnce | crates/cli/src/repl.rs:2343-2450 | over every interleaving of asks, withdrawals and dispatchers on current and replaced maps, no ask is answered twice |
| PendingAnswers.FirstDispatchWins | crates/cli/src/runner.rs:20-53 | the first dispatch of a pending id succeeds exactly when its asker waits, every later one fails |
| PendingAnswers.EntriesAfter | crates/cli/src/runner.rs:20-53 | an answer takes the entry of its id, an accepted suggestion the only one, and every other entry of every map stays |
| PendingAnswers.DeliveredOnlyPending | crates/cli/src/runner.rs:20-53 | nothing is delivered where nothing is pending, and only asking and giving up change who waits |
| PendingAnswers.AskedIsAnswered | crates/cli/src/runner.rs:20-53 | an ask answered before its asker gives up gets its answer, and one answered after does not |
| PendingAnswers.SlotReachesCurrent | crates/cli/src/repl.rs:2343-2352 | between commands, an answer sent through the question slot reaches a question of the current supervisor |

## Left out

- Processes, real git calls, timeouts and log streaming: git is a map of commits with a HEAD, a work tree and the results log; every call may fail. The choice of the branch in `setup` and what lies outside the modelled snapshot are not part of the model.
- Metric extraction (`parse_metric`): any run may yield any metric or none.
- Floating point: metrics are reals. NaN, infinities, signed zero and exponents in hand-edited logs are not part of the model, other numbers are read as Rust reads them; a printed number carries a sign when the value is negative, as the code's does.
- ResearchRuns.LogInvariantRun: assumes the log is ignored by git and can be written right after a Keep; both exceptions are stated exactly by ResetTakesLogBack and UnloggedKeep.
- ResearchRuns.AgreesUnlessAstray: assumes git gives every commit a hash it does not have yet.
- ResearchSteps.TreeAfterRun: makes the same assumption, and starts from a state whose baseline commit git has.
- ResearchLoop.AutoResearchLoop.SetState: the source takes its lock with `blocking_read` and `blocking_write` inside async methods, which panics on an async runtime; the model only has the assignment.
- ResultsLog.RowRoundTrip: assumes a commit without tabs and newlines, as short hashes are.
- ResultsLog.ResultsLogger.Append: timestamps and the fields the log does not keep are left out. ResearchLoop has logs as rows, so a torn row or header is part of the file model only.
- ProgramParser.FromMarkdown: lower-casing, `extract_file_path`, `extract_value`, `extract_number` and `extract_float` are parameters, so their results are arbitrary.
- Mentions.ParseAtMentions: the alphanumeric characters outside ASCII are a parameter; the only facts used about them are that none is whitespace.
- Expansion.ExpandAtFileMentions: file contents and the lossy UTF-8 decoder are parameters; byte lengths are unbounded integers, so the signed offset cannot overflow.
- RoundTrip.CompactingUndoesExpanding: assumes readable files without a closing fence and no block header in the text; without these assumptions the exact condition is stated for texts with at most one mention (OneMentionComesBack, CompactingKeeps).
- RoundTrip.PreviewShowsWhatWasTyped: plain text messages only; image parts are left out.
- Workspace walks see a finite tree of files, directories and others; a failing listing entry is one that is not there. File name encoding and the prefix filter `filter_paths_prefix` are left out.
- ConfigLayers.ConfigFiles.SaveWorkspaceFile: TOML encoding, environment variables, `~` expansion and the copying of the provider's model into `default_model` are left out.
- SkillSeeder.SkillsRoot.SeedInto: SHA-256 is an injective digest; an existence check that itself fails is left out.
- SessionSwap: commands other than turns, `/new`, switches and quitting, the stdio wiring, the wake scheduler, registered tools, replay of events, the family record and carried-over settings are left out; a supervisor is known by its number, and the terminal task handles are values.
- PendingAnswers: poisoned locks are left out; an operation under a lock is one step.
- ResearchRuns.StopHolds: covers a stop that arrives while the agent is asked. `run_loop` borrows the loop object exclusively, so safe callers can only stop it between runs, which is StopBefore. Printing and progress figures are left out.
- Provider tables, alias resolution, cost sums and duration formatting would only add easy members.

/** The direction in which a research program wants its metric to go: `MetricGoal` of
    `crates/autoresearch/src/program.rs`. */
module MetricGoals {
  datatype Goal = Minimize | Maximize
}

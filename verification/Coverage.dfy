/** Coverage levels of the statistics: one default, one admissible range. */
module Coverage {
  import opened Wrappers

  const DEFAULT_LEVEL := 0.95

  function LevelOf(level: Option<real>): real {
    match level case None => DEFAULT_LEVEL case Some(l) => l
  }

  /** `coverageLevel` accepts it. */
  predicate IsCoverage(level: real) {
    0.0 < level < 1.0
  }
}

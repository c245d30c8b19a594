/** Breakpoint conditions as `ConditionEvaluator.evaluate` reports them. */
module Conditions {
  /** `fallback` marks an evaluation that could not be carried out. */
  datatype Verdict = Verdict(passed: bool, fallback: bool)
  {
    predicate Stops() {
      passed || fallback
    }
  }
}

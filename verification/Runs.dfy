/** Runs of a step system. `step` gives the state after an action, or None if the action is not enabled. */
module Runs {
  import opened Wrappers

  ghost predicate IsRun<S, A>(step: (S, A) -> Option<S>, s: S, run: seq<A>)
    decreases |run|
  {
    run == [] || (step(s, run[0]).Some? && IsRun(step, step(s, run[0]).value, run[1..]))
  }

  ghost function After<S, A>(step: (S, A) -> Option<S>, s: S, run: seq<A>): S
    requires IsRun(step, s, run)
    decreases |run|
  {
    if run == [] then s else After(step, step(s, run[0]).value, run[1..])
  }
}

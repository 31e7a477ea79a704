/**
 Tagged results shared by both pipeline versions.
 */
module Outcomes {

  datatype Option<T> = None | Some(value: T)

  /** A computation that either yields a value or stops with an error
      (a Python exception that escapes). */
  datatype Result<T, E> = Ok(value: T) | Err(error: E)

  /** What a step action reports to the driver that invoked it.
      The Python code returns `True`, `False` or the class `Later`, or lets
      an exception escape; each becomes one constructor here. */
  datatype StepOutcome =
    | Done     // any result other than `Later` and `False`: the step is marked done
    | Later    // deferred: nothing is recorded and the driver goes on
    | Failed   // the action returned `False`
    | Raised   // an exception escaped the action (not caught by a try/except wrapper)

  /** An action that ran to completion either succeeded or was deferred. */
  predicate Passes(o: StepOutcome) {
    o == Done || o == Later
  }

  /** Outcome of a step that reports a Python boolean. */
  function FromBool(ok: bool): (o: StepOutcome)
    ensures o == Done <==> ok
    ensures o == Failed <==> !ok
  {
    if ok then Done else Failed
  }
}

/** Optional values. In this model `None` stands for JavaScript's `NaN`: the
    value a failed `parseInt` produces and that every later arithmetic step
    propagates. */
module Wrappers {

  datatype Option<+T> = None | Some(value: T)

  /** JavaScript's strict equality `===` on numbers that may be `NaN`:
      `NaN` is equal to nothing, not even to itself. */
  predicate StrictEq(a: Option<nat>, b: Option<nat>)
  {
    a.Some? && b.Some? && a.value == b.value
  }
}

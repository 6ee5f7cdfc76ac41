/** The ways a Go call can end. */
module Outcomes {

  datatype Option<+T> = None | Some(value: T)

  /** `Ok` is a nil error, `Fail` a non-nil one. `Crash` is a run that never returns to its
      caller: a run-time panic (index out of range) or recursion that exhausts the stack. */
  datatype Outcome<+T> = Ok(value: T) | Fail | Crash {

    predicate IsFailure() {
      !Ok?
    }

    function PropagateFailure<U>(): Outcome<U>
      requires IsFailure()
    {
      if Fail? then Fail else Crash
    }

    function Extract(): T
      requires Ok?
    {
      value
    }
  }

  /** `b` is at least as defined as `a`: they agree unless `a` crashes. */
  ghost predicate Refines<T(!new)>(a: Outcome<T>, b: Outcome<T>) {
    a.Crash? || a == b
  }

  /** An order in which Go may iterate over a map with these keys. */
  ghost predicate Enumerates(order: seq<string>, keys: set<string>) {
    && (forall k :: k in order <==> k in keys)
    && forall i, j :: 0 <= i < j < |order| ==> order[i] != order[j]
  }
}

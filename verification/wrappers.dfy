/** Option and Outcome, the two failure-aware wrappers the model uses for
    values JavaScript leaves `undefined`/`null` and for `await` calls that may throw. */
module Wrappers {

  /** A value that may be missing: `undefined` or `null` in the source. */
  datatype Option<+T> = None | Some(value: T) {

    /** The value, or `default` when it is missing (a JS default parameter). */
    function GetOr(default: T): T {
      match this
      case Some(v) => v
      case None => default
    }
  }

  /** The outcome of an awaited call that resolves with nothing or rejects with
      an error value. It is failure-compatible, so `:- call` models an `await`
      inside a `try` block: a rejection leaves the block at once. */
  datatype Outcome<+E> = Pass | Fail(error: E) {

    predicate IsFailure() {
      Fail?
    }

    function PropagateFailure(): Outcome<E>
      requires Fail?
    {
      this
    }
  }

  /** JavaScript truthiness of an optional string: defined and non-empty. */
  predicate IsTruthy(s: Option<string>) {
    s.Some? && s.value != ""
  }
}

/** Option and Result, standing for Rust's `Option` and `anyhow::Result`. */
module Wrappers {

  datatype Option<+T> = None | Some(value: T) {
    /** `Option::unwrap_or`. */
    function GetOr(default: T): T {
      match this
      case Some(v) => v
      case None => default
    }
  }

  /** The kinds of failure the modelled code can report. */
  datatype Error =
    | StorageUnavailable   // the SQLite connection pool could not serve the query
    | AnnounceFailed       // the chat platform refused an announcement
    | InjectedError        // `maybe_panic("error")`
    | InjectedPanic        // `maybe_panic("panic")`: a panic, caught by the command handler

  /** A Rust `Result`; `:-` plays the part of the `?` operator. */
  datatype Result<+T> = Ok(value: T) | Err(error: Error) {
    predicate IsFailure() {
      Err?
    }

    function PropagateFailure<U>(): Result<U>
      requires Err?
    {
      Err(error)
    }

    function Extract(): T
      requires Ok?
    {
      value
    }
  }
}

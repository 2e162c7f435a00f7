/**
 * The values the validation hooks exchange: a field that may hold Python's
 * `None`, and the outcome of one hook (the value to store, or the message of
 * the `ValueError` it raises).
 */
module Outcomes {

  /** A nullable column value; `None` is Python's `None`. */
  datatype Option<+T> = None | Some(value: T)

  /** What a `@validates` hook does with a candidate: it returns the value
      that is then written to the field, or raises `ValueError(message)`. */
  datatype Outcome<+T> = Accepted(value: T) | Rejected(message: string)
}

/** Failure values of the filtering core.  Each error names an exception that the
    numpy-based implementation raises (or a name it leaves unbound), so that the model
    returns it instead of crashing. */
module Errors {

  datatype Error =
    | CannotExtendEmptyAxis       // edge-mode padding of an axis of length 0 by a non-zero width
    | ShapeMismatch               // stacking planes whose shapes differ
    | MissingChannel              // slicing channel 0, 1 or 2 out of an image with fewer channels
    | UnknownFilter(name: string) // no branch of the dispatch matched, so the filtered planes are unbound
    | NotModelled(name: string)   // a recognised filter computed in floating point (Gaussian, gamma)

  datatype Option<+T> = None | Some(value: T)

  /** The usual success/failure wrapper, usable with `:-`. */
  datatype Result<+T> = Ok(value: T) | Err(error: Error) {
    predicate IsFailure() {
      Err?
    }

    function PropagateFailure<U>(): Result<U>
      requires Err?
    {
      Err(error)
    }

    function Extract(): T
      requires Ok?
    {
      value
    }
  }
}

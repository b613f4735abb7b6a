/** Outcome types shared by every module of the model.  Python raises an
    exception where the model returns `Err`; the two exception classes the
    scan can raise on its own are the only error values. */
module Base {

  /** The Python exception a step raises. */
  datatype Error =
    | ValueError     // int() of a non-numeral, strptime of text that does not fit the format
    | OverflowError  // date + timedelta leaving the years 1..9999

  datatype Option<+T> = None | Some(value: T)

  /** A value, or the exception that replaced it; usable with `:-`. */
  datatype Result<+T> = Ok(value: T) | Err(error: Error) {
    predicate IsFailure() {
      Err?
    }

    function PropagateFailure<U>(): Result<U>
      requires Err?
    {
      Err(error)
    }

    function Extract(): T
      requires Ok?
    {
      value
    }
  }
}

/** The parts of the Java runtime the model needs: the exceptions the core throws
    and a success-or-exception result. */
module Lang {

  /** The exceptions raised by the modelled code itself (caller-supplied code that
      throws is not modelled). */
  datatype Exception =
    | IllegalArgumentException
    | NullPointerException
    | ArithmeticException
    | NoSuchElementException

  /** A Java call that either returns `value` or completes abruptly with `error`. */
  datatype Result<+R> = Ok(value: R) | Err(error: Exception)

  /** A Java reference that may be `null`; used where the source returns `null`
      to mean "nothing". */
  datatype Option<+T> = None | Some(value: T)
}

/** Error and result types shared by every module.

    The library reports failures by throwing one of a handful of exception
    classes; each class only builds a message, so one datatype stands for all
    of them here.
 */
module Wrappers {

  /** The exceptions thrown by the library. */
  datatype Error =
    | IllegalSize                 // buffer2dIllegalSize: dimension mismatch or empty buffer
    | UnsupportedFormat           // unsupportedFormat: unknown extension, header type or option
    | Custom(message: string)     // customException with a message
    | ZeroLengthVector            // zeroLengthVector: normalising a null vector
    | OutOfRange                  // std::out_of_range raised by std::string::substr

  /** Either a value or the exception that was thrown instead. */
  datatype Result<+T> = Ok(value: T) | Fail(error: Error) {

    predicate IsFailure() {
      Fail?
    }

    function PropagateFailure<U>(): Result<U>
      requires Fail?
    {
      Fail(error)
    }

    function Extract(): T
      requires Ok?
    {
      value
    }
  }

  /** An optional value, used where the source leaves a field unset. */
  datatype Option<+T> = None | Some(value: T) {

    predicate IsFailure() {
      None?
    }

    function PropagateFailure<U>(): Option<U>
      requires None?
    {
      None
    }

    function Extract(): T
      requires Some?
    {
      value
    }
  }
}

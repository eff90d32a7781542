/** The two ways a call into process.py can fail: the explicit `ValueError`
    raised by the parameter guards, and the `ZeroDivisionError` Python raises
    when an unguarded `1 / g` meets a zero periodicity. */
module Failures {

  datatype Error =
    | ValueError(message: string)
    | ZeroDivisionError

  datatype Result<T> = Ok(value: T) | Err(error: Error)

  /** Message of the guard of `mask_gaussian_1d`. */
  const InvalidParameterMessage: string := "One of the input parameter is invalid"

  /** Message of the guards on the reference periodicity `g`. */
  const InvalidPeriodicityMessage: string := "The reference periodicity input is incorrect"
}

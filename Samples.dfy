/** Values shared by every stage of the reduction: one power sample of a
    waterfall buffer, and the Python exceptions the modelled code can raise. */
module Samples {

  /** A float32 power sample; `NaN` is the "no value" marker that RFI blanking
      writes and that the NaN-aware median skips. */
  datatype Sample = NaN | Val(v: real)

  /** The exceptions the modelled lines of the reduction can raise. */
  datatype PyError = IndexError | ValueError | ZeroDivisionError

  /** The value of an expression that may raise. */
  datatype Result<T> = Ok(value: T) | Err(error: PyError)

  /** The outcome of a statement block that may raise. */
  datatype Outcome = Pass | Fail(error: PyError)
}

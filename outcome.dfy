/** Values that may be absent, and the failures the fingerprinting code raises, as values. */
module Outcome {

  /** Python's `None` or a present value. */
  datatype Option<+T> = None | Some(value: T)

  /** The exceptions of the comparison code. */
  datatype Error =
    | UnsupportedFormat   // the path ends in none of the recognised extensions
    | MissingFingerprint  // the other side has no fingerprint for this modality
    | DivisionByZero      // both fingerprints compared are empty

  datatype Result<+T> = Ok(value: T) | Err(error: Error)

  /** `x if x is not None else 0`, as the report builds its overall score. */
  function OrZero(x: Option<real>): (v: real)
    ensures x == Some(v) || (x == None && v == 0.0)
  {
    match x
    case Some(v) => v
    case None => 0.0
  }
}

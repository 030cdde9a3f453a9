/** Failure-compatible results for the operations that throw in the source. */
module Wrappers {

  /** The distinct errors the engine raises. */
  datatype Error =
    | InvalidValue         // "invalid value ... found": NaN, +-Infinity or another falsy input
    | PrecisionOutOfRange  // "precision should be between MIN_PREC and MAX_PREC"
    | ParseFailure         // a decimal string the scaler cannot read
    | DivisionByZero       // BigInt division by 0n (a RangeError at run time)
    | CurrencyNotSet       // "currency has not been set for conversion"
    | NotImplemented       // "Not implemented currency conversion of Money type"

  datatype Option<+T> = None | Some(value: T)

  datatype Result<+T> = Success(value: T) | Failure(error: Error) {
    predicate IsFailure() { Failure? }

    function PropagateFailure<U>(): Result<U>
      requires Failure?
    {
      Failure(error)
    }

    function Extract(): T
      requires Success?
    {
      value
    }
  }

  datatype Outcome = Pass | Fail(error: Error) {
    predicate IsFailure() { Fail? }

    function PropagateFailure(): Outcome
      requires Fail?
    {
      this
    }
  }
}

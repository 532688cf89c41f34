/** The failures the engine reports instead of a result. */
module Failures {

  datatype Error =
    | InvalidMinSize       // minSize < 1
    | InvalidJump          // jump < 1
    | TooFewObservations   // nSamples < minLen
    | NegativePenalty      // penalty < 0

  datatype Result<T> = Success(value: T) | Failure(error: Error)
}

/** Success/failure results, standing in for the exceptions raised by the telemetry receiver. */
module Wrappers {

  datatype Result<+R, +E> = Success(value: R) | Failure(error: E)
}

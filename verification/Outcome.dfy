/** The outcome of a Python function: an exception or a value. */
module Outcome {
  datatype Result<T> = Failed | Done(value: T)
}

/** Python's "either a value comes back or an exception propagates", as a value. */
module Exceptions {

  /** The outcome of a Python call: it returned `value`, or it raised. */
  datatype Fallible<+T> = Returns(value: T) | Throws
}

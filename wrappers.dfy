/** Option, and the outcome of a caller-supplied closure that may raise an exception. */
module Wrappers {

  /** `None` stands for a Java `null` or an empty `Option`. */
  datatype Option<+T> = None | Some(value: T)

  /** The exception a closure raised; only its `getMessage()` is observable to the library. */
  datatype Fault = Fault(message: string)

  /** What calling a closure that runs inside a `try`/`catch` of the library produces:
      either a value, or a raised exception. */
  datatype Attempt<+T> = Done(value: T) | Raised(fault: Fault)
}

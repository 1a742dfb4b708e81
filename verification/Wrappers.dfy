/** Optional values and the outcome of an operation the program may reject with an exception. */
module Wrappers {
  datatype Option<+T> = None | Some(value: T)

  /** Rejected stands for a thrown exception; Done carries the returned value. */
  datatype Outcome<+T> = Rejected | Done(value: T)
}

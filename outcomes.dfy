/** Failure-aware results shared by both queue representations. */
module Outcomes {

  /** A value or nothing; `None` stands for a null pointer. */
  datatype Option<T> = None | Some(value: T)

  /** The two conditions under which a queue throws `std::logic_error`. */
  datatype LogicError =
    | QueueIsFull   // "Queue is full!"
    | QueueIsEmpty  // "Queue is empty!"

  /** The outcome of an operation that returns nothing. */
  datatype Outcome = Pass | Fail(error: LogicError)

  /** The outcome of an operation that returns a value. */
  datatype Result<T> = Success(value: T) | Failure(error: LogicError)
}

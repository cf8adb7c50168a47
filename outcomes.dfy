/** Failure-carrying results standing in for the exceptions the allocator throws. */
module Outcomes {

  datatype Option<+T> = None | Some(value: T)

  /** The exception kinds of the allocator: std::bad_alloc and std::invalid_argument. */
  datatype Failure = BadAlloc | InvalidArgument

  datatype Result<+T> = Ok(value: T) | Err(error: Failure)

  /** The outcome of an operation that returns nothing: it completes or throws. */
  datatype Outcome = Pass | Fail(error: Failure)
}

/** The three notifications an R3 observer receives: a value, a recoverable
    error and a terminal completion carrying a Result. */
module Notifications {

  /** An exception value; only its identity matters to the operator. */
  datatype Exception = Exception(message: string)

  /** R3's completion result: success, or failure with the exception. */
  datatype Result = Success | Failure(exception: Exception)

  /** One notification delivered to the downstream observer. */
  datatype Event<T> =
    | Next(value: T)
    | ErrorResume(error: Exception)
    | Completed(result: Result)
}

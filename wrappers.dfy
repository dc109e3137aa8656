/** Option and Result, and the exceptions the services throw. */
module Wrappers {

  datatype Option<+T> = None | Some(value: T)

  /** The error conditions of the services, each with the message the source attaches. */
  datatype Error =
    | NotFound(message: string)     // NotFoundException, or the store refusing to update a missing row
    | BadRequest(message: string)   // BadRequestException
    | Forbidden(message: string)    // ForbiddenException
    | InvalidData(message: string)  // stored data the code cannot handle (a crash in the source)

  datatype Result<+T> = Success(value: T) | Failure(error: Error) {
    predicate IsFailure() {
      Failure?
    }

    function PropagateFailure<U>(): Result<U>
      requires Failure?
    {
      Failure(error)
    }

    function Extract(): T
      requires Success?
    {
      value
    }
  }
}

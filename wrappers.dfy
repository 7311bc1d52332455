/** Nullable values and the failures the services raise, as values instead of exceptions. */
module Wrappers {

  /** A C# nullable (`T?`) value. */
  datatype Option<+T> = None | Some(value: T)

  /** The exceptions the services throw, by kind, with their message.
      `DbUpdate` stands for the database rejecting a save (a unique index or
      a foreign key) and `Query` for the database refusing a query; the code
      itself throws neither. */
  datatype Error =
    | Unauthorized(message: string)      // UnauthorizedAccessException
    | KeyNotFound(message: string)       // KeyNotFoundException
    | InvalidOperation(message: string)  // InvalidOperationException
    | DbUpdate(message: string)          // DbUpdateException from SaveChanges
    | Query(message: string)             // SqlException from a query

  datatype Result<+T> = Ok(value: T) | Err(error: Error)
}

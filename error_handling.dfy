/** The outermost middleware: an exception escaping the pipeline becomes a
    JSON error response. The exception's class decides the status code, the
    summary message and whether its own message reaches the client. An
    exception of a class derived from one of the four named classes is
    classified by that class; every other exception is `OtherException`. */
module ErrorHandling {
  import opened Wrappers

  datatype Exception =
    | KeyNotFoundException(message: string)
    | UnauthorizedAccessException(message: string)
    | InvalidOperationException(message: string)
    | ArgumentException(message: string)
    | OtherException(message: string)

  const NotFound := 404
  const Unauthorized := 401
  const Conflict := 409
  const BadRequest := 400
  const InternalServerError := 500

  /** The status code of `HandleExceptionAsync`. */
  function StatusCode(e: Exception): (code: int)
    ensures code in {NotFound, Unauthorized, Conflict, BadRequest, InternalServerError}
    ensures code == InternalServerError <==> e.OtherException?
  {
    match e
    case KeyNotFoundException(_) => NotFound
    case UnauthorizedAccessException(_) => Unauthorized
    case InvalidOperationException(_) => Conflict
    case ArgumentException(_) => BadRequest
    case OtherException(_) => InternalServerError
  }

  /** `GetErrorMessage`: one fixed summary per class. */
  function GetErrorMessage(e: Exception): (m: string)
    ensures m != ""
  {
    match e
    case KeyNotFoundException(_) => "Resource not found"
    case UnauthorizedAccessException(_) => "Unauthorized access"
    case InvalidOperationException(_) => "Operation failed"
    case ArgumentException(_) => "Invalid request"
    case OtherException(_) => "An error occurred while processing your request"
  }

  /** The summary never depends on the exception's own message, and two
      exceptions get the same summary exactly when they get the same status. */
  lemma SummaryFollowsStatus(a: Exception, b: Exception)
    ensures GetErrorMessage(a) == GetErrorMessage(b) <==> StatusCode(a) == StatusCode(b)
  {
    if StatusCode(a) != StatusCode(b) {
      assert |GetErrorMessage(a)| != |GetErrorMessage(b)|;
    }
  }

  /** `GetUserFriendlyMessage`: the exception's message for a missing
      resource, a refused operation and a bad argument; a fixed text for a
      denied access and for everything else. */
  function GetUserFriendlyMessage(e: Exception): (m: string)
    ensures (e.KeyNotFoundException? || e.InvalidOperationException? || e.ArgumentException?) ==> m == e.message
  {
    match e
    case KeyNotFoundException(message) => message
    case UnauthorizedAccessException(_) => "You are not authorized to perform this action"
    case InvalidOperationException(message) => message
    case ArgumentException(message) => message
    case OtherException(_) => "An unexpected error occurred. Please try again later or contact support."
  }

  /** A denied access and an unclassified failure show the client nothing of
      the exception's message: any two such exceptions of the same class read
      the same. */
  lemma NothingInternalLeaks(a: Exception, b: Exception)
    requires (a.UnauthorizedAccessException? && b.UnauthorizedAccessException?)
          || (a.OtherException? && b.OtherException?)
    ensures GetUserFriendlyMessage(a) == GetUserFriendlyMessage(b)
    ensures StatusCode(a) == StatusCode(b) && GetErrorMessage(a) == GetErrorMessage(b)
  {
  }

  /** `ApiResponse<T>`: a success flag, a summary, the payload and the error
      lines. */
  datatype ApiResponse<T> = ApiResponse(success: bool, message: Option<string>, data: Option<T>, errors: Option<seq<string>>)

  /** The middleware's body is an `ApiResponse<object>` whose payload it
      never sets; the unit type stands in for `object`. */
  datatype HttpResponse = HttpResponse(statusCode: int, contentType: string, body: ApiResponse<()>)

  /** The response written for an exception: never a success, one summary
      and exactly one client-facing error line. */
  function HandleException(e: Exception): (r: HttpResponse)
    ensures !r.body.success && r.contentType == "application/json" && r.body.data.None?
    ensures r.body.errors.Some? && |r.body.errors.value| == 1
    ensures r.statusCode == StatusCode(e) && r.body.message == Some(GetErrorMessage(e))
    ensures r.body.errors.value[0] == GetUserFriendlyMessage(e)
  {
    HttpResponse(StatusCode(e), "application/json",
      ApiResponse(false, Some(GetErrorMessage(e)), None, Some([GetUserFriendlyMessage(e)])))
  }

  /** The exception a service failure is thrown as. `DbUpdateException` and
      `SqlException` are none of the four named classes. */
  function Thrown(err: Error): Exception {
    match err
    case Unauthorized(m) => UnauthorizedAccessException(m)
    case KeyNotFound(m) => KeyNotFoundException(m)
    case InvalidOperation(m) => InvalidOperationException(m)
    case DbUpdate(m) => OtherException(m)
    case Query(m) => OtherException(m)
  }

  /** A service failure that reached this middleware: a missing row is 404
      and a refused operation 409, both with the service's message; a
      rejected save or query is a 500 whose response is the same whatever
      its message. */
  lemma ServiceFailures(err: Error)
    ensures err.KeyNotFound? ==>
      (HandleException(Thrown(err)).statusCode == NotFound && HandleException(Thrown(err)).body.errors == Some([err.message]))
    ensures err.InvalidOperation? ==>
      (HandleException(Thrown(err)).statusCode == Conflict && HandleException(Thrown(err)).body.errors == Some([err.message]))
    ensures err.Unauthorized? ==> HandleException(Thrown(err)).statusCode == Unauthorized
    ensures err.DbUpdate? || err.Query? ==>
      (HandleException(Thrown(err)).statusCode == InternalServerError
       && HandleException(Thrown(err)) == HandleException(Thrown(DbUpdate(""))))
  {
    if err.DbUpdate? || err.Query? {
      NothingInternalLeaks(Thrown(err), Thrown(DbUpdate("")));
    }
  }
}

/** The error records of src/models/errors.ts. */
module Errors {
  import opened Wrappers
  import opened Constants

  /** `RequestError`: an `Error` carrying the application's error code and,
      when the status table knows that code, an HTTP status. */
  datatype RequestError = RequestError(errorCode: string, message: string, statusCode: Option<int>)

  /** `new RequestError(errorCode, errorMessage)` */
  function NewRequestError(errorCode: string, errorMessage: string, settings: Settings): (e: RequestError)
    ensures e.errorCode == errorCode && e.message == errorMessage
    ensures e.statusCode.Some? <==> errorCode in settings.httpStatusCodes
    ensures e.statusCode.Some? ==> e.statusCode.value == settings.httpStatusCodes[errorCode]
  {
    RequestError(
      errorCode,
      errorMessage,
      if errorCode in settings.httpStatusCodes then Some(settings.httpStatusCodes[errorCode]) else None)
  }

  /** The shape of the MySQL driver's `QueryError`, which `DatabaseError`
      implements; `None` is an unset optional property. */
  datatype QueryError = QueryError(
    code: string,
    errno: Option<int>,
    syscall: Option<string>,
    sqlState: Option<string>,
    stack: Option<string>,
    fatal: bool,
    name: string,
    message: string)

  /** What a `DatabaseError` is built from: a message or a driver error. */
  datatype DatabaseErrorSource = FromMessage(text: string) | FromQueryError(error: QueryError)

  /** `new DatabaseError(error)`: a driver error is copied field by field; a
      plain message becomes a fatal error with the unknown-error code, errno
      -1 and the name `DatabaseError`, and no syscall, SQL state or stack. */
  function NewDatabaseError(source: DatabaseErrorSource, settings: Settings): (e: QueryError)
    ensures source.FromQueryError? ==> e == source.error
    ensures source.FromMessage? ==>
              && e.message == source.text
              && e.code == settings.unknownErrorCode
              && e.errno == Some(-1)
              && e.fatal
              && e.name == "DatabaseError"
    ensures source.FromMessage? ==> e.syscall.None? && e.sqlState.None? && e.stack.None?
  {
    match source
    case FromMessage(text) =>
      QueryError(settings.unknownErrorCode, Some(-1), None, None, None, true, "DatabaseError", text)
    case FromQueryError(error) =>
      QueryError(error.code, error.errno, error.syscall, error.sqlState, error.stack,
                 error.fatal, error.name, error.message)
  }

  /** A `DatabaseError` is itself a `QueryError`: wrapping it again changes nothing. */
  lemma DatabaseErrorRewrap(source: DatabaseErrorSource, settings: Settings)
    ensures NewDatabaseError(FromQueryError(NewDatabaseError(source, settings)), settings)
         == NewDatabaseError(source, settings)
  {
  }
}

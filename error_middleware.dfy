/** The error middleware: the classification of store errors into
    application errors (`formatMongooseError`), the choice of the error a
    response reports (`errorHandler`), and the response it writes. Controllers'
    failures reach the client through `Reject`, which is that response's
    status and message. */
module ErrorMiddleware {
  import opened Common
  import Text

  const ResourceNotFound := "Resource not found"
  const DuplicateFallback := "Duplicate field value entered"
  const InternalServerError := "Internal Server Error"

  /** The duplicate-key message: the offending fields joined by ", ", with
      "field" or "fields" by their number. */
  function DuplicateMessage(fields: seq<string>): string {
    if |fields| > 0 then
      "Duplicate value for field" + (if |fields| > 1 then "s" else "") + ": " + Text.Join(fields, ", ")
    else
      DuplicateFallback
  }

  /** `formatMongooseError(err)`: a cast error first, then a duplicate key,
      then a validation error; anything else is not a store error (null). */
  function FormatMongooseError(err: ErrorObject): Option<ErrorObject> {
    if err.name == "CastError" then
      Some(NewAppError(ResourceNotFound, 404))
    else if err.code == Some(11000) then
      Some(NewAppError(DuplicateMessage(err.keyFields), 400))
    else if err.name == "ValidationError" then
      Some(NewAppError(Text.Join(err.fieldMessages, ", "), 400))
    else
      None
  }

  /** The error `errorHandler` reports: the mapped store error, else the
      AppError itself, else a new AppError with the error's message (or
      "Internal Server Error" when it is empty) and its status code. */
  function ResolveError(err: ErrorObject): ErrorObject {
    match FormatMongooseError(err)
    case Some(mapped) => mapped
    case None =>
      if err.isAppError then err
      else AppErrorOf(if err.message != "" then err.message else InternalServerError, err.statusCode)
  }

  /** `appError.statusCode || 500`. */
  function StatusOf(appError: ErrorObject): int {
    match appError.statusCode
    case Some(s) => if s != 0 then s else 500
    case None => 500
  }

  datatype ErrorBody = ErrorBody(success: bool, message: string, stack: Option<string>)
  datatype ErrorResponse = ErrorResponse(status: int, body: ErrorBody)

  /** `errorHandler(err, req, res, next)`; `nodeEnv` is `process.env.NODE_ENV`.
      The stack reported is the original error's. */
  function ErrorHandler(err: ErrorObject, nodeEnv: Option<string>): ErrorResponse {
    var appError := ResolveError(err);
    ErrorResponse(StatusOf(appError),
      ErrorBody(false, appError.message, if nodeEnv != Some("production") then Some(err.stack) else None))
  }

  /** What a controller answers: a success with its status and body, or the
      status and message of the error response. */
  datatype Reply<T> = Sent(status: int, body: T) | Rejected(status: int, message: string)

  /** A thrown or forwarded error as the client sees it. */
  function Reject<T>(err: ErrorObject): Reply<T> {
    var response := ErrorHandler(err, None);
    Rejected(response.status, response.body.message)
  }

  /** A controller's `next(new AppError(message, status))` as the client
      sees it: the handler passes an application error through with its own
      status and message. */
  function Throw<T>(message: string, status: int): (r: Reply<T>)
    requires status != 0
    ensures r == Rejected(status, message)
  {
    Reject(NewAppError(message, status))
  }

  // ---------------------------------------------------------------------
  // Properties

  /** What the client receives for any error, in any environment: a
      non-zero status and `success: false`, with the original stack exactly
      outside production. A cast error is recognised before anything else,
      whatever its code, as 404 "Resource not found"; a duplicate key or a
      validation error is a 400; any other error keeps its own non-zero
      status (else 500) and its message, which for an unexpected error
      falls back to "Internal Server Error" when empty. */
  lemma ClientReply(err: ErrorObject, nodeEnv: Option<string>)
    ensures var r := ErrorHandler(err, nodeEnv);
      && r.status != 0 && !r.body.success
      && (r.body.stack.Some? <==> nodeEnv != Some("production"))
      && (r.body.stack.Some? ==> r.body.stack.value == err.stack)
    ensures err.name == "CastError" ==>
      ErrorHandler(err, nodeEnv).status == 404 && ErrorHandler(err, nodeEnv).body.message == ResourceNotFound
    ensures err.name != "CastError" && (err.code == Some(11000) || err.name == "ValidationError") ==>
      ErrorHandler(err, nodeEnv).status == 400
    ensures err.name != "CastError" && err.code != Some(11000) && err.name != "ValidationError" ==>
      && ErrorHandler(err, nodeEnv).status == (if err.statusCode.Some? && err.statusCode.value != 0 then err.statusCode.value else 500)
      && ErrorHandler(err, nodeEnv).body.message == (if err.isAppError || err.message != "" then err.message else InternalServerError)
  {
  }

  /** A duplicate key (that is not a cast error) is a 400 whose message names
      each offending field, singular for one field, plural for several, with
      a fixed fallback when the key set is empty. */
  lemma DuplicateKeyMapping(err: ErrorObject)
    requires err.name != "CastError" && err.code == Some(11000)
    ensures FormatMongooseError(err) == Some(NewAppError(DuplicateMessage(err.keyFields), 400))
    ensures |err.keyFields| == 0 ==> DuplicateMessage(err.keyFields) == DuplicateFallback
    ensures |err.keyFields| == 1 ==> DuplicateMessage(err.keyFields) == "Duplicate value for field: " + err.keyFields[0]
    ensures |err.keyFields| > 1 ==> Text.IsPrefix("Duplicate value for fields: ", DuplicateMessage(err.keyFields))
    ensures forall k :: 0 <= k < |err.keyFields| ==> Text.IsInfix(err.keyFields[k], DuplicateMessage(err.keyFields))
  {
    var fields := err.keyFields;
    if |fields| > 0 {
      var prefix := "Duplicate value for field" + (if |fields| > 1 then "s" else "") + ": ";
      var joined := Text.Join(fields, ", ");
      assert DuplicateMessage(fields) == prefix + joined;
      forall k | 0 <= k < |fields| ensures Text.IsInfix(fields[k], DuplicateMessage(fields)) {
        Text.JoinContainsEach(fields, ", ", k);
        var i :| Text.InfixAt(fields[k], joined, i);
        assert (prefix + joined)[|prefix| + i..|prefix| + i + |fields[k]|] == joined[i..i + |fields[k]|];
        assert Text.InfixAt(fields[k], prefix + joined, |prefix| + i);
      }
      if |fields| > 1 {
        assert (prefix + joined)[..|prefix|] == prefix;
      }
    }
  }

  /** A validation error (neither cast nor duplicate) is a 400 whose message
      is the per-field messages joined by ", ". */
  lemma ValidationMapping(err: ErrorObject)
    requires err.name == "ValidationError" && err.code != Some(11000)
    ensures FormatMongooseError(err) == Some(NewAppError(Text.Join(err.fieldMessages, ", "), 400))
    ensures forall k :: 0 <= k < |err.fieldMessages| ==> Text.IsInfix(err.fieldMessages[k], Reject<()>(err).message)
    ensures Reject<()>(err).status == 400
  {
    forall k | 0 <= k < |err.fieldMessages| ensures Text.IsInfix(err.fieldMessages[k], Reject<()>(err).message) {
      Text.JoinContainsEach(err.fieldMessages, ", ", k);
    }
  }

  /** A controller's `next(new AppError(message, status))` reaches the client
      as that status and message, in every environment. */
  lemma AppErrorPassesThrough(message: string, status: int, nodeEnv: Option<string>)
    requires status != 0
    ensures Reject<()>(NewAppError(message, status)) == Rejected(status, message)
    ensures ErrorHandler(NewAppError(message, status), nodeEnv).status == status
  {
  }
}

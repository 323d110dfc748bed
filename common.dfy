/** Values shared by every layer of the backend: optional values, store
    identifiers, the result of JavaScript's `Number(...)` coercion and the
    JavaScript `Error` objects that the store and the controllers raise. */
module Common {

  datatype Option<+T> = None | Some(value: T) {
    function GetOr(default: T): T {
      match this
      case Some(v) => v
      case None => default
    }
  }

  /** An optional string path of a document, or a string field of a request
      body: not set (`undefined`), set to `null`, or a string. Mongoose
      stores `null` as a value of its own, distinct from a missing path. */
  datatype OptString = Undefined | Null | Str(value: string)

  /** The outcome of a store operation: its value, or the error it raises. */
  datatype Result<T> = Ok(value: T) | Err(error: ErrorObject)

  /** A store identifier (an ObjectId). */
  type Id = nat

  /** An identifier as it arrives in a request path: either in the store's
      identifier format, or not. */
  datatype RawId = Wellformed(id: Id) | Malformed(text: string)

  /** `mongoose.Types.ObjectId.isValid`. */
  predicate IsValidId(raw: RawId) {
    raw.Wellformed?
  }

  /** The outcome of JavaScript's `Number(x)`: NaN, or a finite number.
      (`Infinity` is not representable: as a rating it fails the range
      check like any value above 5, but as a year it would be stored.) */
  datatype Num = NaN | Finite(value: real)

  /** `Number(x)` of a request-body field that may be absent: `Number(undefined)` is NaN. */
  function NumberOf(field: Option<Num>): Num {
    match field
    case None => NaN
    case Some(v) => v
  }

  /** A JavaScript `Error` value as the error middleware inspects it:
      `name`, mongo's numeric `code`, the keys of a duplicate-key error's
      `keyValue`, the messages of a validation error's `errors`, `message`,
      `statusCode`, whether it is an `AppError`, and `stack`. */
  datatype ErrorObject = ErrorObject(
    name: string,
    code: Option<int>,
    keyFields: seq<string>,
    fieldMessages: seq<string>,
    message: string,
    statusCode: Option<int>,
    isAppError: bool,
    stack: string)

  /** `new AppError(message, statusCode)`, where `statusCode` may be
      undefined. (The AppError class keeps Error's name.) */
  function AppErrorOf(message: string, statusCode: Option<int>): ErrorObject {
    ErrorObject("Error", None, [], [], message, statusCode, true, "")
  }

  /** `new AppError(message, statusCode)` with a status. */
  function NewAppError(message: string, statusCode: int): ErrorObject {
    AppErrorOf(message, Some(statusCode))
  }

  /** The error mongoose raises when a malformed id is cast to an ObjectId. */
  function CastErrorOf(value: string): ErrorObject {
    ErrorObject("CastError", None, [], [], "Cast to ObjectId failed for value \"" + value + "\"", None, false, "")
  }

  /** The error mongo raises when an insert or save violates a unique index. */
  function DuplicateKeyErrorOf(keys: seq<string>): ErrorObject {
    ErrorObject("MongoServerError", Some(11000), keys, [], "E11000 duplicate key error", None, false, "")
  }

  /** The error mongoose raises when a document fails schema validation. */
  function ValidationErrorOf(messages: seq<string>): ErrorObject {
    ErrorObject("ValidationError", None, [], messages, "Validation failed", None, false, "")
  }
}

/** Vocabulary shared by every service: optional values, results, and the
    exceptions the services raise, each with the message it carries. */
module Common {

  /** Row identifiers. The database allocates them in creation order. */
  type Id = nat

  datatype Option<+T> = None | Some(value: T) {
    function GetOr(default: T): T {
      match this
      case Some(v) => v
      case None => default
    }
  }

  /** The kinds of exception a service can end with. */
  datatype Error =
    | Conflict(message: string)      // ConflictException (HTTP 409)
    | Unauthorized(message: string)  // UnauthorizedException (HTTP 401)
    | NotFound(message: string)      // NotFoundException (HTTP 404)
    | Forbidden(message: string)     // ForbiddenException (HTTP 403)
    | Failure(message: string)       // a plain Error, or one thrown by a library
    | DatabaseError(code: string)    // an error thrown by the database client

  datatype Result<+T> = Ok(value: T) | Err(error: Error) {
    predicate IsFailure() { Err? }

    function PropagateFailure<U>(): Result<U>
      requires Err?
    {
      Err(error)
    }

    function Extract(): T
      requires Ok?
    {
      value
    }
  }

  /** Database client error codes: an update or delete that finds no row,
      and a write that breaks a unique constraint. */
  const RecordNotFound := "P2025"
  const UniqueViolation := "P2002"

  /** The Forbidden message every ownership guard raises. */
  const MsgAccessDenied := "Access denied"

  /** JavaScript truthiness of an optional string: null, undefined and ""
      are falsy, every other string is truthy. */
  predicate Truthy(s: Option<string>) {
    s.Some? && s.value != ""
  }

  /** The value `${s}` prints inside a template string. */
  function Interpolate(s: Option<string>): string {
    match s
    case Some(v) => v
    case None => "undefined"
  }
}

/** Values shared by every layer of the course-registration model. */
module Common {

  /** JavaScript's `undefined`/`null` against a present value. */
  datatype Option<+T> = None | Some(value: T) {
    /** `x ?? d` */
    function GetOr(default: T): T {
      match this
      case Some(v) => v
      case None => default
    }
  }

  /** The reply of a handler that changes nothing: an error status, or 200 with a body. */
  datatype Reply<+T> = Failure(code: int) | Success(body: T)

  /** A document identifier (a MongoDB ObjectId in its string form). */
  type Id = string

  /** Wall-clock instants, in milliseconds since the epoch (`Date.now()`). */
  type Instant = int

  function Min(a: int, b: int): int { if a <= b then a else b }

  function Max(a: int, b: int): int { if a >= b then a else b }
}

/** Small shared vocabulary: optional values, results, identifiers. */
module Base {

  datatype Option<+T> = None | Some(value: T) {
    function GetOr(default: T): T {
      match this
      case Some(v) => v
      case None => default
    }
  }

  datatype Result<+R, +E> = Success(value: R) | Failure(error: E)

  /** Primary keys are opaque tokens (UUIDs for products, integers for users). */
  type ProductId = nat
  type UserId = nat

  /** Calendar dates are day numbers; timestamps are seconds. */
  type Day = int
  type Instant = int

  const SecondsPerDay: int := 86400
}

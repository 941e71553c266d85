/** Shared vocabulary of the catalog model: record identifiers, the
    failure-compatible wrappers, and the error kinds the two services raise. */
module Common {

  /** An opaque record identifier (a MongoDB ObjectId in the service). */
  type Id = nat

  datatype Option<+T> = None | Some(value: T) {
    function GetOr(default: T): T {
      match this
      case Some(v) => v
      case None => default
    }
  }

  datatype Result<+R, +E> = Success(value: R) | Failure(error: E)

  /** The failures the services report.  `NoJoinedCategory` is the TypeError
      raised when the discount aggregate returns no rows and `data[0]` is
      undefined; `NegativeSkip` is the database's refusal of a negative skip;
      `ValidationFailed` is the schema's refusal, on `create` or `save`, of a
      document whose required string field is empty. */
  datatype Error =
    | ProductNotFound
    | ProductDuplicateCode
    | CategoryNotFound
    | NoJoinedCategory
    | NegativeSkip
    | ValidationFailed

  /** The value a document field takes after `doc.set(body)`: the supplied
      value when the body carries the key, the stored value otherwise. */
  function Overwrite<T>(stored: T, supplied: Option<T>): (r: T)
    ensures supplied.None? ==> r == stored
    ensures supplied.Some? ==> r == supplied.value
  {
    supplied.GetOr(stored)
  }
}

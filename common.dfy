/** Values shared by every service: optional values, results, and the error kinds the services raise. */
module Common {

  /** Record identities. Prisma generates them; the model draws them from a counter. */
  type Id = nat

  datatype Option<+T> = None | Some(value: T)

  datatype Result<+T, +E> = Success(value: T) | Failure(error: E)

  /** How a Prisma call can fail: P2025 (record to update not found), P2002 (unique constraint), anything else. */
  datatype StoreFault = NotFound | UniqueViolation | Other

  /** The exceptions the services throw. `StoreError` is a persistence error that a service lets through
      without wrapping it in an HTTP exception. */
  datatype Error =
    | BadRequest(message: string)
    | Forbidden(message: string)
    | Unauthorized(message: string)
    | InternalServerError
    | StoreError(fault: StoreFault)

  /** JavaScript truthiness of an optional string property: present and not empty. */
  predicate Truthy(s: Option<string>)
  {
    s.Some? && s.value != ""
  }
}

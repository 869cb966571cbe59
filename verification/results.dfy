/** Optional values, results and the errors the service reports. */
module Results {

  datatype Option<+T> = None | Some(value: T)

  /** Python truthiness of an optional string, as attrs.get() or query_params.get() return it: present and non-empty. */
  predicate Truthy(v: Option<string>)
  {
    v.Some? && v.value != ""
  }

  /** A value, or the error that stopped the request. */
  datatype Result<+T> = Ok(value: T) | Err(error: Error)

  /** A request that either went through or failed with an error. */
  datatype Outcome = Pass | Fail(error: Error)

  /**
   * The ValidationError messages raised by the serializers' validate() methods,
   * and the one of the validator DRF generates for unique_together.
   */
  datatype Reason =
    | PasswordsDontMatch
    | MissingCredentials
    | InvalidCredentials
    | AccountDisabled
    | AlreadyAssigned
    | NotOwnPatient
    | PairNotUnique

  datatype Error =
      /** A serializer's validate() raised ValidationError. */
    | ValidationError(reason: Reason)
      /** Field-level validation rejected the named fields; validate() was not reached. */
    | FieldErrors(fields: set<string>)
      /** get_object_or_404 found no row that the caller may see. */
    | NotFound
      /** The storage layer refused the write (a unique constraint). */
    | IntegrityError

  /** The text each ValidationError carries. */
  function Message(r: Reason): (m: string)
    ensures m != []
  {
    match r
    case PasswordsDontMatch => "Passwords don't match"
    case MissingCredentials => "Must provide username and password"
    case InvalidCredentials => "Invalid credentials"
    case AccountDisabled => "User account is disabled"
    case AlreadyAssigned => "This doctor is already assigned to this patient"
    case NotOwnPatient => "You can only assign doctors to your own patients"
    case PairNotUnique => "The fields patient, doctor must make a unique set."
  }
}

/** Small value types shared by every module: optional values, "was this field
    sent" markers for partial updates, and the HTTP error a handler raises. */
module Wrappers {

  datatype Option<+T> = None | Some(value: T)

  /** A field of a partial-update payload: left out of the request (`Unset`),
      or sent with a value (`Set`). Mirrors `model_dump(exclude_unset=True)`. */
  datatype Field<+T> = Unset | Set(value: T)

  /** The value a field ends up with after a partial update. */
  function Apply<T>(f: Field<T>, current: T): T
  {
    match f
    case Unset => current
    case Set(v) => v
  }

  /** Python truthiness of an optional string: present and non-empty. */
  predicate Truthy(s: Option<string>)
  {
    s.Some? && s.value != ""
  }

  /** Python truthiness of an optional integer: present and not zero. */
  predicate NonZero(n: Option<int>)
  {
    n.Some? && n.value != 0
  }

  /** An `HTTPException` (status code and detail text). */
  datatype HttpError = HttpError(status: int, detail: string)

  /** What the web framework answers when an exception escapes a handler. */
  const InternalServerError := HttpError(500, "Internal Server Error")

  datatype Result<+T> = Ok(value: T) | Err(error: HttpError)
}

/**
 * Small shared datatypes: an optional value (JavaScript `undefined`/`null`
 * versus a present value), the truthiness of an optional string, and the
 * outcome of an HTTP handler as a status code with either a JSON value or
 * an error message.
 */
module Common {

  datatype Option<T> = None | Some(value: T) {
    /** The value when present, else `default` (JavaScript `x ?? default`). */
    function GetOr(default: T): T {
      if Some? then value else default
    }

    /** This option when present, else `other` (an object spread: a later key wins). */
    function Or(other: Option<T>): Option<T> {
      if Some? then this else other
    }
  }

  /** JavaScript truthiness of an optional string: present and not empty. */
  predicate Truthy(s: Option<string>) {
    s.Some? && s.value != ""
  }

  /** What a handler sends: `res.status(status).json(value)` or `{ message }`. */
  datatype Response<T> = Success(status: nat, value: T) | Failure(status: nat, message: string)

  const INTERNAL_ERROR := "Internal server error"
}

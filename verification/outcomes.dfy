/**
 The answer shapes shared by every request handler of the backend: optional
 request fields, the HTTP failures a handler can answer with, and the pair
 (state after the request, result) returned by handlers that write to the
 document store.
 */
module Outcomes {

  /** An optional value, used for request-body fields that may be absent. */
  datatype Option<+T> = None | Some(value: T)

  /** The error responses of the handlers. `ServerError` is the catch-all 500
      answer, reached when a handler dereferences a record the store did not
      return. */
  datatype Failure =
    | BadRequest(message: string)
    | Unauthorized(message: string)
    | Forbidden(message: string)
    | NotFound(message: string)
    | ServerError

  /** What a handler answers: a value or a failure. */
  datatype Result<+T> = Ok(value: T) | Fail(failure: Failure)

  /** The state of one collection after a request, together with the answer. */
  datatype Transition<S, +T> = Transition(after: S, result: Result<T>)

  /** JavaScript truthiness of an optional string field: absent and empty
      strings are both falsy. */
  predicate Present(o: Option<string>) {
    o.Some? && o.value != ""
  }

  /** `o || d` for an optional string field. */
  function OrElse(o: Option<string>, d: string): (r: string)
    ensures Present(o) ==> r == o.value
    ensures !Present(o) ==> r == d
  {
    if Present(o) then o.value else d
  }
}

/** Shared vocabulary of the task tracker's server: document ids, optional
    values, the JavaScript notion of a "present" body field, and the HTTP
    reply every controller answers with. */
module Common {

  /** A document id (a MongoDB ObjectId), abstracted to a natural number. */
  type Id = nat

  datatype Option<+T> = None | Some(value: T)

  /** The outcome of a schema validation: the validated document, or the
      reason the store refused it. */
  datatype Result<+T> = Success(value: T) | Failure(error: string)

  /** An id taken from a URL path segment. A segment that is not a well-formed
      ObjectId makes the store's cast fail before any lookup happens. */
  datatype PathId = WellFormed(id: Id) | Malformed

  /** A field of a JSON request body, seen through JavaScript truthiness:
      absent (`undefined`), present but falsy (`null`, `""`, `0`, `false`),
      or present with a truthy value. */
  datatype Presence<+T> = Absent | Falsy | Given(value: T)

  /** The answer a route handler sends: a status code with a body, or a status
      code with the `{ error: message }` body. */
  datatype Reply<+B> =
    | Ok(code: int, body: B)
    | Err(code: int, message: string)

  /** JavaScript truthiness of a query-string parameter: present and non-empty. */
  predicate Truthy(p: Option<string>)
  {
    p.Some? && p.value != ""
  }

  /** A handler's reply together with the state of the collection it works
      on once the request is done. */
  datatype Handled<+B, +S> = Handled(reply: Reply<B>, state: S)
}

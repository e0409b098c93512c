/**
 * Vocabulary shared by the whole model: optional values, the ids the store
 * hands out, request-body fields and HTTP replies.
 */
module Base {

  datatype Option<T> = None | Some(value: T)

  /** MongoDB ObjectIds, modelled as naturals issued by the store. */
  type Id = nat

  /**
   * A field of a request body, a query string or a handshake payload, as a
   * zod schema sees it: missing (`undefined`), present with the expected
   * type, or present with some other type (`null`, a number, an object ...).
   */
  datatype Field<T> = Absent | Given(value: T) | Mistyped

  /** An HTTP reply: a status code with a JSON body, or a status code with `{ error }`. */
  datatype Reply<T> = Ok(status: int, value: T) | Fail(status: int, error: string)

  const InvalidInput := "Invalid input data"
  const ServerError := "Server error"
}

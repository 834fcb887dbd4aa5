/** What a route handler does with a request: answer it, or pass an error to `next`. */
module Http {
  import opened ObjectIds

  /** The JSON body of a response. */
  datatype Payload<+T> =
    | ErrorJson(error: string)               // `{ error: message }`
    | Saved(id: ObjectId, record: T)         // a stored document
    | NullJson                               // `null`
    | NoBody                                 // `response.end()`

  datatype Response<+T, +E> =
    | Sent(status: nat, payload: Payload<T>)
    | Forwarded(cause: E)                    // `next(error)`: the error middleware answers
}

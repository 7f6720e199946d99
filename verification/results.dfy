/** Failure-carrying values shared by the model of the thread handler.

    The handler signals errors by throwing; the model returns them instead.
    A `Rejected` failure carries the message the handler throws, which the
    routes send back to the client verbatim.  A `Fault` is the TypeError the
    handler raises when it dereferences a missing document. */
module Results {

  /** An optional value: `None` stands for JavaScript's `null` / `undefined`. */
  datatype Option<+T> = None | Some(value: T)

  datatype Failure =
    | Rejected(message: string)
    | Fault

  datatype Result<+T> = Ok(value: T) | Err(failure: Failure)
}

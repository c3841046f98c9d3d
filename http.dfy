/** Values shared by the controllers: Java's nullable references and Optional, and HTTP outcomes
    reduced to their status (headers, message texts and URIs are not modelled). */
module Http {

  /** A nullable Java reference or a `java.util.Optional`. */
  datatype Option<+T> = None | Some(value: T)

  /** The status of a `ResponseEntity`, with its body where the controller sends one. */
  datatype Response<+B> =
    | Ok(body: B)           // 200
    | Created(body: B)      // 201
    | NoContent             // 204
    | BadRequest            // 400, also a failed `@Valid` check
    | NotFound              // 404
    | Conflict              // 409

  /** One sequential request against a store: the store afterwards and the response sent. */
  datatype Step<+S, +B> = Step(state: S, response: Response<B>)
}

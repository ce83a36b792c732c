/** Types shared by the request handlers: exceptions the framework turns into
    HTTP responses, and the three ways a handler can finish. */
module Http {

  datatype Option<+T> = None | Some(value: T)

  datatype Header = Header(name: string, value: string)

  /** An `HTTPException`: status code, optional detail text, extra headers. */
  datatype HttpError = HttpError(status: nat, detail: Option<string>, headers: seq<Header>)

  /** A handler either returns a response, raises an `HTTPException`, or lets
      some other exception escape (named by its Python class). */
  datatype Outcome<+R> = Respond(response: R) | Raise(error: HttpError) | Crash(exception: string)
}

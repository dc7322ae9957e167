/** The optional value used wherever a lookup may find nothing. */
module Wrappers {
  datatype Option<+T> = None | Some(value: T)
}

/**
  The HTTP values the worker handles. Headers, Vary matching and bodies as
  byte streams are not modelled: a response is its status, its status text
  and its body as text.
 */
module Http {

  /** A response as the worker sees it. */
  datatype Response = Response(status: int, statusText: string, body: string)

  /** An intercepted request: its method, its URL and what it is fetched for
      ("document", "image", "audio", ...). */
  datatype Request = Request(httpMethod: string, url: string, destination: string)

  /** What one call to the network does: it resolves with a response of any
      status, or it rejects (no connection). */
  datatype NetOutcome = Fetched(response: Response) | NetworkError
}

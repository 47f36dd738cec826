/** Values exchanged between pages, the worker, the network and the cache. */
module Http {

  datatype Option<T> = None | Some(value: T)

  /** A request as the cache keys it: its method (verb) and its URL. */
  datatype Request = Request(verb: string, url: string)

  /** A response: the status code and an opaque body. */
  datatype Response = Response(status: int, body: seq<bv8>)

  /** What one network fetch settles to: a response, or a rejection. */
  datatype NetResult = Received(response: Response) | Failed(reason: string)
}

/** What the route handlers send back, and the pair of new collection and
    response that each handler produces. */
module Http {
  import opened Wrappers
  import opened UrlModel

  /** The `expiresAt` of a response: the date (sent as its ISO string) or
      the text "No expiration set". */
  datatype ExpiryView = NoExpirationSet | ExpiresOn(time: int)

  /** `expiresAt ? expiresAt.toISOString() : "No expiration set"`. */
  function Display(expiresAt: Option<int>): (v: ExpiryView)
    ensures v.NoExpirationSet? <==> expiresAt.None?
    ensures v.ExpiresOn? ==> v.time == expiresAt.value
  {
    match expiresAt
    case None => NoExpirationSet
    case Some(time) => ExpiresOn(time)
  }

  /** Responses of the three handlers. `category` is `None` where a handler
      does not report one. */
  datatype Response =
    | Created(originalUrl: string, shortUrl: string, category: Option<string>, expiresAt: ExpiryView)
    | BadRequest
    | ServerError
    | NotFound
    | Gone
    | Redirect(location: string)
    | Stats(originalUrl: string, shortUrl: string, category: Option<string>,
            clicks: nat, createdAt: int, expiresAt: ExpiryView)

  /** The HTTP status each response is sent with (`res.redirect` uses 302). */
  function Status(r: Response): int {
    match r
    case Created(_, _, _, _) => 201
    case BadRequest => 400
    case ServerError => 500
    case NotFound => 404
    case Gone => 410
    case Redirect(_) => 302
    case Stats(_, _, _, _, _, _) => 200
  }

  /** The collection after a request, and the response to it. */
  datatype Outcome = Outcome(table: Table, response: Response)
}

/** The router that the server mounts under `/api`: `POST /shorten`,
    `GET /:shortUrl` and `GET /analytics/:shortUrl`, each as a function from
    the collection and the request to the new collection and the response
    (its specification) and as a method that updates the collection in place
    the way the handler does. */
module UrlRoutes {
  import opened Wrappers
  import opened UrlModel
  import opened Http

  /** `setDate(getDate() + n)` moves a date by `n` days. */
  const MillisPerDay: int := 86_400_000

  /** `originalUrl` of the request body, as JSON delivers it. */
  datatype UrlField = Missing | NotAString | Text(s: string)

  /** The handler's guard `!originalUrl || typeof originalUrl !== "string"`
      fails: a present, non-empty string. */
  predicate IsValidUrl(f: UrlField) {
    f.Text? && f.s != ""
  }

  /** `expiresAt` as computed from `expiresIn` at time `now`. `expiresIn` is
      `None` when absent, null or not numeric; `Some(0)` is falsy. A result
      outside the `Date` range stands for an Invalid Date. */
  function ExpiryFrom(expiresIn: Option<int>, now: int): (e: Option<int>)
    ensures e.None? <==> expiresIn.None? || expiresIn.value == 0
    ensures e.Some? ==> e.value - now == expiresIn.value * MillisPerDay
    ensures e.Some? ==> (e.value < now <==> expiresIn.value < 0)
  {
    if expiresIn.Some? && expiresIn.value != 0 then Some(now + expiresIn.value * MillisPerDay)
    else None
  }

  /** A computed `expiresAt` is null or a valid date; otherwise it is an
      Invalid Date, which the save rejects. */
  predicate InRange(expiresAt: Option<int>) {
    expiresAt.None? || IsDate(expiresAt.value)
  }

  /** `url.expiresAt && new Date() > url.expiresAt`. */
  predicate Expired(r: Record, now: int) {
    r.expiresAt.Some? && now > r.expiresAt.value
  }

  /** `POST /shorten` with the generated code `code` at time `now`. */
  function ShortenStep(t: Table, originalUrl: UrlField, expiresIn: Option<int>,
                       code: string, now: int): (o: Outcome)
    requires ValidTable(t)
    ensures ValidTable(o.table)
    ensures !IsValidUrl(originalUrl) ==> o == Outcome(t, BadRequest)
    ensures IsValidUrl(originalUrl) && (code in t || !InRange(ExpiryFrom(expiresIn, now))) ==>
      o == Outcome(t, ServerError)
    ensures o.response.Created? <==>
      IsValidUrl(originalUrl) && code !in t && InRange(ExpiryFrom(expiresIn, now))
    ensures o.response.Created? ==>
      && o.table.Keys == t.Keys + {code}
      && (forall k | k in t :: o.table[k] == t[k])
      && o.table[code] == Record(originalUrl.s, code, 0, now, ExpiryFrom(expiresIn, now), Uncategorized)
      && o.response == Created(originalUrl.s, code, None, Display(ExpiryFrom(expiresIn, now)))
  {
    if !IsValidUrl(originalUrl) then Outcome(t, BadRequest)
    else
      var expiresAt := ExpiryFrom(expiresIn, now);
      var doc := NewRecord(originalUrl.s, code, expiresAt, None, now);
      if code in t || !Castable(doc) then Outcome(t, ServerError)
      else Outcome(t[code := doc], Created(originalUrl.s, code, None, Display(expiresAt)))
  }

  method Shorten(urls: Collection, originalUrl: UrlField, expiresIn: Option<int>,
                 code: string, now: int) returns (res: Response)
    requires urls.Valid()
    modifies urls
    ensures urls.Valid()
    ensures Outcome(urls.docs, res) == ShortenStep(old(urls.docs), originalUrl, expiresIn, code, now)
  {
    if !IsValidUrl(originalUrl) {
      return BadRequest;
    }
    var expiresAt: Option<int> := None;
    if expiresIn.Some? && expiresIn.value != 0 {
      expiresAt := Some(now + expiresIn.value * MillisPerDay);
    }
    var doc := NewRecord(originalUrl.s, code, expiresAt, None, now);
    var saved := urls.Insert(doc);
    if !saved {
      return ServerError;
    }
    res := Created(originalUrl.s, doc.shortUrl, None, Display(expiresAt));
  }

  /** `GET /:shortUrl` at time `now`. */
  function ResolveStep(t: Table, code: string, now: int): (o: Outcome)
    requires ValidTable(t)
    ensures ValidTable(o.table)
    ensures code !in t ==> o == Outcome(t, NotFound)
    ensures code in t && Expired(t[code], now) ==>
      && o.response == Gone
      && o.table.Keys == t.Keys - {code}
      && (forall k | k in o.table :: o.table[k] == t[k])
    ensures code in t && !Expired(t[code], now) ==>
      && o.response == Redirect(t[code].originalUrl)
      && o.table.Keys == t.Keys
      && o.table[code].clicks == t[code].clicks + 1
      && o.table[code] == t[code].(clicks := o.table[code].clicks)
      && (forall k | k in t && k != code :: o.table[k] == t[k])
  {
    if code !in t then Outcome(t, NotFound)
    else
      var url := t[code];
      if url.expiresAt.Some? && now > url.expiresAt.value then Outcome(t - {code}, Gone)
      else Outcome(t[code := url.(clicks := url.clicks + 1)], Redirect(url.originalUrl))
  }

  method Resolve(urls: Collection, code: string, now: int) returns (res: Response)
    requires urls.Valid()
    modifies urls
    ensures urls.Valid()
    ensures Outcome(urls.docs, res) == ResolveStep(old(urls.docs), code, now)
  {
    var found := urls.FindOne(code);
    if found.None? {
      return NotFound;
    }
    var url := found.value;
    if url.expiresAt.Some? && now > url.expiresAt.value {
      urls.DeleteOne(code);
      return Gone;
    }
    // `url.clicks++` on the loaded copy, then `url.save()`.
    var saved := urls.SetClicks(code, url.clicks + 1);
    assert saved;
    res := Redirect(url.originalUrl);
  }

  /** `GET /analytics/:shortUrl`: the stored fields, without a category. */
  function AnalyticsView(t: Table, code: string): (r: Response)
    ensures r.NotFound? <==> code !in t
    ensures code in t ==>
      && r.Stats?
      && r.originalUrl == t[code].originalUrl
      && r.shortUrl == t[code].shortUrl
      && r.category.None?
      && r.clicks == t[code].clicks
      && r.createdAt == t[code].createdAt
      && r.expiresAt == Display(t[code].expiresAt)
  {
    if code !in t then NotFound
    else
      var url := t[code];
      Stats(url.originalUrl, url.shortUrl, None, url.clicks, url.createdAt, Display(url.expiresAt))
  }

  /** Reads the collection and never changes it, even for a document that
      has expired but has not been swept. */
  method Analytics(urls: Collection, code: string) returns (res: Response)
    requires urls.Valid()
    ensures res == AnalyticsView(urls.docs, code)
  {
    var found := urls.FindOne(code);
    if found.None? {
      return NotFound;
    }
    var url := found.value;
    res := Stats(url.originalUrl, url.shortUrl, None, url.clicks, url.createdAt, Display(url.expiresAt));
  }
}

/** The router in the repository's root directory: the same three routes,
    where `POST /shorten` also tags the document with a topic category and
    `GET /analytics/:shortUrl` reports it. The category comes from fetching
    the page and running a trained text classifier over its title and meta
    description; both are given here as inputs. */
module CategorizedRoutes {
  import opened Wrappers
  import opened UrlModel
  import opened Http
  import opened UrlRoutes

  /** The labels of the classifier's training corpus. */
  datatype Label = News | Shopping | Education | Entertainment | SocialMedia | Technology | Health {
    function Name(): string {
      match this
      case News => "News"
      case Shopping => "Shopping"
      case Education => "Education"
      case Entertainment => "Entertainment"
      case SocialMedia => "Social Media"
      case Technology => "Technology"
      case Health => "Health"
    }
  }

  /** Every category a document can be tagged with. */
  const Categories: set<string> :=
    {"News", "Shopping", "Education", "Entertainment", "Social Media", "Technology", "Health", Uncategorized}

  /** What fetching the page (5 s timeout) and loading it into the HTML
      parser gave: a failure of either, or the text of `<title>` and of the
      description meta tag, each "" when missing. */
  datatype Page = FetchFailed | Fetched(title: string, description: string)

  /** `pageTitle + " " + metaDescription`. */
  function SignalText(title: string, description: string): string {
    title + " " + description
  }

  /** `categorizeUrl`: the classifier's label for the page's signal text,
      falling back to "Uncategorized" when the fetch or parse fails or the
      classifier gives no label. `classify` returns `None` for a falsy label
      and for a thrown error. */
  function CategorizeUrl(page: Page, classify: string -> Option<Label>): (c: string)
    ensures c in Categories
    ensures c == Uncategorized <==>
      page.FetchFailed? || classify(SignalText(page.title, page.description)).None?
    ensures page.Fetched? && classify(SignalText(page.title, page.description)).Some? ==>
      c == classify(SignalText(page.title, page.description)).value.Name()
  {
    match page
    case FetchFailed => Uncategorized
    case Fetched(title, description) =>
      match classify(SignalText(title, description))
      case Some(tag) => tag.Name()
      case None => Uncategorized
  }

  /** `POST /shorten` with the generated code `code` at time `now`, where the
      page and classifier decide the category. */
  function ShortenStep(t: Table, originalUrl: UrlField, expiresIn: Option<int>, code: string,
                       now: int, page: Page, classify: string -> Option<Label>): (o: Outcome)
    requires ValidTable(t)
    ensures ValidTable(o.table)
    ensures !IsValidUrl(originalUrl) ==> o == Outcome(t, BadRequest)
    ensures IsValidUrl(originalUrl) && (code in t || !InRange(ExpiryFrom(expiresIn, now))) ==>
      o == Outcome(t, ServerError)
    ensures o.response.Created? <==>
      IsValidUrl(originalUrl) && code !in t && InRange(ExpiryFrom(expiresIn, now))
    ensures o.response.Created? ==>
      && o.table.Keys == t.Keys + {code}
      && (forall k | k in t :: o.table[k] == t[k])
      && o.table[code].category in Categories
      && o.table[code] == Record(originalUrl.s, code, 0, now, ExpiryFrom(expiresIn, now), CategorizeUrl(page, classify))
      && o.response == Created(originalUrl.s, code, Some(o.table[code].category), Display(ExpiryFrom(expiresIn, now)))
  {
    if !IsValidUrl(originalUrl) then Outcome(t, BadRequest)
    else
      var expiresAt := ExpiryFrom(expiresIn, now);
      var category := CategorizeUrl(page, classify);
      var doc := NewRecord(originalUrl.s, code, expiresAt, Some(category), now);
      if code in t || !Castable(doc) then Outcome(t, ServerError)
      else Outcome(t[code := doc], Created(originalUrl.s, code, Some(category), Display(expiresAt)))
  }

  method Shorten(urls: Collection, originalUrl: UrlField, expiresIn: Option<int>, code: string,
                 now: int, page: Page, classify: string -> Option<Label>) returns (res: Response)
    requires urls.Valid()
    modifies urls
    ensures urls.Valid()
    ensures Outcome(urls.docs, res) == ShortenStep(old(urls.docs), originalUrl, expiresIn, code, now, page, classify)
  {
    if !IsValidUrl(originalUrl) {
      return BadRequest;
    }
    var expiresAt: Option<int> := None;
    if expiresIn.Some? && expiresIn.value != 0 {
      expiresAt := Some(now + expiresIn.value * MillisPerDay);
    }
    var category := CategorizeUrl(page, classify);
    var doc := NewRecord(originalUrl.s, code, expiresAt, Some(category), now);
    var saved := urls.Insert(doc);
    if !saved {
      return ServerError;
    }
    res := Created(originalUrl.s, code, Some(category), Display(expiresAt));
  }

  /** `GET /:shortUrl`: this router's handler is the mounted one, line for
      line. */
  method Resolve(urls: Collection, code: string, now: int) returns (res: Response)
    requires urls.Valid()
    modifies urls
    ensures urls.Valid()
    ensures Outcome(urls.docs, res) == ResolveStep(old(urls.docs), code, now)
  {
    res := UrlRoutes.Resolve(urls, code, now);
  }

  /** `GET /analytics/:shortUrl`: the stored fields, with the category read
      as `url.category || "Uncategorized"`. */
  function AnalyticsView(t: Table, code: string): (r: Response)
    ensures r.NotFound? <==> code !in t
    ensures code in t ==>
      && r.Stats?
      && r.originalUrl == t[code].originalUrl
      && r.shortUrl == t[code].shortUrl
      && r.category.Some?
      && (t[code].category != "" ==> r.category.value == t[code].category)
      && (t[code].category == "" ==> r.category.value == Uncategorized)
      && r.clicks == t[code].clicks
      && r.createdAt == t[code].createdAt
      && r.expiresAt == Display(t[code].expiresAt)
  {
    if code !in t then NotFound
    else
      var url := t[code];
      var category := if url.category != "" then url.category else Uncategorized;
      Stats(url.originalUrl, url.shortUrl, Some(category), url.clicks, url.createdAt, Display(url.expiresAt))
  }

  method Analytics(urls: Collection, code: string) returns (res: Response)
    requires urls.Valid()
    ensures res == AnalyticsView(urls.docs, code)
  {
    var found := urls.FindOne(code);
    if found.None? {
      return NotFound;
    }
    var url := found.value;
    var category := if url.category != "" then url.category else Uncategorized;
    res := Stats(url.originalUrl, url.shortUrl, Some(category), url.clicks, url.createdAt, Display(url.expiresAt));
  }
}

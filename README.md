# URL shortener: short-link lifecycle

A Dafny model of the core of a small Express and MongoDB URL shortener. The
model covers the `Url` document schema (`models/Url.js`) and the two copies
of the route handlers: the router the server mounts (`routes/urlRoutes.js`)
and the router in the repository root (`urlRoutes.js`), which also tags each
link with a topic category.

- `wrappers.dfy`: module `Wrappers`, an `Option` type standing for JavaScript's null.
- `url_model.dfy`: module `UrlModel`. It holds the document `Record`, the schema
  defaults (`NewRecord`), and the constraints every stored document meets
  (`ValidTable`): it is stored under its own unique `shortUrl`, has a
  non-empty `originalUrl`, and its `expiresAt` is null or a valid JavaScript
  date (within 8.64e15 ms of the epoch). It also holds the TTL monitor's deletion rule
  (`TtlDue`, `Swept`) and the collection as a class, `Collection`, whose
  methods are the Mongoose calls the handlers make (`findOne`, `save` of a
  new document, `save` of a changed `clicks`, `deleteOne`), plus one pass of
  the TTL monitor.
- `http.dfy`: module `Http`, the responses with their HTTP statuses, and how
  `expiresAt` is shown ("No expiration set" or a date).
- `url_routes.dfy`: module `UrlRoutes`, the mounted router. Each handler
  appears twice. A function (`ShortenStep`, `ResolveStep`, `AnalyticsView`)
  maps the collection and the request to the new collection and the
  response, and its `ensures` state what the handler promises. The methods
  `Shorten` and `Resolve` update the `Collection` in place, step by step as
  the handler does, and `Analytics` only reads it; each method is proved
  equal to its function.
- `categorized_routes.dfy`: module `CategorizedRoutes`, the root router.
  `CategorizeUrl` is its fallback policy. The fetched page and the trained
  classifier are inputs to it: a `Page` value and a function from text to an
  optional label.
- `lifecycle.dfy`: module `Lifecycle`, runs of requests and TTL passes over
  the collection. It proves the lifecycle properties: Active, then Expired
  once `now > expiresAt`, then Gone after a resolve or a sweep deletes the
  document.

Times are integers counting milliseconds. `expiresIn` is an optional whole
number of days. The generated short code and the current time are
parameters.

Notes on the code, which the model follows:
- The code has no retry when a generated code collides: a duplicate code
  makes `save` fail, and the handler answers 500.
- The code sets an expiry for any non-zero numeric `expiresIn`, so a
  negative value gives a date already in the past
  (`Lifecycle.PastExpiryIsGone`).
- An `expiresIn` so large that the expiry leaves the JavaScript `Date` range
  gives an Invalid Date; the save rejects it and the handler answers 500
  (`Lifecycle.HugeExpiryFails`).
- The click count is not incremented atomically: the code reads the
  document, increments `clicks` in memory and saves it
  (`Collection.SetClicks`).
- The root `urlRoutes.js` loads the model from `../models/Url`, which, from
  the repository root, is outside the repository. It is also not mounted.
  It is modelled as its code reads.

## Model

| member | source | states |
|---|---|---|
| `UrlModel.ShortUrlUnique` | models/Url.js:6 | two stored documents with the same `shortUrl` are the same document |
| `UrlModel.NewRecord` | models/Url.js:4-12 | a new document keeps the supplied `originalUrl`, `shortUrl` and `expiresAt`; `clicks` is 0 and `createdAt` is the creation time; `category` is "Uncategorized" unless one is supplied |
| `UrlModel.Swept` | models/Url.js:14-15 | a TTL pass removes exactly the documents whose `expiresAt` is set and strictly past; it never removes one with a null `expiresAt`; the documents it keeps are unchanged; it preserves the schema constraints |
| `UrlModel.SweptTwice` | models/Url.js:14-15 | two TTL passes leave what a single pass at the later time leaves, so sweeping is idempotent and order-independent |
| `UrlModel.Collection.FindOne` | routes/urlRoutes.js:46 | returns the document stored under the code, or nothing exactly when the code is absent |
| `UrlModel.Collection.Insert` | models/Url.js:5-6 | saving a new document succeeds exactly when `originalUrl` is non-empty, `expiresAt` is null or a valid date, and `shortUrl` is not yet taken; it adds that one document, and a failed save changes nothing |
| `UrlModel.Collection.SetClicks` | routes/urlRoutes.js:59-60 | saving a loaded document writes back its `clicks` and nothing else |
| `UrlModel.Collection.DeleteOne` | routes/urlRoutes.js:55 | removes the code's document if present; deleting an absent code is not an error |
| `UrlModel.Collection.Sweep` | models/Url.js:14-15 | one pass of the TTL monitor leaves the collection `Swept` describes |
| `Http.Display` | urlRoutes.js:81 | `expiresAt` is shown as "No expiration set" exactly when it is null, and as the stored date otherwise |
| `UrlRoutes.ExpiryFrom` | routes/urlRoutes.js:17-23 | `expiresAt` is null exactly when `expiresIn` is absent, non-numeric or zero; otherwise it lies exactly `expiresIn` days after creation, and before the creation time exactly when `expiresIn` is negative; a value outside the `Date` range stands for an Invalid Date |
| `UrlRoutes.ShortenStep` | routes/urlRoutes.js:8-41 | a missing, non-string or empty URL gives 400 and an unchanged store; a taken code or an expiry outside the `Date` range gives 500 and an unchanged store; otherwise exactly one document is added under the code, with `clicks` 0, the computed `expiresAt` and "Uncategorized", other documents are untouched, and the response echoes the URL, the code and the expiry |
| `UrlRoutes.Shorten` | routes/urlRoutes.js:8-41 | the in-place handler leaves the collection and returns the response that `ShortenStep` gives |
| `UrlRoutes.ResolveStep` | routes/urlRoutes.js:44-67 | an unknown code gives 404 and changes nothing; an expired code (`now > expiresAt`, strictly) is deleted, gives 410 and leaves every other document as it was; an active code, including one at exactly `expiresAt`, gets exactly one more click, nothing else about it or any other document changes, and it redirects to its unchanged `originalUrl` |
| `UrlRoutes.Resolve` | routes/urlRoutes.js:44-67 | the in-place handler leaves the collection and returns the response that `ResolveStep` gives |
| `UrlRoutes.AnalyticsView` | routes/urlRoutes.js:70-90 | 404 exactly for an unknown code; otherwise the stored URL, code, clicks, creation time and expiry, with no category |
| `UrlRoutes.Analytics` | routes/urlRoutes.js:70-90 | reads the collection without modifying it, even when the document has expired and has not been swept, and returns `AnalyticsView` |
| `CategorizedRoutes.CategorizeUrl` | urlRoutes.js:31-49 | the category is always one of the seven training labels or "Uncategorized"; it is "Uncategorized" exactly when the fetch or parse fails or the classifier gives no label, and otherwise it is the classifier's label |
| `CategorizedRoutes.ShortenStep` | urlRoutes.js:52-87 | 400 and 500 as in the mounted router, with the store unchanged; success does not depend on categorisation; on success exactly one document is added with `clicks` 0, the computed expiry and the `CategorizeUrl` category, and the response reports that category |
| `CategorizedRoutes.Shorten` | urlRoutes.js:52-87 | the in-place handler leaves the collection and returns the response that `ShortenStep` gives |
| `CategorizedRoutes.Resolve` | urlRoutes.js:90-113 | the root router's redirect handler behaves exactly as the mounted one, `ResolveStep` |
| `CategorizedRoutes.AnalyticsView` | urlRoutes.js:116-137 | 404 exactly for an unknown code; otherwise the stored fields, with the category reported and an empty category read as "Uncategorized" |
| `CategorizedRoutes.Analytics` | urlRoutes.js:116-137 | reads the collection without modifying it and returns `AnalyticsView` |
| `Lifecycle.Apply` | models/Url.js:4-15 | every request to either router and every TTL pass keeps the schema constraints: unique codes and a non-empty `originalUrl` |
| `Lifecycle.Run` | models/Url.js:4-15 | any sequence of requests and TTL passes keeps the schema constraints |
| `Lifecycle.PermanentLinkSurvives` | routes/urlRoutes.js:53-62 | a document with a null `expiresAt` survives every sequence of requests and sweeps; only its `clicks` changes, and never downwards |
| `Lifecycle.ClicksCountVisits` | routes/urlRoutes.js:59-62 | N resolves of an active code raise its `clicks` by exactly N and change nothing else |
| `Lifecycle.ExpiredIsGoneThenNotFound` | routes/urlRoutes.js:46-57 | an expired code is reported Gone once; after that, resolve and analytics on either router report it as not found |
| `Lifecycle.SweepAndResolveCommute` | routes/urlRoutes.js:53-57 | resolve's expiry test and the TTL rule agree: resolving and sweeping at the same time reach the same collection in either order; the responses differ only by Gone versus not found |
| `Lifecycle.PastExpiryIsGone` | routes/urlRoutes.js:20-23 | a code shortened with a negative `expiresIn` whose expiry is still a valid date is reported Gone by every resolve from its creation on |
| `Lifecycle.HugeExpiryFails` | routes/urlRoutes.js:20-26 | an `expiresIn` of more than 200,000,000 days makes an Invalid Date, so shorten answers 500 and stores nothing, on either router |
| `Lifecycle.ShortenVisitAnalytics` | routes/urlRoutes.js:25-85 | shortening "https://example.com" without expiry gives 201 with "No expiration set"; one visit redirects to it; analytics then reports one click |
| `Lifecycle.CategorizationNeverFailsShorten` | urlRoutes.js:68-72 | whatever the fetch and classifier do, the categorised shorten gives the same status and the same documents as the plain one, up to the category |

## Left out

- The server setup is not part of this model: Express middleware, CORS, static files, the MongoDB connection, the port, and the catch-all 404 routers.
- The browser script is not part of this model.
- The network fetch (axios, 5 s timeout) and the HTML parsing (cheerio) are not modelled; their result is the input `Page`: a failure, or the title and description text.
- The Naive Bayes classifier and its training loop are not modelled; they are a foreign library scoring in floating point. The classifier is the input `classify`, a function from text to an optional training label. A thrown error counts as no label.
- `shortid.generate` randomness is not modelled: the code is a parameter. The schema's own `shortUrl` default is unused, because both handlers always supply a code.
- CategorizedRoutes.Shorten: its contract does not say that a rejected request is never categorised. The page fetch is an input here, not an effect, so only the method body shows that validation comes first.
- The clock is a parameter. The model uses one reading, `now`, for both `createdAt` (`Date.now`) and `expiresAt` (`new Date()`); the code reads the clock twice.
- `UrlRoutes.ExpiryFrom`: a day is always 86,400,000 ms. `setDate` calendar arithmetic is not modelled, so daylight-saving shifts are left out. `expiresIn` is a whole number, so `isNaN`/`parseInt` coercion of strings such as "0" or "1e3", or of fractional numbers, is left out.
- `UrlModel.Collection.SetClicks`: the `clicks++` and then `save` read-modify-write is modelled for one request at a time. Lost updates between concurrent resolves of the same code are not modelled.
- Store failures other than validation and the unique index are not modelled; in the code they also lead to 500. Examples are a connection loss or a failed delete.
- The TTL monitor runs at MongoDB's own intervals. Its timing is not modelled; a pass is the explicit `Collection.Sweep(now)`.
- Response messages, emoji, the unused `baseUrl` and the ISO string format of dates are not modelled: a date appears as its millisecond value.

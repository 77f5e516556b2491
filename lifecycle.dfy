/** The life of a short code across a sequence of requests to either router
    and passes of the TTL monitor: Active, then Expired once `now` passes
    `expiresAt`, then Gone once a resolve or a sweep deletes it. */
module Lifecycle {
  import opened Wrappers
  import opened UrlModel
  import opened Http
  import opened UrlRoutes
  import CategorizedRoutes

  /** A request to one of the routers, or a pass of the TTL monitor. */
  datatype Event =
    | Shorten(originalUrl: UrlField, expiresIn: Option<int>, code: string, now: int)
    | ShortenCategorized(originalUrl: UrlField, expiresIn: Option<int>, code: string, now: int,
                         page: CategorizedRoutes.Page, classify: string -> Option<CategorizedRoutes.Label>)
    | Resolve(code: string, now: int)
    | Analytics(code: string)
    | Sweep(now: int)

  /** The collection after one event. */
  function Apply(t: Table, e: Event): (u: Table)
    requires ValidTable(t)
    ensures ValidTable(u)
  {
    match e
    case Shorten(originalUrl, expiresIn, code, now) =>
      ShortenStep(t, originalUrl, expiresIn, code, now).table
    case ShortenCategorized(originalUrl, expiresIn, code, now, page, classify) =>
      CategorizedRoutes.ShortenStep(t, originalUrl, expiresIn, code, now, page, classify).table
    case Resolve(code, now) => ResolveStep(t, code, now).table
    case Analytics(_) => t
    case Sweep(now) => Swept(t, now)
  }

  /** The collection after a sequence of events, in order. */
  function Run(t: Table, events: seq<Event>): (u: Table)
    requires ValidTable(t)
    ensures ValidTable(u)
    decreases |events|
  {
    if events == [] then t else Run(Apply(t, events[0]), events[1..])
  }

  /** A document stored with a null `expiresAt` is never deleted, by a
      resolve or by a sweep, and only its `clicks` ever changes, never
      downwards. */
  lemma {:induction false} PermanentLinkSurvives(t: Table, events: seq<Event>, code: string)
    requires ValidTable(t)
    requires code in t && t[code].expiresAt.None?
    ensures code in Run(t, events)
    ensures Run(t, events)[code] == t[code].(clicks := Run(t, events)[code].clicks)
    ensures Run(t, events)[code].clicks >= t[code].clicks
    decreases |events|
  {
    if events != [] {
      var u := Apply(t, events[0]);
      assert code in u && u[code] == t[code].(clicks := u[code].clicks) && u[code].clicks >= t[code].clicks by {
        match events[0]
        case Shorten(originalUrl, expiresIn, c, now) =>
        case ShortenCategorized(originalUrl, expiresIn, c, now, page, classify) =>
        case Resolve(c, now) =>
        case Analytics(_) =>
        case Sweep(now) =>
      }
      PermanentLinkSurvives(u, events[1..], code);
    }
  }

  /** One resolve of `code` at each of the given times. */
  function Visits(code: string, times: seq<int>): (events: seq<Event>)
    ensures |events| == |times|
    ensures forall i | 0 <= i < |times| :: events[i] == Resolve(code, times[i])
  {
    if times == [] then [] else [Resolve(code, times[0])] + Visits(code, times[1..])
  }

  /** Resolving an active code N times adds exactly N to its `clicks` and
      changes nothing else. */
  lemma {:induction false} ClicksCountVisits(t: Table, code: string, times: seq<int>)
    requires ValidTable(t)
    requires code in t
    requires forall i | 0 <= i < |times| :: !Expired(t[code], times[i])
    ensures Run(t, Visits(code, times)) == t[code := t[code].(clicks := t[code].clicks + |times|)]
    decreases |times|
  {
    if times != [] {
      var u := ResolveStep(t, code, times[0]).table;
      assert u == t[code := t[code].(clicks := t[code].clicks + 1)];
      ClicksCountVisits(u, code, times[1..]);
    }
  }

  /** An expired code is reported Gone once, and not found by every later
      resolve and by analytics on either router. */
  lemma ExpiredIsGoneThenNotFound(t: Table, code: string, now: int, later: int)
    requires ValidTable(t)
    requires code in t && Expired(t[code], now)
    ensures ResolveStep(t, code, now).response == Gone
    ensures ResolveStep(ResolveStep(t, code, now).table, code, later).response == NotFound
    ensures UrlRoutes.AnalyticsView(ResolveStep(t, code, now).table, code) == NotFound
    ensures CategorizedRoutes.AnalyticsView(ResolveStep(t, code, now).table, code) == NotFound
  {
  }

  /** Resolve's expiry check and the TTL monitor agree on which documents
      have expired: resolving and sweeping at the same time leave the same
      collection in either order, and the only difference a caller sees is
      Gone where the sweep came first and left nothing to find. */
  lemma SweepAndResolveCommute(t: Table, code: string, now: int)
    requires ValidTable(t)
    ensures ResolveStep(Swept(t, now), code, now).table == Swept(ResolveStep(t, code, now).table, now)
    ensures var before, after := ResolveStep(t, code, now).response, ResolveStep(Swept(t, now), code, now).response;
      before == after || (before == Gone && after == NotFound)
  {
    var swept, resolved := Swept(t, now), ResolveStep(t, code, now).table;
    var lhs, rhs := ResolveStep(swept, code, now).table, Swept(resolved, now);
    if code !in t {
      assert resolved == t;
    } else if Expired(t[code], now) {
      assert code !in swept;
      assert lhs == swept;
      assert resolved == t - {code};
      assert lhs.Keys == rhs.Keys;
    } else {
      assert code in swept && swept[code] == t[code];
      assert resolved == t[code := t[code].(clicks := t[code].clicks + 1)];
      assert lhs == swept[code := t[code].(clicks := t[code].clicks + 1)];
      assert lhs.Keys == rhs.Keys;
    }
  }

  /** A code shortened with a negative `expiresIn` is already expired: any
      resolve from the moment of creation on reports Gone. */
  lemma PastExpiryIsGone(t: Table, url: string, days: int, code: string, now: int, later: int)
    requires ValidTable(t)
    requires url != "" && code !in t && days < 0 && now <= later
    requires IsDate(now + days * MillisPerDay)
    ensures var created := ShortenStep(t, Text(url), Some(days), code, now);
      created.response.Created? && ResolveStep(created.table, code, later).response == Gone
  {
  }

  /** An `expiresIn` so large that the expiry leaves the `Date` range makes
      an Invalid Date: the save fails, the answer is 500 and nothing is
      stored, on either router. */
  lemma HugeExpiryFails(t: Table, url: string, days: int, code: string, now: int,
                        page: CategorizedRoutes.Page, classify: string -> Option<CategorizedRoutes.Label>)
    requires ValidTable(t)
    requires url != "" && IsDate(now) && days > 200_000_000
    ensures ShortenStep(t, Text(url), Some(days), code, now) == Outcome(t, ServerError)
    ensures CategorizedRoutes.ShortenStep(t, Text(url), Some(days), code, now, page, classify) == Outcome(t, ServerError)
  {
    var expiresAt := ExpiryFrom(Some(days), now);
    assert expiresAt.value == now + days * MillisPerDay;
    assert days * MillisPerDay > 200_000_000 * MillisPerDay;
    assert !InRange(expiresAt);
  }

  /** The walk-through of a fresh link: shorten "https://example.com"
      without expiry, follow the short code once, and analytics reports one
      click. */
  lemma ShortenVisitAnalytics(t: Table, code: string, now: int, visit: int)
    requires ValidTable(t) && code !in t
    ensures var url := "https://example.com";
      var created := ShortenStep(t, Text(url), None, code, now);
      var visited := ResolveStep(created.table, code, visit);
      && created.response == Created(url, code, None, NoExpirationSet)
      && visited.response == Redirect(url)
      && UrlRoutes.AnalyticsView(visited.table, code) == Stats(url, code, None, 1, now, NoExpirationSet)
  {
  }

  /** Whatever the fetch and the classifier do, a categorised shorten
      succeeds or fails exactly as the uncategorised one does and stores the
      same document up to its category. */
  lemma CategorizationNeverFailsShorten(t: Table, originalUrl: UrlField, expiresIn: Option<int>,
                                        code: string, now: int, page: CategorizedRoutes.Page,
                                        classify: string -> Option<CategorizedRoutes.Label>)
    requires ValidTable(t)
    ensures var plain := ShortenStep(t, originalUrl, expiresIn, code, now);
      var tagged := CategorizedRoutes.ShortenStep(t, originalUrl, expiresIn, code, now, page, classify);
      && tagged.table.Keys == plain.table.Keys
      && (forall k | k in plain.table :: tagged.table[k] == plain.table[k].(category := tagged.table[k].category))
      && Status(tagged.response) == Status(plain.response)
  {
  }
}
